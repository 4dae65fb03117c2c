// What the scanner does with lines that were typed rather than printed.
module LexerLaws {
  import opened Bytes
  import opened Lexer
  import opened RoundTrip

  // Splitting at blanks, one character at a time.
  function Split(s: Str, word: Str): seq<Str>
    decreases |s|
  {
    if s == [] then (if word == [] then [] else [word])
    else if IsSpace(s[0]) then (if word == [] then [] else [word]) + Split(s[1..], [])
    else Split(s[1..], word + [s[0]])
  }

  predicate Unquoted(s: Str) {
    forall i :: 0 <= i < |s| ==> s[i] != 0 && !IsQuote(s[i]) && s[i] != BACKSLASH
  }

  lemma {:induction false} NothingUnescaped(s: Str)
    requires forall i :: 0 <= i < |s| ==> s[i] != BACKSLASH
    ensures UnEscaped(s) == s
  {
    if s != [] {
      NothingUnescaped(s[1..]);
    }
  }

  // A line without quotes and backslashes is split at its blanks.
  lemma {:induction false} UnquotedIsSplit(s: Str)
    requires Unquoted(s)
    ensures Words(s) == Split(s, [])
    decreases |s|
  {
    hide BareLen, RunLen, UnEscaped;
    var k := BlankLen(s);
    SplitBlanks(s);
    if k < |s| {
      var t := s[k..];
      var n := BareLen(t);
      BareToBlank(t);
      NothingUnescaped(t[..n]);
      SplitWord(t, [], n);
      assert [] + t[..n] == t[..n];
      UnquotedIsSplit(t[n..]);
    }
  }

  lemma {:induction false} SplitBlanks(s: Str)
    ensures Split(s, []) == Split(s[BlankLen(s)..], [])
    decreases |s|
  {
    if s != [] && IsSpace(s[0]) {
      SplitBlanks(s[1..]);
      assert s[1..][BlankLen(s[1..])..] == s[BlankLen(s)..];
    } else {
      assert s[0..] == s;
    }
  }

  lemma {:induction false} BareToBlank(s: Str)
    requires Unquoted(s)
    ensures forall i :: 0 <= i < BareLen(s) ==> !IsSpace(s[i])
    ensures BareLen(s) < |s| ==> IsSpace(s[BareLen(s)])
  {
    if s != [] && !IsSpace(s[0]) {
      BareToBlank(s[1..]);
    }
  }

  lemma {:induction false} SplitWord(s: Str, word: Str, n: nat)
    requires n <= |s| && word + s[..n] != []
    requires forall i :: 0 <= i < n ==> !IsSpace(s[i])
    requires n < |s| ==> IsSpace(s[n])
    ensures Split(s, word) == [word + s[..n]] + Split(s[n..], [])
    decreases n
  {
    if n > 0 {
      SplitWord(s[1..], word + [s[0]], n - 1);
      assert word + [s[0]] + s[1..][..n - 1] == word + s[..n];
      assert s[1..][n - 1..] == s[n..];
    } else if s != [] {
      assert word + s[..0] == word;
      assert s[0..] == s;
      assert Split(s, []) == Split(s[1..], []);
    } else {
      assert word + s[..0] == word;
    }
  }

  // Printable characters but the blank, the quotes and the backslash.
  predicate Letters(w: Str) {
    w != [] && forall i :: 0 <= i < |w| ==> 32 < w[i] && w[i] != APOS && w[i] != DQUOTE && w[i] != BACKSLASH
  }

  // Blank, tab, line feed, vertical tab, form feed and carriage return separate
  // words, and no other character but a quote, a backslash or a NUL does anything.
  lemma {:induction false} Separators(a: Str, c: Code, b: Str)
    requires Letters(a) && Letters(b)
    ensures c in [32, 9, 10, 11, 12, 13] ==> Words(a + [c] + b) == [a, b]
    ensures c !in [0, 32, 9, 10, 11, 12, 13, APOS, DQUOTE, BACKSLASH] ==>
      Words(a + [c] + b) == [a + [c] + b]
  {
    hide Words, Split;
    var s := a + [c] + b;
    if c !in [0, APOS, DQUOTE, BACKSLASH] {
      UnquotedIsSplit(s);
      assert [] + s[..|a|] == a && [] + s[..|s|] == s && [] + b[..|b|] == b && s[|s|..] == [] && b[|b|..] == [];
      SplitNothing();
      if c in [32, 9, 10, 11, 12, 13] {
        SplitWord(s, [], |a|);
        assert s[|a|..] == [c] + b;
        SplitBlank(c, b);
        SplitWord(b, [], |b|);
        assert [a] + ([b] + []) == [a, b];
      } else {
        SplitWord(s, [], |s|);
        assert [s] + [] == [s];
      }
    }
  }

  lemma {:induction false} SplitNothing()
    ensures Split([], []) == []
  {
  }

  lemma {:induction false} SplitBlank(c: Code, b: Str)
    requires IsSpace(c)
    ensures Split([c] + b, []) == Split(b, [])
  {
    assert ([c] + b)[1..] == b;
    assert [] + Split(b, []) == Split(b, []);
  }

  // A backslash in front of any character is dropped, one at the end is kept.
  lemma {:induction false} UnescapeAny(c: Code, s: Str)
    ensures UnEscaped([BACKSLASH, c] + s) == [c] + UnEscaped(s)
    ensures UnEscaped([BACKSLASH]) == [BACKSLASH]
    ensures c != BACKSLASH ==> UnEscaped([c] + s) == [c] + UnEscaped(s)
  {
    assert ([BACKSLASH, c] + s)[2..] == s && ([c] + s)[1..] == s;
    LoneBackslash();
  }

  // A name without quotes and backslashes is printed as it is, unless it is empty or
  // holds a blank; then it stands in double quotes. Double quotes and backslashes get
  // a backslash in front.
  lemma {:induction false} QuotedForms(name: Str)
    ensures Letters(name) ==> Quoted(name) == name
    ensures NothingToEscape(name) && (name == [] || HoldsBlank(name)) ==> Quoted(name) == [34] + name + [34]
    ensures Quoted([34]) == [92, 34] && Quoted([92]) == [92, 92]
  {
    hide Wrapped;
    if NothingToEscape(name) {
      NothingEscaped(name);
    }
    WrappedNames(name);
    WrappedNames([34]);
    WrappedNames([92]);
    assert Letters(name) ==> NothingToEscape(name);
    assert [34][1..] == [] && [92][1..] == [];
  }

  predicate NothingToEscape(name: Str) {
    forall i :: 0 <= i < |name| ==> name[i] != DQUOTE && name[i] != BACKSLASH
  }

  predicate HoldsBlank(name: Str) {
    exists i :: 0 <= i < |name| && name[i] in [32, 9, 10, 11, 12, 13]
  }

  lemma {:induction false} WrappedNames(name: Str)
    ensures Wrapped(name) <==> name == [] || HoldsBlank(name)
  {
  }

  // A line has no words exactly if it is blank.
  lemma {:induction false} NoWords(s: Str)
    requires 0 !in s
    ensures Words(s) == [] <==> forall i :: 0 <= i < |s| ==> IsSpace(s[i])
  {
    hide WordAt, UnEscaped;
    if BlankLen(s) == |s| {
      AllBlank(s);
    } else {
      assert s[BlankLen(s)] in s;
    }
  }

  // ---------------------------------------------------------------------------
  // Words with quoted segments, such as JSON arguments.

  // A backslash-free text whose blanks all lie inside quoted segments.
  predicate Segmented(s: Str)
    decreases |s|
  {
    if s == [] then true
    else if IsQuote(s[0]) then
      var n := RunLen(s[1..], s[0], false, false);
      && 1 + n < |s| && s[1 + n] == s[0]
      && (forall i :: 0 <= i <= n ==> s[i] != BACKSLASH)
      && Segmented(s[n + 2..])
    else s[0] != 0 && s[0] != BACKSLASH && !IsSpace(s[0]) && Segmented(s[1..])
  }

  lemma {:induction false} RunIgnoresTail(s: Str, tail: Str, quote: Code, afterBackslash: bool)
    requires var n := RunLen(s, quote, false, afterBackslash);
      n < |s| && s[n] == quote && quote != 0 && forall i :: 0 <= i < n ==> s[i] != BACKSLASH
    ensures RunLen(s + tail, quote, false, afterBackslash) == RunLen(s, quote, false, afterBackslash)
    decreases |s|
  {
    assert (s + tail)[0] == s[0];
    if s[0] != 0 && s[0] != quote {
      assert s[0] != BACKSLASH;
      var n := RunLen(s[1..], quote, false, false);
      assert s[1..][n] == s[n + 1];
      RunIgnoresTail(s[1..], tail, quote, false);
      assert (s + tail)[1..] == s[1..] + tail;
    }
  }

  lemma {:induction false} SegmentedIsOneWord(c: Code, s: Str, tail: Str)
    requires c != 0 && !IsSpace(c) && Segmented(s)
    requires tail == [] || IsSpace(tail[0])
    ensures BareLen([c] + s + tail) == 1 + |s|
    decreases |s|
  {
    hide RunLen, BareLen, Segmented, IsSpace;
    if s == [] {
      BareLast(c, tail);
      assert [c] + s + tail == [c] + tail;
      return;
    }
    SegmentedFront(s);
    if IsQuote(s[0]) {
      var n := RunLen(s[1..], s[0], false, false);
      RunOfSegment(s, tail);
      BareSegment(c, s[0], s[1..] + tail);
      SegmentRegrouped(c, s, tail, n);
      SegmentedIsOneWord(s[0], s[n + 2..], tail);
    } else {
      BareChar(c, s + tail);
      CharRegrouped(c, s, tail);
      SegmentedIsOneWord(s[0], s[1..], tail);
    }
  }

  lemma SegmentRegrouped(c: Code, s: Str, tail: Str, n: nat)
    requires n + 2 <= |s| && s[1 + n] == s[0]
    ensures [c] + s + tail == [c, s[0]] + (s[1..] + tail)
    ensures (s[1..] + tail)[n..] == [s[0]] + s[n + 2..] + tail
  {
  }

  lemma CharRegrouped(c: Code, s: Str, tail: Str)
    requires s != []
    ensures [c] + s + tail == [c] + (s + tail) && s + tail == [s[0]] + s[1..] + tail
  {
  }

  lemma SegmentedFront(s: Str)
    requires Segmented(s) && s != []
    ensures s[0] != 0 && !IsSpace(s[0]) && s[0] != BACKSLASH
    ensures if IsQuote(s[0]) then
        var n := RunLen(s[1..], s[0], false, false);
        n + 2 <= |s| && s[1 + n] == s[0] && Segmented(s[n + 2..])
      else Segmented(s[1..])
  {
  }

  // The last character of a word.
  lemma BareLast(c: Code, tail: Str)
    requires c != 0 && !IsSpace(c) && (tail == [] || IsSpace(tail[0]))
    ensures BareLen([c] + tail) == 1
  {
    hide RunLen, BareLen, IsSpace;
    BareUnfold([c] + tail);
    BareStops(tail);
    assert ([c] + tail)[1..] == tail;
    if tail != [] {
      BlankIsNoQuote(tail[0]);
    }
  }

  lemma BlankIsNoQuote(c: Code)
    requires IsSpace(c)
    ensures !IsQuote(c)
  {
  }

  lemma RunOfSegment(s: Str, tail: Str)
    requires s != [] && IsQuote(s[0]) && Segmented(s)
    ensures RunLen(s[1..] + tail, s[0], false, false) == RunLen(s[1..], s[0], false, false)
  {
    var n := RunLen(s[1..], s[0], false, false);
    assert forall i :: 0 <= i < n ==> s[1..][i] == s[i + 1];
    RunIgnoresTail(s[1..], tail, s[0], false);
  }

  lemma {:induction false} SegmentedNoBackslash(s: Str)
    requires Segmented(s)
    ensures forall i :: 0 <= i < |s| ==> s[i] != BACKSLASH
    decreases |s|
  {
    hide RunLen, IsSpace;
    if s != [] {
      if IsQuote(s[0]) {
        var n := RunLen(s[1..], s[0], false, false);
        SegmentedNoBackslash(s[n + 2..]);
        assert forall i :: n + 2 <= i < |s| ==> s[i] == s[n + 2..][i - (n + 2)];
      } else {
        SegmentedNoBackslash(s[1..]);
      }
    }
  }

  // Such a word, started by anything but a quote, is taken over verbatim,
  // blanks and quotes included.
  lemma SegmentedWordVerbatim(c: Code, s: Str, tail: Str)
    requires c != 0 && !IsSpace(c) && !IsQuote(c) && c != BACKSLASH && Segmented(s)
    requires tail == [] || IsSpace(tail[0])
    ensures Words([c] + s + tail) == [[c] + s] + Words(tail)
  {
    hide BareLen, Segmented, UnEscaped;
    var line := [c] + s + tail;
    SegmentedIsOneWord(c, s, tail);
    SegmentedNoBackslash(s);
    NothingUnescaped([c] + s);
    assert line[..1 + |s|] == [c] + s;
    assert line[1 + |s|..] == tail;
    WordsFrom(line);
  }

  // ---------------------------------------------------------------------------
  // Completion asks for an empty last word when blanks follow the last one.

  // An unquoted line ends in an empty word exactly if it ends in a blank.
  lemma {:induction false} UnquotedTrailingBlank(s: Str)
    requires Unquoted(s)
    ensures TrailingBlank(s) <==> s != [] && IsSpace(s[|s| - 1])
    decreases |s|
  {
    hide BareLen, RunLen, IsSpace, TrailingBlank, BlankLen;
    var k := BlankLen(s);
    if k < |s| {
      var t := s[k..];
      var n := BareLen(t);
      UnquotedWord(s);
      BareToBlank(t);
      UnquotedTrailingBlank(t[n..]);
      if n == |t| {
        assert t[n - 1] == s[|s| - 1];
      } else {
        assert t[n..][|t[n..]| - 1] == s[|s| - 1];
      }
    } else {
      AllBlank(s);
      WordsEnd(s);
    }
  }

  // The first word of such a line, and what is behind it.
  lemma UnquotedWord(s: Str)
    requires Unquoted(s) && BlankLen(s) < |s|
    ensures var t := s[BlankLen(s)..];
      && 0 < BareLen(t) && Unquoted(t) && Unquoted(t[BareLen(t)..])
      && TrailingBlank(s) == TrailingBlank(t[BareLen(t)..])
  {
    hide BareLen, BlankLen, IsSpace, IsQuote, TrailingBlank, WordAt, Unquoted;
    var t := s[BlankLen(s)..];
    UnquotedRest(s, BlankLen(s));
    UnquotedFirst(t);
    TrailingStep(s);
    BareIsWord(t);
    UnquotedRest(t, BareLen(t));
  }

  lemma UnquotedRest(s: Str, k: nat)
    requires Unquoted(s) && k <= |s|
    ensures Unquoted(s[k..])
  {
    assert forall i :: 0 <= i < |s[k..]| ==> s[k..][i] == s[k + i];
  }

  lemma UnquotedFirst(t: Str)
    requires Unquoted(t) && t != []
    ensures t[0] != 0 && !IsQuote(t[0])
  {
    hide IsQuote;
  }

  lemma TrailingStep(s: Str)
    requires BlankLen(s) < |s| && s[BlankLen(s)] != 0 && !IsSpace(s[BlankLen(s)])
    ensures var t := s[BlankLen(s)..];
      TrailingBlank(s) == TrailingBlank(t[WordAt(t).1..])
  {
    hide WordAt, BlankLen, IsSpace;
  }

  lemma BareIsWord(t: Str)
    requires t != [] && t[0] != 0 && !IsSpace(t[0]) && !IsQuote(t[0])
    ensures WordAt(t).1 == BareLen(t)
  {
    hide BareLen, RunLen, IsSpace, IsQuote;
  }

  lemma {:induction false} AllBlank(s: Str)
    requires BlankLen(s) == |s|
    ensures forall i :: 0 <= i < |s| ==> IsSpace(s[i])
  {
    if s != [] {
      AllBlank(s[1..]);
    }
  }
}
