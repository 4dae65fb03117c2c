// When a line printed with quoteNameIfNecessary is read back as the names it was
// printed from.
module RoundTrip {
  import opened Bytes
  import opened Lexer

  // ---------------------------------------------------------------------------
  // The condition, on the names themselves.

  // A backslash directly followed by a double quote. The printer doubles the
  // backslash, and then the scanner no longer sees the quote as escaped.
  predicate BackslashQuote(name: Str) {
    exists i :: 0 < i < |name| && name[i - 1] == BACKSLASH && name[i] == DQUOTE
  }

  // Whether a run opened by `quote` is closed by character `i` of a name.
  predicate Closes(name: Str, quote: Code, i: nat)
    requires i < |name|
  {
    name[i] == quote && (quote == DQUOTE ==> i > 0 && name[i - 1] == BACKSLASH)
  }

  // The first character that closes it, or the length of the name.
  function ClosedAt(name: Str, quote: Code, i: nat): (r: nat)
    requires i <= |name|
    ensures i <= r <= |name|
    decreases |name| - i
  {
    if i == |name| || Closes(name, quote, i) then i else ClosedAt(name, quote, i + 1)
  }

  // Every quote in the name opens a run that the name itself closes again.
  predicate Balanced(name: Str)
    decreases |name|
  {
    if name == [] then true
    else if IsQuote(name[0]) then
      var rest := name[1..];
      var j := ClosedAt(rest, name[0], 0);
      j < |rest| && Balanced(rest[j + 1..])
    else Balanced(name[1..])
  }

  // A name that survives being printed: at the end of a line (`last`), or with
  // more names behind it.
  predicate Printable(name: Str, last: bool) {
    && 0 !in name
    && if Wrapped(name) then !BackslashQuote(name)
       else name[0] != APOS && (last || Balanced(name))
  }

  predicate AllPrintable(names: seq<Str>) {
    names == [] || (Printable(names[0], |names| == 1) && AllPrintable(names[1..]))
  }

  // ---------------------------------------------------------------------------
  // Unescaping undoes escaping.

  lemma {:induction false} UnescapeEscaped(name: Str, tail: Str)
    ensures UnEscaped(Escaped(name) + tail) == name + UnEscaped(tail)
  {
    hide *;
    if name == [] {
      EscapedNone();
      assert [] + tail == tail && [] + UnEscaped(tail) == UnEscaped(tail);
    } else {
      UnescapeEscaped(name[1..], tail);
      EscapedCons(name);
      Associates(EscapedChar(name[0]), Escaped(name[1..]), tail);
      UnescapeStep(name[0], Escaped(name[1..]) + tail);
      Associates([name[0]], name[1..], UnEscaped(tail));
      assert [name[0]] + name[1..] == name;
    }
  }

  lemma UnescapeStep(c: Code, rest: Str)
    ensures UnEscaped(EscapedChar(c) + rest) == [c] + UnEscaped(rest)
  {
    var e := EscapedChar(c);
    assert (e + rest)[|e|..] == rest;
  }

  lemma UnescapeWhole(name: Str)
    ensures UnEscaped(Escaped(name)) == name
  {
    UnescapeEscaped(name, []);
    assert Escaped(name) + [] == Escaped(name);
  }

  lemma {:induction false} UnescapeNonempty(s: Str)
    requires 0 !in s
    ensures 0 !in UnEscaped(s) && (s != [] ==> UnEscaped(s) != [])
    decreases |s|
  {
    if s != [] {
      if s[0] != BACKSLASH {
        UnescapeNonempty(s[1..]);
      } else if |s| > 1 {
        UnescapeNonempty(s[2..]);
      }
    }
  }

  // ---------------------------------------------------------------------------
  // Scanning a quoted run over an escaped name.

  // `before` says whether the character in front of the name is a backslash.
  predicate ClosesFirst(name: Str, quote: Code, before: bool)
    requires name != []
  {
    name[0] == quote && (quote == DQUOTE ==> before)
  }

  function RunOver(name: Str, quote: Code, before: bool): (r: nat)
    ensures r <= |name|
  {
    if name == [] || ClosesFirst(name, quote, before) then 0
    else 1 + RunOver(name[1..], quote, name[0] == BACKSLASH)
  }

  lemma {:induction false} RunOverIsClosedAt(name: Str, quote: Code, i: nat)
    requires i <= |name|
    ensures ClosedAt(name, quote, i) == i + RunOver(name[i..], quote, i > 0 && name[i - 1] == BACKSLASH)
    decreases |name| - i
  {
    if i < |name| && !Closes(name, quote, i) {
      assert name[i..][1..] == name[i + 1..];
      RunOverIsClosedAt(name, quote, i + 1);
    }
  }

  predicate EndsInBackslash(name: Str, before: bool) {
    if name == [] then before else name[|name| - 1] == BACKSLASH
  }

  // The run over the escaped name goes as far as the name allows; a closing
  // double quote leaves the backslash printed in front of it inside the run.
  lemma {:induction false} RunOverEscaped(name: Str, quote: Code, before: bool, tail: Str)
    requires IsQuote(quote) && 0 !in name
    ensures var j := RunOver(name, quote, before);
      var n := RunLen(Escaped(name) + tail, quote, false, before);
      if j == |name| then
        n == |Escaped(name)| + RunLen(tail, quote, false, EndsInBackslash(name, before))
      else
        n == |Escaped(name[..j])| + (if quote == DQUOTE then 1 else 0)
        && name[j] == quote
  {
    hide *;
    if name == [] {
      EscapedNone();
      RunOverNone(quote, before);
      assert [] + tail == tail;
    } else {
      var rest := Escaped(name[1..]) + tail;
      EscapedCons(name);
      RunOverCons(name, quote, before);
      Associates(EscapedChar(name[0]), Escaped(name[1..]), tail);
      if !ClosesFirst(name, quote, before) {
        RunOverEscaped(name[1..], quote, name[0] == BACKSLASH, tail);
        if RunOver(name[1..], quote, name[0] == BACKSLASH) < |name[1..]| {
          EscapedPrefix(name, RunOver(name[1..], quote, name[0] == BACKSLASH));
        }
        StepOver(name[0], quote, before, rest, name);
      } else {
        EscapedNone();
        assert name[..0] == [];
        ClosesWith(name, quote, before);
        RunCloses(quote, before, rest);
      }
    }
  }

  lemma RunOverNone(quote: Code, before: bool)
    ensures RunOver([], quote, before) == 0 && EndsInBackslash([], before) == before
  {
  }

  lemma RunOverCons(name: Str, quote: Code, before: bool)
    requires name != []
    ensures RunOver(name, quote, before) ==
      if ClosesFirst(name, quote, before) then 0 else 1 + RunOver(name[1..], quote, name[0] == BACKSLASH)
    ensures EndsInBackslash(name, before) == EndsInBackslash(name[1..], name[0] == BACKSLASH)
  {
  }

  lemma EscapedPrefix(name: Str, j: nat)
    requires name != [] && j < |name|
    ensures |Escaped(name[..j + 1])| == |EscapedChar(name[0])| + |Escaped(name[1..][..j])|
  {
    assert name[..j + 1][1..] == name[1..][..j];
  }

  lemma StepOver(c: Code, quote: Code, before: bool, rest: Str, name: Str)
    requires name != [] && c == name[0] && 0 !in name && IsQuote(quote) && !ClosesFirst(name, quote, before)
    ensures RunLen(EscapedChar(c) + rest, quote, false, before)
         == |EscapedChar(c)| + RunLen(rest, quote, false, c == BACKSLASH)
  {
    RunStep(c, quote, before, rest);
  }

  lemma ClosesWith(name: Str, quote: Code, before: bool)
    requires name != [] && ClosesFirst(name, quote, before)
    ensures name[0] == quote && (quote == DQUOTE ==> before)
  {
  }

  lemma RunCloses(quote: Code, before: bool, rest: Str)
    requires IsQuote(quote) && (quote == DQUOTE ==> before)
    ensures RunLen(EscapedChar(quote) + rest, quote, false, before) == if quote == DQUOTE then 1 else 0
  {
    var s := EscapedChar(quote) + rest;
    if quote == DQUOTE {
      assert s[1..] == [DQUOTE] + rest;
    }
  }

  lemma RunStep(c: Code, quote: Code, before: bool, rest: Str)
    requires IsQuote(quote) && c != 0
    requires !(c == quote && (quote == DQUOTE ==> before))
    ensures RunLen(EscapedChar(c) + rest, quote, false, before)
         == |EscapedChar(c)| + RunLen(rest, quote, false, c == BACKSLASH)
  {
    var e := EscapedChar(c);
    var s := e + rest;
    if |e| == 2 {
      assert s[1..] == [c] + rest;
      assert s[1..][1..] == rest;
    } else {
      assert s[1..] == rest;
    }
  }

  lemma {:induction false} EscapedConcat(s: Str, t: Str)
    ensures Escaped(s + t) == Escaped(s) + Escaped(t)
  {
    if s == [] {
      assert s + t == t;
    } else {
      assert (s + t)[1..] == s[1..] + t;
      EscapedConcat(s[1..], t);
      Associates(EscapedChar(s[0]), Escaped(s[1..]), Escaped(t));
    }
  }

  // An escaped name cut around its character `j`.
  lemma EscapedAround(name: Str, j: nat)
    requires j < |name|
    ensures Escaped(name) == Escaped(name[..j]) + EscapedChar(name[j]) + Escaped(name[j + 1..])
  {
    hide *;
    CutAt(name, j);
    EscapedConcat(name[..j], name[j..]);
    EscapedCons(name[j..]);
    Associates(Escaped(name[..j]), EscapedChar(name[j]), Escaped(name[j + 1..]));
  }

  lemma CutAt(name: Str, j: nat)
    requires j < |name|
    ensures name[..j] + name[j..] == name
    ensures name[j..] != [] && name[j..][0] == name[j] && name[j..][1..] == name[j + 1..]
  {
  }

  lemma EscapedCons(name: Str)
    requires name != []
    ensures Escaped(name) == EscapedChar(name[0]) + Escaped(name[1..])
  {
  }

  // ---------------------------------------------------------------------------
  // Scanning a bare word.

  predicate Solid(s: Str) {
    forall i :: 0 <= i < |s| ==> s[i] != 0 && !IsSpace(s[i])
  }

  predicate Separated(tail: Str) {
    tail == [] || tail[0] == SPACE
  }

  // The scanner over a character in front of a plain one, and over a character in
  // front of a quote.
  lemma BareChar(c: Code, rest: Str)
    requires c != 0 && !IsSpace(c) && rest != [] && !IsQuote(rest[0])
    ensures BareLen([c] + rest) == 1 + BareLen(rest)
  {
    hide RunLen, BareLen, IsSpace;
    BareUnfold([c] + rest);
    assert ([c] + rest)[1..] == rest;
  }

  lemma BareSegment(c: Code, quote: Code, rest: Str)
    requires c != 0 && !IsSpace(c) && IsQuote(quote)
    ensures var n := RunLen(rest, quote, false, false);
      BareLen([c, quote] + rest) == 2 + n + BareLen(rest[n..])
  {
    hide RunLen, BareLen, IsSpace;
    BareUnfold([c, quote] + rest);
    assert ([c, quote] + rest)[2..] == rest;
    var n := RunLen(rest, quote, false, false);
    assert ([c, quote] + rest)[2 + n..] == rest[n..];
  }

  // A printed quote opens a run right behind itself.
  lemma BareOpens(c: Code, quote: Code, r: Str)
    requires Solid([c]) && IsQuote(quote)
    ensures var n := RunLen(r, quote, false, false);
      BareLen([c] + EscapedChar(quote) + r) == 1 + |EscapedChar(quote)| + n + BareLen(r[n..])
  {
    hide BareLen, RunLen, IsSpace;
    assert [c][0] == c;
    if quote == DQUOTE {
      BackslashNoBlank();
      BareChar(c, [BACKSLASH, DQUOTE] + r);
      BareSegment(BACKSLASH, DQUOTE, r);
      Associates([c], [BACKSLASH, DQUOTE], r);
    } else {
      BareSegment(c, quote, r);
      assert [c] + [quote] == [c, quote];
    }
  }

  lemma BackslashNoBlank()
    ensures !IsSpace(BACKSLASH)
  {
  }

  // Any other character is one step.
  lemma BareSteps(c: Code, d: Code, r: Str)
    requires Solid([c, d]) && !IsQuote(d)
    ensures BareLen([c] + EscapedChar(d) + r) == |EscapedChar(d)| + BareLen([d] + r)
  {
    hide BareLen, RunLen;
    var s := [c] + EscapedChar(d) + r;
    assert [c, d][1] == d && [c, d][0] == c;
    BareUnfold(s);
    if d == BACKSLASH {
      BareUnfold(s[1..]);
      assert s[1..][1..] == [BACKSLASH] + r;
    } else {
      assert s[1..] == [d] + r;
    }
  }

  // The scanner ends the word with the name, unless a run is still open there
  // and more follows; then it goes on.
  lemma {:induction false} BareOverEscaped(c: Code, name: Str, tail: Str)
    requires Solid([c]) && Solid(name) && Separated(tail)
    ensures var n := BareLen([c] + Escaped(name) + tail);
      if tail == [] || Balanced(name) then n == 1 + |Escaped(name)| else n > 1 + |Escaped(name)|
    decreases |name|
  {
    hide *;
    if name == [] {
      BareEnds(c, tail);
      EscapedNone();
      BalancedNone();
    } else {
      var d, rest := name[0], name[1..];
      SolidParts(c, name);
      EscapedCons(name);
      BalancedCons(name);
      Regrouped([c], EscapedChar(d), Escaped(rest), tail);
      if IsQuote(d) {
        BareOpens(c, d, Escaped(rest) + tail);
        BareRun(d, rest, tail);
        var j := RunOver(rest, d, false);
        if j < |rest| {
          BareOverEscaped(d, rest[j + 1..], tail);
        } else {
          BareNone();
        }
      } else {
        BareSteps(c, d, Escaped(rest) + tail);
        Associates([d], Escaped(rest), tail);
        BareOverEscaped(d, rest, tail);
      }
    }
  }

  lemma Regrouped(a: Str, x: Str, y: Str, z: Str)
    ensures a + (x + y) + z == a + x + (y + z)
  {
  }

  lemma EscapedNone()
    ensures Escaped([]) == []
  {
  }

  lemma BalancedNone()
    ensures Balanced([])
  {
  }

  lemma BareNone()
    ensures BareLen([]) == 0
  {
  }

  lemma BalancedCons(name: Str)
    requires name != []
    ensures var j := RunOver(name[1..], name[0], false);
      Balanced(name) ==
        if IsQuote(name[0]) then j < |name[1..]| && Balanced(name[1..][j + 1..]) else Balanced(name[1..])
  {
    RunOverIsClosedAt(name[1..], name[0], 0);
    assert name[1..][0..] == name[1..];
  }

  lemma SolidParts(c: Code, name: Str)
    requires Solid([c]) && Solid(name) && name != []
    ensures Solid([name[0]]) && Solid([c, name[0]]) && Solid(name[1..])
    ensures forall j :: 0 <= j <= |name| ==> Solid(name[j..])
    ensures forall j :: 0 <= j <= |name[1..]| ==> Solid(name[1..][j..])
  {
    assert [c][0] == c;
    assert name[0..] == name;
  }

  lemma BareEnds(c: Code, tail: Str)
    requires Solid([c]) && Separated(tail)
    ensures BareLen([c] + Escaped([]) + tail) == 1
  {
    assert [c][0] == c;
    assert ([c] + Escaped([]) + tail)[1..] == tail;
  }

  // Where the run over the rest of a name leaves the scanner.
  lemma BareRun(quote: Code, rest: Str, tail: Str)
    requires IsQuote(quote) && Solid(rest) && Separated(tail)
    ensures var r := Escaped(rest) + tail;
      var j := RunOver(rest, quote, false);
      var n := RunLen(r, quote, false, false);
      if j < |rest| then
        && r[n..] == [quote] + Escaped(rest[j + 1..]) + tail
        && n + 1 + |Escaped(rest[j + 1..])| == |Escaped(rest)|
      else
        && (tail == [] ==> n == |Escaped(rest)| == |r|)
        && (tail != [] ==> n > |Escaped(rest)|)
  {
    hide RunOver, Escaped;
    var r := Escaped(rest) + tail;
    var j := RunOver(rest, quote, false);
    RunOverEscaped(rest, quote, false, tail);
    if j < |rest| {
      EscapedAround(rest, j);
      var n := RunLen(r, quote, false, false);
      var a, z := Escaped(rest[..j]), Escaped(rest[j + 1..]);
      assert r == a + EscapedChar(quote) + z + tail;
      assert EscapedChar(quote)[|EscapedChar(quote)| - 1..] == [quote];
      assert r[n..] == [quote] + z + tail;
    }
  }

  // ---------------------------------------------------------------------------
  // The first word of a printed line.

  const X: Code := 'x' as int

  // A bare name starts with a character that is neither a blank nor, once printed,
  // a quote.
  lemma FirstPrinted(name: Str, tail: Str)
    requires !Wrapped(name) && 0 !in name && name[0] != APOS
    ensures var s := Escaped(name) + tail;
      Solid(name) && Solid([X]) && s != [] && s[0] != 0 && !IsSpace(s[0]) && !IsQuote(s[0])
  {
  }

  lemma BareHead(name: Str, tail: Str)
    requires !Wrapped(name) && 0 !in name && name[0] != APOS && Separated(tail)
    ensures var s := Escaped(name) + tail;
      && s != [] && s[0] != 0 && !IsSpace(s[0]) && !IsQuote(s[0])
      && if tail == [] || Balanced(name) then BareLen(s) == |Escaped(name)|
         else BareLen(s) > |Escaped(name)|
  {
    hide BareLen, RunLen, Escaped, Balanced;
    var s := Escaped(name) + tail;
    FirstPrinted(name, tail);
    BareOverEscaped(X, name, tail);
    assert [X] + Escaped(name) + tail == [X] + s;
    assert ([X] + s)[1..] == s;
    BareUnfold([X] + s);
  }

  // A word that starts right here.
  lemma WordsFrom(s: Str)
    requires s != [] && s[0] != 0 && !IsSpace(s[0])
    ensures var (w, n) := WordAt(s);
      && Words(s) == [UnEscaped(w)] + Words(s[n..])
      && TrailingBlank(s) == TrailingBlank(s[n..])
      && !AtEnd(s)
  {
    assert BlankLen(s) == 0;
    assert s[0..] == s;
  }

  lemma {:induction false} ClosedAtEnd(name: Str, i: nat)
    requires i <= |name|
    ensures ClosedAt(name, DQUOTE, i) == |name| <==> forall k :: i <= k < |name| ==> !Closes(name, DQUOTE, k)
    decreases |name| - i
  {
    if i < |name| && !Closes(name, DQUOTE, i) {
      ClosedAtEnd(name, i + 1);
    }
  }

  lemma RunOverWrapped(name: Str)
    ensures RunOver(name, DQUOTE, false) == |name| <==> !BackslashQuote(name)
  {
    hide RunOver, ClosedAt;
    ClosedAtEnd(name, 0);
    RunOverIsClosedAt(name, DQUOTE, 0);
    assert name[0..] == name;
    if BackslashQuote(name) {
      var i :| 0 < i < |name| && name[i - 1] == BACKSLASH && name[i] == DQUOTE;
      assert Closes(name, DQUOTE, i);
    } else {
      forall k | 0 <= k < |name| ensures !Closes(name, DQUOTE, k) {
        assert k > 0 ==> name[k - 1] != BACKSLASH || name[k] != DQUOTE;
      }
    }
  }

  // A wrapped name is read back unless it contains a backslash and a quote in
  // that order; then the word is cut off in front of that quote.
  lemma WrappedHead(name: Str, tail: Str)
    requires Wrapped(name) && 0 !in name
    ensures var s := Quoted(name) + tail;
      var (w, n) := WordAt(s);
      if !BackslashQuote(name) then w == Escaped(name) && s[n..] == tail
      else UnEscaped(w) != name
  {
    hide RunLen, RunOver, Escaped, EscapedChar, UnEscaped, BackslashQuote, WordAt, Quoted, Wrapped;
    var body := Escaped(name) + ([DQUOTE] + tail);
    WrappedBody(name, tail);
    QuotedWord(body);
    var j := RunOver(name, DQUOTE, false);
    RunOverWrapped(name);
    RunOverEscaped(name, DQUOTE, false, [DQUOTE] + tail);
    if j == |name| {
      ClosedByTail(tail, EndsInBackslash(name, false));
      RunToTail(Escaped(name), tail);
    } else {
      RunToQuote(name, j, [DQUOTE] + tail);
      UnescapeEscaped(name[..j], [BACKSLASH]);
      LoneBackslash();
      assert (name[..j] + [BACKSLASH])[j] == BACKSLASH;
    }
  }

  lemma WrappedBody(name: Str, tail: Str)
    requires Wrapped(name)
    ensures Quoted(name) + tail == [DQUOTE] + (Escaped(name) + ([DQUOTE] + tail))
  {
    hide Escaped, Wrapped;
  }

  lemma QuotedWord(body: Str)
    ensures !IsSpace(DQUOTE)
    ensures var n := RunLen(body, DQUOTE, false, false);
      WordAt([DQUOTE] + body) == (body[..n], if n < |body| && body[n] == DQUOTE then n + 2 else n + 1)
  {
    hide RunLen;
    assert ([DQUOTE] + body)[1..] == body;
  }

  lemma RunToTail(e: Str, tail: Str)
    ensures var body := e + ([DQUOTE] + tail);
      body[..|e|] == e && body[|e|] == DQUOTE && ([DQUOTE] + body)[|e| + 2..] == tail
  {
  }

  lemma RunToQuote(name: Str, j: nat, tail: Str)
    requires j < |name| && name[j] == DQUOTE
    ensures |Escaped(name[..j])| + 1 <= |Escaped(name)|
    ensures (Escaped(name) + tail)[..|Escaped(name[..j])| + 1] == Escaped(name[..j]) + [BACKSLASH]
  {
    hide Escaped;
    EscapedAround(name, j);
  }

  lemma ClosedByTail(tail: Str, before: bool)
    ensures RunLen([DQUOTE] + tail, DQUOTE, false, before) == 0
  {
  }

  lemma LoneBackslash()
    ensures UnEscaped([BACKSLASH]) == [BACKSLASH]
  {
  }

  // A bare name is read back if nothing follows or its quotes are balanced;
  // otherwise the word swallows the separator.
  lemma BareWord(name: Str, tail: Str)
    requires !Wrapped(name) && 0 !in name && name[0] != APOS && Separated(tail)
    ensures var s := Quoted(name) + tail;
      && s != [] && s[0] != 0 && !IsSpace(s[0])
      && var (w, n) := WordAt(s);
      if tail == [] || Balanced(name) then w == Escaped(name) && s[n..] == tail
      else UnEscaped(w) != name
  {
    hide BareLen, Escaped, UnEscaped, Balanced;
    BareHead(name, tail);
    var s := Escaped(name) + tail;
    var n := BareLen(s);
    if tail == [] || Balanced(name) {
      assert s[..n] == Escaped(name);
    } else {
      var more := tail[..n - |Escaped(name)|];
      assert s[..n] == Escaped(name) + more;
      UnescapeEscaped(name, more);
      assert 0 !in more by {
        assert 0 !in s[..n];
        assert forall i :: 0 <= i < |more| ==> more[i] == s[..n][|Escaped(name)| + i];
      }
      UnescapeNonempty(more);
    }
  }

  // A name that starts with an apostrophe loses it.
  lemma ApostropheHead(name: Str, tail: Str)
    requires !Wrapped(name) && name[0] == APOS && Separated(tail) && 0 !in name
    ensures var s := Quoted(name) + tail;
      && s != [] && s[0] == APOS && UnEscaped(WordAt(s).0) != name
  {
    hide RunLen, UnEscaped, Escaped, EscapedChar;
    EscapedCons(name);
    PlainChar(APOS);
    Associates([APOS], Escaped(name[1..]), tail);
    var body := Escaped(name[1..]) + tail;
    assert ([APOS] + body)[1..] == body;
    ApostropheBody(name[1..], tail);
  }

  lemma PlainChar(c: Code)
    requires c != DQUOTE && c != BACKSLASH
    ensures EscapedChar(c) == [c]
  {
  }

  lemma ApostropheBody(rest: Str, tail: Str)
    requires 0 !in rest && Separated(tail)
    ensures var body := Escaped(rest) + tail;
      var u := UnEscaped(body[..RunLen(body, APOS, false, false)]);
      u == [] || u[0] != APOS
  {
    hide UnEscaped, Escaped, EscapedChar;
    var body := Escaped(rest) + tail;
    var w := body[..RunLen(body, APOS, false, false)];
    if rest == [] {
      EscapedNone();
      assert body == tail;
      UnescapeFirst(w);
    } else if rest[0] == APOS {
      EscapedCons(rest);
      PlainChar(APOS);
      UnescapeFirst(w);
    } else {
      EscapedCons(rest);
      var e, r := EscapedChar(rest[0]), Escaped(rest[1..]) + tail;
      Associates(e, Escaped(rest[1..]), tail);
      RunStep(rest[0], APOS, false, r);
      assert w == e + w[|e|..];
      UnescapeStep(rest[0], w[|e|..]);
    }
  }

  lemma UnescapeFirst(w: Str)
    ensures w == [] ==> UnEscaped(w) == []
    ensures w != [] && w[0] != BACKSLASH ==> UnEscaped(w) != [] && UnEscaped(w)[0] == w[0]
  {
  }

  // The first word of a printed line is the name printed first exactly if that
  // name is printable; then the rest of the line is what follows it.
  lemma HeadWord(name: Str, tail: Str)
    requires Separated(tail)
    ensures var s := Quoted(name) + tail;
      if Printable(name, tail == []) then
        !AtEnd(s) && Words(s) == [name] + Words(tail) && TrailingBlank(s) == TrailingBlank(tail)
      else Words(s) == [] || Words(s)[0] != name
  {
    hide Words, TrailingBlank, Escaped, Balanced, WordAt;
    var s := Quoted(name) + tail;
    if 0 in name {
      FirstWordNoNul(s);
    } else {
      UnescapeWhole(name);
      if Wrapped(name) {
        assert s[0] == DQUOTE;
        WrappedHead(name, tail);
      } else if name[0] == APOS {
        ApostropheHead(name, tail);
      } else {
        BareWord(name, tail);
      }
      WordsFrom(s);
    }
  }

  lemma FirstWordNoNul(s: Str)
    ensures Words(s) == [] || 0 !in Words(s)[0]
  {
    hide BareLen, RunLen, UnEscaped;
    if !AtEnd(s) {
      UnescapeNonempty(WordAt(s[BlankLen(s)..]).0);
    }
  }

  lemma WordsAfterBlank(s: Str)
    requires s != [] && !IsSpace(s[0])
    ensures Words([SPACE] + s) == Words(s)
    ensures !AtEnd(s) ==> TrailingBlank([SPACE] + s) == TrailingBlank(s)
  {
    var t := [SPACE] + s;
    assert t[1..] == s;
    assert BlankLen(t) == 1 && BlankLen(s) == 0;
    assert t[1..] == s[0..] == s;
  }

  // ---------------------------------------------------------------------------
  // Main result: a printed list of names is read back as that list exactly if
  // every name on it is printable in its place.

  lemma {:induction false} LineRoundTrip(names: seq<Str>)
    ensures Words(Joined(names)) == names <==> AllPrintable(names)
    ensures AllPrintable(names) ==> !TrailingBlank(Joined(names))
    decreases |names|
  {
    hide Printable, AtEnd, Quoted, Words, TrailingBlank;
    if names == [] {
      EmptyLine();
    } else if |names| == 1 {
      EmptyLine();
      HeadWord(names[0], []);
      assert Quoted(names[0]) + [] == Quoted(names[0]);
      assert names == [names[0]];
      assert names[1..] == [];
    } else {
      var rest := names[1..];
      LineRoundTrip(rest);
      var line := Joined(rest);
      HeadWord(names[0], [SPACE] + line);
      assert Quoted(names[0]) + ([SPACE] + line) == Joined(names);
      JoinedStart(rest);
      WordsAfterBlank(line);
      assert names == [names[0]] + rest;
      if AllPrintable(rest) {
        PrintedHasWord(rest);
      }
    }
  }

  lemma EmptyLine()
    ensures Words([]) == [] && !TrailingBlank([])
  {
    assert BlankLen([]) == 0;
  }

  lemma JoinedStart(names: seq<Str>)
    requires names != []
    ensures Joined(names) != [] && !IsSpace(Joined(names)[0])
  {
    var name := names[0];
    assert Quoted(name) != [] && !IsSpace(Quoted(name)[0]);
  }

  lemma PrintedHasWord(names: seq<Str>)
    requires names != [] && AllPrintable(names)
    ensures !AtEnd(Joined(names))
  {
    if |names| == 1 {
      HeadWord(names[0], []);
      assert Quoted(names[0]) + [] == Quoted(names[0]);
    } else {
      HeadWord(names[0], [SPACE] + Joined(names[1..]));
      assert Quoted(names[0]) + ([SPACE] + Joined(names[1..])) == Joined(names);
    }
  }

  // The same for parseLine, with or without the empty word for completion.
  lemma ParseRoundTrip(names: seq<Str>, addEmpty: bool)
    ensures Parsed(Joined(names), false) == names <==> AllPrintable(names)
    ensures AllPrintable(names) ==> Parsed(Joined(names), addEmpty) == names
  {
    hide *;
    LineRoundTrip(names);
    ParsedEither(Joined(names));
  }

  lemma ParsedEither(line: Str)
    ensures Parsed(line, false) == Words(line)
    ensures !TrailingBlank(line) ==> Parsed(line, true) == Words(line)
  {
  }

  // Three lists that do not survive: a quote that opens a run in front of a
  // separator, a leading apostrophe, a backslash and a quote in a wrapped name.
  lemma Unprintable(a: Str, b: Str, c: Str, d: Str)
    requires a == ['a' as int, DQUOTE] && b == ['b' as int]
    requires c == [APOS] && d == [SPACE, BACKSLASH, DQUOTE]
    ensures Parsed(Joined([a, b]), false) != [a, b]
    ensures Parsed(Joined([c]), false) != [c]
    ensures Parsed(Joined([d]), false) != [d]
  {
    hide Parsed, Joined;
    ParseRoundTrip([a, b], false);
    ParseRoundTrip([c], false);
    ParseRoundTrip([d], false);
    assert !Balanced(a) by {
      assert a[1..] == [DQUOTE];
      assert a[1..][1..] == [];
    }
    assert BackslashQuote(d) by {
      assert d[1] == BACKSLASH && d[2] == DQUOTE;
    }
    assert Wrapped(d) by {
      assert IsSpace(d[0]);
    }
  }
}
