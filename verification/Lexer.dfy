// The command-line scanner of helper.cpp and the quoting helpers of
// control_tool_common_helper.h.
module Lexer {
  import opened Bytes

  type Str = seq<Code>

  const DQUOTE: Code := '"' as int
  const APOS: Code := '\'' as int
  const BACKSLASH: Code := '\\' as int

  // isspace in the C locale
  predicate IsSpace(c: Code) {
    c == ' ' as int || 9 <= c <= 13
  }

  predicate IsQuote(c: Code) {
    c == DQUOTE || c == APOS
  }

  // *p for a pointer into a C string.
  function Peek(s: Str, p: nat): Code {
    if p < |s| then s[p] else 0
  }

  // ---------------------------------------------------------------------------
  // Scanning, as functions of the rest of the line.

  function BlankLen(s: Str): (n: nat)
    ensures n <= |s|
    ensures n < |s| ==> !IsSpace(s[n])
  {
    if s == [] || !IsSpace(s[0]) then 0 else 1 + BlankLen(s[1..])
  }

  // The length of a quoted run: up to an unescaped `quote` or the end. A
  // backslash escapes only if the character before it is not a backslash.
  function RunLen(s: Str, quote: Code, escaped: bool, afterBackslash: bool): (n: nat)
    ensures n <= |s|
    ensures n < |s| ==> s[n] == 0 || s[n] == quote
    ensures forall i :: 0 <= i < n ==> s[i] != 0
  {
    if s == [] || s[0] == 0 || (!escaped && s[0] == quote) then 0
    else 1 + RunLen(s[1..], quote, s[0] == BACKSLASH && !afterBackslash, s[0] == BACKSLASH)
  }

  // The length of a word that starts with no quote; a quote inside it opens a
  // run in which blanks do not end the word.
  function BareLen(s: Str): (n: nat)
    ensures n <= |s|
    ensures forall i :: 0 <= i < n ==> s[i] != 0
    decreases |s|
  {
    if s == [] || s[0] == 0 || IsSpace(s[0]) then 0
    else if |s| > 1 && IsQuote(s[1]) then
      var r := 2 + RunLen(s[2..], s[1], false, false);
      r + BareLen(s[r..])
    else 1 + BareLen(s[1..])
  }

  // The word at the start of `s` (no blank, not at the end) as it stands in the
  // line, and the number of characters it takes.
  function WordAt(s: Str): (r: (Str, nat))
    requires s != [] && s[0] != 0 && !IsSpace(s[0])
    ensures 1 <= r.1 <= |s|
    ensures 0 !in r.0
  {
    if IsQuote(s[0]) then
      var n := RunLen(s[1..], s[0], false, false);
      (s[1..][..n], if Peek(s, 1 + n) == s[0] then n + 2 else n + 1)
    else
      (s[..BareLen(s)], BareLen(s))
  }

  predicate AtEnd(s: Str) {
    Peek(s, BlankLen(s)) == 0
  }

  // The unescaped words of `s`.
  function Words(s: Str): seq<Str>
    decreases |s|
  {
    if AtEnd(s) then []
    else
      var t := s[BlankLen(s)..];
      var (w, n) := WordAt(t);
      [UnEscaped(w)] + Words(t[n..])
  }

  // Whether blanks follow the last word.
  predicate TrailingBlank(s: Str)
    decreases |s|
  {
    if AtEnd(s) then BlankLen(s) > 0
    else
      var t := s[BlankLen(s)..];
      TrailingBlank(t[WordAt(t).1..])
  }

  function UnEscaped(s: Str): Str
    decreases |s|
  {
    if s == [] then []
    else if s[0] != BACKSLASH then [s[0]] + UnEscaped(s[1..])
    else if |s| == 1 then [BACKSLASH]
    else [s[1]] + UnEscaped(s[2..])
  }

  function Parsed(line: Str, addEmpty: bool): seq<Str> {
    Words(line) + if addEmpty && TrailingBlank(line) then [[]] else []
  }

  // ---------------------------------------------------------------------------
  // Quoting

  function EscapedChar(c: Code): Str {
    if c == DQUOTE || c == BACKSLASH then [BACKSLASH, c] else [c]
  }

  function Escaped(s: Str): Str {
    if s == [] then [] else EscapedChar(s[0]) + Escaped(s[1..])
  }

  predicate Wrapped(name: Str) {
    name == [] || exists i :: 0 <= i < |name| && IsSpace(name[i])
  }

  function Quoted(name: Str): Str {
    if Wrapped(name) then [DQUOTE] + Escaped(name) + [DQUOTE] else Escaped(name)
  }

  function Joined(names: seq<Str>): Str {
    if names == [] then []
    else if |names| == 1 then Quoted(names[0])
    else Quoted(names[0]) + [SPACE] + Joined(names[1..])
  }

  // ---------------------------------------------------------------------------
  // The code.

  method SkipWhitespaces(line: Str, p0: nat) returns (p: nat)
    requires p0 <= |line|
    ensures p == p0 + BlankLen(line[p0..])
  {
    p := p0;
    while IsSpace(Peek(line, p))
      invariant p0 <= p <= |line|
      invariant p + BlankLen(line[p..]) == p0 + BlankLen(line[p0..])
      decreases |line| - p
    {
      assert line[p..][1..] == line[p + 1..];
      p := p + 1;
    }
  }

  // The quoted run of a word, from behind its opening quote.
  method SkipQuoted(line: Str, p0: nat, quote: Code) returns (p: nat)
    requires p0 <= |line|
    ensures p == p0 + RunLen(line[p0..], quote, false, false)
  {
    p := p0;
    var escapeActive, lastChar := false, NUL as Code;
    while Peek(line, p) != 0 && (escapeActive || Peek(line, p) != quote)
      invariant p0 <= p <= |line|
      invariant p + RunLen(line[p..], quote, escapeActive, lastChar == BACKSLASH)
             == p0 + RunLen(line[p0..], quote, false, false)
      decreases |line| - p
    {
      assert line[p..][1..] == line[p + 1..];
      escapeActive := line[p] == BACKSLASH && lastChar != BACKSLASH;
      lastChar := line[p];
      p := p + 1;
    }
  }

  lemma BareUnfold(s: Str)
    requires s != [] && s[0] != 0 && !IsSpace(s[0])
    ensures BareLen(s) ==
      if |s| > 1 && IsQuote(s[1]) then
        var r := 2 + RunLen(s[2..], s[1], false, false);
        r + BareLen(s[r..])
      else 1 + BareLen(s[1..])
  {
  }

  lemma BareStops(s: Str)
    requires s == [] || s[0] == 0 || IsSpace(s[0])
    ensures BareLen(s) == 0
  {
  }

  // A word that starts with no quote.
  method SkipBare(line: Str, p0: nat) returns (p: nat)
    requires p0 <= |line|
    ensures p == p0 + BareLen(line[p0..])
  {
    hide RunLen, BareLen;
    p := p0;
    while Peek(line, p) != 0 && !IsSpace(Peek(line, p))
      invariant p0 <= p <= |line|
      invariant p + BareLen(line[p..]) == p0 + BareLen(line[p0..])
      decreases |line| - p
    {
      ghost var s, at := line[p..], p;
      BareUnfold(s);
      assert s[1..] == line[p + 1..];
      p := p + 1;
      if IsQuote(Peek(line, p)) {
        assert s[2..] == line[p + 1..];
        p := SkipQuoted(line, p + 1, line[p]);
        assert s[p - at..] == line[p..];
      }
    }
    BareStops(line[p..]);
  }

  // getNextWord without an additional separator.
  method GetNextWord(line: Str, src0: nat) returns (found: bool, dest: Str, src: nat)
    requires src0 <= |line|
    ensures found <==> !AtEnd(line[src0..])
    ensures src0 <= src <= |line|
    ensures !found ==> src == src0 + BlankLen(line[src0..])
    ensures found ==> (dest, src) == NextWord(line, src0)
  {
    hide WordAt, BlankLen;
    dest := [];
    src := SkipWhitespaces(line, src0);
    assert line[src..] == line[src0..][BlankLen(line[src0..])..];
    if Peek(line, src) == 0 {
      return false, dest, src;
    }
    found := true;
    dest, src := ReadWord(line, src);
  }

  // The word that starts at `k`.
  method ReadWord(line: Str, k: nat) returns (dest: Str, src: nat)
    requires k < |line| && line[k] != 0 && !IsSpace(line[k])
    ensures (dest, src - k) == WordAt(line[k..])
    ensures k < src <= |line|
  {
    hide RunLen, BareLen;
    assert line[k..][0] == line[k];
    if IsQuote(line[k]) {
      var quote := line[k];
      src := k + 1;
      assert line[k..][1..] == line[src..];
      src := SkipQuoted(line, src, quote);
      dest := line[k + 1..src];
      assert dest == line[k + 1..][..src - (k + 1)] == line[k..][1..][..src - (k + 1)];
      assert Peek(line[k..], src - k) == Peek(line, src);
      if Peek(line, src) == quote {
        src := src + 1;
      }
    } else {
      src := SkipBare(line, k);
      dest := line[k..src];
      assert dest == line[k..][..src - k];
    }
  }

  // The word that starts at or behind position `p`, and where it ends.
  function NextWord(line: Str, p: nat): (r: (Str, nat))
    requires p <= |line| && !AtEnd(line[p..])
    ensures p < r.1 <= |line|
  {
    var k := p + BlankLen(line[p..]);
    assert line[k..] == line[p..][BlankLen(line[p..])..];
    var (w, n) := WordAt(line[k..]);
    (w, k + n)
  }

  lemma WordsEnd(s: Str)
    requires AtEnd(s)
    ensures Words(s) == [] && (TrailingBlank(s) <==> BlankLen(s) > 0)
  {
  }

  lemma WordsStep(line: Str, p: nat)
    requires p <= |line| && !AtEnd(line[p..])
    ensures var (w, next) := NextWord(line, p);
      && Words(line[p..]) == [UnEscaped(w)] + Words(line[next..])
      && TrailingBlank(line[p..]) == TrailingBlank(line[next..])
  {
    hide RunLen, BareLen, BlankLen, UnEscaped;
    var s := line[p..];
    var t := s[BlankLen(s)..];
    assert t == line[p + BlankLen(s)..];
    assert t[WordAt(t).1..] == line[NextWord(line, p).1..];
  }

  method UnEscape(name: Str) returns (unescaped: Str)
    ensures unescaped == UnEscaped(name)
  {
    hide UnEscaped;
    unescaped := [];
    var escapeActive, i := false, 0;
    assert name[0..] == name;
    while i < |name|
      invariant 0 <= i <= |name|
      invariant UnEscaped(name) == unescaped + StillEscaped(name[i..], escapeActive)
    {
      UnEscapeStep(name, i, escapeActive);
      var c := name[i];
      if escapeActive || c != BACKSLASH {
        Associates(unescaped, [c], StillEscaped(name[i + 1..], false));
        unescaped := unescaped + [c];
        escapeActive := false;
      } else {
        escapeActive := true;
      }
      i := i + 1;
    }
    UnEscapeEnd(name[i..]);
    if escapeActive {
      unescaped := unescaped + [BACKSLASH];
    }
  }

  // What is left to unescape, with a backslash read or not.
  function StillEscaped(s: Str, escapeActive: bool): Str {
    UnEscaped(if escapeActive then [BACKSLASH] + s else s)
  }

  lemma UnEscapeStep(name: Str, i: nat, escapeActive: bool)
    requires i < |name|
    ensures StillEscaped(name[i..], escapeActive) ==
      if escapeActive || name[i] != BACKSLASH then [name[i]] + StillEscaped(name[i + 1..], false)
      else StillEscaped(name[i + 1..], true)
  {
    var s := name[i..];
    assert s[1..] == name[i + 1..];
    if escapeActive {
      assert ([BACKSLASH] + s)[2..] == name[i + 1..];
    } else if name[i] == BACKSLASH {
      assert s == [BACKSLASH] + name[i + 1..];
    }
  }

  lemma UnEscapeEnd(s: Str)
    requires s == []
    ensures StillEscaped(s, false) == [] && StillEscaped(s, true) == [BACKSLASH]
    ensures forall u: Str :: u + [] == u
  {
    assert [BACKSLASH] + s == [BACKSLASH];
  }

  method QuoteNameIfNecessary(name: Str) returns (quoted: Str)
    ensures quoted == Quoted(name)
  {
    var needQuotes := name == [] || exists i :: 0 <= i < |name| && IsSpace(name[i]);
    var needBackslash := exists i :: 0 <= i < |name| && (name[i] == DQUOTE || name[i] == BACKSLASH);
    if !needQuotes && !needBackslash {
      NothingEscaped(name);
      return name;
    }
    quoted := if needQuotes then [DQUOTE] else [];
    ghost var opening := quoted;
    var i := 0;
    while i < |name|
      invariant 0 <= i <= |name|
      invariant quoted + Escaped(name[i..]) == opening + Escaped(name)
    {
      var c := name[i];
      assert name[i..][1..] == name[i + 1..];
      Associates(quoted, EscapedChar(c), Escaped(name[i + 1..]));
      if c == DQUOTE || c == BACKSLASH {
        quoted := quoted + [BACKSLASH, c];
      } else {
        quoted := quoted + [c];
      }
      i := i + 1;
    }
    assert name[i..] == [] && quoted + [] == quoted;
    if needQuotes {
      quoted := quoted + [DQUOTE];
    }
  }

  lemma {:induction false} NothingEscaped(s: Str)
    requires forall i :: 0 <= i < |s| ==> s[i] != DQUOTE && s[i] != BACKSLASH
    ensures Escaped(s) == s
  {
    if s != [] {
      NothingEscaped(s[1..]);
    }
  }

  method ParseLine(line: Str, addEmpty: bool) returns (words: seq<Str>)
    ensures words == Parsed(line, addEmpty)
  {
    hide AtEnd, NextWord, UnEscaped, Words, TrailingBlank, BlankLen;
    words := [];
    var p, lastP := 0, 0;
    assert line[0..] == line;
    while true
      invariant 0 <= p <= |line| && lastP == p
      invariant words + Words(line[p..]) == Words(line)
      invariant TrailingBlank(line[p..]) == TrailingBlank(line)
      decreases |line| - p
    {
      ghost var was := p;
      var found, word;
      found, word, p := GetNextWord(line, p);
      if !found {
        WordsEnd(line[was..]);
        break;
      }
      WordsStep(line, was);
      var unescaped := UnEscape(word);
      Associates(words, [unescaped], Words(line[p..]));
      words := words + [unescaped];
      lastP := p;
    }
    if addEmpty && lastP != p {
      words := words + [[]];
    }
  }
}
