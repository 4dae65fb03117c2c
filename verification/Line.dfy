// The pure line editor: a text, a cursor, and the edits of linenoise.c as
// sequence operations. Nothing here knows about bytes except through `Size`.
module Line {
  import opened Bytes
  import opened Codec
  import opened Text

  datatype Line = Line(text: seq<Code>, pos: nat)

  // has_room
  predicate HasRoom(b: Build, max: nat, t: seq<Code>, n: nat) {
    Size(b, t) + n < max - 1
  }

  function InsertAt(l: Line, p: nat, c: Code): Line
    requires p <= |l.text|
  {
    Line(l.text[..p] + [c] + l.text[p..], if l.pos >= p then l.pos + 1 else l.pos)
  }

  function RemoveAt(l: Line, p: nat): Line
    requires p < |l.text|
  {
    Line(l.text[..p] + l.text[p + 1..], if l.pos > p then l.pos - 1 else l.pos)
  }

  predicate CanInsert(b: Build, max: nat, l: Line, p: int, ch: int) {
    0 <= p <= |l.text| && HasRoom(b, max, l.text, |Encode(b, Narrow(b, ch))|)
  }

  // insert_char: refused when there is no room or no such position.
  function Insert(b: Build, max: nat, l: Line, p: int, ch: int): Line {
    if CanInsert(b, max, l, p, ch) then InsertAt(l, p, Narrow(b, ch)) else l
  }

  // remove_char: refused when there is no such position.
  function Remove(l: Line, p: int): Line {
    if 0 <= p < |l.text| then RemoveAt(l, p) else l
  }

  // remove_chars: at most `n` characters from `p` on.
  function RemoveMany(l: Line, p: nat, n: nat): Line
    decreases n
  {
    if n == 0 || p >= |l.text| then l else RemoveMany(RemoveAt(l, p), p, n - 1)
  }

  // insert_chars: stops at the first character that is refused.
  function InsertMany(b: Build, max: nat, l: Line, p: int, s: seq<Code>): Line
    decreases |s|
  {
    if s == [] || !CanInsert(b, max, l, p, s[0]) then l
    else InsertMany(b, max, Insert(b, max, l, p, s[0]), p + 1, s[1..])
  }

  // capture_chars: what a removal of `n` characters at `p` saves, if anything.
  function Capture(kill: Option<seq<Code>>, t: seq<Code>, p: nat, n: nat): Option<seq<Code>> {
    if p + n <= |t| && n > 0 then Some(t[p..p + n]) else kill
  }

  // set_current: as much of the C string as fits.
  function Fitting(max: nat, s: seq<Code>): (r: seq<Code>)
    requires max >= 1
    ensures |r| <= max - 1 && 0 !in r
  {
    if StrLen(s) < max then CStr(s) else s[..max - 1]
  }

  // The longest front of the C string that leaves a byte for the terminator.
  lemma {:induction false} FittingIsLongest(max: nat, s: seq<Code>)
    requires max >= 1
    ensures Fitting(max, s) <= CStr(s)
    ensures |Fitting(max, s)| == if |CStr(s)| < max then |CStr(s)| else max - 1
  {
  }

  // ---------------------------------------------------------------------------
  // What the recursive edits amount to.

  lemma {:induction false} RemoveManyIsCut(l: Line, p: nat, n: nat)
    requires p + n <= |l.text|
    ensures RemoveMany(l, p, n).text == l.text[..p] + l.text[p + n..]
    ensures RemoveMany(l, p, n).pos ==
      if l.pos >= p + n then l.pos - n else if l.pos >= p then p else l.pos
    decreases n
  {
    if n > 0 {
      RemoveManyIsCut(RemoveAt(l, p), p, n - 1);
    } else {
      assert l.text == l.text[..p] + l.text[p..];
    }
  }

  // The line with `s` put in front of character `p`.
  function Spliced(l: Line, p: nat, s: seq<Code>): Line
    requires p <= |l.text|
  {
    Line(l.text[..p] + s + l.text[p..], if l.pos >= p then l.pos + |s| else l.pos)
  }

  // How many characters of `s` insert_chars takes when `used` bytes are taken.
  function Accepted(b: Build, max: nat, used: nat, s: seq<Code>): (m: nat)
    ensures m <= |s|
    decreases |s|
  {
    if s == [] || used + |Encode(b, s[0])| >= max - 1 then 0
    else 1 + Accepted(b, max, used + |Encode(b, s[0])|, s[1..])
  }

  // It takes the longest prefix that leaves a byte to spare.
  lemma {:induction false} AcceptedIsLongest(b: Build, max: nat, used: nat, s: seq<Code>)
    ensures var m := Accepted(b, max, used, s);
      && (m > 0 ==> used + Size(b, s[..m]) < max - 1)
      && (m < |s| ==> used + Size(b, s[..m + 1]) >= max - 1)
    decreases |s|
  {
    hide EncodeAll, Encode, Size;
    if s != [] {
      var n := |Encode(b, s[0])|;
      var rest := s[1..];
      AcceptedIsLongest(b, max, used + n, rest);
      SizeFront(b, s, 0);
      if used + n < max - 1 {
        var m := Accepted(b, max, used + n, rest);
        SizeFront(b, s, m);
        if m < |rest| {
          SizeFront(b, s, m + 1);
        }
      }
    }
  }

  lemma SizeFront(b: Build, s: seq<Code>, m: nat)
    requires m < |s|
    ensures Size(b, s[..m + 1]) == |Encode(b, s[0])| + Size(b, s[1..][..m])
    ensures Size(b, s[1..][..0]) == 0
  {
    assert s[..m + 1][1..] == s[1..][..m];
    assert s[1..][..0] == [];
  }

  lemma {:induction false} InsertManyIsSplice(b: Build, max: nat, l: Line, p: nat, s: seq<Code>)
    requires ValidText(b, s) && p <= |l.text|
    ensures var m := Accepted(b, max, Size(b, l.text), s);
      InsertMany(b, max, l, p, s) == Spliced(l, p, s[..m])
    decreases |s|
  {
    hide EncodeAll, Encode, Spliced, Size;
    if s == [] {
      SpliceNothing(l, p);
      return;
    }
    NarrowChar(b, s[0]);
    if !CanInsert(b, max, l, p, s[0]) {
      assert Accepted(b, max, Size(b, l.text), s) == 0;
      SpliceNothing(l, p);
    } else {
      SizeInsert(b, l.text, p, s[0]);
      var l' := InsertAt(l, p, s[0]);
      InsertManyIsSplice(b, max, l', p + 1, s[1..]);
      SpliceStep(l, p, s, Accepted(b, max, Size(b, l'.text), s[1..]));
    }
  }

  lemma SpliceNothing(l: Line, p: nat)
    requires p <= |l.text|
    ensures forall s: seq<Code> :: Spliced(l, p, s[..0]) == l
  {
    assert l.text == l.text[..p] + l.text[p..];
    assert forall s: seq<Code> :: l.text[..p] + s[..0] == l.text[..p];
  }

  lemma SpliceStep(l: Line, p: nat, s: seq<Code>, m: nat)
    requires p <= |l.text| && m < |s|
    ensures Spliced(InsertAt(l, p, s[0]), p + 1, s[1..][..m]) == Spliced(l, p, s[..m + 1])
  {
    assert InsertAt(l, p, s[0]).text[..p + 1] == l.text[..p] + [s[0]];
    assert InsertAt(l, p, s[0]).text[p + 1..] == l.text[p..];
    assert [s[0]] + s[1..][..m] == s[..m + 1];
    assert l.text[..p] + [s[0]] + s[1..][..m] == l.text[..p] + ([s[0]] + s[1..][..m]);
  }

  lemma SizeInsert(b: Build, t: seq<Code>, p: nat, c: Code)
    requires p <= |t|
    ensures var t' := t[..p] + [c] + t[p..];
      && EncodeAll(b, t') == EncodeAll(b, t[..p]) + Encode(b, c) + EncodeAll(b, t[p..])
      && Size(b, t') == Size(b, t) + |Encode(b, c)|
  {
    EncodeCut(b, t, p);
    EncodeOne(b, c);
    EncodeConcat(b, t[..p], [c]);
    EncodeConcat(b, t[..p] + [c], t[p..]);
  }

  lemma SizeRemove(b: Build, t: seq<Code>, p: nat)
    requires p < |t|
    ensures var t' := t[..p] + t[p + 1..];
      && EncodeAll(b, t') == EncodeAll(b, t[..p]) + EncodeAll(b, t[p + 1..])
      && Size(b, t') == Size(b, t) - |Encode(b, t[p])|
  {
    EncodeSplit(b, t, p);
    EncodeConcat(b, t[..p], t[p + 1..]);
  }
}
