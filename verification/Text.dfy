// Character-addressed access to encoded text: utf8_strlen, utf8_index, and why
// they agree with indexing a sequence of code points.
module Text {
  import opened Bytes
  import opened Codec

  function EncodeAll(b: Build, t: seq<Code>): (r: seq<byte>)
    ensures |r| >= |t|
  {
    if t == [] then [] else Encode(b, t[0]) + EncodeAll(b, t[1..])
  }

  function Size(b: Build, t: seq<Code>): nat {
    |EncodeAll(b, t)|
  }

  // The position after `n` characters starting at `i` (utf8_index).
  function Index(b: Build, m: seq<byte>, i: nat, n: nat): (r: nat)
    ensures r >= i + n
    decreases n
  {
    if n == 0 then i else Index(b, m, i + Decode(b, m, i).1, n - 1)
  }

  // Character steps from `i` land exactly on `end`.
  predicate Tiles(b: Build, m: seq<byte>, i: nat, end: nat)
    decreases end - i
  {
    i == end || (i < end && Tiles(b, m, i + Decode(b, m, i).1, end))
  }

  // The number of those steps (utf8_strlen).
  function Count(b: Build, m: seq<byte>, i: nat, end: nat): nat
    requires Tiles(b, m, i, end)
    decreases end - i
  {
    if i == end then 0 else 1 + Count(b, m, i + Decode(b, m, i).1, end)
  }

  // utf8_index as the loop it is.
  method Utf8Index(b: Build, m: seq<byte>, start: nat, index: nat) returns (off: nat)
    ensures off == Index(b, m, start, index) - start
  {
    var s, left := start, index;
    while left != 0
      invariant s >= start
      invariant Index(b, m, s, left) == Index(b, m, start, index)
    {
      var (_, n) := Decode(b, m, s);
      s := s + n;
      left := left - 1;
    }
    off := s - start;
  }

  // utf8_strlen with an explicit byte length. It only ends when the characters
  // tile that many bytes.
  method Utf8StrLen(b: Build, m: seq<byte>, start: nat, bytelen: nat) returns (charlen: nat)
    requires Tiles(b, m, start, start + bytelen)
    ensures charlen == Count(b, m, start, start + bytelen)
  {
    var str, left := start, bytelen;
    charlen := 0;
    while left != 0
      invariant left + str == start + bytelen
      invariant Tiles(b, m, str, start + bytelen)
      invariant charlen + Count(b, m, str, start + bytelen) == Count(b, m, start, start + bytelen)
    {
      var (_, l) := Decode(b, m, str);
      charlen := charlen + 1;
      str := str + l;
      assert str <= start + bytelen;
      left := left - l;
    }
  }

  // ---------------------------------------------------------------------------
  // Arbitrary NUL-terminated bytes, well-formed or not.

  // No step passes the terminator, so utf8_strlen ends on every C string.
  lemma {:induction false} StringTiles(b: Build, m: seq<byte>, i: nat, z: nat)
    requires i <= z && At(m, z) == 0
    requires forall k :: i <= k < z ==> At(m, k) != 0
    ensures Tiles(b, m, i, z)
    decreases z - i
  {
    if i < z {
      var n := Decode(b, m, i).1;
      assert n >= 2 ==> Continuation(At(m, i + 1));
      assert n == 3 ==> Continuation(At(m, i + 2));
      StringTiles(b, m, i + n, z);
    }
  }

  // utf8_index undoes utf8_strlen: counting the characters of a string and
  // stepping over that many arrives at its end.
  lemma {:induction false} IndexOfCount(b: Build, m: seq<byte>, i: nat, end: nat)
    requires Tiles(b, m, i, end)
    ensures Index(b, m, i, Count(b, m, i, end)) == end
    decreases end - i
  {
    if i < end {
      IndexOfCount(b, m, i + Decode(b, m, i).1, end);
    }
  }

  lemma StringIndexOfStrLen(b: Build, s: seq<byte>)
    ensures Tiles(b, s, 0, StrLen(s))
    ensures Index(b, s, 0, Count(b, s, 0, StrLen(s))) == StrLen(s)
  {
    StringTiles(b, s, 0, StrLen(s));
    IndexOfCount(b, s, 0, StrLen(s));
  }

  // ---------------------------------------------------------------------------
  // Encoded text.

  lemma {:induction false} EncodeConcat(b: Build, s: seq<Code>, t: seq<Code>)
    ensures EncodeAll(b, s + t) == EncodeAll(b, s) + EncodeAll(b, t)
  {
    if s == [] {
      assert s + t == t;
    } else {
      assert (s + t)[1..] == s[1..] + t;
      EncodeConcat(b, s[1..], t);
      Associates(Encode(b, s[0]), EncodeAll(b, s[1..]), EncodeAll(b, t));
    }
  }

  lemma SizeOfNothing(b: Build)
    ensures Size(b, []) == 0
  {
  }

  lemma EncodeOne(b: Build, c: Code)
    ensures EncodeAll(b, [c]) == Encode(b, c)
  {
    assert EncodeAll(b, [c][1..]) == [];
  }

  // Text cut at a character: left part, the character, right part.
  lemma EncodeSplit(b: Build, t: seq<Code>, k: nat)
    requires k < |t|
    ensures EncodeAll(b, t) == EncodeAll(b, t[..k]) + Encode(b, t[k]) + EncodeAll(b, t[k + 1..])
  {
    EncodeConcat(b, t[..k], t[k..]);
    assert t[..k] + t[k..] == t;
    assert t[k..][1..] == t[k + 1..];
  }

  lemma EncodeCut(b: Build, t: seq<Code>, k: nat)
    requires k <= |t|
    ensures EncodeAll(b, t) == EncodeAll(b, t[..k]) + EncodeAll(b, t[k..])
  {
    EncodeConcat(b, t[..k], t[k..]);
    assert t[..k] + t[k..] == t;
  }

  // In the one-byte build text is its own encoding.
  lemma {:induction false} EncodeBytes(t: seq<Code>)
    requires ValidText(ByteBuild, t)
    ensures EncodeAll(ByteBuild, t) == t
  {
    if t != [] {
      EncodeBytes(t[1..]);
    }
  }

  // Cutting behind one more character adds the size of that character.
  lemma SizeStep(b: Build, t: seq<Code>, k: nat)
    requires k < |t|
    ensures EncodeAll(b, t[..k + 1]) == EncodeAll(b, t[..k]) + Encode(b, t[k])
  {
    EncodeConcat(b, t[..k], [t[k]]);
    EncodeOne(b, t[k]);
    assert t[..k + 1] == t[..k] + [t[k]];
  }

  // The buffer starts with the encoding of `t`.
  predicate Holds(b: Build, m: seq<byte>, t: seq<Code>) {
    ValidText(b, t) && EncodeAll(b, t) <= m
  }

  lemma HoldsFront(b: Build, m: seq<byte>, t: seq<Code>, k: nat)
    requires Holds(b, m, t) && k <= |t|
    ensures Holds(b, m, t[..k])
  {
    EncodeCut(b, t, k);
  }

  // Decoding at the offset of character `k` gives back character `k`.
  lemma DecodeInText(b: Build, m: seq<byte>, t: seq<Code>, k: nat)
    requires Holds(b, m, t) && k < |t|
    ensures Decode(b, m, Size(b, t[..k])) == (t[k], |Encode(b, t[k])|)
    ensures Size(b, t[..k + 1]) == Size(b, t[..k]) + |Encode(b, t[k])| <= Size(b, t)
  {
    HoldsFront(b, m, t, k + 1);
    SizeStep(b, t, k);
    SizeGrows(b, t, k, k + 1);
    Slice(m, EncodeAll(b, t[..k]), Encode(b, t[k]));
    DecodeEncode(b, m, Size(b, t[..k]), t[k]);
  }

  lemma Slice(m: seq<byte>, x: seq<byte>, y: seq<byte>)
    requires x + y <= m
    ensures m[|x|..|x| + |y|] == y
  {
    assert m[|x|..|x| + |y|] == (x + y)[|x|..];
  }

  // utf8_index over encoded text is the size of the characters passed.
  lemma {:induction false} IndexInText(b: Build, m: seq<byte>, t: seq<Code>, k: nat, n: nat)
    requires Holds(b, m, t) && k + n <= |t|
    ensures Index(b, m, Size(b, t[..k]), n) == Size(b, t[..k + n])
    decreases n
  {
    hide EncodeAll, Encode, Decode, Holds, Size;
    if n > 0 {
      DecodeInText(b, m, t, k);
      IndexInText(b, m, t, k + 1, n - 1);
    }
  }

  // utf8_strlen over encoded text is the number of its characters.
  lemma {:induction false} CountInText(b: Build, m: seq<byte>, t: seq<Code>, k: nat)
    requires Holds(b, m, t) && k <= |t|
    ensures Tiles(b, m, Size(b, t[..k]), Size(b, t))
    ensures Count(b, m, Size(b, t[..k]), Size(b, t)) == |t| - k
    decreases |t| - k
  {
    hide EncodeAll, Encode, Decode, Holds, Size;
    if k < |t| {
      DecodeInText(b, m, t, k);
      CountInText(b, m, t, k + 1);
    } else {
      assert t[..k] == t;
    }
  }

  lemma CountWhole(b: Build, m: seq<byte>, t: seq<Code>)
    requires Holds(b, m, t)
    ensures Tiles(b, m, 0, Size(b, t)) && Count(b, m, 0, Size(b, t)) == |t|
  {
    assert t[..0] == [];
    CountInText(b, m, t, 0);
  }

  lemma SizeGrows(b: Build, t: seq<Code>, i: nat, j: nat)
    requires i <= j <= |t|
    ensures Size(b, t[..i]) + (j - i) <= Size(b, t[..j]) <= Size(b, t)
  {
    EncodeCut(b, t[..j], i);
    assert t[..j][..i] == t[..i];
    EncodeCut(b, t, j);
  }

  // Different texts have different encodings: what the buffer holds is never
  // ambiguous.
  lemma {:induction false} EncodeInjective(b: Build, s: seq<Code>, t: seq<Code>)
    requires ValidText(b, s) && ValidText(b, t)
    requires EncodeAll(b, s) == EncodeAll(b, t)
    ensures s == t
  {
    if s != [] && t != [] {
      DecodeInText(b, EncodeAll(b, s), s, 0);
      DecodeInText(b, EncodeAll(b, t), t, 0);
      assert s[..0] == [] == t[..0];
      var n := |Encode(b, s[0])|;
      assert EncodeAll(b, s)[n..] == EncodeAll(b, s[1..]);
      assert EncodeAll(b, t)[n..] == EncodeAll(b, t[1..]);
      EncodeInjective(b, s[1..], t[1..]);
    }
  }

  // NUL is the only character whose encoding contains a zero byte.
  lemma {:induction false} EncodeStrLen(b: Build, t: seq<Code>)
    requires ValidText(b, t)
    ensures ValidText(b, CStr(t))
    ensures CStr(EncodeAll(b, t)) == EncodeAll(b, CStr(t))
  {
    hide Encode, EncodeAll, CStr;
    if t == [] || t[0] == 0 {
      EncodeNoString(b, t);
    } else {
      EncodeStrLen(b, t[1..]);
      EncodeFront(b, t[0], t[1..]);
      EncodeFront(b, t[0], CStr(t[1..]));
      assert [t[0]] + t[1..] == t;
      StrLenAfter([t[0]], t[1..]);
      EncodeNonzero(b, t[0]);
      StrLenAfter(Encode(b, t[0]), EncodeAll(b, t[1..]));
    }
  }

  lemma EncodeNoString(b: Build, t: seq<Code>)
    requires t == [] || t[0] == 0
    ensures CStr(t) == [] && EncodeAll(b, []) == [] && CStr(EncodeAll(b, t)) == []
  {
    if t != [] {
      EncodeNonzero(b, 0);
      assert EncodeAll(b, t)[0] == 0;
      StrLenUnique(EncodeAll(b, t), 0);
    }
  }

  lemma EncodeFront(b: Build, c: Code, t: seq<Code>)
    ensures EncodeAll(b, [c] + t) == Encode(b, c) + EncodeAll(b, t)
  {
    assert ([c] + t)[1..] == t;
  }

  lemma EncodeNonzero(b: Build, c: Code)
    requires ValidChar(b, c)
    ensures if c == 0 then Encode(b, c) == [0] else 0 !in Encode(b, c)
  {
  }

  lemma StrLenAfter(e: seq<Code>, r: seq<Code>)
    requires forall i :: 0 <= i < |e| ==> e[i] != 0
    ensures CStr(e + r) == e + CStr(r)
  {
    var n := |e| + StrLen(r);
    StrLenUnique(e + r, n);
    assert (e + r)[..n] == e + r[..StrLen(r)];
  }
}
