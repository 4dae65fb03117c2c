// The character codec of utf8.c, and the one-byte macros that replace it when
// USE_UTF8 is not defined. `Build` says which of the two was compiled.
module Codec {
  import opened Bytes

  datatype Build = ByteBuild | Utf8Build

  predicate ValidChar(b: Build, c: Code) {
    b.ByteBuild? ==> c < 256
  }

  predicate ValidText(b: Build, t: seq<Code>) {
    forall i :: 0 <= i < |t| ==> ValidChar(b, t[i])
  }

  // What storing an int as a character keeps of it: `char` in the one-byte
  // build, `unsigned short` in the UTF-8 build.
  function Narrow(b: Build, ch: int): (c: Code)
    ensures ValidChar(b, c)
  {
    if b.ByteBuild? then ch % 256 else ch % 0x1_0000
  }

  lemma NarrowChar(b: Build, c: Code)
    requires ValidChar(b, c)
    ensures Narrow(b, c) == c
  {
  }

  // utf8_getchars. One byte, truncated, in the one-byte build; utf8_fromunicode
  // in the other.
  function Encode(b: Build, c: Code): (r: seq<byte>)
    ensures 1 <= |r| <= 3
    ensures b.ByteBuild? ==> |r| == 1
  {
    if b.ByteBuild? then [c % 256]
    else if c <= 0x7f then [c]
    else if c <= 0x7ff then [0xc0 + c / 64, 0x80 + c % 64]
    else [0xe0 + c / 4096, 0x80 + c / 64 % 64, 0x80 + c % 64]
  }

  // One byte up to 0x7f, two up to 0x7ff, three above; the first byte tells how many,
  // and what all have above their marks are the digits of the character.
  lemma EncodeForm(c: Code)
    ensures var e := Encode(Utf8Build, c);
      && |e| == (if c < 0x80 then 1 else if c < 0x800 then 2 else 3)
      && (|e| == 1 ==> e[0] == c)
      && (|e| == 2 ==> 0xc2 <= e[0] < 0xe0 && c == (e[0] as int - 0xc0) * 0x40 + (e[1] as int - 0x80))
      && (|e| == 3 ==>
            0xe0 <= e[0] < 0xf0
            && c == (e[0] as int - 0xe0) * 0x1000 + (e[1] as int - 0x80) * 0x40 + (e[2] as int - 0x80))
      && forall i :: 1 <= i < |e| ==> 0x80 <= e[i] < 0xc0
  {
    Digits(c);
  }

  // The masks and shifts of the source are the divisions and remainders above.
  lemma EncodeMasks(uc: bv16)
    ensures uc <= 0x7ff ==> 0xc0 | ((uc & 0x7c0) >> 6) == 0xc0 + uc / 64
    ensures 0x80 | (uc & 0x3f) == 0x80 + uc % 64
    ensures 0xe0 | ((uc & 0xf000) >> 12) == 0xe0 + uc / 4096
    ensures 0x80 | ((uc & 0xfc0) >> 6) == 0x80 + uc / 64 % 64
  {
  }

  lemma DecodeMasks(s0: bv16, s1: bv16, s2: bv16)
    requires s0 < 0x100 && s1 < 0x100 && s2 < 0x100
    ensures s1 & 0xc0 == 0x80 <==> 0x80 <= s1 < 0xc0
    ensures 0xc0 <= s0 < 0xe0 && 0x80 <= s1 < 0xc0 ==>
      ((s0 & 0xff3f) << 6) | (s1 & 0xff7f) == (s0 - 0xc0) * 64 + (s1 - 0x80)
    ensures 0xe0 <= s0 < 0xf0 && 0x80 <= s1 < 0xc0 && 0x80 <= s2 < 0xc0 ==>
      ((s0 & 0xff1f) << 12) | ((s1 & 0xff7f) << 6) | (s2 & 0xff7f)
      == (s0 - 0xe0) * 4096 + (s1 - 0x80) * 64 + (s2 - 0x80)
  {
  }

  // Reading memory past the modelled bytes finds the terminator.
  function At(m: seq<byte>, i: nat): byte {
    if i < |m| then m[i] else 0
  }

  predicate Continuation(x: byte) {
    0x80 <= x < 0xc0
  }

  // utf8_tounicode: the character at `i` and the number of bytes it takes.
  function Decode(b: Build, m: seq<byte>, i: nat): (r: (Code, nat))
    ensures 1 <= r.1 <= 3
    ensures ValidChar(b, r.0)
  {
    var s0 := At(m, i);
    if b.ByteBuild? || s0 < 0xc0 then (s0, 1)
    else if s0 < 0xe0 && Continuation(At(m, i + 1)) then
      ((s0 - 0xc0) * 64 + (At(m, i + 1) - 0x80), 2)
    else if 0xe0 <= s0 < 0xf0 && Continuation(At(m, i + 1)) && Continuation(At(m, i + 2)) then
      ((s0 - 0xe0) * 4096 + (At(m, i + 1) - 0x80) * 64 + (At(m, i + 2) - 0x80), 3)
    else (s0, 1)
  }

  // utf8_charlen: the length a first byte announces.
  function CharLen(c: byte): int {
    if c < 0x80 then 1
    else if 0xc0 <= c < 0xe0 then 2
    else if 0xe0 <= c < 0xf0 then 3
    else if 0xf0 <= c < 0xf8 then 4
    else -1
  }

  // fd_read of the UTF-8 build on the bytes typed: a character, or -1, and the
  // bytes left.
  function ReadChar(typed: seq<byte>): (r: (int, seq<byte>))
    ensures |r.1| <= |typed|
  {
    if typed == [] then (-1, [])
    else
      var n := CharLen(typed[0]);
      if n < 1 || n > 3 then (-1, typed[1..])
      else if |typed| < n then (-1, [])
      else (Decode(Utf8Build, typed[..n], 0).0, typed[n..])
  }

  // A character typed is the character read, and no byte too many.
  lemma ReadEncoded(c: Code, rest: seq<byte>)
    ensures ReadChar(Encode(Utf8Build, c) + rest) == (c as int, rest)
  {
    var e := Encode(Utf8Build, c);
    var typed := e + rest;
    assert CharLen(typed[0]) == |e|;
    assert typed[..|e|] == e && typed[|e|..] == rest;
    DecodeEncode(Utf8Build, e, 0, c);
  }

  // Decoding the bytes of a character gives that character and its size.
  lemma DecodeEncode(b: Build, m: seq<byte>, i: nat, c: Code)
    requires ValidChar(b, c)
    requires i + |Encode(b, c)| <= |m| && m[i..i + |Encode(b, c)|] == Encode(b, c)
    ensures Decode(b, m, i) == (c, |Encode(b, c)|)
  {
    var e := Encode(b, c);
    Digits(c);
    assert m[i] == e[0];
    if |e| > 1 {
      assert m[i + 1] == e[1];
    }
    if |e| > 2 {
      assert m[i + 2] == e[2];
    }
  }

  // The base-64 digits a character is encoded in.
  lemma Digits(c: Code)
    ensures c / 64 * 64 + c % 64 == c
    ensures c / 4096 * 4096 + c / 64 % 64 * 64 + c % 64 == c
    ensures c / 64 < 1024 && c / 4096 < 16
  {
  }
}
