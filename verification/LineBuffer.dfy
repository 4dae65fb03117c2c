// `struct current` and the functions of linenoise.c that edit it in place, in
// both builds: a byte buffer and three counts that together hold one text.
module LineBuffer {
  import opened Bytes
  import opened Codec
  import opened Text
  import L = Line

  // ---------------------------------------------------------------------------
  // The C library.

  // Memory after memmove: `n` bytes at `src` copied to `dst`.
  function Moved(m: seq<byte>, dst: nat, src: nat, n: nat): (r: seq<byte>)
    requires dst + n <= |m| && src + n <= |m|
    ensures |r| == |m|
  {
    m[..dst] + m[src..src + n] + m[dst + n..]
  }

  // Memory after memcpy from elsewhere.
  function Stored(m: seq<byte>, dst: nat, s: seq<byte>): (r: seq<byte>)
    requires dst + |s| <= |m|
    ensures |r| == |m|
  {
    m[..dst] + s + m[dst + |s|..]
  }

  predicate Zeros(m: seq<byte>, from: nat) {
    forall i :: from <= i < |m| ==> m[i] == 0
  }

  method Memmove(a: array<byte>, dst: nat, src: nat, n: nat)
    requires dst + n <= a.Length && src + n <= a.Length
    modifies a
    ensures a[..] == Moved(old(a[..]), dst, src, n)
  {
    forall i | 0 <= i < n {
      a[dst + i] := a[src + i];
    }
  }

  method Memcpy(a: array<byte>, dst: nat, s: seq<byte>)
    requires dst + |s| <= a.Length
    modifies a
    ensures a[..] == Stored(old(a[..]), dst, s)
  {
    forall i | 0 <= i < |s| {
      a[dst + i] := s[i];
    }
  }

  // Copies the C string `s`, padding with zeros to `n` bytes.
  method Strncpy(a: array<byte>, s: seq<byte>, n: nat)
    requires n <= a.Length
    modifies a
    ensures forall i :: 0 <= i < n ==> a[i] == if i < StrLen(s) then s[i] else 0
    ensures forall i :: n <= i < a.Length ==> a[i] == old(a[i])
  {
    var m := StrLen(s);
    forall i | 0 <= i < n {
      a[i] := if i < m then s[i] else 0;
    }
  }

  // ---------------------------------------------------------------------------

  // utf8_strlen of a prompt.
  function PromptChars(b: Build, prompt: seq<byte>): nat {
    StringTiles(b, prompt, 0, StrLen(prompt));
    Count(b, prompt, 0, StrLen(prompt))
  }

  // The room the two terminal shortcuts insist on.
  predicate Unscrolled(b: Build, prompt: seq<byte>, chars: nat, cols: int) {
    PromptChars(b, prompt) + chars < cols - 1
  }

  // remove_char: 0 nothing removed, 2 erased on the terminal directly, 1 else.
  function RemoveResult(b: Build, prompt: seq<byte>, cols: int, l: L.Line, p: int): int {
    if !(0 <= p < |l.text|) then 0
    else if l.pos == p + 1 == |l.text| && 32 <= EncodeAll(b, l.text)[p] < 128
            && Unscrolled(b, prompt, |l.text|, cols) then 2
    else 1
  }

  // insert_char: 0 refused, 2 written to the terminal directly, 1 else.
  function InsertResult(b: Build, max: nat, prompt: seq<byte>, cols: int, l: L.Line, p: int, ch: int): int {
    if !L.CanInsert(b, max, l, p, ch) then 0
    else if l.pos == p == |l.text| && ch >= 32 && Unscrolled(b, prompt, |l.text|, cols) then 2
    else 1
  }

  class Current {
    const build: Build
    const buf: array<byte>
    var len: int
    var chars: int
    var pos: int
    var cols: int
    const prompt: seq<byte>
    var capture: Option<seq<byte>>

    // What the buffer and the cut buffer hold.
    ghost var text: seq<Code>
    ghost var kill: Option<seq<Code>>

    ghost predicate Ready()
      reads this
    {
      && buf.Length >= 1
      && (capture.Some? <==> kill.Some?)
      && (kill.Some? ==> ValidText(build, kill.value) && capture.value == EncodeAll(build, kill.value))
    }

    // In the one-byte build every byte from `len` on is zero. That is what keeps
    // the buffer terminated although insert_char never moves the terminator.
    ghost predicate ZeroTail()
      reads this, buf
    {
      build.ByteBuild? ==> len >= 0 && Zeros(buf[..], len)
    }

    ghost predicate Valid()
      reads this, buf
    {
      && Ready()
      && ValidText(build, text)
      && 0 <= len < buf.Length
      && buf[..len] == EncodeAll(build, text)
      && chars == |text|
      && 0 <= pos <= chars
      && ZeroTail()
    }

    ghost function View(): (l: L.Line)
      requires Valid()
      reads this, buf
    {
      L.Line(text, pos)
    }

    constructor (build: Build, bufmax: nat, prompt: seq<byte>)
      requires bufmax >= 1
      ensures Ready() && capture == None && kill == None
      ensures this.build == build && this.prompt == prompt && buf.Length == bufmax && fresh(buf)
    {
      this.build := build;
      this.prompt := prompt;
      this.buf := new byte[bufmax];
      len, chars, pos, cols := 0, 0, 0, 0;
      capture := None;
      text, kill := [], None;
    }

    // The buffer holds `str`, cut to fit and padded with zeros, and the counts are
    // those of its decoding steps. If it encodes a text, that is the text; in the
    // one-byte build any string does, in the UTF-8 build the cut may split a
    // character.
    method SetCurrent(str: seq<byte>, ghost t: seq<Code>)
      requires Ready()
      modifies buf, `len, `chars, `pos, `text
      ensures Ready() && 0 <= len < buf.Length && buf[..len] == L.Fitting(buf.Length, str) && Zeros(buf[..], len)
      ensures Tiles(build, buf[..], 0, len) && pos == chars == Count(build, buf[..], 0, len)
      ensures ValidText(build, t) && EncodeAll(build, t) == L.Fitting(buf.Length, str) ==> Valid() && text == t
    {
      hide EncodeAll, Encode, L.Fitting, ValidText, Tiles;
      ghost var kept := L.Fitting(buf.Length, str);
      CopyIn(str);
      len := StrLen(buf[..]);
      text := t;
      StringTiles(build, buf[..], 0, len);
      var n := Utf8StrLen(build, buf[..], 0, len);
      chars := n;
      pos := n;
      if ValidText(build, t) && EncodeAll(build, t) == kept {
        CountWhole(build, buf[..], t);
      }
    }

    // strncpy, and the terminator it may leave out.
    method CopyIn(str: seq<byte>)
      requires buf.Length >= 1
      modifies buf
      ensures var kept := L.Fitting(buf.Length, str);
        |kept| < buf.Length && buf[..|kept|] == kept && Zeros(buf[..], |kept|) && StrLen(buf[..]) == |kept|
    {
      Strncpy(buf, str, buf.Length);
      buf[buf.Length - 1] := 0;
      ghost var kept := L.Fitting(buf.Length, str);
      assert buf[..|kept|] == kept;
      StrLenUnique(buf[..], |kept|);
    }

    // has_room
    predicate HasRoom(bytes: nat)
      reads this
    {
      len + bytes < buf.Length - 1
    }

    // The byte offset of character `p`.
    method Offset(p: nat) returns (off: nat)
      requires Valid() && p <= |text|
      ensures off == Size(build, text[..p]) <= len
    {
      assert text[..0] == [];
      IndexInText(build, buf[..], text, 0, p);
      SizeGrows(build, text, p, p);
      off := Utf8Index(build, buf[..], 0, p);
    }

    method GetChar(p: int) returns (c: int)
      requires Valid()
      ensures c == if 0 <= p < |text| then text[p] else -1
    {
      hide EncodeAll, Encode, Decode, ValidText, Zeros;
      if p >= 0 && p < chars {
        var i := Offset(p);
        DecodeInText(build, buf[..], text, p);
        var (uc, _) := Decode(build, buf[..], i);
        return uc;
      }
      return -1;
    }

    // Whether a change at the end of the line can be shown without a redraw.
    method FitsUnscrolled() returns (ok: bool)
      requires Valid()
      ensures ok == Unscrolled(build, prompt, |text|, cols)
    {
      StringTiles(build, prompt, 0, StrLen(prompt));
      var plen := Utf8StrLen(build, prompt, 0, StrLen(prompt));
      CountWhole(build, buf[..], text);
      var width := Utf8StrLen(build, buf[..], 0, len);
      ok := plen + width < cols - 1;
    }

    method RemoveChar(p: int) returns (ret: int)
      requires Valid()
      modifies buf, `len, `chars, `pos, `text
      ensures Valid()
      ensures View() == L.Remove(old(View()), p)
      ensures ret == RemoveResult(build, prompt, cols, old(View()), p)
    {
      if p >= 0 && p < chars {
        ret := EraseOnTerminal(p);
        CutOut(p);
        return;
      }
      return 0;
    }

    // The shortcut of remove_char.
    method EraseOnTerminal(p: nat) returns (ret: int)
      requires Valid() && p < |text|
      ensures ret == RemoveResult(build, prompt, cols, View(), p)
    {
      hide EncodeAll, PromptChars;
      ret := 1;
      if pos == p + 1 && pos == chars {
        var fits := FitsUnscrolled();
        assert buf[p] == buf[..len][p];
        if 32 <= buf[p] < 128 && fits {
          ret := 2;
        }
      }
    }

    // The byte surgery of remove_char.
    method CutOut(p: nat)
      requires Valid() && p < |text|
      modifies buf, `len, `chars, `pos, `text
      ensures Valid()
      ensures View() == L.RemoveAt(old(View()), p)
    {
      hide EncodeAll, Encode, ValidText, Zeros, Moved, Stored;
      var p1 := Offset(p);
      SizeStep(build, text, p);
      IndexInText(build, buf[..], text, p, 1);
      var n := Utf8Index(build, buf[..], p1, 1);
      var p2 := p1 + n;
      RemoveBytes(build, buf[..], text, p, p1, n, len);
      Memmove(buf, p1, p2, len - p2 + 1);
      len := len - (p2 - p1);
      chars := chars - 1;
      text := text[..p] + text[p + 1..];
      if pos > p {
        pos := pos - 1;
      }
    }

    method InsertChar(p: int, ch: int) returns (ret: int)
      requires Valid()
      modifies buf, `len, `chars, `pos, `text
      ensures Valid()
      ensures View() == L.Insert(build, buf.Length, old(View()), p, ch)
      ensures ret == InsertResult(build, buf.Length, prompt, cols, old(View()), p, ch)
    {
      hide EncodeAll, Encode, PromptChars, Narrow;
      var bytes := Encode(build, Narrow(build, ch));
      if HasRoom(|bytes|) && p >= 0 && p <= chars {
        ret := WriteOnTerminal(p, ch);
        PutIn(p, Narrow(build, ch), bytes);
        return;
      }
      return 0;
    }

    // The shortcut of insert_char.
    method WriteOnTerminal(p: nat, ch: int) returns (ret: int)
      requires Valid() && p <= |text| && L.CanInsert(build, buf.Length, View(), p, ch)
      ensures ret == InsertResult(build, buf.Length, prompt, cols, View(), p, ch)
    {
      hide EncodeAll, Encode, PromptChars;
      ret := 1;
      if pos == p && chars == p {
        var fits := FitsUnscrolled();
        if ch >= 32 && fits {
          ret := 2;
        }
      }
    }

    // The byte surgery of insert_char.
    method PutIn(p: nat, ghost c: Code, bytes: seq<byte>)
      requires Valid() && p <= |text| && ValidChar(build, c) && bytes == Encode(build, c)
      requires HasRoom(|bytes|)
      modifies buf, `len, `chars, `pos, `text
      ensures Valid()
      ensures View() == L.InsertAt(old(View()), p, c)
    {
      hide EncodeAll, Encode, ValidText, Zeros, Moved, Stored;
      var n := |bytes|;
      var p1 := Offset(p);
      var p2 := p1 + n;
      InsertBytes(build, buf[..], text, p, c, p1, bytes, len);
      Memmove(buf, p2, p1, len - p1);
      Memcpy(buf, p1, bytes);
      len := len + n;
      chars := chars + 1;
      text := text[..p] + [c] + text[p..];
      if pos >= p {
        pos := pos + 1;
      }
    }

    method CaptureChars(p: int, n: nat)
      requires Valid()
      modifies `capture, `kill
      ensures Valid()
      ensures kill == if p >= 0 then L.Capture(old(kill), text, p, n) else old(kill)
    {
      hide EncodeAll, Encode;
      if p >= 0 && p + n - 1 < chars {
        var p1 := Offset(p);
        IndexInText(build, buf[..], text, p, n);
        SizeGrows(build, text, p, p + n);
        var nbytes := Utf8Index(build, buf[..], p1, n);
        if nbytes != 0 {
          SliceBytes(build, buf[..], text, p, n);
          capture := Some(buf[p1..p1 + nbytes]);
          kill := Some(text[p..p + n]);
        }
      }
    }

    method RemoveChars(p: nat, n: nat) returns (removed: nat)
      requires Valid()
      modifies buf, `len, `chars, `pos, `text, `capture, `kill
      ensures Valid()
      ensures View() == L.RemoveMany(old(View()), p, n)
      ensures kill == L.Capture(old(kill), old(text), p, n)
      ensures removed == old(|text|) - |text|
    {
      hide EncodeAll, Encode, ValidText, Zeros, L.Capture, PromptChars;
      CaptureChars(p, n);
      removed := 0;
      var left := n;
      while left != 0
        invariant Valid()
        invariant L.RemoveMany(View(), p, left) == L.RemoveMany(old(View()), p, n)
        invariant kill == L.Capture(old(kill), old(text), p, n)
        invariant removed == old(|text|) - |text|
      {
        left := left - 1;
        var r := RemoveChar(p);
        if r == 0 {
          break;
        }
        removed := removed + 1;
      }
    }

    // `s` is the cut buffer: insertion ends at a NUL or at the first refusal.
    method InsertChars(p: int, s: seq<byte>, ghost t: seq<Code>) returns (inserted: nat)
      requires Valid()
      requires ValidText(build, t) && s == EncodeAll(build, t)
      modifies buf, `len, `chars, `pos, `text
      ensures Valid()
      ensures View() == L.InsertMany(build, buf.Length, old(View()), p, CStr(t))
      ensures inserted == |text| - old(|text|)
    {
      hide EncodeAll, Encode, Zeros, PromptChars, Decode, StrLen;
      SizeOfNothing(build);
      inserted := 0;
      var at, i := p, 0;
      ghost var k := 0;
      assert t[..0] == [];
      while At(s, i) != 0
        invariant Valid()
        invariant 0 <= k <= StrLen(t) && i == Size(build, t[..k])
        invariant L.InsertMany(build, buf.Length, View(), at, CStr(t)[k..])
               == L.InsertMany(build, buf.Length, old(View()), p, CStr(t))
        invariant inserted == |text| - old(|text|)
        decreases |t| - k
      {
        NextOfString(build, s, t, k);
        var (ch, n) := Decode(build, s, i);
        var r := InsertChar(at, ch);
        if r == 0 {
          return;
        }
        inserted := inserted + 1;
        at := at + 1;
        i := i + n;
        assert CStr(t)[k..][1..] == CStr(t)[k + 1..];
        k := k + 1;
      }
      NextOfString(build, s, t, k);
    }
  }

  // Moving the bytes behind a character over it, one byte past the text
  // included, leaves the encoding of the text without that character.
  lemma RemoveBytes(b: Build, m: seq<byte>, t: seq<Code>, p: nat, p1: nat, n: nat, len: nat)
    requires Holds(b, m, t) && p < |t| && len == Size(b, t) < |m|
    requires p1 == Size(b, t[..p]) && n == |Encode(b, t[p])|
    ensures p1 + n <= len
    ensures ValidText(b, t[..p] + t[p + 1..])
    ensures Moved(m, p1, p1 + n, len + 1 - (p1 + n))[..len - n] == EncodeAll(b, t[..p] + t[p + 1..])
    ensures n == 1 && Zeros(m, len) ==> Zeros(Moved(m, p1, p1 + n, len + 1 - (p1 + n)), len - n)
  {
    hide EncodeAll, Encode;
    L.SizeRemove(b, t, p);
    EncodeSplit(b, t, p);
    var x, y, z := EncodeAll(b, t[..p]), Encode(b, t[p]), EncodeAll(b, t[p + 1..]);
    assert m[..len] == x + y + z;
    MoveDown(m, x, y, z, len);
  }

  lemma MoveDown(m: seq<byte>, x: seq<byte>, y: seq<byte>, z: seq<byte>, len: nat)
    requires len == |x| + |y| + |z| < |m| && m[..len] == x + y + z
    ensures var m' := Moved(m, |x|, |x| + |y|, len + 1 - (|x| + |y|));
      && m'[..len - |y|] == x + z
      && (|y| == 1 && Zeros(m, len) ==> Zeros(m', len - |y|))
  {
    assert m[..|x|] == m[..len][..|x|] == x;
    assert m[|x + y|..len] == m[..len][|x + y|..] == z;
  }

  // Opening a gap for a character and filling it leaves the encoding of the
  // text with that character; the bytes behind are not touched.
  lemma InsertBytes(b: Build, m: seq<byte>, t: seq<Code>, p: nat, c: Code, p1: nat, e: seq<byte>, len: nat)
    requires Holds(b, m, t) && p <= |t| && len == Size(b, t)
    requires p1 == Size(b, t[..p]) && e == Encode(b, c) && len + |e| <= |m|
    ensures p1 <= len
    ensures ValidChar(b, c) ==> ValidText(b, t[..p] + [c] + t[p..])
    ensures Stored(Moved(m, p1 + |e|, p1, len - p1), p1, e)[..len + |e|] == EncodeAll(b, t[..p] + [c] + t[p..])
    ensures Zeros(m, len) ==> Zeros(Stored(Moved(m, p1 + |e|, p1, len - p1), p1, e), len + |e|)
  {
    hide EncodeAll, Encode;
    L.SizeInsert(b, t, p, c);
    EncodeCut(b, t, p);
    var x, z := EncodeAll(b, t[..p]), EncodeAll(b, t[p..]);
    assert m[..len] == x + z;
    OpenGap(m, x, e, z, len);
  }

  lemma OpenGap(m: seq<byte>, x: seq<byte>, e: seq<byte>, z: seq<byte>, len: nat)
    requires len == |x| + |z| && len + |e| <= |m| && m[..len] == x + z
    ensures var m' := Stored(Moved(m, |x| + |e|, |x|, len - |x|), |x|, e);
      && m'[..len + |e|] == x + e + z
      && (Zeros(m, len) ==> Zeros(m', len + |e|))
  {
    assert m[..|x|] == m[..len][..|x|] == x;
    assert m[|x|..len] == m[..len][|x|..] == z;
  }

  lemma SliceBytes(b: Build, m: seq<byte>, t: seq<Code>, p: nat, n: nat)
    requires Holds(b, m, t) && p + n <= |t|
    ensures Size(b, t[..p]) <= Size(b, t[..p + n]) <= |m|
    ensures m[Size(b, t[..p])..Size(b, t[..p + n])] == EncodeAll(b, t[p..p + n])
  {
    EncodeCut(b, t, p + n);
    EncodeCut(b, t[..p + n], p);
    assert t[..p + n][..p] == t[..p];
    assert t[..p + n][p..] == t[p..p + n];
    assert m[..Size(b, t[..p + n])] == EncodeAll(b, t)[..Size(b, t[..p + n])] == EncodeAll(b, t[..p + n]);
  }

  // Walking an encoded C string: a zero byte is met exactly at the end of the
  // text it holds.
  lemma NextOfString(b: Build, s: seq<byte>, t: seq<Code>, k: nat)
    requires ValidText(b, t) && s == EncodeAll(b, t) && k <= StrLen(t)
    ensures At(s, Size(b, t[..k])) == 0 <==> k == StrLen(t)
    ensures k < |t| ==> Decode(b, s, Size(b, t[..k])) == (t[k], |Encode(b, t[k])|)
    ensures k < |t| ==> Size(b, t[..k + 1]) == Size(b, t[..k]) + |Encode(b, t[k])|
  {
    if k == |t| {
      assert t[..k] == t;
    } else {
      DecodeInText(b, s, t, k);
      EncodeSplit(b, t, k);
      assert s[Size(b, t[..k])] == Encode(b, t[k])[0];
    }
  }
}
