// linenoiseHistorySave and linenoiseHistoryLoad.
module HistoryFile {
  import opened Bytes
  import opened Editing
  import opened History

  const BACKSLASH: byte := '\\' as int
  const LF: byte := '\n' as int
  const CR: byte := '\r' as int

  // fgets reads one byte less than the buffer holds at a time.
  const CHUNK := MAX_LINE - 1

  // ---------------------------------------------------------------------------
  // The file format.

  function EncodeByte(c: byte): seq<byte> {
    if c == BACKSLASH then [BACKSLASH, BACKSLASH]
    else if c == LF then [BACKSLASH, 'n' as int]
    else if c == CR then [BACKSLASH, 'r' as int]
    else [c]
  }

  function EncodeLine(s: seq<byte>): seq<byte> {
    if s == [] then [] else EncodeByte(s[0]) + EncodeLine(s[1..])
  }

  function FileOf(lines: seq<seq<byte>>): seq<byte> {
    if lines == [] then [] else EncodeLine(lines[0]) + [LF] + FileOf(lines[1..])
  }

  // What fgets delivers: up to a line feed, which is included, but at most
  // `limit` bytes.
  function ChunkLen(file: seq<byte>, limit: nat): (n: nat)
    ensures n <= |file| && n <= limit
    ensures file != [] && limit > 0 ==> n > 0
  {
    if file == [] || limit == 0 then 0
    else if file[0] == LF then 1
    else 1 + ChunkLen(file[1..], limit - 1)
  }

  // The bytes behind a backslash in a file.
  function DecodeByte(c: byte): byte {
    if c == 'n' as int then LF else if c == 'r' as int then CR else c
  }

  // A chunk that ends inside an escape has no meaning: the loop would run past
  // the terminator.
  function Decode(s: seq<byte>): Option<seq<byte>>
    decreases |s|
  {
    if s == [] then Some([])
    else if s[0] != BACKSLASH then Prepend([s[0]], Decode(s[1..]))
    else if |s| == 1 then None
    else Prepend([DecodeByte(s[1])], Decode(s[2..]))
  }

  function Prepend(front: seq<byte>, s: Option<seq<byte>>): Option<seq<byte>> {
    if s.Some? then Some(front + s.value) else None
  }

  // One line end is dropped, if there is one.
  function Chomp(s: seq<byte>): seq<byte> {
    if s != [] && (s[|s| - 1] == LF || s[|s| - 1] == CR) then s[..|s| - 1] else s
  }

  // The lines a file is read as.
  function LinesOf(file: seq<byte>): Option<seq<seq<byte>>>
    decreases |file|
  {
    if file == [] then Some([])
    else
      var n := ChunkLen(file, CHUNK);
      var line, rest := Decode(file[..n][..StrLen(file[..n])]), LinesOf(file[n..]);
      if line.Some? && rest.Some? then Some([Chomp(line.value)] + rest.value) else None
  }

  // ---------------------------------------------------------------------------
  // The code.

  method Save(h: History) returns (file: seq<byte>)
    requires h.Valid()
    ensures file == FileOf(h.lines)
  {
    hide EncodeLine;
    file := [];
    var j := 0;
    while j < h.len
      invariant 0 <= j <= h.len
      invariant file + FileOf(h.lines[j..]) == FileOf(h.lines)
    {
      var str := SaveLine(h.slots[j].text);
      assert h.lines[j..][1..] == h.lines[j + 1..];
      Associates(file, str + [LF], FileOf(h.lines[j + 1..]));
      file := file + (str + [LF]);
      j := j + 1;
    }
    assert h.lines[j..] == [] && file + [] == file;
  }

  // Backslash, line feed and carriage return are written as escapes.
  method SaveLine(str: seq<byte>) returns (out: seq<byte>)
    ensures out == EncodeLine(str)
  {
    hide EncodeByte;
    out := [];
    var i := 0;
    while i < |str|
      invariant 0 <= i <= |str|
      invariant out + EncodeLine(str[i..]) == EncodeLine(str)
    {
      assert str[i..][1..] == str[i + 1..];
      Associates(out, EncodeByte(str[i]), EncodeLine(str[i + 1..]));
      out := out + EncodeByte(str[i]);
      i := i + 1;
    }
    assert str[i..] == [] && out + [] == out;
  }

  // Decodes the C string in `buf` in place and returns its new length. Where the
  // source would read on behind the terminator, nothing is returned.
  method DecodeInPlace(buf: array<byte>, n: nat) returns (len: Option<nat>)
    requires n < buf.Length && buf[n] == 0 && 0 !in buf[..n]
    modifies buf
    ensures len.Some? ==> len.value <= n
    ensures Decode(old(buf[..n])) == if len.Some? then Some(buf[..len.value]) else None
  {
    hide DecodeByte, Decode;
    ghost var whole := buf[..n];
    var src, dest := 0, 0;
    assert whole[0..] == whole && buf[..0] == [];
    DecodeEnds();
    PrependNothing(Decode(whole));
    while buf[src] != 0
      invariant 0 <= dest <= src <= n
      invariant buf[n] == 0 && forall k :: src <= k < n ==> buf[k] == whole[k] != 0
      invariant Decode(whole) == Prepend(buf[..dest], Decode(whole[src..]))
      decreases n - src
    {
      ghost var done := buf[..dest];
      DecodeNext(whole, src);
      var ch := buf[src];
      if ch == BACKSLASH {
        src := src + 1;
        if buf[src] == 0 {
          return None;
        }
        ch := DecodeByte(buf[src]);
      }
      buf[dest] := ch;
      dest := dest + 1;
      assert buf[..dest] == done + [ch];
      src := src + 1;
      PrependTwice(done, [ch], Decode(whole[src..]));
    }
    assert whole[n..] == [] && buf[..dest] + [] == buf[..dest];
    len := Some(dest);
  }

  lemma DecodeEnds()
    ensures Decode([]) == Some([])
  {
  }

  lemma PrependNothing(s: Option<seq<byte>>)
    ensures Prepend([], s) == s
  {
    assert s.Some? ==> [] + s.value == s.value;
  }

  lemma PrependTwice(a: seq<byte>, b: seq<byte>, s: Option<seq<byte>>)
    ensures Prepend(a, Prepend(b, s)) == Prepend(a + b, s)
  {
    if s.Some? {
      Associates(a, b, s.value);
    }
  }

  // One round of the decoding loop.
  lemma DecodeNext(s: seq<byte>, i: nat)
    requires i < |s|
    ensures Decode(s[i..]) ==
      if s[i] != BACKSLASH then Prepend([s[i]], Decode(s[i + 1..]))
      else if i + 1 == |s| then None
      else Prepend([DecodeByte(s[i + 1])], Decode(s[i + 2..]))
  {
    assert s[i..][1..] == s[i + 1..];
    if i + 1 < |s| {
      assert s[i..][2..] == s[i + 2..];
    }
  }

  // The history with the lines of a file added, if the file can be read.
  function Loaded(max: int, h: seq<seq<Code>>, lines: Option<seq<seq<byte>>>): Option<seq<seq<Code>>> {
    if lines.Some? then Some(AddedAll(max, h, lines.value)) else None
  }

  // Returns false where the source would read behind a terminator.
  method Load(h: History, file: seq<byte>) returns (ok: bool)
    requires h.Valid()
    modifies h, h.slots
    ensures h.Valid() && h.max == old(h.max)
    ensures h.slots == old(h.slots) || fresh(h.slots)
    ensures ok == Loadable(file)
    ensures ok ==> Loaded(h.max, old(h.lines), LinesOf(file)) == Some(h.lines)
  {
    hide LinesOf, Decode, Loaded, Added, ChunkLen, Loadable, Chomp, h.Valid;
    var at := 0;
    LinesDefined(file);
    LoadedNothing(h.max, h.lines);
    assert file[0..] == file;
    while at < |file|
      invariant 0 <= at <= |file|
      invariant h.Valid() && h.max == old(h.max)
      invariant h.slots == old(h.slots) || fresh(h.slots)
      invariant Loaded(h.max, h.lines, LinesOf(file[at..])) == Loaded(h.max, old(h.lines), LinesOf(file))
    {
      var n := ChunkLen(file[at..], CHUNK);
      assert file[at..][n..] == file[at + n..];
      var line := ReadLine(file[at..][..n]);
      LoadedStep(h.max, h.lines, file[at..]);
      if line.None? {
        LoadedNone(h.max, old(h.lines), LinesOf(file));
        return false;
      }
      var _ := h.Add(line.value);
      at := at + n;
    }
    assert file[at..] == [];
    LoadedNothing(h.max, h.lines);
    LoadedNone(h.max, old(h.lines), LinesOf(file));
    return true;
  }

  lemma LoadedNothing(max: int, h: seq<seq<Code>>)
    ensures LinesOf([]) == Some([]) && Loaded(max, h, Some([])) == Some(h)
  {
  }

  lemma LoadedNone(max: int, h: seq<seq<Code>>, lines: Option<seq<seq<byte>>>)
    ensures Loaded(max, h, lines).None? <==> lines.None?
  {
  }

  // The line that the first chunk of a file holds.
  function FirstLine(file: seq<byte>): Option<seq<byte>> {
    var chunk := file[..ChunkLen(file, CHUNK)];
    var line := Decode(chunk[..StrLen(chunk)]);
    if line.Some? then Some(Chomp(line.value)) else None
  }

  lemma LoadedStep(max: int, h: seq<seq<Code>>, file: seq<byte>)
    requires file != []
    ensures Loaded(max, h, LinesOf(file)) ==
      if FirstLine(file).None? then None
      else Loaded(max, Added(max, h, FirstLine(file).value), LinesOf(file[ChunkLen(file, CHUNK)..]))
  {
    hide Decode, ChunkLen, Chomp, Added, AddedAll;
    var rest := LinesOf(file[ChunkLen(file, CHUNK)..]);
    if FirstLine(file).Some? && rest.Some? {
      AddedCons(max, h, FirstLine(file).value, rest.value);
    }
  }

  lemma AddedCons(max: int, h: seq<seq<Code>>, line: seq<byte>, rest: seq<seq<byte>>)
    ensures AddedAll(max, h, [line] + rest) == AddedAll(max, Added(max, h, line), rest)
  {
    assert ([line] + rest)[1..] == rest;
  }

  // One chunk as it arrives in the buffer.
  method ReadLine(chunk: seq<byte>) returns (line: Option<seq<byte>>)
    requires |chunk| <= CHUNK
    ensures var s := Decode(chunk[..StrLen(chunk)]);
      line == if s.Some? then Some(Chomp(s.value)) else None
  {
    hide Decode;
    var buf := new byte[MAX_LINE](i => 0);
    forall i | 0 <= i < |chunk| {
      buf[i] := chunk[i];
    }
    ghost var s := chunk[..StrLen(chunk)];
    assert buf[..|s|] == s;
    var len := DecodeInPlace(buf, StrLen(chunk));
    if len.None? {
      return None;
    }
    var dest := len.value;
    if dest != 0 && (buf[dest - 1] == LF || buf[dest - 1] == CR) {
      dest := dest - 1;
    }
    assert buf[..len.value][..dest] == buf[..dest];
    line := Some(buf[..dest]);
  }

  // ---------------------------------------------------------------------------
  // Which files can be read.

  // The backslashes that end `s`.
  function EndRun(s: seq<byte>): (n: nat)
    ensures n <= |s|
  {
    if s != [] && s[|s| - 1] == BACKSLASH then 1 + EndRun(s[..|s| - 1]) else 0
  }

  lemma {:induction false} EndRunConcat(a: seq<byte>, b: seq<byte>)
    ensures EndRun(a + b) == if EndRun(b) < |b| then EndRun(b) else |b| + EndRun(a)
    decreases |b|
  {
    if b == [] {
      assert a + b == a;
    } else if b[|b| - 1] == BACKSLASH {
      assert (a + b)[..|a + b| - 1] == a + b[..|b| - 1];
      EndRunConcat(a, b[..|b| - 1]);
    }
  }

  lemma EndRunOne(c: byte)
    ensures EndRun([c]) == if c == BACKSLASH then 1 else 0
  {
    assert EndRun([c][..0]) == 0;
  }

  // A plain byte or a whole escape in front does not change the parity.
  lemma EndRunPlain(c: byte, rest: seq<byte>)
    requires c != BACKSLASH
    ensures EndRun([c] + rest) == EndRun(rest)
  {
    hide EndRun;
    EndRunOne(c);
    EndRunConcat([c], rest);
  }

  lemma EndRunEscape(c: byte, rest: seq<byte>)
    ensures EndRun([BACKSLASH, c] + rest) == EndRun(rest) || EndRun([BACKSLASH, c] + rest) == EndRun(rest) + 2
  {
    hide EndRun;
    EndRunOne(BACKSLASH);
    EndRunOne(c);
    EndRunConcat([BACKSLASH], [c]);
    assert [BACKSLASH] + [c] == [BACKSLASH, c];
    EndRunConcat([BACKSLASH, c], rest);
  }

  // A chunk can be decoded exactly if it ends in an even number of backslashes.
  lemma {:induction false} DecodeDefined(s: seq<byte>)
    ensures Decode(s).Some? <==> EndRun(s) % 2 == 0
    decreases |s|
  {
    if |s| == 1 && s[0] == BACKSLASH {
      assert EndRun(s) == 1 + EndRun(s[..0]);
    } else if s != [] {
      hide EndRun;
      if s[0] == BACKSLASH {
        DecodeDefined(s[2..]);
        EndRunEscape(s[1], s[2..]);
        assert [s[0], s[1]] + s[2..] == s;
      } else {
        DecodeDefined(s[1..]);
        EndRunPlain(s[0], s[1..]);
        assert [s[0]] + s[1..] == s;
      }
    } else {
      assert EndRun(s) == 0;
    }
  }

  predicate Loadable(file: seq<byte>)
    decreases |file|
  {
    file == [] ||
      var n := ChunkLen(file, CHUNK);
      EndRun(CStr(file[..n])) % 2 == 0 && Loadable(file[n..])
  }

  lemma {:induction false} LinesDefined(file: seq<byte>)
    ensures LinesOf(file).Some? <==> Loadable(file)
    decreases |file|
  {
    hide Decode, EndRun, ChunkLen;
    if file != [] {
      var n := ChunkLen(file, CHUNK);
      DecodeDefined(CStr(file[..n]));
      LinesDefined(file[n..]);
    }
  }

  // An escaped line of which no chunk ends inside an escape.
  predicate Cuttable(e: seq<byte>)
    decreases |e|
  {
    |e| < CHUNK || (EndRun(e[..CHUNK]) % 2 == 0 && Cuttable(e[CHUNK..]))
  }

  lemma {:induction false} LineLoadable(e: seq<byte>, rest: seq<byte>)
    requires LF !in e && 0 !in e
    ensures Loadable(e + [LF] + rest) <==> Cuttable(e) && Loadable(rest)
    decreases |e|
  {
    hide EndRun, ChunkLen;
    var file := e + [LF] + rest;
    ChunkOfLine(e, rest, CHUNK);
    if |e| < CHUNK {
      assert file[..|e| + 1] == e + [LF] && file[|e| + 1..] == rest;
      CStrWhole(e + [LF]);
      NoEndRun(e + [LF]);
    } else {
      assert file[..CHUNK] == e[..CHUNK] && file[CHUNK..] == e[CHUNK..] + [LF] + rest;
      CStrWhole(e[..CHUNK]);
      LineLoadable(e[CHUNK..], rest);
    }
  }

  lemma NoEndRun(s: seq<byte>)
    requires s != [] && s[|s| - 1] != BACKSLASH
    ensures EndRun(s) == 0
  {
  }

  // A saved history can be loaded exactly if no chunk of a line ends inside an
  // escape.
  lemma {:induction false} SavedLoadable(lines: seq<seq<byte>>)
    requires CStrings(lines)
    ensures Loadable(FileOf(lines)) <==> forall i :: 0 <= i < |lines| ==> Cuttable(EncodeLine(lines[i]))
    decreases |lines|
  {
    hide EncodeLine, Cuttable;
    if lines == [] {
      assert Loadable([]);
    } else {
      hide Loadable;
      assert forall i :: 0 <= i < |lines[1..]| ==> lines[1..][i] == lines[i + 1];
      SavedLoadable(lines[1..]);
      EncodedBytes(lines[0]);
      LineLoadable(EncodeLine(lines[0]), FileOf(lines[1..]));
    }
  }

  // A history that cannot: a line of 2048 or more backslashes, which fits the
  // editor, is written as twice as many, and the first chunk takes an odd number.
  lemma BackslashesNotLoadable(s: seq<byte>)
    requires 2048 <= |s| < MAX_LINE && forall i :: 0 <= i < |s| ==> s[i] == BACKSLASH
    ensures EntryOk(MAX_LINE, s) && !Loadable(FileOf([s]))
  {
    hide EncodeLine, Loadable, FileOf, EndRun;
    assert 0 !in s;
    var e := EncodeLine(s);
    BackslashesEncoded(s);
    AllEndRun(e[..CHUNK]);
    SavedLoadable([s]);
    assert !Cuttable(EncodeLine([s][0]));
  }

  lemma {:induction false} BackslashesEncoded(s: seq<byte>)
    requires forall i :: 0 <= i < |s| ==> s[i] == BACKSLASH
    ensures |EncodeLine(s)| == 2 * |s|
    ensures forall i :: 0 <= i < |EncodeLine(s)| ==> EncodeLine(s)[i] == BACKSLASH
  {
    if s != [] {
      BackslashesEncoded(s[1..]);
    }
  }

  lemma {:induction false} AllEndRun(s: seq<byte>)
    requires forall i :: 0 <= i < |s| ==> s[i] == BACKSLASH
    ensures EndRun(s) == |s|
  {
    if s != [] {
      AllEndRun(s[..|s| - 1]);
    }
  }

  // ---------------------------------------------------------------------------
  // What is loaded fits the editor.

  lemma {:induction false} DecodedFits(s: seq<byte>)
    requires 0 !in s && Decode(s).Some?
    ensures |Decode(s).value| <= |s| && 0 !in Decode(s).value
    decreases |s|
  {
    if s != [] {
      DecodedFits(s[if s[0] == BACKSLASH then 2 else 1..]);
    }
  }

  lemma {:induction false} LinesFit(file: seq<byte>)
    requires LinesOf(file).Some?
    ensures HistoryOk(MAX_LINE, LinesOf(file).value)
    decreases |file|
  {
    hide Decode, ChunkLen;
    if file != [] {
      var n := ChunkLen(file, CHUNK);
      DecodedFits(CStr(file[..n]));
      LinesFit(file[n..]);
    }
  }

  // So a history loaded is one the editor can start with.
  lemma LoadedOk(max: int, h: seq<seq<Code>>, file: seq<byte>)
    requires HistoryOk(MAX_LINE, h) && LinesOf(file).Some?
    ensures HistoryOk(MAX_LINE, Loaded(max, h, LinesOf(file)).value)
  {
    hide LinesOf;
    LinesFit(file);
    AddedAllOk(max, h, LinesOf(file).value);
  }

  lemma {:induction false} AddedAllOk(max: int, h: seq<seq<Code>>, lines: seq<seq<Code>>)
    requires HistoryOk(MAX_LINE, h) && HistoryOk(MAX_LINE, lines)
    ensures HistoryOk(MAX_LINE, AddedAll(max, h, lines))
    decreases |lines|
  {
    if lines != [] {
      CStrWhole(lines[0]);
      AddedAllOk(max, Added(max, h, lines[0]), lines[1..]);
    }
  }

  // ---------------------------------------------------------------------------
  // Reading back what was written.

  lemma {:induction false} DecodeEncoded(s: seq<byte>, tail: seq<byte>)
    requires Decode(tail).Some?
    ensures Decode(EncodeLine(s) + tail) == Some(s + Decode(tail).value)
  {
    if s == [] {
      assert EncodeLine(s) + tail == tail;
      assert [] + Decode(tail).value == Decode(tail).value;
    } else {
      hide *;
      EncodeCons(s);
      DecodeEncoded(s[1..], tail);
      DecodeEncodedByte(s[0], EncodeLine(s[1..]) + tail);
      Associates(EncodeByte(s[0]), EncodeLine(s[1..]), tail);
      PrependMore(s, Decode(tail).value);
    }
  }

  lemma EncodeCons(s: seq<byte>)
    requires s != []
    ensures EncodeLine(s) == EncodeByte(s[0]) + EncodeLine(s[1..])
  {
  }

  lemma PrependMore(s: seq<byte>, t: seq<byte>)
    requires s != []
    ensures Prepend([s[0]], Some(s[1..] + t)) == Some(s + t)
  {
    assert [s[0]] + (s[1..] + t) == s + t;
  }

  lemma DecodeEncodedByte(c: byte, rest: seq<byte>)
    ensures Decode(EncodeByte(c) + rest) == Prepend([c], Decode(rest))
  {
    var e := EncodeByte(c);
    assert (e + rest)[|e|..] == rest;
  }

  // The format, in bytes: a backslash is doubled, a line feed and a carriage return
  // become backslash and letter, and byte 10 ends a line.
  lemma {:induction false} EscapedForms()
    ensures EncodeLine([92]) == [92, 92]
    ensures EncodeLine([10]) == [92, 'n' as int]
    ensures EncodeLine([13]) == [92, 'r' as int]
  {
    hide EncodeLine;
    EncodeCons([92]);
    EncodeCons([10]);
    EncodeCons([13]);
    NothingEncoded();
    assert [92][1..] == [] && [10][1..] == [] && [13][1..] == [];
  }

  lemma {:induction false} NothingEncoded()
    ensures EncodeLine([]) == []
  {
  }

  // In a file any other character may be escaped too, but the end of a chunk.
  lemma {:induction false} EscapesRead(c: byte, s: seq<byte>)
    requires Decode(s).Some?
    ensures Decode([92]).None?
    ensures Decode([92, c] + s) == Some(
      (if c == 'n' as int then [10] else if c == 'r' as int then [13] else [c]) + Decode(s).value)
    ensures c != 92 ==> Decode([c] + s) == Some([c] + Decode(s).value)
  {
    assert ([92, c] + s)[2..] == s && ([c] + s)[1..] == s;
  }

  predicate Unescaped(s: seq<byte>) {
    92 !in s && 10 !in s && 13 !in s
  }

  lemma {:induction false} PlainEncoded(s: seq<byte>)
    requires Unescaped(s)
    ensures EncodeLine(s) == s
  {
    if s != [] {
      assert s[0] in s;
      PlainEncoded(s[1..]);
      assert [s[0]] + s[1..] == s;
    }
  }

  lemma {:induction false} PlainFile(s: seq<byte>, rest: seq<seq<byte>>)
    requires Unescaped(s)
    ensures FileOf([]) == [] && FileOf([s] + rest) == s + [10] + FileOf(rest)
  {
    hide EncodeLine;
    PlainEncoded(s);
    assert ([s] + rest)[1..] == rest;
  }

  lemma {:induction false} RawDecoded(s: seq<byte>)
    requires 92 !in s
    ensures Decode(s) == Some(s)
    decreases |s|
  {
    if s != [] {
      assert s[0] in s;
      RawDecoded(s[1..]);
      assert [s[0]] + s[1..] == s;
    }
  }

  // A file written by other means: a line without backslash that fits a chunk is
  // read up to its byte 10, and a last line without one is read too.
  lemma {:induction false} RawLineRead(s: seq<byte>, rest: seq<byte>)
    requires 92 !in s && 10 !in s && 0 !in s && |s| < 4095
    ensures LinesOf(s + [10] + rest) == if LinesOf(rest).Some? then Some([s] + LinesOf(rest).value) else None
    ensures s != [] && s[|s| - 1] != 13 ==> LinesOf(s) == Some([s])
    ensures s != [] && s[|s| - 1] == 13 ==> LinesOf(s) == Some([s[..|s| - 1]])
  {
    hide Decode, ChunkLen;
    var file := s + [10] + rest;
    ChunkOfLine(s, rest, CHUNK);
    assert file[..|s| + 1] == s + [10] && file[|s| + 1..] == rest;
    CStrWhole(s + [10]);
    RawDecoded(s + [10]);
    assert Chomp(s + [10]) == s;
    if s != [] {
      WholeChunk(s, CHUNK);
      assert s[..|s|] == s && s[|s|..] == [];
      CStrWhole(s);
      RawDecoded(s);
      assert s[|s| - 1] in s;
      LoadedNothing(0, []);
      assert forall line: seq<byte> :: [line] + [] == [line];
    }
  }

  lemma {:induction false} WholeChunk(s: seq<byte>, limit: nat)
    requires 10 !in s && |s| <= limit
    ensures ChunkLen(s, limit) == |s|
    decreases |s|
  {
    if s != [] {
      assert s[0] in s;
      WholeChunk(s[1..], limit - 1);
    }
  }

  // An encoded line holds no line feed, and no NUL unless the line does.
  lemma {:induction false} EncodedBytes(s: seq<byte>)
    ensures LF !in EncodeLine(s)
    ensures 0 !in s ==> 0 !in EncodeLine(s)
  {
    if s != [] {
      EncodedBytes(s[1..]);
    }
  }

  lemma {:induction false} ChunkOfLine(e: seq<byte>, rest: seq<byte>, limit: nat)
    requires LF !in e
    ensures ChunkLen(e + [LF] + rest, limit) == if |e| < limit then |e| + 1 else limit
    decreases |e|
  {
    var file := e + [LF] + rest;
    if e != [] && limit > 0 {
      assert file[1..] == e[1..] + [LF] + rest;
      ChunkOfLine(e[1..], rest, limit - 1);
    }
  }

  // A line that fits a chunk is read back as itself.
  lemma LineReadBack(s: seq<byte>, rest: seq<byte>)
    requires 0 !in s && |EncodeLine(s)| < CHUNK
    ensures var file := EncodeLine(s) + [LF] + rest;
      && ChunkLen(file, CHUNK) == |EncodeLine(s)| + 1
      && LinesOf(file) == if LinesOf(rest).Some? then Some([s] + LinesOf(rest).value) else None
  {
    hide EncodeLine, Decode, ChunkLen;
    var e := EncodeLine(s);
    var file := e + [LF] + rest;
    var n := |e| + 1;
    EncodedBytes(s);
    ChunkOfLine(e, rest, CHUNK);
    assert file[..n] == e + [LF] && file[n..] == rest;
    assert 0 !in e + [LF];
    CStrWhole(e + [LF]);
    assert file[..n][..StrLen(file[..n])] == e + [LF];
    LineFeedDecodes();
    DecodeEncoded(s, [LF]);
    assert Chomp(s + [LF]) == s;
  }

  lemma LineFeedDecodes()
    ensures Decode([LF]) == Some([LF])
  {
    assert [LF][1..] == [] && [LF] + [] == [LF];
    assert Decode([LF]) == Prepend([LF], Decode([]));
  }

  // A longer line takes more than one chunk.
  lemma {:induction false} LongLineSplits(e: seq<byte>, rest: seq<byte>)
    requires LF !in e
    ensures var lines, more := LinesOf(e + [LF] + rest), LinesOf(rest);
      lines.Some? ==> more.Some? && |lines.value| >= |more.value| + (if |e| < CHUNK then 1 else 2)
    decreases |e|
  {
    hide Decode, ChunkLen;
    var file := e + [LF] + rest;
    ChunkOfLine(e, rest, CHUNK);
    if |e| < CHUNK {
      assert file[|e| + 1..] == rest;
    } else {
      assert file[CHUNK..] == e[CHUNK..] + [LF] + rest;
      LongLineSplits(e[CHUNK..], rest);
    }
  }

  predicate Short(lines: seq<seq<byte>>) {
    forall i :: 0 <= i < |lines| ==> |EncodeLine(lines[i])| < CHUNK
  }

  lemma {:induction false} FileNotShorter(lines: seq<seq<byte>>)
    ensures LinesOf(FileOf(lines)).Some? ==>
      |LinesOf(FileOf(lines)).value| >= |lines|
      && (!Short(lines) ==> |LinesOf(FileOf(lines)).value| > |lines|)
    decreases |lines|
  {
    hide LinesOf, EncodeLine;
    if lines == [] {
    } else {
      var e := EncodeLine(lines[0]);
      EncodedBytes(lines[0]);
      LongLineSplits(e, FileOf(lines[1..]));
      FileNotShorter(lines[1..]);
      assert |e| < CHUNK && Short(lines[1..]) ==> Short(lines) by {
        assert forall i :: 1 <= i < |lines| ==> lines[i] == lines[1..][i - 1];
      }
    }
  }

  lemma {:induction false} ShortFileReadBack(lines: seq<seq<byte>>)
    requires CStrings(lines) && Short(lines)
    ensures LinesOf(FileOf(lines)) == Some(lines)
    decreases |lines|
  {
    hide LinesOf, EncodeLine;
    if lines == [] {
      LoadedNothing(0, []);
    } else {
      assert forall i :: 0 <= i < |lines[1..]| ==> lines[1..][i] == lines[i + 1];
      ShortFileReadBack(lines[1..]);
      LineReadBack(lines[0], FileOf(lines[1..]));
      assert [lines[0]] + lines[1..] == lines;
    }
  }

  // A file is read as the lines it was written from exactly if every line,
  // escaped, leaves room for its line feed in one chunk.
  lemma FileReadBack(lines: seq<seq<byte>>)
    requires CStrings(lines)
    ensures LinesOf(FileOf(lines)) == Some(lines) <==> Short(lines)
  {
    hide LinesOf, FileOf, EncodeLine;
    FileNotShorter(lines);
    if Short(lines) {
      ShortFileReadBack(lines);
    }
  }

  // Saving a history of short lines and loading it into an empty history of
  // maximum `max` gives its last `max` lines without adjacent repeats, so the
  // same history exactly if there are no more lines than that and no repeats.
  lemma SaveThenLoad(lines: seq<seq<byte>>, max: int)
    requires max >= 1 && CStrings(lines) && Short(lines)
    ensures LinesOf(FileOf(lines)) == Some(lines)
    ensures AddedAll(max, [], lines) == LastN(Dedup(lines), max)
    ensures AddedAll(max, [], lines) == lines <==> |lines| <= max && NoAdjacentRepeats(lines)
  {
    hide *;
    ShortFileReadBack(lines);
    AddedAllIsDedup(max, lines);
    DedupIdentity(lines);
    LastNWhole<seq<Code>>(Dedup(lines), lines, max);
  }

  lemma LastNWhole<T>(d: seq<T>, s: seq<T>, n: nat)
    requires |d| <= |s|
    ensures LastN(d, n) == s <==> d == s && |s| <= n
  {
  }
}
