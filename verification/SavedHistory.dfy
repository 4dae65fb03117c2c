// Which histories come back when they are saved and loaded again.
module SavedHistory {
  import opened Bytes
  import opened Editing
  import opened History
  import opened HistoryFile

  // ---------------------------------------------------------------------------
  // The lines one saved line is read as, chunk by chunk.

  function PieceOf(chunk: seq<byte>): seq<byte> {
    var s := Decode(chunk);
    if s.Some? then Chomp(s.value) else []
  }

  function Pieces(e: seq<byte>): seq<seq<byte>>
    decreases |e|
  {
    if |e| < CHUNK then [PieceOf(e + [LF])] else [PieceOf(e[..CHUNK])] + Pieces(e[CHUNK..])
  }

  function AllPieces(lines: seq<seq<byte>>): seq<seq<byte>> {
    if lines == [] then [] else Pieces(EncodeLine(lines[0])) + AllPieces(lines[1..])
  }

  lemma {:induction false} LinePieces(e: seq<byte>, rest: seq<byte>)
    requires LF !in e && 0 !in e && LinesOf(e + [LF] + rest).Some?
    ensures LinesOf(rest).Some?
    ensures LinesOf(e + [LF] + rest).value == Pieces(e) + LinesOf(rest).value
    decreases |e|
  {
    hide Decode, ChunkLen, LinesOf, Pieces, PieceOf;
    var file := e + [LF] + rest;
    ChunkOfLine(e, rest, CHUNK);
    FirstChunk(file);
    PiecesStep(e);
    if |e| < CHUNK {
      assert file[..|e| + 1] == e + [LF] && file[|e| + 1..] == rest;
      CStrWhole(e + [LF]);
    } else {
      assert file[..CHUNK] == e[..CHUNK] && file[CHUNK..] == e[CHUNK..] + [LF] + rest;
      CStrWhole(e[..CHUNK]);
      LinePieces(e[CHUNK..], rest);
      Associates([PieceOf(e[..CHUNK])], Pieces(e[CHUNK..]), LinesOf(rest).value);
    }
  }

  lemma FirstChunk(file: seq<byte>)
    requires file != [] && LinesOf(file).Some?
    ensures var n := ChunkLen(file, CHUNK);
      && LinesOf(file[n..]).Some?
      && LinesOf(file).value == [PieceOf(CStr(file[..n]))] + LinesOf(file[n..]).value
  {
    hide Decode, ChunkLen;
  }

  lemma PiecesStep(e: seq<byte>)
    ensures Pieces(e) == if |e| < CHUNK then [PieceOf(e + [LF])] else [PieceOf(e[..CHUNK])] + Pieces(e[CHUNK..])
  {
  }

  lemma {:induction false} SavedPieces(lines: seq<seq<byte>>)
    requires CStrings(lines) && LinesOf(FileOf(lines)).Some?
    ensures LinesOf(FileOf(lines)).value == AllPieces(lines)
    decreases |lines|
  {
    hide LinesOf, EncodeLine, Pieces;
    if lines == [] {
      LoadedNothing(0, []);
    } else {
      assert forall i :: 0 <= i < |lines[1..]| ==> lines[1..][i] == lines[i + 1];
      EncodedBytes(lines[0]);
      LinePieces(EncodeLine(lines[0]), FileOf(lines[1..]));
      SavedPieces(lines[1..]);
    }
  }

  lemma {:induction false} AllPiecesSnoc(lines: seq<seq<byte>>, last: seq<byte>)
    ensures AllPieces(lines + [last]) == AllPieces(lines) + Pieces(EncodeLine(last))
    decreases |lines|
  {
    hide Pieces, EncodeLine;
    if lines == [] {
      assert [last][1..] == [] && [] + [last] == [last];
    } else {
      assert (lines + [last])[1..] == lines[1..] + [last];
      AllPiecesSnoc(lines[1..], last);
      Associates(Pieces(EncodeLine(lines[0])), AllPieces(lines[1..]), Pieces(EncodeLine(last)));
    }
  }

  // Every history that can be loaded comes back as the newest of its pieces, repeats
  // dropped.
  lemma SavedThenLoaded(lines: seq<seq<byte>>, max: int)
    requires max >= 1 && CStrings(lines) && Loadable(FileOf(lines))
    ensures Loaded(max, [], LinesOf(FileOf(lines))) == Some(LastN(Dedup(AllPieces(lines)), max))
  {
    hide LinesOf, FileOf, Loadable, Dedup, LastN, AddedAll, AllPieces;
    LinesDefined(FileOf(lines));
    SavedPieces(lines);
    LinesFit(FileOf(lines));
    assert CStrings(AllPieces(lines)) by {
      assert forall i :: 0 <= i < |AllPieces(lines)| ==> EntryOk(MAX_LINE, AllPieces(lines)[i]);
    }
    AddedAllIsDedup(max, AllPieces(lines));
  }

  // ---------------------------------------------------------------------------
  // The lines that are one piece.

  predicate EndsLine(s: seq<byte>) {
    s != [] && (s[|s| - 1] == LF || s[|s| - 1] == CR)
  }

  // Escaped, the line fills a chunk to the last byte.
  predicate Full(s: seq<byte>) {
    |EncodeLine(s)| == CHUNK
  }

  predicate OneChunk(s: seq<byte>) {
    |EncodeLine(s)| < CHUNK || (Full(s) && !EndsLine(s))
  }

  // A full line is followed by the empty line that its line feed makes.
  lemma PiecesOfLine(s: seq<byte>)
    requires OneChunk(s)
    ensures Pieces(EncodeLine(s)) == if Full(s) then [s, []] else [s]
    ensures Cuttable(EncodeLine(s))
    ensures Full(s) ==> s != []
  {
    hide Decode, EncodeLine, Pieces, EndRun;
    var e := EncodeLine(s);
    PiecesStep(e);
    LineFeedDecodes();
    if |e| < CHUNK {
      DecodeEncoded(s, [LF]);
      assert Chomp(s + [LF]) == s;
    } else {
      assert e[..CHUNK] == e && e[CHUNK..] == [];
      DecodeEnds();
      DecodeEncoded(s, []);
      assert e + [] == e && s + [] == s;
      PiecesStep([]);
      assert [] + [LF] == [LF] && Chomp([LF]) == [];
      DecodeDefined(e);
      EmptyEncoded();
    }
  }

  lemma EmptyEncoded()
    ensures EncodeLine([]) == []
  {
  }

  lemma {:induction false} EncodeSnoc(s: seq<byte>, c: byte)
    ensures EncodeLine(s + [c]) == EncodeLine(s) + EncodeByte(c)
    decreases |s|
  {
    hide EncodeByte;
    if s == [] {
      assert [c][1..] == [] && [] + [c] == [c];
      assert EncodeByte(c) + [] == EncodeByte(c);
    } else {
      assert (s + [c])[1..] == s[1..] + [c];
      EncodeSnoc(s[1..], c);
      Associates(EncodeByte(s[0]), EncodeLine(s[1..]), EncodeByte(c));
    }
  }

  predicate NoLineEnds(x: seq<byte>) {
    LF !in x && CR !in x
  }

  // Decoding never makes a text whose escaped form is longer.
  lemma {:induction false} DecodedNotLonger(x: seq<byte>)
    requires NoLineEnds(x) && Decode(x).Some?
    ensures |EncodeLine(Decode(x).value)| <= |x|
    decreases |x|
  {
    if x == [] {
      EmptyEncoded();
    } else {
      var n, c := if x[0] == BACKSLASH then 2 else 1, if x[0] == BACKSLASH then DecodeByte(x[1]) else x[0];
      DecodedNotLonger(x[n..]);
      var rest := Decode(x[n..]).value;
      assert x[0] in x;
      assert ([c] + rest)[1..] == rest;
      EncodeCons([c] + rest);
    }
  }

  lemma {:induction false} DecodeConcat(a: seq<byte>, b: seq<byte>)
    requires Decode(a).Some?
    ensures Decode(a + b) == Prepend(Decode(a).value, Decode(b))
    decreases |a|
  {
    if a == [] {
      assert a + b == b;
      PrependNothing(Decode(b));
    } else {
      var n := if a[0] == BACKSLASH then 2 else 1;
      assert (a + b)[n..] == a[n..] + b;
      DecodeConcat(a[n..], b);
      var c := if a[0] == BACKSLASH then DecodeByte(a[1]) else a[0];
      PrependTwice([c], Decode(a[n..]).value, Decode(b));
    }
  }

  // A piece that fills a chunk does not end in a line end: that would have been
  // dropped.

  lemma ChunkPiece(x: seq<byte>)
    requires |x| == CHUNK && NoLineEnds(x) && Decode(x).Some?
    ensures OneChunk(PieceOf(x))
  {
    hide Decode, EncodeLine;
    var v := Decode(x).value;
    DecodedNotLonger(x);
    if EndsLine(v) {
      var front := v[..|v| - 1];
      assert v == front + [v[|v| - 1]];
      EncodeSnoc(front, v[|v| - 1]);
    }
  }

  lemma LastPiece(e: seq<byte>)
    requires |e| < CHUNK && NoLineEnds(e) && Decode(e).Some?
    ensures OneChunk(PieceOf(e + [LF]))
  {
    hide Decode, EncodeLine;
    DecodedNotLonger(e);
    DecodeConcat(e, [LF]);
    LineFeedDecodes();
    assert Chomp(Decode(e).value + [LF]) == Decode(e).value;
  }

  lemma {:induction false} PiecesOk(e: seq<byte>)
    requires NoLineEnds(e) && Cuttable(e) && Decode(e).Some?
    ensures forall i :: 0 <= i < |Pieces(e)| ==> OneChunk(Pieces(e)[i])
    decreases |e|
  {
    hide Decode, OneChunk, PieceOf, EndRun;
    PiecesStep(e);
    if |e| < CHUNK {
      LastPiece(e);
    } else {
      DecodeDefined(e[..CHUNK]);
      ChunkPiece(e[..CHUNK]);
      DecodeConcat(e[..CHUNK], e[CHUNK..]);
      assert e[..CHUNK] + e[CHUNK..] == e;
      PiecesOk(e[CHUNK..]);
    }
  }

  lemma {:induction false} EncodedNoLineEnds(s: seq<byte>)
    ensures NoLineEnds(EncodeLine(s))
  {
    if s != [] {
      EncodedNoLineEnds(s[1..]);
    }
  }

  lemma {:induction false} AllPiecesOk(lines: seq<seq<byte>>)
    requires forall i :: 0 <= i < |lines| ==> Cuttable(EncodeLine(lines[i]))
    ensures forall i :: 0 <= i < |AllPieces(lines)| ==> OneChunk(AllPieces(lines)[i])
    decreases |lines|
  {
    hide Cuttable, EncodeLine, Pieces, OneChunk, Decode;
    if lines != [] {
      assert forall i :: 0 <= i < |lines[1..]| ==> lines[1..][i] == lines[i + 1];
      AllPiecesOk(lines[1..]);
      var e := EncodeLine(lines[0]);
      EncodedNoLineEnds(lines[0]);
      DecodeEnds();
      DecodeEncoded(lines[0], []);
      assert e + [] == e;
      PiecesOk(e);
    }
  }

  // ---------------------------------------------------------------------------
  // The pieces of one-chunk lines, repeats dropped.

  predicate AllOneChunk(lines: seq<seq<byte>>) {
    forall i :: 0 <= i < |lines| ==> OneChunk(lines[i])
  }

  // Behind every full line but the last stands an empty one.
  predicate Followed(lines: seq<seq<byte>>) {
    forall i :: 0 <= i < |lines| - 1 && Full(lines[i]) ==> lines[i + 1] == []
  }

  // The pieces up to the last line, that one without its empty line.
  function Front(lines: seq<seq<byte>>): seq<seq<byte>>
    requires lines != []
  {
    AllPieces(lines[..|lines| - 1]) + [lines[|lines| - 1]]
  }

  lemma PiecesBehind(lines: seq<seq<byte>>)
    requires lines != [] && AllOneChunk(lines)
    ensures var last := lines[|lines| - 1];
      && AllPieces(lines) == (if Full(last) then Front(lines) + [[]] else Front(lines))
      && (Full(last) ==> last != [])
  {
    hide AllPieces, Pieces, OneChunk, Full;
    var front, last := lines[..|lines| - 1], lines[|lines| - 1];
    assert lines == front + [last];
    AllPiecesSnoc(front, last);
    PiecesOfLine(last);
    assert [last] + [[]] == [last, []];
    Associates(AllPieces(front), [last], [[]]);
  }

  lemma {:induction false} FrontComesBack(lines: seq<seq<byte>>)
    requires lines != [] && AllOneChunk(lines) && NoAdjacentRepeats(lines)
    ensures Suffix<seq<Code>>(lines, Dedup(Front(lines))) <==> Followed(lines)
    ensures Followed(lines) ==> Dedup(Front(lines)) == lines
    decreases |lines|
  {
    hide Dedup, Full, OneChunk, AllPieces, NoAdjacentRepeats, Followed, Suffix, Front;
    var front, last := lines[..|lines| - 1], lines[|lines| - 1];
    assert lines == front + [last];
    RepeatsSnoc(front, last);
    if front == [] {
      OnlyLine(last);
    } else {
      var f := front[|front| - 1];
      assert forall i :: 0 <= i < |front| ==> front[i] == lines[i];
      FrontComesBack(front);
      PiecesBehind(front);
      FrontSnoc(front, last);
      FollowedSnoc(front, last);
      LastOfFront(front);
      SuffixSnoc(front, Dedup(Front(front)), last);
      if Full(f) {
        DedupBehindFull(Front(front), last);
        SuffixApart(front, Dedup(Front(front)), last);
      } else {
        DedupSnoc(Front(front), last);
      }
    }
  }

  lemma DedupBehindFull(d: seq<seq<Code>>, last: seq<Code>)
    requires d != [] && d[|d| - 1] != []
    ensures Dedup(d + [[]] + [last]) == if last == [] then Dedup(d) + [last] else Dedup(d) + [[]] + [last]
  {
    hide Dedup;
    DedupSnoc(d, []);
    DedupSnoc(d + [[]], last);
  }

  lemma OnlyLine(last: seq<byte>)
    ensures Suffix<seq<Code>>([last], Dedup(Front([last]))) && Followed([last]) && Dedup(Front([last])) == [last]
  {
    assert [last][..0] == [] && [] + [last] == [last];
  }

  lemma FrontSnoc(front: seq<seq<byte>>, last: seq<byte>)
    ensures Front(front + [last]) == AllPieces(front) + [last]
  {
    assert (front + [last])[..|front|] == front;
  }

  lemma FollowedSnoc(front: seq<seq<byte>>, last: seq<byte>)
    requires front != []
    ensures Followed(front + [last]) <==> Followed(front) && (Full(front[|front| - 1]) ==> last == [])
  {
    hide Full;
    var all := front + [last];
    assert forall i :: 0 <= i < |front| ==> all[i] == front[i];
    if Followed(all) {
      assert Full(all[|front| - 1]) ==> all[|front| - 1 + 1] == [];
      forall i | 0 <= i < |front| - 1 && Full(front[i]) ensures front[i + 1] == [] {
        assert Full(all[i]);
      }
    }
    if Followed(front) && (Full(front[|front| - 1]) ==> last == []) {
      forall i | 0 <= i < |all| - 1 && Full(all[i]) ensures all[i + 1] == [] {
        assert i < |front| - 1 ==> Full(front[i]);
      }
    }
  }

  lemma LastOfFront(front: seq<seq<byte>>)
    requires front != []
    ensures Front(front) != [] && Front(front)[|Front(front)| - 1] == front[|front| - 1]
    ensures Dedup(Front(front)) != [] && Dedup(Front(front))[|Dedup(Front(front))| - 1] == front[|front| - 1]
  {
    hide AllPieces;
  }

  lemma SuffixSnoc(s: seq<seq<Code>>, t: seq<seq<Code>>, x: seq<Code>)
    ensures Suffix<seq<Code>>(s + [x], t + [x]) <==> Suffix(s, t)
  {
    if |s| <= |t| {
      assert (t + [x])[|t| - |s|..] == t[|t| - |s|..] + [x];
      if Suffix(s + [x], t + [x]) {
        assert (s + [x])[..|s|] == s && (t[|t| - |s|..] + [x])[..|s|] == t[|t| - |s|..];
      }
    }
  }

  // An empty line in between does not go away.
  lemma SuffixApart(front: seq<seq<Code>>, d: seq<seq<Code>>, last: seq<Code>)
    requires front != [] && front[|front| - 1] != []
    ensures !Suffix<seq<Code>>(front + [last], d + [[]] + [last])
  {
    var s, t := front + [last], d + [[]] + [last];
    if |s| <= |t| {
      assert t[|t| - |s|..][|s| - 2] == t[|t| - 2] == [];
      assert s[|s| - 2] != [];
    }
  }

  // ---------------------------------------------------------------------------
  // Main result.

  // Every line is one piece, and the empty line that a full line makes is dropped,
  // as an empty line follows it anyway.
  predicate Returning(lines: seq<seq<byte>>) {
    && AllOneChunk(lines)
    && Followed(lines)
    && (lines != [] ==> !Full(lines[|lines| - 1]))
  }

  lemma PiecesComeBack(lines: seq<seq<byte>>)
    requires AllOneChunk(lines) && NoAdjacentRepeats(lines)
    ensures Suffix<seq<Code>>(lines, Dedup(AllPieces(lines))) <==> Returning(lines)
    ensures Returning(lines) ==> Dedup(AllPieces(lines)) == lines
  {
    hide AllPieces, Dedup, Full, AllOneChunk, Followed, Front, Suffix;
    if lines == [] {
      NoPieces();
    } else {
      var front, last := lines[..|lines| - 1], lines[|lines| - 1];
      assert lines == front + [last];
      FrontComesBack(lines);
      PiecesBehind(lines);
      if Full(last) {
        LastOfFront(lines);
        DedupSnoc(Front(lines), []);
        EndsApart(lines, Dedup(Front(lines)));
      }
    }
  }

  lemma NoPieces()
    ensures Dedup(AllPieces([])) == [] && Suffix<seq<Code>>([], []) && Returning([])
  {
    assert AllPieces([]) == [];
  }

  lemma EndsApart(lines: seq<seq<Code>>, d: seq<seq<Code>>)
    requires lines != [] && lines[|lines| - 1] != []
    ensures !Suffix<seq<Code>>(lines, d + [[]])
  {
    var t := d + [[]];
    if |lines| <= |t| {
      assert t[|t| - |lines|..][|lines| - 1] == t[|t| - 1] == [];
    }
  }

  lemma {:induction false} DedupWithin(lines: seq<seq<Code>>)
    ensures forall x :: x in Dedup(lines) ==> x in lines
    decreases |lines|
  {
    if |lines| > 1 {
      DedupWithin(lines[..|lines| - 1]);
    }
  }

  lemma LastNSuffix(d: seq<seq<Code>>, n: nat)
    ensures Suffix<seq<Code>>(LastN(d, n), d) && |LastN(d, n)| <= n
    ensures forall x :: x in LastN(d, n) ==> x in d
    ensures |d| <= n ==> LastN(d, n) == d
  {
  }

  lemma SuffixNoRepeats(s: seq<seq<Code>>, d: seq<seq<Code>>)
    requires Suffix(s, d) && NoAdjacentRepeats(d)
    ensures NoAdjacentRepeats(s)
  {
    var n := |d| - |s|;
    assert forall i :: 0 <= i < |s| ==> s[i] == d[n + i];
    forall i | 0 < i < |s| ensures s[i - 1] != s[i] {
      assert d[n + i - 1] != d[n + i];
    }
  }

  lemma ReturningCuttable(lines: seq<seq<byte>>)
    requires AllOneChunk(lines)
    ensures forall i :: 0 <= i < |lines| ==> Cuttable(EncodeLine(lines[i]))
  {
    hide OneChunk, Cuttable, EncodeLine;
    forall i | 0 <= i < |lines| ensures Cuttable(EncodeLine(lines[i])) {
      PiecesOfLine(lines[i]);
    }
  }

  // Saving a history and loading it into an empty one of maximum `max` gives the same
  // history exactly if there are no more lines than that, no adjacent repeats, no
  // line longer than a chunk, and no line that fills one except in front of an empty
  // line and without a line end of its own.
  lemma SavedComesBack(lines: seq<seq<byte>>, max: int)
    requires max >= 1 && CStrings(lines)
    ensures Loaded(max, [], LinesOf(FileOf(lines))) == Some(lines)
       <==> |lines| <= max && NoAdjacentRepeats(lines) && Returning(lines)
  {
    hide *;
    if Loaded(max, [], LinesOf(FileOf(lines))) == Some(lines) {
      OnlyReturningCome(lines, max);
    }
    if |lines| <= max && NoAdjacentRepeats(lines) && Returning(lines) {
      ReturningCome(lines, max);
    }
  }

  lemma ReturningCome(lines: seq<seq<byte>>, max: int)
    requires max >= 1 && CStrings(lines)
    requires |lines| <= max && NoAdjacentRepeats(lines) && Returning(lines)
    ensures Loaded(max, [], LinesOf(FileOf(lines))) == Some(lines)
  {
    hide Loaded, LinesOf, FileOf, Dedup, LastN, AllPieces, NoAdjacentRepeats, Suffix, Loadable, Cuttable, EncodeLine;
    hide AllOneChunk, Followed, Full;
    ReturningCuttable(lines);
    SavedLoadable(lines);
    SavedThenLoaded(lines, max);
    PiecesComeBack(lines);
    LastNSuffix(Dedup(AllPieces(lines)), max);
  }

  lemma OnlyReturningCome(lines: seq<seq<byte>>, max: int)
    requires max >= 1 && CStrings(lines)
    requires Loaded(max, [], LinesOf(FileOf(lines))) == Some(lines)
    ensures |lines| <= max && NoAdjacentRepeats(lines) && Returning(lines)
  {
    hide Loaded, LinesOf, FileOf, Dedup, LastN, AllPieces, NoAdjacentRepeats, Suffix, Loadable, Returning, AllOneChunk;
    LoadedNone(max, [], LinesOf(FileOf(lines)));
    LinesDefined(FileOf(lines));
    SavedThenLoaded(lines, max);
    LastNSuffix(Dedup(AllPieces(lines)), max);
    LinesArePieces(lines, max);
    PiecesComeBack(lines);
  }

  lemma LinesArePieces(lines: seq<seq<byte>>, max: int)
    requires max >= 1 && Loadable(FileOf(lines)) && CStrings(lines)
    requires LastN(Dedup(AllPieces(lines)), max) == lines
    ensures AllOneChunk(lines) && NoAdjacentRepeats(lines)
  {
    hide FileOf, Dedup, LastN, AllPieces, NoAdjacentRepeats, Suffix, Loadable, Cuttable, EncodeLine, OneChunk;
    var d := Dedup(AllPieces(lines));
    SavedLoadable(lines);
    AllPiecesOk(lines);
    DedupWithin(AllPieces(lines));
    LastNSuffix(d, max);
    DedupIdentity(AllPieces(lines));
    SuffixNoRepeats(lines, d);
    forall i | 0 <= i < |lines| ensures OneChunk(lines[i]) {
      assert lines[i] in lines && lines[i] in AllPieces(lines);
    }
  }
}
