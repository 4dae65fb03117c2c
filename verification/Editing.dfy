// linenoiseEdit as a function of the keys: a pure editor over a text, a cursor,
// a cut buffer and the history, in the one-byte build.
//
// The input is the sequence of values that fd_read and check_special return, in
// the order in which they are called; behind its end every read fails with -1.
module Editing {
  import opened Bytes
  import opened Codec
  import opened Line
  import opened Text
  import opened History

  // LINENOISE_MAX_LINE
  const MAX_LINE := 4096

  // A byte, or a negative number: -1 for a failed read, the others special keys.
  type Key = k: int | k < 256

  const CTRL_A := 1
  const CTRL_B := 2
  const CTRL_C := 3
  const CTRL_D := 4
  const CTRL_E := 5
  const CTRL_F := 6
  const CTRL_G := 7
  const CTRL_H := 8
  const TAB := 9
  const CTRL_J := 10
  const CTRL_K := 11
  const CTRL_L := 12
  const ENTER := 13
  const CTRL_N := 14
  const CTRL_P := 16
  const CTRL_R := 18
  const CTRL_T := 20
  const CTRL_U := 21
  const CTRL_V := 22
  const CTRL_W := 23
  const CTRL_Y := 25
  const ESC := 27
  const BACKSPACE := 127
  const SPECIAL_UP := -20
  const SPECIAL_DOWN := -21
  const SPECIAL_LEFT := -22
  const SPECIAL_RIGHT := -23
  const SPECIAL_DELETE := -24
  const SPECIAL_HOME := -25
  const SPECIAL_END := -26
  const SPECIAL_PAGE_UP := -28
  const SPECIAL_PAGE_DOWN := -29

  type Completer = seq<Code> -> seq<seq<byte>>

  datatype Settings = Settings(max: nat, complete: Option<Completer>)

  datatype State = State(line: Line, kill: Option<seq<Code>>, hist: seq<seq<Code>>, index: nat)

  datatype Outcome = Entered | Interrupted | EndOfFile | ReadFailed

  datatype Step =
    | More(st: State, rest: seq<Key>)
    | Done(outcome: Outcome, st: State, rest: seq<Key>)

  // ---------------------------------------------------------------------------
  // Invariants of a session.

  predicate LineOk(max: nat, l: Line) {
    l.pos <= |l.text| < max && ValidText(ByteBuild, l.text)
  }

  // A history line is a C string that fits the buffer.
  predicate EntryOk(max: nat, e: seq<Code>) {
    |e| < max && 0 !in e && ValidText(ByteBuild, e)
  }

  predicate HistoryOk(max: nat, hist: seq<seq<Code>>) {
    forall i :: 0 <= i < |hist| ==> EntryOk(max, hist[i])
  }

  predicate Ok(max: nat, st: State) {
    && max >= 1
    && LineOk(max, st.line)
    && (st.kill.Some? ==> ValidText(ByteBuild, st.kill.value))
    && HistoryOk(max, st.hist)
    && st.index < |st.hist|
  }

  function Next(input: seq<Key>): (Key, seq<Key>) {
    if input == [] then (-1, []) else (input[0], input[1..])
  }

  // ---------------------------------------------------------------------------
  // Keys that edit the line.

  function Whole(t: seq<Code>): Line {
    Line(t, |t|)
  }

  // ^T: the character at the cursor, or the last one, is taken out and put back
  // one place to the left of the cursor.
  function Transpose(b: Build, max: nat, l: Line): Line {
    if 0 < l.pos <= |l.text| then
      var at := if l.pos == |l.text| then l.pos - 1 else l.pos;
      var removed := Remove(l, at);
      Insert(b, max, removed, removed.pos - 1, l.text[at])
    else l
  }

  // Back over blanks, then over the word in front of them.
  function BlanksStart(t: seq<Code>, p: nat): (r: nat)
    requires p <= |t|
    ensures r <= p
  {
    if p > 0 && t[p - 1] == SPACE then BlanksStart(t, p - 1) else p
  }

  function NonBlanksStart(t: seq<Code>, p: nat): (r: nat)
    requires p <= |t|
    ensures r <= p
  {
    if p > 0 && t[p - 1] != SPACE then NonBlanksStart(t, p - 1) else p
  }

  function WordStart(t: seq<Code>, p: nat): (r: nat)
    requires p <= |t|
    ensures r <= p
  {
    NonBlanksStart(t, BlanksStart(t, p))
  }

  predicate CutKey(c: Key) {
    c == CTRL_W || c == CTRL_U || c == CTRL_K
  }

  // Where a cut key cuts: from character `.0`, `.1` characters.
  function CutRange(l: Line, c: Key): (r: (nat, nat))
    requires l.pos <= |l.text| && CutKey(c)
    ensures r.0 + r.1 <= |l.text|
    ensures r.0 <= l.pos <= r.0 + r.1
  {
    if c == CTRL_W then (WordStart(l.text, l.pos), l.pos - WordStart(l.text, l.pos))
    else if c == CTRL_U then (0, l.pos)
    else (l.pos, |l.text| - l.pos)
  }

  // remove_chars with its capture.
  function Cut(st: State, p: nat, n: nat): State {
    st.(line := RemoveMany(st.line, p, n), kill := Capture(st.kill, st.line.text, p, n))
  }

  function Yank(b: Build, max: nat, st: State): State {
    if st.kill.None? then st
    else st.(line := InsertMany(b, max, st.line, st.line.pos, CStr(st.kill.value)))
  }

  // The keys whose whole effect is on text and cursor.
  function EditLine(max: nat, l: Line, c: Key): Line {
    if c == BACKSPACE || c == CTRL_H then Remove(l, l.pos - 1)
    else if c == CTRL_D || c == SPECIAL_DELETE then Remove(l, l.pos)
    else if c == CTRL_T then Transpose(ByteBuild, max, l)
    else if c == CTRL_B || c == SPECIAL_LEFT then (if l.pos > 0 then l.(pos := l.pos - 1) else l)
    else if c == CTRL_F || c == SPECIAL_RIGHT then (if l.pos < |l.text| then l.(pos := l.pos + 1) else l)
    else if c == CTRL_A || c == SPECIAL_HOME then l.(pos := 0)
    else if c == CTRL_E || c == SPECIAL_END then l.(pos := |l.text|)
    else if c == TAB || c >= ' ' as int then Insert(ByteBuild, max, l, l.pos, c)
    else l
  }

  // ---------------------------------------------------------------------------
  // History navigation.

  predicate NavigationKey(c: Key) {
    c == SPECIAL_PAGE_UP || c == SPECIAL_PAGE_DOWN
    || c == CTRL_P || c == SPECIAL_UP || c == CTRL_N || c == SPECIAL_DOWN
  }

  function Direction(st: State, c: Key): int {
    if c == SPECIAL_PAGE_UP then |st.hist| - st.index - 1
    else if c == SPECIAL_PAGE_DOWN then 0 - st.index
    else if c == CTRL_P || c == SPECIAL_UP then 1
    else -1
  }

  function Slot(st: State): int {
    |st.hist| - 1 - st.index
  }

  function Navigate(max: nat, st: State, dir: int): State
    requires st.index < |st.hist| && max >= 1
  {
    if |st.hist| <= 1 then st
    else
      var saved := st.(hist := st.hist[Slot(st) := CStr(st.line.text)]);
      var index := st.index + dir;
      if index < 0 then saved.(index := 0)
      else if index >= |st.hist| then saved.(index := |st.hist| - 1)
      else
        var moved := saved.(index := index);
        moved.(line := Whole(Fitting(max, moved.hist[Slot(moved)])))
  }

  // ---------------------------------------------------------------------------
  // Incremental search (^R).

  // strstr from position `i` on.
  function FirstFrom(hay: seq<Code>, needle: seq<Code>, i: nat): (r: Option<nat>)
    requires i <= |hay|
    ensures r.Some? ==> i <= r.value <= |hay| && needle <= hay[r.value..]
    decreases |hay| - i
  {
    if needle <= hay[i..] then Some(i)
    else if i == |hay| then None
    else FirstFrom(hay, needle, i + 1)
  }

  // The query typed so far and the history line the search stands at.
  datatype Query = Query(text: seq<Code>, at: int)

  predicate Match(e: seq<Code>, needle: seq<Code>, skip: Option<seq<Code>>) {
    FirstFrom(e, needle, 0).Some? && !(skip.Some? && e == skip.value)
  }

  // Where the scan stops: at a match, or just outside the history.
  function Scan(hist: seq<seq<Code>>, at: int, dir: int, needle: seq<Code>, skip: Option<seq<Code>>): int
    requires dir == 1 || dir == -1
    decreases if dir == 1 then |hist| - at else at
  {
    if 0 <= at < |hist| && !Match(hist[at], needle, skip) then Scan(hist, at + dir, dir, needle, skip) else at
  }

  predicate SearchUp(c: Key) {
    c == CTRL_P || c == SPECIAL_UP
  }

  predicate SearchDown(c: Key) {
    c == CTRL_N || c == SPECIAL_DOWN
  }

  // The keys that start a new scan; a backspace only shortens the query.
  predicate SearchKey(c: Key) {
    SearchUp(c) || SearchDown(c) || c >= ' ' as int
  }

  function ScanStart(hist: seq<seq<Code>>, q: Query, c: Key): int {
    if SearchUp(c) then (if q.at > 0 then q.at - 1 else q.at)
    else if SearchDown(c) then (if q.at < |hist| then q.at + 1 else q.at)
    else |hist| - 1
  }

  function Landing(hist: seq<seq<Code>>, l: Line, q: Query, c: Key): int {
    var needle := if SearchUp(c) || SearchDown(c) then q.text else q.text + [Narrow(ByteBuild, c)];
    var skip := if SearchUp(c) || SearchDown(c) then Some(CStr(l.text)) else None;
    Scan(hist, ScanStart(hist, q, c), if SearchDown(c) then 1 else -1, needle, skip)
  }

  function SearchStep(max: nat, hist: seq<seq<Code>>, l: Line, q: Query, c: Key): (Line, Query)
    requires max >= 1
  {
    var needle := if SearchUp(c) || SearchDown(c) then q.text else q.text + [Narrow(ByteBuild, c)];
    var at := Landing(hist, l, q, c);
    if 0 <= at < |hist| && FirstFrom(hist[at], needle, 0).Some? then
      (Line(Fitting(max, hist[at]), FirstFrom(hist[at], needle, 0).value), Query(needle, at))
    else
      (l, Query(q.text, at))
  }

  datatype Searched = Searched(line: Line, key: Key, rest: seq<Key>)

  function Search(max: nat, hist: seq<seq<Code>>, l: Line, q: Query, input: seq<Key>): (r: Searched)
    requires max >= 1
    ensures |r.rest| <= |input| && (r.rest == input ==> input == [])
    ensures |r.rest| == |input| ==> r.key == -1
    decreases |input|
  {
    var (c0, rest0) := Next(input);
    if c0 == CTRL_H || c0 == BACKSPACE then
      Search(max, hist, l, q.(text := if q.text == [] then [] else q.text[..|q.text| - 1]), rest0)
    else
      var (c, rest) := if c0 == ESC then Next(rest0) else (c0, rest0);
      if SearchKey(c) then
        var (l', q') := SearchStep(max, hist, l, q, c);
        Search(max, hist, l', q', rest)
      else if c == CTRL_G || c == CTRL_C then Searched(Whole([]), 0, rest)
      else if c == CTRL_J then Searched(l, 0, rest)
      else Searched(l, c, rest)
  }

  // ---------------------------------------------------------------------------
  // Completion.

  function Complete(max: nat, l: Line, comps: seq<seq<byte>>, i: nat, input: seq<Key>): (r: Searched)
    requires max >= 1
    ensures |r.rest| <= |input|
    ensures |r.rest| == |input| ==> r.key == -1
    decreases |input|
  {
    var (c, rest) := Next(input);
    if c == -1 then Searched(l, -1, rest)
    else if c == TAB then Complete(max, l, comps, (i + 1) % (|comps| + 1), rest)
    else if c == ESC || i >= |comps| then Searched(l, c, rest)
    else Searched(Whole(Fitting(max, comps[i])), c, rest)
  }

  // ---------------------------------------------------------------------------
  // The key loop.

  function WithoutLast(hist: seq<seq<Code>>): seq<seq<Code>>
    requires hist != []
  {
    hist[..|hist| - 1]
  }

  // ^V: the next key goes in as it is, unless there is no room for three bytes.
  function Quoted(max: nat, l: Line, input: seq<Key>): (Line, seq<Key>) {
    if !HasRoom(ByteBuild, max, l.text, 3) || l.pos > |l.text| then (l, input)
    else
      var (d, rest) := Next(input);
      (if d == -1 then l else InsertAt(l, l.pos, Narrow(ByteBuild, d)), rest)
  }

  // The keys that neither end the session nor start a search.
  function Apply(max: nat, st: State, c: Key, input: seq<Key>): (r: (State, seq<Key>))
    requires Ok(max, st)
    ensures |r.1| <= |input|
  {
    if c == CTRL_V then
      var (l, rest) := Quoted(max, st.line, input);
      (st.(line := l), rest)
    else if CutKey(c) then (Cut(st, CutRange(st.line, c).0, CutRange(st.line, c).1), input)
    else if c == CTRL_Y then (Yank(ByteBuild, max, st), input)
    else if NavigationKey(c) then (Navigate(max, st, Direction(st, c)), input)
    else (st.(line := EditLine(max, st.line, c)), input)
  }

  // Any key but ^R.
  function Act(max: nat, st: State, c: Key, input: seq<Key>): (r: Step)
    requires Ok(max, st)
    ensures |r.rest| <= |input|
  {
    if c == ENTER then Done(Entered, st.(hist := WithoutLast(st.hist)), input)
    else if c == CTRL_C then Done(Interrupted, st, input)
    else if c == CTRL_D && |st.line.text| == 0 then Done(EndOfFile, st.(hist := WithoutLast(st.hist)), input)
    else
      var (st', rest) := Apply(max, st, c, input);
      More(st', rest)
  }

  function Process(g: Settings, st: State, c0: Key, input: seq<Key>): (r: Step)
    requires Ok(g.max, st)
    ensures |r.rest| <= |input|
    ensures c0 == -1 ==> r.Done? && r.outcome == ReadFailed
    decreases |input|, if c0 == -1 then 0 else 1
  {
    if c0 == -1 then Done(ReadFailed, st, input)
    else
      var (c, rest) := if c0 == ESC then Next(input) else (c0, input);
      if c == CTRL_R then
        var s := Search(g.max, st.hist, st.line, Query([], |st.hist| - 1), rest);
        SearchOk(g.max, st.hist, st.line, Query([], |st.hist| - 1), rest);
        Process(g, st.(line := s.line), s.key, s.rest)
      else Act(g.max, st, c, rest)
  }

  // Reading one key, completion first.
  function Turn(g: Settings, st: State, input: seq<Key>): (r: Step)
    requires Ok(g.max, st)
    ensures |r.rest| <= |input|
    ensures r.More? || r.outcome != ReadFailed || input != [] ==> |r.rest| < |input|
  {
    var (c, rest) := Next(input);
    if c == TAB && st.line.pos == |st.line.text| && g.complete.Some? then
      var comps := g.complete.value(CStr(st.line.text));
      if comps == [] then More(st, rest)
      else
        var s := Complete(g.max, st.line, comps, 0, rest);
        CompleteOk(g.max, st.line, comps, 0, rest);
        if s.key < 0 then Done(ReadFailed, st.(line := s.line), s.rest)
        else if s.key == 0 then More(st.(line := s.line), s.rest)
        else Process(g, st.(line := s.line), s.key, s.rest)
    else
      Process(g, st, c, rest)
  }

  function Run(g: Settings, st: State, input: seq<Key>): (r: Step)
    requires Ok(g.max, st)
    ensures r.Done?
    ensures |r.rest| <= |input|
    ensures r.outcome != ReadFailed || input != [] ==> |r.rest| < |input|
    decreases |input|
  {
    var s := Turn(g, st, input);
    if s.Done? then s
    else
      TurnOk(g, st, input);
      Run(g, s.st, s.rest)
  }

  // A session starts with an empty line, which is also the newest history line.
  function Start(maxLines: int, hist: seq<seq<Code>>): State {
    State(Whole([]), None, Added(maxLines, hist, []), 0)
  }

  function Session(g: Settings, maxLines: int, hist: seq<seq<Code>>, input: seq<Key>): (r: Step)
    requires g.max >= 1 && maxLines >= 1 && HistoryOk(g.max, hist)
    ensures r.Done?
  {
    StartOk(g.max, maxLines, hist);
    Run(g, Start(maxLines, hist), input)
  }

  // ---------------------------------------------------------------------------
  // Every step keeps the invariants.

  lemma FittingOk(max: nat, e: seq<Code>)
    requires max >= 1 && ValidText(ByteBuild, e)
    ensures LineOk(max, Whole(Fitting(max, e)))
    ensures EntryOk(max, Fitting(max, e))
    ensures EntryOk(max, e) ==> Fitting(max, e) == e
  {
    CStrWhole(e);
  }

  lemma SearchStepOk(max: nat, hist: seq<seq<Code>>, l: Line, q: Query, c: Key)
    requires LineOk(max, l) && HistoryOk(max, hist)
    ensures LineOk(max, SearchStep(max, hist, l, q, c).0)
  {
    var at := Landing(hist, l, q, c);
    if 0 <= at < |hist| {
      FittingOk(max, hist[at]);
    }
  }

  lemma {:induction false} SearchOk(max: nat, hist: seq<seq<Code>>, l: Line, q: Query, input: seq<Key>)
    requires LineOk(max, l) && HistoryOk(max, hist)
    ensures LineOk(max, Search(max, hist, l, q, input).line)
    decreases |input|
  {
    var (c0, rest0) := Next(input);
    if input == [] {
    } else if c0 == CTRL_H || c0 == BACKSPACE {
      SearchOk(max, hist, l, q.(text := if q.text == [] then [] else q.text[..|q.text| - 1]), rest0);
    } else {
      var (c, rest) := if c0 == ESC then Next(rest0) else (c0, rest0);
      if SearchKey(c) {
        SearchStepOk(max, hist, l, q, c);
        var (l', q') := SearchStep(max, hist, l, q, c);
        SearchOk(max, hist, l', q', rest);
      }
    }
  }

  lemma {:induction false} CompleteOk(max: nat, l: Line, comps: seq<seq<byte>>, i: nat, input: seq<Key>)
    requires LineOk(max, l)
    ensures LineOk(max, Complete(max, l, comps, i, input).line)
    decreases |input|
  {
    var (c, rest) := Next(input);
    if input == [] || c == -1 {
    } else if c == TAB {
      CompleteOk(max, l, comps, (i + 1) % (|comps| + 1), rest);
    } else if i < |comps| {
      FittingOk(max, comps[i]);
    }
  }

  lemma InsertOk(max: nat, l: Line, p: int, ch: int)
    requires LineOk(max, l)
    ensures LineOk(max, Insert(ByteBuild, max, l, p, ch))
  {
    EncodeBytes(l.text);
  }

  lemma {:induction false} InsertManyOk(max: nat, l: Line, p: int, s: seq<Code>)
    requires LineOk(max, l)
    ensures LineOk(max, InsertMany(ByteBuild, max, l, p, s))
    decreases |s|
  {
    if s != [] && CanInsert(ByteBuild, max, l, p, s[0]) {
      InsertOk(max, l, p, s[0]);
      InsertManyOk(max, Insert(ByteBuild, max, l, p, s[0]), p + 1, s[1..]);
    }
  }

  lemma {:induction false} RemoveManyOk(max: nat, l: Line, p: nat, n: nat)
    requires LineOk(max, l)
    ensures LineOk(max, RemoveMany(l, p, n))
    decreases n
  {
    if n != 0 && p < |l.text| {
      RemoveManyOk(max, RemoveAt(l, p), p, n - 1);
    }
  }

  lemma TransposeOk(max: nat, l: Line)
    requires LineOk(max, l)
    ensures LineOk(max, Transpose(ByteBuild, max, l))
  {
    hide Insert;
    if 0 < l.pos <= |l.text| {
      var removed := Remove(l, if l.pos == |l.text| then l.pos - 1 else l.pos);
      InsertOk(max, removed, removed.pos - 1, l.text[if l.pos == |l.text| then l.pos - 1 else l.pos]);
    }
  }

  lemma EditLineOk(max: nat, l: Line, c: Key)
    requires LineOk(max, l)
    ensures LineOk(max, EditLine(max, l, c))
  {
    hide Insert, Transpose;
    InsertOk(max, l, l.pos, c);
    TransposeOk(max, l);
  }

  lemma QuotedOk(max: nat, l: Line, input: seq<Key>)
    requires LineOk(max, l)
    ensures LineOk(max, Quoted(max, l, input).0)
  {
    EncodeBytes(l.text);
  }

  lemma NavigateOk(max: nat, st: State, dir: int)
    requires Ok(max, st)
    ensures Ok(max, Navigate(max, st, dir)) && |Navigate(max, st, dir).hist| == |st.hist|
  {
    if |st.hist| > 1 {
      var saved := st.hist[Slot(st) := CStr(st.line.text)];
      assert HistoryOk(max, saved);
      if 0 <= st.index + dir < |saved| {
        FittingOk(max, saved[|saved| - 1 - (st.index + dir)]);
      }
    }
  }

  lemma ApplyOk(max: nat, st: State, c: Key, input: seq<Key>)
    requires Ok(max, st)
    ensures Ok(max, Apply(max, st, c, input).0)
  {
    hide LineOk, HistoryOk, Insert, InsertMany, RemoveMany;
    if c == CTRL_V {
      QuotedOk(max, st.line, input);
    } else if CutKey(c) {
      CutOk(max, st, c);
    } else if c == CTRL_Y {
      if st.kill.Some? {
        InsertManyOk(max, st.line, st.line.pos, CStr(st.kill.value));
      }
    } else if NavigationKey(c) {
      NavigateOk(max, st, Direction(st, c));
    } else {
      EditLineOk(max, st.line, c);
    }
  }

  lemma ActOk(max: nat, st: State, c: Key, input: seq<Key>)
    requires Ok(max, st)
    ensures var r := Act(max, st, c, input);
      && LineOk(max, r.st.line) && HistoryOk(max, r.st.hist)
      && (r.More? ==> Ok(max, r.st))
  {
    hide LineOk, HistoryOk, Apply;
    DropOk(max, st.hist);
    ApplyOk(max, st, c, input);
  }

  lemma {:induction false} ProcessOk(g: Settings, st: State, c0: Key, input: seq<Key>)
    requires Ok(g.max, st)
    ensures var r := Process(g, st, c0, input);
      && LineOk(g.max, r.st.line) && HistoryOk(g.max, r.st.hist)
      && (r.More? ==> Ok(g.max, r.st))
    decreases |input|, if c0 == -1 then 0 else 1
  {
    hide LineOk, HistoryOk, Act, Search;
    if c0 != -1 {
      var (c, rest) := if c0 == ESC then Next(input) else (c0, input);
      if c == CTRL_R {
        var q := Query([], |st.hist| - 1);
        var s := Search(g.max, st.hist, st.line, q, rest);
        SearchOk(g.max, st.hist, st.line, q, rest);
        ProcessOk(g, st.(line := s.line), s.key, s.rest);
      } else {
        ActOk(g.max, st, c, rest);
      }
    }
  }

  lemma DropOk(max: nat, hist: seq<seq<Code>>)
    requires hist != [] && HistoryOk(max, hist)
    ensures HistoryOk(max, WithoutLast(hist))
  {
  }

  lemma CutOk(max: nat, st: State, c: Key)
    requires Ok(max, st) && CutKey(c)
    ensures Ok(max, Cut(st, CutRange(st.line, c).0, CutRange(st.line, c).1))
  {
    RemoveManyOk(max, st.line, CutRange(st.line, c).0, CutRange(st.line, c).1);
  }

  lemma TurnOk(g: Settings, st: State, input: seq<Key>)
    requires Ok(g.max, st)
    ensures var r := Turn(g, st, input);
      && LineOk(g.max, r.st.line) && HistoryOk(g.max, r.st.hist)
      && (r.More? ==> Ok(g.max, r.st))
  {
    hide LineOk, HistoryOk, Process, Complete;
    var (c, rest) := Next(input);
    if c == TAB && st.line.pos == |st.line.text| && g.complete.Some? {
      var comps := g.complete.value(CStr(st.line.text));
      if comps != [] {
        var s := Complete(g.max, st.line, comps, 0, rest);
        CompleteOk(g.max, st.line, comps, 0, rest);
        ProcessOk(g, st.(line := s.line), s.key, s.rest);
      }
    } else {
      ProcessOk(g, st, c, rest);
    }
  }

  lemma StartOk(max: nat, maxLines: int, hist: seq<seq<Code>>)
    requires max >= 1 && maxLines >= 1 && HistoryOk(max, hist)
    ensures Ok(max, Start(maxLines, hist))
  {
  }

  lemma {:induction false} RunOk(g: Settings, st: State, input: seq<Key>)
    requires Ok(g.max, st)
    ensures LineOk(g.max, Run(g, st, input).st.line) && HistoryOk(g.max, Run(g, st, input).st.hist)
    decreases |input|
  {
    hide Turn, Ok;
    TurnOk(g, st, input);
    var s := Turn(g, st, input);
    if s.More? {
      RunOk(g, s.st, s.rest);
    }
  }
}
