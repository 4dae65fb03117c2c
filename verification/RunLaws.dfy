// What holds of whole runs of the editor, however long and whatever is typed.
module RunLaws {
  import opened Bytes
  import opened Codec
  import opened Line
  import opened Editing

  // ---------------------------------------------------------------------------
  // What is not yet read is always a tail of the input, and a key handed on to be
  // processed stands directly in front of it.

  predicate Ahead(key: Key, rest: seq<Key>, input: seq<Key>) {
    Suffix(rest, input) && (key == 0 || key == -1 || Suffix([key] + rest, input))
  }

  lemma NextAhead(input: seq<Key>)
    ensures Ahead(Next(input).0, Next(input).1, input)
  {
    assert input != [] ==> [input[0]] + input[1..] == input;
  }

  lemma AheadTransitive(key: Key, rest: seq<Key>, t: seq<Key>, input: seq<Key>)
    requires Ahead(key, rest, t) && Suffix(t, input)
    ensures Ahead(key, rest, input)
  {
    SuffixTransitive(rest, t, input);
    if key != 0 && key != -1 {
      SuffixTransitive([key] + rest, t, input);
    }
  }

  lemma {:induction false} SearchReads(max: nat, hist: seq<seq<Code>>, l: Line, q: Query, input: seq<Key>)
    requires max >= 1
    ensures var r := Search(max, hist, l, q, input);
      Ahead(r.key, r.rest, input) && !SearchKey(r.key)
    decreases |input|
  {
    hide SearchStep, Suffix;
    var (c0, rest0) := Next(input);
    NextAhead(input);
    if input != [] {
      if c0 == CTRL_H || c0 == BACKSPACE {
        var q' := q.(text := if q.text == [] then [] else q.text[..|q.text| - 1]);
        SearchReads(max, hist, l, q', rest0);
        var r := Search(max, hist, l, q', rest0);
        AheadTransitive(r.key, r.rest, rest0, input);
      } else {
        var (c, rest) := if c0 == ESC then Next(rest0) else (c0, rest0);
        NextAhead(rest0);
        if c0 == ESC {
          AheadTransitive(c, rest, rest0, input);
        }
        if SearchKey(c) {
          var (l', q') := SearchStep(max, hist, l, q, c);
          SearchReads(max, hist, l', q', rest);
          var r := Search(max, hist, l', q', rest);
          AheadTransitive(r.key, r.rest, rest, input);
        }
      }
    }
  }

  lemma {:induction false} CompleteReads(max: nat, l: Line, comps: seq<seq<byte>>, i: nat, input: seq<Key>)
    requires max >= 1
    ensures var r := Complete(max, l, comps, i, input);
      Ahead(r.key, r.rest, input)
    decreases |input|
  {
    var (c, rest) := Next(input);
    NextAhead(input);
    if input != [] && c == TAB {
      CompleteReads(max, l, comps, (i + 1) % (|comps| + 1), rest);
      var r := Complete(max, l, comps, (i + 1) % (|comps| + 1), rest);
      AheadTransitive(r.key, r.rest, rest, input);
    }
  }

  lemma ApplyReads(max: nat, st: State, c: Key, input: seq<Key>)
    requires Ok(max, st)
    ensures Suffix(Apply(max, st, c, input).1, input)
  {
    hide Ok, Cut, CutRange, Yank, Navigate, EditLine, Quoted;
    QuotedReads(max, st.line, input);
  }

  lemma QuotedReads(max: nat, l: Line, input: seq<Key>)
    ensures Suffix(Quoted(max, l, input).1, input)
  {
    hide HasRoom, InsertAt;
  }

  lemma ActReads(max: nat, st: State, c: Key, input: seq<Key>)
    requires Ok(max, st)
    ensures Suffix(Act(max, st, c, input).rest, input)
  {
    hide Apply, Ok;
    ApplyReads(max, st, c, input);
  }

  lemma {:induction false} ProcessReads(g: Settings, st: State, c0: Key, input: seq<Key>)
    requires Ok(g.max, st)
    ensures Suffix(Process(g, st, c0, input).rest, input)
    decreases |input|, if c0 == -1 then 0 else 1
  {
    hide Ok, Search, Act;
    if c0 != -1 {
      NextAhead(input);
      var (c, rest) := if c0 == ESC then Next(input) else (c0, input);
      if c == CTRL_R {
        var s := SearchFrom(g, st, rest);
        ProcessReads(g, st.(line := s.line), s.key, s.rest);
        SuffixTransitive(s.rest, rest, input);
        SuffixTransitive(Process(g, st.(line := s.line), s.key, s.rest).rest, s.rest, input);
      } else {
        ActReads(g.max, st, c, rest);
        SuffixTransitive(Act(g.max, st, c, rest).rest, rest, input);
      }
    }
  }

  // What is known of the search that ^R starts.
  lemma SearchFrom(g: Settings, st: State, rest: seq<Key>) returns (s: Searched)
    requires Ok(g.max, st)
    ensures g.max >= 1 && s == Search(g.max, st.hist, st.line, Query([], |st.hist| - 1), rest)
    ensures Ok(g.max, st.(line := s.line))
    ensures Ahead(s.key, s.rest, rest)
  {
    var q := Query([], |st.hist| - 1);
    s := Search(g.max, st.hist, st.line, q, rest);
    SearchOk(g.max, st.hist, st.line, q, rest);
    SearchReads(g.max, st.hist, st.line, q, rest);
  }

  // What is known of the completion that a tab starts.
  lemma CompleteFrom(g: Settings, st: State, comps: seq<seq<byte>>, rest: seq<Key>) returns (s: Searched)
    requires Ok(g.max, st)
    ensures g.max >= 1 && s == Complete(g.max, st.line, comps, 0, rest)
    ensures Ok(g.max, st.(line := s.line))
    ensures Ahead(s.key, s.rest, rest)
  {
    s := Complete(g.max, st.line, comps, 0, rest);
    CompleteOk(g.max, st.line, comps, 0, rest);
    CompleteReads(g.max, st.line, comps, 0, rest);
  }

  lemma TurnReads(g: Settings, st: State, input: seq<Key>)
    requires Ok(g.max, st)
    ensures Suffix(Turn(g, st, input).rest, input)
  {
    hide Ok, Complete, Process;
    NextAhead(input);
    var (c, rest) := Next(input);
    if c == TAB && st.line.pos == |st.line.text| && g.complete.Some? {
      var comps := g.complete.value(CStr(st.line.text));
      if comps != [] {
        var s := CompleteFrom(g, st, comps, rest);
        ProcessReads(g, st.(line := s.line), s.key, s.rest);
        SuffixTransitive(s.rest, rest, input);
        SuffixTransitive(Process(g, st.(line := s.line), s.key, s.rest).rest, s.rest, input);
      }
    } else {
      ProcessReads(g, st, c, rest);
      SuffixTransitive(Process(g, st, c, rest).rest, rest, input);
    }
  }

  // ---------------------------------------------------------------------------
  // Whether some key is acted on of which `p` holds. A key that a search or a
  // completion takes, or that stands behind ^V, is not acted on.

  predicate ProcessActs(p: (State, Key) -> bool, g: Settings, st: State, c0: Key, input: seq<Key>)
    requires Ok(g.max, st)
    decreases |input|, if c0 == -1 then 0 else 1
  {
    c0 != -1 &&
    var (c, rest) := if c0 == ESC then Next(input) else (c0, input);
    if c == CTRL_R then
      var s := Search(g.max, st.hist, st.line, Query([], |st.hist| - 1), rest);
      SearchOk(g.max, st.hist, st.line, Query([], |st.hist| - 1), rest);
      ProcessActs(p, g, st.(line := s.line), s.key, s.rest)
    else p(st, c)
  }

  lemma ProcessActsStep(p: (State, Key) -> bool, g: Settings, st: State, c0: Key, input: seq<Key>)
    requires Ok(g.max, st)
    ensures var (c, rest) := if c0 == ESC then Next(input) else (c0, input);
      ProcessActs(p, g, st, c0, input) <==>
        c0 != -1 &&
        if c == CTRL_R then
          var s := Search(g.max, st.hist, st.line, Query([], |st.hist| - 1), rest);
          Ok(g.max, st.(line := s.line)) && ProcessActs(p, g, st.(line := s.line), s.key, s.rest)
        else p(st, c)
  {
    hide Search, LineOk, HistoryOk;
    var (c, rest) := if c0 == ESC then Next(input) else (c0, input);
    SearchOk(g.max, st.hist, st.line, Query([], |st.hist| - 1), rest);
  }

  predicate TurnActs(p: (State, Key) -> bool, g: Settings, st: State, input: seq<Key>)
    requires Ok(g.max, st)
  {
    var (c, rest) := Next(input);
    if c == TAB && st.line.pos == |st.line.text| && g.complete.Some? then
      var comps := g.complete.value(CStr(st.line.text));
      comps != [] &&
      var s := Complete(g.max, st.line, comps, 0, rest);
      CompleteOk(g.max, st.line, comps, 0, rest);
      s.key > 0 && ProcessActs(p, g, st.(line := s.line), s.key, s.rest)
    else
      ProcessActs(p, g, st, c, rest)
  }

  predicate RunActs(p: (State, Key) -> bool, g: Settings, st: State, input: seq<Key>)
    requires Ok(g.max, st)
    decreases |input|
  {
    var s := Turn(g, st, input);
    TurnOk(g, st, input);
    TurnActs(p, g, st, input) || (s.More? && RunActs(p, g, s.st, s.rest))
  }

  // One turn, for a key without a loop of its own.
  lemma RunActsKey(p: (State, Key) -> bool, g: Settings, st: State, c: Key, rest: seq<Key>)
    requires Ok(g.max, st) && c != -1 && c != TAB && c != ESC && c != CTRL_R
    ensures var s := Act(g.max, st, c, rest);
      && (s.More? ==> Ok(g.max, s.st))
      && (RunActs(p, g, st, [c] + rest) <==> p(st, c) || (s.More? && RunActs(p, g, s.st, s.rest)))
  {
    hide Act, Ok;
    assert ([c] + rest)[1..] == rest;
    ActOk(g.max, st, c, rest);
  }

  // ---------------------------------------------------------------------------
  // History navigation.

  predicate Navigating(st: State, c: Key) {
    NavigationKey(c)
  }

  predicate Navigates(g: Settings, st: State, input: seq<Key>)
    requires Ok(g.max, st)
  {
    RunActs(Navigating, g, st, input)
  }

  // Without that the history is what it was when the session began; Enter and
  // end-of-file also take the session's own empty line back.
  function HistoryAfter(outcome: Outcome, hist: seq<seq<Code>>): seq<seq<Code>>
    requires hist != []
  {
    if outcome == Entered || outcome == EndOfFile then WithoutLast(hist) else hist
  }

  ghost predicate KeepsHistory(s: Step, st: State)
    requires st.hist != []
  {
    s.st.hist == if s.More? then st.hist else HistoryAfter(s.outcome, st.hist)
  }

  lemma {:induction false} ProcessKeepsHistory(g: Settings, st: State, c0: Key, input: seq<Key>)
    requires Ok(g.max, st) && !ProcessActs(Navigating, g, st, c0, input)
    ensures KeepsHistory(Process(g, st, c0, input), st)
    decreases |input|, if c0 == -1 then 0 else 1
  {
    hide Ok, Search;
    SessionOk(g.max, st);
    if c0 != -1 {
      var (c, rest) := if c0 == ESC then Next(input) else (c0, input);
      if c == CTRL_R {
        var s := SearchFrom(g, st, rest);
        ProcessKeepsHistory(g, st.(line := s.line), s.key, s.rest);
      }
    }
  }

  lemma SessionOk(max: nat, st: State)
    requires Ok(max, st)
    ensures max >= 1 && LineOk(max, st.line) && HistoryOk(max, st.hist) && st.index < |st.hist|
  {
  }

  lemma TurnKeepsHistory(g: Settings, st: State, input: seq<Key>)
    requires Ok(g.max, st) && !TurnActs(Navigating, g, st, input)
    ensures KeepsHistory(Turn(g, st, input), st)
  {
    hide Ok, Complete, Process, ProcessActs;
    SessionOk(g.max, st);
    var (c, rest) := Next(input);
    if c == TAB && st.line.pos == |st.line.text| && g.complete.Some? {
      var comps := g.complete.value(CStr(st.line.text));
      if comps != [] {
        var s := CompleteFrom(g, st, comps, rest);
        if s.key > 0 {
          ProcessKeepsHistory(g, st.(line := s.line), s.key, s.rest);
        }
      }
    } else {
      ProcessKeepsHistory(g, st, c, rest);
    }
  }

  lemma {:induction false} RunKeepsHistory(g: Settings, st: State, input: seq<Key>)
    requires Ok(g.max, st) && !Navigates(g, st, input)
    ensures st.hist != [] && Run(g, st, input).st.hist == HistoryAfter(Run(g, st, input).outcome, st.hist)
    decreases |input|
  {
    hide Ok, Turn, TurnActs;
    SessionOk(g.max, st);
    TurnKeepsHistory(g, st, input);
    TurnOk(g, st, input);
    var s := Turn(g, st, input);
    if s.More? {
      RunKeepsHistory(g, s.st, s.rest);
    }
  }

  // A navigation key that is acted on is one that was typed.
  lemma {:induction false} ProcessNavigatesOnKey(g: Settings, st: State, c0: Key, input: seq<Key>)
    requires Ok(g.max, st) && ProcessActs(Navigating, g, st, c0, input)
    ensures exists k :: (k == c0 || k in input) && NavigationKey(k)
    decreases |input|, if c0 == -1 then 0 else 1
  {
    hide Ok, Search;
    var (c, rest) := if c0 == ESC then Next(input) else (c0, input);
    if c == CTRL_R {
      var s := SearchFrom(g, st, rest);
      ProcessNavigatesOnKey(g, st.(line := s.line), s.key, s.rest);
      var k :| (k == s.key || k in s.rest) && NavigationKey(k);
      KeyTyped(s.key, s.rest, rest, k);
    } else if c0 == ESC {
      NextAhead(input);
      KeyTyped(c, rest, input, c);
    }
  }

  lemma KeyTyped(key: Key, rest: seq<Key>, input: seq<Key>, k: Key)
    requires Ahead(key, rest, input) && (k == key || k in rest) && NavigationKey(k)
    ensures k in input
  {
    if k in rest {
    } else {
      assert ([key] + rest)[0] == k;
    }
  }

  lemma TurnNavigatesOnKey(g: Settings, st: State, input: seq<Key>)
    requires Ok(g.max, st) && TurnActs(Navigating, g, st, input)
    ensures exists k :: k in input && NavigationKey(k)
  {
    hide Ok, Complete, ProcessActs;
    NextAhead(input);
    var (c, rest) := Next(input);
    if c == TAB && st.line.pos == |st.line.text| && g.complete.Some? {
      var comps := g.complete.value(CStr(st.line.text));
      var s := CompleteFrom(g, st, comps, rest);
      ProcessNavigatesOnKey(g, st.(line := s.line), s.key, s.rest);
      var k :| (k == s.key || k in s.rest) && NavigationKey(k);
      AheadTransitive(s.key, s.rest, rest, input);
      KeyTyped(s.key, s.rest, input, k);
    } else {
      ProcessNavigatesOnKey(g, st, c, rest);
      var k :| (k == c || k in rest) && NavigationKey(k);
      KeyTyped(c, rest, input, k);
    }
  }

  // So a session in which none is typed does not navigate.
  lemma {:induction false} NavigatesOnKey(g: Settings, st: State, input: seq<Key>)
    requires Ok(g.max, st) && Navigates(g, st, input)
    ensures exists k :: k in input && NavigationKey(k)
    decreases |input|
  {
    hide Ok, Turn, TurnActs;
    if TurnActs(Navigating, g, st, input) {
      TurnNavigatesOnKey(g, st, input);
    } else {
      var s := Turn(g, st, input);
      TurnOk(g, st, input);
      TurnReads(g, st, input);
      NavigatesOnKey(g, s.st, s.rest);
    }
  }

  // ---------------------------------------------------------------------------
  // NUL in the text.

  // After any key the text holds a NUL only if that key was ^V and quoted one.
  lemma ApplyNul(max: nat, st: State, c: Key, input: seq<Key>)
    requires Ok(max, st) && 0 !in st.line.text
    ensures 0 in Apply(max, st, c, input).0.line.text <==>
      c == CTRL_V && HasRoom(ByteBuild, max, st.line.text, 3) && input != [] && input[0] % 256 == 0
  {
    hide Ok, HasRoom, EditLine, Quoted, Cut, Yank, Navigate, CutRange;
    SessionOk(max, st);
    if c == CTRL_V {
      QuotedNul(max, st.line, input);
    } else if CutKey(c) {
      CutNul(st, CutRange(st.line, c).0, CutRange(st.line, c).1);
    } else if c == CTRL_Y {
      YankNul(max, st);
    } else if NavigationKey(c) {
      NavigateNul(max, st, Direction(st, c));
    } else {
      EditNul(max, st.line, c);
    }
  }

  lemma QuotedNul(max: nat, l: Line, input: seq<Key>)
    requires LineOk(max, l) && 0 !in l.text
    ensures 0 in Quoted(max, l, input).0.text <==>
      HasRoom(ByteBuild, max, l.text, 3) && input != [] && input[0] % 256 == 0
  {
    hide HasRoom;
    if HasRoom(ByteBuild, max, l.text, 3) && input != [] {
      InsertedElements(l, l.pos, Narrow(ByteBuild, input[0]));
    }
  }

  lemma InsertedElements(l: Line, p: nat, c: Code)
    requires p <= |l.text|
    ensures 0 in InsertAt(l, p, c).text <==> c == 0 || 0 in l.text
  {
    var t := InsertAt(l, p, c).text;
    assert t[p] == c;
    assert l.text == l.text[..p] + l.text[p..];
  }

  lemma CutNul(st: State, p: nat, n: nat)
    requires p + n <= |st.line.text| && 0 !in st.line.text
    ensures 0 !in Cut(st, p, n).line.text
  {
    RemoveManyIsCut(st.line, p, n);
  }

  lemma NavigateNul(max: nat, st: State, dir: int)
    requires max >= 1 && st.index < |st.hist| && 0 !in st.line.text
    ensures 0 !in Navigate(max, st, dir).line.text
  {
  }

  lemma EditNul(max: nat, l: Line, c: Key)
    requires LineOk(max, l) && 0 !in l.text
    ensures c != CTRL_V ==> 0 !in EditLine(max, l, c).text
  {
    hide Transpose, HasRoom, LineOk;
    if c == CTRL_T {
      TransposeNul(max, l);
    } else if 0 <= l.pos <= |l.text| && (c == TAB || c >= ' ' as int) {
      InsertedElements(l, l.pos, Narrow(ByteBuild, c));
    }
  }

  lemma YankNul(max: nat, st: State)
    requires Ok(max, st) && 0 !in st.line.text
    ensures 0 !in Yank(ByteBuild, max, st).line.text
  {
    if st.kill.Some? {
      InsertManyIsSplice(ByteBuild, max, st.line, st.line.pos, CStr(st.kill.value));
    }
  }

  lemma SmallChars(max: nat, l: Line)
    requires LineOk(max, l)
    ensures l.pos <= |l.text| && forall i :: 0 <= i < |l.text| ==> l.text[i] < 256
  {
  }

  lemma RemovedElements(l: Line, p: nat)
    requires p < |l.text| && 0 !in l.text
    ensures 0 !in RemoveAt(l, p).text
  {
  }

  lemma TransposeNul(max: nat, l: Line)
    requires LineOk(max, l) && 0 !in l.text
    ensures 0 !in Transpose(ByteBuild, max, l).text
  {
    hide HasRoom, RemoveAt, InsertAt, LineOk;
    SmallChars(max, l);
    if 0 < l.pos {
      var at := if l.pos == |l.text| then l.pos - 1 else l.pos;
      var r := RemoveAt(l, at);
      RemovedElements(l, at);
      assert l.text[at] in l.text;
      if 0 <= r.pos - 1 <= |r.text| {
        InsertedElements(r, r.pos - 1, l.text[at]);
      }
    }
  }

  lemma {:induction false} SearchNul(max: nat, hist: seq<seq<Code>>, l: Line, q: Query, input: seq<Key>)
    requires max >= 1 && 0 !in l.text
    ensures 0 !in Search(max, hist, l, q, input).line.text
    decreases |input|
  {
    var (c0, rest0) := Next(input);
    if input != [] {
      if c0 == CTRL_H || c0 == BACKSPACE {
        SearchNul(max, hist, l, q.(text := if q.text == [] then [] else q.text[..|q.text| - 1]), rest0);
      } else {
        var (c, rest) := if c0 == ESC then Next(rest0) else (c0, rest0);
        if SearchKey(c) {
          var (l', q') := SearchStep(max, hist, l, q, c);
          SearchNul(max, hist, l', q', rest);
        }
      }
    }
  }

  lemma {:induction false} CompleteNul(max: nat, l: Line, comps: seq<seq<byte>>, i: nat, input: seq<Key>)
    requires max >= 1 && 0 !in l.text
    ensures 0 !in Complete(max, l, comps, i, input).line.text
    decreases |input|
  {
    var (c, rest) := Next(input);
    if input != [] && c == TAB {
      CompleteNul(max, l, comps, (i + 1) % (|comps| + 1), rest);
    }
  }

  // Nothing that follows a ^V is a NUL.
  predicate NoQuotedNul(keys: seq<Key>) {
    forall i :: 0 < i < |keys| && keys[i - 1] == CTRL_V ==> keys[i] % 256 != 0
  }

  lemma QuotedNulAhead(key: Key, rest: seq<Key>, input: seq<Key>)
    requires Ahead(key, rest, input) && NoQuotedNul(input)
    ensures NoQuotedNul([key] + rest)
  {
    var n := |input| - |rest|;
    assert forall i :: 0 <= i < |rest| ==> rest[i] == input[n + i];
    if key != 0 && key != -1 {
      var keys := [key] + rest;
      assert forall i :: 0 <= i < |keys| ==> keys[i] == input[n - 1 + i];
    }
  }

  lemma {:induction false} ProcessNul(g: Settings, st: State, c0: Key, input: seq<Key>)
    requires Ok(g.max, st) && NoQuotedNul([c0] + input) && 0 !in st.line.text
    ensures 0 !in Process(g, st, c0, input).st.line.text
    decreases |input|, if c0 == -1 then 0 else 1
  {
    hide Ok, Search, Apply, NoQuotedNul;
    if c0 != -1 {
      FrontDropped(c0, input);
      NextAhead(input);
      var (c, rest) := if c0 == ESC then Next(input) else (c0, input);
      if c0 == ESC {
        QuotedNulAhead(c, rest, input);
      }
      if c == CTRL_R {
        FrontDropped(c, rest);
        var s := SearchFrom(g, st, rest);
        SearchNul(g.max, st.hist, st.line, Query([], |st.hist| - 1), rest);
        QuotedNulAhead(s.key, s.rest, rest);
        ProcessNul(g, st.(line := s.line), s.key, s.rest);
      } else {
        ApplyNul(g.max, st, c, rest);
        NotQuoted(c, rest);
      }
    }
  }

  lemma FrontDropped(c: Key, input: seq<Key>)
    requires NoQuotedNul([c] + input)
    ensures NoQuotedNul(input)
  {
    assert forall i :: 0 <= i < |input| ==> input[i] == ([c] + input)[i + 1];
  }

  lemma NotQuoted(c: Key, rest: seq<Key>)
    requires NoQuotedNul([c] + rest)
    ensures c == CTRL_V && rest != [] ==> rest[0] % 256 != 0
  {
    var keys := [c] + rest;
    assert rest != [] ==> keys[1 - 1] == c && keys[1] == rest[0];
  }

  lemma TurnNul(g: Settings, st: State, input: seq<Key>)
    requires Ok(g.max, st) && NoQuotedNul(input) && 0 !in st.line.text
    ensures 0 !in Turn(g, st, input).st.line.text
  {
    hide Ok, Complete, Process, NoQuotedNul;
    NextAhead(input);
    var (c, rest) := Next(input);
    QuotedNulAhead(c, rest, input);
    FrontDropped(c, rest);
    if c == TAB && st.line.pos == |st.line.text| && g.complete.Some? {
      var comps := g.complete.value(CStr(st.line.text));
      if comps != [] {
        var s := CompleteFrom(g, st, comps, rest);
        CompleteNul(g.max, st.line, comps, 0, rest);
        QuotedNulAhead(s.key, s.rest, rest);
        ProcessNul(g, st.(line := s.line), s.key, s.rest);
      }
    } else {
      ProcessNul(g, st, c, rest);
    }
  }

  // If no NUL is typed behind a ^V, the text never holds one, so the C string
  // returned is the whole text.
  lemma {:induction false} RunNul(g: Settings, st: State, input: seq<Key>)
    requires Ok(g.max, st) && NoQuotedNul(input) && 0 !in st.line.text
    ensures 0 !in Run(g, st, input).st.line.text
    ensures CStr(Run(g, st, input).st.line.text) == Run(g, st, input).st.line.text
    decreases |input|
  {
    hide Ok, Turn, NoQuotedNul;
    TurnNul(g, st, input);
    TurnOk(g, st, input);
    TurnReads(g, st, input);
    var s := Turn(g, st, input);
    if s.More? {
      SuffixQuotedNul(s.rest, input);
      RunNul(g, s.st, s.rest);
    }
    CStrWhole(Run(g, st, input).st.line.text);
  }

  lemma SuffixQuotedNul(rest: seq<Key>, input: seq<Key>)
    requires Suffix(rest, input) && NoQuotedNul(input)
    ensures NoQuotedNul(rest)
  {
    QuotedNulAhead(0, rest, input);
    FrontDropped(0, rest);
  }
}
