// Which history line a key brings back, said in line numbers: navigation and
// incremental search, on runs of the editor.
module RecallLaws {
  import opened Bytes
  import opened Codec
  import opened Line
  import opened Editing
  import opened EditingLaws
  import opened History
  import opened KeyLaws

  // ---------------------------------------------------------------------------
  // Navigation.

  // The history with the line being edited in its place.
  function Lines(st: State): (d: seq<seq<Code>>)
    requires st.index < |st.hist|
    ensures |d| == |st.hist|
  {
    st.hist[|st.hist| - 1 - st.index := CStr(st.line.text)]
  }

  // The state in which line `k` is shown.
  function Showing(st: State, k: nat): State
    requires st.index < |st.hist| && k < |st.hist|
  {
    State(Line(Lines(st)[k], |Lines(st)[k]|), st.kill, Lines(st), |st.hist| - 1 - k)
  }

  // With a history, Up shows the line before the one shown, Down the line behind it,
  // Page Up the first, Page Down the last; where there is none, nothing moves.
  lemma {:induction false} NavigationKeys(g: Settings, st: State, c: Key, k: int)
    requires Ok(g.max, st) && |st.hist| > 1
    requires var shown := |st.hist| - 1 - st.index;
      || ((c == Ctrl('P') || c == SPECIAL_UP) && k == shown - 1)
      || ((c == Ctrl('N') || c == SPECIAL_DOWN) && k == shown + 1)
      || (c == SPECIAL_PAGE_UP && k == 0)
      || (c == SPECIAL_PAGE_DOWN && k == |st.hist| - 1)
    ensures Leads(g, st, [c], if 0 <= k < |st.hist| then Showing(st, k) else st.(hist := Lines(st)))
  {
    hide Ok, Leads, CStr, Fitting;
    LineFacts(g.max, st);
    LinesFit(g.max, st);
    if 0 <= k < |st.hist| {
      FittingWhole(g.max, Lines(st)[k]);
      LeadsByKey(g, st, c, Showing(st, k));
    } else {
      LeadsByKey(g, st, c, st.(hist := Lines(st)));
    }
  }

  lemma {:induction false} LinesFit(max: nat, st: State)
    requires Ok(max, st)
    ensures forall k :: 0 <= k < |st.hist| ==> 0 !in Lines(st)[k] && |Lines(st)[k]| < max
  {
  }

  // Without one the keys do nothing.
  lemma {:induction false} NavigationNowhere(g: Settings, st: State, c: Key)
    requires Ok(g.max, st) && |st.hist| == 1 && NavigationKey(c)
    ensures Leads(g, st, [c], st)
  {
    hide Ok, Leads;
    LeadsByKey(g, st, c, st);
  }

  // A session over the history `h` (its own empty line the last) that shows line `k`
  // of it unedited.
  function At(h: seq<seq<Code>>, k: nat): State
    requires k < |h|
  {
    State(Line(h[k], |h[k]|), None, h, |h| - 1 - k)
  }

  lemma {:induction false} AtUnedited(g: Settings, h: seq<seq<Code>>, k: nat)
    requires k < |h| && g.max >= 1 && HistoryOk(g.max, h)
    ensures Ok(g.max, At(h, k)) && Lines(At(h, k)) == h
  {
    assert EntryOk(g.max, h[k]);
    CStrWhole(h[k]);
    assert h[k := h[k]] == h;
  }

  lemma {:induction false} MoveTo(g: Settings, h: seq<seq<Code>>, k: nat, c: Key, n: nat)
    requires k < |h| && g.max >= 1 && HistoryOk(g.max, h) && |h| > 1
    requires (c == Ctrl('P') || c == SPECIAL_UP) ==> n <= k
    requires (c == Ctrl('N') || c == SPECIAL_DOWN) ==> k + n < |h|
    requires c == Ctrl('P') || c == SPECIAL_UP || c == Ctrl('N') || c == SPECIAL_DOWN
    ensures Ok(g.max, At(h, k))
    ensures Leads(g, At(h, k), Repeat(c, n), At(h, if c == Ctrl('P') || c == SPECIAL_UP then k - n else k + n))
    decreases n
  {
    hide Ok, Leads, HistoryOk, Lines;
    AtUnedited(g, h, k);
    var up := c == Ctrl('P') || c == SPECIAL_UP;
    if n == 0 {
      LeadsNowhere(g, At(h, k));
    } else {
      var next := if up then k - 1 else k + 1;
      NavigationKeys(g, At(h, k), c, next);
      assert Showing(At(h, k), next) == At(h, next);
      AtUnedited(g, h, next);
      MoveTo(g, h, next, c, n - 1);
      LeadsTransitive(g, At(h, k), [c], At(h, next), Repeat(c, n - 1), At(h, if up then k - n else k + n));
    }
  }

  // In a new session `n` times Up and then `m` times Down bring back the history line
  // `n - m` from the end.
  lemma {:induction false} UpsAndDowns(g: Settings, maxLines: int, hist: seq<seq<Code>>, n: nat, m: nat)
    requires g.max >= 1 && HistoryOk(g.max, hist) && |hist| < maxLines && (hist != [] ==> hist[|hist| - 1] != [])
    requires m < n <= |hist|
    ensures Entry(g, maxLines, hist, Repeat(SPECIAL_UP, n) + Repeat(SPECIAL_DOWN, m) + [ENTER]) ==
      Some(hist[|hist| - (n - m)])
  {
    hide Ok, Leads, Entry, Fresh, HistoryOk, Repeat;
    var h := hist + [[]];
    FreshAtEnd(g, maxLines, hist);
    MoveTo(g, h, |hist|, SPECIAL_UP, n);
    MoveTo(g, h, |hist| - n, SPECIAL_DOWN, m);
    LeadsTransitive(g, At(h, |hist|), Repeat(SPECIAL_UP, n), At(h, |hist| - n), Repeat(SPECIAL_DOWN, m),
      At(h, |hist| - n + m));
    EntryOf(g, maxLines, hist, Repeat(SPECIAL_UP, n) + Repeat(SPECIAL_DOWN, m), At(h, |hist| - n + m));
  }

  lemma {:induction false} FreshAtEnd(g: Settings, maxLines: int, hist: seq<seq<Code>>)
    requires g.max >= 1 && HistoryOk(g.max, hist) && |hist| < maxLines && (hist != [] ==> hist[|hist| - 1] != [])
    ensures HistoryOk(g.max, hist + [[]])
    ensures Fresh(g, maxLines, hist) == At(hist + [[]], |hist|)
  {
    CStrWhole([]);
  }

  // Page Up brings back the first line, and Page Down the session's own again.
  lemma {:induction false} PagesUpAndDown(g: Settings, maxLines: int, hist: seq<seq<Code>>)
    requires g.max >= 1 && HistoryOk(g.max, hist) && |hist| < maxLines && hist != [] && hist[|hist| - 1] != []
    ensures Entry(g, maxLines, hist, [SPECIAL_PAGE_UP] + [ENTER]) == Some(hist[0])
    ensures Entry(g, maxLines, hist, [SPECIAL_PAGE_UP] + [SPECIAL_PAGE_DOWN] + [ENTER]) == Some([])
  {
    hide Ok, Leads, Entry, Fresh, HistoryOk, Lines;
    var h, last := hist + [[]], |hist|;
    FreshAtEnd(g, maxLines, hist);
    AtUnedited(g, h, last);
    AtUnedited(g, h, 0);
    NavigationKeys(g, At(h, last), SPECIAL_PAGE_UP, 0);
    assert Showing(At(h, last), 0) == At(h, 0);
    EntryOf(g, maxLines, hist, [SPECIAL_PAGE_UP], At(h, 0));
    NavigationKeys(g, At(h, 0), SPECIAL_PAGE_DOWN, last);
    assert Showing(At(h, 0), last) == At(h, last);
    LeadsTransitive(g, At(h, last), [SPECIAL_PAGE_UP], At(h, 0), [SPECIAL_PAGE_DOWN], At(h, last));
    EntryOf(g, maxLines, hist, [SPECIAL_PAGE_UP] + [SPECIAL_PAGE_DOWN], At(h, last));
  }

  // ---------------------------------------------------------------------------
  // Incremental search.

  // Line `k` is the newest that contains the text.
  predicate Newest(hist: seq<seq<Code>>, needle: seq<Code>, k: nat) {
    k < |hist| && Contains(hist[k], needle) && forall i :: k < i < |hist| ==> !Contains(hist[i], needle)
  }

  // The search has found line `k`: it is shown, the cursor at the first occurrence.
  predicate Found(hist: seq<seq<Code>>, needle: seq<Code>, k: nat, r: (Line, Query)) {
    k < |hist| && r.1 == Query(needle, k) && r.0.text == hist[k] && FirstOccurrence(hist[k], needle, r.0.pos)
  }

  // A typed character makes the search start over at the newest line; if no line
  // contains the longer query, the character is dropped.
  lemma {:induction false} SearchTyped(max: nat, hist: seq<seq<Code>>, l: Line, q: Query, c: Key)
    requires max >= 1 && HistoryOk(max, hist) && ' ' as int <= c
    ensures var r := SearchStep(max, hist, l, q, c);
      var needle := q.text + [c];
      || (exists k :: Newest(hist, needle, k) && Found(hist, needle, k, r))
      || (r == (l, Query(q.text, -1)) && forall i :: 0 <= i < |hist| ==> !Contains(hist[i], needle))
  {
    hide Contains, FirstOccurrence, SearchStep, Match, Scan, HistoryOk;
    SearchLandsNearest(max, hist, l, q, c);
    var needle, at := q.text + [c], Landing(hist, l, q, c);
    ScanIsNearest(hist, |hist| - 1, -1, needle, None);
    if 0 <= at < |hist| {
      assert Newest(hist, needle, at) && Found(hist, needle, at, SearchStep(max, hist, l, q, c));
    }
  }

  // Up shows the nearest older line that contains the query and differs from the
  // line shown; the first line is looked at again when the search stands at it.
  lemma {:induction false} SearchOlder(max: nat, hist: seq<seq<Code>>, l: Line, q: Query, c: Key)
    requires max >= 1 && HistoryOk(max, hist) && -1 <= q.at <= |hist| && hist != []
    requires c == Ctrl('P') || c == SPECIAL_UP
    ensures var r := SearchStep(max, hist, l, q, c);
      var top := if q.at > 0 then q.at - 1 else q.at;
      || (exists k :: 0 <= k <= top && Found(hist, q.text, k, r) && hist[k] != CStr(l.text)
            && forall i :: k < i <= top ==> !(Contains(hist[i], q.text) && hist[i] != CStr(l.text)))
      || (r == (l, Query(q.text, -1))
            && forall i :: 0 <= i <= top ==> !(Contains(hist[i], q.text) && hist[i] != CStr(l.text)))
  {
    hide Contains, FirstOccurrence, CStr, SearchStep, Match, Scan, HistoryOk;
    SearchLandsNearest(max, hist, l, q, c);
    var at := Landing(hist, l, q, c);
    ScanIsNearest(hist, if q.at > 0 then q.at - 1 else q.at, -1, q.text, Some(CStr(l.text)));
    if 0 <= at < |hist| {
      assert Found(hist, q.text, at, SearchStep(max, hist, l, q, c));
    }
  }

  // Down shows the nearest newer such line.
  lemma {:induction false} SearchNewer(max: nat, hist: seq<seq<Code>>, l: Line, q: Query, c: Key)
    requires max >= 1 && HistoryOk(max, hist) && -1 <= q.at <= |hist|
    requires c == Ctrl('N') || c == SPECIAL_DOWN
    ensures var r := SearchStep(max, hist, l, q, c);
      || (exists k :: q.at < k < |hist| && Found(hist, q.text, k, r) && hist[k] != CStr(l.text)
            && forall i :: q.at < i < k ==> !(Contains(hist[i], q.text) && hist[i] != CStr(l.text)))
      || (r == (l, Query(q.text, |hist|))
            && forall i :: q.at < i < |hist| ==> !(Contains(hist[i], q.text) && hist[i] != CStr(l.text)))
  {
    hide Contains, FirstOccurrence, CStr, SearchStep, Match, Scan, HistoryOk;
    SearchLandsNearest(max, hist, l, q, c);
    var at := Landing(hist, l, q, c);
    ScanIsNearest(hist, if q.at < |hist| then q.at + 1 else q.at, 1, q.text, Some(CStr(l.text)));
    if 0 <= at < |hist| {
      assert Found(hist, q.text, at, SearchStep(max, hist, l, q, c));
    }
  }

  // A query typed into the search, some line of the history containing it, ends at
  // the newest such line.
  lemma {:induction false} SearchText(max: nat, hist: seq<seq<Code>>, l: Line, q: Query, s: seq<Code>, k: nat,
      rest: seq<Key>)
    returns (r: (Line, Query))
    requires max >= 1 && HistoryOk(max, hist) && Printable(s) && s != [] && Newest(hist, q.text + s, k)
    ensures Found(hist, q.text + s, k, r)
    ensures Search(max, hist, l, q, Keys(s) + rest) == Search(max, hist, r.0, r.1, rest)
    decreases |s|
  {
    hide Contains, FirstOccurrence, SearchStep, HistoryOk, Search;
    var c, more := s[0], s[1..];
    var needle := q.text + [c];
    assert q.text + s == needle + more;
    ShorterContained(hist[k], needle, more);
    var r1 := SearchStep(max, hist, l, q, c);
    SearchTyped(max, hist, l, q, c);
    SearchTakes(max, hist, l, q, c, Keys(more) + rest);
    assert Keys(s) + rest == [c] + (Keys(more) + rest);
    if more == [] {
      assert needle + [] == needle && Keys(more) + rest == rest;
      var j :| Newest(hist, needle, j) && Found(hist, needle, j, r1);
      assert j == k;
      r := r1;
    } else {
      r := SearchText(max, hist, r1.0, r1.1, more, k, rest);
    }
  }

  lemma {:induction false} ShorterContained(hay: seq<Code>, s: seq<Code>, t: seq<Code>)
    requires Contains(hay, s + t)
    ensures Contains(hay, s)
  {
    var j :| 0 <= j <= |hay| && s + t <= hay[j..];
    assert s <= s + t <= hay[j..];
  }

  lemma {:induction false} SearchTakes(max: nat, hist: seq<seq<Code>>, l: Line, q: Query, c: Key, rest: seq<Key>)
    requires max >= 1 && ' ' as int <= c && c != BACKSPACE
    ensures var r := SearchStep(max, hist, l, q, c);
      Search(max, hist, l, q, [c] + rest) == Search(max, hist, r.0, r.1, rest)
  {
    hide SearchStep;
    assert ([c] + rest)[1..] == rest;
  }

  // ^R, a text and Enter: the newest history line that contains the text is returned.
  lemma {:induction false} SearchAndEnter(g: Settings, maxLines: int, hist: seq<seq<Code>>, s: seq<Code>, k: nat)
    requires g.max >= 1 && HistoryOk(g.max, hist) && |hist| < maxLines && (hist != [] ==> hist[|hist| - 1] != [])
    requires Printable(s) && s != [] && Newest(hist, s, k)
    ensures Entry(g, maxLines, hist, [Ctrl('R')] + (Keys(s) + [ENTER])) == Some(hist[k])
  {
    hide Contains, FirstOccurrence, Search, Run, Fresh, HistoryOk, Ok, Keys;
    var h := hist + [[]];
    var st, q := At(h, |hist|), Query([], |hist|);
    FreshAtEnd(g, maxLines, hist);
    NewestBeforeEmpty(hist, s, k);
    assert [] + s == s;
    var r := SearchText(g.max, h, st.line, q, s, k, [ENTER]);
    SearchEnds(g.max, h, r.0, r.1, ENTER, []);
    assert [ENTER] + [] == [ENTER];
    SearchLeads(g, st, Keys(s) + [ENTER], r.0);
    SessionEnds(g, st.(line := r.0), []);
  }

  lemma {:induction false} NewestBeforeEmpty(hist: seq<seq<Code>>, s: seq<Code>, k: nat)
    requires s != [] && Newest(hist, s, k)
    ensures Newest(hist + [[]], s, k) && (hist + [[]])[k] == hist[k]
  {
    var h: seq<seq<Code>> := hist + [[]];
    assert !Contains([], s);
    assert forall i :: 0 <= i < |hist| ==> h[i] == hist[i];
  }

  // The keys that end a search: ^J keeps the line, ^G and ^C empty it, others keep it
  // and are then processed.
  lemma {:induction false} SearchEnds(max: nat, hist: seq<seq<Code>>, l: Line, q: Query, c: Key, rest: seq<Key>)
    requires max >= 1 && c < ' ' as int && c != Ctrl('H') && c != Ctrl('[')
    requires c !in [Ctrl('P'), Ctrl('N'), SPECIAL_UP, SPECIAL_DOWN]
    ensures Search(max, hist, l, q, [c] + rest) ==
      if c == Ctrl('J') then Searched(l, 0, rest)
      else if c == Ctrl('G') || c == Ctrl('C') then Searched(Line([], 0), 0, rest)
      else Searched(l, c, rest)
  {
    hide SearchStep;
    assert ([c] + rest)[1..] == rest;
  }

  lemma {:induction false} SearchLeads(g: Settings, st: State, keys: seq<Key>, l: Line)
    requires Ok(g.max, st)
    requires Search(g.max, st.hist, st.line, Query([], |st.hist| - 1), keys) == Searched(l, ENTER, [])
    ensures Ok(g.max, st.(line := l))
    ensures Run(g, st, [Ctrl('R')] + keys) == Run(g, st.(line := l), [ENTER])
  {
    hide Search, Act, LineOk, HistoryOk;
    assert ([CTRL_R] + keys)[1..] == keys;
    SearchOk(g.max, st.hist, st.line, Query([], |st.hist| - 1), keys);
  }

  // Backspace takes the last character off the query and moves nothing.
  lemma {:induction false} SearchErases(max: nat, hist: seq<seq<Code>>, l: Line, q: Query, c: Key, rest: seq<Key>)
    requires max >= 1 && (c == BACKSPACE || c == Ctrl('H'))
    ensures Search(max, hist, l, q, [c] + rest) ==
      Search(max, hist, l, Query(if q.text == [] then [] else q.text[..|q.text| - 1], q.at), rest)
  {
    assert ([c] + rest)[1..] == rest;
  }

  // An escape sequence in a search is the key it stands for.
  lemma {:induction false} SearchEscape(max: nat, hist: seq<seq<Code>>, l: Line, q: Query, k: Key, rest: seq<Key>)
    requires max >= 1 && k != ESC && k != BACKSPACE && k != Ctrl('H')
    ensures Search(max, hist, l, q, [ESC] + ([k] + rest)) == Search(max, hist, l, q, [k] + rest)
  {
    hide SearchStep;
    assert ([ESC] + ([k] + rest))[1..] == [k] + rest && ([k] + rest)[1..] == rest;
  }

  // ^R and at once Up: the newest history line.
  lemma {:induction false} SearchUpAtOnce(g: Settings, maxLines: int, hist: seq<seq<Code>>)
    requires g.max >= 1 && HistoryOk(g.max, hist) && |hist| < maxLines && hist != [] && hist[|hist| - 1] != []
    ensures Entry(g, maxLines, hist, [Ctrl('R')] + ([SPECIAL_UP] + [ENTER])) == Some(hist[|hist| - 1])
  {
    hide FirstOccurrence, Search, SearchStep, Run, Fresh, HistoryOk, Ok, CStr;
    var h, last := hist + [[]], |hist| - 1;
    var st, q := At(h, |hist|), Query([], |hist|);
    FreshAtEnd(g, maxLines, hist);
    CStrWhole([]);
    assert h[|hist|] == [] && h[last] == hist[last];
    var r := SearchStep(g.max, h, st.line, q, SPECIAL_UP);
    SearchOlder(g.max, h, st.line, q, SPECIAL_UP);
    assert Contains(h[last], []) by {
      assert [] <= h[last][0..];
    }
    assert r.0.text == h[last];
    SearchMoves(g.max, h, st.line, q, SPECIAL_UP, [ENTER]);
    SearchEnds(g.max, h, r.0, r.1, ENTER, []);
    assert [ENTER] + [] == [ENTER];
    SearchLeads(g, st, [SPECIAL_UP] + [ENTER], r.0);
    SessionEnds(g, st.(line := r.0), []);
  }

  lemma {:induction false} SearchMoves(max: nat, hist: seq<seq<Code>>, l: Line, q: Query, c: Key, rest: seq<Key>)
    requires max >= 1 && c in [Ctrl('P'), Ctrl('N'), SPECIAL_UP, SPECIAL_DOWN]
    ensures var r := SearchStep(max, hist, l, q, c);
      Search(max, hist, l, q, [c] + rest) == Search(max, hist, r.0, r.1, rest)
  {
    hide SearchStep;
    assert ([c] + rest)[1..] == rest;
  }
}
