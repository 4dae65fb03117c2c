// What the keys of the pure editor promise.
module EditingLaws {
  import opened Bytes
  import opened Codec
  import opened Text
  import opened Line
  import opened Editing
  import opened History

  // ---------------------------------------------------------------------------
  // ^T

  // The two characters around the cursor (in front of it, at the end of the
  // line) change places and the cursor ends up behind both.
  function Swapped(l: Line): Line
    requires |l.text| >= 2 && 0 < l.pos <= |l.text|
  {
    var i := if l.pos == |l.text| then l.pos - 1 else l.pos;
    Line(l.text[i - 1 := l.text[i]][i := l.text[i - 1]], i + 1)
  }

  // ^T swaps two characters unless the line has only one or its last free byte
  // is taken; then putting the character back is refused and it is lost.
  lemma TransposeIsSwap(b: Build, max: nat, l: Line)
    requires ValidText(b, l.text) && 0 < l.pos <= |l.text| && Size(b, l.text) < max
    ensures |Transpose(b, max, l).text| == |l.text| <==> |l.text| >= 2 && Size(b, l.text) <= max - 2
    ensures |l.text| >= 2 && Size(b, l.text) <= max - 2 ==> Transpose(b, max, l) == Swapped(l)
    ensures !(|l.text| >= 2 && Size(b, l.text) <= max - 2) ==>
      Transpose(b, max, l) == RemoveAt(l, if l.pos == |l.text| then l.pos - 1 else l.pos)
  {
    hide EncodeAll, Encode, Size, InsertAt, Swapped;
    var i := if l.pos == |l.text| then l.pos - 1 else l.pos;
    var r := RemoveAt(l, i);
    SizeRemove(b, l.text, i);
    NarrowChar(b, l.text[i]);
    assert CanInsert(b, max, r, r.pos - 1, l.text[i]) <==> |l.text| >= 2 && Size(b, l.text) <= max - 2;
    if |l.text| >= 2 {
      PutBackIsSwap(l);
    }
    if CanInsert(b, max, r, r.pos - 1, l.text[i]) {
      Inserted(r, r.pos - 1, l.text[i]);
    }
  }

  lemma PutBackIsSwap(l: Line)
    requires |l.text| >= 2 && 0 < l.pos <= |l.text|
    ensures var i := if l.pos == |l.text| then l.pos - 1 else l.pos;
      var r := RemoveAt(l, i);
      r.pos == i && InsertAt(r, i - 1, l.text[i]) == Swapped(l)
  {
    var i := if l.pos == |l.text| then l.pos - 1 else l.pos;
    var r := RemoveAt(l, i);
    assert r.text[..i - 1] == l.text[..i - 1];
    assert r.text[i - 1..] == [l.text[i - 1]] + l.text[i + 1..];
    assert InsertAt(r, i - 1, l.text[i]).text == Swapped(l).text;
  }

  lemma Inserted(l: Line, p: nat, c: Code)
    requires p <= |l.text|
    ensures |InsertAt(l, p, c).text| == |l.text| + 1
  {
  }

  // ---------------------------------------------------------------------------
  // Typing and backspace

  // Backspace takes back a character just typed, unless the line was full: then
  // nothing was typed and an older character goes.
  lemma TypeThenErase(max: nat, l: Line, c: Key)
    requires LineOk(max, l) && ' ' as int <= c && c != BACKSPACE
    ensures LineOk(max, EditLine(max, l, c))
    ensures EditLine(max, EditLine(max, l, c), BACKSPACE) == l <==> |l.text| < max - 2 || l.pos == 0
  {
    hide EncodeAll, Encode, Narrow, Transpose, ValidText, InsertAt, RemoveAt;
    EncodeBytes(l.text);
    EditLineOk(max, l, c);
    if |l.text| < max - 2 {
      InsertedAndRemoved(l, l.pos, Narrow(ByteBuild, c));
    } else if l.pos > 0 {
      Removed(l, l.pos - 1);
    }
  }

  lemma InsertedAndRemoved(l: Line, p: nat, c: Code)
    requires p == l.pos <= |l.text|
    ensures var r := InsertAt(l, p, c);
      r.pos == p + 1 <= |r.text| && RemoveAt(r, p) == l
  {
    var r := InsertAt(l, p, c);
    assert r.text[..p] == l.text[..p] && r.text[p + 1..] == l.text[p..];
    assert l.text == l.text[..p] + l.text[p..];
  }

  lemma Removed(l: Line, p: nat)
    requires p < |l.text|
    ensures |RemoveAt(l, p).text| < |l.text|
  {
  }

  // ---------------------------------------------------------------------------
  // Tab

  function Tabs(n: nat): seq<Key> {
    if n == 0 then [] else [TAB] + Tabs(n - 1)
  }

  // Each further tab offers the next completion, then the original line, and
  // starts over; any other key but escape takes what is offered.
  lemma {:induction false} TabCycles(max: nat, l: Line, comps: seq<seq<byte>>, i: nat, n: nat, c: Key, rest: seq<Key>)
    requires max >= 1 && i <= |comps| && c != TAB && c != -1
    ensures var offered := (i + n) % (|comps| + 1);
      Complete(max, l, comps, i, Tabs(n) + [c] + rest) ==
        Searched(if c != ESC && offered < |comps| then Whole(Fitting(max, comps[offered])) else l, c, rest)
    decreases n
  {
    var input := Tabs(n) + [c] + rest;
    if n == 0 {
      assert input == [c] + rest;
      assert input[1..] == rest;
      SmallRemainder(i, |comps| + 1);
    } else {
      assert input[1..] == Tabs(n - 1) + [c] + rest;
      NextRemainder(i, n, |comps| + 1);
      TabCycles(max, l, comps, (i + 1) % (|comps| + 1), n - 1, c, rest);
    }
  }

  lemma SmallRemainder(i: nat, m: nat)
    requires i < m
    ensures i % m == i
  {
  }

  lemma NextRemainder(i: nat, n: nat, m: nat)
    requires i < m && n > 0
    ensures (i + 1) % m < m && ((i + 1) % m + (n - 1)) % m == (i + n) % m
  {
    if i + 1 < m {
      SmallRemainder(i + 1, m);
    } else {
      assert (i + 1) % m == 0;
      assert i + n == m + (n - 1);
      WholeTurn(n - 1, m);
    }
  }

  lemma WholeTurn(k: nat, m: nat)
    requires m > 0
    ensures (m + k) % m == k % m
  {
    var q, r := k / m, k % m;
    var q', r' := (m + k) / m, (m + k) % m;
    assert k == m * q + r && m + k == m * q' + r';
    Distributes(m, q', q + 1);
    if q' - (q + 1) >= 1 {
      Multiple(m, q' - (q + 1));
    } else if (q + 1) - q' >= 1 {
      Multiple(m, (q + 1) - q');
      Distributes(m, q + 1, q');
    }
  }

  lemma Distributes(m: int, a: int, b: int)
    ensures m * (a - b) == m * a - m * b
    ensures m * (b - a) == m * b - m * a
    ensures m * (b - 1) == m * b - m
  {
  }

  lemma Multiple(m: nat, k: int)
    requires k >= 1
    ensures m * k >= m
  {
  }

  // ---------------------------------------------------------------------------
  // ^W, ^U, ^K and ^Y

  // Cutting at the cursor and yanking at once restores the text, unless the
  // buffer was full to the last byte or a NUL was cut.
  lemma CutThenYank(b: Build, max: nat, st: State, p: nat, n: nat)
    requires ValidText(b, st.line.text) && Size(b, st.line.text) < max
    requires n > 0 && p + n <= |st.line.text| && (st.line.pos == p || st.line.pos == p + n)
    ensures var r := Yank(b, max, Cut(st, p, n));
      && (r.line.text == st.line.text <==>
            Size(b, st.line.text) <= max - 2 && 0 !in st.line.text[p..p + n])
      && (r.line.text == st.line.text ==> r.line.pos == p + n)
  {
    hide RemoveMany, InsertMany, ValidText, Size, CStr;
    LineCutThenYank(b, max, st.line, p, n);
  }

  lemma LineCutThenYank(b: Build, max: nat, l0: Line, p: nat, n: nat)
    requires ValidText(b, l0.text) && Size(b, l0.text) < max
    requires n > 0 && p + n <= |l0.text| && (l0.pos == p || l0.pos == p + n)
    ensures var l := RemoveMany(l0, p, n);
      var r := InsertMany(b, max, l, l.pos, CStr(l0.text[p..p + n]));
      && (r.text == l0.text <==> Size(b, l0.text) <= max - 2 && 0 !in l0.text[p..p + n])
      && (r.text == l0.text ==> r.pos == p + n)
  {
    hide *;
    var t, cut := l0.text, l0.text[p..p + n];
    RemoveManyIsCut(l0, p, n);
    var l := RemoveMany(l0, p, n);
    SizeSplice(b, t, p, n);
    CutValid(b, t, p, n);
    InsertManyIsSplice(b, max, l, p, CStr(cut));
    var m := Accepted(b, max, Size(b, l.text), CStr(cut));
    SplicedParts(l, p, CStr(cut)[..m]);
    SpliceBack(t, p, n, CStr(cut)[..m]);
    WholePrefix(cut, m);
    AllAccepted(b, max, Size(b, l.text), CStr(cut));
  }

  lemma SplicedParts(l: Line, p: nat, s: seq<Code>)
    requires p <= |l.text|
    ensures Spliced(l, p, s).text == l.text[..p] + s + l.text[p..]
    ensures l.pos >= p ==> Spliced(l, p, s).pos == l.pos + |s|
  {
  }

  lemma CutValid(b: Build, t: seq<Code>, p: nat, n: nat)
    requires ValidText(b, t) && p + n <= |t|
    ensures ValidText(b, t[p..p + n]) && ValidText(b, CStr(t[p..p + n]))
    ensures |CStr(t[p..p + n])| <= n
  {
  }

  lemma SpliceBack(t: seq<Code>, p: nat, n: nat, s: seq<Code>)
    requires p + n <= |t|
    ensures var r := t[..p] + t[p + n..];
      r[..p] + s + r[p..] == t <==> s == t[p..p + n]
  {
    var r := t[..p] + t[p + n..];
    var back := r[..p] + s + r[p..];
    assert r[..p] == t[..p] && r[p..] == t[p + n..];
    if back == t {
      assert s == back[p..p + |s|];
    }
    assert t == t[..p] + t[p..p + n] + t[p + n..];
  }

  lemma WholePrefix(s: seq<Code>, m: nat)
    requires m <= |CStr(s)|
    ensures CStr(s)[..m] == s <==> m == |s|
    ensures m == |s| ==> 0 !in s
    ensures 0 !in s ==> CStr(s) == s
  {
    CStrWhole(s);
  }

  // insert_chars takes the whole string exactly if it leaves a byte to spare.
  lemma AllAccepted(b: Build, max: nat, used: nat, s: seq<Code>)
    requires ValidText(b, s)
    ensures Accepted(b, max, used, s) == |s| <==> s == [] || used + Size(b, s) < max - 1
  {
    AcceptedIsLongest(b, max, used, s);
    var m := Accepted(b, max, used, s);
    assert s[..|s|] == s;
    if m < |s| {
      SizeGrows(b, s, m + 1, |s|);
    }
  }

  lemma SizeSplice(b: Build, t: seq<Code>, p: nat, n: nat)
    requires p + n <= |t|
    ensures Size(b, t) == Size(b, t[..p] + t[p + n..]) + Size(b, t[p..p + n])
  {
    EncodeCut(b, t, p + n);
    EncodeCut(b, t[..p + n], p);
    EncodeConcat(b, t[..p], t[p + n..]);
    assert t[..p + n][..p] == t[..p];
    assert t[..p + n][p..] == t[p..p + n];
  }

  // The same for the keys of the one-byte build.
  lemma CutKeyThenYank(max: nat, st: State, c: Key, input: seq<Key>)
    requires Ok(max, st) && CutKey(c) && CutRange(st.line, c).1 > 0
    ensures Ok(max, Apply(max, st, c, input).0)
    ensures var (p, n) := CutRange(st.line, c);
      var (st1, rest) := Apply(max, st, c, input);
      var st2 := Apply(max, st1, CTRL_Y, rest).0;
      && st1.kill == Some(st.line.text[p..p + n])
      && (st2.line.text == st.line.text <==>
            |st.line.text| <= max - 2 && 0 !in st.line.text[p..p + n])
      && (st2.line.text == st.line.text ==> st2.line.pos == p + n)
  {
    hide RemoveMany, Yank, EncodeAll, WordStart, HistoryOk;
    var (p, n) := CutRange(st.line, c);
    EncodeBytes(st.line.text);
    ApplyOk(max, st, c, input);
    assert LineOk(max, st.line);
    CutThenYank(ByteBuild, max, st, p, n);
  }

  // ^W takes the word in front of the cursor together with the blanks behind
  // it, and nothing else.
  lemma WordCut(t: seq<Code>, pos: nat)
    requires pos <= |t|
    ensures var (from, mid) := (WordStart(t, pos), BlanksStart(t, pos));
      && from <= mid <= pos
      && (forall i :: from <= i < mid ==> t[i] != SPACE)
      && (forall i :: mid <= i < pos ==> t[i] == SPACE)
      && (from > 0 ==> t[from - 1] == SPACE)
      && (from == mid ==> mid == 0)
  {
    BlanksRun(t, pos);
    NonBlanksRun(t, BlanksStart(t, pos));
  }

  lemma {:induction false} BlanksRun(t: seq<Code>, p: nat)
    requires p <= |t|
    ensures forall i :: BlanksStart(t, p) <= i < p ==> t[i] == SPACE
    ensures BlanksStart(t, p) > 0 ==> t[BlanksStart(t, p) - 1] != SPACE
  {
    if p > 0 && t[p - 1] == SPACE {
      BlanksRun(t, p - 1);
    }
  }

  lemma {:induction false} NonBlanksRun(t: seq<Code>, p: nat)
    requires p <= |t|
    ensures forall i :: NonBlanksStart(t, p) <= i < p ==> t[i] != SPACE
    ensures NonBlanksStart(t, p) > 0 ==> t[NonBlanksStart(t, p) - 1] == SPACE
  {
    if p > 0 && t[p - 1] != SPACE {
      NonBlanksRun(t, p - 1);
    }
  }

  // ---------------------------------------------------------------------------
  // How a buffer gets full: not by typing, but by calling up a history line that
  // takes all of it. On it ^T loses a character, and so does ^U followed by ^Y.

  // One turn of the loop, for a key without a loop of its own.
  lemma RunKey(g: Settings, st: State, c: Key, rest: seq<Key>)
    requires Ok(g.max, st) && c != -1 && c != TAB && c != ESC && c != CTRL_R
    ensures var s := Act(g.max, st, c, rest);
      && (s.Done? ==> Run(g, st, [c] + rest) == s)
      && (s.More? ==> Ok(g.max, s.st) && Run(g, st, [c] + rest) == Run(g, s.st, s.rest))
  {
    hide Act, Ok;
    assert ([c] + rest)[1..] == rest;
    ActOk(g.max, st, c, rest);
  }

  // The oldest history line on the screen, as a new session has it one line up.
  function Recalled(e: seq<Code>): State {
    State(Whole(e), None, [e, []], 1)
  }

  lemma RecallLine(g: Settings, maxLines: int, e: seq<Code>, rest: seq<Key>)
    requires maxLines >= 2 && g.max >= 1 && EntryOk(g.max, e) && e != []
    ensures Ok(g.max, Start(maxLines, [e])) && Ok(g.max, Recalled(e))
    ensures Run(g, Start(maxLines, [e]), [SPECIAL_UP] + rest) == Run(g, Recalled(e), rest)
  {
    hide Run, ValidText;
    var st := Start(maxLines, [e]);
    StartOk(g.max, maxLines, [e]);
    assert st.hist == [e, []];
    assert st.hist[1 := CStr([])] == [e, []];
    FittingOk(g.max, e);
    assert Act(g.max, st, SPECIAL_UP, rest) == More(Recalled(e), rest);
    RunKey(g, st, SPECIAL_UP, rest);
  }

  lemma FullLineTransposed(g: Settings, maxLines: int, e: seq<Code>)
    requires maxLines >= 2 && EntryOk(g.max, e) && |e| == g.max - 1 && |e| >= 2
    ensures Ok(g.max, Start(maxLines, [e]))
    ensures Run(g, Start(maxLines, [e]), [SPECIAL_UP] + ([CTRL_T] + [ENTER])) ==
      Done(Entered, State(Whole(e[..|e| - 1]), None, [e], 1), [])
  {
    hide Run, Transpose, ValidText, EncodeAll;
    RecallLine(g, maxLines, e, [CTRL_T] + [ENTER]);
    RunKey(g, Recalled(e), CTRL_T, [ENTER]);
    EncodeBytes(e);
    TransposeIsSwap(ByteBuild, g.max, Whole(e));
    assert e[..|e| - 1] + e[|e|..] == e[..|e| - 1];
    var st := State(Whole(e[..|e| - 1]), None, [e, []], 1);
    assert Act(g.max, Recalled(e), CTRL_T, [ENTER]) == More(st, [ENTER]);
    EnterEnds(g, st, e);
  }

  lemma EnterEnds(g: Settings, st: State, e: seq<Code>)
    requires Ok(g.max, st) && st.hist == [e, []]
    ensures Run(g, st, [ENTER]) == Done(Entered, st.(hist := [e]), [])
  {
    hide Run, Ok, Apply;
    RunKey(g, st, ENTER, []);
    assert [ENTER] + [] == [ENTER];
    assert WithoutLast([e, []]) == [e];
  }

  lemma FullLineCutAndYanked(g: Settings, maxLines: int, e: seq<Code>)
    requires maxLines >= 2 && EntryOk(g.max, e) && |e| == g.max - 1 && e != []
    ensures Ok(g.max, Start(maxLines, [e]))
    ensures var r := Run(g, Start(maxLines, [e]), [SPECIAL_UP] + ([CTRL_U] + ([CTRL_Y] + [ENTER])));
      r.outcome == Entered && r.st.line.text != e
  {
    hide Run, Yank, Cut, ValidText, EncodeAll, Ok;
    var st := Recalled(e);
    RecallLine(g, maxLines, e, [CTRL_U] + ([CTRL_Y] + [ENTER]));
    RunKey(g, st, CTRL_U, [CTRL_Y] + [ENTER]);
    var st1 := Apply(g.max, st, CTRL_U, [CTRL_Y] + [ENTER]).0;
    RunKey(g, st1, CTRL_Y, [ENTER]);
    var st2 := Apply(g.max, st1, CTRL_Y, [ENTER]).0;
    CutKeyThenYank(g.max, st, CTRL_U, [CTRL_Y] + [ENTER]);
    KeepsLists(g.max, st, st1, st2);
    EnterEnds(g, st2, e);
  }

  lemma KeepsLists(max: nat, st: State, st1: State, st2: State)
    requires Ok(max, st) && st1 == Cut(st, CutRange(st.line, CTRL_U).0, CutRange(st.line, CTRL_U).1)
    requires st2 == Yank(ByteBuild, max, st1)
    ensures st2.hist == st.hist
  {
  }

  // ---------------------------------------------------------------------------
  // History navigation

  // Everything the user has typed: the history, with the line being edited in
  // its place.
  function Document(st: State): seq<seq<Code>>
    requires st.index < |st.hist|
  {
    st.hist[Slot(st) := CStr(st.line.text)]
  }

  // The slot a navigation key shows, if it shows another line at all.
  function Target(st: State, c: Key): Option<nat> {
    var index := st.index + Direction(st, c);
    if |st.hist| > 1 && 0 <= index < |st.hist| then Some(|st.hist| - 1 - index) else None
  }

  // A navigation key loses nothing exactly if the line it shows fits the
  // buffer.
  lemma NavigateKeepsDocument(max: nat, st: State, c: Key)
    requires max >= 1 && st.index < |st.hist| && CStrings(st.hist) && NavigationKey(c)
    ensures var r := Navigate(max, st, Direction(st, c));
      && r.index < |r.hist| == |st.hist|
      && (Document(r) == Document(st) <==>
            Target(st, c).None? || |Document(st)[Target(st, c).value]| < max)
      && (Target(st, c).Some? ==> Slot(r) == Target(st, c).value)
  {
    hide Fitting, CStr;
    var r := Navigate(max, st, Direction(st, c));
    if |st.hist| > 1 {
      if Target(st, c).Some? {
        var e := Document(st)[Target(st, c).value];
        assert 0 !in e;
        CStrWhole(Fitting(max, e));
        FittingWhole(max, e);
        assert Document(r)[Slot(r)] == Fitting(max, e);
      } else {
        assert r.index == st.index;
        assert Document(r) == r.hist;
      }
    }
  }

  lemma FittingWhole(max: nat, e: seq<Code>)
    requires max >= 1 && 0 !in e
    ensures Fitting(max, e) == e <==> |e| < max
  {
    CStrWhole(e);
  }

  // Any walk through a history whose lines fit: no edit is ever lost.
  lemma {:induction false} WalkKeepsDocument(max: nat, st: State, keys: seq<Key>)
    requires Ok(max, st) && forall k :: k in keys ==> NavigationKey(k)
    ensures Ok(max, Walk(max, st, keys)) && Document(Walk(max, st, keys)) == Document(st)
    decreases |keys|
  {
    if keys != [] {
      NavigateOk(max, st, Direction(st, keys[0]));
      NavigateKeepsDocument(max, st, keys[0]);
      WalkKeepsDocument(max, Navigate(max, st, Direction(st, keys[0])), keys[1..]);
    }
  }

  function Walk(max: nat, st: State, keys: seq<Key>): State
    requires Ok(max, st)
    decreases |keys|
  {
    if keys == [] then st
    else
      NavigateOk(max, st, Direction(st, keys[0]));
      Walk(max, Navigate(max, st, Direction(st, keys[0])), keys[1..])
  }

  // ---------------------------------------------------------------------------
  // Incremental search

  predicate FirstOccurrence(hay: seq<Code>, needle: seq<Code>, p: nat) {
    && p <= |hay| && needle <= hay[p..]
    && forall j :: 0 <= j < p ==> !(needle <= hay[j..])
  }

  predicate Contains(hay: seq<Code>, needle: seq<Code>) {
    exists j :: 0 <= j <= |hay| && needle <= hay[j..]
  }

  lemma {:induction false} FirstFromIsFirst(hay: seq<Code>, needle: seq<Code>, i: nat)
    requires i <= |hay|
    ensures var r := FirstFrom(hay, needle, i);
      if r.Some? then forall j :: i <= j < r.value ==> !(needle <= hay[j..])
      else forall j :: i <= j <= |hay| ==> !(needle <= hay[j..])
    decreases |hay| - i
  {
    if !(needle <= hay[i..]) && i < |hay| {
      FirstFromIsFirst(hay, needle, i + 1);
    }
  }

  // strstr finds what is there.
  lemma SearchFinds(hay: seq<Code>, needle: seq<Code>)
    ensures FirstFrom(hay, needle, 0).Some? <==> Contains(hay, needle)
    ensures FirstFrom(hay, needle, 0).Some? ==> FirstOccurrence(hay, needle, FirstFrom(hay, needle, 0).value)
  {
    FirstFromIsFirst(hay, needle, 0);
  }

  // A scan stops at the first match in its direction, or has passed every line.
  lemma {:induction false} ScanIsNearest(hist: seq<seq<Code>>, from: int, dir: int, needle: seq<Code>,
      skip: Option<seq<Code>>)
    requires dir == 1 || dir == -1
    ensures var r := Scan(hist, from, dir, needle, skip);
      && (0 <= r < |hist| ==> Match(hist[r], needle, skip))
      && (dir == 1 ==> from <= r && (r <= |hist| || r == from))
      && (dir == -1 ==> r <= from && (-1 <= r || r == from))
      && forall i :: 0 <= i < |hist| && (if dir == 1 then from <= i < r else r < i <= from)
           ==> !Match(hist[i], needle, skip)
    decreases if dir == 1 then |hist| - from else from
  {
    if 0 <= from < |hist| && !Match(hist[from], needle, skip) {
      ScanIsNearest(hist, from + dir, dir, needle, skip);
    }
  }

  // A history line is acceptable if it contains the query and, when an earlier
  // or later match was asked for, is not the line already shown.
  predicate Acceptable(e: seq<Code>, l: Line, query: seq<Code>, c: Key) {
    Contains(e, query) && (SearchUp(c) || SearchDown(c) ==> e != CStr(l.text))
  }

  function QueryAfter(q: Query, c: Key): seq<Code> {
    if SearchUp(c) || SearchDown(c) then q.text else q.text + [Narrow(ByteBuild, c)]
  }

  // A search key shows the nearest acceptable line in its direction, with the
  // cursor at the first occurrence of the query, and the query as extended; or
  // there is no such line, and neither the line nor the query changes.
  lemma SearchLandsNearest(max: nat, hist: seq<seq<Code>>, l: Line, q: Query, c: Key)
    requires max >= 1 && HistoryOk(max, hist) && SearchKey(c)
    ensures var query := QueryAfter(q, c);
      var from := ScanStart(hist, q, c);
      var at := Landing(hist, l, q, c);
      var (l', q') := SearchStep(max, hist, l, q, c);
      && q'.at == at
      && (forall i :: 0 <= i < |hist| && (if SearchDown(c) then from <= i < at else at < i <= from)
            ==> !Acceptable(hist[i], l, query, c))
      && (if 0 <= at < |hist| then
            && Acceptable(hist[at], l, query, c)
            && l'.text == hist[at] && FirstOccurrence(hist[at], query, l'.pos) && q'.text == query
          else l' == l && q'.text == q.text)
  {
    var query := QueryAfter(q, c);
    var from := ScanStart(hist, q, c);
    var at := Landing(hist, l, q, c);
    var skip := if SearchUp(c) || SearchDown(c) then Some(CStr(l.text)) else None;
    ScanIsNearest(hist, from, if SearchDown(c) then 1 else -1, query, skip);
    forall i | 0 <= i < |hist|
      ensures Match(hist[i], query, skip) <==> Acceptable(hist[i], l, query, c)
    {
      SearchFinds(hist[i], query);
    }
    if 0 <= at < |hist| {
      SearchFinds(hist[at], query);
      CStrWhole(hist[at]);
    }
  }
}
