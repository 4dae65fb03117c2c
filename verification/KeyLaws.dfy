// What every key does, said on runs of the editor and without its definitions: in
// texts, cursors, cut buffers and history lines.
module KeyLaws {
  import opened Bytes
  import opened Codec
  import opened Text
  import opened Line
  import opened Editing
  import opened EditingLaws
  import opened History

  // ctrl() of linenoise.c
  function Ctrl(c: char): int
    requires '@' <= c <= '_'
  {
    c as int - '@' as int
  }

  lemma {:induction false} ControlCodes()
    ensures CTRL_A == Ctrl('A') && CTRL_B == Ctrl('B') && CTRL_C == Ctrl('C') && CTRL_D == Ctrl('D')
    ensures CTRL_E == Ctrl('E') && CTRL_F == Ctrl('F') && CTRL_G == Ctrl('G') && CTRL_H == Ctrl('H')
    ensures CTRL_J == Ctrl('J') && CTRL_K == Ctrl('K') && CTRL_L == Ctrl('L') && CTRL_N == Ctrl('N')
    ensures CTRL_P == Ctrl('P') && CTRL_R == Ctrl('R') && CTRL_T == Ctrl('T') && CTRL_U == Ctrl('U')
    ensures CTRL_V == Ctrl('V') && CTRL_W == Ctrl('W') && CTRL_Y == Ctrl('Y')
    ensures TAB == Ctrl('I') && ENTER == Ctrl('M') && ESC == Ctrl('[')
  {
  }

  // ---------------------------------------------------------------------------
  // Typing `keys` in state `st` leads to state `r`, whatever is typed next.

  ghost predicate Leads(g: Settings, st: State, keys: seq<Key>, r: State)
    requires Ok(g.max, st)
  {
    Ok(g.max, r) && forall rest: seq<Key> :: Run(g, st, keys + rest) == Run(g, r, rest)
  }

  lemma {:induction false} LeadsOn(g: Settings, st: State, keys: seq<Key>, r: State, rest: seq<Key>)
    requires Ok(g.max, st) && Leads(g, st, keys, r)
    ensures Ok(g.max, r) && Run(g, st, keys + rest) == Run(g, r, rest)
  {
  }

  lemma {:induction false} LeadsNowhere(g: Settings, st: State)
    requires Ok(g.max, st)
    ensures Leads(g, st, [], st)
  {
    hide Run, Ok;
    forall rest: seq<Key> ensures Run(g, st, [] + rest) == Run(g, st, rest) {
      assert [] + rest == rest;
    }
  }

  lemma {:induction false} LeadsTransitive(g: Settings, a: State, k: seq<Key>, b: State, l: seq<Key>, c: State)
    requires Ok(g.max, a) && Leads(g, a, k, b) && Leads(g, b, l, c)
    ensures Leads(g, a, k + l, c)
  {
    hide Run, Ok;
    forall rest: seq<Key> ensures Run(g, a, (k + l) + rest) == Run(g, c, rest) {
      Associates(k, l, rest);
      assert Run(g, a, k + (l + rest)) == Run(g, b, l + rest);
    }
  }

  // A key without a loop of its own that reads nothing more.
  lemma {:induction false} LeadsByKey(g: Settings, st: State, c: Key, r: State)
    requires Ok(g.max, st) && c != -1 && c != TAB && c != ESC && c != CTRL_R && c != CTRL_V
    requires c != ENTER && c != CTRL_C && (c == CTRL_D ==> |st.line.text| > 0)
    requires Apply(g.max, st, c, []).0 == r
    ensures Leads(g, st, [c], r)
  {
    hide Run, Ok;
    ApplyOk(g.max, st, c, []);
    forall rest: seq<Key> ensures Run(g, st, [c] + rest) == Run(g, r, rest) {
      RunKey(g, st, c, rest);
      ReadsNothing(g.max, st, c, rest);
    }
  }

  lemma {:induction false} ReadsNothing(max: nat, st: State, c: Key, rest: seq<Key>)
    requires Ok(max, st) && c != CTRL_V
    ensures Apply(max, st, c, rest) == (Apply(max, st, c, []).0, rest)
  {
    hide Ok, Cut, CutRange, Yank, Navigate, EditLine;
  }

  lemma {:induction false} LineFacts(max: nat, st: State)
    requires Ok(max, st)
    ensures max >= 1 && st.line.pos <= |st.line.text| < max && ValidText(ByteBuild, st.line.text)
    ensures st.index < |st.hist|
  {
  }

  // ---------------------------------------------------------------------------
  // The cursor keys.

  lemma {:induction false} HomeKey(g: Settings, st: State, c: Key)
    requires Ok(g.max, st) && (c == Ctrl('A') || c == SPECIAL_HOME)
    ensures Leads(g, st, [c], st.(line := Line(st.line.text, 0)))
  {
    hide Ok, Leads;
    LeadsByKey(g, st, c, st.(line := Line(st.line.text, 0)));
  }

  lemma {:induction false} EndKey(g: Settings, st: State, c: Key)
    requires Ok(g.max, st) && (c == Ctrl('E') || c == SPECIAL_END)
    ensures Leads(g, st, [c], st.(line := Line(st.line.text, |st.line.text|)))
  {
    hide Ok, Leads;
    LeadsByKey(g, st, c, st.(line := Line(st.line.text, |st.line.text|)));
  }

  lemma {:induction false} LeftKey(g: Settings, st: State, c: Key)
    requires Ok(g.max, st) && (c == Ctrl('B') || c == SPECIAL_LEFT)
    ensures Leads(g, st, [c], st.(line := Line(st.line.text, if st.line.pos > 0 then st.line.pos - 1 else 0)))
  {
    hide Ok, Leads;
    LeadsByKey(g, st, c, st.(line := Line(st.line.text, if st.line.pos > 0 then st.line.pos - 1 else 0)));
  }

  lemma {:induction false} RightKey(g: Settings, st: State, c: Key)
    requires Ok(g.max, st) && (c == Ctrl('F') || c == SPECIAL_RIGHT)
    ensures var l := st.line;
      Leads(g, st, [c], st.(line := Line(l.text, if l.pos < |l.text| then l.pos + 1 else |l.text|)))
  {
    hide Ok, Leads;
    LineFacts(g.max, st);
    var l := st.line;
    LeadsByKey(g, st, c, st.(line := Line(l.text, if l.pos < |l.text| then l.pos + 1 else |l.text|)));
  }

  function Repeat(c: Key, n: nat): seq<Key> {
    if n == 0 then [] else [c] + Repeat(c, n - 1)
  }

  // `n` times to the left, as far as there is text.
  lemma {:induction false} LeftKeys(g: Settings, st: State, c: Key, n: nat)
    requires Ok(g.max, st) && (c == Ctrl('B') || c == SPECIAL_LEFT) && n <= st.line.pos
    ensures Leads(g, st, Repeat(c, n), st.(line := Line(st.line.text, st.line.pos - n)))
    decreases n
  {
    hide Ok, Leads;
    if n == 0 {
      LeadsNowhere(g, st);
    } else {
      var next := st.(line := Line(st.line.text, st.line.pos - 1));
      LeftKey(g, st, c);
      LeadsOk(g, st, [c], next);
      LeftKeys(g, next, c, n - 1);
      LeadsTransitive(g, st, [c], next, Repeat(c, n - 1), next.(line := Line(st.line.text, st.line.pos - n)));
    }
  }

  lemma {:induction false} LeadsOk(g: Settings, st: State, keys: seq<Key>, r: State)
    requires Ok(g.max, st) && Leads(g, st, keys, r)
    ensures Ok(g.max, r)
  {
  }

  // To the left and back again changes nothing, but at the start of the line; to the
  // right and back again nothing, but at its end.
  lemma {:induction false} LeftThenRight(g: Settings, st: State)
    requires Ok(g.max, st)
    ensures st.line.pos > 0 ==> Leads(g, st, [SPECIAL_LEFT] + [SPECIAL_RIGHT], st)
    ensures st.line.pos < |st.line.text| ==> Leads(g, st, [SPECIAL_RIGHT] + [SPECIAL_LEFT], st)
    ensures st.line.pos == 0 < |st.line.text| ==>
      Leads(g, st, [SPECIAL_LEFT] + [SPECIAL_RIGHT], st.(line := Line(st.line.text, 1)))
  {
    hide Ok, Leads;
    var l := st.line;
    LineFacts(g.max, st);
    var left := st.(line := Line(l.text, if l.pos > 0 then l.pos - 1 else 0));
    var right := st.(line := Line(l.text, if l.pos < |l.text| then l.pos + 1 else |l.text|));
    LeftKey(g, st, SPECIAL_LEFT);
    LeadsOk(g, st, [SPECIAL_LEFT], left);
    RightKey(g, left, SPECIAL_RIGHT);
    var leftRight := left.(line := Line(l.text, if left.line.pos < |l.text| then left.line.pos + 1 else |l.text|));
    LeadsTransitive(g, st, [SPECIAL_LEFT], left, [SPECIAL_RIGHT], leftRight);
    RightKey(g, st, SPECIAL_RIGHT);
    LeadsOk(g, st, [SPECIAL_RIGHT], right);
    LeftKey(g, right, SPECIAL_LEFT);
    var rightLeft := right.(line := Line(l.text, if right.line.pos > 0 then right.line.pos - 1 else 0));
    LeadsTransitive(g, st, [SPECIAL_RIGHT], right, [SPECIAL_LEFT], rightLeft);
    assert l.pos > 0 ==> leftRight == st;
    assert l.pos < |l.text| ==> rightLeft == st;
  }

  // ---------------------------------------------------------------------------
  // Typing and deleting.

  predicate Printable(s: seq<Code>) {
    forall i :: 0 <= i < |s| ==> ' ' as int <= s[i] < 256 && s[i] != BACKSPACE
  }

  // The keys of a text.
  function Keys(s: seq<Code>): (r: seq<Key>)
    requires Printable(s)
    ensures |r| == |s| && forall i :: 0 <= i < |s| ==> r[i] == s[i]
  {
    if s == [] then [] else [s[0]] + Keys(s[1..])
  }

  lemma {:induction false} CharKey(g: Settings, st: State, c: Key)
    requires Ok(g.max, st) && ' ' as int <= c && c != BACKSPACE
    ensures var l := st.line;
      if |l.text| < g.max - 2 then
        Leads(g, st, [c], st.(line := Line(l.text[..l.pos] + [c] + l.text[l.pos..], l.pos + 1)))
      else Leads(g, st, [c], st)
  {
    hide Ok, Leads, EncodeAll;
    LineFacts(g.max, st);
    var l := st.line;
    EncodeBytes(l.text);
    if |l.text| < g.max - 2 {
      LeadsByKey(g, st, c, st.(line := Line(l.text[..l.pos] + [c] + l.text[l.pos..], l.pos + 1)));
    } else {
      LeadsByKey(g, st, c, st);
    }
  }

  // Printable text goes in at the cursor, as long as it fits.
  lemma {:induction false} TypeText(g: Settings, st: State, s: seq<Code>)
    requires Ok(g.max, st) && Printable(s) && |st.line.text| + |s| <= g.max - 2
    ensures var l := st.line;
      Leads(g, st, Keys(s), st.(line := Line(l.text[..l.pos] + s + l.text[l.pos..], l.pos + |s|)))
    decreases |s|
  {
    hide Ok, Leads;
    LineFacts(g.max, st);
    var l := st.line;
    if s == [] {
      LeadsNowhere(g, st);
      assert l.text[..l.pos] + [] + l.text[l.pos..] == l.text;
    } else {
      var next := st.(line := Line(l.text[..l.pos] + [s[0]] + l.text[l.pos..], l.pos + 1));
      CharKey(g, st, s[0]);
      LeadsOk(g, st, [s[0]], next);
      TypeText(g, next, s[1..]);
      Typed(l.text, l.pos, s);
      LeadsTransitive(g, st, [s[0]], next, Keys(s[1..]),
        st.(line := Line(l.text[..l.pos] + s + l.text[l.pos..], l.pos + |s|)));
    }
  }

  lemma {:induction false} Typed(t: seq<Code>, p: nat, s: seq<Code>)
    requires p <= |t| && s != []
    ensures var next := t[..p] + [s[0]] + t[p..];
      next[..p + 1] + s[1..] + next[p + 1..] == t[..p] + s + t[p..]
  {
    var next := t[..p] + [s[0]] + t[p..];
    assert next[..p + 1] == t[..p] + [s[0]] && next[p + 1..] == t[p..];
    assert [s[0]] + s[1..] == s;
    Associates(t[..p], [s[0]], s[1..]);
  }

  lemma {:induction false} BackspaceKey(g: Settings, st: State, c: Key)
    requires Ok(g.max, st) && (c == BACKSPACE || c == Ctrl('H'))
    ensures var l := st.line;
      if l.pos > 0 then Leads(g, st, [c], st.(line := Line(l.text[..l.pos - 1] + l.text[l.pos..], l.pos - 1)))
      else Leads(g, st, [c], st)
  {
    hide Ok, Leads;
    LineFacts(g.max, st);
    var l := st.line;
    LeadsByKey(g, st, c,
      if l.pos > 0 then st.(line := Line(l.text[..l.pos - 1] + l.text[l.pos..], l.pos - 1)) else st);
  }

  // ^D deletes at the cursor too, but on an empty line it ends the session.
  lemma {:induction false} DeleteKey(g: Settings, st: State, c: Key)
    requires Ok(g.max, st) && (c == SPECIAL_DELETE || (c == Ctrl('D') && st.line.text != []))
    ensures var l := st.line;
      if l.pos < |l.text| then Leads(g, st, [c], st.(line := Line(l.text[..l.pos] + l.text[l.pos + 1..], l.pos)))
      else Leads(g, st, [c], st)
  {
    hide Ok, Leads;
    LineFacts(g.max, st);
    var l := st.line;
    LeadsByKey(g, st, c,
      if l.pos < |l.text| then st.(line := Line(l.text[..l.pos] + l.text[l.pos + 1..], l.pos)) else st);
  }

  // ^T swaps the characters around the cursor, or the last two.
  lemma {:induction false} TransposeKey(g: Settings, st: State)
    requires Ok(g.max, st)
    ensures var (t, p) := (st.line.text, st.line.pos);
      && (p == 0 ==> Leads(g, st, [Ctrl('T')], st))
      && (0 < p < |t| <= g.max - 2 ==>
            Leads(g, st, [Ctrl('T')], st.(line := Line(t[..p - 1] + [t[p]] + [t[p - 1]] + t[p + 1..], p + 1))))
      && (2 <= p == |t| <= g.max - 2 ==>
            Leads(g, st, [Ctrl('T')], st.(line := Line(t[..p - 2] + [t[p - 1]] + [t[p - 2]], p))))
  {
    hide Ok, Leads, Transpose, EncodeAll;
    LineFacts(g.max, st);
    var (t, p) := (st.line.text, st.line.pos);
    EncodeBytes(t);
    if p > 0 {
      TransposeIsSwap(ByteBuild, g.max, st.line);
      if 2 <= |t| <= g.max - 2 {
        assert 0 < p < |t| ==> Swapped(st.line).text == t[..p - 1] + [t[p]] + [t[p - 1]] + t[p + 1..];
        assert p == |t| ==> Swapped(st.line).text == t[..p - 2] + [t[p - 1]] + [t[p - 2]];
      }
    } else {
      NothingLeft(g.max, st.line);
    }
    LeadsByKey(g, st, Ctrl('T'), st.(line := Transpose(ByteBuild, g.max, st.line)));
  }

  lemma {:induction false} NothingLeft(max: nat, l: Line)
    requires l.pos == 0
    ensures Transpose(ByteBuild, max, l) == l
  {
  }

  // ---------------------------------------------------------------------------
  // Cutting and yanking.

  // What a cut leaves in the cut buffer: cutting nothing leaves it as it was.
  function Kept(kill: Option<seq<Code>>, cut: seq<Code>): Option<seq<Code>> {
    if cut == [] then kill else Some(cut)
  }

  lemma {:induction false} CutToStart(g: Settings, st: State)
    requires Ok(g.max, st)
    ensures var (t, p) := (st.line.text, st.line.pos);
      Leads(g, st, [Ctrl('U')], st.(line := Line(t[p..], 0), kill := Kept(st.kill, t[..p])))
  {
    hide Ok, Leads, RemoveMany;
    LineFacts(g.max, st);
    var (t, p) := (st.line.text, st.line.pos);
    RemoveManyIsCut(st.line, 0, p);
    assert t[..0] + t[0 + p..] == t[p..] && t[0..p] == t[..p];
    LeadsByKey(g, st, Ctrl('U'), st.(line := Line(t[p..], 0), kill := Kept(st.kill, t[..p])));
  }

  lemma {:induction false} CutToEnd(g: Settings, st: State)
    requires Ok(g.max, st)
    ensures var (t, p) := (st.line.text, st.line.pos);
      Leads(g, st, [Ctrl('K')], st.(line := Line(t[..p], p), kill := Kept(st.kill, t[p..])))
  {
    hide Ok, Leads, RemoveMany;
    LineFacts(g.max, st);
    var (t, p) := (st.line.text, st.line.pos);
    RemoveManyIsCut(st.line, p, |t| - p);
    assert t[..p] + t[p + (|t| - p)..] == t[..p] && t[p..p + (|t| - p)] == t[p..];
    LeadsByKey(g, st, Ctrl('K'), st.(line := Line(t[..p], p), kill := Kept(st.kill, t[p..])));
  }

  // Character `mid` on is the run of blanks in front of `p`, and `from` to `mid` the
  // whole word in front of them.
  predicate WordInFront(t: seq<Code>, from: nat, mid: nat, p: nat) {
    && from <= mid <= p <= |t|
    && (forall i :: mid <= i < p ==> t[i] == SPACE)
    && (forall i :: from <= i < mid ==> t[i] != SPACE)
    && (from > 0 ==> t[from - 1] == SPACE)
    && (from == mid ==> mid == 0)
  }

  lemma {:induction false} CutWord(g: Settings, st: State, from: nat, mid: nat)
    requires Ok(g.max, st) && WordInFront(st.line.text, from, mid, st.line.pos)
    ensures var (t, p) := (st.line.text, st.line.pos);
      Leads(g, st, [Ctrl('W')], st.(line := Line(t[..from] + t[p..], from), kill := Kept(st.kill, t[from..p])))
  {
    hide Ok, Leads, RemoveMany, BlanksStart, NonBlanksStart;
    LineFacts(g.max, st);
    var (t, p) := (st.line.text, st.line.pos);
    BlanksStartIs(t, mid, p);
    NonBlanksStartIs(t, from, mid);
    RemoveManyIsCut(st.line, from, p - from);
    assert from + (p - from) == p;
    LeadsByKey(g, st, Ctrl('W'),
      st.(line := Line(t[..from] + t[p..], from), kill := Kept(st.kill, t[from..p])));
  }

  lemma {:induction false} BlanksStartIs(t: seq<Code>, mid: nat, p: nat)
    requires mid <= p <= |t| && (forall i :: mid <= i < p ==> t[i] == SPACE) && (mid > 0 ==> t[mid - 1] != SPACE)
    ensures BlanksStart(t, p) == mid
  {
    if p > mid {
      BlanksStartIs(t, mid, p - 1);
    }
  }

  lemma {:induction false} NonBlanksStartIs(t: seq<Code>, from: nat, mid: nat)
    requires from <= mid <= |t| && (forall i :: from <= i < mid ==> t[i] != SPACE)
    requires from > 0 ==> t[from - 1] == SPACE
    ensures NonBlanksStart(t, mid) == from
  {
    if mid > from {
      NonBlanksStartIs(t, from, mid - 1);
    }
  }

  // As much of the cut buffer as leaves a byte to spare goes in at the cursor.
  lemma {:induction false} YankKey(g: Settings, st: State)
    requires Ok(g.max, st)
    ensures st.kill.None? ==> Leads(g, st, [Ctrl('Y')], st)
    ensures st.kill.Some? ==>
      var (t, p) := (st.line.text, st.line.pos);
      var k := CStr(st.kill.value);
      var room := if |t| <= g.max - 2 then g.max - 2 - |t| else 0;
      var s := if |k| <= room then k else k[..room];
      Leads(g, st, [Ctrl('Y')], st.(line := Line(t[..p] + s + t[p..], p + |s|)))
  {
    hide Ok, Leads, InsertMany, CStr, EncodeAll;
    LineFacts(g.max, st);
    var (t, p) := (st.line.text, st.line.pos);
    if st.kill.Some? {
      var k := CStr(st.kill.value);
      KillFacts(g.max, st);
      EncodeBytes(t);
      InsertManyIsSplice(ByteBuild, g.max, st.line, p, k);
      AcceptedBytes(g.max, |t|, k);
      assert k[..|k|] == k;
      var s := k[..Accepted(ByteBuild, g.max, |t|, k)];
      LeadsByKey(g, st, Ctrl('Y'), st.(line := Line(t[..p] + s + t[p..], p + |s|)));
    } else {
      LeadsByKey(g, st, Ctrl('Y'), st);
    }
  }

  lemma {:induction false} KillFacts(max: nat, st: State)
    requires Ok(max, st) && st.kill.Some?
    ensures ValidText(ByteBuild, CStr(st.kill.value))
  {
  }

  lemma {:induction false} AcceptedBytes(max: nat, used: nat, s: seq<Code>)
    ensures var room := if used <= max - 2 then max - 2 - used else 0;
      Accepted(ByteBuild, max, used, s) == if |s| <= room then |s| else room
    decreases |s|
  {
    if s != [] {
      AcceptedBytes(max, used + 1, s[1..]);
    }
  }

  // ---------------------------------------------------------------------------
  // ^V, escape, and the keys that do nothing.

  // The key behind ^V goes in as it is; without room for three bytes ^V is ignored.
  lemma {:induction false} QuoteKey(g: Settings, st: State, c: Key)
    requires Ok(g.max, st)
    ensures var (t, p) := (st.line.text, st.line.pos);
      if |t| + 3 < g.max - 1 then
        Leads(g, st, [Ctrl('V')] + [c],
          if c == -1 then st else st.(line := Line(t[..p] + [c % 256] + t[p..], p + 1)))
      else Leads(g, st, [Ctrl('V')], st)
  {
    hide Ok, EncodeAll, Run, Act;
    LineFacts(g.max, st);
    EncodeBytes(st.line.text);
    var (t, p) := (st.line.text, st.line.pos);
    ApplyOk(g.max, st, CTRL_V, [c]);
    if |t| + 3 < g.max - 1 {
      var r := if c == -1 then st else st.(line := Line(t[..p] + [c % 256] + t[p..], p + 1));
      forall rest: seq<Key> ensures Run(g, st, ([Ctrl('V')] + [c]) + rest) == Run(g, r, rest) {
        Associates([Ctrl('V')], [c], rest);
        RunKey(g, st, CTRL_V, [c] + rest);
        QuoteReads(g.max, st, c, rest);
      }
    } else {
      forall rest: seq<Key> ensures Run(g, st, [Ctrl('V')] + rest) == Run(g, st, rest) {
        RunKey(g, st, CTRL_V, rest);
        QuoteIgnored(g.max, st, rest);
      }
    }
  }

  lemma {:induction false} QuoteReads(max: nat, st: State, c: Key, rest: seq<Key>)
    requires Ok(max, st) && |st.line.text| + 3 < max - 1
    ensures var (t, p) := (st.line.text, st.line.pos);
      var r := if c == -1 then st else st.(line := Line(t[..p] + [c % 256] + t[p..], p + 1));
      Act(max, st, CTRL_V, [c] + rest) == More(r, rest) && Apply(max, st, CTRL_V, [c]).0 == r
  {
    hide Ok, EncodeAll;
    LineFacts(max, st);
    EncodeBytes(st.line.text);
    assert ([c] + rest)[1..] == rest && [c][1..] == [];
  }

  lemma {:induction false} QuoteIgnored(max: nat, st: State, rest: seq<Key>)
    requires Ok(max, st) && |st.line.text| + 3 >= max - 1
    ensures Act(max, st, CTRL_V, rest) == More(st, rest)
  {
    hide Ok, EncodeAll;
    LineFacts(max, st);
    EncodeBytes(st.line.text);
  }

  // What check_special makes of an escape sequence is a key like any other.
  lemma {:induction false} EscapeSequence(g: Settings, st: State, k: Key, rest: seq<Key>)
    requires Ok(g.max, st) && k != -1 && k != TAB && k != ESC
    ensures Run(g, st, [Ctrl('[')] + ([k] + rest)) == Run(g, st, [k] + rest)
  {
    hide Ok, Act, Search;
    assert ([ESC] + ([k] + rest))[1..] == [k] + rest;
    assert ([k] + rest)[1..] == rest;
  }

  // All other keys below the blank.
  predicate Idle(c: Key) {
    && c < ' ' as int && c != -1
    && c !in [Ctrl('A'), Ctrl('B'), Ctrl('C'), Ctrl('D'), Ctrl('E'), Ctrl('F'), Ctrl('H'), Ctrl('I'), Ctrl('K')]
    && c !in [Ctrl('M'), Ctrl('N'), Ctrl('P'), Ctrl('R'), Ctrl('T'), Ctrl('U'), Ctrl('V'), Ctrl('W'), Ctrl('Y')]
    && c != Ctrl('[')
    && c !in [SPECIAL_UP, SPECIAL_DOWN, SPECIAL_LEFT, SPECIAL_RIGHT, SPECIAL_DELETE, SPECIAL_HOME, SPECIAL_END]
    && c !in [SPECIAL_PAGE_UP, SPECIAL_PAGE_DOWN]
  }

  lemma {:induction false} IdleKey(g: Settings, st: State, c: Key)
    requires Ok(g.max, st) && Idle(c)
    ensures Leads(g, st, [c], st)
  {
    hide Ok, Leads;
    LeadsByKey(g, st, c, st);
  }

  // ---------------------------------------------------------------------------
  // Tab.

  function WithTab(max: nat, st: State): State
    requires Ok(max, st)
  {
    var (t, p) := (st.line.text, st.line.pos);
    if |t| < max - 2 then st.(line := Line(t[..p] + [Ctrl('I')] + t[p..], p + 1)) else st
  }

  // Away from the end of the line, or with nothing to complete it, a tab is typed.
  lemma {:induction false} TabTyped(g: Settings, st: State)
    requires Ok(g.max, st) && (st.line.pos < |st.line.text| || g.complete.None?)
    ensures Leads(g, st, [Ctrl('I')], WithTab(g.max, st))
  {
    hide Ok, EncodeAll, Run, Act;
    LineFacts(g.max, st);
    var r := WithTab(g.max, st);
    ApplyOk(g.max, st, TAB, []);
    TabActs(g.max, st, []);
    forall rest: seq<Key> ensures Run(g, st, [TAB] + rest) == Run(g, r, rest) {
      RunTab(g, st, rest);
      TabActs(g.max, st, rest);
    }
  }

  lemma {:induction false} RunTab(g: Settings, st: State, rest: seq<Key>)
    requires Ok(g.max, st) && (st.line.pos < |st.line.text| || g.complete.None?)
    ensures var s := Act(g.max, st, TAB, rest);
      s.More? && Ok(g.max, s.st) && Run(g, st, [TAB] + rest) == Run(g, s.st, s.rest)
  {
    hide Act, Ok;
    assert ([TAB] + rest)[1..] == rest;
    TabActs(g.max, st, rest);
    ActOk(g.max, st, TAB, rest);
  }

  lemma {:induction false} TabActs(max: nat, st: State, rest: seq<Key>)
    requires Ok(max, st)
    ensures Act(max, st, TAB, rest) == More(WithTab(max, st), rest)
    ensures Apply(max, st, TAB, rest).0 == WithTab(max, st)
  {
    hide Ok, EncodeAll;
    LineFacts(max, st);
    EncodeBytes(st.line.text);
  }

  // At the end of the line the completer is asked for the line; if it has nothing to
  // offer, the tab is gone.
  lemma {:induction false} TabDropped(g: Settings, st: State)
    requires Ok(g.max, st) && g.complete.Some? && st.line.pos == |st.line.text|
    requires g.complete.value(CStr(st.line.text)) == []
    ensures Leads(g, st, [Ctrl('I')], st)
  {
    hide Ok, Process;
    forall rest: seq<Key> ensures Run(g, st, [TAB] + rest) == Run(g, st, rest) {
      assert ([TAB] + rest)[1..] == rest;
    }
  }

  // Otherwise `n` more tabs offer the next ones in turn, the line itself behind the
  // last, and the key that follows takes what is offered and then does what it does.
  // Escape does not take it.
  lemma {:induction false} TabCompletes(g: Settings, st: State, n: nat, c: Key, rest: seq<Key>)
    requires Ok(g.max, st) && g.complete.Some? && st.line.pos == |st.line.text|
    requires g.complete.value(CStr(st.line.text)) != [] && c > 0 && c != TAB
    ensures var comps := g.complete.value(CStr(st.line.text));
      var offered := n % (|comps| + 1);
      var l := if c != ESC && offered < |comps| then Whole(Fitting(g.max, comps[offered])) else st.line;
      && Ok(g.max, st.(line := l))
      && Run(g, st, [Ctrl('I')] + (Tabs(n) + [c] + rest)) == Run(g, st.(line := l), [c] + rest)
  {
    hide Ok, Process, Complete, LineOk;
    LineFacts(g.max, st);
    var comps := g.complete.value(CStr(st.line.text));
    var keys := Tabs(n) + [c] + rest;
    assert ([TAB] + keys)[1..] == keys;
    TabCycles(g.max, st.line, comps, 0, n, c, rest);
    assert 0 + n == n;
    CompletedOk(g.max, st, comps, keys);
    assert ([c] + rest)[1..] == rest;
  }

  lemma {:induction false} CompletedOk(max: nat, st: State, comps: seq<seq<byte>>, keys: seq<Key>)
    requires Ok(max, st)
    ensures Ok(max, st.(line := Complete(max, st.line, comps, 0, keys).line))
  {
    CompleteOk(max, st.line, comps, 0, keys);
  }

  // ---------------------------------------------------------------------------
  // The ends of a session.

  lemma {:induction false} SessionEnds(g: Settings, st: State, rest: seq<Key>)
    requires Ok(g.max, st)
    ensures st.hist != []
    ensures Run(g, st, [Ctrl('M')] + rest) == Done(Entered, st.(hist := st.hist[..|st.hist| - 1]), rest)
    ensures Run(g, st, [Ctrl('C')] + rest) == Done(Interrupted, st, rest)
    ensures st.line.text == [] ==>
      Run(g, st, [Ctrl('D')] + rest) == Done(EndOfFile, st.(hist := st.hist[..|st.hist| - 1]), rest)
    ensures Run(g, st, [-1] + rest) == Done(ReadFailed, st, rest)
  {
    hide Run, Ok, Apply;
    LineFacts(g.max, st);
    RunKey(g, st, Ctrl('M'), rest);
    RunKey(g, st, Ctrl('C'), rest);
    RunKey(g, st, Ctrl('D'), rest);
    ReadFails(g, st, rest);
  }

  lemma {:induction false} ReadFails(g: Settings, st: State, rest: seq<Key>)
    requires Ok(g.max, st)
    ensures Run(g, st, [-1] + rest) == Done(ReadFailed, st, rest)
  {
    hide Ok;
    assert ([-1] + rest)[1..] == rest;
  }

  // ---------------------------------------------------------------------------
  // Lines typed with the cursor moved in between.

  function Fresh(g: Settings, maxLines: int, hist: seq<seq<Code>>): (st: State)
    requires g.max >= 1 && maxLines >= 1 && HistoryOk(g.max, hist)
    ensures Ok(g.max, st) && st.line == Line([], 0)
  {
    StartOk(g.max, maxLines, hist);
    Start(maxLines, hist)
  }

  // The line a session returns, if Enter ends it.
  function Entry(g: Settings, maxLines: int, hist: seq<seq<Code>>, keys: seq<Key>): Option<seq<Code>>
    requires g.max >= 1 && maxLines >= 1 && HistoryOk(g.max, hist)
  {
    var r := Run(g, Fresh(g, maxLines, hist), keys);
    if r.outcome == Entered then Some(r.st.line.text) else None
  }

  lemma {:induction false} EntryOf(g: Settings, maxLines: int, hist: seq<seq<Code>>, keys: seq<Key>, r: State)
    requires g.max >= 1 && maxLines >= 1 && HistoryOk(g.max, hist)
    requires Leads(g, Fresh(g, maxLines, hist), keys, r)
    ensures Entry(g, maxLines, hist, keys + [ENTER]) == Some(r.line.text)
  {
    hide Run, Ok, Fresh, HistoryOk;
    LeadsOn(g, Fresh(g, maxLines, hist), keys, r, [ENTER]);
    SessionEnds(g, r, []);
    assert [ENTER] + [] == [ENTER];
  }

  // A fresh session once its line is `t` with the cursor at `p`.
  function Edited(g: Settings, maxLines: int, hist: seq<seq<Code>>, t: seq<Code>, p: nat): State
    requires g.max >= 1 && maxLines >= 1 && HistoryOk(g.max, hist)
  {
    Fresh(g, maxLines, hist).(line := Line(t, p))
  }

  lemma {:induction false} TypeFirst(g: Settings, maxLines: int, hist: seq<seq<Code>>, s: seq<Code>)
    requires g.max >= 1 && maxLines >= 1 && HistoryOk(g.max, hist) && Printable(s) && |s| <= g.max - 2
    ensures Leads(g, Fresh(g, maxLines, hist), Keys(s), Edited(g, maxLines, hist, s, |s|))
    ensures Ok(g.max, Edited(g, maxLines, hist, s, |s|))
  {
    hide Leads, Ok, Fresh, HistoryOk, Keys, Printable;
    var st := Fresh(g, maxLines, hist);
    TypeText(g, st, s);
    assert [] + s + [] == s;
    LeadsOk(g, st, Keys(s), Edited(g, maxLines, hist, s, |s|));
  }

  // More keys that lead to another cursor, then more text, then Enter.
  lemma {:induction false} TypeMore(g: Settings, maxLines: int, hist: seq<seq<Code>>, s: seq<Code>, keys: seq<Key>,
      p: nat, u: seq<Code>)
    requires g.max >= 1 && maxLines >= 1 && HistoryOk(g.max, hist)
    requires Printable(s) && Printable(u) && |s| + |u| <= g.max - 2 && p <= |s|
    requires Ok(g.max, Edited(g, maxLines, hist, s, |s|))
    requires Leads(g, Edited(g, maxLines, hist, s, |s|), keys, Edited(g, maxLines, hist, s, p))
    ensures Entry(g, maxLines, hist, Keys(s) + keys + Keys(u) + [ENTER]) == Some(s[..p] + u + s[p..])
  {
    hide Leads, Entry, Ok, Fresh, HistoryOk, Keys, Printable;
    var st, typed := Fresh(g, maxLines, hist), Edited(g, maxLines, hist, s, |s|);
    var moved, r := Edited(g, maxLines, hist, s, p), Edited(g, maxLines, hist, s[..p] + u + s[p..], p + |u|);
    TypeFirst(g, maxLines, hist, s);
    LeadsTransitive(g, st, Keys(s), typed, keys, moved);
    LeadsOk(g, typed, keys, moved);
    TypeText(g, moved, u);
    LeadsTransitive(g, st, Keys(s) + keys, moved, Keys(u), r);
    EntryOf(g, maxLines, hist, Keys(s) + keys + Keys(u), r);
  }

  // What is typed is returned.
  lemma {:induction false} TypedLine(g: Settings, maxLines: int, hist: seq<seq<Code>>, s: seq<Code>)
    requires g.max >= 1 && maxLines >= 1 && HistoryOk(g.max, hist)
    requires Printable(s) && |s| <= g.max - 2
    ensures Entry(g, maxLines, hist, Keys(s) + [ENTER]) == Some(s)
  {
    hide Leads, Entry, Ok, Fresh, HistoryOk;
    TypeFirst(g, maxLines, hist, s);
    EntryOf(g, maxLines, hist, Keys(s), Edited(g, maxLines, hist, s, |s|));
  }

  // Home puts what is typed next in front, End behind.
  lemma {:induction false} TypedAtHome(g: Settings, maxLines: int, hist: seq<seq<Code>>, s: seq<Code>, home: Key,
      u: seq<Code>)
    requires g.max >= 1 && maxLines >= 1 && HistoryOk(g.max, hist) && (home == Ctrl('A') || home == SPECIAL_HOME)
    requires Printable(s) && Printable(u) && |s| + |u| <= g.max - 2
    ensures Entry(g, maxLines, hist, Keys(s) + [home] + Keys(u) + [ENTER]) == Some(u + s)
  {
    hide Leads, Entry, Ok, Fresh, HistoryOk, Keys, Printable;
    TypeFirst(g, maxLines, hist, s);
    HomeKey(g, Edited(g, maxLines, hist, s, |s|), home);
    TypeMore(g, maxLines, hist, s, [home], 0, u);
    assert s[..0] + u + s[0..] == u + s;
  }

  lemma {:induction false} TypedAtEnd(g: Settings, maxLines: int, hist: seq<seq<Code>>, s: seq<Code>, end: Key,
      u: seq<Code>)
    requires g.max >= 1 && maxLines >= 1 && HistoryOk(g.max, hist) && (end == Ctrl('E') || end == SPECIAL_END)
    requires Printable(s) && Printable(u) && |s| + |u| <= g.max - 2
    ensures Entry(g, maxLines, hist, Keys(s) + ([SPECIAL_HOME] + [end]) + Keys(u) + [ENTER]) == Some(s + u)
  {
    hide Leads, Entry, Ok, Fresh, HistoryOk, Keys, Printable;
    var typed, moved := Edited(g, maxLines, hist, s, |s|), Edited(g, maxLines, hist, s, 0);
    TypeFirst(g, maxLines, hist, s);
    HomeKey(g, typed, SPECIAL_HOME);
    LeadsOk(g, typed, [SPECIAL_HOME], moved);
    EndKey(g, moved, end);
    LeadsTransitive(g, typed, [SPECIAL_HOME], moved, [end], typed);
    TypeMore(g, maxLines, hist, s, [SPECIAL_HOME] + [end], |s|, u);
    assert s[..|s|] + u + s[|s|..] == s + u;
  }

  // `n` times Left puts it in front of the last `n` characters.
  lemma {:induction false} TypedInside(g: Settings, maxLines: int, hist: seq<seq<Code>>, s: seq<Code>, left: Key,
      n: nat, u: seq<Code>)
    requires g.max >= 1 && maxLines >= 1 && HistoryOk(g.max, hist) && (left == Ctrl('B') || left == SPECIAL_LEFT)
    requires Printable(s) && Printable(u) && |s| + |u| <= g.max - 2 && n <= |s|
    ensures Entry(g, maxLines, hist, Keys(s) + Repeat(left, n) + Keys(u) + [ENTER]) ==
      Some(s[..|s| - n] + u + s[|s| - n..])
  {
    hide Leads, Entry, Ok, Fresh, HistoryOk, Keys, Printable, Repeat;
    TypeFirst(g, maxLines, hist, s);
    LeftKeys(g, Edited(g, maxLines, hist, s, |s|), left, n);
    TypeMore(g, maxLines, hist, s, Repeat(left, n), |s| - n, u);
  }

  // A new session has nothing to yank, and shows nothing.
  lemma {:induction false} NothingToYank(g: Settings, maxLines: int, hist: seq<seq<Code>>)
    requires g.max >= 1 && maxLines >= 1 && HistoryOk(g.max, hist)
    ensures Entry(g, maxLines, hist, [Ctrl('Y')] + [ENTER]) == Some([])
  {
    hide Leads, Entry, Ok, HistoryOk;
    var st := Fresh(g, maxLines, hist);
    YankKey(g, st);
    EntryOf(g, maxLines, hist, [Ctrl('Y')], st);
  }
}
