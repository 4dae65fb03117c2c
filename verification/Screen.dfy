// refreshLine of linenoise.c: how the line is drawn on a row of `cols` columns.
module Screen {
  import opened Bytes
  import opened Codec
  import opened Text
  import L = Line
  import LineBuffer

  // ---------------------------------------------------------------------------
  // A terminal row: what stands in its columns, and the cursor.

  datatype Row = Row(cells: seq<Code>, column: nat)

  // What linenoise writes to it.
  datatype Op =
    | CursorToLeft
    | Prompt(shown: seq<Code>)
    | Chars(bytes: seq<byte>)
    | ControlChar(ch: int)
    | EraseEol
    | SetCursor(x: nat)

  // The characters a terminal makes of the bytes sent to it.
  function Glyphs(b: Build, m: seq<byte>): seq<Code>
    decreases |m|
  {
    if m == [] then []
    else
      var (c, n) := Decode(b, m, 0);
      [c] + if n <= |m| then Glyphs(b, m[n..]) else []
  }

  function Padded(cells: seq<Code>, n: nat): (r: seq<Code>)
    ensures |r| >= n && cells <= r
    ensures n <= |cells| ==> r == cells
    decreases n
  {
    if n <= |cells| then cells else Padded(cells, n - 1) + [SPACE]
  }

  function Write(row: Row, g: seq<Code>): Row {
    var cells := Padded(row.cells, row.column);
    var end := row.column + |g|;
    Row(cells[..row.column] + g + if end <= |cells| then cells[end..] else [], end)
  }

  function Apply(b: Build, row: Row, op: Op): Row {
    match op
    case CursorToLeft => row.(column := 0)
    case Prompt(shown) => Write(row, shown)
    case Chars(bytes) => Write(row, Glyphs(b, bytes))
    case ControlChar(ch) => Write(row, ['^' as int, Narrow(b, ch)])
    case EraseEol => if row.column <= |row.cells| then row.(cells := row.cells[..row.column]) else row
    case SetCursor(x) => row.(column := x)
  }

  function After(b: Build, row: Row, ops: seq<Op>): Row
    decreases |ops|
  {
    if ops == [] then row else Apply(b, After(b, row, ops[..|ops| - 1]), ops[|ops| - 1])
  }

  // ---------------------------------------------------------------------------
  // The picture of a line.

  predicate Control(c: Code) {
    c < ' ' as int
  }

  // ^X for a control character, the character itself otherwise.
  function Display(t: seq<Code>): seq<Code> {
    if t == [] then []
    else (if Control(t[0]) then ['^' as int, t[0] + '@' as int] else [t[0]]) + Display(t[1..])
  }

  function Width(t: seq<Code>): nat {
    |Display(t)|
  }

  // The columns demanded before anything is scrolled off: the prompt, one for
  // each character, and one more for each control character up to the cursor.
  function Demand(prompt: nat, t: seq<Code>, pos: nat): nat
    requires pos <= |t|
  {
    prompt + Width(t[..pos]) + (|t| - pos) + if pos < |t| && Control(t[pos]) then 1 else 0
  }

  // How many characters are scrolled off on the left.
  function Scrolled(prompt: nat, t: seq<Code>, pos: nat, cols: int): (k: nat)
    requires pos <= |t|
    ensures k <= pos
    decreases pos
  {
    if Demand(prompt, t, pos) >= cols && pos > 0 then 1 + Scrolled(prompt, t[1..], pos - 1, cols) else 0
  }

  // How many characters are drawn: as many as have all their columns on screen.
  function Drawn(prompt: nat, t: seq<Code>, cols: int): (n: nat)
    ensures n <= |t|
    decreases |t|
  {
    if t == [] || prompt + Width(t[..1]) > cols then 0
    else 1 + Drawn(prompt + Width(t[..1]), t[1..], cols)
  }

  function Picture(shown: seq<Code>, t: seq<Code>, pos: nat, cols: int): Row
    requires pos <= |t|
  {
    var k := Scrolled(|shown|, t, pos, cols);
    var rest := t[k..];
    Row(shown + Display(rest[..Drawn(|shown|, rest, cols)]), |shown| + Width(t[k..pos]))
  }

  // ---------------------------------------------------------------------------

  lemma {:induction false} DisplayConcat(s: seq<Code>, t: seq<Code>)
    ensures Display(s + t) == Display(s) + Display(t)
    decreases |s|
  {
    if s == [] {
      assert s + t == t;
    } else {
      assert (s + t)[1..] == s[1..] + t;
      DisplayConcat(s[1..], t);
    }
  }

  lemma {:induction false} WidthBounds(t: seq<Code>)
    ensures |t| <= Width(t) <= 2 * |t|
  {
    if t != [] {
      WidthBounds(t[1..]);
    }
  }

  lemma DisplayCut(t: seq<Code>, i: nat)
    requires i <= |t|
    ensures Display(t) == Display(t[..i]) + Display(t[i..])
  {
    hide Display;
    DisplayConcat(t[..i], t[i..]);
    assert t[..i] + t[i..] == t;
  }

  lemma WidthGrows(t: seq<Code>, i: nat, j: nat)
    requires i <= j <= |t|
    ensures Width(t[..i]) <= Width(t[..j])
  {
    DisplayCut(t[..j], i);
    assert t[..j][..i] == t[..i];
  }

  // Scrolling off one character frees its columns.
  lemma DemandStep(prompt: nat, t: seq<Code>, pos: nat)
    requires 0 < pos <= |t|
    ensures Demand(prompt, t[1..], pos - 1) == Demand(prompt, t, pos) - Width(t[..1])
  {
    DisplayCut(t[..pos], 1);
    assert t[..pos][..1] == t[..1] && t[..pos][1..] == t[1..][..pos - 1];
    assert pos < |t| ==> t[1..][pos - 1] == t[pos];
  }

  // What scrolling achieves: everything demanded fits, or the cursor is at the
  // left end; and it stops as soon as that is so.
  lemma {:induction false} ScrolledFits(prompt: nat, t: seq<Code>, pos: nat, cols: int)
    requires pos <= |t|
    ensures var k := Scrolled(prompt, t, pos, cols);
      && (k == pos || Demand(prompt, t[k..], pos - k) < cols)
      && (forall j :: 0 <= j < k ==> Demand(prompt, t[j..], pos - j) >= cols)
    decreases pos
  {
    hide Demand, Display;
    assert t[0..] == t;
    if Demand(prompt, t, pos) >= cols && pos > 0 {
      ScrolledFits(prompt, t[1..], pos - 1, cols);
      var k := Scrolled(prompt, t[1..], pos - 1, cols);
      assert t[1..][k..] == t[k + 1..];
      forall j | 0 <= j < k + 1 ensures Demand(prompt, t[j..], pos - j) >= cols {
        if j > 0 {
          assert t[1..][j - 1..] == t[j..];
        }
      }
    }
  }

  lemma {:induction false} DrawnFits(prompt: nat, t: seq<Code>, cols: int)
    requires prompt <= cols
    ensures var n := Drawn(prompt, t, cols);
      && prompt + Width(t[..n]) <= cols
      && (n < |t| ==> prompt + Width(t[..n + 1]) > cols)
    decreases |t|
  {
    if t == [] || prompt + Width(t[..1]) > cols {
      assert t[..0] == [];
    } else {
      DrawnFits(prompt + Width(t[..1]), t[1..], cols);
      var n := Drawn(prompt + Width(t[..1]), t[1..], cols);
      DisplayCut(t[..n + 1], 1);
      assert t[..n + 1][..1] == t[..1] && t[..n + 1][1..] == t[1..][..n];
      if n + 1 < |t| {
        DisplayCut(t[..n + 2], 1);
        assert t[..n + 2][..1] == t[..1] && t[..n + 2][1..] == t[1..][..n + 1];
      }
    }
  }

  lemma ScrolledNothing(prompt: nat, t: seq<Code>, pos: nat, cols: int)
    requires pos <= |t| && Demand(prompt, t, pos) < cols
    ensures Scrolled(prompt, t, pos, cols) == 0
  {
  }

  // The picture never reaches past the last column, the cursor is on screen, and
  // the cells in front of it show exactly the unscrolled text left of it.
  lemma PictureFits(shown: seq<Code>, t: seq<Code>, pos: nat, cols: int)
    requires pos <= |t| && |shown| < cols
    ensures var p := Picture(shown, t, pos, cols);
      var k := Scrolled(|shown|, t, pos, cols);
      && |p.cells| <= cols && p.column < cols && p.column <= |p.cells|
      && p.cells[..p.column] == shown + Display(t[k..pos])
      && (Demand(|shown|, t, pos) < cols ==> k == 0)
  {
    hide Display, Scrolled, Drawn, Demand;
    if Demand(|shown|, t, pos) < cols {
      ScrolledNothing(|shown|, t, pos, cols);
    }
    var p := Picture(shown, t, pos, cols);
    var k := Scrolled(|shown|, t, pos, cols);
    var rest := t[k..];
    var n := Drawn(|shown|, rest, cols);
    ScrolledFits(|shown|, t, pos, cols);
    DrawnFits(|shown|, rest, cols);
    assert rest[..pos - k] == t[k..pos];
    LeftOfCursorDrawn(|shown|, rest, pos - k, cols);
    DisplayCut(rest[..n], pos - k);
    assert rest[..n][..pos - k] == t[k..pos];
  }

  lemma LeftOfCursorDrawn(prompt: nat, rest: seq<Code>, pos: nat, cols: int)
    requires pos <= |rest| && prompt < cols
    requires pos == 0 || Demand(prompt, rest, pos) < cols
    ensures pos <= Drawn(prompt, rest, cols)
    ensures prompt + Width(rest[..pos]) < cols
  {
    var n := Drawn(prompt, rest, cols);
    DrawnFits(prompt, rest, cols);
    assert rest[..0] == [];
    if n < pos {
      WidthGrows(rest, n + 1, pos);
    }
  }

  // ---------------------------------------------------------------------------
  // The whole row, in terms of the text: characters `k` to `n` are on it.

  // The columns needed when nothing in front of character `j` is shown.
  function Needed(prompt: nat, t: seq<Code>, pos: nat, j: nat): nat
    requires j <= pos <= |t|
  {
    prompt + Width(t[j..pos]) + (|t| - pos) + if pos < |t| && t[pos] < ' ' as int then 1 else 0
  }

  predicate ShowsFrom(row: Row, shown: seq<Code>, t: seq<Code>, pos: nat, cols: int, k: nat, n: nat) {
    && k <= pos <= n <= |t|
    && row.cells == shown + Display(t[k..n])
    && row.column == |shown| + Width(t[k..pos])
    && (n == |t| || |shown| + Width(t[k..n + 1]) > cols)
    && (k == pos || Needed(|shown|, t, pos, k) < cols)
    && forall j :: 0 <= j < k ==> Needed(|shown|, t, pos, j) >= cols
  }

  ghost predicate Shows(row: Row, shown: seq<Code>, t: seq<Code>, pos: nat, cols: int) {
    exists k, n :: ShowsFrom(row, shown, t, pos, cols, k, n)
  }

  // A control character is shown as a caret and the key that makes it with Ctrl.
  lemma {:induction false} ControlShown(c: char)
    requires '@' <= c <= '_'
    ensures Display([c as int - '@' as int]) == ['^' as int, c as int]
  {
    DisplayOne(c as int - '@' as int);
  }

  lemma {:induction false} PictureShows(shown: seq<Code>, t: seq<Code>, pos: nat, cols: int)
    requires pos <= |t|
    ensures Shows(Picture(shown, t, pos, cols), shown, t, pos, cols)
  {
    hide Display, Scrolled, Drawn, Demand, Width;
    var k := Scrolled(|shown|, t, pos, cols);
    var rest := t[k..];
    var m := Drawn(|shown|, rest, cols);
    ScrolledFits(|shown|, t, pos, cols);
    LeftOfCursor(|shown|, t, pos, cols);
    DrawnMost(|shown|, rest, cols);
    assert rest[..m] == t[k..k + m];
    assert m < |rest| ==> rest[..m + 1] == t[k..k + m + 1];
    forall j | 0 <= j <= pos ensures Demand(|shown|, t[j..], pos - j) == Needed(|shown|, t, pos, j) {
      DemandIsNeeded(|shown|, t, pos, j);
    }
    assert ShowsFrom(Picture(shown, t, pos, cols), shown, t, pos, cols, k, k + m);
  }

  lemma {:induction false} DemandIsNeeded(prompt: nat, t: seq<Code>, pos: nat, j: nat)
    requires j <= pos <= |t|
    ensures Demand(prompt, t[j..], pos - j) == Needed(prompt, t, pos, j)
  {
    hide Width;
    assert t[j..][..pos - j] == t[j..pos];
    assert pos < |t| ==> t[j..][pos - j] == t[pos];
  }

  lemma {:induction false} DrawnMost(prompt: nat, t: seq<Code>, cols: int)
    ensures var n := Drawn(prompt, t, cols);
      n < |t| ==> prompt + Width(t[..n + 1]) > cols
  {
    if prompt <= cols {
      DrawnFits(prompt, t, cols);
    }
  }

  // A line that fits with a column to spare is shown whole, wherever the cursor is.
  lemma {:induction false} ShownWhole(row: Row, shown: seq<Code>, t: seq<Code>, pos: nat, cols: int)
    requires pos <= |t| && Shows(row, shown, t, pos, cols) && |shown| + Width(t) < cols
    ensures row == Row(shown + Display(t), |shown| + Width(t[..pos]))
  {
    hide Display;
    var k: nat, n: nat :| ShowsFrom(row, shown, t, pos, cols, k, n);
    NeededAtMost(|shown|, t, pos, 0);
    assert t[0..] == t && t[0..pos] == t[..pos] && t[0..|t|] == t;
    assert k == 0;
    FrontNotWider(t, if n < |t| then n + 1 else n);
    assert n == |t|;
  }

  lemma {:induction false} FrontNotWider(t: seq<Code>, n: nat)
    requires n <= |t|
    ensures Width(t[0..n]) <= Width(t)
  {
    WidthGrows(t, n, |t|);
    assert t[0..n] == t[..n] && t[..|t|] == t;
  }

  lemma {:induction false} NeededAtMost(prompt: nat, t: seq<Code>, pos: nat, j: nat)
    requires j <= pos <= |t|
    ensures Needed(prompt, t, pos, j) <= prompt + Width(t[j..])
  {
    hide Display;
    DisplayCut(t[j..], pos - j);
    assert t[j..][..pos - j] == t[j..pos] && t[j..][pos - j..] == t[pos..];
    WidthBounds(t[pos..]);
    if pos < |t| {
      DisplayCut(t[pos..], 1);
      assert t[pos..][..1] == [t[pos]];
      DisplayOne(t[pos]);
      WidthBounds(t[pos..][1..]);
    }
  }

  // ---------------------------------------------------------------------------
  // refreshLine

  lemma {:induction false} GlyphsOfText(b: Build, t: seq<Code>)
    requires ValidText(b, t)
    ensures Glyphs(b, EncodeAll(b, t)) == t
    decreases |t|
  {
    if t != [] {
      DecodeInText(b, EncodeAll(b, t), t, 0);
      assert t[..0] == [];
      var n := |Encode(b, t[0])|;
      assert EncodeAll(b, t)[n..] == EncodeAll(b, t[1..]);
      GlyphsOfText(b, t[1..]);
    }
  }

  // The cursor stands right behind `front`.
  predicate Behind(row: Row, front: seq<Code>) {
    row.column == |front| <= |row.cells| && row.cells[..row.column] == front
  }

  lemma WriteBehind(row: Row, front: seq<Code>, g: seq<Code>)
    requires Behind(row, front)
    ensures Behind(Write(row, g), front + g)
  {
    var end := row.column + |g|;
    var r := Write(row, g);
    assert r.cells[..end] == front + g;
  }

  lemma AfterOne(b: Build, row: Row, ops: seq<Op>, op: Op)
    ensures After(b, row, ops + [op]) == Apply(b, After(b, row, ops), op)
  {
    assert (ops + [op])[..|ops|] == ops;
  }

  // One more operation that draws `g`.
  lemma DrawMore(b: Build, row: Row, ops: seq<Op>, op: Op, front: seq<Code>, g: seq<Code>)
    requires Behind(After(b, row, ops), front)
    requires Apply(b, After(b, row, ops), op) == Write(After(b, row, ops), g)
    ensures Behind(After(b, row, ops + [op]), front + g)
  {
    AfterOne(b, row, ops, op);
    WriteBehind(After(b, row, ops), front, g);
  }

  // The last two operations cut off what was there before and place the cursor.
  lemma Finish(b: Build, row: Row, ops: seq<Op>, front: seq<Code>, x: nat)
    requires Behind(After(b, row, ops), front)
    ensures After(b, row, ops + [EraseEol] + [SetCursor(x)]) == Row(front, x)
  {
    AfterOne(b, row, ops, EraseEol);
    AfterOne(b, row, ops + [EraseEol], SetCursor(x));
  }

  // The columns demanded, by a walk over the bytes left of the cursor.
  method CountDemand(cur: LineBuffer.Current, pchars: nat) returns (n: nat)
    requires cur.Valid()
    ensures n == Demand(pchars, cur.text, cur.pos)
  {
    hide EncodeAll, Encode, Display, Decode;
    ghost var t, b := cur.text, cur.build;
    n := pchars + cur.chars;
    var off, i := 0, 0;
    assert t[..0] == [];
    SizeOfNothing(b);
    DisplayNothing();
    while i < cur.pos
      invariant 0 <= i <= cur.pos && off == Size(b, t[..i])
      invariant n == pchars + cur.chars + Width(t[..i]) - i
    {
      DecodeInText(b, cur.buf[..], t, i);
      WidthStep(t, i);
      var (ch, w) := Decode(cur.build, cur.buf[..], off);
      off := off + w;
      if ch < ' ' as int {
        n := n + 1;
      }
      i := i + 1;
    }
    var here := cur.GetChar(cur.pos);
    if cur.pos < cur.chars && here < ' ' as int {
      n := n + 1;
    }
  }

  // How far the buffer is scrolled: the offset and the number of the first
  // character drawn.
  method ScrollLeft(cur: LineBuffer.Current, pchars: nat) returns (start: nat, k: nat)
    requires cur.Valid()
    ensures k == Scrolled(pchars, cur.text, cur.pos, cur.cols)
    ensures start == Size(cur.build, cur.text[..k])
  {
    hide EncodeAll, Encode, Display, Decode, Demand;
    ghost var t, b := cur.text, cur.build;
    var n := CountDemand(cur, pchars);
    start, k := 0, 0;
    assert t[0..] == t && t[..0] == [];
    SizeOfNothing(b);
    while n >= cur.cols && k < cur.pos
      invariant 0 <= k <= cur.pos && start == Size(b, t[..k])
      invariant n == Demand(pchars, t[k..], cur.pos - k)
      invariant k + Scrolled(pchars, t[k..], cur.pos - k, cur.cols) == Scrolled(pchars, t, cur.pos, cur.cols)
    {
      DecodeInText(b, cur.buf[..], t, k);
      DemandStep(pchars, t[k..], cur.pos - k);
      assert t[k..][1..] == t[k + 1..] && t[k..][..1] == [t[k]];
      DisplayOne(t[k]);
      var (ch, w) := Decode(cur.build, cur.buf[..], start);
      if ch < ' ' as int {
        n := n - 1;
      }
      n := n - 1;
      start := start + w;
      k := k + 1;
    }
  }

  lemma WidthStep(t: seq<Code>, i: nat)
    requires i < |t|
    ensures Display(t[..i + 1]) == Display(t[..i]) + Display([t[i]])
    ensures Width(t[..i + 1]) == Width(t[..i]) + if Control(t[i]) then 2 else 1
  {
    DisplayConcat(t[..i], [t[i]]);
    assert t[..i + 1] == t[..i] + [t[i]];
    DisplayOne(t[i]);
  }

  lemma DisplayOne(c: Code)
    ensures Display([c]) == if Control(c) then ['^' as int, c + '@' as int] else [c]
    ensures Width([c]) == if Control(c) then 2 else 1
  {
    assert [c][1..] == [];
  }

  lemma {:induction false} PlainDisplay(t: seq<Code>)
    requires forall i :: 0 <= i < |t| ==> !Control(t[i])
    ensures Display(t) == t
  {
    if t != [] {
      PlainDisplay(t[1..]);
    }
  }

  // Characters `k..k + i0` are on the row; the bytes `p..q` of the plain
  // characters behind them, up to `k + i`, are still to be written.
  ghost predicate Pending(cur: LineBuffer.Current, row: Row, ops: seq<Op>, shown: seq<Code>, k: nat, i0: nat, i: nat,
      p: nat, q: nat)
    requires cur.Valid() && k <= |cur.text|
    reads cur, cur.buf
  {
    var rest := cur.text[k..];
    && i0 <= i <= |rest|
    && p == Size(cur.build, cur.text[..k + i0]) && q == Size(cur.build, cur.text[..k + i]) && p <= q <= cur.len
    && (forall j :: i0 <= j < i ==> !Control(rest[j]))
    && Behind(After(cur.build, row, ops), shown + Display(rest[..i0]))
  }

  // Writing the pending bytes draws the plain characters they encode.
  lemma FlushRun(cur: LineBuffer.Current, row: Row, ops: seq<Op>, shown: seq<Code>, k: nat, i0: nat, i: nat, p: nat,
      q: nat)
    requires cur.Valid() && k <= |cur.text| && Pending(cur, row, ops, shown, k, i0, i, p, q)
    ensures p <= q <= cur.len && i <= |cur.text| - k
    ensures Behind(After(cur.build, row, ops + [Chars(cur.buf[p..q])]), shown + Display(cur.text[k..][..i]))
  {
    hide EncodeAll, Encode, Display, After, Glyphs, Behind, Write;
    var t, b := cur.text, cur.build;
    var rest := t[k..];
    LineBuffer.SliceBytes(b, cur.buf[..], t, k + i0, i - i0);
    var run := t[k + i0..k + i];
    assert cur.buf[p..q] == cur.buf[..][p..q] == EncodeAll(b, run);
    assert forall j :: 0 <= j < |run| ==> run[j] == rest[i0 + j];
    PlainDisplay(run);
    GlyphsOfText(b, run);
    DrawMore(b, row, ops, Chars(cur.buf[p..q]), shown + Display(rest[..i0]), Display(run));
    DisplayConcat(rest[..i0], run);
    assert rest[..i] == rest[..i0] + run;
    Associates(shown, Display(rest[..i0]), Display(run));
  }

  lemma PendingNothing(cur: LineBuffer.Current, row: Row, ops: seq<Op>, shown: seq<Code>, k: nat, p: nat)
    requires cur.Valid() && k <= |cur.text| && p == Size(cur.build, cur.text[..k])
    requires Behind(After(cur.build, row, ops), shown)
    ensures Pending(cur, row, ops, shown, k, 0, 0, p, p)
  {
    hide EncodeAll, Encode, After, Behind;
    SizeGrows(cur.build, cur.text, k, k);
    assert cur.text[k..][..0] == [] && shown + [] == shown;
  }

  lemma PendingPlain(cur: LineBuffer.Current, row: Row, ops: seq<Op>, shown: seq<Code>, k: nat, i0: nat, i: nat,
      p: nat, q: nat)
    requires cur.Valid() && k <= |cur.text| && Pending(cur, row, ops, shown, k, i0, i, p, q)
    requires k + i < |cur.text| && !Control(cur.text[k + i])
    ensures Pending(cur, row, ops, shown, k, i0, i + 1, p, q + Decode(cur.build, cur.buf[..], q).1)
  {
    hide EncodeAll, Encode, After, Behind, Display, Decode;
    DecodeInText(cur.build, cur.buf[..], cur.text, k + i);
    SizeGrows(cur.build, cur.text, k + i + 1, k + i + 1);
  }

  lemma PendingControl(cur: LineBuffer.Current, row: Row, ops: seq<Op>, shown: seq<Code>, k: nat, i0: nat, i: nat,
      p: nat, q: nat)
    requires cur.Valid() && k <= |cur.text| && Pending(cur, row, ops, shown, k, i0, i, p, q)
    requires k + i < |cur.text| && Control(cur.text[k + i])
    ensures p <= q <= cur.len
    ensures var w := Decode(cur.build, cur.buf[..], q).1;
      Pending(cur, row, ops + [Chars(cur.buf[p..q])] + [ControlChar(cur.text[k + i] + '@' as int)],
              shown, k, i + 1, i + 1, q + w, q + w)
  {
    hide EncodeAll, Encode, After, Behind, Display, Decode;
    FlushRun(cur, row, ops, shown, k, i0, i, p, q);
    DecodeInText(cur.build, cur.buf[..], cur.text, k + i);
    SizeGrows(cur.build, cur.text, k + i + 1, k + i + 1);
    DrawControl(cur.build, row, ops + [Chars(cur.buf[p..q])], shown, cur.text[k..], i);
  }

  // Drawing a control character right behind what is drawn.
  lemma DrawControl(b: Build, row: Row, ops: seq<Op>, shown: seq<Code>, rest: seq<Code>, i: nat)
    requires i < |rest| && Control(rest[i])
    requires Behind(After(b, row, ops), shown + Display(rest[..i]))
    ensures Behind(After(b, row, ops + [ControlChar(rest[i] + '@' as int)]), shown + Display(rest[..i + 1]))
  {
    hide Display, After, Behind, Write;
    WidthStep(rest, i);
    DisplayOne(rest[i]);
    NarrowChar(b, rest[i] + '@' as int);
    DrawMore(b, row, ops, ControlChar(rest[i] + '@' as int), shown + Display(rest[..i]), Display([rest[i]]));
    Associates(shown, Display(rest[..i]), Display([rest[i]]));
  }

  lemma DrawnStep(prompt: nat, rest: seq<Code>, i: nat, cols: int)
    requires i < |rest|
    ensures var here := prompt + Width(rest[..i]);
      Drawn(here, rest[i..], cols) ==
        if prompt + Width(rest[..i + 1]) > cols then 0
        else 1 + Drawn(prompt + Width(rest[..i + 1]), rest[i + 1..], cols)
  {
    hide Display;
    WidthStep(rest, i);
    DisplayOne(rest[i]);
    assert rest[i..][..1] == [rest[i]];
    assert rest[i..][1..] == rest[i + 1..];
  }

  // The buffer is drawn from character `k` on; `backup` counts the control
  // characters drawn left of the cursor.
  method DrawBuffer(cur: LineBuffer.Current, shown: seq<Code>, start: nat, k: nat, ops0: seq<Op>, ghost row: Row)
    returns (ops: seq<Op>, backup: nat)
    requires cur.Valid() && k <= cur.pos && start == Size(cur.build, cur.text[..k])
    requires Behind(After(cur.build, row, ops0), shown)
    ensures ops0 <= ops && forall j :: |ops0| <= j < |ops| ==> Draws(ops[j])
    ensures var rest := cur.text[k..];
      var n := Drawn(|shown|, rest, cur.cols);
      && Behind(After(cur.build, row, ops), shown + Display(rest[..n]))
      && var left := if n < cur.pos - k then n else cur.pos - k;
         backup == Width(rest[..left]) - left
  {
    hide EncodeAll, Encode, Display, Decode, After, Behind, Drawn, ValidText, Pending, Width;
    ghost var rest := cur.text[k..];
    ops, backup := ops0, 0;
    var buf, b, n, i := start, 0, 0, 0;
    ghost var i0 := 0;
    assert rest[..0] == [] && rest[0..] == rest;
    DisplayNothing();
    PendingNothing(cur, row, ops, shown, k, start);
    while i < cur.chars - k
      invariant 0 <= buf && 0 <= b && 0 <= i <= |rest|
      invariant ops0 <= ops && forall j :: |ops0| <= j < |ops| ==> Draws(ops[j])
      invariant Pending(cur, row, ops, shown, k, i0, i, buf, buf + b)
      invariant n == Width(rest[..i]) - i
      invariant i + Drawn(|shown| + Width(rest[..i]), rest[i..], cur.cols) == Drawn(|shown|, rest, cur.cols)
      invariant var left := if i < cur.pos - k then i else cur.pos - k;
        backup == Width(rest[..left]) - left
    {
      WidthStep(rest, i);
      DrawnStep(|shown|, rest, i, cur.cols);
      NextPending(cur, row, ops, shown, k, i0, i, buf, buf + b);
      var (ch, w) := Decode(cur.build, cur.buf[..], buf + b);
      if ch < ' ' as int {
        n := n + 1;
      }
      if |shown| + i + n >= cur.cols {
        break;
      }
      if ch < ' ' as int {
        PendingControl(cur, row, ops, shown, k, i0, i, buf, buf + b);
        ops := ops + [Chars(cur.buf[buf..buf + b])];
        buf, b := buf + b + w, 0;
        ops := ops + [ControlChar(ch + '@' as int)];
        i0 := i + 1;
        if i < cur.pos - k {
          backup := backup + 1;
        }
      } else {
        PendingPlain(cur, row, ops, shown, k, i0, i, buf, buf + b);
        b := b + w;
      }
      i := i + 1;
    }
    DrawnEnd(|shown|, rest, i, cur.cols);
    FlushRun(cur, row, ops, shown, k, i0, i, buf, buf + b);
    ops := ops + [Chars(cur.buf[buf..buf + b])];
  }

  lemma NextPending(cur: LineBuffer.Current, row: Row, ops: seq<Op>, shown: seq<Code>, k: nat, i0: nat, i: nat,
      p: nat, q: nat)
    requires cur.Valid() && k <= |cur.text| && Pending(cur, row, ops, shown, k, i0, i, p, q)
    requires k + i < |cur.text|
    ensures Decode(cur.build, cur.buf[..], q).0 == cur.text[k + i] == cur.text[k..][i]
  {
    hide EncodeAll, Encode, After, Behind, Display, Decode;
    DecodeInText(cur.build, cur.buf[..], cur.text, k + i);
  }

  lemma DisplayNothing()
    ensures Display([]) == [] && Width([]) == 0
  {
  }

  lemma DrawnEnd(prompt: nat, rest: seq<Code>, i: nat, cols: int)
    requires i <= |rest|
    requires i == |rest| || prompt + Width(rest[..i + 1]) > cols
    ensures Drawn(prompt + Width(rest[..i]), rest[i..], cols) == 0
  {
    if i < |rest| {
      DrawnStep(prompt, rest, i, cols);
    }
  }

  // ---------------------------------------------------------------------------
  // The prompt

  predicate Parameter(c: byte) {
    c == ';' as int || '0' as int <= c <= '9' as int
  }

  datatype ColorState = SearchEsc | ExpectBracket | ExpectTrail

  // The state machine of countColorControlChars, with the length of the sequence
  // it is in.
  function ColorChars(s: seq<byte>, state: ColorState, len: nat): nat {
    if s == [] then 0
    else
      var c, rest := s[0], s[1..];
      match state
      case SearchEsc => ColorChars(rest, if c == 27 then ExpectBracket else SearchEsc, len)
      case ExpectBracket =>
        if c == '[' as int then ColorChars(rest, ExpectTrail, 3) else ColorChars(rest, SearchEsc, len)
      case ExpectTrail =>
        if Parameter(c) then ColorChars(rest, ExpectTrail, len + 1)
        else (if c == 'm' as int then len else 0) + ColorChars(rest, SearchEsc, len)
  }

  method CountColorControlChars(prompt: seq<byte>) returns (found: nat)
    ensures found == ColorChars(CStr(prompt), SearchEsc, 0)
  {
    found := 0;
    var state, len, i := SearchEsc, 0, 0;
    var s := prompt[..StrLen(prompt)];
    assert s[0..] == s;
    while i < |s|
      invariant 0 <= i <= |s|
      invariant found + ColorChars(s[i..], state, len) == ColorChars(s, SearchEsc, 0)
    {
      assert s[i..][1..] == s[i + 1..];
      var ch := s[i];
      match state {
        case SearchEsc =>
          if ch == 27 {
            state := ExpectBracket;
          }
        case ExpectBracket =>
          if ch == '[' as int {
            state, len := ExpectTrail, 3;
          } else {
            state := SearchEsc;
          }
        case ExpectTrail =>
          if Parameter(ch) {
            len := len + 1;
          } else {
            if ch == 'm' as int {
              found := found + len;
            }
            state := SearchEsc;
          }
      }
      i := i + 1;
    }
  }

  // A prompt made of characters that show and complete color sequences.
  datatype Piece = Visible(c: byte) | Color(parameters: seq<byte>)

  predicate GoodPiece(p: Piece) {
    match p
    case Visible(c) => c != 0 && c != 27
    case Color(parameters) =>
      forall i :: 0 <= i < |parameters| ==> parameters[i] == ';' as int || '0' as int <= parameters[i] <= '9' as int
  }

  function Spelled(pieces: seq<Piece>): seq<byte> {
    if pieces == [] then []
    else
      (match pieces[0]
       case Visible(c) => [c]
       case Color(parameters) => [27, '[' as int] + parameters + ['m' as int])
      + Spelled(pieces[1..])
  }

  function Shown(pieces: seq<Piece>): seq<byte> {
    if pieces == [] then []
    else (if pieces[0].Visible? then [pieces[0].c] else []) + Shown(pieces[1..])
  }

  lemma {:induction false} ColorParameters(parameters: seq<byte>, rest: seq<byte>, len: nat)
    requires forall i :: 0 <= i < |parameters| ==> Parameter(parameters[i])
    ensures ColorChars(parameters + (['m' as int] + rest), ExpectTrail, len)
         == len + |parameters| + ColorChars(rest, SearchEsc, len + |parameters|)
    decreases |parameters|
  {
    var s := parameters + (['m' as int] + rest);
    if parameters == [] {
      assert s == ['m' as int] + rest;
      assert s[1..] == rest;
    } else {
      assert s[1..] == parameters[1..] + (['m' as int] + rest);
      ColorParameters(parameters[1..], rest, len + 1);
    }
  }

  lemma {:induction false} LengthForgotten(s: seq<byte>, state: ColorState, a: nat, b: nat)
    requires state != ExpectTrail
    ensures ColorChars(s, state, a) == ColorChars(s, state, b)
    decreases |s|
  {
    if s != [] && !(state == ExpectBracket && s[0] == '[' as int) {
      LengthForgotten(s[1..], if state == SearchEsc && s[0] == 27 then ExpectBracket else SearchEsc, a, b);
    }
  }

  // In the one-byte build the columns refreshLine reckons with are the
  // characters of such a prompt that show.
  lemma {:induction false} PromptColumns(pieces: seq<Piece>)
    requires forall i :: 0 <= i < |pieces| ==> GoodPiece(pieces[i])
    ensures 0 !in Spelled(pieces)
    ensures |Spelled(pieces)| - ColorChars(Spelled(pieces), SearchEsc, 0) == |Shown(pieces)|
    decreases |pieces|
  {
    if pieces != [] {
      hide ColorChars, Shown, Spelled;
      var rest := Spelled(pieces[1..]);
      PromptColumns(pieces[1..]);
      assert GoodPiece(pieces[0]);
      SpelledCons(pieces);
      match pieces[0] {
        case Visible(c) =>
          VisiblePiece(c, rest);
        case Color(parameters) =>
          ColorPiece(parameters, rest);
          assert 0 !in parameters;
      }
    } else {
      NoPieces();
    }
  }

  lemma SpelledCons(pieces: seq<Piece>)
    requires pieces != []
    ensures var rest := Spelled(pieces[1..]);
      match pieces[0]
      case Visible(c) => Spelled(pieces) == [c] + rest && |Shown(pieces)| == 1 + |Shown(pieces[1..])|
      case Color(parameters) =>
        && Spelled(pieces) == [27, '[' as int] + (parameters + (['m' as int] + rest))
        && |Shown(pieces)| == |Shown(pieces[1..])|
  {
  }

  lemma NoPieces()
    ensures ColorChars([], SearchEsc, 0) == 0
  {
  }

  lemma {:induction false} NoColors(s: seq<byte>)
    requires 27 !in s
    ensures ColorChars(s, SearchEsc, 0) == 0
  {
    if s != [] {
      NoColors(s[1..]);
    }
  }

  // Escape characters that start no color sequence count nothing, and the character
  // that breaks a sequence off is gone with it.
  lemma {:induction false} NotAColor(parameters: seq<byte>, c: byte, rest: seq<byte>)
    requires forall i :: 0 <= i < |parameters| ==> Parameter(parameters[i])
    ensures c != '[' as int ==> ColorChars([27, c] + rest, SearchEsc, 0) == ColorChars(rest, SearchEsc, 0)
    ensures c != 'm' as int && c != ';' as int && !('0' as int <= c <= '9' as int) ==>
      ColorChars([27, '[' as int] + (parameters + ([c] + rest)), SearchEsc, 0) == ColorChars(rest, SearchEsc, 0)
    ensures ColorChars([27, '[' as int] + parameters, SearchEsc, 0) == 0
  {
    hide ColorChars;
    EscapeAnd(c, rest);
    EscapeAnd('[' as int, parameters + ([c] + rest));
    EscapeAnd('[' as int, parameters);
    SequenceEnds(parameters, c, rest, 3);
    LengthForgotten(rest, SearchEsc, 3 + |parameters|, 0);
  }

  lemma {:induction false} EscapeAnd(c: byte, rest: seq<byte>)
    ensures ColorChars([27, c] + rest, SearchEsc, 0) ==
      if c == '[' as int then ColorChars(rest, ExpectTrail, 3) else ColorChars(rest, SearchEsc, 0)
  {
    var s := [27, c] + rest;
    assert s[1..] == [c] + rest && s[1..][1..] == rest;
  }

  lemma {:induction false} SequenceEnds(parameters: seq<byte>, c: byte, rest: seq<byte>, len: nat)
    requires forall i :: 0 <= i < |parameters| ==> Parameter(parameters[i])
    ensures ColorChars(parameters, ExpectTrail, len) == 0
    ensures c != 'm' as int && !Parameter(c) ==>
      ColorChars(parameters + ([c] + rest), ExpectTrail, len) == ColorChars(rest, SearchEsc, len + |parameters|)
    decreases |parameters|
  {
    var s := parameters + ([c] + rest);
    if parameters == [] {
      assert s[1..] == rest;
    } else {
      assert s[1..] == parameters[1..] + ([c] + rest);
      SequenceEnds(parameters[1..], c, rest, len + 1);
    }
  }

  lemma VisiblePiece(c: byte, rest: seq<byte>)
    requires c != 27
    ensures ColorChars([c] + rest, SearchEsc, 0) == ColorChars(rest, SearchEsc, 0)
  {
    assert ([c] + rest)[1..] == rest;
  }

  lemma ColorPiece(parameters: seq<byte>, rest: seq<byte>)
    requires forall i :: 0 <= i < |parameters| ==> Parameter(parameters[i])
    ensures ColorChars([27, '[' as int] + (parameters + (['m' as int] + rest)), SearchEsc, 0)
         == 3 + |parameters| + ColorChars(rest, SearchEsc, 0)
  {
    var tail := parameters + (['m' as int] + rest);
    var s := [27, '[' as int] + tail;
    assert s[1..] == ['[' as int] + tail;
    assert s[1..][1..] == tail;
    ColorParameters(parameters, rest, 3);
    LengthForgotten(rest, SearchEsc, 3 + |parameters|, 0);
  }

  // ---------------------------------------------------------------------------

  // What the terminal shows of a prompt takes the columns refreshLine reckons with.
  predicate PromptShown(b: Build, prompt: seq<byte>, shown: seq<Code>) {
    |shown| == LineBuffer.PromptChars(b, prompt) - ColorChars(CStr(prompt), SearchEsc, 0)
  }

  // Such is a prompt without escape characters.
  lemma PlainPromptShown(prompt: seq<byte>)
    requires 0 !in prompt && 27 !in prompt
    ensures PromptShown(ByteBuild, prompt, prompt)
  {
    hide ColorChars, Count, Tiles;
    CStrWhole(prompt);
    BytesCount(prompt, 0, |prompt|);
    NoColors(prompt);
  }

  // The line is drawn as its picture, whatever the row showed before. `shown` is
  // what the terminal makes of the prompt. If that is narrower than the row, the
  // cursor is never behind the last column, so nothing is written there.
  method RefreshLine(cur: LineBuffer.Current, prompt: seq<byte>, shown: seq<Code>, cols: int, ghost row: Row)
    returns (ops: seq<Op>)
    requires cur.Valid()
    requires PromptShown(cur.build, prompt, shown)
    modifies cur`cols
    ensures cur.Valid() && cur.View() == old(cur.View()) && cur.cols == cols
    ensures After(cur.build, row, ops) == Picture(shown, cur.text, cur.pos, cols)
    ensures Shows(After(cur.build, row, ops), shown, cur.text, cur.pos, cols)
    ensures |shown| < cols ==> ColumnsWithin(cur.build, row, ops, cols)
  {
    hide EncodeAll, Encode, Display, After, Behind, Drawn, Scrolled, ValidText, Demand, Count, Decode, Shows;
    cur.cols := cols;
    StringTiles(cur.build, prompt, 0, StrLen(prompt));
    var plen := Utf8StrLen(cur.build, prompt, 0, StrLen(prompt));
    var colors := CountColorControlChars(prompt);
    var pchars := plen - colors;
    var start, k := ScrollLeft(cur, pchars);
    ops := [CursorToLeft] + [Prompt(shown)];
    PromptDrawn(cur.build, row, shown);
    var backup;
    ghost var rest, t := cur.text[k..], cur.text;
    ops, backup := DrawBuffer(cur, shown, start, k, ops, row);
    LeftOfCursor(pchars, t, cur.pos, cols);
    PictureShows(shown, t, cur.pos, cols);
    assert rest[..cur.pos - k] == t[k..cur.pos];
    var x := cur.pos - k + pchars + backup;
    ghost var front := shown + Display(rest[..Drawn(|shown|, rest, cols)]);
    Finish(cur.build, row, ops, front, x);
    if |shown| < cols {
      PictureFits(shown, t, cur.pos, cols);
      FinishWithin(cur.build, row, ops, front, x, cols);
    }
    ops := ops + [EraseEol] + [SetCursor(x)];
  }

  // The operations that write to cells; each moves the cursor behind the last.
  predicate Draws(op: Op) {
    op.Prompt? || op.Chars? || op.ControlChar?
  }

  // From the first operation on the cursor stays on the row.
  predicate ColumnsWithin(b: Build, row: Row, ops: seq<Op>, cols: int) {
    forall i :: 0 < i <= |ops| ==> After(b, row, ops[..i]).column <= cols
  }

  lemma {:induction false} ColumnGrows(b: Build, row: Row, ops: seq<Op>, i: nat)
    requires i <= |ops| && forall j :: i <= j < |ops| ==> Draws(ops[j])
    ensures After(b, row, ops[..i]).column <= After(b, row, ops).column
    decreases |ops|
  {
    hide After, Write, Glyphs;
    if i == |ops| {
      assert ops[..i] == ops;
    } else {
      var front, last := ops[..|ops| - 1], ops[|ops| - 1];
      ColumnGrows(b, row, front, i);
      assert front[..i] == ops[..i] && front + [last] == ops;
      AfterOne(b, row, front, last);
      DrawnColumn(b, After(b, row, front), last);
    }
  }

  lemma DrawnColumn(b: Build, row: Row, op: Op)
    requires Draws(op)
    ensures row.column <= Apply(b, row, op).column
  {
    hide Glyphs;
  }

  lemma FinishWithin(b: Build, row: Row, ops: seq<Op>, front: seq<Code>, x: nat, cols: int)
    requires ops != [] && forall j :: 1 <= j < |ops| ==> Draws(ops[j])
    requires Behind(After(b, row, ops), front) && |front| <= cols && x <= cols
    ensures ColumnsWithin(b, row, ops + [EraseEol] + [SetCursor(x)], cols)
  {
    hide After, Draws;
    var all := ops + [EraseEol] + [SetCursor(x)];
    forall i | 0 < i <= |all| ensures After(b, row, all[..i]).column <= cols {
      AfterOne(b, row, ops, EraseEol);
      AfterOne(b, row, ops + [EraseEol], SetCursor(x));
      if i <= |ops| {
        assert all[..i] == ops[..i];
        ColumnGrows(b, row, ops, i);
      } else if i == |ops| + 1 {
        assert all[..i] == ops + [EraseEol];
      } else {
        assert all[..i] == all;
      }
    }
  }

  lemma PromptDrawn(b: Build, row: Row, shown: seq<Code>)
    ensures Behind(After(b, row, [CursorToLeft] + [Prompt(shown)]), shown)
  {
    AfterOne(b, row, [], CursorToLeft);
    assert [] + [CursorToLeft] == [CursorToLeft];
    AfterOne(b, row, [CursorToLeft], Prompt(shown));
    WriteBehind(row.(column := 0), [], shown);
    assert [] + shown == shown;
  }

  // All of the text left of the cursor that is not scrolled off gets drawn.
  lemma LeftOfCursor(prompt: nat, t: seq<Code>, pos: nat, cols: int)
    requires pos <= |t|
    ensures var k := Scrolled(prompt, t, pos, cols);
      pos - k <= Drawn(prompt, t[k..], cols)
  {
    hide Scrolled, Drawn, Display;
    ScrolledFits(prompt, t, pos, cols);
    var k := Scrolled(prompt, t, pos, cols);
    if k < pos {
      LeftOfCursorDrawn(prompt, t[k..], pos - k, cols);
    }
  }

  // ---------------------------------------------------------------------------
  // The shortcuts of insert_char and remove_char against a full redraw.

  // With the cursor at the end everything that is not scrolled off is drawn.
  lemma PictureAtEnd(shown: seq<Code>, t: seq<Code>, cols: int)
    requires |shown| < cols
    ensures var p := Picture(shown, t, |t|, cols);
      var k := Scrolled(|shown|, t, |t|, cols);
      && p == Row(shown + Display(t[k..]), |shown| + Width(t[k..]))
      && |p.cells| == p.column < cols
  {
    hide Display, Drawn, Demand, Scrolled;
    var k := Scrolled(|shown|, t, |t|, cols);
    LeftOfCursor(|shown|, t, |t|, cols);
    assert t[k..][..|t| - k] == t[k..] == t[k..|t|];
    PictureFits(shown, t, |t|, cols);
  }

  lemma DemandAtEnd(prompt: nat, t: seq<Code>, j: nat)
    requires j <= |t|
    ensures Demand(prompt, t[j..], |t| - j) == prompt + Width(t[j..])
  {
    assert t[j..][..|t| - j] == t[j..];
  }

  // Scrolling with the cursor at the end stops at the first place where what is
  // left fits.
  lemma ScrolledAtEnd(prompt: nat, t: seq<Code>, cols: int, k: nat)
    requires k <= |t| && (k == |t| || prompt + Width(t[k..]) < cols)
    requires k == 0 || prompt + Width(t[k - 1..]) >= cols
    ensures Scrolled(prompt, t, |t|, cols) == k
  {
    hide Display, Demand, Scrolled;
    ScrolledFits(prompt, t, |t|, cols);
    var s := Scrolled(prompt, t, |t|, cols);
    if s < k {
      DemandAtEnd(prompt, t, s);
      TailGrows(t, s, k - 1);
    } else if k < s {
      DemandAtEnd(prompt, t, k);
    }
  }

  lemma TailGrows(t: seq<Code>, i: nat, j: nat)
    requires i <= j <= |t|
    ensures Width(t[j..]) <= Width(t[i..])
  {
    DisplayCut(t[i..], j - i);
    assert t[i..][j - i..] == t[j..];
  }

  lemma ScrolledLimit(prompt: nat, t: seq<Code>, cols: int)
    ensures var k := Scrolled(prompt, t, |t|, cols);
      && (k < |t| ==> prompt + Width(t[k..]) < cols)
      && (k > 0 ==> prompt + Width(t[k - 1..]) >= cols)
  {
    hide Display, Demand, Scrolled;
    ScrolledFits(prompt, t, |t|, cols);
    var k := Scrolled(prompt, t, |t|, cols);
    DemandAtEnd(prompt, t, k);
    if k > 0 {
      DemandAtEnd(prompt, t, k - 1);
    }
  }

  // Writing a typed character straight to the terminal gives the picture of the
  // longer line exactly if that leaves a column free.
  lemma InsertShortcut(shown: seq<Code>, t: seq<Code>, c: Code, cols: int)
    requires |shown| < cols && !Control(c)
    ensures var p := Picture(shown, t, |t|, cols);
      Write(p, [c]) == Picture(shown, t + [c], |t| + 1, cols) <==> |p.cells| + 1 < cols
  {
    hide Display, Scrolled, Picture;
    var t' := t + [c];
    var p, p' := Picture(shown, t, |t|, cols), Picture(shown, t', |t'|, cols);
    PictureAtEnd(shown, t, cols);
    PictureAtEnd(shown, t', cols);
    WriteAtEnd(p, c);
    if |p.cells| + 1 < cols {
      var k := Scrolled(|shown|, t, |t|, cols);
      ScrolledLimit(|shown|, t, cols);
      TailSnoc(t, c, k);
      if k > 0 {
        TailSnoc(t, c, k - 1);
      }
      ScrolledAtEnd(|shown|, t', cols, k);
      Associates(shown, Display(t[k..]), [c]);
    }
  }

  lemma WriteAtEnd(p: Row, c: Code)
    requires p.column == |p.cells|
    ensures Write(p, [c]) == Row(p.cells + [c], p.column + 1)
  {
  }

  lemma TailSnoc(t: seq<Code>, c: Code, k: nat)
    requires k <= |t| && !Control(c)
    ensures Display((t + [c])[k..]) == Display(t[k..]) + [c]
  {
    assert (t + [c])[k..] == t[k..] + [c];
    DisplayConcat(t[k..], [c]);
    DisplayOne(c);
  }

  // The guard of insert_char does not count the second column of a control
  // character. Without control characters on the line it is good enough.
  lemma InsertGuard(b: Build, prompt: seq<byte>, shown: seq<Code>, t: seq<Code>, c: Code, cols: int)
    requires |shown| <= LineBuffer.PromptChars(b, prompt) && !Control(c)
    requires forall i :: 0 <= i < |t| ==> !Control(t[i])
    requires LineBuffer.Unscrolled(b, prompt, |t|, cols)
    ensures Write(Picture(shown, t, |t|, cols), [c]) == Picture(shown, t + [c], |t| + 1, cols)
  {
    hide Display, Scrolled, Picture;
    PlainDisplay(t);
    ScrolledAtEndZero(|shown|, t, cols);
    PictureAtEnd(shown, t, cols);
    InsertShortcut(shown, t, c, cols);
  }

  lemma ScrolledAtEndZero(prompt: nat, t: seq<Code>, cols: int)
    requires prompt + Width(t) < cols
    ensures Scrolled(prompt, t, |t|, cols) == 0 && t[0..] == t
  {
    assert t[0..] == t;
    ScrolledAtEnd(prompt, t, cols, 0);
  }

  // With control characters on the line it is not: two of them behind a prompt
  // of five on ten columns, and the next character fills the row to the end
  // where a redraw would have scrolled.
  lemma InsertGuardFails(prompt: seq<byte>, t: seq<Code>)
    requires |prompt| == 5 && 0 !in prompt && t == [1, 1]
    ensures LineBuffer.Unscrolled(ByteBuild, prompt, |t|, 10)
    ensures Write(Picture(prompt, t, |t|, 10), [120]) != Picture(prompt, t + [120], |t| + 1, 10)
  {
    hide Scrolled, Picture, Display, StrLen, Count, Tiles, Write, Drawn;
    CStrWhole(prompt);
    BytesCount(prompt, 0, 5);
    TwoControls();
    ScrolledAtEndZero(5, t, 10);
    PictureAtEnd(prompt, t, 10);
    InsertShortcut(prompt, t, 120, 10);
  }

  lemma TwoControlsShown(prompt: seq<byte>)
    requires |prompt| == 5
    ensures |Picture(prompt, [1, 1], 2, 10).cells| == 9
  {
    hide Scrolled, Picture, Display;
    TwoControls();
    ScrolledAtEndZero(5, [1, 1], 10);
    PictureAtEnd(prompt, [1, 1], 10);
  }

  lemma TwoControls()
    ensures Width([1, 1]) == 4
  {
    DisplayOne(1);
    DisplayConcat([1], [1]);
    assert [1] + [1] == [1, 1];
  }

  lemma {:induction false} BytesCount(m: seq<byte>, i: nat, end: nat)
    requires i <= end
    ensures Tiles(ByteBuild, m, i, end) && Count(ByteBuild, m, i, end) == end - i
    decreases end - i
  {
    if i < end {
      BytesCount(m, i + 1, end);
    }
  }

  // Backspace, blank, backspace.
  function EraseLast(row: Row): Row
    requires row.column > 0
  {
    Write(row.(column := row.column - 1), [SPACE]).(column := row.column - 1)
  }

  // Erasing the last character on the terminal gives the picture of the shorter
  // line, with a blank for the erased column, exactly if that line is scrolled
  // as far as the longer one was.
  lemma RemoveShortcut(shown: seq<Code>, t: seq<Code>, c: Code, cols: int)
    requires |shown| + 1 < cols && !Control(c)
    ensures var k := Scrolled(|shown|, t + [c], |t| + 1, cols);
      var p, p' := Picture(shown, t + [c], |t| + 1, cols), Picture(shown, t, |t|, cols);
      && p.column > 0 && k <= |t|
      && (EraseLast(p) == Row(p'.cells + [SPACE], p'.column) <==>
            k == 0 || |shown| + Width(t[k - 1..]) >= cols)
      && (EraseLast(p).column == p'.column <==> k == 0 || |shown| + Width(t[k - 1..]) >= cols)
  {
    hide Display, Scrolled, Picture;
    var t' := t + [c];
    var k := Scrolled(|shown|, t', |t'|, cols);
    var p, p' := Picture(shown, t', |t'|, cols), Picture(shown, t, |t|, cols);
    ScrolledLimit(|shown|, t', cols);
    ScrolledLimit(|shown|, t, cols);
    PictureAtEnd(shown, t', cols);
    PictureAtEnd(shown, t, cols);
    if k == |t'| {
      assert t'[k - 1..] == [c];
      DisplayOne(c);
    }
    TailSnoc(t, c, k);
    Associates(shown, Display(t[k..]), [c]);
    var front := shown + Display(t[k..]);
    assert p == Row(front + [c], |front| + 1);
    EraseAtEnd(front, c);
    if k == 0 || |shown| + Width(t[k - 1..]) >= cols {
      ScrolledAtEnd(|shown|, t, cols, k);
    } else {
      var k' := Scrolled(|shown|, t, |t|, cols);
      if k' < k {
        TailLonger(t, k', k);
      } else {
        TailGrows(t, k - 1, k' - 1);
      }
    }
  }

  // The guard of remove_char has the same flaw. Without control characters on the
  // line it is good enough.
  lemma RemoveGuard(b: Build, prompt: seq<byte>, shown: seq<Code>, t: seq<Code>, c: Code, cols: int)
    requires |shown| <= LineBuffer.PromptChars(b, prompt)
    requires forall i :: 0 <= i < |t| ==> !Control(t[i])
    requires LineBuffer.RemoveResult(b, prompt, cols, L.Line(t + [c], |t| + 1), |t|) == 2 && !Control(c)
    ensures var p, p' := Picture(shown, t + [c], |t| + 1, cols), Picture(shown, t, |t|, cols);
      p.column > 0 && EraseLast(p) == Row(p'.cells + [SPACE], p'.column)
  {
    hide Display, Scrolled, Picture, EncodeAll, LineBuffer.PromptChars;
    PlainDisplay(t + [c]);
    ScrolledAtEndZero(|shown|, t + [c], cols);
    RemoveShortcut(shown, t, c, cols);
  }

  // With control characters it is not: two of them and a letter behind a prompt of
  // five on ten columns. The line is scrolled; without the letter it need not be.
  lemma RemoveGuardFails(prompt: seq<byte>, t: seq<Code>)
    requires |prompt| == 5 && 0 !in prompt && t == [1, 1]
    ensures LineBuffer.RemoveResult(ByteBuild, prompt, 10, L.Line(t + [120], 3), 2) == 2
    ensures var p, p' := Picture(prompt, t + [120], 3, 10), Picture(prompt, t, 2, 10);
      p.column > 0 && EraseLast(p) != Row(p'.cells + [SPACE], p'.column)
  {
    hide *;
    RemoveGuardPasses(prompt, t);
    RemoveShortcut(prompt, t, 120, 10);
    ScrolledApart(t);
  }

  lemma RemoveGuardPasses(prompt: seq<byte>, t: seq<Code>)
    requires |prompt| == 5 && 0 !in prompt && t == [1, 1]
    ensures LineBuffer.RemoveResult(ByteBuild, prompt, 10, L.Line(t + [120], 3), 2) == 2
    ensures !Control(120)
  {
    hide StrLen, Count, Tiles, EncodeAll;
    CStrWhole(prompt);
    BytesCount(prompt, 0, 5);
    EncodeBytes(t + [120]);
  }

  lemma ScrolledApart(t: seq<Code>)
    requires t == [1, 1]
    ensures var k := Scrolled(5, t + [120], 3, 10);
      0 < k <= |t| + 1 && 5 + Width(t[k - 1..]) < 10
  {
    hide Scrolled, Display, Width;
    var k := Scrolled(5, t + [120], 3, 10);
    TwoControls();
    ScrolledLimit(5, t + [120], 10);
    assert t[0..] == t && (t + [120])[0..] == t + [120];
    WidthSnoc(t, 120);
    if k > 0 {
      TailGrows(t, 0, k - 1);
    }
  }

  lemma WidthSnoc(t: seq<Code>, c: Code)
    requires !Control(c)
    ensures Width(t + [c]) == Width(t) + 1
  {
    hide Display;
    DisplayConcat(t, [c]);
    DisplayOne(c);
  }

  lemma EraseAtEnd(front: seq<Code>, c: Code)
    ensures EraseLast(Row(front + [c], |front| + 1)) == Row(front + [SPACE], |front|)
  {
    assert (front + [c])[..|front|] == front;
  }

  lemma TailLonger(t: seq<Code>, i: nat, j: nat)
    requires i < j <= |t|
    ensures Width(t[j..]) < Width(t[i..])
  {
    DisplayCut(t[i..], j - i);
    assert t[i..][j - i..] == t[j..];
    WidthBounds(t[i..][..j - i]);
  }

  // ---------------------------------------------------------------------------
  // The row in step with the line: its picture, and nothing but blanks behind it.

  predicate InStep(row: Row, shown: seq<Code>, l: L.Line, cols: int) {
    l.pos <= |l.text| &&
      var p := Picture(shown, l.text, l.pos, cols);
      && row.column == p.column && p.cells <= row.cells
      && forall i :: |p.cells| <= i < |row.cells| ==> row.cells[i] == SPACE
  }

  predicate NoControls(t: seq<Code>) {
    forall i :: 0 <= i < |t| ==> !Control(t[i])
  }

  lemma PictureInStep(shown: seq<Code>, l: L.Line, cols: int)
    requires l.pos <= |l.text|
    ensures InStep(Picture(shown, l.text, l.pos, cols), shown, l, cols)
  {
    hide Picture;
  }

  // When insert_char takes its shortcut although no column stays free.
  predicate InsertSlips(b: Build, max: nat, prompt: seq<byte>, shown: seq<Code>, cols: int, l: L.Line, p: int,
      ch: int) {
    && LineBuffer.InsertResult(b, max, prompt, cols, l, p, ch) == 2
    && |Picture(shown, l.text, |l.text|, cols).cells| + 1 >= cols
  }

  // When remove_char takes its shortcut although the shorter line would be scrolled
  // less far.
  predicate RemoveSlips(b: Build, prompt: seq<byte>, shown: seq<Code>, cols: int, l: L.Line, p: int) {
    LineBuffer.RemoveResult(b, prompt, cols, l, p) == 2 &&
      var k := Scrolled(|shown|, l.text, |l.text|, cols);
      k > 0 && |shown| + Width(l.text[k - 1..|l.text| - 1]) < cols
  }

  // A character written straight to the terminal keeps the row in step exactly
  // then.
  lemma InsertInStep(b: Build, max: nat, prompt: seq<byte>, shown: seq<Code>, row: Row, l: L.Line, p: nat, ch: int,
      cols: int)
    requires PromptShown(b, prompt, shown) && InStep(row, shown, l, cols)
    requires LineBuffer.InsertResult(b, max, prompt, cols, l, p, ch) == 2 && !Control(Narrow(b, ch))
    ensures InStep(Write(row, [Narrow(b, ch)]), shown, L.Insert(b, max, l, p, ch), cols)
       <==> !InsertSlips(b, max, prompt, shown, cols, l, p, ch)
  {
    hide Picture, LineBuffer.PromptChars, ColorChars, Narrow, Write, L.HasRoom;
    var t, c := l.text, Narrow(b, ch);
    InsertShortcut(shown, t, c, cols);
    PictureAtEnd(shown, t, cols);
    PictureAtEnd(shown, t + [c], cols);
    assert t[..p] + [c] + t[p..] == t + [c];
    WriteOverBlanks(row, Picture(shown, t, |t|, cols), c);
  }

  lemma WriteOverBlanks(row: Row, p: Row, c: Code)
    requires row.column == p.column == |p.cells| && p.cells <= row.cells
    requires forall i :: |p.cells| <= i < |row.cells| ==> row.cells[i] == SPACE
    ensures var r, q := Write(row, [c]), Write(p, [c]);
      && r.column == q.column == |p.cells| + 1 && q.cells <= r.cells
      && forall i :: |q.cells| <= i < |r.cells| ==> r.cells[i] == SPACE
  {
    WriteAtEnd(p, c);
  }

  // So does a character erased on the terminal.
  lemma RemoveInStep(b: Build, prompt: seq<byte>, shown: seq<Code>, row: Row, l: L.Line, p: nat, cols: int)
    requires PromptShown(b, prompt, shown) && InStep(row, shown, l, cols)
    requires LineBuffer.RemoveResult(b, prompt, cols, l, p) == 2 && !Control(l.text[p])
    ensures row.column > 0
    ensures InStep(EraseLast(row), shown, L.Remove(l, p), cols) <==> !RemoveSlips(b, prompt, shown, cols, l, p)
  {
    hide Picture, LineBuffer.PromptChars, ColorChars, Write, EncodeAll, EraseLast, Scrolled, Width;
    var t, c := l.text[..p], l.text[p];
    assert l.text == t + [c] && l.text[p + 1..] == [] && t + [] == t;
    RemoveShortcut(shown, t, c, cols);
    var k := Scrolled(|shown|, l.text, |l.text|, cols);
    assert k > 0 ==> t[k - 1..] == l.text[k - 1..|l.text| - 1];
    PictureAtEnd(shown, t + [c], cols);
    PictureAtEnd(shown, t, cols);
    EraseBeforeBlanks(row, Picture(shown, t + [c], |t| + 1, cols));
  }

  // Neither happens on a line without control characters.
  lemma PlainNeverSlips(b: Build, max: nat, prompt: seq<byte>, shown: seq<Code>, cols: int, l: L.Line, p: int, ch: int)
    requires PromptShown(b, prompt, shown) && NoControls(l.text)
    ensures !Control(Narrow(b, ch)) ==> !InsertSlips(b, max, prompt, shown, cols, l, p, ch)
    ensures !RemoveSlips(b, prompt, shown, cols, l, p)
  {
    hide Picture, LineBuffer.PromptChars, ColorChars, EncodeAll, EraseLast, Scrolled, Width, Narrow;
    if LineBuffer.InsertResult(b, max, prompt, cols, l, p, ch) == 2 && !Control(Narrow(b, ch)) {
      InsertGuard(b, prompt, shown, l.text, Narrow(b, ch), cols);
      InsertShortcut(shown, l.text, Narrow(b, ch), cols);
    }
    if LineBuffer.RemoveResult(b, prompt, cols, l, p) == 2 {
      var t, c := l.text[..p], l.text[p];
      assert l.text == t + [c];
      RemoveGuard(b, prompt, shown, t, c, cols);
      RemoveShortcut(shown, t, c, cols);
      var k := Scrolled(|shown|, l.text, |l.text|, cols);
      assert k > 0 ==> t[k - 1..] == l.text[k - 1..|l.text| - 1];
    }
  }

  lemma EraseBeforeBlanks(row: Row, p: Row)
    requires row.column == p.column == |p.cells| > 0 && p.cells <= row.cells
    requires forall i :: |p.cells| <= i < |row.cells| ==> row.cells[i] == SPACE
    ensures var r, q := EraseLast(row), EraseLast(p);
      && r.column == q.column == |q.cells| - 1 && q.cells[|q.cells| - 1] == SPACE && q.cells <= r.cells
      && forall i :: |q.cells| - 1 <= i < |r.cells| ==> r.cells[i] == SPACE
  {
    var front, c := p.cells[..|p.cells| - 1], p.cells[|p.cells| - 1];
    assert p.cells == front + [c];
    EraseAtEnd(front, c);
  }
}
