// linenoiseEdit of linenoise.c on the byte buffer and the history array, step by
// step the pure editor of module Editing. One-byte build.
module Editor {
  import opened Bytes
  import opened Codec
  import opened Text
  import opened Editing
  import L = Line
  import LineBuffer
  import History
  import Screen
  import opened RunLaws

  // strstr: the first occurrence of `needle`, or -1.
  method Strstr(hay: seq<byte>, needle: seq<byte>) returns (p: int)
    ensures FirstFrom(hay, needle, 0) == if p < 0 then None else Some(p)
    ensures p <= |hay|
  {
    var i := 0;
    while i <= |hay|
      invariant 0 <= i <= |hay| + 1
      invariant i <= |hay| ==> FirstFrom(hay, needle, 0) == FirstFrom(hay, needle, i)
      invariant i > |hay| ==> FirstFrom(hay, needle, 0).None?
    {
      if needle <= hay[i..] {
        return i;
      }
      i := i + 1;
    }
    return -1;
  }

  class Editor {
    const cur: LineBuffer.Current
    const hist: History.History
    const complete: Option<Completer>
    var input: seq<Key>
    var index: int

    // What the terminal makes of the prompt, the columns it has, and the row it
    // shows.
    const shown: seq<Code>
    const cols: int
    ghost var row: Screen.Row

    ghost predicate Valid()
      reads this, cur, cur.buf, hist, hist.slots
    {
      && cur.Valid()
      && cur.build == ByteBuild
      && hist.Valid()
      && index >= 0
      && Ok(cur.buf.Length, View())
      && Screen.PromptShown(ByteBuild, cur.prompt, shown)
    }

    // The keys that put the row out of step.
    ghost function Slipping(): (State, Key) -> bool
      reads this
    {
      Slips(cur.buf.Length, cur.prompt, shown, cols)
    }

    // The row shows the line.
    ghost predicate Shown()
      requires cur.Valid()
      reads this, cur, cur.buf
    {
      cur.cols == cols && Screen.InStep(row, shown, cur.View(), cols)
    }

    ghost function View(): State
      requires cur.Valid() && index >= 0
      reads this, cur, cur.buf, hist
    {
      State(cur.View(), cur.kill, hist.lines, index)
    }

    ghost function Config(): Settings
      reads this
    {
      Settings(cur.buf.Length, complete)
    }

    constructor (hist: History.History, complete: Option<Completer>, max: nat, prompt: seq<byte>,
                 shown: seq<Code>, cols: int, input: seq<Key>)
      requires max >= 1
      ensures this.hist == hist && this.complete == complete && this.input == input
      ensures this.shown == shown && this.cols == cols && cur.prompt == prompt
      ensures fresh(cur) && fresh(cur.buf) && cur.Ready() && cur.build == ByteBuild && cur.buf.Length == max
      ensures cur.kill == None
    {
      this.hist, this.complete := hist, complete;
      this.input, this.index := input, 0;
      this.shown, this.cols, this.row := shown, cols, Screen.Row([], 0);
      this.cur := new LineBuffer.Current(ByteBuild, max, prompt);
    }

    // fd_read and check_special
    method FdRead() returns (c: Key)
      modifies `input
      ensures (c, input) == Next(old(input))
    {
      if input == [] {
        c := -1;
      } else {
        c, input := input[0], input[1..];
      }
    }

    // The C string in the buffer: read to the first zero byte, wherever `len` is.
    method Contents() returns (s: seq<byte>)
      requires cur.Valid() && cur.build == ByteBuild
      ensures s == CStr(cur.text)
    {
      EncodeBytes(cur.text);
      assert cur.buf[..cur.len] == cur.text;
      ghost var k := StrLen(cur.text);
      assert forall i :: 0 <= i < k ==> cur.buf[..][i] == cur.buf[..cur.len][i];
      StrLenUnique(cur.buf[..], k);
      var n := StrLen(cur.buf[..]);
      s := cur.buf[..n];
    }

    // set_current with any string.
    method SetLine(s: seq<byte>)
      requires cur.Ready() && cur.build == ByteBuild
      modifies cur`len, cur`chars, cur`pos, cur`text, cur.buf
      ensures cur.Valid()
      ensures cur.View() == Whole(L.Fitting(cur.buf.Length, s))
    {
      ghost var t := L.Fitting(cur.buf.Length, s);
      assert ValidText(ByteBuild, t);
      EncodeBytes(t);
      cur.SetCurrent(s, t);
    }

    // refreshLine with the session's prompt
    method Refresh()
      requires cur.Valid() && Screen.PromptShown(cur.build, cur.prompt, shown)
      modifies `row, cur`cols
      ensures cur.Valid() && cur.View() == old(cur.View()) && Shown()
    {
      hide EncodeAll, ValidText, Screen.Picture, Screen.InStep, Screen.PromptShown, Screen.After;
      var ops := Screen.RefreshLine(cur, cur.prompt, shown, cols, row);
      row := Screen.After(cur.build, row, ops);
      Screen.PictureInStep(shown, cur.View(), cols);
    }

    // A typed character, drawn by insert_char itself or by a redraw.
    method TypeChar(c: Key)
      requires Valid()
      modifies `row, cur`cols, cur`len, cur`chars, cur`pos, cur`text, cur.buf
      ensures cur.Valid()
      ensures cur.View() == L.Insert(ByteBuild, cur.buf.Length, old(cur.View()), old(cur.pos), c)
      ensures old(Shown()) ==> (Shown() <==>
        !Screen.InsertSlips(ByteBuild, cur.buf.Length, cur.prompt, shown, cols, old(cur.View()), old(cur.pos), c))
    {
      hide EncodeAll, Encode, Ok, ValidText, LineBuffer.Zeros, Screen.InStep, Screen.PromptShown, Screen.Picture;
      hide hist.Valid;
      ghost var l := cur.View();
      var r := cur.InsertChar(cur.pos, c);
      if r == 2 {
        if old(Shown()) {
          Screen.InsertInStep(ByteBuild, cur.buf.Length, cur.prompt, shown, row, l, l.pos, c, cols);
        }
        row := Screen.Write(row, [Narrow(ByteBuild, c)]);
      } else if r == 1 {
        Refresh();
      }
    }

    // A character deleted, erased by remove_char itself or by a redraw.
    method EraseChar(p: int)
      requires Valid()
      modifies `row, cur`cols, cur`len, cur`chars, cur`pos, cur`text, cur.buf
      ensures cur.Valid()
      ensures cur.View() == L.Remove(old(cur.View()), p)
      ensures old(Shown()) ==> (Shown() <==>
        !Screen.RemoveSlips(ByteBuild, cur.prompt, shown, cols, old(cur.View()), p))
    {
      hide EncodeAll, Encode, Ok, ValidText, LineBuffer.Zeros, Screen.InStep, Screen.PromptShown, Screen.Scrolled;
      hide hist.Valid;
      ghost var l := cur.View();
      var r := cur.RemoveChar(p);
      if r == 2 {
        if old(Shown()) {
          EncodeBytes(l.text);
          Screen.RemoveInStep(ByteBuild, cur.prompt, shown, row, l, p, cols);
        }
        row := if row.column > 0 then Screen.EraseLast(row) else row;
      } else if r == 1 {
        Refresh();
      }
    }

    // Deleting at the cursor is never done directly.
    lemma DeleteNeverSlips(l: L.Line)
      ensures !Screen.RemoveSlips(ByteBuild, cur.prompt, shown, cols, l, l.pos)
    {
    }

    // The keys that only move the cursor.
    method MoveCursor(c: Key)
      requires Valid() && CursorKey(c)
      modifies `row, cur`cols, cur`pos
      ensures cur.Valid()
      ensures cur.View() == EditLine(cur.buf.Length, old(cur.View()), c)
      ensures old(Shown()) ==> Shown()
    {
      hide EncodeAll, Encode, Transpose, Ok, HistoryOk, Screen.InStep, Screen.PromptShown;
      hide hist.Valid, ValidText, LineBuffer.Zeros;
      if c == CTRL_B || c == SPECIAL_LEFT {
        if cur.pos > 0 {
          cur.pos := cur.pos - 1;
          Refresh();
        }
      } else if c == CTRL_F || c == SPECIAL_RIGHT {
        if cur.pos < cur.chars {
          cur.pos := cur.pos + 1;
          Refresh();
        }
      } else if c == CTRL_A || c == SPECIAL_HOME {
        cur.pos := 0;
        Refresh();
      } else if c == CTRL_E || c == SPECIAL_END {
        cur.pos := cur.chars;
        Refresh();
      }
    }

    // The keys that only edit the line.
    method EditKey(c: Key)
      requires Valid()
      modifies `row, cur`cols, cur`len, cur`chars, cur`pos, cur`text, cur.buf
      ensures cur.Valid()
      ensures cur.View() == EditLine(cur.buf.Length, old(cur.View()), c)
      ensures old(Shown()) ==> (Shown() <==> !KeySlips(cur.buf.Length, cur.prompt, shown, cols, old(cur.View()), c))
    {
      hide EncodeAll, Encode, Transpose, Ok, HistoryOk, Screen.InStep, Screen.PromptShown, Screen.InsertSlips,
          Screen.RemoveSlips;
      hide hist.Valid, ValidText, LineBuffer.Zeros;
      if c == BACKSPACE || c == CTRL_H {
        EraseChar(cur.pos - 1);
      } else if c == CTRL_D || c == SPECIAL_DELETE {
        DeleteNeverSlips(cur.View());
        EraseChar(cur.pos);
      } else if c == CTRL_T {
        TransposeChars();
      } else if CursorKey(c) {
        MoveCursor(c);
      } else if c == CTRL_L {
        cur.cols := 0;
        Refresh();
      } else if c == TAB || c >= ' ' as int {
        TypeChar(c);
      }
    }

    // ^T
    method TransposeChars()
      requires Valid()
      modifies `row, cur`cols, cur`len, cur`chars, cur`pos, cur`text, cur.buf
      ensures cur.Valid()
      ensures cur.View() == Transpose(ByteBuild, cur.buf.Length, old(cur.View()))
      ensures old(Shown()) ==> Shown()
    {
      hide EncodeAll, Encode, Ok, HistoryOk, Screen.InStep, Screen.PromptShown, hist.Valid;
      if cur.pos > 0 && cur.pos <= cur.chars {
        var fixer := if cur.pos == cur.chars then 1 else 0;
        var ch := cur.GetChar(cur.pos - fixer);
        var _ := cur.RemoveChar(cur.pos - fixer);
        var _ := cur.InsertChar(cur.pos - 1, ch);
        Refresh();
      }
    }

    // ^W, ^U, ^K
    method CutText(c: Key)
      requires Valid() && CutKey(c)
      modifies `row, cur`cols, cur`len, cur`chars, cur`pos, cur`text, cur`capture, cur`kill, cur.buf
      ensures cur.Valid()
      ensures View() == var st := old(View()); Cut(st, CutRange(st.line, c).0, CutRange(st.line, c).1)
      ensures old(Shown()) ==> Shown()
    {
      hide EncodeAll, Encode, ValidText, Ok, HistoryOk, L.RemoveMany, L.Capture, WordStart;
      hide hist.Valid, LineBuffer.Zeros, Screen.InStep, Screen.PromptShown;
      var p, n := 0, cur.pos;
      if c == CTRL_W {
        p := BackOverWord();
        n := cur.pos - p;
      } else if c == CTRL_K {
        p, n := cur.pos, cur.chars - cur.pos;
      }
      ghost var l := cur.View();
      var removed := cur.RemoveChars(p, n);
      NothingRemoved(l, p, n);
      if removed != 0 {
        Refresh();
      }
    }

    method BackOverWord() returns (p: nat)
      requires Valid()
      ensures p == WordStart(cur.text, cur.pos)
    {
      hide EncodeAll, Encode, ValidText, HistoryOk, hist.Valid, LineBuffer.Zeros, Screen.PromptShown;
      p := cur.pos;
      while p > 0
        invariant p <= cur.pos && BlanksStart(cur.text, p) == BlanksStart(cur.text, cur.pos)
      {
        var ch := cur.GetChar(p - 1);
        if ch != SPACE {
          break;
        }
        p := p - 1;
      }
      assert p == BlanksStart(cur.text, cur.pos);
      while p > 0
        invariant p <= cur.pos && NonBlanksStart(cur.text, p) == WordStart(cur.text, cur.pos)
      {
        var ch := cur.GetChar(p - 1);
        if ch == SPACE {
          break;
        }
        p := p - 1;
      }
    }

    // ^Y
    method YankText()
      requires Valid()
      modifies `row, cur`cols, cur`len, cur`chars, cur`pos, cur`text, cur.buf
      ensures cur.Valid()
      ensures View() == Yank(ByteBuild, cur.buf.Length, old(View()))
      ensures old(Shown()) ==> Shown()
    {
      hide EncodeAll, Encode, ValidText, Ok, HistoryOk, L.InsertMany, CStr, StrLen;
      hide hist.Valid, LineBuffer.Zeros, Screen.InStep, Screen.PromptShown;
      if cur.capture.Some? {
        ghost var l := cur.View();
        var inserted := cur.InsertChars(cur.pos, cur.capture.value, cur.kill.value);
        NothingInserted(cur.buf.Length, l, cur.kill.value);
        if inserted != 0 {
          Refresh();
        }
      }
    }

    // ^V: shown as ^V until the next key arrives and takes its place.
    method QuoteKey()
      requires Valid()
      modifies `input, `row, cur`cols, cur`len, cur`chars, cur`pos, cur`text, cur.buf
      ensures cur.Valid()
      ensures (cur.View(), input) == Quoted(cur.buf.Length, old(cur.View()), old(input))
      ensures old(Shown()) ==> Shown()
    {
      hide EncodeAll, Screen.InStep, Screen.PromptShown, hist.Valid, Ok;
      ghost var l := cur.View();
      EncodeBytes(cur.text);
      if cur.HasRoom(3) {
        var r := cur.InsertChar(cur.pos, CTRL_V);
        if r != 0 {
          Refresh();
          var c := FdRead();
          assert cur.View() == L.InsertAt(l, l.pos, CTRL_V);
          var _ := cur.RemoveChar(cur.pos - 1);
          TakeBack(l, CTRL_V);
          if c != -1 {
            var _ := cur.InsertChar(cur.pos, c);
          }
          Refresh();
        }
      }
    }

    // Up, down, page up, page down.
    method NavigateHistory(dir: int)
      requires Valid()
      modifies `index, `row, cur`cols, cur`len, cur`chars, cur`pos, cur`text, cur.buf
      modifies hist`lines, hist`live, hist.slots
      ensures cur.Valid() && hist.Valid() && index >= 0
      ensures View() == Navigate(cur.buf.Length, old(View()), dir)
      ensures old(Shown()) ==> Shown()
    {
      hide EncodeAll, Encode, HistoryOk, CStr, L.Fitting, StrLen, ValidText, Whole, LineBuffer.Zeros, Navigate,
          hist.Valid;
      hide Screen.InStep, Screen.PromptShown;
      hist.LenOfLines();
      NavigateCases(cur.buf.Length, View(), dir);
      if hist.len > 1 {
        SaveEdit();
        hist.LenOfLines();
        index := index + dir;
        if index < 0 {
          index := 0;
          return;
        } else if index >= hist.len {
          index := hist.len - 1;
          return;
        }
        ShowSlot(hist.len - 1 - index);
        Refresh();
      }
    }

    method ShowSlot(k: nat)
      requires cur.Ready() && cur.build == ByteBuild && hist.Valid() && k < hist.len
      modifies cur`len, cur`chars, cur`pos, cur`text, cur.buf
      ensures cur.Valid() && hist.Valid()
      ensures cur.View() == Whole(L.Fitting(cur.buf.Length, hist.lines[k]))
    {
      hide EncodeAll, Encode, ValidText;
      SetLine(hist.slots[k].text);
    }

    // The history line edited gets the text as it is now.
    method SaveEdit()
      requires Valid()
      modifies hist`lines, hist`live, hist.slots
      ensures cur.Valid() && hist.Valid()
      ensures hist.lines == old(hist.lines)[|old(hist.lines)| - 1 - index := CStr(cur.text)]
    {
      hide EncodeAll, Encode, HistoryOk, CStr, StrLen;
      var s := Contents();
      hist.Replace(hist.len - 1 - index, s);
      CStrIdempotent(cur.text);
    }

    // The inner loop of the incremental search: from `from` in direction `dir`
    // to the first history line that matches.
    method ScanHistory(from: int, dir: int, needle: seq<byte>, skipsame: bool) returns (at: int, p: int)
      requires Valid() && (dir == 1 || dir == -1)
      ensures at == Scan(hist.lines, from, dir, needle, if skipsame then Some(CStr(cur.text)) else None)
      ensures p >= 0 <==> 0 <= at < hist.len
      ensures p >= 0 ==> FirstFrom(hist.lines[at], needle, 0) == Some(p)
    {
      hide EncodeAll, Encode, ValidText, Ok, HistoryOk, CStr, StrLen, FirstFrom, Scan, Match;
      var shown := Contents();
      ghost var skip := if skipsame then Some(CStr(cur.text)) else None;
      at := from;
      while at >= 0 && at < hist.len
        invariant Scan(hist.lines, at, dir, needle, skip) == Scan(hist.lines, from, dir, needle, skip)
        decreases if dir == 1 then hist.len - at else at
      {
        ScanStep(hist.lines, at, dir, needle, skip);
        p := Strstr(hist.slots[at].text, needle);
        if p >= 0 && !(skipsame && hist.slots[at].text == shown) {
          return;
        }
        at := at + dir;
      }
      ScanEnd(hist.lines, at, dir, needle, skip);
      p := -1;
    }

    method ShowMatch(at: nat, p: nat)
      requires Valid() && at < hist.len && p <= |hist.lines[at]|
      modifies cur`len, cur`chars, cur`pos, cur`text, cur.buf
      ensures cur.Valid()
      ensures cur.View() == L.Line(L.Fitting(cur.buf.Length, hist.lines[at]), p)
    {
      hide EncodeAll, Encode;
      FittingOk(cur.buf.Length, hist.lines[at]);
      SetLine(hist.slots[at].text);
      cur.pos := p;
    }

    // One search key: scan, and show the line it lands on.
    method SearchOnce(c: Key, query: seq<byte>, searchpos: int) returns (query': seq<byte>, searchpos': int)
      requires Valid() && SearchKey(c)
      modifies cur`len, cur`chars, cur`pos, cur`text, cur.buf
      ensures cur.Valid()
      ensures (cur.View(), Query(query', searchpos')) ==
        SearchStep(cur.buf.Length, hist.lines, old(cur.View()), Query(query, searchpos), c)
    {
      hide FirstFrom, Scan, EncodeAll, Encode, CStr, StrLen, L.Fitting, Ok, HistoryOk, ValidText;
      hide hist.Valid, LineBuffer.Zeros;
      hist.LenOfLines();
      query' := query;
      searchpos' := searchpos;
      var n, skipsame, searchdir := 0, false, -1;
      if c == CTRL_P || c == SPECIAL_UP {
        if searchpos > 0 {
          searchpos' := searchpos - 1;
        }
        skipsame := true;
      } else if c == CTRL_N || c == SPECIAL_DOWN {
        if searchpos < hist.len {
          searchpos' := searchpos + 1;
        }
        searchdir, skipsame := 1, true;
      } else {
        query' := query + [c];
        n := 1;
        searchpos' := hist.len - 1;
      }
      var p;
      searchpos', p := ScanHistory(searchpos', searchdir, query', skipsame);
      if p >= 0 {
        ShowMatch(searchpos', p);
      } else if n > 0 {
        query' := query;
      }
    }

    // ^R. Returns the key that ended the search, for the caller to process. What the
    // row shows in between is not followed; in the end it is redrawn.
    method ReverseSearch() returns (c: Key)
      requires Valid()
      modifies `input, `row, cur`cols, cur`len, cur`chars, cur`pos, cur`text, cur.buf
      ensures cur.Valid() && Shown()
      ensures Searched(cur.View(), c, input) ==
        Search(cur.buf.Length, hist.lines, old(cur.View()), Query([], |hist.lines| - 1), old(input))
    {
      hide EncodeAll, Encode, SearchStep, HistoryOk, CStr, StrLen, L.Fitting, hist.Valid, ValidText, LineBuffer.Zeros;
      hide Screen.InStep, Screen.PromptShown, Search;
      hist.LenOfLines();
      var query: seq<byte>, searchpos := [], hist.len - 1;
      ghost var target := Search(cur.buf.Length, hist.lines, cur.View(), Query([], |hist.lines| - 1), input);
      while true
        invariant Valid()
        invariant Search(cur.buf.Length, hist.lines, cur.View(), Query(query, searchpos), input) == target
        decreases |input|
      {
        SearchUnfold(cur.buf.Length, hist.lines, cur.View(), Query(query, searchpos), input);
        c := FdRead();
        if c == CTRL_H || c == BACKSPACE {
          if |query| > 0 {
            query := query[..|query| - 1];
          }
          continue;
        }
        if c == ESC {
          c := FdRead();
        }
        if !SearchKey(c) {
          break;
        }
        SearchStepOk(cur.buf.Length, hist.lines, cur.View(), Query(query, searchpos), c);
        query, searchpos := SearchOnce(c, query, searchpos);
      }
      if c == CTRL_G || c == CTRL_C {
        SetLine([]);
        FittingNothing(cur.buf.Length);
        c := 0;
      } else if c == CTRL_J {
        c := 0;
      }
      Refresh();
    }

    // Shows a completion in place of the line: refreshLine on a copy of the struct.
    method ShowCompletion(comp: seq<byte>)
      requires cur.Valid() && Screen.PromptShown(ByteBuild, cur.prompt, shown)
      modifies `row
      ensures Screen.InStep(row, shown, Whole(CStr(comp)), cols)
    {
      hide EncodeAll, Encode, Screen.Picture, Screen.InStep, Screen.PromptShown, Screen.After, CStr;
      var tmp := new LineBuffer.Current(ByteBuild, |comp| + 1, cur.prompt);
      ghost var t := CStr(comp);
      CompletionText(comp);
      tmp.SetCurrent(comp, t);
      var ops := Screen.RefreshLine(tmp, cur.prompt, shown, cols, row);
      row := Screen.After(tmp.build, row, ops);
      Screen.PictureInStep(shown, tmp.View(), cols);
    }

    // completeLine, once there is something to offer.
    method CompleteLine(comps: seq<seq<byte>>) returns (c: Key)
      requires Valid() && comps != []
      modifies `input, `row, cur`cols, cur`len, cur`chars, cur`pos, cur`text, cur.buf
      ensures cur.Valid()
      ensures Searched(cur.View(), c, input) == Complete(cur.buf.Length, old(cur.View()), comps, 0, old(input))
      ensures old(Shown()) && c != -1 && AllFit(cur.buf.Length, comps) ==> Shown()
    {
      hide EncodeAll, Encode, ValidText, HistoryOk, L.Fitting, CStr, StrLen;
      hide hist.Valid, LineBuffer.Zeros, Screen.InStep, Screen.PromptShown, AllFit;
      var i := 0;
      while true
        invariant Valid() && 0 <= i <= |comps| && cur.View() == old(cur.View())
        invariant old(Shown()) ==> cur.cols == cols
        invariant Complete(cur.buf.Length, cur.View(), comps, i, input)
               == Complete(cur.buf.Length, cur.View(), comps, 0, old(input))
        decreases |input|
      {
        if i < |comps| {
          ShowCompletion(comps[i]);
        } else {
          Refresh();
        }
        c := FdRead();
        if c == -1 {
          return;
        }
        if c == TAB {
          i := (i + 1) % (|comps| + 1);
        } else if c == ESC {
          if i < |comps| {
            Refresh();
          }
          return;
        } else {
          if i < |comps| {
            SetLine(comps[i]);
            OfferFits(cur.buf.Length, comps, i);
          }
          return;
        }
      }
    }

    // The keys after which the loop goes on.
    method ApplyKey(c: Key)
      requires Valid()
      modifies `input, `index, `row, cur`cols, cur`len, cur`chars, cur`pos, cur`text, cur`capture, cur`kill, cur.buf
      modifies hist`lines, hist`live, hist.slots
      ensures Valid()
      ensures (View(), input) == Apply(cur.buf.Length, old(View()), c, old(input))
      ensures old(Shown()) ==> (Shown() <==> !KeySlips(cur.buf.Length, cur.prompt, shown, cols, old(cur.View()), c))
    {
      hide EncodeAll, Navigate, EditLine, Quoted, Cut, Yank, Ok;
      hide Screen.InStep, Screen.PromptShown, Screen.InsertSlips, Screen.RemoveSlips;
      ApplyOk(cur.buf.Length, View(), c, input);
      if c == CTRL_V {
        QuoteKey();
      } else if CutKey(c) {
        CutText(c);
      } else if c == CTRL_Y {
        YankText();
      } else if NavigationKey(c) {
        var dir := -1;
        if c == SPECIAL_PAGE_UP {
          dir := hist.len - index - 1;
        } else if c == SPECIAL_PAGE_DOWN {
          dir := -index;
        } else if c == CTRL_P || c == SPECIAL_UP {
          dir := 1;
        }
        NavigateHistory(dir);
      } else {
        EditKey(c);
      }
    }

    method ActOn(c: Key) returns (done: bool, outcome: Outcome)
      requires Valid()
      modifies `input, `index, `row, cur`cols, cur`len, cur`chars, cur`pos, cur`text, cur`capture, cur`kill, cur.buf
      modifies hist`len, hist`lines, hist`live, hist.slots
      ensures cur.Valid() && hist.Valid() && index >= 0
      ensures !done ==> Valid()
      ensures Act(cur.buf.Length, old(View()), c, old(input)) ==
        if done then Done(outcome, View(), input) else More(View(), input)
      ensures old(Shown()) ==> (Shown() <==> !KeySlips(cur.buf.Length, cur.prompt, shown, cols, old(cur.View()), c))
    {
      hide EncodeAll, Apply, HistoryOk, Screen.InStep, Screen.PromptShown, Screen.InsertSlips, Screen.RemoveSlips;
      EncodeBytes(cur.text);
      if c == ENTER {
        hist.DropLast();
        return true, Entered;
      } else if c == CTRL_C {
        return true, Interrupted;
      } else if c == CTRL_D && cur.len == 0 {
        hist.DropLast();
        return true, EndOfFile;
      }
      ApplyKey(c);
      return false, ReadFailed;
    }

    // The switch of linenoiseEdit, with its jumps back to `process_char`.
    method ProcessKey(c0: Key) returns (done: bool, outcome: Outcome)
      requires Valid()
      modifies `input, `index, `row, cur`cols, cur`len, cur`chars, cur`pos, cur`text, cur`capture, cur`kill, cur.buf
      modifies hist`len, hist`lines, hist`live, hist.slots
      ensures cur.Valid() && hist.Valid() && index >= 0
      ensures !done ==> Valid()
      ensures Process(Config(), old(View()), c0, old(input)) ==
        if done then Done(outcome, View(), input) else More(View(), input)
      ensures old(Shown()) ==> (Shown() <==> !ProcessActs(Slipping(), Config(), old(View()), c0, old(input)))
    {
      hide ProcessActs, Screen.InStep, Screen.PromptShown, KeySlips;
      hide EncodeAll, Act, Search, HistoryOk, LineOk, hist.Valid, cur.Valid;
      var c := c0;
      while true
        invariant Valid()
        invariant Process(Config(), View(), c, input) == Process(Config(), old(View()), c0, old(input))
        invariant ProcessActs(Slipping(), Config(), View(), c, input)
              <==> ProcessActs(Slipping(), Config(), old(View()), c0, old(input))
        invariant old(Shown()) ==> Shown()
        decreases |input|, if c == -1 then 0 else 1
      {
        ProcessActsStep(Slipping(), Config(), View(), c, input);
        if c == -1 {
          return true, ReadFailed;
        }
        if c == ESC {
          c := FdRead();
        }
        if c != CTRL_R {
          break;
        }
        SearchOk(cur.buf.Length, hist.lines, cur.View(), Query([], |hist.lines| - 1), input);
        c := ReverseSearch();
      }
      done, outcome := ActOn(c);
    }

    // One round of the key loop.
    method TakeTurn() returns (done: bool, outcome: Outcome)
      requires Valid()
      modifies `input, `index, `row, cur`cols, cur`len, cur`chars, cur`pos, cur`text, cur`capture, cur`kill, cur.buf
      modifies hist`len, hist`lines, hist`live, hist.slots
      ensures cur.Valid() && hist.Valid() && index >= 0
      ensures !done ==> Valid()
      ensures Turn(Config(), old(View()), old(input)) ==
        if done then Done(outcome, View(), input) else More(View(), input)
      ensures old(Shown()) && CompletionsFit(Config()) ==>
        (done && outcome == ReadFailed) || (Shown() <==> !TurnActs(Slipping(), Config(), old(View()), old(input)))
    {
      hide EncodeAll, Process, Complete, hist.Valid, ValidText, LineBuffer.Zeros, HistoryOk, LineOk;
      hide ProcessActs, Screen.InStep, Screen.PromptShown, KeySlips, AllFit;
      TurnOk(Config(), View(), input);
      var c := FdRead();
      if c == TAB && cur.pos == cur.chars && complete.Some? {
        var shown := Contents();
        var comps := complete.value(shown);
        if comps == [] {
          return false, ReadFailed;
        }
        CompleteOk(cur.buf.Length, cur.View(), comps, 0, input);
        c := CompleteLine(comps);
        if c < 0 {
          return true, ReadFailed;
        }
        if c == 0 {
          return false, ReadFailed;
        }
      }
      done, outcome := ProcessKey(c);
    }

    // linenoiseEdit: whatever is typed, the run of the pure editor. And the row shows
    // the line when the session is ended by a key, if no key acted on put it out of
    // step before.
    method Edit() returns (outcome: Outcome)
      requires cur.Ready() && cur.build == ByteBuild && cur.kill == None
      requires hist.Valid() && hist.max >= 1 && HistoryOk(cur.buf.Length, hist.lines)
      requires Screen.PromptShown(ByteBuild, cur.prompt, shown)
      modifies `input, `index, `row, cur, cur.buf, hist, hist.slots
      ensures cur.Valid() && hist.Valid() && index >= 0 && hist.max == old(hist.max)
      ensures hist.slots == old(hist.slots) || fresh(hist.slots)
      ensures Session(Config(), hist.max, old(hist.lines), old(input)) == Done(outcome, View(), input)
      ensures !SessionActs(Slipping(), Config(), hist.max, old(hist.lines), old(input)) && CompletionsFit(Config()) ==>
        outcome == ReadFailed || Shown()
    {
      hide TurnActs, CompletionsFit, Screen.InStep, Screen.PromptShown, KeySlips;
      hide EncodeAll, Turn, Ok, hist.Valid, CStr, L.Fitting, ValidText, LineBuffer.Zeros;
      StartOk(cur.buf.Length, hist.max, hist.lines);
      var _ := hist.Add([]);
      SetLine([]);
      FittingNothing(cur.buf.Length);
      index := 0;
      Refresh();
      outcome := ReadFailed;
      var done := false;
      while !done
        invariant cur.Valid() && hist.Valid() && index >= 0 && hist.max == old(hist.max)
        invariant hist.slots == old(hist.slots) || fresh(hist.slots)
        invariant cur.build == ByteBuild
        invariant !done ==> Valid()
        invariant Session(Config(), hist.max, old(hist.lines), old(input)) ==
          if done then Done(outcome, View(), input) else Run(Config(), View(), input)
        invariant !done && RunActs(Slipping(), Config(), View(), input) ==>
          SessionActs(Slipping(), Config(), hist.max, old(hist.lines), old(input))
        invariant !SessionActs(Slipping(), Config(), hist.max, old(hist.lines),
            old(input)) && CompletionsFit(Config()) ==>
          (done && outcome == ReadFailed) || Shown()
        invariant Screen.PromptShown(ByteBuild, cur.prompt, shown)
        decreases !done, |input|
      {
        done, outcome := TakeTurn();
      }
    }
  }

  lemma NavigateCases(max: nat, st: State, dir: int)
    requires st.index < |st.hist| && max >= 1
    ensures var r := Navigate(max, st, dir);
      var n := |st.hist|;
      var saved := st.hist[n - 1 - st.index := CStr(st.line.text)];
      && r.kill == st.kill
      && if n <= 1 then r == st
         else if 0 <= st.index + dir < n then
           r == State(Whole(L.Fitting(max, saved[n - 1 - (st.index + dir)])), st.kill, saved, st.index + dir)
         else r == State(st.line, st.kill, saved, if st.index + dir < 0 then 0 else n - 1)
  {
  }

  predicate CursorKey(c: Key) {
    || c == CTRL_B || c == SPECIAL_LEFT || c == CTRL_F || c == SPECIAL_RIGHT
    || c == CTRL_A || c == SPECIAL_HOME || c == CTRL_E || c == SPECIAL_END
  }

  // The keys that put the row out of step: a shortcut is taken where it should not.
  predicate KeySlips(max: nat, prompt: seq<byte>, shown: seq<Code>, cols: int, l: L.Line, c: Key) {
    if c == BACKSPACE || c == CTRL_H then Screen.RemoveSlips(ByteBuild, prompt, shown, cols, l, l.pos - 1)
    else (c == TAB || c >= ' ' as int) && Screen.InsertSlips(ByteBuild, max, prompt, shown, cols, l, l.pos, c)
  }

  function Slips(max: nat, prompt: seq<byte>, shown: seq<Code>, cols: int): (State, Key) -> bool {
    (st: State, c: Key) => KeySlips(max, prompt, shown, cols, st.line, c)
  }

  predicate SessionActs(p: (State, Key) -> bool, g: Settings, maxLines: int, hist: seq<seq<Code>>, input: seq<Key>)
    requires g.max >= 1 && maxLines >= 1 && HistoryOk(g.max, hist)
  {
    StartOk(g.max, maxLines, hist);
    RunActs(p, g, Start(maxLines, hist), input)
  }

  // No completion is cut when it is taken.
  predicate AllFit(max: nat, comps: seq<seq<byte>>) {
    forall i :: 0 <= i < |comps| ==> |CStr(comps[i])| < max
  }

  ghost predicate CompletionsFit(g: Settings) {
    g.complete.Some? ==> forall t: seq<Code> :: AllFit(g.max, g.complete.value(t))
  }

  lemma OfferFits(max: nat, comps: seq<seq<byte>>, i: nat)
    requires max >= 1 && i < |comps|
    ensures AllFit(max, comps) ==> L.Fitting(max, comps[i]) == CStr(comps[i])
  {
  }

  lemma CompletionText(comp: seq<byte>)
    ensures L.Fitting(|comp| + 1, comp) == CStr(comp)
    ensures ValidText(ByteBuild, CStr(comp)) && EncodeAll(ByteBuild, CStr(comp)) == CStr(comp)
  {
    EncodeBytes(CStr(comp));
  }

  lemma NothingRemoved(l: L.Line, p: nat, n: nat)
    requires p + n <= |l.text|
    ensures |L.RemoveMany(l, p, n).text| == |l.text| ==> L.RemoveMany(l, p, n) == l
  {
    L.RemoveManyIsCut(l, p, n);
  }

  lemma NothingInserted(max: nat, l: L.Line, t: seq<Code>)
    requires ValidText(ByteBuild, t) && l.pos <= |l.text|
    ensures var r := L.InsertMany(ByteBuild, max, l, l.pos, CStr(t));
      |r.text| == |l.text| ==> r == l
  {
    L.InsertManyIsSplice(ByteBuild, max, l, l.pos, CStr(t));
    L.SpliceNothing(l, l.pos);
  }

  lemma FittingNothing(max: nat)
    requires max >= 1
    ensures L.Fitting(max, []) == []
  {
  }

  lemma SearchUnfold(max: nat, hist: seq<seq<Code>>, l: L.Line, q: Query, input: seq<Key>)
    requires max >= 1
    ensures var (c0, rest0) := Next(input);
      Search(max, hist, l, q, input) ==
        if c0 == CTRL_H || c0 == BACKSPACE then
          Search(max, hist, l, q.(text := if q.text == [] then [] else q.text[..|q.text| - 1]), rest0)
        else
          var (c, rest) := if c0 == ESC then Next(rest0) else (c0, rest0);
          if SearchKey(c) then
            var (l', q') := SearchStep(max, hist, l, q, c);
            Search(max, hist, l', q', rest)
          else if c == CTRL_G || c == CTRL_C then Searched(Whole([]), 0, rest)
          else if c == CTRL_J then Searched(l, 0, rest)
          else Searched(l, c, rest)
  {
    hide SearchStep;
  }

  lemma ScanStep(hist: seq<seq<Code>>, at: int, dir: int, needle: seq<Code>, skip: Option<seq<Code>>)
    requires (dir == 1 || dir == -1) && 0 <= at < |hist|
    ensures Scan(hist, at, dir, needle, skip) ==
      if FirstFrom(hist[at], needle, 0).Some? && !(skip.Some? && hist[at] == skip.value) then at
      else Scan(hist, at + dir, dir, needle, skip)
  {
  }

  lemma ScanEnd(hist: seq<seq<Code>>, at: int, dir: int, needle: seq<Code>, skip: Option<seq<Code>>)
    requires (dir == 1 || dir == -1) && !(0 <= at < |hist|)
    ensures Scan(hist, at, dir, needle, skip) == at
  {
  }

  lemma TakeBack(l: L.Line, c: Code)
    requires l.pos <= |l.text|
    ensures L.Remove(L.InsertAt(l, l.pos, c), l.pos) == l
  {
    assert L.InsertAt(l, l.pos, c).text[..l.pos] == l.text[..l.pos];
    assert L.InsertAt(l, l.pos, c).text[l.pos + 1..] == l.text[l.pos..];
    assert l.text == l.text[..l.pos] + l.text[l.pos..];
  }

  // A run that puts the row out of step: two quoted ^A behind a prompt of five on ten
  // columns, and a letter, which is written where the line should have been scrolled.
  lemma RowSlips(g: Settings, maxLines: int, prompt: seq<byte>, rest: seq<Key>)
    requires g.max >= 8 && maxLines >= 1 && |prompt| == 5 && 0 !in prompt && 27 !in prompt
    ensures Screen.PromptShown(ByteBuild, prompt, prompt) && HistoryOk(g.max, [])
    ensures SessionActs(Slips(g.max, prompt, prompt, 10), g, maxLines, [],
      [CTRL_V] + ([CTRL_A] + ([CTRL_V] + ([CTRL_A] + (['x' as int] + rest)))))
  {
    hide RunActs, Act, Start, HistoryOk, Screen.PromptShown, KeySlips;
    var p := Slips(g.max, prompt, prompt, 10);
    var input3: seq<Key> := ['x' as int] + rest;
    var input2: seq<Key> := [CTRL_V] + ([CTRL_A] + input3);
    StartsEmpty(g, maxLines);
    Screen.PlainPromptShown(prompt);
    QuotedControl(g, [], input2);
    RunActsKey(p, g, Typed([]), CTRL_V, [CTRL_A] + input2);
    QuotedControl(g, [1], input3);
    RunActsKey(p, g, Typed([1]), CTRL_V, [CTRL_A] + input3);
    assert [] + [1] == [1] && [1] + [1] == [1, 1];
    LetterSlips(g.max, prompt);
    RunActsKey(p, g, Typed([1, 1]), 'x' as int, rest);
  }

  // A session whose line was typed to its end, without a history.
  function Typed(t: seq<Code>): State {
    State(Whole(t), None, [[]], 0)
  }

  lemma StartsEmpty(g: Settings, maxLines: int)
    requires g.max >= 8 && maxLines >= 1
    ensures HistoryOk(g.max, []) && Ok(g.max, Start(maxLines, [])) && Start(maxLines, []) == Typed([])
  {
    StartOk(g.max, maxLines, []);
    CStrWhole([]);
  }

  lemma QuotedControl(g: Settings, t: seq<Code>, rest: seq<Key>)
    requires g.max >= 8 && |t| <= 2 && ValidText(ByteBuild, t)
    ensures Ok(g.max, Typed(t))
    ensures Act(g.max, Typed(t), CTRL_V, [CTRL_A] + rest) == More(Typed(t + [1]), rest)
  {
    CStrWhole([]);
    EncodeBytes(t);
    assert t[..|t|] + [1] + t[|t|..] == t + [1];
    assert ([CTRL_A] + rest)[1..] == rest;
  }

  lemma LetterSlips(max: nat, prompt: seq<byte>)
    requires max >= 8 && |prompt| == 5 && 0 !in prompt
    ensures KeySlips(max, prompt, prompt, 10, Whole([1, 1]), 'x' as int)
  {
    hide Screen.Picture, LineBuffer.Unscrolled, EncodeAll;
    EncodeBytes([1, 1]);
    Screen.InsertGuardFails(prompt, [1, 1]);
    Screen.TwoControlsShown(prompt);
  }

  // linenoise(): a session in a fresh buffer. The line returned is the C string
  // in the buffer; Ctrl-C and end-of-file return no line.
  method Linenoise(hist: History.History, complete: Option<Completer>, prompt: seq<byte>, shown: seq<Code>,
                   cols: int, input: seq<Key>)
    returns (line: Option<seq<byte>>, outcome: Outcome, rest: seq<Key>)
    requires Screen.PromptShown(ByteBuild, prompt, shown)
    requires hist.Valid() && hist.max >= 1 && HistoryOk(MAX_LINE, hist.lines)
    modifies hist, hist.slots
    ensures hist.Valid() && hist.max == old(hist.max) && HistoryOk(MAX_LINE, hist.lines)
    ensures hist.slots == old(hist.slots) || fresh(hist.slots)
    ensures Ok(MAX_LINE, Start(hist.max, old(hist.lines)))
    ensures var r := Run(Settings(MAX_LINE, complete), Start(hist.max, old(hist.lines)), input);
      && outcome == r.outcome && rest == r.rest && hist.lines == r.st.hist
      && line == if outcome == Interrupted || outcome == EndOfFile then None else Some(CStr(r.st.line.text))
  {
    StartOk(MAX_LINE, hist.max, hist.lines);
    RunOk(Settings(MAX_LINE, complete), Start(hist.max, hist.lines), input);
    var ed := new Editor(hist, complete, MAX_LINE, prompt, shown, cols, input);
    outcome := ed.Edit();
    rest := ed.input;
    if outcome == Interrupted || outcome == EndOfFile {
      line := None;
    } else {
      var s := ed.Contents();
      line := Some(s);
    }
  }
}
