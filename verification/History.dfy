// The history of linenoise.c: an array of owned strings, a length and a maximum.
module History {
  import opened Bytes

  // ---------------------------------------------------------------------------
  // The history as a list of lines.

  // linenoiseHistoryAdd: a repeat of the last line is dropped; a full history
  // loses its oldest line.
  function Added(max: int, h: seq<seq<Code>>, line: seq<Code>): seq<seq<Code>> {
    if max == 0 || (h != [] && h[|h| - 1] == CStr(line)) then h
    else (if |h| == max && h != [] then h[1..] else h) + [CStr(line)]
  }

  function AddedAll(max: int, h: seq<seq<Code>>, lines: seq<seq<Code>>): seq<seq<Code>>
    decreases |lines|
  {
    if lines == [] then h else AddedAll(max, Added(max, h, lines[0]), lines[1..])
  }

  // Adjacent repeats removed.
  function Dedup(lines: seq<seq<Code>>): (r: seq<seq<Code>>)
    ensures lines != [] ==> r != [] && r[|r| - 1] == lines[|lines| - 1]
    ensures |r| <= |lines|
    decreases |lines|
  {
    if |lines| <= 1 then lines
    else
      var front, last := lines[..|lines| - 1], lines[|lines| - 1];
      if front[|front| - 1] == last then Dedup(front) else Dedup(front) + [last]
  }

  predicate NoAdjacentRepeats(lines: seq<seq<Code>>) {
    forall i :: 0 < i < |lines| ==> lines[i - 1] != lines[i]
  }

  predicate CStrings(lines: seq<seq<Code>>) {
    forall i :: 0 <= i < |lines| ==> 0 !in lines[i]
  }

  // Adding lines one by one to an empty history of maximum `max` keeps the last
  // `max` of the de-duplicated lines: neither the eviction of old lines nor the
  // comparison with the last line only ever loses more than that.
  lemma {:induction false} AddedAllIsDedup(max: int, lines: seq<seq<Code>>)
    requires max >= 1 && CStrings(lines)
    ensures AddedAll(max, [], lines) == LastN(Dedup(lines), max)
    decreases |lines|
  {
    hide AddedAll, Dedup, LastN;
    if lines == [] {
      NothingAdded(max);
    } else {
      var front, last := lines[..|lines| - 1], lines[|lines| - 1];
      AddedAllIsDedup(max, front);
      AddedAllSnoc(max, [], front, last);
      assert lines == front + [last];
      CStrWhole(last);
      DedupSnoc(front, last);
      NewestKept(max, front, last);
    }
  }

  lemma DedupSnoc(lines: seq<seq<Code>>, line: seq<Code>)
    ensures Dedup([]) == []
    ensures Dedup(lines + [line]) ==
      if lines != [] && lines[|lines| - 1] == line then Dedup(lines) else Dedup(lines) + [line]
  {
    assert (lines + [line])[..|lines|] == lines;
  }

  // Adding to the last `max` of a list without repeats.
  lemma NewestKept(max: int, front: seq<seq<Code>>, last: seq<Code>)
    requires max >= 1 && CStr(last) == last
    ensures Added(max, LastN(Dedup(front), max), last) ==
      LastN(if front != [] && front[|front| - 1] == last then Dedup(front) else Dedup(front) + [last], max)
  {
    hide Dedup, LastN;
    if front != [] {
      LastNSnoc(Dedup(front), last, max);
    } else {
      DedupSnoc([], last);
      LastNOne(last, max);
      assert [] + [last] == [last];
    }
  }

  lemma NothingAdded(max: int)
    requires max >= 1
    ensures AddedAll(max, [], []) == LastN(Dedup([]), max) == []
  {
  }

  lemma LastNOne<T>(x: T, n: nat)
    requires n >= 1
    ensures LastN<T>([], n) == [] && LastN([x], n) == [x]
  {
  }

  lemma LastNSnoc<T>(s: seq<T>, x: T, n: nat)
    requires n >= 1 && s != []
    ensures LastN(s + [x], n) == (if |LastN(s, n)| == n then LastN(s, n)[1..] else LastN(s, n)) + [x]
    ensures LastN(s, n) != [] && LastN(s, n)[|LastN(s, n)| - 1] == s[|s| - 1]
  {
    if |s| >= n {
      assert (s + [x])[|s| + 1 - n..] == s[|s| - n..][1..] + [x];
    }
  }

  lemma {:induction false} AddedAllSnoc(max: int, h: seq<seq<Code>>, lines: seq<seq<Code>>, last: seq<Code>)
    ensures AddedAll(max, h, lines + [last]) == Added(max, AddedAll(max, h, lines), last)
    decreases |lines|
  {
    if lines == [] {
      assert ([last])[1..] == [];
    } else {
      assert (lines + [last])[1..] == lines[1..] + [last];
      AddedAllSnoc(max, Added(max, h, lines[0]), lines[1..], last);
    }
  }

  // De-duplication changes exactly the lists with an adjacent repeat.
  lemma {:induction false} DedupIdentity(lines: seq<seq<Code>>)
    ensures Dedup(lines) == lines <==> NoAdjacentRepeats(lines)
    ensures NoAdjacentRepeats(Dedup(lines))
    decreases |lines|
  {
    hide Dedup, NoAdjacentRepeats;
    if |lines| <= 1 {
      DedupShort(lines);
    } else {
      var front, last := lines[..|lines| - 1], lines[|lines| - 1];
      assert lines == front + [last];
      DedupIdentity(front);
      DedupSnoc(front, last);
      RepeatsSnoc(front, last);
      RepeatsSnoc(Dedup(front), last);
      if Dedup(front) + [last] == lines {
        assert Dedup(front) == lines[..|lines| - 1];
      }
    }
  }

  lemma DedupShort(lines: seq<seq<Code>>)
    requires |lines| <= 1
    ensures Dedup(lines) == lines && NoAdjacentRepeats(lines)
  {
  }

  lemma RepeatsSnoc(lines: seq<seq<Code>>, line: seq<Code>)
    ensures NoAdjacentRepeats(lines + [line]) <==>
      NoAdjacentRepeats(lines) && (lines == [] || lines[|lines| - 1] != line)
  {
    var all := lines + [line];
    assert forall i :: 0 <= i < |lines| ==> all[i] == lines[i];
    if NoAdjacentRepeats(all) {
      assert lines != [] ==> all[|lines| - 1] != all[|lines|];
      assert forall i :: 0 < i < |lines| ==> all[i - 1] != all[i];
    }
  }

  // ---------------------------------------------------------------------------
  // The history as linenoise.c keeps it.

  // A string on the C heap.
  class CString {
    const text: seq<byte>

    constructor (s: seq<byte>)
      ensures text == CStr(s)
    {
      text := s[..StrLen(s)];
    }
  }

  // The live strings are those of `held`, each at one place only.
  predicate Exactly(live: set<CString>, held: seq<CString?>) {
    && (forall i, j :: 0 <= i < j < |held| ==> held[i] != held[j])
    && (forall i :: 0 <= i < |held| ==> held[i] in live)
    && (forall s :: s in live ==> s in held)
  }

  lemma FirstReleased(live: set<CString>, held: seq<CString?>, x: CString)
    requires Exactly(live, held) && held != [] && held[0] == x
    ensures x in live && Exactly(live - {x}, held[1..])
  {
    forall s | s in live && s != x ensures s in held[1..] {
      var i :| 0 <= i < |held| && held[i] == s;
      assert held[1..][i - 1] == s;
    }
  }

  lemma LastReleased(live: set<CString>, held: seq<CString?>, x: CString)
    requires Exactly(live, held) && held != [] && held[|held| - 1] == x
    ensures x in live && Exactly(live - {x}, held[..|held| - 1])
  {
    forall s | s in live && s != x ensures s in held[..|held| - 1] {
      var i :| 0 <= i < |held| && held[i] == s;
      assert held[..|held| - 1][i] == s;
    }
  }

  lemma ExactlyHeld(live: set<CString>, held: seq<CString?>)
    requires Exactly(live, held)
    ensures forall i :: 0 <= i < |held| ==> held[i] in live
  {
  }

  lemma OneAdded(live: set<CString>, held: seq<CString?>, x: CString)
    requires Exactly(live, held) && x !in live
    ensures Exactly(live + {x}, held + [x])
  {
    assert (held + [x])[|held|] == x;
  }

  lemma OneReplaced(live: set<CString>, held: seq<CString?>, k: nat, x: CString, y: CString)
    requires Exactly(live, held) && k < |held| && held[k] == x && y !in live
    ensures x in live && Exactly(live - {x} + {y}, held[k := y])
  {
    assert held[k := y][k] == y;
    forall s | s in live && s != x ensures s in held[k := y] {
      var i :| 0 <= i < |held| && held[i] == s;
      assert held[k := y][i] == s;
    }
  }

  class History {
    var slots: array?<CString?>
    var len: int
    var max: int

    // The strings allocated here and not yet freed.
    ghost var live: set<CString>
    ghost var lines: seq<seq<byte>>

    ghost predicate Shape()
      reads this, slots
    {
      && max >= 0
      && |lines| == len
      && (slots == null ==> len == 0)
      && (slots != null ==> slots.Length == max && len <= max)
      && (forall i :: 0 <= i < len ==> slots[i] != null && slots[i].text == lines[i])
      && (forall i :: 0 <= i < len ==> 0 !in lines[i])
    }

    ghost function Held(k: nat): seq<CString?>
      requires Shape() && k <= len
      reads this, slots
    {
      if slots == null then [] else slots[k..len]
    }

    // The live strings are those in the slots from `k` up to `len`, each in one
    // slot only.
    ghost predicate Owned(k: nat)
      requires Shape() && k <= len
      reads this, slots
    {
      Exactly(live, Held(k))
    }

    // No string leaks and none is shared. As `Free` demands a live string, no
    // string is ever freed twice either.
    ghost predicate Valid()
      reads this, slots
    {
      Shape() && Owned(0)
    }

    lemma LenOfLines()
      requires Valid()
      ensures len == |lines|
    {
    }

    // LINENOISE_DEFAULT_HISTORY_MAX_LEN
    constructor ()
      ensures Valid() && lines == [] && max == 100 && slots == null
    {
      slots, len, max := null, 0, 100;
      live, lines := {}, [];
    }

    method Strdup(s: seq<byte>) returns (p: CString)
      modifies `live
      ensures fresh(p) && p.text == CStr(s)
      ensures live == old(live) + {p}
    {
      p := new CString(s);
      live := live + {p};
    }

    method Free(p: CString)
      requires p in live
      modifies `live
      ensures live == old(live) - {p}
    {
      live := live - {p};
    }

    // linenoiseHistoryAdd
    method Add(line: seq<byte>) returns (added: bool)
      requires Valid()
      modifies this, slots
      ensures Valid() && max == old(max)
      ensures slots == old(slots) || fresh(slots)
      ensures lines == Added(max, old(lines), line)
      ensures added == (max != 0 && (old(lines) == [] || old(lines)[|old(lines)| - 1] != CStr(line)))
    {
      if max == 0 {
        return false;
      }
      if slots == null {
        slots := new CString?[max](_ => null);
      }
      if len > 0 && CStr(line) == slots[len - 1].text {
        return false;
      }
      if len == max {
        Evict();
      }
      Append(line);
      return true;
    }

    // The oldest line goes, the others move down.
    method Evict()
      requires Valid() && slots != null && 0 < len == max
      modifies slots, `len, `lines, `live
      ensures Valid() && lines == old(lines)[1..] && len < max
    {
      hide Exactly;
      ghost var held := Held(0);
      FirstReleased(live, held, slots[0]);
      Free(slots[0]);
      forall i | 0 <= i < max - 1 {
        slots[i] := slots[i + 1];
      }
      len := len - 1;
      lines := lines[1..];
      assert Held(0) == held[1..];
    }

    method Append(line: seq<byte>)
      requires Valid() && slots != null && len < max
      modifies slots, `len, `lines, `live
      ensures Valid() && lines == old(lines) + [CStr(line)]
    {
      hide Exactly;
      ghost var held := Held(0);
      var copy := Strdup(line);
      OneAdded(old(live), held, copy);
      slots[len] := copy;
      len := len + 1;
      lines := lines + [copy.text];
      assert Held(0) == held + [copy];
    }

    method ReleaseOldest(n: nat)
      requires Valid() && n <= len
      modifies `live
      ensures Shape() && Owned(n)
    {
      hide Exactly;
      var j := 0;
      while j < n
        invariant 0 <= j <= n
        invariant Shape() && Owned(j)
      {
        ghost var held := Held(j);
        FirstReleased(live, held, slots[j]);
        Free(slots[j]);
        j := j + 1;
        assert Held(j) == held[1..];
      }
    }

    // The array is replaced by one of `newMax` slots holding the last `tocopy`.
    method KeepNewest(tocopy: nat, newMax: nat)
      requires tocopy <= len && tocopy <= newMax
      requires Shape() && Owned(len - tocopy)
      modifies this
      ensures max == newMax && Valid()
      ensures lines == old(lines)[old(len) - tocopy..] && slots != null && fresh(slots)
    {
      hide Exactly;
      var from := len - tocopy;
      ghost var kept := Held(from);
      assert |kept| == tocopy && forall i :: 0 <= i < tocopy ==> slots != null && kept[i] == slots[from + i];
      var newSlots := new CString?[newMax](_ => null);
      forall i | 0 <= i < tocopy {
        newSlots[i] := slots[from + i];
      }
      assert newSlots[..tocopy] == kept;
      slots, lines := newSlots, lines[from..];
      max, len := newMax, tocopy;
      assert Held(0) == kept;
    }

    // linenoiseHistorySetMaxLen
    method SetMaxLen(newMax: int) returns (ok: bool)
      requires Valid()
      modifies this
      ensures Valid()
      ensures ok == (newMax >= 1)
      ensures if ok then max == newMax && lines == LastN(old(lines), newMax)
              else max == old(max) && lines == old(lines)
      ensures slots == old(slots) || fresh(slots)
    {
      if newMax < 1 {
        return false;
      }
      if slots != null {
        Resize(newMax);
      } else {
        SetCapacity(newMax);
      }
      return true;
    }

    // The newest lines move to an array of the new capacity.
    method Resize(newMax: nat)
      requires Valid() && newMax >= 1
      modifies this
      ensures Valid() && max == newMax && slots != null && fresh(slots)
      ensures lines == LastN(old(lines), newMax)
    {
      hide Exactly, Owned;
      var tocopy := if newMax < len then newMax else len;
      ReleaseOldest(len - tocopy);
      KeepNewest(tocopy, newMax);
    }

    method SetCapacity(newMax: nat)
      requires Valid() && slots == null
      modifies `max
      ensures Valid() && max == newMax
    {
      assert Held(0) == [];
      max := newMax;
      assert Held(0) == [];
    }

    // Enter and end-of-file: the last line goes.
    method DropLast()
      requires Valid() && len > 0
      modifies `len, `lines, `live
      ensures Valid()
      ensures lines == old(lines)[..old(|lines|) - 1]
    {
      hide Exactly;
      ghost var held := Held(0);
      len := len - 1;
      LastReleased(live, held, slots[len]);
      Free(slots[len]);
      lines := lines[..len];
      assert Held(0) == held[..len];
    }

    // History navigation: a line is replaced by the text being edited.
    method Replace(k: nat, line: seq<byte>)
      requires Valid() && k < len
      modifies `lines, `live, slots
      ensures Valid()
      ensures lines == old(lines)[k := CStr(line)]
    {
      hide Exactly;
      ghost var held := Held(0);
      var was := slots[k];
      ExactlyHeld(live, held);
      Free(was);
      var copy := Strdup(line);
      OneReplaced(old(live), held, k, was, copy);
      slots[k] := copy;
      lines := lines[k := copy.text];
      assert Held(0) == held[k := copy];
    }

    // linenoiseHistoryFree
    method FreeAll()
      requires Valid()
      modifies this
      ensures Valid() && max == old(max)
      ensures lines == [] && slots == null && live == {}
    {
      if slots != null {
        ReleaseOldest(len);
        slots := null;
        len := 0;
        lines := [];
      }
    }
  }
}
