// readInputFromSource of fep_control_commandline.cpp: prompt after prompt, with
// line_noise::readLine and addToHistory of linenoise_wrapper.cpp.
module ReadLoop {
  import opened Bytes
  import opened Codec
  import opened Editing
  import opened EditingLaws
  import opened History
  import opened KeyLaws
  import opened Line
  import opened RunLaws
  import Editor
  import Lexer
  import LexerLaws
  import RoundTrip
  import Screen

  const PROMPT: seq<byte> := ['f' as int, 'e' as int, 'p' as int, '>' as int, SPACE]

  // The line a prompt yields; after Ctrl-C readLine makes it an empty one.
  function LineOf(s: Step): seq<Code>
    requires s.Done?
  {
    if s.outcome == Interrupted then [] else CStr(s.st.line.text)
  }

  // The history the next prompt starts with.
  function NextHistory(maxLines: int, s: Step): seq<seq<Code>>
    requires s.Done?
  {
    if Lexer.Words(LineOf(s)) == [] then s.st.hist else Added(maxLines, s.st.hist, LineOf(s))
  }

  // The history and the command lines run, from history `h` on. End-of-file ends
  // the loop. A failed read only ends the prompt: the line as it stands is run.
  // When nothing is left to read the program prompts for ever; here that is the end.
  function Prompts(complete: Option<Completer>, maxLines: int, h: seq<seq<Code>>, input: seq<Key>)
    : (r: (seq<seq<Code>>, seq<seq<Code>>))
    requires maxLines >= 1 && HistoryOk(MAX_LINE, h)
    decreases |input|
  {
    StartOk(MAX_LINE, maxLines, h);
    var g := Settings(MAX_LINE, complete);
    if input == [] then (h, [])
    else
      var s := Run(g, Start(maxLines, h), input);
      if s.outcome == EndOfFile then (s.st.hist, [])
      else
        PromptOk(complete, maxLines, h, input);
        var (h', lines) := Prompts(complete, maxLines, NextHistory(maxLines, s), s.rest);
        (h', if Lexer.Words(LineOf(s)) == [] then lines else [LineOf(s)] + lines)
  }

  lemma PromptOk(complete: Option<Completer>, maxLines: int, h: seq<seq<Code>>, input: seq<Key>)
    requires maxLines >= 1 && HistoryOk(MAX_LINE, h)
    ensures Ok(MAX_LINE, Start(maxLines, h))
    ensures var s := Run(Settings(MAX_LINE, complete), Start(maxLines, h), input);
      HistoryOk(MAX_LINE, s.st.hist) && HistoryOk(MAX_LINE, NextHistory(maxLines, s))
  {
    hide Run, Start, Added, Lexer.Words, HistoryOk, CStr;
    StartOk(MAX_LINE, maxLines, h);
    var s := Run(Settings(MAX_LINE, complete), Start(maxLines, h), input);
    RunOk(Settings(MAX_LINE, complete), Start(maxLines, h), input);
    LineOfOk(s);
    AddedOk(maxLines, s.st.hist, LineOf(s));
  }

  lemma LineOfOk(s: Step)
    requires s.Done? && LineOk(MAX_LINE, s.st.line)
    ensures EntryOk(MAX_LINE, LineOf(s))
  {
  }

  lemma AddedOk(maxLines: int, h: seq<seq<Code>>, line: seq<Code>)
    requires HistoryOk(MAX_LINE, h) && EntryOk(MAX_LINE, line)
    ensures HistoryOk(MAX_LINE, Added(maxLines, h, line))
  {
    CStrWhole(line);
  }

  lemma PromptsStep(complete: Option<Completer>, maxLines: int, h: seq<seq<Code>>, input: seq<Key>)
    requires maxLines >= 1 && HistoryOk(MAX_LINE, h) && input != []
    ensures Ok(MAX_LINE, Start(maxLines, h))
    ensures var s := Run(Settings(MAX_LINE, complete), Start(maxLines, h), input);
      var all := Prompts(complete, maxLines, h, input);
      && HistoryOk(MAX_LINE, s.st.hist) && HistoryOk(MAX_LINE, NextHistory(maxLines, s))
      && if s.outcome == EndOfFile then all == (s.st.hist, [])
         else
           var later := Prompts(complete, maxLines, NextHistory(maxLines, s), s.rest);
           && all.0 == later.0
           && all.1 == if Lexer.Words(LineOf(s)) == [] then later.1 else [LineOf(s)] + later.1
  {
    hide Run, Start, NextHistory, HistoryOk, LineOf, Lexer.Words;
    PromptOk(complete, maxLines, h, input);
  }

  method ReadInputFromSource(hist: History, complete: Option<Completer>, cols: int, input0: seq<Key>)
    returns (commands: seq<seq<Code>>)
    requires hist.Valid() && hist.max >= 1 && HistoryOk(MAX_LINE, hist.lines)
    modifies hist, hist.slots
    ensures hist.Valid() && hist.max == old(hist.max)
    ensures (hist.lines, commands) == Prompts(complete, hist.max, old(hist.lines), input0)
  {
    hide Run, Start, Added, Lexer.Words, Prompts, HistoryOk, CStr, hist.Valid;
    hide Screen.PromptShown;
    Screen.PlainPromptShown(PROMPT);
    commands := [];
    var input := input0;
    ghost var all := Prompts(complete, hist.max, hist.lines, input);
    assert [] + all.1 == all.1;
    while input != []
      invariant hist.Valid() && hist.max == old(hist.max) && HistoryOk(MAX_LINE, hist.lines)
      invariant hist.slots == old(hist.slots) || fresh(hist.slots)
      invariant Prompts(complete, hist.max, hist.lines, input).0 == all.0
      invariant commands + Prompts(complete, hist.max, hist.lines, input).1 == all.1
      decreases |input|
    {
      PromptsStep(complete, hist.max, hist.lines, input);
      var result, outcome;
      result, outcome, input := Editor.Linenoise(hist, complete, PROMPT, PROMPT, cols, input);
      if outcome == EndOfFile {
        assert commands + [] == commands;
        return;
      }
      var line := if result.Some? then result.value else [];
      var tokens := Lexer.ParseLine(line, false);
      if tokens == [] {
        continue;
      }
      var _ := hist.Add(line);
      Associates(commands, [line], Prompts(complete, hist.max, hist.lines, input).1);
      commands := commands + [line];
    }
    NoMorePrompts(complete, hist.max, hist.lines);
    assert commands + [] == commands;
  }

  lemma NoMorePrompts(complete: Option<Completer>, maxLines: int, h: seq<seq<Code>>)
    requires maxLines >= 1 && HistoryOk(MAX_LINE, h)
    ensures Prompts(complete, maxLines, h, []) == (h, [])
  {
  }

  // ---------------------------------------------------------------------------
  // What is typed is run.

  lemma {:induction false} TypedPrompt(complete: Option<Completer>, maxLines: int, h: seq<seq<Code>>, s: seq<Code>,
      rest: seq<Key>)
    returns (next: seq<seq<Code>>)
    requires maxLines >= 1 && HistoryOk(MAX_LINE, h) && Printable(s) && |s| <= MAX_LINE - 2
    ensures HistoryOk(MAX_LINE, next)
    ensures var all := Prompts(complete, maxLines, h, Keys(s) + ([ENTER] + rest));
      var later := Prompts(complete, maxLines, next, rest);
      all == (later.0, if Lexer.Words(s) == [] then later.1 else [s] + later.1)
  {
    hide Run, Start, Lexer.Words, Leads, Ok, HistoryOk, Prompts, NextHistory, Keys, Printable;
    var g, input := Settings(MAX_LINE, complete), Keys(s) + ([ENTER] + rest);
    var typed := Edited(g, maxLines, h, s, |s|);
    TypeFirst(g, maxLines, h, s);
    PromptOk(complete, maxLines, h, input);
    FreshIsStart(g, maxLines, h);
    LeadsOn(g, Fresh(g, maxLines, h), Keys(s), typed, [ENTER] + rest);
    SessionEnds(g, typed, rest);
    PromptsStep(complete, maxLines, h, input);
    PrintableWhole(s);
    next := NextHistory(maxLines, Run(g, Start(maxLines, h), input));
  }

  // Left with Ctrl-C, what was typed is not run.
  lemma {:induction false} InterruptedPrompt(complete: Option<Completer>, maxLines: int, h: seq<seq<Code>>,
      s: seq<Code>, rest: seq<Key>)
    returns (next: seq<seq<Code>>)
    requires maxLines >= 1 && HistoryOk(MAX_LINE, h) && Printable(s) && |s| <= MAX_LINE - 2
    ensures HistoryOk(MAX_LINE, next)
    ensures Prompts(complete, maxLines, h, Keys(s) + ([CTRL_C] + rest)) == Prompts(complete, maxLines, next, rest)
  {
    hide Run, Start, Lexer.Words, Leads, Ok, HistoryOk, Prompts, NextHistory, Keys, Printable;
    var g, input := Settings(MAX_LINE, complete), Keys(s) + ([CTRL_C] + rest);
    var typed := Edited(g, maxLines, h, s, |s|);
    TypeFirst(g, maxLines, h, s);
    PromptOk(complete, maxLines, h, input);
    FreshIsStart(g, maxLines, h);
    LeadsOn(g, Fresh(g, maxLines, h), Keys(s), typed, [CTRL_C] + rest);
    SessionEnds(g, typed, rest);
    PromptsStep(complete, maxLines, h, input);
    RoundTrip.EmptyLine();
    next := NextHistory(maxLines, Run(g, Start(maxLines, h), input));
  }

  // ^D on an empty line ends the program, whatever follows. The history is left as it
  // was, less an empty line at its end, and less its oldest if it was full.
  lemma {:induction false} EndOfInput(complete: Option<Completer>, maxLines: int, h: seq<seq<Code>>, rest: seq<Key>)
    requires maxLines >= 1 && HistoryOk(MAX_LINE, h)
    ensures var all := Prompts(complete, maxLines, h, [CTRL_D] + rest);
      && all.1 == []
      && (|h| <= maxLines ==> all.0 == if |Kept(h)| == maxLines then Kept(h)[1..] else Kept(h))
  {
    hide Run, Start, Lexer.Words, Ok, HistoryOk, Prompts, NextHistory;
    if |h| <= maxLines {
      StartHistory(maxLines, h);
    }
    var g := Settings(MAX_LINE, complete);
    PromptOk(complete, maxLines, h, [CTRL_D] + rest);
    FreshIsStart(g, maxLines, h);
    SessionEnds(g, Fresh(g, maxLines, h), rest);
    PromptsStep(complete, maxLines, h, [CTRL_D] + rest);
  }

  lemma {:induction false} FreshIsStart(g: Settings, maxLines: int, h: seq<seq<Code>>)
    requires g.max >= 1 && maxLines >= 1 && HistoryOk(g.max, h)
    ensures Fresh(g, maxLines, h) == Start(maxLines, h)
  {
  }

  lemma {:induction false} PrintableWhole(s: seq<Code>)
    requires Printable(s)
    ensures CStr(s) == s && 0 !in s
  {
    CStrWhole(s);
  }

  // The keys of several lines, each with Enter.
  function KeysOf(lines: seq<seq<Code>>): seq<Key>
    requires forall i :: 0 <= i < |lines| ==> Printable(lines[i])
  {
    if lines == [] then [] else Keys(lines[0]) + ([ENTER] + KeysOf(lines[1..]))
  }

  predicate BlankLine(s: seq<Code>) {
    forall i :: 0 <= i < |s| ==> s[i] == SPACE
  }

  function NotBlank(lines: seq<seq<Code>>): seq<seq<Code>> {
    if lines == [] then []
    else if BlankLine(lines[0]) then NotBlank(lines[1..])
    else [lines[0]] + NotBlank(lines[1..])
  }

  // Lines of printable characters typed one after the other are run, in order, but
  // those that are blank.
  lemma {:induction false} TypedLines(complete: Option<Completer>, maxLines: int, h: seq<seq<Code>>,
      lines: seq<seq<Code>>)
    requires maxLines >= 1 && HistoryOk(MAX_LINE, h)
    requires forall i :: 0 <= i < |lines| ==> Printable(lines[i]) && |lines[i]| <= MAX_LINE - 2
    ensures Prompts(complete, maxLines, h, KeysOf(lines)).1 == NotBlank(lines)
    decreases |lines|
  {
    hide Prompts, Lexer.Words, Keys, Printable, HistoryOk, BlankLine;
    if lines == [] {
      NoMorePrompts(complete, maxLines, h);
    } else {
      assert forall i :: 0 <= i < |lines[1..]| ==> lines[1..][i] == lines[i + 1];
      var next := TypedPrompt(complete, maxLines, h, lines[0], KeysOf(lines[1..]));
      TypedLines(complete, maxLines, next, lines[1..]);
      BlankHasNoWords(lines[0]);
    }
  }

  lemma {:induction false} BlankHasNoWords(s: seq<Code>)
    requires Printable(s)
    ensures Lexer.Words(s) == [] <==> BlankLine(s)
  {
    hide Lexer.Words;
    PrintableWhole(s);
    LexerLaws.NoWords(s);
  }

  // ---------------------------------------------------------------------------
  // What the history keeps.

  // The history without the empty line that a prompt left with Ctrl-C leaves
  // behind.
  function Kept(h: seq<seq<Code>>): seq<seq<Code>> {
    if h != [] && h[|h| - 1] == [] then h[..|h| - 1] else h
  }

  predicate LineLast(h: seq<seq<Code>>) {
    h != [] ==> h[|h| - 1] != []
  }

  // The history holds the newest of the given lines, adjacent repeats dropped:
  // at most `maxLines`, and at least one less than that if there are as many.
  predicate Holds(maxLines: int, h: seq<seq<Code>>, lines: seq<seq<Code>>) {
    && (forall i :: 0 <= i < |lines| ==> lines[i] != [])
    && |h| <= maxLines
    && var k, d := Kept(h), Dedup(lines);
      && |k| <= |d| && (forall i :: 0 <= i < |k| ==> k[i] == d[|d| - |k| + i])
      && (|k| == |d| || |k| >= maxLines - 1)
  }

  lemma HoldsMeans(maxLines: int, h: seq<seq<Code>>, lines: seq<seq<Code>>)
    ensures Holds(maxLines, h, lines) <==>
      && [] !in lines && |h| <= maxLines && Suffix(Kept(h), Dedup(lines))
      && (|Kept(h)| == |Dedup(lines)| || |Kept(h)| >= maxLines - 1)
  {
    hide Kept, Dedup;
    var k, d := Kept(h), Dedup(lines);
    if Suffix(k, d) {
      assert forall i :: 0 <= i < |k| ==> k[i] == d[|d| - |k|..][i];
    }
  }

  lemma {:induction false} DedupElements(lines: seq<seq<Code>>)
    requires [] !in lines
    ensures [] !in Dedup(lines)
    decreases |lines|
  {
    if |lines| > 1 {
      DedupElements(lines[..|lines| - 1]);
    }
  }

  lemma SuffixParts(k: seq<seq<Code>>, d: seq<seq<Code>>)
    requires Suffix(k, d) && [] !in d
    ensures [] !in k
    ensures k != [] ==> Suffix(k[1..], d) && k[|k| - 1] == d[|d| - 1]
  {
    assert k != [] ==> k[1..] == d[|d| - (|k| - 1)..];
  }

  lemma KeptWhole(k: seq<seq<Code>>)
    requires [] !in k
    ensures LineLast(k) && Kept(k) == k && Kept(k + [[]]) == k
  {
    assert (k + [[]])[..|k|] == k;
    assert k != [] ==> k[|k| - 1] in k;
  }

  // The session's own empty line: a leftover one serves again; otherwise a full
  // history loses its oldest line.
  lemma StartHistory(maxLines: int, h: seq<seq<Code>>)
    requires maxLines >= 1 && |h| <= maxLines
    ensures Start(maxLines, h).hist ==
      (if |Kept(h)| == maxLines then Kept(h)[1..] else Kept(h)) + [[]]
  {
    CStrWhole([]);
    if h != [] && h[|h| - 1] == [] {
      assert h == h[..|h| - 1] + [[]];
    }
  }

  lemma HoldsAtStart(maxLines: int, h: seq<seq<Code>>, lines: seq<seq<Code>>)
    requires maxLines >= 1 && Holds(maxLines, h, lines)
    ensures var h' := Start(maxLines, h).hist;
      && h' != [] && |h'| <= maxLines
      && Holds(maxLines, h', lines) && Holds(maxLines, WithoutLast(h'), lines)
      && LineLast(WithoutLast(h'))
  {
    hide Start, Kept, Suffix, Dedup, Holds;
    HoldsMeans(maxLines, h, lines);
    KeptLength(h);
    var k := if |Kept(h)| == maxLines then Kept(h)[1..] else Kept(h);
    StartHistory(maxLines, h);
    DedupElements(lines);
    SuffixParts(Kept(h), Dedup(lines));
    SuffixParts(k, Dedup(lines));
    KeptWhole(k);
    assert WithoutLast(k + [[]]) == k;
    HoldsMeans(maxLines, k, lines);
    HoldsMeans(maxLines, k + [[]], lines);
  }

  lemma KeptLength(h: seq<seq<Code>>)
    ensures |h| - 1 <= |Kept(h)| <= |h|
  {
  }

  // A line entered then takes the place of the empty one.
  lemma HoldsAfterLine(maxLines: int, k: seq<seq<Code>>, lines: seq<seq<Code>>, line: seq<Code>)
    requires maxLines >= 1 && Holds(maxLines, k, lines) && LineLast(k) && |k| < maxLines
    requires line != [] && CStr(line) == line
    ensures Holds(maxLines, Added(maxLines, k, line), lines + [line])
  {
    hide *;
    var d := Dedup(lines);
    HoldsParts(maxLines, k, lines);
    DedupSnoc(lines, line);
    DedupElements(lines);
    SuffixParts(k, d);
    AddedLine(maxLines, k, line);
    var h := Added(maxLines, k, line);
    NoEmptySnoc(k, line);
    NoEmptySnoc(lines, line);
    KeptWhole(h);
    SuffixSnoc(k, d, line);
    HoldsIf(maxLines, h, lines + [line]);
  }

  lemma NoEmptySnoc(s: seq<seq<Code>>, line: seq<Code>)
    requires [] !in s && line != []
    ensures [] !in s + [line]
  {
  }

  lemma AddedLine(maxLines: int, k: seq<seq<Code>>, line: seq<Code>)
    requires |k| < maxLines && CStr(line) == line
    ensures Added(maxLines, k, line) == if k != [] && k[|k| - 1] == line then k else k + [line]
  {
  }

  lemma HoldsParts(maxLines: int, k: seq<seq<Code>>, lines: seq<seq<Code>>)
    requires Holds(maxLines, k, lines) && LineLast(k)
    ensures [] !in lines && |k| <= maxLines && Suffix(k, Dedup(lines))
    ensures |k| == |Dedup(lines)| || |k| >= maxLines - 1
    ensures |k| <= |Dedup(lines)|
    ensures lines == [] ==> Dedup(lines) == []
  {
    hide Holds;
    HoldsMeans(maxLines, k, lines);
  }

  lemma HoldsIf(maxLines: int, h: seq<seq<Code>>, lines: seq<seq<Code>>)
    requires [] !in lines && |h| <= maxLines && LineLast(h) && Suffix(h, Dedup(lines))
    requires |h| == |Dedup(lines)| || |h| >= maxLines - 1
    ensures Holds(maxLines, h, lines)
  {
    hide Dedup, Suffix, Holds;
    HoldsMeans(maxLines, h, lines);
  }

  lemma SuffixSnoc(k: seq<seq<Code>>, d: seq<seq<Code>>, line: seq<Code>)
    requires Suffix(k, d)
    ensures Suffix(k + [line], d + [line])
    ensures d != [] && d[|d| - 1] == line ==> Suffix([line], d)
  {
    assert k + [line] == (d + [line])[|d| - |k|..];
    if d != [] && d[|d| - 1] == line {
      assert [line] == d[|d| - 1..];
    }
  }

  // Every prompt is left without a history line having been called up, and a line
  // that a failed read leaves half-typed is blank.
  predicate Regular(complete: Option<Completer>, maxLines: int, h: seq<seq<Code>>, input: seq<Key>)
    requires maxLines >= 1 && HistoryOk(MAX_LINE, h)
    decreases |input|
  {
    PromptOk(complete, maxLines, h, input);
    var g := Settings(MAX_LINE, complete);
    input == [] ||
      var s := Run(g, Start(maxLines, h), input);
      && !Navigates(g, Start(maxLines, h), input)
      && (s.outcome == ReadFailed ==> Lexer.Words(LineOf(s)) == [])
      && (s.outcome == EndOfFile || Regular(complete, maxLines, NextHistory(maxLines, s), s.rest))
  }

  lemma RegularStep(complete: Option<Completer>, maxLines: int, h: seq<seq<Code>>, input: seq<Key>)
    requires maxLines >= 1 && HistoryOk(MAX_LINE, h) && input != [] && Regular(complete, maxLines, h, input)
    ensures Ok(MAX_LINE, Start(maxLines, h))
    ensures var g := Settings(MAX_LINE, complete);
      var s := Run(g, Start(maxLines, h), input);
      && HistoryOk(MAX_LINE, NextHistory(maxLines, s))
      && !Navigates(g, Start(maxLines, h), input)
      && (s.outcome == ReadFailed ==> Lexer.Words(LineOf(s)) == [])
      && (s.outcome == EndOfFile || Regular(complete, maxLines, NextHistory(maxLines, s), s.rest))
  {
    hide Run, Start, NextHistory, HistoryOk, LineOf, Lexer.Words, Navigates;
    PromptOk(complete, maxLines, h, input);
  }

  // One regular prompt.
  lemma PromptHolds(complete: Option<Completer>, maxLines: int, h: seq<seq<Code>>, input: seq<Key>,
      before: seq<seq<Code>>)
    requires maxLines >= 1 && HistoryOk(MAX_LINE, h) && input != [] && Regular(complete, maxLines, h, input)
    requires Holds(maxLines, h, before)
    ensures Ok(MAX_LINE, Start(maxLines, h))
    ensures var s := Run(Settings(MAX_LINE, complete), Start(maxLines, h), input);
      if s.outcome == EndOfFile then Holds(maxLines, s.st.hist, before)
      else Holds(maxLines, NextHistory(maxLines, s), before + if Lexer.Words(LineOf(s)) == [] then [] else [LineOf(s)])
  {
    hide Run, Start, Holds, Kept, Lexer.Words, Added, Regular, HistoryOk, Navigates;
    var g, st := Settings(MAX_LINE, complete), Start(maxLines, h);
    RegularStep(complete, maxLines, h, input);
    var s := Run(g, st, input);
    HoldsAtStart(maxLines, h, before);
    RunKeepsHistory(g, st, input);
    assert before + [] == before;
    RoundTrip.EmptyLine();
    if Lexer.Words(LineOf(s)) != [] && s.outcome != EndOfFile {
      CStrIdempotent(s.st.line.text);
      HoldsAfterLine(maxLines, s.st.hist, before, LineOf(s));
    }
  }

  lemma {:induction false} PromptsHold(complete: Option<Completer>, maxLines: int, h: seq<seq<Code>>,
      input: seq<Key>, before: seq<seq<Code>>)
    requires maxLines >= 1 && HistoryOk(MAX_LINE, h) && Regular(complete, maxLines, h, input)
    requires Holds(maxLines, h, before)
    ensures var (h', lines) := Prompts(complete, maxLines, h, input);
      Holds(maxLines, h', before + lines)
    decreases |input|
  {
    hide Run, Start, Holds, NextHistory, LineOf, Lexer.Words, Regular, HistoryOk, Prompts;
    assert before + [] == before;
    if input == [] {
      NoMorePrompts(complete, maxLines, h);
    } else {
      PromptsStep(complete, maxLines, h, input);
      RegularStep(complete, maxLines, h, input);
      PromptHolds(complete, maxLines, h, input, before);
      var s := Run(Settings(MAX_LINE, complete), Start(maxLines, h), input);
      if s.outcome != EndOfFile {
        var h', line := NextHistory(maxLines, s), LineOf(s);
        PromptsHold(complete, maxLines, h', s.rest, before + if Lexer.Words(line) == [] then [] else [line]);
        Associates(before, [line], Prompts(complete, maxLines, h', s.rest).1);
      }
    }
  }

  // Whatever is typed at however many prompts, as long as no history line is
  // called up and no read fails with a command half-typed: starting with no
  // history, the history is in the end the newest lines run, in order, without
  // adjacent repeats.
  lemma HistoryAcrossPrompts(complete: Option<Completer>, maxLines: int, input: seq<Key>)
    requires maxLines >= 1 && Regular(complete, maxLines, [], input)
    ensures var (h, lines) := Prompts(complete, maxLines, [], input);
      Holds(maxLines, h, lines)
  {
    hide Prompts, Regular, Holds, HistoryOk;
    HoldsNothing(maxLines);
    PromptsHold(complete, maxLines, [], input, []);
    var lines := Prompts(complete, maxLines, [], input).1;
    assert [] + lines == lines;
  }

  lemma HoldsNothing(maxLines: int)
    requires maxLines >= 1
    ensures HistoryOk(MAX_LINE, []) && Holds(maxLines, [], [])
  {
  }

  // A read that fails with a command half-typed leaves the prompt's own empty line
  // in front of that command, where it stays.
  lemma FailedReadBreaks(complete: Option<Completer>, maxLines: int, h: seq<seq<Code>>, input: seq<Key>,
      before: seq<seq<Code>>)
    requires maxLines >= 2 && HistoryOk(MAX_LINE, h)
    ensures Ok(MAX_LINE, Start(maxLines, h))
    ensures var g := Settings(MAX_LINE, complete);
      var s := Run(g, Start(maxLines, h), input);
      !Navigates(g, Start(maxLines, h), input) && s.outcome == ReadFailed && Lexer.Words(LineOf(s)) != []
      ==> !Holds(maxLines, NextHistory(maxLines, s), before + [LineOf(s)])
  {
    hide Run, Holds, Kept, Lexer.Words, Added, HistoryOk, Navigates;
    var g, st := Settings(MAX_LINE, complete), Start(maxLines, h);
    PromptOk(complete, maxLines, h, input);
    var s := Run(g, st, input);
    if !Navigates(g, st, input) && s.outcome == ReadFailed && Lexer.Words(LineOf(s)) != [] {
      RunKeepsHistory(g, st, input);
      RoundTrip.EmptyLine();
      CStrIdempotent(s.st.line.text);
      StartEndsEmpty(maxLines, h);
      EmptyBeforeLine(maxLines, s.st.hist, LineOf(s), before);
    }
  }

  // Such an input: a letter and a failed read.
  lemma HalfTyped(complete: Option<Completer>, maxLines: int, c: Key)
    requires maxLines >= 2 && 'a' as int <= c <= 'z' as int
    ensures Prompts(complete, maxLines, [], [c] + [-1]) == ([[], [c]], [[c]])
    ensures !Holds(maxLines, [[], [c]], [[c]])
  {
    hide Run, Lexer.Words, Act, Start, HistoryOk, Prompts;
    var g := Settings(MAX_LINE, complete);
    var st := State(Line([c], 1), None, [[]], 0);
    FirstLetter(g, maxLines, c);
    PromptOk(complete, maxLines, [], [c] + [-1]);
    RunKey(g, Start(maxLines, []), c, [-1]);
    FailedRead(g, st);
    var s := Run(g, Start(maxLines, []), [c] + [-1]);
    assert s == Done(ReadFailed, st, []) && LineOf(s) == [c];
    PromptsStep(complete, maxLines, [], [c] + [-1]);
    LetterIsWord(c);
    assert NextHistory(maxLines, s) == Added(maxLines, [[]], [c]);
    assert Added(maxLines, [[]], [c]) == [[], [c]];
    NoMorePrompts(complete, maxLines, [[], [c]]);
    EmptyBeforeLine(maxLines, [[]], [c], []);
    assert [] + [[c]] == [[c]] && [[c]] + [] == [[c]];
  }

  lemma FirstLetter(g: Settings, maxLines: int, c: Key)
    requires maxLines >= 2 && 'a' as int <= c <= 'z' as int && g.max == MAX_LINE
    ensures HistoryOk(g.max, []) && Ok(g.max, Start(maxLines, []))
    ensures Act(g.max, Start(maxLines, []), c, [-1]) == More(State(Line([c], 1), None, [[]], 0), [-1])
    ensures CStr([c]) == [c]
  {
    StartOk(g.max, maxLines, []);
    CStrWhole([]);
    CStrWhole([c]);
    assert Start(maxLines, []).hist == [[]];
    assert [] + [c] + [] == [c];
  }

  lemma FailedRead(g: Settings, st: State)
    requires Ok(g.max, st)
    ensures Run(g, st, [-1]) == Done(ReadFailed, st, [])
  {
  }

  lemma LetterIsWord(c: Code)
    requires 'a' as int <= c <= 'z' as int
    ensures Lexer.Words([c]) == [[c]]
  {
    LexerLaws.UnquotedIsSplit([c]);
    assert [c][1..] == [] && [] + [c] == [c];
  }

  lemma StartEndsEmpty(maxLines: int, h: seq<seq<Code>>)
    requires maxLines >= 1
    ensures var h' := Start(maxLines, h).hist;
      h' != [] && h'[|h'| - 1] == []
  {
    CStrWhole([]);
  }

  lemma EmptyBeforeLine(maxLines: int, h: seq<seq<Code>>, line: seq<Code>, before: seq<seq<Code>>)
    requires maxLines >= 2 && h != [] && h[|h| - 1] == [] && line != [] && CStr(line) == line
    ensures !Holds(maxLines, Added(maxLines, h, line), before + [line])
  {
    var h' := Added(maxLines, h, line);
    assert h'[|h'| - 2] == [] && h'[|h'| - 1] == line;
    if Holds(maxLines, h', before + [line]) {
      DedupElements(before + [line]);
      SuffixParts(h', Dedup(before + [line]));
    }
  }
}
