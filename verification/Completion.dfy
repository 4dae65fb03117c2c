// commandCompletion of fep_control_commandline.cpp over any command table.
module Completion {
  import opened Bytes
  import opened Lexer
  import opened LexerLaws
  import opened RoundTrip

  // A command with the completion function of each argument.
  datatype Command = Command(name: Str, arguments: seq<Str -> seq<Str>>)

  function FindCommand(commands: seq<Command>, name: Str): Option<Command> {
    if commands == [] then None
    else if commands[0].name == name then Some(commands[0])
    else FindCommand(commands[1..], name)
  }

  // a_util::strings::join with a blank
  function JoinWords(words: seq<Str>): Str {
    if words == [] then []
    else if |words| == 1 then words[0]
    else words[0] + [SPACE] + JoinWords(words[1..])
  }

  // Command `i` is the first of that name.
  predicate FirstNamed(commands: seq<Command>, name: Str, i: int) {
    0 <= i < |commands| && commands[i].name == name && Unnamed(commands[..i], name)
  }

  predicate Unnamed(commands: seq<Command>, name: Str) {
    forall j :: 0 <= j < |commands| ==> commands[j].name != name
  }

  lemma {:induction false} FindsFirst(commands: seq<Command>, name: Str) returns (i: int)
    ensures FindCommand(commands, name).None? ==> Unnamed(commands, name)
    ensures FindCommand(commands, name).Some? ==>
      FirstNamed(commands, name, i) && FindCommand(commands, name).value == commands[i]
    decreases |commands|
  {
    i := 0;
    if commands != [] && commands[0].name != name {
      i := FindsFirst(commands[1..], name);
      i := i + 1;
      if FindCommand(commands, name).Some? {
        assert commands[1..][..i - 1] == commands[..i][1..];
        UnnamedFront(commands[..i], name);
      } else {
        UnnamedFront(commands, name);
      }
    }
  }

  lemma {:induction false} UnnamedFront(commands: seq<Command>, name: Str)
    requires commands != [] && commands[0].name != name && Unnamed(commands[1..], name)
    ensures Unnamed(commands, name)
  {
    assert forall j :: 1 <= j < |commands| ==> commands[j] == commands[1..][j - 1];
  }

  lemma {:induction false} FirstIsFound(commands: seq<Command>, name: Str, first: int, i: int)
    requires FirstNamed(commands, name, i)
    requires FindCommand(commands, name).None? ==> Unnamed(commands, name)
    requires FindCommand(commands, name).Some? ==>
      FirstNamed(commands, name, first) && FindCommand(commands, name).value == commands[first]
    ensures FindCommand(commands, name) == Some(commands[i])
  {
    hide FindCommand;
    if FindCommand(commands, name).Some? {
      OnlyOneFirst(commands, name, first, i);
    }
  }

  lemma {:induction false} OnlyOneFirst(commands: seq<Command>, name: Str, i: int, j: int)
    requires FirstNamed(commands, name, i) && FirstNamed(commands, name, j)
    ensures i == j
  {
    if i < j {
      NotBeforeFirst(commands, name, i, j);
    } else if j < i {
      NotBeforeFirst(commands, name, j, i);
    }
  }

  lemma {:induction false} NotBeforeFirst(commands: seq<Command>, name: Str, i: int, j: int)
    requires FirstNamed(commands, name, j) && 0 <= i < j
    ensures commands[i].name != name
  {
    assert commands[..j][i] == commands[i];
  }

  // The argument completions the command line asks for, if it asks for any.
  function ArgumentCompletions(commands: seq<Command>, tokens: seq<Str>): seq<Str>
    requires |tokens| >= 2
  {
    var cmd := FindCommand(commands, tokens[0]);
    if cmd.Some? && |tokens| - 2 < |cmd.value.arguments|
    then cmd.value.arguments[|tokens| - 2](tokens[|tokens| - 1])
    else []
  }

  // The command names with a prefix, in the order of the table.
  function WithPrefix(commands: seq<Command>, prefix: Str): (r: seq<Str>)
    ensures forall c :: c in r <==> exists i :: 0 <= i < |commands| && commands[i].name == c && prefix <= c
  {
    if commands == [] then []
    else
      var n := |commands| - 1;
      var front := WithPrefix(commands[..n], prefix);
      assert forall i :: 0 <= i < n ==> commands[..n][i] == commands[i];
      if prefix <= commands[n].name then front + [commands[n].name] else front
  }

  // Every command with the prefix is offered in its place.
  lemma {:induction false} WithPrefixOrder(a: seq<Command>, cmd: Command, b: seq<Command>, prefix: Str)
    ensures WithPrefix(a + [cmd] + b, prefix) ==
      WithPrefix(a, prefix) + (if prefix <= cmd.name then [cmd.name] else []) + WithPrefix(b, prefix)
    decreases |b|
  {
    if b == [] {
      assert a + [cmd] + b == a + [cmd] && (a + [cmd])[..|a|] == a;
    } else {
      var n := |b| - 1;
      assert (a + [cmd] + b)[..|a| + 1 + n] == a + [cmd] + b[..n];
      WithPrefixOrder(a, cmd, b[..n], prefix);
    }
  }

  method CommandNameCompletion(commands: seq<Command>, prefix: Str) returns (completions: seq<Str>)
    ensures completions == WithPrefix(commands, prefix)
  {
    completions := [];
    var i := 0;
    while i < |commands|
      invariant 0 <= i <= |commands|
      invariant completions == WithPrefix(commands[..i], prefix)
    {
      assert commands[..i + 1][..i] == commands[..i];
      var name := commands[i].name;
      if prefix <= name {
        completions := completions + [name];
      }
      i := i + 1;
    }
    assert commands[..i] == commands;
  }

  // The lines with the last word replaced by each of the words.
  predicate Offers(completions: seq<Str>, tokens: seq<Str>, words: seq<Str>)
    requires tokens != []
  {
    && |completions| == |words|
    && forall k :: 0 <= k < |words| ==> completions[k] == Joined(tokens[..|tokens| - 1] + [words[k]])
  }

  // With one word a command name is completed; with more the last word, by the
  // completer that the first command of that name has for it.
  method CommandCompletion(commands: seq<Command>, input: Str) returns (completions: seq<Str>)
    requires CStr(input) != []
    ensures var tokens := Parsed(input, true);
      if |tokens| == 1 then completions == WithPrefix(commands, Quoted(tokens[0]))
      else
        && |tokens| >= 2
        && (Unnamed(commands, tokens[0]) ==> completions == [])
        && (forall i :: FirstNamed(commands, tokens[0], i) ==>
              var done := |tokens| - 2;
              if done < |commands[i].arguments| then
                Offers(completions, tokens, commands[i].arguments[done](tokens[|tokens| - 1]))
              else completions == [])
        && Offers(completions, tokens, ArgumentCompletions(commands, tokens))
  {
    hide Words, TrailingBlank, Quoted, WithPrefix, FindCommand;
    completions := [];
    var tokens := ParseLine(input, true);
    EmptyLineHasNoWords(input);
    if |tokens| == 1 {
      var quoted := QuoteNameIfNecessary(tokens[0]);
      completions := CommandNameCompletion(commands, quoted);
    } else {
      ghost var first := FindsFirst(commands, tokens[0]);
      forall i | FirstNamed(commands, tokens[0], i) ensures FindCommand(commands, tokens[0]) == Some(commands[i]) {
        FirstIsFound(commands, tokens[0], first, i);
      }
      assert Unnamed(commands, tokens[0]) ==> !FirstNamed(commands, tokens[0], first);
      var cmd := FindCommand(commands, tokens[0]);
      if cmd.Some? {
        var index := |tokens| - 2;
        if index < |cmd.value.arguments| {
          var exec := cmd.value.arguments[index](tokens[|tokens| - 1]);
          if exec != [] {
            completions := PrintCompletions(tokens[..|tokens| - 1], exec);
          }
        }
      }
    }
  }

  method PrintCompletions(tokens: seq<Str>, words: seq<Str>) returns (completions: seq<Str>)
    requires tokens != []
    ensures |completions| == |words|
    ensures forall k :: 0 <= k < |words| ==> completions[k] == Joined(tokens + [words[k]])
  {
    hide Quoted;
    completions := [];
    var quoted: seq<Str>, i := [], 0;
    while i < |tokens|
      invariant 0 <= i <= |tokens| && |quoted| == i
      invariant forall k :: 0 <= k < i ==> quoted[k] == Quoted(tokens[k])
    {
      var q := QuoteNameIfNecessary(tokens[i]);
      quoted := quoted + [q];
      i := i + 1;
    }
    var prefix := JoinWords(quoted) + [SPACE];
    i := 0;
    while i < |words|
      invariant 0 <= i <= |words| && |completions| == i
      invariant forall k :: 0 <= k < i ==> completions[k] == Joined(tokens + [words[k]])
    {
      var q := QuoteNameIfNecessary(words[i]);
      JoinedLast(tokens, quoted, words[i]);
      completions := completions + [prefix + q];
      i := i + 1;
    }
  }

  lemma {:induction false} JoinedLast(tokens: seq<Str>, quoted: seq<Str>, word: Str)
    requires tokens != [] && |quoted| == |tokens|
    requires forall k :: 0 <= k < |tokens| ==> quoted[k] == Quoted(tokens[k])
    ensures JoinWords(quoted) + [SPACE] + Quoted(word) == Joined(tokens + [word])
    decreases |tokens|
  {
    hide Quoted;
    if |tokens| == 1 {
      assert (tokens + [word])[1..] == [word];
    } else {
      assert (tokens + [word])[1..] == tokens[1..] + [word];
      JoinedLast(tokens[1..], quoted[1..], word);
      assert JoinWords(quoted) == quoted[0] + [SPACE] + JoinWords(quoted[1..]);
    }
  }

  // parseLine finds no word to complete exactly on an empty line.
  lemma EmptyLineHasNoWords(input: Str)
    ensures Parsed(input, true) == [] <==> CStr(input) == []
  {
    if AtEnd(input) {
      assert Words(input) == [];
    }
  }

  // Every argument completion offered is read back as the words typed so far
  // with the last one completed, exactly if all of these are printable in their
  // places.
  lemma CompletionReparses(input: Str, completions: seq<Str>, words: seq<Str>, k: nat)
    requires |Parsed(input, true)| >= 2 && k < |words|
    requires Offers(completions, Parsed(input, true), words)
    ensures var tokens := Parsed(input, true);
      var completed := tokens[|tokens| - 1 := words[k]];
      && (Parsed(completions[k], false) == completed <==> AllPrintable(completed))
      && (AllPrintable(completed) ==> Parsed(completions[k], true) == completed)
  {
    var tokens := Parsed(input, true);
    ParseRoundTrip(tokens[..|tokens| - 1] + [words[k]], true);
    assert tokens[|tokens| - 1 := words[k]] == tokens[..|tokens| - 1] + [words[k]];
  }

  // A plain command name needs no quoting, so offering it as it is is enough.
  lemma CommandNameReparses(name: Str, addEmpty: bool)
    requires name != [] && Solid(name)
    requires forall i :: 0 <= i < |name| ==> !IsQuote(name[i]) && name[i] != BACKSLASH
    ensures Parsed(name, addEmpty) == [name]
  {
    NothingEscaped(name);
    PlainIsBalanced(name);
    ParseRoundTrip([name], addEmpty);
    assert AllPrintable([name]) by {
      assert [name][1..] == [];
    }
  }

  lemma {:induction false} PlainIsBalanced(name: Str)
    requires forall i :: 0 <= i < |name| ==> !IsQuote(name[i])
    ensures Balanced(name)
  {
    if name != [] {
      PlainIsBalanced(name[1..]);
    }
  }

  // ---------------------------------------------------------------------------
  // A completion that changes an argument typed before it: an argument typed with
  // escaped apostrophes around it loses them.

  predicate PlainWord(w: Str) {
    w != [] && Solid(w) && forall i :: 0 <= i < |w| ==> !IsQuote(w[i]) && w[i] != BACKSLASH
  }

  lemma CompletionChangesArgument(command: Str, x: Str, typed: Str, completed: Str)
    requires PlainWord(command) && PlainWord(x) && PlainWord(typed) && PlainWord(completed)
    ensures var argument := [APOS] + x + [APOS];
      && Words(command + ([SPACE] + ([BACKSLASH, APOS] + (x + ([APOS] + ([SPACE] + typed)))))) ==
           [command, argument, typed]
      && Words(Joined([command, argument, completed])) == [command, x, completed]
  {
    hide Words, Quoted;
    var argument := [APOS] + x + [APOS];
    var typedTail := [SPACE] + typed;
    PlainHead(command, [SPACE] + ([BACKSLASH, APOS] + (x + ([APOS] + typedTail))));
    SkipBlank([BACKSLASH, APOS] + (x + ([APOS] + typedTail)));
    EscapedApostrophes(x, typedTail);
    LastPlain(typed);
    var tail := [SPACE] + completed;
    PlainHead(command, [SPACE] + ([APOS] + (x + ([APOS] + tail))));
    SkipBlank([APOS] + (x + ([APOS] + tail)));
    Apostrophes(x, tail);
    LastPlain(completed);
    JoinedThree(command, x, completed);
  }

  lemma PlainQuoted(w: Str)
    requires PlainWord(w)
    ensures Quoted(w) == w
  {
    NothingEscaped(w);
  }

  lemma PlainHead(w: Str, tail: Str)
    requires PlainWord(w) && Separated(tail)
    ensures Words(w + tail) == [w] + Words(tail)
  {
    hide Words, Quoted;
    PlainQuoted(w);
    PlainIsBalanced(w);
    HeadWord(w, tail);
    assert Printable(w, tail == []);
  }

  lemma LastPlain(w: Str)
    requires PlainWord(w)
    ensures Words([SPACE] + w) == [w]
  {
    hide Words;
    SkipBlank(w);
    PlainHead(w, []);
    EmptyLine();
    assert w + [] == w && [w] + [] == [w];
  }

  lemma SkipBlank(s: Str)
    requires s != [] && !IsSpace(s[0])
    ensures Words([SPACE] + s) == Words(s)
  {
    hide Words;
    WordsAfterBlank(s);
  }

  // A run opened by an apostrophe ends at the next one.
  lemma {:induction false} RunToApostrophe(x: Str, tail: Str)
    requires forall i :: 0 <= i < |x| ==> x[i] != 0 && !IsQuote(x[i]) && x[i] != BACKSLASH
    ensures RunLen(x + ([APOS] + tail), APOS, false, false) == |x|
    decreases |x|
  {
    var s := x + ([APOS] + tail);
    if x != [] {
      assert s[1..] == x[1..] + ([APOS] + tail);
      RunToApostrophe(x[1..], tail);
    } else {
      assert s == [APOS] + tail;
    }
  }

  lemma EscapedApostrophes(x: Str, tail: Str)
    requires PlainWord(x) && Separated(tail)
    ensures Words([BACKSLASH, APOS] + (x + ([APOS] + tail))) == [[APOS] + x + [APOS]] + Words(tail)
  {
    hide Words, BareLen, RunLen, UnEscaped;
    var rest := x + ([APOS] + tail);
    var s := [BACKSLASH, APOS] + rest;
    var word := [BACKSLASH, APOS] + (x + [APOS]);
    BackslashNoBlank();
    RunToApostrophe(x, tail);
    BareSegment(BACKSLASH, APOS, rest);
    assert rest[|x|..] == [APOS] + tail;
    BareLast(APOS, tail);
    assert s[..|x| + 3] == word && s[|x| + 3..] == tail;
    WordsFrom(s);
    UnescapeApostrophe(x + [APOS]);
    NothingUnescaped(x + [APOS]);
    assert [APOS] + (x + [APOS]) == [APOS] + x + [APOS];
  }

  lemma UnescapeApostrophe(s: Str)
    ensures UnEscaped([BACKSLASH, APOS] + s) == [APOS] + UnEscaped(s)
  {
    assert ([BACKSLASH, APOS] + s)[2..] == s;
  }

  lemma Apostrophes(x: Str, tail: Str)
    requires PlainWord(x)
    ensures Words([APOS] + (x + ([APOS] + tail))) == [x] + Words(tail)
  {
    hide Words, RunLen, UnEscaped, BareLen;
    var rest := x + ([APOS] + tail);
    var s := [APOS] + rest;
    RunToApostrophe(x, tail);
    assert s[1..] == rest && rest[..|x|] == x;
    assert s[|x| + 1] == APOS && s[|x| + 2..] == tail;
    WordsFrom(s);
    NothingUnescaped(x);
  }

  lemma JoinedThree(command: Str, x: Str, completed: Str)
    requires PlainWord(command) && PlainWord(x) && PlainWord(completed)
    ensures Joined([command, [APOS] + x + [APOS], completed]) ==
      command + ([SPACE] + ([APOS] + (x + ([APOS] + ([SPACE] + completed)))))
  {
    hide Quoted;
    var argument := [APOS] + x + [APOS];
    PlainQuoted(command);
    PlainQuoted(completed);
    ApostrophesQuoted(x);
    assert [command, argument, completed][1..] == [argument, completed];
    assert [argument, completed][1..] == [completed];
    assert Joined([argument, completed]) == argument + [SPACE] + completed;
    assert Joined([command, argument, completed]) == command + [SPACE] + (argument + [SPACE] + completed);
    ArgumentRegrouped(command, x, completed);
  }

  lemma ArgumentRegrouped(command: Str, x: Str, completed: Str)
    ensures command + [SPACE] + ([APOS] + x + [APOS] + [SPACE] + completed) ==
      command + ([SPACE] + ([APOS] + (x + ([APOS] + ([SPACE] + completed)))))
  {
  }

  lemma ApostrophesQuoted(x: Str)
    requires PlainWord(x)
    ensures Quoted([APOS] + x + [APOS]) == [APOS] + x + [APOS]
  {
    var argument := [APOS] + x + [APOS];
    NothingEscaped(argument);
    assert forall i :: 1 <= i <= |x| ==> argument[i] == x[i - 1];
  }
}
