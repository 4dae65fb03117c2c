// The characters of a text dump: when the properties can be read back from them.
module Listing {
  import opened Bytes
  import opened Dumps
  import opened PropertyTree
  import opened Traversal

  const SEPARATOR := " : "

  // ---------------------------------------------------------------------------
  // Reading a listing.

  function LeadingBlanks(s: string): (n: nat)
    ensures n <= |s|
  {
    if s != "" && s[0] == ' ' then 1 + LeadingBlanks(s[1..]) else 0
  }

  // The offset of the first separator, or the length.
  function FirstSeparator(s: string): (n: nat)
    ensures n <= |s|
  {
    if s == "" || SEPARATOR <= s then 0 else 1 + FirstSeparator(s[1..])
  }

  function LineEnd(s: string): (n: nat)
    ensures n <= |s|
  {
    if s == "" || s[0] == '\n' then 0 else 1 + LineEnd(s[1..])
  }

  function ReadBody(depth: nat, body: string): Entry {
    var n := FirstSeparator(body);
    Entry(depth, body[..n], if n + |SEPARATOR| <= |body| then body[n + |SEPARATOR|..] else "")
  }

  function ReadLine(line: string): Entry {
    var n := LeadingBlanks(line);
    ReadBody(n / 2, line[n..])
  }

  function ReadText(text: string): seq<Entry>
    decreases |text|
  {
    if text == "" then []
    else
      var n := LineEnd(text);
      [ReadLine(text[..n])] + if n < |text| then ReadText(text[n + 1..]) else []
  }

  // Two blanks for each level, the name, a separator and the value.
  lemma {:induction false} LineForms(name: string, value: string)
    ensures LineOf(0, name, value) == name + " : " + value + "\n"
    ensures LineOf(1, name, value) == "  " + name + " : " + value + "\n"
    ensures LineOf(2, name, value) == "    " + name + " : " + value + "\n"
  {
    hide Spaces;
    SpacesForms();
    assert "" + name == name;
  }

  lemma {:induction false} SpacesForms()
    ensures Spaces(0) == "" && Spaces(2) == "  " && Spaces(4) == "    "
  {
    assert Spaces(1) == " ";
    assert Spaces(3) == " " + Spaces(2);
  }

  // ---------------------------------------------------------------------------
  // Which properties can be read back.

  // The name shows where it begins and where it ends: not at a blank, and no blank
  // and colon in it are followed by a blank or by the end.
  predicate PlainName(name: string) {
    name != "" && name[0] != ' ' && SeparatorFree(name)
  }

  predicate SeparatorFree(name: string) {
    forall i :: 0 <= i < |name| - 1 && name[i] == ' ' && name[i + 1] == ':' ==>
      i + 2 < |name| && name[i + 2] != ' '
  }

  predicate Plain(e: Entry) {
    PlainName(e.name) && '\n' !in e.name && '\n' !in e.value
  }

  function Body(e: Entry): string {
    e.name + (SEPARATOR + e.value)
  }

  function EntryLine(e: Entry): string {
    LineOf(e.depth, e.name, e.value)
  }

  lemma {:induction false} LeadingBlanksOf(n: nat, s: string)
    ensures LeadingBlanks(Spaces(n) + s) == n + LeadingBlanks(s)
    ensures (Spaces(n) + s)[LeadingBlanks(Spaces(n) + s)..] == s[LeadingBlanks(s)..]
  {
    if n == 0 {
      assert Spaces(n) + s == s;
    } else {
      hide LeadingBlanks;
      LeadingBlanksOf(n - 1, s);
      assert Spaces(n) + s == " " + (Spaces(n - 1) + s);
      OneBlankMore(Spaces(n - 1) + s);
    }
  }

  lemma {:induction false} OneBlankMore(s: string)
    ensures LeadingBlanks(" " + s) == 1 + LeadingBlanks(s)
    ensures (" " + s)[1 + LeadingBlanks(s)..] == s[LeadingBlanks(s)..]
  {
    assert (" " + s)[1..] == s;
  }

  lemma {:induction false} SeparatorBehind(name: string, value: string)
    ensures FirstSeparator(name + (SEPARATOR + value)) <= |name|
    ensures FirstSeparator(name + (SEPARATOR + value)) == |name| <==> SeparatorFree(name)
    decreases |name|
  {
    var body := name + (SEPARATOR + value);
    if name == "" {
      assert body == SEPARATOR + value;
    } else {
      SeparatorBehind(name[1..], value);
      assert body[1..] == name[1..] + (SEPARATOR + value);
      SeparatorFreeFront(name);
      SeparatorInFront(name, value);
    }
  }

  lemma {:induction false} SeparatorFreeFront(name: string)
    requires name != ""
    ensures SeparatorFree(name) <==>
      SeparatorFree(name[1..])
      && (|name| >= 2 && name[0] == ' ' && name[1] == ':' ==> |name| > 2 && name[2] != ' ')
  {
    var rest := name[1..];
    assert forall i :: 0 <= i < |rest| ==> rest[i] == name[i + 1];
    if SeparatorFree(rest) && (|name| >= 2 && name[0] == ' ' && name[1] == ':' ==> |name| > 2 && name[2] != ' ') {
      forall i | 0 <= i < |name| - 1 && name[i] == ' ' && name[i + 1] == ':'
        ensures i + 2 < |name| && name[i + 2] != ' '
      {
        if i > 0 {
          assert rest[i - 1] == ' ' && rest[i - 1 + 1] == ':';
        }
      }
    }
    if SeparatorFree(name) {
      forall i | 0 <= i < |rest| - 1 && rest[i] == ' ' && rest[i + 1] == ':'
        ensures i + 2 < |rest| && rest[i + 2] != ' '
      {
        assert name[i + 1] == ' ' && name[i + 1 + 1] == ':';
      }
    }
  }

  lemma {:induction false} SeparatorInFront(name: string, value: string)
    requires name != ""
    ensures SEPARATOR <= name + (SEPARATOR + value) <==>
      |name| >= 2 && name[0] == ' ' && name[1] == ':' && (|name| == 2 || name[2] == ' ')
  {
    var body := name + (SEPARATOR + value);
    assert SEPARATOR <= body <==> body[0] == ' ' && body[1] == ':' && body[2] == ' ';
  }

  // A line is read back exactly if its name is plain.
  lemma {:induction false} LineReadBack(e: Entry)
    ensures ReadLine(Spaces(e.depth * 2) + Body(e)) == e <==> PlainName(e.name)
  {
    hide FirstSeparator, LeadingBlanks, Spaces;
    var body := Body(e);
    LeadingBlanksOf(e.depth * 2, body);
    BlanksOfBody(e);
    if e.name == "" || e.name[0] == ' ' {
      var rest := body[LeadingBlanks(body)..];
      NameNotBlank(rest);
    } else {
      SeparatorBehind(e.name, e.value);
      assert body[0..] == body;
      assert body[|e.name| + |SEPARATOR|..] == e.value;
      assert body[..|e.name|] == e.name;
    }
  }

  lemma {:induction false} BlanksOfBody(e: Entry)
    ensures LeadingBlanks(Body(e)) < |Body(e)| && Body(e)[LeadingBlanks(Body(e))] != ' '
    ensures e.name != "" && e.name[0] != ' ' ==> LeadingBlanks(Body(e)) == 0
  {
    assert Body(e)[|e.name| + 1] == ':';
    BlanksEnd(Body(e), |e.name| + 1);
  }

  lemma {:induction false} BlanksEnd(s: string, i: nat)
    requires i < |s| && s[i] != ' '
    ensures LeadingBlanks(s) <= i && s[LeadingBlanks(s)] != ' '
  {
    if s[0] == ' ' {
      BlanksEnd(s[1..], i - 1);
    }
  }

  // What is read of a line never has a name that is empty or starts with a blank.
  lemma {:induction false} NameNotBlank(rest: string)
    requires rest != "" && rest[0] != ' '
    ensures var n := FirstSeparator(rest);
      n > 0 && rest[..n][0] != ' '
  {
  }

  // ---------------------------------------------------------------------------
  // Whole texts.

  lemma {:induction false} LineEndAt(s: string, rest: string)
    requires '\n' !in s
    ensures LineEnd(s + "\n" + rest) == |s|
    decreases |s|
  {
    if s != "" {
      assert (s + "\n" + rest)[1..] == s[1..] + "\n" + rest;
      LineEndAt(s[1..], rest);
    }
  }

  lemma {:induction false} LineEndInside(s: string, rest: string)
    requires '\n' in s
    ensures LineEnd(s + rest) < |s|
    decreases |s|
  {
    if s[0] != '\n' {
      assert (s + rest)[1..] == s[1..] + rest;
      LineEndInside(s[1..], rest);
    }
  }

  lemma {:induction false} ReadFirst(s: string, rest: string)
    requires '\n' !in s
    ensures ReadText(s + "\n" + rest) == [ReadLine(s)] + ReadText(rest)
  {
    var text := s + "\n" + rest;
    LineEndAt(s, rest);
    assert text[..|s|] == s && text[|s| + 1..] == rest;
  }

  // Each property takes a line, or more if there is a line feed in it.
  lemma {:induction false} ReadNotShorter(s: string, rest: string)
    ensures |ReadText(s + "\n" + rest)| >= 1 + |ReadText(rest)|
    ensures '\n' in s ==> |ReadText(s + "\n" + rest)| >= 2 + |ReadText(rest)|
    decreases |s|
  {
    if '\n' !in s {
      ReadFirst(s, rest);
    } else {
      var text := s + "\n" + rest;
      assert s + ("\n" + rest) == text;
      LineEndInside(s, "\n" + rest);
      var n := LineEnd(text);
      assert text[n + 1..] == s[n + 1..] + "\n" + rest;
      ReadNotShorter(s[n + 1..], rest);
    }
  }

  lemma {:induction false} LineParts(e: Entry)
    ensures EntryLine(e) == Spaces(e.depth * 2) + Body(e) + "\n"
    ensures '\n' in Spaces(e.depth * 2) + Body(e) <==> '\n' in e.name || '\n' in e.value
  {
    SpacesBlank(e.depth * 2);
    assert Spaces(e.depth * 2) + e.name + SEPARATOR + e.value == Spaces(e.depth * 2) + Body(e);
  }

  lemma {:induction false} SpacesBlank(n: nat)
    ensures '\n' !in Spaces(n)
  {
    if n > 0 {
      SpacesBlank(n - 1);
    }
  }

  lemma {:induction false} TextNotShorter(visits: seq<Visit>)
    ensures |ReadText(TextOf(visits))| >= |visits| == |Entries(visits)|
  {
    hide ReadText, LineOf;
    if visits != [] {
      TextNotShorter(visits[1..]);
      var e := Entry(visits[0].depth, visits[0].name, visits[0].value);
      LineParts(e);
      ReadNotShorter(Spaces(e.depth * 2) + Body(e), TextOf(visits[1..]));
    } else {
      assert Entries(visits) == [];
    }
  }

  // A text is read back as the depth, name and value of each property exactly if
  // all of them are plain.
  lemma {:induction false} TextReadBack(visits: seq<Visit>)
    ensures ReadText(TextOf(visits)) == Entries(visits) <==>
      forall i :: 0 <= i < |Entries(visits)| ==> Plain(Entries(visits)[i])
    decreases |visits|
  {
    hide ReadLine, LineOf, Body, PlainName;
    if visits == [] {
      assert Entries(visits) == [];
    } else {
      var e := Entry(visits[0].depth, visits[0].name, visits[0].value);
      var s, rest := Spaces(e.depth * 2) + Body(e), TextOf(visits[1..]);
      TextReadBack(visits[1..]);
      TextNotShorter(visits[1..]);
      LineParts(e);
      LineReadBack(e);
      assert TextOf(visits) == s + "\n" + rest;
      EntriesCons(visits);
      if '\n' in s {
        ReadNotShorter(s, rest);
        assert !Plain(Entries(visits)[0]);
      } else {
        ReadFirst(s, rest);
        FirstAndRest(e, Entries(visits[1..]), ReadLine(s), ReadText(rest));
      }
    }
  }

  lemma {:induction false} EntriesCons(visits: seq<Visit>)
    requires visits != []
    ensures Entries(visits) == [Entry(visits[0].depth, visits[0].name, visits[0].value)] + Entries(visits[1..])
  {
  }

  lemma {:induction false} FirstAndRest(e: Entry, es: seq<Entry>, f: Entry, fs: seq<Entry>)
    ensures [f] + fs == [e] + es <==> f == e && fs == es
    ensures (forall i :: 0 <= i < |[e] + es| ==> Plain(([e] + es)[i])) <==>
      Plain(e) && forall i :: 0 <= i < |es| ==> Plain(es[i])
  {
    assert ([f] + fs)[1..] == fs && ([e] + es)[1..] == es;
    assert forall i :: 0 <= i < |es| ==> es[i] == ([e] + es)[i + 1];
    assert ([e] + es)[0] == e;
  }

  // ---------------------------------------------------------------------------
  // Whole forests.

  predicate PlainForest(forest: seq<Node>)
    decreases forest
  {
    forall i :: 0 <= i < |forest| ==>
      && Plain(Entry(0, forest[i].name, forest[i].value))
      && '\0' !in forest[i].name && '\0' !in forest[i].value
      && PlainForest(forest[i].subs)
  }

  predicate PlainVisits(visits: seq<Visit>) {
    forall i :: 0 <= i < |visits| ==>
      && Plain(Entry(0, visits[i].name, visits[i].value))
      && '\0' !in visits[i].name && '\0' !in visits[i].value
  }

  lemma {:induction false} PreorderPlain(forest: seq<Node>, node: string, depth: nat)
    requires PlainForest(forest)
    ensures PlainVisits(Preorder(forest, node, depth))
    decreases forest
  {
    hide Plain;
    if forest != [] {
      PreorderPlain(forest[0].subs, Extended(node, forest[0].name), depth + 1);
      PreorderPlain(forest[1..], node, depth);
    }
  }

  lemma {:induction false} PlainEntries(visits: seq<Visit>)
    requires PlainVisits(visits)
    ensures forall i :: 0 <= i < |Entries(visits)| ==> Plain(Entries(visits)[i])
    ensures '\0' !in TextOf(visits)
    decreases |visits|
  {
    if visits != [] {
      hide PlainName;
      PlainEntries(visits[1..]);
      SpacesVisible(visits[0].depth * 2);
    }
  }

  lemma {:induction false} SpacesVisible(n: nat)
    ensures '\0' !in Spaces(n)
  {
    if n > 0 {
      SpacesVisible(n - 1);
    }
  }

  lemma {:induction false} UpToNulWhole(s: string)
    requires '\0' !in s
    ensures UpToNul(s) == s
  {
    if s != "" {
      UpToNulWhole(s[1..]);
    }
  }

  // A plain forest, types aside, is rebuilt from the characters of its dump.
  lemma {:induction false} TextRebuilds(forest: seq<Node>)
    requires PlainForest(forest)
    ensures Rebuilt(ReadText(UpToNul(TextOf(Preorder(forest, "", 1)))), 1) == (Untyped(forest), [])
  {
    hide *;
    var visits := Preorder(forest, "", 1);
    PreorderPlain(forest, "", 1);
    PlainEntries(visits);
    UpToNulWhole(TextOf(visits));
    TextReadBack(visits);
    ListingRebuilds(forest, "", 1, []);
    assert Entries(visits) + [] == Entries(visits);
  }

  // So plain forests that print the same characters are the same, types aside.
  lemma {:induction false} TextUnique(a: seq<Node>, b: seq<Node>)
    requires PlainForest(a) && PlainForest(b)
    requires UpToNul(TextOf(Preorder(a, "", 1))) == UpToNul(TextOf(Preorder(b, "", 1)))
    ensures Untyped(a) == Untyped(b)
  {
    hide *;
    TextRebuilds(a);
    TextRebuilds(b);
  }

  // Others need not be: a separator may stand in the name or in the value.
  lemma {:induction false} TextCollides()
    ensures var a, b := [Node("a", "b : c", "", [])], [Node("a : b", "c", "", [])];
      && WellFormed(a) && WellFormed(b) && Untyped(a) != Untyped(b)
      && TextOf(Preorder(a, "", 1)) == TextOf(Preorder(b, "", 1))
  {
    hide Preorder, TextOf, LineOf, Spaces;
    var a, b := Node("a", "b : c", "", []), Node("a : b", "c", "", []);
    OneVisit(a);
    OneVisit(b);
    LineParts(Entry(1, "a", "b : c"));
    LineParts(Entry(1, "a : b", "c"));
    assert "a" + (SEPARATOR + "b : c") == "a : b" + (SEPARATOR + "c");
    assert Untyped([a])[0].name != Untyped([b])[0].name;
  }

  lemma {:induction false} OneVisit(n: Node)
    requires n.subs == []
    ensures TextOf(Preorder([n], "", 1)) == LineOf(1, n.name, n.value)
  {
    var v := Visit("", n.name, n.value, n.kind, 1);
    assert Preorder(n.subs, Extended("", n.name), 2) == [] && Preorder([n][1..], "", 1) == [];
    assert Preorder([n], "", 1) == [v];
    assert TextOf([v][1..]) == "";
  }

  // ---------------------------------------------------------------------------
  // Dumps that no other tree prints at all, plain or not.

  ghost predicate Unmistakable(forest: seq<Node>) {
    forall b: seq<Node> :: WellFormed(b) && TextOf(Preorder(b, "", 1)) == TextOf(Preorder(forest, "", 1)) ==>
      Untyped(b) == Untyped(forest)
  }

  // What the text of a forest has behind the line of its first property.
  function LaterVisits(forest: seq<Node>): seq<Visit>
    requires forest != []
  {
    Preorder(forest[0].subs, Extended("", forest[0].name), 2) + Preorder(forest[1..], "", 1)
  }

  // One property whose value holds all of that.
  function Folded(forest: seq<Node>): Node
    requires forest != []
  {
    var n, rest := forest[0], TextOf(LaterVisits(forest));
    Node(n.name, n.value + "\n" + rest[..if rest == "" then 0 else |rest| - 1], "", [])
  }

  // With more than one property there is always another tree: the value of the first
  // property may hold everything that follows.
  lemma {:induction false} TwoPropertiesMistakable(forest: seq<Node>)
    requires WellFormed(forest) && forest != [] && (|forest| > 1 || forest[0].subs != [])
    ensures !Unmistakable(forest)
  {
    hide WellFormed, TextOf, Preorder, Untyped, Folded;
    LaterThere(forest);
    FoldedText(forest);
    FoldedApart(forest);
    FoldedWellFormed(forest);
  }

  lemma {:induction false} FoldedText(forest: seq<Node>)
    requires forest != [] && LaterVisits(forest) != []
    ensures TextOf(Preorder([Folded(forest)], "", 1)) == TextOf(Preorder(forest, "", 1))
  {
    hide TextOf, LineOf, Preorder;
    var n, later := forest[0], LaterVisits(forest);
    TextEnds(later);
    PreorderCons(forest, "", 1);
    Associates([Visit("", n.name, n.value, n.kind, 1)], Preorder(n.subs, Extended("", n.name), 2),
               Preorder(forest[1..], "", 1));
    TextCons(Visit("", n.name, n.value, n.kind, 1), later);
    OneVisit(Folded(forest));
    LineExtended(n.name, n.value, TextOf(later));
  }

  lemma {:induction false} LaterThere(forest: seq<Node>)
    requires forest != [] && (|forest| > 1 || forest[0].subs != [])
    ensures LaterVisits(forest) != []
  {
    hide Preorder;
    var subs, rest := forest[0].subs, forest[1..];
    SomeVisits(subs, Extended("", forest[0].name), 2);
    SomeVisits(rest, "", 1);
  }

  lemma {:induction false} FoldedApart(forest: seq<Node>)
    requires forest != [] && (|forest| > 1 || forest[0].subs != [])
    ensures Untyped([Folded(forest)]) != Untyped(forest)
  {
    hide Untyped, Folded;
    var b, subs := Folded(forest), forest[0].subs;
    NoSubs(forest);
    UntypedShape(forest);
    UntypedShape([b]);
    UntypedShape(subs);
    UntypedShape([]);
  }

  lemma {:induction false} NoSubs(forest: seq<Node>)
    requires forest != []
    ensures Folded(forest).subs == []
  {
    hide Preorder, TextOf;
  }

  lemma {:induction false} UntypedShape(forest: seq<Node>)
    ensures |Untyped(forest)| == |forest|
    ensures forest != [] ==> Untyped(forest)[0].subs == Untyped(forest[0].subs)
    ensures forest != [] ==> Untyped(forest)[0].name == forest[0].name
    decreases |forest|
  {
    if forest != [] {
      UntypedShape(forest[1..]);
    }
  }

  lemma {:induction false} FoldedWellFormed(forest: seq<Node>)
    requires forest != [] && WellFormed(forest)
    ensures WellFormed([Folded(forest)])
  {
    hide Preorder, TextOf;
    assert forest[0].name != "" && '/' !in forest[0].name;
    assert WellFormed([]);
  }

  lemma {:induction false} SomeVisits(forest: seq<Node>, node: string, depth: nat)
    ensures |Preorder(forest, node, depth)| >= |forest|
    ensures forest == [] ==> Preorder(forest, node, depth) == []
    decreases |forest|
  {
    if forest != [] {
      SomeVisits(forest[1..], node, depth);
    }
  }

  lemma {:induction false} TextEnds(visits: seq<Visit>)
    requires visits != []
    ensures TextOf(visits) != "" && TextOf(visits)[|TextOf(visits)| - 1] == '\n'
    decreases |visits|
  {
    var v := visits[0];
    assert LineOf(v.depth, v.name, v.value) != "";
    if |visits| > 1 {
      TextEnds(visits[1..]);
    } else {
      assert TextOf(visits[1..]) == "";
    }
  }

  lemma {:induction false} TextCons(v: Visit, later: seq<Visit>)
    ensures TextOf([v] + later) == LineOf(v.depth, v.name, v.value) + TextOf(later)
  {
    assert ([v] + later)[1..] == later;
  }

  lemma {:induction false} LineExtended(name: string, value: string, rest: string)
    requires rest != "" && rest[|rest| - 1] == '\n'
    ensures LineOf(1, name, value + "\n" + rest[..|rest| - 1]) == LineOf(1, name, value) + rest
  {
    hide Spaces;
    assert rest == rest[..|rest| - 1] + "\n";
  }

  // The separators but the one behind the name have a slash in front, so that no name
  // could end there.
  predicate OneSeparator(n: Node) {
    var body := n.name + (SEPARATOR + n.value);
    forall i :: 0 < i <= |body| - |SEPARATOR| && i != |n.name| && SeparatorAt(body, i) ==> '/' in body[..i]
  }

  predicate SeparatorAt(s: string, i: nat) {
    i + |SEPARATOR| <= |s| && s[i..i + |SEPARATOR|] == SEPARATOR
  }

  // A single property of one line is read in one way exactly if it has one separator.
  lemma {:induction false} OneProperty(n: Node)
    requires WellFormed([n]) && n.subs == [] && '\n' !in n.name && '\n' !in n.value
    ensures Unmistakable([n]) <==> OneSeparator(n)
  {
    hide WellFormed, TextOf, Preorder, Untyped;
    if OneSeparator(n) {
      forall b: seq<Node> | WellFormed(b) && TextOf(Preorder(b, "", 1)) == TextOf(Preorder([n], "", 1))
        ensures Untyped(b) == Untyped([n])
      {
        OnlyReading(n, b);
      }
    } else {
      OtherReading(n);
    }
  }

  lemma {:induction false} OtherReading(n: Node)
    requires WellFormed([n]) && n.subs == [] && !OneSeparator(n)
    ensures !Unmistakable([n])
  {
    hide TextOf, Preorder;
    var body := n.name + (SEPARATOR + n.value);
    var i :| 0 < i <= |body| - |SEPARATOR| && i != |n.name| && SeparatorAt(body, i) && '/' !in body[..i];
    var b := Node(body[..i], body[i + |SEPARATOR|..], "", []);
    OneVisit(n);
    OneVisit(b);
    assert body == body[..i] + (SEPARATOR + body[i + |SEPARATOR|..]);
    LineParts(Entry(1, n.name, n.value));
    LineParts(Entry(1, b.name, b.value));
    assert WellFormed([b]);
    assert Untyped([b])[0].name != Untyped([n])[0].name;
  }

  lemma {:induction false} OnlyReading(n: Node, b: seq<Node>)
    requires WellFormed([n]) && n.subs == [] && '\n' !in n.name && '\n' !in n.value && OneSeparator(n)
    requires WellFormed(b) && TextOf(Preorder(b, "", 1)) == TextOf(Preorder([n], "", 1))
    ensures Untyped(b) == Untyped([n])
  {
    hide TextOf, Preorder, ReadText, LineOf, WellFormed, Untyped, Spaces;
    OneVisit(n);
    LineParts(Entry(1, n.name, n.value));
    var body := n.name + (SEPARATOR + n.value);
    var line := Spaces(2) + body;
    ReadFirst(line, "");
    assert line + "\n" + "" == line + "\n";
    NothingRead();
    TextNotShorter(Preorder(b, "", 1));
    NoText();
    SingleVisit(b);
    var m := b[0];
    OneVisit(m);
    LineParts(Entry(1, m.name, m.value));
    SameBody(Spaces(2), body, m.name + (SEPARATOR + m.value));
    SplitAt(m.name, m.value, body);
    SplitAt(n.name, n.value, body);
    NameThere(b);
    assert |m.name| == |n.name|;
    UntypedOne(m, n);
  }

  lemma {:induction false} NameThere(forest: seq<Node>)
    requires WellFormed(forest) && forest != []
    ensures forest[0].name != "" && '/' !in forest[0].name
  {
  }

  lemma {:induction false} UntypedOne(m: Node, n: Node)
    requires m.name == n.name && m.value == n.value && m.subs == n.subs == []
    ensures Untyped([m]) == Untyped([n])
  {
    assert Untyped([m][1..]) == [] && Untyped([n][1..]) == [];
  }

  lemma {:induction false} NothingRead()
    ensures ReadText("") == []
  {
  }

  lemma {:induction false} SingleVisit(b: seq<Node>)
    requires b != [] && |Preorder(b, "", 1)| <= 1
    ensures b == [b[0]] && b[0].subs == []
  {
    hide Preorder;
    PreorderCons(b, "", 1);
    SomeVisits(b[0].subs, Extended("", b[0].name), 2);
    SomeVisits(b[1..], "", 1);
  }

  lemma {:induction false} NoText()
    ensures TextOf(Preorder([], "", 1)) == ""
  {
  }

  lemma {:induction false} SameBody(front: string, s: string, t: string)
    requires front + s + "\n" == front + t + "\n"
    ensures s == t
  {
    assert |s| == |t|;
    assert s == (front + s + "\n")[|front|..|front| + |s|];
    assert t == (front + t + "\n")[|front|..|front| + |t|];
  }

  lemma {:induction false} SplitAt(name: string, value: string, body: string)
    requires body == name + (SEPARATOR + value)
    ensures SeparatorAt(body, |name|) && body[..|name|] == name && body[|name| + |SEPARATOR|..] == value
  {
  }
}
