// formatPropertyJson and formatProperty, and what their two results say about the
// property tree and about each other.
module Dumps {
  import opened Bytes
  import opened Json
  import opened PropertyTree
  import opened Traversal

  // formatPropertyJson returns the array of the whole tree, or one object.
  datatype JsonDump = Properties(subs: seq<Json>) | Property(json: Json)

  method FormatPropertyJson(forest: seq<Node>, node: string, name: string, ghost kids: seq<Node>)
    returns (dump: JsonDump)
    requires WellFormed(forest) && '/' !in name
    requires Lookup(forest, PathNames(Extended(node, name))) == Some(kids)
    ensures if node == "" && name == "" then dump == Properties(ForestToJson(kids))
      else if node == "" || name == "" then dump == Property(Json(None, ForestToJson(kids)))
      else
        && Traversal.Property(forest, node, name).Some?
        && dump == Property(ToJson(Traversal.Property(forest, node, name).value))
  {
    hide Lookup, PathNames, WellFormed, ForestToJson;
    PropertyThere(forest, node, name, 0, kids);
    var r := new Renderer(JsonFormat);
    Traverse(forest, node, name, r, [], 0, kids);
    assert [] + ForestToJson(kids) == ForestToJson(kids);
    dump := if node == "" && name == "" then Properties(r.root.subs) else Property(r.root);
  }

  // The text goes through c_str() and so ends at the first NUL.
  function UpToNul(s: string): (r: string)
    ensures '\0' !in r && r <= s
    ensures |r| < |s| ==> s[|r|] == '\0'
  {
    if s == "" || s[0] == '\0' then "" else [s[0]] + UpToNul(s[1..])
  }

  method FormatProperty(forest: seq<Node>, node: string, name: string, ghost kids: seq<Node>) returns (text: string)
    requires WellFormed(forest) && '/' !in name
    requires Lookup(forest, PathNames(Extended(node, name))) == Some(kids)
    ensures node != "" && name != "" ==> Traversal.Property(forest, node, name).Some?
    ensures text == UpToNul(TextOf(VisitsOf(forest, node, name, 0, kids)))
  {
    hide Lookup, PathNames, WellFormed, TextOf;
    var r := new Renderer(TextFormat);
    Traverse(forest, node, name, r, [], 0, kids);
    assert "" + TextOf(VisitsOf(forest, node, name, 0, kids)) == TextOf(VisitsOf(forest, node, name, 0, kids));
    text := UpToNul(r.text);
  }

  // A property asked for by its path is reported itself exactly if the last slash
  // of the path is neither at its start nor at its end.
  predicate Inner(path: string) {
    0 < FindLastSlash(path) < |path| - 1
  }

  // The whole tree.
  predicate Root(path: string) {
    path == "" || path == "/"
  }

  lemma {:induction false} PathParts(path: string)
    ensures var (node, leaf) := NodeAndLeaf(path);
      && '/' !in leaf
      && (Inner(path) <==> node != "" && leaf != "")
      && (Root(path) <==> node == "" && leaf == "")
      && (!Inner(path) ==> TopName(path) == if node == "" then leaf else node)
  {
  }

  // A path without the slash it starts or ends with.
  function TopName(path: string): string {
    var p := FindLastSlash(path);
    if p < 0 then path else if p == 0 then path[1..] else path[..p]
  }

  method FormatPath(forest: seq<Node>, path: string, ghost kids: seq<Node>) returns (text: string)
    requires WellFormed(forest) && Lookup(forest, PathNames(path)) == Some(kids)
    ensures var (node, leaf) := NodeAndLeaf(path);
      var below := TextOf(Preorder(kids, Extended(node, leaf), 1));
      var n := Traversal.Property(forest, node, leaf);
      if !Inner(path) then text == UpToNul(below)
      else
        && n.Some? && n.value.name == leaf && n.value.subs == kids
        && text == UpToNul(LineOf(0, leaf, n.value.value) + below)
  {
    hide Lookup, PathNames, WellFormed, LineOf, Named, NodeAndLeaf;
    SplitPathNames(path);
    PathParts(path);
    var (node, leaf) := NodeAndLeaf(path);
    text := FormatProperty(forest, node, leaf, kids);
    PropertyThere(forest, node, leaf, 0, kids);
    var below := Preorder(kids, Extended(node, leaf), 1);
    if Inner(path) {
      var n := Traversal.Property(forest, node, leaf).value;
      assert ([Visit(node, leaf, n.value, n.kind, 0)] + below)[1..] == below;
    } else {
      assert [] + below == below;
    }
  }

  // The same in JSON mode. A property that is not reported gets the path for its
  // name, the type of a node and no value, whatever the property has.
  method FormatPathJson(forest: seq<Node>, path: string, ghost kids: seq<Node>) returns (dump: JsonDump)
    requires WellFormed(forest) && Lookup(forest, PathNames(path)) == Some(kids)
    ensures var (node, leaf) := NodeAndLeaf(path);
      var n := Traversal.Property(forest, node, leaf);
      if Root(path) then dump == Properties(ForestToJson(kids))
      else if !Inner(path) then dump == Property(Json(Some(Fields(TopName(path), "", "node")), ForestToJson(kids)))
      else
        && n.Some? && n.value.name == leaf && n.value.subs == kids
        && dump == Property(ToJson(n.value))
  {
    hide Lookup, PathNames, WellFormed, ForestToJson, Named, NodeAndLeaf, TopName;
    SplitPathNames(path);
    PathParts(path);
    var (node, leaf) := NodeAndLeaf(path);
    dump := FormatPropertyJson(forest, node, leaf, kids);
    PropertyThere(forest, node, leaf, 0, kids);
    if (node == "" || leaf == "") && !(node == "" && leaf == "") {
      var shown := if node == "" then leaf else node;
      dump := Property(dump.json.(fields := Some(Fields(shown, "", "node"))));
    }
  }

  // ---------------------------------------------------------------------------
  // The JSON value is the forest.

  function FromJson(j: Json): Node
    decreases j, 1
  {
    var f := if j.fields.Some? then j.fields.value else Fields("", "", "");
    Node(f.name, f.value, f.kind, ForestFromJson(j.subs))
  }

  function ForestFromJson(js: seq<Json>): seq<Node>
    decreases js, 0
  {
    if js == [] then [] else [FromJson(js[0])] + ForestFromJson(js[1..])
  }

  lemma {:induction false} JsonRoundTrip(forest: seq<Node>)
    ensures ForestFromJson(ForestToJson(forest)) == forest
    decreases forest
  {
    if forest != [] {
      JsonRoundTrip(forest[0].subs);
      JsonRoundTrip(forest[1..]);
      assert ForestToJson(forest)[0] == ToJson(forest[0]);
      assert ForestToJson(forest)[1..] == ForestToJson(forest[1..]);
    }
  }

  // ---------------------------------------------------------------------------
  // The text is the preorder of the JSON value.

  datatype Entry = Entry(depth: nat, name: string, value: string)

  function Entries(visits: seq<Visit>): seq<Entry> {
    if visits == [] then []
    else [Entry(visits[0].depth, visits[0].name, visits[0].value)] + Entries(visits[1..])
  }

  function JsonEntries(js: seq<Json>, depth: nat): seq<Entry>
    decreases js
  {
    if js == [] then []
    else
      var f := if js[0].fields.Some? then js[0].fields.value else Fields("", "", "");
      [Entry(depth, f.name, f.value)] + JsonEntries(js[0].subs, depth + 1) + JsonEntries(js[1..], depth)
  }

  lemma {:induction false} EntriesConcat(a: seq<Visit>, b: seq<Visit>)
    ensures Entries(a + b) == Entries(a) + Entries(b)
    decreases |a|
  {
    if a == [] {
      assert a + b == b;
    } else {
      assert (a + b)[1..] == a[1..] + b;
      EntriesConcat(a[1..], b);
    }
  }

  lemma {:induction false} TextIsJsonPreorder(forest: seq<Node>, node: string, depth: nat)
    ensures Entries(Preorder(forest, node, depth)) == JsonEntries(ForestToJson(forest), depth)
    decreases forest
  {
    if forest != [] {
      hide Entries, JsonEntries;
      var n := forest[0];
      var v := Visit(node, n.name, n.value, n.kind, depth);
      var below, beside := Preorder(n.subs, Extended(node, n.name), depth + 1), Preorder(forest[1..], node, depth);
      TextIsJsonPreorder(n.subs, Extended(node, n.name), depth + 1);
      TextIsJsonPreorder(forest[1..], node, depth);
      EntriesConcat([v] + below, beside);
      EntriesConcat([v], below);
      OneEntry(v);
      JsonEntriesCons(ToJson(n), ForestToJson(forest[1..]), depth);
    } else {
      assert Preorder(forest, node, depth) == [];
    }
  }

  lemma {:induction false} OneEntry(v: Visit)
    ensures Entries([v]) == [Entry(v.depth, v.name, v.value)]
  {
    assert [v][1..] == [];
  }

  lemma {:induction false} JsonEntriesCons(j: Json, js: seq<Json>, depth: nat)
    ensures JsonEntries([j] + js, depth) ==
      var f := if j.fields.Some? then j.fields.value else Fields("", "", "");
      [Entry(depth, f.name, f.value)] + JsonEntries(j.subs, depth + 1) + JsonEntries(js, depth)
  {
    assert ([j] + js)[1..] == js;
  }

  // ---------------------------------------------------------------------------
  // The depths, names and values that are listed determine the forest, types
  // aside. Whether the characters show them is the matter of module Listing.

  function Untyped(forest: seq<Node>): seq<Node>
    decreases forest
  {
    if forest == [] then []
    else [Node(forest[0].name, forest[0].value, "", Untyped(forest[0].subs))] + Untyped(forest[1..])
  }

  // Reading a listing back: the nodes at `depth`, and the entries behind them.
  function Rebuilt(entries: seq<Entry>, depth: nat): (r: (seq<Node>, seq<Entry>))
    ensures |r.1| <= |entries|
    decreases |entries|
  {
    if entries == [] || entries[0].depth != depth then ([], entries)
    else
      var (subs, behind) := Rebuilt(entries[1..], depth + 1);
      var (beside, rest) := Rebuilt(behind, depth);
      ([Node(entries[0].name, entries[0].value, "", subs)] + beside, rest)
  }

  lemma {:induction false} ListingRebuilds(forest: seq<Node>, node: string, depth: nat, tail: seq<Entry>)
    requires tail == [] || tail[0].depth < depth
    ensures Rebuilt(Entries(Preorder(forest, node, depth)) + tail, depth) == (Untyped(forest), tail)
    decreases forest
  {
    if forest == [] {
      assert Entries(Preorder(forest, node, depth)) + tail == tail;
    } else {
      hide *;
      var n := forest[0];
      var v := Visit(node, n.name, n.value, n.kind, depth);
      var below, beside := Preorder(n.subs, Extended(node, n.name), depth + 1), Preorder(forest[1..], node, depth);
      var e := Entry(depth, n.name, n.value);
      PreorderCons(forest, node, depth);
      EntriesConcat([v] + below, beside);
      EntriesConcat([v], below);
      OneEntry(v);
      var rest := Entries(beside) + tail;
      Associates([e] + Entries(below), Entries(beside), tail);
      Associates([e], Entries(below), rest);
      BesideDepth(forest[1..], node, depth, tail);
      ListingRebuilds(n.subs, Extended(node, n.name), depth + 1, rest);
      ListingRebuilds(forest[1..], node, depth, tail);
      RebuiltCons(e, Entries(below) + rest);
      UntypedCons(forest);
    }
  }

  lemma {:induction false} PreorderCons(forest: seq<Node>, node: string, depth: nat)
    requires forest != []
    ensures var n := forest[0];
      Preorder(forest, node, depth) ==
        [Visit(node, n.name, n.value, n.kind, depth)]
        + Preorder(n.subs, Extended(node, n.name), depth + 1) + Preorder(forest[1..], node, depth)
  {
  }

  lemma {:induction false} RebuiltCons(e: Entry, behind: seq<Entry>)
    ensures Rebuilt([e] + behind, e.depth) ==
      var (subs, rest) := Rebuilt(behind, e.depth + 1);
      var (beside, tail) := Rebuilt(rest, e.depth);
      ([Node(e.name, e.value, "", subs)] + beside, tail)
  {
    assert ([e] + behind)[1..] == behind;
  }

  lemma {:induction false} UntypedCons(forest: seq<Node>)
    requires forest != []
    ensures Untyped(forest) ==
      [Node(forest[0].name, forest[0].value, "", Untyped(forest[0].subs))] + Untyped(forest[1..])
  {
  }

  lemma {:induction false} BesideDepth(forest: seq<Node>, node: string, depth: nat, tail: seq<Entry>)
    requires tail == [] || tail[0].depth < depth
    ensures var rest := Entries(Preorder(forest, node, depth)) + tail;
      rest == [] || rest[0].depth < depth + 1
  {
    if forest != [] {
      assert Preorder(forest, node, depth)[0].depth == depth;
    } else {
      assert Entries(Preorder(forest, node, depth)) + tail == tail;
    }
  }

  // Two whole-tree dumps that list the same come from the same forest, up to the
  // types that are not listed.
  lemma {:induction false} ListingUnique(a: seq<Node>, b: seq<Node>)
    requires Entries(Preorder(a, "", 1)) == Entries(Preorder(b, "", 1))
    ensures Untyped(a) == Untyped(b)
  {
    ListingRebuilds(a, "", 1, []);
    ListingRebuilds(b, "", 1, []);
  }

  // ---------------------------------------------------------------------------
  // The paths queried are the true ones.

  function NamedPreorder(forest: seq<Node>, names: seq<string>, depth: nat): seq<Visit>
    decreases forest
  {
    if forest == [] then []
    else
      var n := forest[0];
      [Visit(SlashJoined(names), n.name, n.value, n.kind, depth)]
      + NamedPreorder(n.subs, names + [n.name], depth + 1)
      + NamedPreorder(forest[1..], names, depth)
  }

  lemma {:induction false} PathsAreTrue(forest: seq<Node>, names: seq<string>, depth: nat)
    requires WellFormed(forest)
    requires forall i :: 0 <= i < |names| ==> names[i] != "" && '/' !in names[i]
    ensures Preorder(forest, SlashJoined(names), depth) == NamedPreorder(forest, names, depth)
    decreases forest
  {
    if forest != [] {
      hide SlashJoined, Extended;
      var n := forest[0];
      ExtendedJoined(names, n.name);
      PathsAreTrue(n.subs, names + [n.name], depth + 1);
      WellFormedRest(forest);
      PathsAreTrue(forest[1..], names, depth);
    }
  }

  lemma {:induction false} WellFormedRest(forest: seq<Node>)
    requires WellFormed(forest) && forest != []
    ensures WellFormed(forest[1..])
  {
  }
}
