// traverseProperties of fep_control.cpp with the callbacks of its two renderers.
module Traversal {
  import opened Bytes
  import opened Json
  import opened PropertyTree

  // One call of the callback: the node queried, the property, its depth.
  datatype Visit = Visit(node: string, name: string, value: string, kind: string, depth: nat)

  // ---------------------------------------------------------------------------
  // What a traversal of a forest is: structural preorder.

  function Preorder(forest: seq<Node>, node: string, depth: nat): seq<Visit>
    decreases forest
  {
    if forest == [] then []
    else
      var n := forest[0];
      [Visit(node, n.name, n.value, n.kind, depth)]
      + Preorder(n.subs, Extended(node, n.name), depth + 1)
      + Preorder(forest[1..], node, depth)
  }

  function ToJson(n: Node): Json
    decreases n, 1
  {
    Json(Some(Fields(n.name, n.value, n.kind)), ForestToJson(n.subs))
  }

  function ForestToJson(forest: seq<Node>): seq<Json>
    decreases forest, 0
  {
    if forest == [] then [] else [ToJson(forest[0])] + ForestToJson(forest[1..])
  }

  function Spaces(n: nat): string {
    if n == 0 then "" else " " + Spaces(n - 1)
  }

  function LineOf(depth: nat, name: string, value: string): string {
    Spaces(depth * 2) + name + " : " + value + "\n"
  }

  function TextOf(visits: seq<Visit>): string {
    if visits == [] then "" else LineOf(visits[0].depth, visits[0].name, visits[0].value) + TextOf(visits[1..])
  }

  // ---------------------------------------------------------------------------
  // The renderers.

  datatype Format = JsonFormat | TextFormat

  // The value after the callback wrote its fields, and the object it returns.
  function AfterCallback(root: Json, parent: Pointer, fields: Fields, depth: nat): (r: (Json, Pointer))
    requires Points(root, parent) && (depth == 0 ==> parent == [])
    ensures Points(r.0, r.1)
  {
    if depth == 0 then (root.(fields := Some(fields)), parent)
    else
      AppendPoints(root, parent, [Json(Some(fields), [])]);
      AppendInside(root, parent, Json(Some(fields), []), []);
      (Append(root, parent, [Json(Some(fields), [])]), parent + [|Deref(root, parent).subs|])
  }

  class Renderer {
    const format: Format
    var root: Json
    var text: string
    ghost var visits: seq<Visit>

    constructor (format: Format)
      ensures this.format == format && root == Json(None, []) && text == "" && visits == []
    {
      this.format := format;
      root, text := Json(None, []), "";
      visits := [];
    }

    method Callback(ghost node: string, name: string, value: string, kind: string, depth: nat, parent: Pointer)
      returns (target: Pointer)
      requires Points(root, parent) && (depth == 0 ==> parent == [])
      modifies this
      ensures visits == old(visits) + [Visit(node, name, value, kind, depth)]
      ensures if format.JsonFormat? then
          text == old(text) && (root, target) == AfterCallback(old(root), parent, Fields(name, value, kind), depth)
        else
          root == old(root) && target == parent
          && text == old(text) + LineOf(depth, name, value)
    {
      visits := visits + [Visit(node, name, value, kind, depth)];
      match format
      case JsonFormat =>
        if depth == 0 {
          root := root.(fields := Some(Fields(name, value, kind)));
          target := parent;
        } else {
          target := parent + [|Deref(root, parent).subs|];
          root := Append(root, parent, [Json(Some(Fields(name, value, kind)), [])]);
        }
      case TextFormat =>
        text := text + LineOf(depth, name, value);
        target := parent;
    }
  }

  // ---------------------------------------------------------------------------
  // The traversal.

  // Whether the property asked for is reported itself: below the starting point
  // always, at the starting point only with a node and a name.
  predicate Reported(node: string, name: string, depth: nat) {
    depth != 0 || (node != "" && name != "")
  }

  function VisitsOf(forest: seq<Node>, node: string, name: string, depth: nat, kids: seq<Node>): seq<Visit>
    requires Reported(node, name, depth) ==> name != "" && Property(forest, node, name).Some?
  {
    (if Reported(node, name, depth) then
       var n := Property(forest, node, name).value;
       [Visit(node, name, n.value, n.kind, depth)]
     else [])
    + Preorder(kids, Extended(node, name), depth + 1)
  }

  // getProperties(node)->getProperty(name)
  function Property(forest: seq<Node>, node: string, name: string): Option<Node> {
    var up := Lookup(forest, PathNames(node));
    if up.Some? then Named(up.value, name) else None
  }

  // The path handed to getProperties for the sub-properties.
  method NextNode(node: string, name: string) returns (next: string)
    ensures next == Extended(node, name)
  {
    next := node;
    if FindLastSlash(next) != |next| - 1 && name != "" {
      next := next + "/";
    }
    next := next + name;
    assert node + "" == node;
    LastSlashAtEnd(node);
  }

  lemma {:induction false} LastSlashAtEnd(s: string)
    ensures FindLastSlash(s) == |s| - 1 <==> s == "" || s[|s| - 1] == '/'
  {
  }

  // The value after a traversal with the JSON callback.
  function Rendered(root: Json, parent: Pointer, forest: seq<Node>, node: string, name: string, depth: nat,
      kids: seq<Node>): Json
    requires Reported(node, name, depth) ==> name != "" && Property(forest, node, name).Some?
    requires Points(root, parent) && (depth == 0 ==> parent == [])
  {
    if Reported(node, name, depth) then
      var n := Property(forest, node, name).value;
      var (r, p) := AfterCallback(root, parent, Fields(n.name, n.value, n.kind), depth);
      Append(r, p, ForestToJson(kids))
    else Append(root, parent, ForestToJson(kids))
  }

  method Traverse(forest: seq<Node>, node: string, name: string, r: Renderer, parent: Pointer, depth: nat,
      ghost kids: seq<Node>)
    requires WellFormed(forest) && '/' !in name && (depth != 0 ==> name != "")
    requires Lookup(forest, PathNames(Extended(node, name))) == Some(kids)
    requires Points(r.root, parent) && (depth == 0 ==> parent == [])
    modifies r
    ensures Reported(node, name, depth) ==> name != "" && Property(forest, node, name).Some?
    ensures r.visits == old(r.visits) + VisitsOf(forest, node, name, depth, kids)
    ensures r.format.TextFormat? ==>
      r.root == old(r.root) && r.text == old(r.text) + TextOf(VisitsOf(forest, node, name, depth, kids))
    ensures r.format.JsonFormat? ==>
      r.text == old(r.text) && r.root == Rendered(old(r.root), parent, forest, node, name, depth, kids)
    decreases kids
  {
    hide WellFormed, Lookup, Named, PathNames, Extended, Preorder, ForestToJson, Append, Points;
    hide AfterCallback, TextOf, LineOf, Property, Rendered, VisitsOf;
    PropertyThere(forest, node, name, depth, kids);
    var target := parent;
    if depth != 0 || (node != "" && name != "") {
      var prop := Property(forest, node, name).value;
      target := r.Callback(node, name, prop.value, prop.kind, depth, parent);
    }
    var next := NextNode(node, name);
    var props := Lookup(forest, PathNames(next)).value;
    ghost var visits, root, text := r.visits, r.root, r.text;
    NothingYet(kids, next, depth + 1, root, target);
    var i := 0;
    while i < |props|
      invariant 0 <= i <= |kids| && Points(root, target)
      invariant r.visits == visits + Preorder(kids[..i], next, depth + 1)
      invariant r.format.TextFormat? ==>
        r.root == root && r.text == text + TextOf(Preorder(kids[..i], next, depth + 1))
      invariant r.format.JsonFormat? ==>
        r.text == text && r.root == Append(root, target, ForestToJson(kids[..i]))
    {
      ChildThere(forest, next, kids, i);
      AppendPoints(root, target, ForestToJson(kids[..i]));
      Traverse(forest, next, props[i].name, r, target, depth + 1, kids[i].subs);
      NextVisits(forest, next, depth, kids, i);
      Associates(visits, Preorder(kids[..i], next, depth + 1), VisitsOf(forest, next, kids[i].name, depth + 1,
          kids[i].subs));
      if r.format.TextFormat? {
        TextConcat(Preorder(kids[..i], next, depth + 1), VisitsOf(forest, next, kids[i].name, depth + 1, kids[i].subs));
        Associates(text, TextOf(Preorder(kids[..i], next, depth + 1)),
                   TextOf(VisitsOf(forest, next, kids[i].name, depth + 1, kids[i].subs)));
      } else {
        NextRendered(forest, next, depth, kids, i, root, target);
      }
      i := i + 1;
    }
    assert kids[..i] == kids;
    AllVisits(forest, node, name, depth, kids, old(r.visits), old(r.text));
    if r.format.JsonFormat? {
      AllRendered(forest, node, name, depth, kids, old(r.root), parent);
    }
  }

  // ---------------------------------------------------------------------------
  // The steps of that proof.

  lemma {:induction false} PropertyThere(forest: seq<Node>, node: string, name: string, depth: nat, kids: seq<Node>)
    requires WellFormed(forest) && '/' !in name && (depth != 0 ==> name != "")
    requires Lookup(forest, PathNames(Extended(node, name))) == Some(kids)
    ensures Reported(node, name, depth) ==>
      && name != "" && Property(forest, node, name).Some?
      && Property(forest, node, name).value.name == name
      && Property(forest, node, name).value.subs == kids
  {
    hide WellFormed, Lookup, Named, PathNames, Extended;
    ExtendedNames(node, name);
    LookupSnoc(forest, PathNames(node), name);
  }

  lemma {:induction false} ChildThere(forest: seq<Node>, next: string, kids: seq<Node>, i: nat)
    requires WellFormed(forest) && Lookup(forest, PathNames(next)) == Some(kids) && i < |kids|
    ensures kids[i].name != "" && '/' !in kids[i].name
    ensures Property(forest, next, kids[i].name) == Some(kids[i])
    ensures Lookup(forest, PathNames(Extended(next, kids[i].name))) == Some(kids[i].subs)
  {
    hide Lookup, PathNames, Extended;
    LookupWellFormed(forest, PathNames(next));
    NamedUnique(kids, i);
    ExtendedNames(next, kids[i].name);
    LookupSnoc(forest, PathNames(next), kids[i].name);
  }

  lemma {:induction false} PreorderConcat(a: seq<Node>, b: seq<Node>, node: string, depth: nat)
    ensures Preorder(a + b, node, depth) == Preorder(a, node, depth) + Preorder(b, node, depth)
    decreases |a|
  {
    if a == [] {
      assert a + b == b;
    } else {
      assert (a + b)[1..] == a[1..] + b;
      PreorderConcat(a[1..], b, node, depth);
    }
  }

  lemma {:induction false} ForestToJsonConcat(a: seq<Node>, b: seq<Node>)
    ensures ForestToJson(a + b) == ForestToJson(a) + ForestToJson(b)
    decreases |a|
  {
    if a == [] {
      assert a + b == b;
    } else {
      assert (a + b)[1..] == a[1..] + b;
      ForestToJsonConcat(a[1..], b);
    }
  }

  lemma {:induction false} TextConcat(a: seq<Visit>, b: seq<Visit>)
    ensures TextOf(a + b) == TextOf(a) + TextOf(b)
    decreases |a|
  {
    if a == [] {
      assert a + b == b;
    } else {
      assert (a + b)[1..] == a[1..] + b;
      TextConcat(a[1..], b);
      Associates(LineOf(a[0].depth, a[0].name, a[0].value), TextOf(a[1..]), TextOf(b));
    }
  }

  lemma {:induction false} NothingYet(kids: seq<Node>, next: string, depth: nat, root: Json, target: Pointer)
    requires Points(root, target)
    ensures Preorder(kids[..0], next, depth) == [] && TextOf([]) == ""
    ensures Append(root, target, ForestToJson(kids[..0])) == root
  {
    AppendNothing(root, target);
  }

  lemma {:induction false} PreorderOne(n: Node, node: string, depth: nat)
    ensures Preorder([n], node, depth) ==
      [Visit(node, n.name, n.value, n.kind, depth)] + Preorder(n.subs, Extended(node, n.name), depth + 1)
  {
    assert Preorder([n][1..], node, depth) == [];
  }

  lemma {:induction false} NextVisits(forest: seq<Node>, next: string, depth: nat, kids: seq<Node>, i: nat)
    requires i < |kids| && kids[i].name != "" && Property(forest, next, kids[i].name) == Some(kids[i])
    ensures Preorder(kids[..i + 1], next, depth + 1)
         == Preorder(kids[..i], next, depth + 1) + VisitsOf(forest, next, kids[i].name, depth + 1, kids[i].subs)
  {
    hide Preorder, Property, Extended;
    assert kids[..i + 1] == kids[..i] + [kids[i]];
    PreorderConcat(kids[..i], [kids[i]], next, depth + 1);
    PreorderOne(kids[i], next, depth + 1);
  }

  lemma {:induction false} NextRendered(forest: seq<Node>, next: string, depth: nat, kids: seq<Node>, i: nat,
      root: Json, target: Pointer)
    requires i < |kids| && kids[i].name != "" && Property(forest, next, kids[i].name) == Some(kids[i])
    requires Points(root, target)
    ensures Points(Append(root, target, ForestToJson(kids[..i])), target)
    ensures Rendered(Append(root, target, ForestToJson(kids[..i])), target, forest, next, kids[i].name, depth + 1,
        kids[i].subs)
         == Append(root, target, ForestToJson(kids[..i + 1]))
  {
    hide Append, Deref, Points;
    var n := kids[i];
    var before := ForestToJson(kids[..i]);
    AppendPoints(root, target, before);
    AppendInside(Append(root, target, before), target, Json(Some(Fields(n.name, n.value, n.kind)), []),
        ForestToJson(n.subs));
    assert [] + ForestToJson(n.subs) == ForestToJson(n.subs);
    AppendTwice(root, target, before, [ToJson(n)]);
    assert kids[..i + 1] == kids[..i] + [n];
    ForestToJsonConcat(kids[..i], [n]);
    assert ForestToJson([n]) == [ToJson(n)];
  }

  lemma {:induction false} AllVisits(forest: seq<Node>, node: string, name: string, depth: nat, kids: seq<Node>,
      visits: seq<Visit>,
      text: string)
    requires Reported(node, name, depth) ==> name != "" && Property(forest, node, name).Some?
    ensures var all := VisitsOf(forest, node, name, depth, kids);
      var later := Preorder(kids, Extended(node, name), depth + 1);
      if Reported(node, name, depth) then
        var n := Property(forest, node, name).value;
        var v := Visit(node, name, n.value, n.kind, depth);
        && visits + [v] + later == visits + all
        && text + LineOf(depth, name, n.value) + TextOf(later) == text + TextOf(all)
      else all == later
  {
    var later := Preorder(kids, Extended(node, name), depth + 1);
    if Reported(node, name, depth) {
      var n := Property(forest, node, name).value;
      var v := Visit(node, name, n.value, n.kind, depth);
      assert ([v] + later)[1..] == later;
      Associates(visits, [v], later);
      Associates(text, LineOf(depth, name, n.value), TextOf(later));
    } else {
      assert [] + later == later;
    }
  }

  lemma {:induction false} AllRendered(forest: seq<Node>, node: string, name: string, depth: nat, kids: seq<Node>,
      root: Json,
      parent: Pointer)
    requires Reported(node, name, depth) ==>
      name != "" && Property(forest, node, name).Some? && Property(forest, node, name).value.name == name
    requires Points(root, parent) && (depth == 0 ==> parent == [])
    ensures Rendered(root, parent, forest, node, name, depth, kids) ==
      if Reported(node, name, depth) then
        var n := Property(forest, node, name).value;
        var (r, p) := AfterCallback(root, parent, Fields(name, n.value, n.kind), depth);
        Append(r, p, ForestToJson(kids))
      else Append(root, parent, ForestToJson(kids))
  {
  }
}
