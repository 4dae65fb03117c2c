// Property trees as the remote configuration presents them: looked up by
// slash-separated paths. This is the contract the traversal relies on.
module PropertyTree {
  import opened Bytes

  datatype Node = Node(name: string, value: string, kind: string, subs: seq<Node>)

  // Sibling names are distinct, not empty and free of slashes.
  predicate WellFormed(forest: seq<Node>)
    decreases forest
  {
    && (forall i, j :: 0 <= i < j < |forest| ==> forest[i].name != forest[j].name)
    && (forall i :: 0 <= i < |forest| ==> forest[i].name != "" && '/' !in forest[i].name)
    && (forall i :: 0 <= i < |forest| ==> WellFormed(forest[i].subs))
  }

  function Named(forest: seq<Node>, name: string): (r: Option<Node>)
    ensures r.Some? ==> r.value in forest && r.value.name == name
  {
    if forest == [] then None
    else if forest[0].name == name then Some(forest[0])
    else Named(forest[1..], name)
  }

  // getProperties: the properties below a path, given as its names.
  function Lookup(forest: seq<Node>, names: seq<string>): Option<seq<Node>>
    decreases |names|
  {
    if names == [] then Some(forest)
    else
      var n := Named(forest, names[0]);
      if n.Some? then Lookup(n.value.subs, names[1..]) else None
  }

  // The names in a path; empty parts do not count.
  function Names(path: string, name: string): seq<string>
    decreases |path|
  {
    if path == "" then Flush(name)
    else if path[0] == '/' then Flush(name) + Names(path[1..], "")
    else Names(path[1..], name + [path[0]])
  }

  function Flush(name: string): seq<string> {
    if name == "" then [] else [name]
  }

  function PathNames(path: string): seq<string> {
    Names(path, "")
  }

  // The path of a property below `node`, as traverseProperties builds it.
  function Extended(node: string, name: string): string {
    if name == "" then node
    else if node == "" || node[|node| - 1] == '/' then node + name
    else node + "/" + name
  }

  function SlashJoined(names: seq<string>): string
    decreases |names|
  {
    if names == [] then ""
    else if |names| == 1 then names[0]
    else SlashJoined(names[..|names| - 1]) + "/" + names[|names| - 1]
  }

  // ---------------------------------------------------------------------------

  lemma {:induction false} NamedUnique(forest: seq<Node>, i: nat)
    requires WellFormed(forest) && i < |forest|
    ensures Named(forest, forest[i].name) == Some(forest[i])
    decreases |forest|
  {
    if i > 0 {
      assert forest[0].name != forest[i].name;
      assert WellFormed(forest[1..]);
      NamedUnique(forest[1..], i - 1);
    }
  }

  lemma {:induction false} LookupSnoc(forest: seq<Node>, names: seq<string>, name: string)
    ensures var up := Lookup(forest, names);
      Lookup(forest, names + [name]) ==
        if up.Some? && Named(up.value, name).Some? then Some(Named(up.value, name).value.subs) else None
    decreases |names|
  {
    if names == [] {
      assert ([name])[1..] == [];
    } else {
      assert (names + [name])[1..] == names[1..] + [name];
      var n := Named(forest, names[0]);
      if n.Some? {
        LookupSnoc(n.value.subs, names[1..], name);
      }
    }
  }

  lemma {:induction false} LookupWellFormed(forest: seq<Node>, names: seq<string>)
    requires WellFormed(forest) && Lookup(forest, names).Some?
    ensures WellFormed(Lookup(forest, names).value)
    decreases |names|
  {
    if names != [] {
      LookupWellFormed(Named(forest, names[0]).value.subs, names[1..]);
    }
  }

  lemma {:induction false} NamesConcat(s: string, name: string, t: string)
    ensures Names(s + "/" + t, name) == Names(s, name) + Names(t, "")
    decreases |s|
  {
    var path := s + "/" + t;
    if s == "" {
      assert path[1..] == t;
    } else {
      assert path[1..] == s[1..] + "/" + t;
      if s[0] == '/' {
        NamesConcat(s[1..], "", t);
      } else {
        NamesConcat(s[1..], name + [s[0]], t);
      }
    }
  }

  lemma {:induction false} NamesPlain(s: string, name: string)
    requires '/' !in s
    ensures Names(s, name) == Flush(name + s)
    decreases |s|
  {
    if s == "" {
      assert name + s == name;
    } else {
      NamesPlain(s[1..], name + [s[0]]);
      assert name + [s[0]] + s[1..] == name + s;
    }
  }

  lemma {:induction false} NoNames()
    ensures Names("", "") == []
  {
  }

  // Whatever slashes `node` has, the extended path names one property more.
  lemma {:induction false} ExtendedNames(node: string, name: string)
    requires '/' !in name
    ensures PathNames(Extended(node, name)) == PathNames(node) + Flush(name)
  {
    hide Names;
    NamesPlain(name, "");
    assert "" + name == name;
    NoNames();
    if name != "" {
      if node == "" {
        assert node + name == name;
      } else if node[|node| - 1] == '/' {
        var front := node[..|node| - 1];
        assert node == front + "/" + "";
        assert node + name == front + "/" + name;
        NamesConcat(front, "", name);
        NamesConcat(front, "", "");
      } else {
        NamesConcat(node, "", name);
      }
    } else {
      assert PathNames(node) + [] == PathNames(node);
    }
  }

  // From the root down the extended paths are the slash-joined names.
  lemma {:induction false} ExtendedJoined(names: seq<string>, name: string)
    requires name != "" && forall i :: 0 <= i < |names| ==> names[i] != "" && '/' !in names[i]
    ensures Extended(SlashJoined(names), name) == SlashJoined(names + [name])
  {
    JoinedSnoc(names, name);
    if names != [] {
      JoinedEnd(names);
    }
  }

  lemma {:induction false} JoinedSnoc(names: seq<string>, name: string)
    ensures SlashJoined(names + [name]) == if names == [] then name else SlashJoined(names) + "/" + name
  {
    assert (names + [name])[..|names|] == names;
  }

  lemma {:induction false} JoinedEnd(names: seq<string>)
    requires names != [] && names[|names| - 1] != "" && '/' !in names[|names| - 1]
    ensures SlashJoined(names) != "" && SlashJoined(names)[|SlashJoined(names)| - 1] != '/'
  {
    var front, last := names[..|names| - 1], names[|names| - 1];
    assert names == front + [last];
    JoinedSnoc(front, last);
    assert last[|last| - 1] in last;
  }

  // ---------------------------------------------------------------------------
  // getNodeAndLeafNamefromProperty. npos is -1 modulo the range of size_t.

  function FindLastSlash(s: string): (p: int)
    ensures -1 <= p < |s|
    ensures p == -1 ==> '/' !in s
    ensures p >= 0 ==> s[p] == '/' && '/' !in s[p + 1..]
  {
    if s == "" then -1
    else if s[|s| - 1] == '/' then |s| - 1
    else
      var p := FindLastSlash(s[..|s| - 1]);
      assert s == s[..|s| - 1] + [s[|s| - 1]];
      assert p >= 0 ==> s[p + 1..] == s[..|s| - 1][p + 1..] + [s[|s| - 1]];
      p
  }

  function NodeAndLeaf(path: string): (r: (string, string))
    ensures '/' !in r.1
  {
    var p := FindLastSlash(path);
    if p == -1 then (path, "") else (path[..p], path[p + 1..])
  }

  // Splitting a path and extending its node by its leaf again names the same
  // property, wherever the slashes are.
  lemma {:induction false} SplitPathNames(path: string)
    ensures var (node, leaf) := NodeAndLeaf(path);
      PathNames(Extended(node, leaf)) == PathNames(path)
  {
    var (node, leaf) := NodeAndLeaf(path);
    ExtendedNames(node, leaf);
    var p := FindLastSlash(path);
    if p >= 0 {
      assert path == node + "/" + leaf;
      NamesConcat(node, "", leaf);
      NamesPlain(leaf, "");
      assert "" + leaf == leaf;
    } else {
      assert PathNames(node) + [] == PathNames(node);
    }
  }

  // The slash-joined names are a path that names them.
  lemma {:induction false} JoinedNames(names: seq<string>)
    requires forall i :: 0 <= i < |names| ==> names[i] != "" && '/' !in names[i]
    ensures PathNames(SlashJoined(names)) == names
    decreases |names|
  {
    hide SlashJoined, PathNames, Extended;
    if names == [] {
      NoPath();
    } else {
      var front, last := names[..|names| - 1], names[|names| - 1];
      assert names == front + [last];
      JoinedNames(front);
      ExtendedJoined(front, last);
      ExtendedNames(SlashJoined(front), last);
    }
  }

  lemma {:induction false} NoPath()
    ensures PathNames(SlashJoined([])) == []
  {
  }

  // A path is split at its last slash; without one it is all node.
  lemma {:induction false} SplitAtLast(node: string, leaf: string)
    requires '/' !in leaf
    ensures NodeAndLeaf(node + "/" + leaf) == (node, leaf)
    ensures NodeAndLeaf(leaf) == (leaf, "")
  {
    hide FindLastSlash;
    var path := node + "/" + leaf;
    assert path[|node|] == '/' && path[|node| + 1..] == leaf && path[..|node|] == node;
    LastSlashIs(path, |node|);
    assert FindLastSlash(leaf) == -1;
  }

  lemma {:induction false} LastSlashIs(s: string, i: nat)
    requires i < |s| && s[i] == '/' && '/' !in s[i + 1..]
    ensures FindLastSlash(s) == i
    decreases |s|
  {
    if i < |s| - 1 {
      assert s[|s| - 1] in s[i + 1..];
      assert s[i + 1..] == s[..|s| - 1][i + 1..] + [s[|s| - 1]];
      LastSlashIs(s[..|s| - 1], i);
    }
  }
}
