// Json::Value as formatPropertyJson uses it: an object with name, value and type
// and an array of sub-objects, changed in place through pointers into it.
module Json {
  import opened Bytes

  datatype Fields = Fields(name: string, value: string, kind: string)

  // An object without the member "sub_properties" has no `subs`.
  datatype Json = Json(fields: Option<Fields>, subs: seq<Json>)

  // A pointer to an object inside a value: the index to take at each level.
  type Pointer = seq<nat>

  predicate Points(j: Json, p: Pointer)
    decreases |p|
  {
    p == [] || (p[0] < |j.subs| && Points(j.subs[p[0]], p[1..]))
  }

  function Deref(j: Json, p: Pointer): Json
    requires Points(j, p)
    decreases |p|
  {
    if p == [] then j else Deref(j.subs[p[0]], p[1..])
  }

  // The value after objects were appended to the array of the object at `p`.
  function Append(j: Json, p: Pointer, more: seq<Json>): Json
    requires Points(j, p)
    decreases |p|
  {
    if p == [] then j.(subs := j.subs + more)
    else j.(subs := j.subs[p[0] := Append(j.subs[p[0]], p[1..], more)])
  }

  // Pointers stay good when the value grows.
  lemma {:induction false} AppendPoints(j: Json, p: Pointer, more: seq<Json>)
    requires Points(j, p)
    ensures Points(Append(j, p, more), p)
    ensures Deref(Append(j, p, more), p) == Deref(j, p).(subs := Deref(j, p).subs + more)
    decreases |p|
  {
    if p != [] {
      AppendPoints(j.subs[p[0]], p[1..], more);
    }
  }

  lemma {:induction false} AppendNothing(j: Json, p: Pointer)
    requires Points(j, p)
    ensures Append(j, p, []) == j
    decreases |p|
  {
    if p != [] {
      AppendNothing(j.subs[p[0]], p[1..]);
      assert j.subs[p[0] := j.subs[p[0]]] == j.subs;
    } else {
      assert j.subs + [] == j.subs;
    }
  }

  lemma {:induction false} AppendTwice(j: Json, p: Pointer, a: seq<Json>, b: seq<Json>)
    requires Points(j, p)
    ensures Points(Append(j, p, a), p)
    ensures Append(Append(j, p, a), p, b) == Append(j, p, a + b)
    decreases |p|
  {
    AppendPoints(j, p, a);
    if p != [] {
      AppendTwice(j.subs[p[0]], p[1..], a, b);
    } else {
      assert j.subs + a + b == j.subs + (a + b);
    }
  }

  // Appending to an object that was just appended is appending the fuller object.
  lemma {:induction false} AppendInside(j: Json, p: Pointer, c: Json, more: seq<Json>)
    requires Points(j, p)
    ensures var q := p + [|Deref(j, p).subs|];
      && Points(Append(j, p, [c]), q)
      && Append(Append(j, p, [c]), q, more) == Append(j, p, [c.(subs := c.subs + more)])
    decreases |p|
  {
    var k := |Deref(j, p).subs|;
    var q := p + [k];
    if p == [] {
      assert q[1..] == [];
      assert (j.subs + [c])[k] == c;
      assert (j.subs + [c])[k := c.(subs := c.subs + more)] == j.subs + [c.(subs := c.subs + more)];
    } else {
      assert q[0] == p[0] && q[1..] == p[1..] + [k];
      AppendInside(j.subs[p[0]], p[1..], c, more);
    }
  }
}
