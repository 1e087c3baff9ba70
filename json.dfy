/** The JSON-like value tree that the processor walks, the paths into it, and
    the pre-order list of leaf paths that the deep iterator yields. */
module Json {
  import opened Wrappers

  /** A configuration node. An object is a list of property names and the
      list of their values, in property order; arrays and objects share the
      field `items` so that a path step is a child position in either. Only
      an `Obj` with as many names as values, all distinct, stands for a
      JavaScript object; the operations here are total on the others too. */
  datatype Value =
    | Undefined
    | Null
    | Bool(b: bool)
    | Num(x: real)
    | Str(s: string)
    | Arr(items: seq<Value>)
    | Obj(keys: seq<string>, items: seq<Value>)

  predicate IsContainer(v: Value) {
    v.Arr? || v.Obj?
  }

  /** The path of a node: the child positions from the root down to it. */
  type Path = seq<nat>

  /** The node at path `p`, or None when `p` leaves the tree. */
  function At(v: Value, p: Path): Option<Value>
    decreases p
  {
    if p == [] then Some(v)
    else if IsContainer(v) && p[0] < |v.items| then At(v.items[p[0]], p[1..])
    else None
  }

  /** `p` leads to a node that is not a container: a leaf of the iterator. */
  predicate IsLeafAt(v: Value, p: Path) {
    At(v, p).Some? && !IsContainer(At(v, p).value)
  }

  /** `v` with the node at path `p` replaced by `x` (the assignment
      `parent[key] = x`); a path that leaves the tree changes nothing. */
  function Put(v: Value, p: Path, x: Value): (r: Value)
    decreases p
    ensures At(v, p).None? ==> r == v
  {
    if p == [] then x
    else if IsContainer(v) && p[0] < |v.items| then
      v.(items := v.items[p[0] := Put(v.items[p[0]], p[1..], x)])
    else v
  }

  /** `v[key]`: the value of the first property named `key` when `v` is an
      object, None (undefined) otherwise. */
  function Lookup(v: Value, key: string): (r: Option<Value>)
    ensures r.Some? ==> v.Obj? && exists i :: 0 <= i < |v.keys| && i < |v.items| && v.keys[i] == key && v.items[i] == r.value
    ensures r.None? ==> !v.Obj? || forall i :: 0 <= i < |v.keys| && i < |v.items| ==> v.keys[i] != key
  {
    if v.Obj? then LookupFrom(v, key, 0) else None
  }

  function LookupFrom(v: Value, key: string, i: nat): (r: Option<Value>)
    requires v.Obj?
    decreases |v.keys| - i
    ensures r.Some? ==> exists j :: i <= j < |v.keys| && j < |v.items| && v.keys[j] == key && v.items[j] == r.value
    ensures r.None? ==> forall j :: i <= j < |v.keys| && j < |v.items| ==> v.keys[j] != key
  {
    if i >= |v.keys| || i >= |v.items| then None
    else if v.keys[i] == key then Some(v.items[i])
    else LookupFrom(v, key, i + 1)
  }

  /** The tree with every leaf blanked out: containers, property names and
      child counts only. Two trees have the same shape when these agree. */
  function Shape(v: Value): Value
  {
    match v
    case Arr(items) => Arr(seq(|items|, i requires 0 <= i < |items| => Shape(items[i])))
    case Obj(keys, items) => Obj(keys, seq(|items|, i requires 0 <= i < |items| => Shape(items[i])))
    case _ => Null
  }

  function Prefixed(i: nat, ps: seq<Path>): (r: seq<Path>)
    ensures |r| == |ps|
    ensures forall j :: 0 <= j < |ps| ==> r[j] == [i] + ps[j]
  {
    seq(|ps|, j requires 0 <= j < |ps| => [i] + ps[j])
  }

  /** The leaves of `v` in depth-first pre-order, children in position
      order, as the deep iterator visits them with `onlyLeaves`. */
  function LeafPaths(v: Value): (ps: seq<Path>)
    decreases v, 1
    ensures forall p :: p in ps ==> IsLeafAt(v, p)
  {
    if IsContainer(v) then ChildLeafPaths(v, 0) else [[]]
  }

  /** The leaves under children `i`, `i + 1`, ... of container `v`. */
  function ChildLeafPaths(v: Value, i: nat): (ps: seq<Path>)
    requires IsContainer(v) && i <= |v.items|
    decreases v, 0, |v.items| - i
    ensures forall p :: p in ps ==>
      |p| > 0 && i <= p[0] < |v.items| && IsLeafAt(v.items[p[0]], p[1..])
  {
    if i == |v.items| then []
    else
      var here := Prefixed(i, LeafPaths(v.items[i]));
      assert forall p :: p in here ==> p[1..] in LeafPaths(v.items[i]) by {
        forall p | p in here ensures p[1..] in LeafPaths(v.items[i]) {
          var j :| 0 <= j < |here| && here[j] == p;
          assert p[1..] == LeafPaths(v.items[i])[j];
        }
      }
      here + ChildLeafPaths(v, i + 1)
  }

  /** No path is listed twice, so every leaf is visited once. */
  predicate Distinct(ps: seq<Path>) {
    forall j, k :: 0 <= j < k < |ps| ==> ps[j] != ps[k]
  }

  /** Every leaf of the tree is on the list. */
  lemma {:induction false} LeafPathsComplete(v: Value, p: Path)
    requires IsLeafAt(v, p)
    ensures p in LeafPaths(v)
    decreases v, 1
  {
    if IsContainer(v) {
      assert p != [];
      LeafPathsComplete(v.items[p[0]], p[1..]);
      ChildLeafPathsComplete(v, 0, p);
    }
  }

  lemma {:induction false} ChildLeafPathsComplete(v: Value, i: nat, p: Path)
    requires IsContainer(v) && i <= |v.items|
    requires |p| > 0 && i <= p[0] < |v.items| && p[1..] in LeafPaths(v.items[p[0]])
    ensures p in ChildLeafPaths(v, i)
    decreases |v.items| - i
  {
    var here := Prefixed(i, LeafPaths(v.items[i]));
    var rest := ChildLeafPaths(v, i + 1);
    assert ChildLeafPaths(v, i) == here + rest;
    if p[0] == i {
      PrefixedHas(i, LeafPaths(v.items[i]), p);
    } else {
      ChildLeafPathsComplete(v, i + 1, p);
    }
  }

  lemma PrefixedHas(i: nat, ps: seq<Path>, p: Path)
    requires |p| > 0 && p[0] == i && p[1..] in ps
    ensures p in Prefixed(i, ps)
  {
    var j :| 0 <= j < |ps| && ps[j] == p[1..];
    assert [p[0]] + p[1..] == p;
    assert Prefixed(i, ps)[j] == p;
  }

  /** The iterator never yields the same leaf twice. */
  lemma {:induction false} LeafPathsDistinct(v: Value)
    ensures Distinct(LeafPaths(v))
    decreases v, 1
  {
    if IsContainer(v) {
      ChildLeafPathsDistinct(v, 0);
    }
  }

  lemma {:induction false} ChildLeafPathsDistinct(v: Value, i: nat)
    requires IsContainer(v) && i <= |v.items|
    ensures Distinct(ChildLeafPaths(v, i))
    decreases v, 0, |v.items| - i
  {
    if i < |v.items| {
      var here := Prefixed(i, LeafPaths(v.items[i]));
      var rest := ChildLeafPaths(v, i + 1);
      LeafPathsDistinct(v.items[i]);
      PrefixedDistinct(i, LeafPaths(v.items[i]));
      ChildLeafPathsDistinct(v, i + 1);
      forall j, k | 0 <= j < |here| && 0 <= k < |rest| ensures here[j] != rest[k] {
        assert rest[k] in rest;
      }
      AppendDistinct(here, rest);
    }
  }

  lemma PrefixedDistinct(i: nat, ps: seq<Path>)
    requires Distinct(ps)
    ensures Distinct(Prefixed(i, ps))
  {
    var r := Prefixed(i, ps);
    forall j, k | 0 <= j < k < |r| ensures r[j] != r[k] {
      assert r[j][1..] == ps[j] && r[k][1..] == ps[k];
    }
  }

  lemma AppendDistinct(a: seq<Path>, b: seq<Path>)
    requires Distinct(a) && Distinct(b)
    requires forall j, k :: 0 <= j < |a| && 0 <= k < |b| ==> a[j] != b[k]
    ensures Distinct(a + b)
  {
    var all := a + b;
    forall j, k | 0 <= j < k < |all| ensures all[j] != all[k] {
      if k < |a| {
        assert all[j] == a[j] && all[k] == a[k];
      } else if j >= |a| {
        assert all[j] == b[j - |a|] && all[k] == b[k - |a|];
      } else {
        assert all[j] == a[j] && all[k] == b[k - |a|];
      }
    }
  }

  /** `p` comes strictly before `q` in the iterator's depth-first order:
      at the first position where they differ, `p` takes the earlier child. */
  predicate Before(p: Path, q: Path)
    decreases |p|
  {
    |p| > 0 && |q| > 0 && (p[0] < q[0] || (p[0] == q[0] && Before(p[1..], q[1..])))
  }

  predicate Ascending(ps: seq<Path>) {
    forall j :: 0 < j < |ps| ==> Before(ps[j - 1], ps[j])
  }

  /** The iterator yields the leaves in depth-first order, children in
      position order: each leaf path comes strictly before the next. */
  lemma {:induction false} LeafPathsAscending(v: Value)
    ensures Ascending(LeafPaths(v))
    decreases v, 1
  {
    if IsContainer(v) {
      ChildLeafPathsAscending(v, 0);
    }
  }

  lemma {:induction false} ChildLeafPathsAscending(v: Value, i: nat)
    requires IsContainer(v) && i <= |v.items|
    ensures Ascending(ChildLeafPaths(v, i))
    decreases v, 0, |v.items| - i
  {
    if i < |v.items| {
      var here := Prefixed(i, LeafPaths(v.items[i]));
      var rest := ChildLeafPaths(v, i + 1);
      LeafPathsAscending(v.items[i]);
      PrefixedAscending(i, LeafPaths(v.items[i]));
      ChildLeafPathsAscending(v, i + 1);
      if |here| > 0 && |rest| > 0 {
        assert rest[0] in rest;
        assert here[|here| - 1][0] == i < rest[0][0];
      }
      AppendAscending(here, rest);
    }
  }

  lemma PrefixedAscending(i: nat, ps: seq<Path>)
    requires Ascending(ps)
    ensures Ascending(Prefixed(i, ps))
  {
    var r := Prefixed(i, ps);
    forall j | 0 < j < |r| ensures Before(r[j - 1], r[j]) {
      assert r[j - 1][1..] == ps[j - 1] && r[j][1..] == ps[j];
    }
  }

  lemma AppendAscending(a: seq<Path>, b: seq<Path>)
    requires Ascending(a) && Ascending(b)
    requires |a| > 0 && |b| > 0 ==> Before(a[|a| - 1], b[0])
    ensures Ascending(a + b)
  {
    var all := a + b;
    forall j | 0 < j < |all| ensures Before(all[j - 1], all[j]) {
      if j < |a| {
        assert all[j - 1] == a[j - 1] && all[j] == a[j];
      } else if j == |a| {
        assert all[j - 1] == a[|a| - 1] && all[j] == b[0];
      } else {
        assert all[j - 1] == b[j - 1 - |a|] && all[j] == b[j - |a|];
      }
    }
  }

  /** Reading back the node just written. */
  lemma {:induction false} AtPut(v: Value, p: Path, x: Value)
    requires At(v, p).Some?
    ensures At(Put(v, p, x), p) == Some(x)
    decreases p
  {
    if p != [] {
      AtPut(v.items[p[0]], p[1..], x);
    }
  }

  /** Writing one leaf leaves every other leaf as it was. */
  lemma {:induction false} AtPutOther(v: Value, p: Path, q: Path, x: Value)
    requires IsLeafAt(v, p) && IsLeafAt(v, q) && p != q
    ensures At(Put(v, p, x), q) == At(v, q)
    decreases p
  {
    if p != [] {
      assert q != [];
      if p[0] == q[0] {
        assert p[1..] != q[1..];
        AtPutOther(v.items[p[0]], p[1..], q[1..], x);
      }
    }
  }

  /** Replacing a leaf by a leaf keeps the tree's shape. */
  lemma {:induction false} PutLeafShape(v: Value, p: Path, x: Value)
    requires IsLeafAt(v, p) && !IsContainer(x)
    ensures Shape(Put(v, p, x)) == Shape(v)
    decreases p
  {
    if p != [] {
      var i := p[0];
      PutLeafShape(v.items[i], p[1..], x);
      var w := Put(v, p, x);
      assert |w.items| == |v.items|;
      assert forall j :: 0 <= j < |v.items| ==> Shape(w.items[j]) == Shape(v.items[j]);
    }
  }

  /** Trees of the same shape have their leaves at the same paths. */
  lemma {:induction false} ShapeLeafAt(a: Value, b: Value, p: Path)
    requires Shape(a) == Shape(b) && IsLeafAt(a, p)
    ensures IsLeafAt(b, p)
    decreases p
  {
    if p != [] {
      var i := p[0];
      assert Shape(a).items[i] == Shape(b).items[i];
      ShapeLeafAt(a.items[i], b.items[i], p[1..]);
    } else {
      assert !IsContainer(Shape(a));
    }
  }

  /** The shape and the leaves on the visiting list determine a tree: the
      per-leaf description of a walk leaves nothing else open. */
  lemma {:induction false} ShapeAndLeavesDetermine(a: Value, b: Value)
    requires Shape(a) == Shape(b)
    requires forall p :: p in LeafPaths(a) ==> At(a, p) == At(b, p)
    ensures a == b
    decreases a
  {
    if IsContainer(a) {
      assert |a.items| == |Shape(a).items| == |Shape(b).items| == |b.items|;
      forall i | 0 <= i < |a.items|
        ensures a.items[i] == b.items[i]
      {
        assert Shape(a).items[i] == Shape(b).items[i];
        forall q | q in LeafPaths(a.items[i])
          ensures At(a.items[i], q) == At(b.items[i], q)
        {
          assert At(a, [i] + q) == At(a.items[i], q) by { assert ([i] + q)[1..] == q; }
          assert At(b, [i] + q) == At(b.items[i], q) by { assert ([i] + q)[1..] == q; }
          LeafPathsComplete(a, [i] + q);
        }
        ShapeAndLeavesDetermine(a.items[i], b.items[i]);
      }
    } else {
      assert [] in LeafPaths(a);
    }
  }
}
