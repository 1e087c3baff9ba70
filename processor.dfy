/** The `ConfigProcessor` class of src/index.ts: the leaf walk
    `processObject`, `process`, `processConfig`, and the constructor whose
    field order keeps the obfuscator out of its own configuration. */
module Processor {
  import opened Wrappers
  import opened Json
  import opened Directives

  /** A mutable JavaScript object graph, held by reference; `root` is the
      value it currently holds. */
  class Tree {
    var root: Value

    constructor (root: Value)
      ensures this.root == root
    {
      this.root := root;
    }
  }

  /** The replacement processObject writes for a leaf, for a processor
      whose obfuscator field holds `obfuscator`: a string leaf becomes the
      string processNode returns for it (or its exception); any other leaf
      is skipped and stays as it is. */
  function Visitor(rt: Runtime, obfuscator: Option<Obfuscator>): Value -> Result<Value, Error> {
    (leaf: Value) =>
      if leaf.Str? then
        match ProcessNode(rt, obfuscator, rt.stackDepth, leaf.s)
        case Success(s) => Success(Str(s))
        case Failure(e) => Failure(e)
      else Success(leaf)
  }

  /** The replacement `visit` makes for the `j`-th leaf of `v` in visiting order. */
  function LeafResult(visit: Value -> Result<Value, Error>, v: Value, j: nat): Result<Value, Error>
    requires j < |LeafPaths(v)|
  {
    assert LeafPaths(v)[j] in LeafPaths(v);
    visit(At(v, LeafPaths(v)[j]).value)
  }

  /** The position, in visiting order from the `i`-th leaf on, of the first
      leaf whose processNode throws; the number of leaves when none does. */
  function FirstFailureFrom(visit: Value -> Result<Value, Error>, v: Value, i: nat): (k: nat)
    requires i <= |LeafPaths(v)|
    decreases |LeafPaths(v)| - i
    ensures i <= k <= |LeafPaths(v)|
    ensures forall j :: i <= j < k ==> LeafResult(visit, v, j).Success?
    ensures k < |LeafPaths(v)| ==> LeafResult(visit, v, k).Failure?
  {
    if i == |LeafPaths(v)| || LeafResult(visit, v, i).Failure? then i
    else FirstFailureFrom(visit, v, i + 1)
  }

  function FirstFailure(visit: Value -> Result<Value, Error>, v: Value): nat {
    FirstFailureFrom(visit, v, 0)
  }

  /** `w` is `v` after the walk has written its first `k` leaves: the same
      shape, those leaves replaced, every later leaf as it was. */
  ghost predicate Walked(visit: Value -> Result<Value, Error>, v: Value, w: Value, k: nat) {
    && k <= |LeafPaths(v)|
    && Shape(w) == Shape(v)
    && (forall j :: 0 <= j < k ==> LeafResult(visit, v, j).Success? && At(w, LeafPaths(v)[j]) == Some(LeafResult(visit, v, j).value))
    && (forall j :: k <= j < |LeafPaths(v)| ==> At(w, LeafPaths(v)[j]) == At(v, LeafPaths(v)[j]))
  }

  /** `extend(true, {}, DEFAULT_CONFIG, data.configProcessor)`: a deep copy of
      the `configProcessor` property when it is an object, else an empty
      object; reading a property of null or undefined data throws. */
  function ConfigOf(root: Value): (r: Result<Value, Error>)
    ensures r.Failure? <==> root.Null? || root.Undefined?
    ensures r.Failure? ==> r.error == PropertyOfNullish
    ensures r.Success? ==> r.value.Obj?
    ensures r.Success? && Lookup(root, "configProcessor").Some? && Lookup(root, "configProcessor").value.Obj? ==>
      r.value == Lookup(root, "configProcessor").value
    ensures r.Success? && !(Lookup(root, "configProcessor").Some? && Lookup(root, "configProcessor").value.Obj?) ==>
      r.value == Obj([], [])
  {
    if root.Null? || root.Undefined? then Failure(PropertyOfNullish)
    else match Lookup(root, "configProcessor")
      case Some(settings) => if settings.Obj? then Success(settings) else Success(Obj([], []))
      case None => Success(Obj([], []))
  }

  /** The read `config.obfuscator`: the property's value, or None
      (undefined) when the property is missing or holds undefined. */
  function ObfuscatorSetting(config: Value): (r: Option<Value>)
    ensures r.Some? ==> Lookup(config, "obfuscator") == r && r.value != Undefined
    ensures r.None? ==> Lookup(config, "obfuscator") in {None, Some(Undefined)}
  {
    match Lookup(config, "obfuscator")
    case Some(Undefined) => None
    case other => other
  }

  /** `w` is what processObject leaves of `v`: the walk has written every
      leaf before the first failing one (all of them when none fails), and
      `thrown` is that leaf's exception, or None. */
  ghost predicate Processed(visit: Value -> Result<Value, Error>, v: Value, w: Value, thrown: Option<Error>) {
    var k := FirstFailure(visit, v);
    && Walked(visit, v, w, k)
    && (thrown.None? <==> k == |LeafPaths(v)|)
    && (thrown.Some? ==> thrown.value == LeafResult(visit, v, k).error)
  }

  /** Writing the `i`-th leaf's replacement advances the walk by one leaf. */
  lemma WalkWrite(visit: Value -> Result<Value, Error>, v: Value, w: Value, i: nat)
    requires i < |LeafPaths(v)| && LeafResult(visit, v, i).Success?
    requires Walked(visit, v, w, i)
    requires !IsContainer(LeafResult(visit, v, i).value)
    ensures Walked(visit, v, Put(w, LeafPaths(v)[i], LeafResult(visit, v, i).value), i + 1)
  {
    var ps := LeafPaths(v);
    var p, x := ps[i], LeafResult(visit, v, i).value;
    var w' := Put(w, p, x);
    assert ps[i] in ps;
    ShapeLeafAt(v, w, p);
    PutLeafShape(w, p, x);
    AtPut(w, p, x);
    LeafPathsDistinct(v);
    forall j | 0 <= j < |ps| && j != i
      ensures At(w', ps[j]) == At(w, ps[j])
    {
      assert ps[j] in ps;
      ShapeLeafAt(v, w, ps[j]);
      AtPutOther(w, p, ps[j], x);
    }
  }

  /** A leaf whose replacement is itself (a skipped non-string) needs no write. */
  lemma WalkSkip(visit: Value -> Result<Value, Error>, v: Value, w: Value, i: nat)
    requires i < |LeafPaths(v)| && LeafResult(visit, v, i).Success?
    requires Walked(visit, v, w, i)
    requires Some(LeafResult(visit, v, i).value) == At(v, LeafPaths(v)[i])
    ensures Walked(visit, v, w, i + 1)
  {
    var ps := LeafPaths(v);
    forall j | 0 <= j < i + 1
      ensures LeafResult(visit, v, j).Success? && At(w, ps[j]) == Some(LeafResult(visit, v, j).value)
    {
      if j == i {
        assert At(w, ps[i]) == At(v, ps[i]);
      }
    }
  }

  /** The walk reaches leaf `k` unwritten, and processNode sees that leaf. */
  lemma NextLeaf(visit: Value -> Result<Value, Error>, v: Value, w: Value, k: nat)
    requires Walked(visit, v, w, k) && k < |LeafPaths(v)|
    ensures At(w, LeafPaths(v)[k]) == At(v, LeafPaths(v)[k])
    ensures IsLeafAt(v, LeafPaths(v)[k])
    ensures LeafResult(visit, v, k) == visit(At(v, LeafPaths(v)[k]).value)
  {
    assert LeafPaths(v)[k] in LeafPaths(v);
  }

  /** A leaf that resolves moves the first failure past it. */
  lemma FirstFailurePast(visit: Value -> Result<Value, Error>, v: Value, k: nat)
    requires k <= FirstFailure(visit, v) && k < |LeafPaths(v)|
    requires LeafResult(visit, v, k).Success?
    ensures k + 1 <= FirstFailure(visit, v)
  {
  }

  /** Where the walk stops is what processObject leaves behind: the tree
      written up to the first failing leaf, and that leaf's exception. */
  lemma WalkProcessed(visit: Value -> Result<Value, Error>, v: Value, w: Value, k: nat, thrown: Option<Error>)
    requires Walked(visit, v, w, k)
    requires k == FirstFailure(visit, v)
    requires thrown.None? <==> k == |LeafPaths(v)|
    requires thrown.Some? ==> thrown.value == LeafResult(visit, v, k).error
    ensures Processed(visit, v, w, thrown)
  {
  }

  class ConfigProcessor {
    /** The process around the processor: environment, files, decoders. */
    const rt: Runtime
    /** `this.data`: the caller's tree, processed in place by `process`. */
    const data: Tree
    /** `this.config`: the processor's own settings, a copy of `data.configProcessor`. */
    const config: Tree
    /** `this.obfuscator`: None until the constructor's last statement assigns it. */
    var obfuscator: Option<Obfuscator>

    /** The first two assignments of the constructor, `this.data = data` and
        `this.config = extend(...)`, before processConfig runs: the
        obfuscator field is still unassigned. */
    constructor (rt: Runtime, data: Tree)
      requires ConfigOf(data.root).Success?
      ensures this.rt == rt && this.data == data
      ensures fresh(config) && config.root == ConfigOf(data.root).value
      ensures obfuscator.None?
    {
      this.rt := rt;
      this.data := data;
      this.config := new Tree(ConfigOf(data.root).value);
      this.obfuscator := None;
    }

    /** One step of processObject's loop: the `i`-th leaf of the walk over
        `v`. A string leaf is replaced by processNode's result, written
        into its parent; any other leaf is skipped. Fails, writing nothing,
        when processNode throws. */
    method ProcessLeaf(t: Tree, paths: seq<Path>, i: nat, ghost v: Value) returns (res: Outcome<Error>)
      requires paths == LeafPaths(v) && i < |paths|
      requires i <= FirstFailure(Visitor(rt, obfuscator), v)
      requires Walked(Visitor(rt, obfuscator), v, t.root, i)
      modifies t
      ensures res.Pass? ==> i + 1 <= FirstFailure(Visitor(rt, obfuscator), v)
      ensures res.Pass? ==> Walked(Visitor(rt, obfuscator), v, t.root, i + 1)
      ensures res.Fail? ==> i == FirstFailure(Visitor(rt, obfuscator), v) && t.root == old(t.root)
      ensures res.Fail? ==> res.error == LeafResult(Visitor(rt, obfuscator), v, i).error
    {
      var visit := Visitor(rt, obfuscator);
      NextLeaf(visit, v, t.root, i);
      var leaf := At(t.root, paths[i]).value;
      if leaf.Str? {
        var r := ProcessNode(rt, obfuscator, rt.stackDepth, leaf.s);
        if r.Failure? {
          assert LeafResult(visit, v, i) == Failure(r.error);
          return Fail(r.error);
        }
        assert LeafResult(visit, v, i) == Success(Str(r.value));
        FirstFailurePast(visit, v, i);
        WalkWrite(visit, v, t.root, i);
        t.root := Put(t.root, paths[i], Str(r.value));
      } else {
        assert LeafResult(visit, v, i) == Success(leaf);
        FirstFailurePast(visit, v, i);
        WalkSkip(visit, v, t.root, i);
      }
      return Pass;
    }

    /** `processObject(t)`: visits the leaves of `t` in order, skips every
        non-string and writes processNode's result over every string leaf, in
        place; returns `t` itself. An exception stops the walk at the first
        failing leaf, with the leaves before it already written. */
    method ProcessObject(t: Tree) returns (res: Result<Tree, Error>)
      modifies t
      ensures Processed(Visitor(rt, obfuscator), old(t.root), t.root, if res.Success? then None else Some(res.error))
      ensures res.Success? ==> res.value == t
    {
      ghost var v := t.root;
      var paths := LeafPaths(t.root);
      var i := 0;
      var thrown: Option<Error> := None;
      while i < |paths|
        invariant i <= |paths| && paths == LeafPaths(v)
        invariant i <= FirstFailure(Visitor(rt, obfuscator), v)
        invariant Walked(Visitor(rt, obfuscator), v, t.root, i)
        invariant thrown.None?
      {
        var step := ProcessLeaf(t, paths, i, v);
        if step.Fail? {
          thrown := Some(step.error);
          break;
        }
        i := i + 1;
      }
      WalkProcessed(Visitor(rt, obfuscator), v, t.root, i, thrown);
      res := if thrown.None? then Success(t) else Failure(thrown.value);
    }

    /** `processConfig()`: processes the processor's own settings in place. */
    method ProcessConfig() returns (res: Outcome<Error>)
      modifies config
      ensures Processed(Visitor(rt, obfuscator), old(config.root), config.root, if res.Pass? then None else Some(res.error))
    {
      var r := ProcessObject(config);
      res := if r.Success? then Pass else Fail(r.error);
    }

    /** `getObfuscator()`: a new obfuscator built from `config.obfuscator`;
        None when its constructor throws. */
    function GetObfuscator(): Option<Obfuscator>
      reads config
    {
      rt.newObfuscator(ObfuscatorSetting(config.root))
    }

    /** `obfuscateString(val, alg)`: delegates to the obfuscator's encoder,
        whose exception propagates. */
    method ObfuscateString(val: string, alg: Option<string>) returns (r: Result<string, Error>)
      requires obfuscator.Some?
      ensures r.Success? <==> obfuscator.value.encodeString(val, alg).Some?
      ensures r.Success? ==> r.value == obfuscator.value.encodeString(val, alg).value
      ensures r.Failure? ==> r.error == EncodeRejected(val)
    {
      var encoded := obfuscator.value.encodeString(val, alg);
      r := if encoded.Some? then Success(encoded.value) else Failure(EncodeRejected(val));
    }

    /** `process()`: processes the caller's tree in place and returns it. */
    method Process() returns (res: Result<Tree, Error>)
      modifies data
      ensures Processed(Visitor(rt, obfuscator), old(data.root), data.root, if res.Success? then None else Some(res.error))
      ensures res.Success? ==> res.value == data
    {
      res := ProcessObject(data);
    }
  }

  /** `new ConfigProcessor(data)`. The settings are processed while the
      obfuscator field is still unassigned, and only then is the obfuscator
      built from them; an exception anywhere aborts the construction. */
  method NewConfigProcessor(rt: Runtime, data: Tree) returns (r: Result<ConfigProcessor, Error>)
    ensures unchanged(data)
    ensures ConfigOf(data.root).Failure? ==> r == Failure(PropertyOfNullish)
    ensures ConfigOf(data.root).Success? ==>
      var settings, visit := ConfigOf(data.root).value, Visitor(rt, None);
      var k := FirstFailure(visit, settings);
      && (k < |LeafPaths(settings)| ==> r == Failure(LeafResult(visit, settings, k).error))
      && (k == |LeafPaths(settings)| && r.Failure? ==>
            && r.error == ObfuscatorConstructionFailed
            && exists w :: Processed(visit, settings, w, None) && rt.newObfuscator(ObfuscatorSetting(w)).None?)
      && (r.Success? ==>
            && k == |LeafPaths(settings)|
            && fresh(r.value) && fresh(r.value.config)
            && r.value.rt == rt && r.value.data == data
            && Processed(visit, settings, r.value.config.root, None)
            && r.value.obfuscator == rt.newObfuscator(ObfuscatorSetting(r.value.config.root))
            && r.value.obfuscator.Some?)
  {
    if ConfigOf(data.root).Failure? {
      return Failure(PropertyOfNullish);
    }
    var cp := new ConfigProcessor(rt, data);
    var outcome := cp.ProcessConfig();
    if outcome.Fail? {
      return Failure(outcome.error);
    }
    var obfuscator := cp.GetObfuscator();
    if obfuscator.None? {
      assert Processed(Visitor(rt, None), ConfigOf(data.root).value, cp.config.root, None);
      return Failure(ObfuscatorConstructionFailed);
    }
    cp.obfuscator := obfuscator;
    return Success(cp);
  }

  /** An `OBF:` string among the processor's own settings makes the
      construction fail: the walk without an obfuscator stops at that leaf at
      the latest, and there with "Obfuscator not allowed at this time". */
  lemma BootstrapRefusesObfuscated(rt: Runtime, settings: Value, k: nat, s: string)
    requires k < |LeafPaths(settings)|
    requires At(settings, LeafPaths(settings)[k]) == Some(Str(s)) && HasTag(s, "OBF")
    ensures FirstFailure(Visitor(rt, None), settings) <= k
    ensures FirstFailure(Visitor(rt, None), settings) == k ==>
      LeafResult(Visitor(rt, None), settings, k) == Failure(ObfuscatorNotAllowed)
  {
    ObfuscatorGate(rt, rt.stackDepth, s);
    assert LeafResult(Visitor(rt, None), settings, k).Failure?;
  }

  /** Assigning the obfuscator never changes a tree that processed without
      it: the same leaves are written with the same values. */
  lemma ObfuscatorOnlyAddsToWalk(rt: Runtime, c: Obfuscator, v: Value)
    requires FirstFailure(Visitor(rt, None), v) == |LeafPaths(v)|
    ensures FirstFailure(Visitor(rt, Some(c)), v) == |LeafPaths(v)|
    ensures forall j :: 0 <= j < |LeafPaths(v)| ==>
      LeafResult(Visitor(rt, Some(c)), v, j) == LeafResult(Visitor(rt, None), v, j)
  {
    var ps := LeafPaths(v);
    forall j | 0 <= j < |ps|
      ensures LeafResult(Visitor(rt, Some(c)), v, j) == LeafResult(Visitor(rt, None), v, j)
    {
      assert ps[j] in ps;
      var leaf := At(v, ps[j]).value;
      assert LeafResult(Visitor(rt, None), v, j).Success?;
      if leaf.Str? {
        ObfuscatorOnlyAdds(rt, c, rt.stackDepth, leaf.s);
      }
    }
  }

  /** A completed walk has exactly one result: the tree processObject
      returns is fixed by `v` and the visitor. */
  lemma CompletedWalkDetermined(visit: Value -> Result<Value, Error>, v: Value, w1: Value, w2: Value)
    requires Walked(visit, v, w1, |LeafPaths(v)|) && Walked(visit, v, w2, |LeafPaths(v)|)
    ensures w1 == w2
  {
    forall p | p in LeafPaths(w1) ensures At(w1, p) == At(w2, p) {
      CompletedWalksAgreeAt(visit, v, w1, w2, p);
    }
    ShapeAndLeavesDetermine(w1, w2);
  }

  lemma CompletedWalksAgreeAt(visit: Value -> Result<Value, Error>, v: Value, w1: Value, w2: Value, p: Path)
    requires Walked(visit, v, w1, |LeafPaths(v)|) && Walked(visit, v, w2, |LeafPaths(v)|)
    requires p in LeafPaths(w1)
    ensures At(w1, p) == At(w2, p)
  {
    ShapeLeafAt(w1, v, p);
    LeafPathsComplete(v, p);
    var j :| 0 <= j < |LeafPaths(v)| && LeafPaths(v)[j] == p;
  }

}
