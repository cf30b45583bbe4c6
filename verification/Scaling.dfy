/** Scaling blocks: `_scale` of the APIManager wrapper and the `scale` context manager of
    `testsuite/openshift/scaler.py`, over any nesting of blocks whose bodies may raise. */
module Scaling {
  import opened Wrappers
  import opened Text
  import opened Json
  import opened ModelPaths

  datatype Component = BackendListener | ApicastProduction

  /** DEPLOYMENT_MAPPINGS, through to the paths of the two scale functions. */
  function ComponentOf(name: string): Option<Component> {
    if name == "backend-listener" then Some(BackendListener)
    else if name == "apicast-production" then Some(ApicastProduction)
    else None
  }

  function ReplicasPath(c: Component): string {
    match c
    case BackendListener => "spec" + "/" + "backend" + "/" + "listenerSpec" + "/" + "replicas"
    case ApicastProduction => "spec" + "/" + "apicast" + "/" + "productionSpec" + "/" + "replicas"
  }

  /** Through the operator the replicas are in one custom resource; without it every
      deployment has its own count. */
  datatype Cluster = Operator(resource: Value) | Direct(replicas: map<Component, Value>)

  /** The replica count in effect; an absent one means 1. */
  function Effective(s: Cluster, c: Component): Option<Value> {
    match s
    case Operator(resource) =>
      var found := GetPath(resource, ReplicasPath(c));
      if found.Err? then None else if found.value.None? then Some(Num(1)) else Some(found.value.value)
    case Direct(replicas) => if c in replicas then Some(replicas[c]) else None
  }

  /** None when the path cannot be set, or there is no such deployment. */
  function Scaled(s: Cluster, c: Component, count: Value): Option<Cluster> {
    match s
    case Operator(resource) =>
      var changed := SetPath(resource, ReplicasPath(c), count);
      if changed.Err? then None else Some(Operator(changed.value))
    case Direct(replicas) => if c in replicas then Some(Direct(replicas[c := count])) else None
  }

  /** `_scale_component`: the state it leaves, and the previous count unless it raised. `waits`
      tells whether waiting for the replicas succeeds, which happens after the change. */
  function ScaleComponent(s: Cluster, name: string, count: Value, waits: bool): (Cluster, Option<Value>) {
    var c := ComponentOf(name);
    if c.None? then (s, None)
    else
      var previous := Effective(s, c.value);
      if previous.None? then (s, None)
      else
        var scaled := Scaled(s, c.value, count);
        if scaled.None? then (s, None)
        else if waits then (scaled.value, previous) else (scaled.value, None)
  }

  /** A test body: it may raise, and may open further blocks. */
  datatype Program =
    | Skip
    | Raise
    | Sequence(first: Program, second: Program)
    | Scale(name: string, count: Value, waitsIn: bool, waitsOut: bool, body: Program)

  /** The final state and whether the program ended without raising. */
  function Run(s: Cluster, p: Program): (Cluster, bool)
    decreases p
  {
    match p
    case Skip => (s, true)
    case Raise => (s, false)
    case Sequence(first, second) =>
      var (s1, ok) := Run(s, first);
      if ok then Run(s1, second) else (s1, false)
    case Scale(name, count, waitsIn, waitsOut, body) =>
      var (s1, previous) := ScaleComponent(s, name, count, waitsIn);
      if previous.None? then (s1, false)
      else
        var (s2, ok) := Run(s1, body);
        var (s3, restored) := ScaleComponent(s2, name, previous.value, waitsOut);
        (s3, ok && restored.Some?)
  }

  /** The component and count left by the block that raised while waiting for its first scaling,
      before its `try`, if one was reached and no block around it restores that component. */
  function Late(s: Cluster, p: Program): Option<(Component, Value)>
    decreases p
  {
    match p
    case Skip => None
    case Raise => None
    case Sequence(first, second) =>
      var (s1, ok) := Run(s, first);
      if ok then Late(s1, second) else Late(s, first)
    case Scale(name, count, waitsIn, waitsOut, body) =>
      var c := ComponentOf(name);
      if c.None? || Effective(s, c.value).None? || Scaled(s, c.value, count).None? then None
      else if !waitsIn then Some((c.value, count))
      else
        var inner := Late(Scaled(s, c.value, count).value, body);
        if inner.Some? && inner.value.0 == c.value then None else inner
  }

  /** Same kind of cluster, equally scalable, the same counts in effect but for the one left over,
      and nothing else of the resource changed. */
  ghost predicate Leaves(a: Cluster, b: Cluster, left: Option<(Component, Value)>) {
    && a.Operator? == b.Operator?
    && (forall c :: Effective(b, c) == if left.Some? && left.value.0 == c then Some(left.value.1) else Effective(a, c))
    && (forall c, v :: Scaled(a, c, v).Some? <==> Scaled(b, c, v).Some?)
    && (a.Operator? ==> forall path :: OffPath(path) ==> GetPath(a.resource, path) == GetPath(b.resource, path))
  }

  predicate OffPath(path: string) {
    forall c: Component :: Apart(ReplicasPath(c), path)
  }

  lemma {:induction false} SplitsDiffer(a: seq<string>, b: seq<string>, i: nat)
    requires i < |a| && i < |b| && a[i] != b[i]
    ensures !Prefixing(a, b)
  {
  }

  /** The two paths part after "spec". */
  lemma {:induction false} PathsApart(c: Component, d: Component)
    requires c != d
    ensures Apart(ReplicasPath(c), ReplicasPath(d))
  {
    PathParts("spec", "backend", "listenerSpec", "replicas");
    PathParts("spec", "apicast", "productionSpec", "replicas");
    SplitsDiffer(Split(ReplicasPath(c), '/'), Split(ReplicasPath(d), '/'), 1);
  }

  lemma {:induction false} PathParts(a: string, b: string, c: string, d: string)
    requires '/' !in a && '/' !in b && '/' !in c && '/' !in d
    ensures Split(a + "/" + b + "/" + c + "/" + d, '/') == [a, b, c, d]
  {
    assert a + "/" + b + "/" + c + "/" + d == a + ['/'] + (b + ['/'] + (c + ['/'] + d));
    SplitCons(a, '/', b + ['/'] + (c + ['/'] + d));
    SplitCons(b, '/', c + ['/'] + d);
    SplitCons(c, '/', d);
    SplitPart(d, '/');
  }

  lemma {:induction false} ScaledEffective(s: Cluster, c: Component, count: Value)
    requires Effective(s, c).Some? && Scaled(s, c, count).Some?
    ensures Effective(Scaled(s, c, count).value, c) == Some(count)
    ensures forall d :: d != c ==> Effective(Scaled(s, c, count).value, d) == Effective(s, d)
  {
    if s.Operator? {
      SetThenGet(s.resource, ReplicasPath(c), count, Null);
      forall d | d != c ensures Effective(Scaled(s, c, count).value, d) == Effective(s, d) {
        PathsApart(c, d);
        SetElsewhere(s.resource, ReplicasPath(c), count, ReplicasPath(d), Null);
      }
    }
  }

  lemma {:induction false} ScaledScalable(s: Cluster, c: Component, count: Value)
    requires Scaled(s, c, count).Some?
    ensures forall d, v :: Scaled(Scaled(s, c, count).value, d, v).Some? <==> Scaled(s, d, v).Some?
  {
    if s.Operator? {
      forall d, v ensures Scaled(Scaled(s, c, count).value, d, v).Some? <==> Scaled(s, d, v).Some? {
        if d == c {
          SetThenGet(s.resource, ReplicasPath(c), count, v);
        } else {
          PathsApart(c, d);
          SetElsewhere(s.resource, ReplicasPath(c), count, ReplicasPath(d), v);
        }
      }
    }
  }

  lemma {:induction false} ScaledOffPath(s: Cluster, c: Component, count: Value)
    requires Scaled(s, c, count).Some? && s.Operator?
    ensures forall path :: OffPath(path) ==> GetPath(Scaled(s, c, count).value.resource, path) == GetPath(s.resource, path)
  {
    forall path | OffPath(path) ensures GetPath(Scaled(s, c, count).value.resource, path) == GetPath(s.resource, path) {
      SetElsewhere(s.resource, ReplicasPath(c), count, path, Null);
    }
  }

  lemma {:induction false} ScaledLeaves(s: Cluster, c: Component, count: Value)
    requires Effective(s, c).Some? && Scaled(s, c, count).Some?
    ensures Leaves(s, Scaled(s, c, count).value, Some((c, count)))
  {
    ScaledEffective(s, c, count);
    ScaledScalable(s, c, count);
    if s.Operator? {
      ScaledOffPath(s, c, count);
    }
  }

  /** Scaling away, doing something that leaves a count behind, and scaling back leaves that
      count behind, unless it is the component's own. */
  lemma {:induction false} AwayAndBack(s: Cluster, c: Component, count: Value, s1: Cluster, s2: Cluster,
          left: Option<(Component, Value)>)
    requires Effective(s, c).Some? && Scaled(s, c, count) == Some(s1) && Leaves(s1, s2, left)
    ensures Effective(s2, c).Some? && Scaled(s2, c, Effective(s, c).value).Some?
    ensures Leaves(s, Scaled(s2, c, Effective(s, c).value).value, if left.Some? && left.value.0 == c then None else left)
  {
    var back := Effective(s, c).value;
    ScaledLeaves(s, c, count);
    OtherValue(s, c, count, back);
    assert Scaled(s1, c, back).Some? && Scaled(s2, c, back).Some?;
    ScaledLeaves(s2, c, back);
  }

  /** Whether a component can be scaled does not depend on the count. */
  lemma {:induction false} OtherValue(s: Cluster, c: Component, count: Value, other: Value)
    requires Scaled(s, c, count).Some?
    ensures Scaled(s, c, other).Some?
  {
    if s.Operator? {
      SetThenGet(s.resource, ReplicasPath(c), count, other);
    }
  }

  lemma {:induction false} LeavesNothingThen(a: Cluster, b: Cluster, c: Cluster, left: Option<(Component, Value)>)
    requires Leaves(a, b, None) && Leaves(b, c, left)
    ensures Leaves(a, c, left)
  {
  }

  /** A program that ends without raising has no late block. */
  lemma {:induction false} LateRaises(s: Cluster, p: Program)
    ensures Late(s, p).Some? ==> !Run(s, p).1
    decreases p
  {
    match p
    case Skip =>
    case Raise =>
    case Sequence(first, second) =>
      LateRaises(s, first);
      LateRaises(Run(s, first).0, second);
    case Scale(name, count, waitsIn, waitsOut, body) =>
      LateRaises(ScaleComponent(s, name, count, waitsIn).0, body);
  }

  /** Any program of well-nested blocks, raising anywhere, ends with every component's count as it
      began and nothing else of the resource changed, but for what a late block leaves behind. */
  lemma {:induction false} BlocksLeave(s: Cluster, p: Program)
    ensures Leaves(s, Run(s, p).0, Late(s, p))
    decreases p
  {
    match p
    case Skip =>
    case Raise =>
    case Sequence(first, second) =>
      BlocksLeave(s, first);
      if Run(s, first).1 {
        LateRaises(s, first);
        BlocksLeave(Run(s, first).0, second);
        LeavesNothingThen(s, Run(s, first).0, Run(s, p).0, Late(s, p));
      }
    case Scale(name, count, waitsIn, waitsOut, body) =>
      var c := ComponentOf(name);
      if c.Some? && Effective(s, c.value).Some? && Scaled(s, c.value, count).Some? {
        if waitsIn {
          var s1 := Scaled(s, c.value, count).value;
          BlocksLeave(s1, body);
          BlockLeaves(s, name, count, waitsOut, body);
        } else {
          ScaledLeaves(s, c.value, count);
        }
      }
  }

  lemma {:induction false} BlockLeaves(s: Cluster, name: string, count: Value, waitsOut: bool, body: Program)
    requires ComponentOf(name).Some? && Effective(s, ComponentOf(name).value).Some?
    requires Scaled(s, ComponentOf(name).value, count).Some?
    requires var s1 := Scaled(s, ComponentOf(name).value, count).value; Leaves(s1, Run(s1, body).0, Late(s1, body))
    ensures var p := Scale(name, count, true, waitsOut, body); Leaves(s, Run(s, p).0, Late(s, p))
  {
    var c := ComponentOf(name).value;
    var s1, previous := Scaled(s, c, count).value, Effective(s, c).value;
    var s2 := Run(s1, body).0;
    AwayAndBack(s, c, count, s1, s2, Late(s1, body));
    assert ScaleComponent(s2, name, previous, waitsOut).0 == Scaled(s2, c, previous).value;
  }

  /** Over every program: all counts in effect are restored if and only if no block that was
      reached failed its first wait unrestored, or that block asked for the very count it found. */
  lemma {:induction false} BlocksRestoreExact(s: Cluster, p: Program)
    ensures (forall c :: Effective(Run(s, p).0, c) == Effective(s, c)) <==>
            (Late(s, p).None? || Effective(s, Late(s, p).value.0) == Some(Late(s, p).value.1))
  {
    BlocksLeave(s, p);
    if Late(s, p).Some? {
      var (c, v) := Late(s, p).value;
      assert Effective(Run(s, p).0, c) == Some(v);
    }
  }

  /** A single block failing its first wait has scaled already, whatever its body. */
  lemma {:induction false} LateEntryIsNotUndone(s: Cluster, name: string, count: Value, waitsOut: bool, body: Program)
    requires ComponentOf(name).Some?
    ensures var c, (s', ok) := ComponentOf(name).value, Run(s, Scale(name, count, false, waitsOut, body));
      && !ok
      && (Effective(s', c) == Effective(s, c) <==>
            Effective(s, c).None? || Scaled(s, c, count).None? || Effective(s, c) == Some(count))
  {
    var c := ComponentOf(name).value;
    if Effective(s, c).Some? && Scaled(s, c, count).Some? {
      ScaledEffective(s, c, count);
    }
  }

  // ----- In the names and paths of the cluster

  /** The deployment that can be scaled under this name has its count at this path. */
  predicate HasCountAt(name: string, path: string) {
    (name == "backend-listener" && path == "spec/backend/listenerSpec/replicas") ||
    (name == "apicast-production" && path == "spec/apicast/productionSpec/replicas")
  }

  lemma {:induction false} ListenerPath()
    ensures ReplicasPath(BackendListener) == "spec/backend/listenerSpec/replicas"
  {
  }

  lemma {:induction false} ProductionPath()
    ensures ReplicasPath(ApicastProduction) == "spec/apicast/productionSpec/replicas"
  {
  }

  lemma {:induction false} NamesExact(name: string)
    ensures ComponentOf(name) == Some(BackendListener) <==> name == "backend-listener"
    ensures ComponentOf(name) == Some(ApicastProduction) <==> name == "apicast-production"
  {
  }

  lemma {:induction false} NamesAndPaths(name: string, path: string)
    ensures HasCountAt(name, path) <==> ComponentOf(name).Some? && ReplicasPath(ComponentOf(name).value) == path
  {
    NamesExact(name);
    ListenerPath();
    ProductionPath();
  }

  lemma {:induction false} BlockRuns(s: Cluster, name: string, c: Component, count: Value, waitsOut: bool, body: Program)
    requires ComponentOf(name) == Some(c) && Effective(s, c).Some? && Scaled(s, c, count).Some?
    ensures var inside := Run(Scaled(s, c, count).value, body);
      && Scaled(inside.0, c, Effective(s, c).value).Some?
      && Run(s, Scale(name, count, true, waitsOut, body)) ==
         (Scaled(inside.0, c, Effective(s, c).value).value, inside.1 && waitsOut)
      && Effective(Run(s, Scale(name, count, true, waitsOut, body)).0, c) == Effective(s, c)
      && inside.0.Operator? == s.Operator?
  {
    var held := Scaled(s, c, count).value;
    BlocksLeave(held, body);
    AwayAndBack(s, c, count, held, Run(held, body).0, Late(held, body));
    ScaledEffective(Run(held, body).0, c, Effective(s, c).value);
  }

  /** A finished block over a managed resource: its body runs with the count asked for at the
      deployment's path and the rest as it was, and in the end there is the count from before, or 1
      where there was none. */
  lemma {:induction false} BlockExact(resource: Value, name: string, path: string, count: Value, waitsOut: bool, body: Program)
    requires HasCountAt(name, path) && GetPath(resource, path).Ok? && SetPath(resource, path, count).Ok?
    ensures var held := SetPath(resource, path, count).value;
      var inside, outside := Run(Operator(held), body), Run(Operator(resource), Scale(name, count, true, waitsOut, body));
      && GetPath(held, path) == Ok(Some(count))
      && outside.0.Operator? && (outside.1 <==> inside.1 && waitsOut)
      && GetPath(outside.0.resource, path) ==
         Ok(Some(if GetPath(resource, path).value.Some? then GetPath(resource, path).value.value else Num(1)))
  {
    NamesAndPaths(name, path);
    var s, c := Operator(resource), ComponentOf(name).value;
    SetThenGet(resource, path, count, Null);
    BlockRuns(s, name, c, count, waitsOut, body);
    var inside := Run(Scaled(s, c, count).value, body).0;
    SetThenGet(inside.resource, path, Effective(s, c).value, Null);
  }

  lemma {:induction false} KindsStay(s: Cluster, p: Program)
    ensures Run(s, p).0.Operator? == s.Operator?
  {
    BlocksLeave(s, p);
  }

  /** The same over deployments that have their own counts. */
  lemma {:induction false} DirectBlockExact(replicas: map<Component, Value>, name: string, c: Component, count: Value,
          waitsOut: bool, body: Program)
    requires (name == "backend-listener" && c.BackendListener?) || (name == "apicast-production" && c.ApicastProduction?)
    requires c in replicas
    ensures var inside := Run(Direct(replicas[c := count]), body);
      var outside := Run(Direct(replicas), Scale(name, count, true, waitsOut, body));
      && outside.0.Direct? && (outside.1 <==> inside.1 && waitsOut)
      && c in outside.0.replicas && outside.0.replicas[c] == replicas[c]
  {
    NamesExact(name);
    BlockRuns(Direct(replicas), name, c, count, waitsOut, body);
    KindsStay(Direct(replicas), Scale(name, count, true, waitsOut, body));
    var outside := Run(Direct(replicas), Scale(name, count, true, waitsOut, body)).0;
    assert Effective(outside, c) == Some(replicas[c]);
  }

  /** A name that cannot be scaled, or a path that cannot be set, raises with nothing changed. */
  lemma {:induction false} BlockRefused(resource: Value, name: string, path: string, count: Value, waitsIn: bool,
          waitsOut: bool, body: Program)
    requires (name != "backend-listener" && name != "apicast-production") ||
             (HasCountAt(name, path) && (GetPath(resource, path).Err? || SetPath(resource, path, count).Err?))
    ensures Run(Operator(resource), Scale(name, count, waitsIn, waitsOut, body)) == (Operator(resource), false)
  {
    NamesAndPaths(name, path);
    NamesExact(name);
  }
}
