/** The APIManager wrapper and the Scaler as objects. */
module Scaler {
  import opened Wrappers
  import opened Text
  import opened Json
  import opened ModelPaths
  import opened Scaling

  /** `testsuite/openshift/crd/apimanager.py`; `model` is the custom resource. */
  class APIManager {
    var model: Value

    constructor (model: Value)
      ensures this.model == model
    {
      this.model := model;
    }

    /** `_locator`: walk down to the object holding the last fragment. */
    method Locator(path: string) returns (field: Result<Option<Value>, PathError>, fragments: seq<string>)
      ensures fragments == Split(path, '/')
      ensures field == Locate(model, fragments[..|fragments| - 1])
    {
      fragments := Split(path, '/');
      ghost var above := fragments[..|fragments| - 1];
      var current := model;
      for k := 0 to |fragments| - 1
        invariant Locate(model, above) == Locate(current, above[k..])
      {
        assert above[k..][0] == fragments[k] && above[k..][1..] == above[k + 1..];
        if !current.Obj? { return Err(NotAMapping), fragments; }
        if fragments[k] !in current.members { return Ok(None), fragments; }
        current := current.members[fragments[k]];
      }
      return Ok(Some(current)), fragments;
    }

    method Get(path: string) returns (r: Result<Option<Value>, PathError>)
      ensures r == GetPath(model, path)
    {
      var field, fragments := Locator(path);
      var last := fragments[|fragments| - 1];
      if field.Err? { return Err(field.error); }
      if field.value.None? { return Ok(None); }
      if !field.value.value.Obj? { return Err(NotAMapping); }
      var members := field.value.value.members;
      return Ok(if last in members then Some(members[last]) else None);
    }

    method Set(path: string, value: Value) returns (r: Result<bool, PathError>)
      modifies this
      ensures var changed := SetPath(old(model), path, value);
        if changed.Ok? then r == Ok(true) && model == changed.value else r == Err(changed.error) && model == old(model)
    {
      var field, fragments := Locator(path);
      AssignExact(model, fragments, value);
      if field == Ok(None) { return Err(PathMissing); }
      if field.Err? || !field.value.value.Obj? {
        assert Assign(model, fragments, value).Err?;
        return Err(NotAMapping);
      }
      model := Assign(model, fragments, value).value;
      return Ok(true);
    }
  }

  /** `testsuite/openshift/scaler.py`; `deployments` stands for the counts of a cluster that is
      not managed by the operator. */
  class Scaler {
    const operatorDeploy: bool
    const apimanager: APIManager
    var deployments: map<Component, Value>

    constructor (operatorDeploy: bool, apimanager: APIManager, deployments: map<Component, Value>)
      ensures this.operatorDeploy == operatorDeploy && this.apimanager == apimanager && this.deployments == deployments
    {
      this.operatorDeploy := operatorDeploy;
      this.apimanager := apimanager;
      this.deployments := deployments;
    }

    function State(): Cluster
      reads this, apimanager
    {
      if operatorDeploy then Operator(apimanager.model) else Direct(deployments)
    }

    /** `_scale_component`, None when it raised. */
    method Component(name: string, count: Value, waits: bool) returns (previous: Option<Value>)
      modifies this, apimanager
      ensures (State(), previous) == ScaleComponent(old(State()), name, count, waits)
    {
      var c := ComponentOf(name);
      if c.None? { return None; }
      if operatorDeploy {
        var found := apimanager.Get(ReplicasPath(c.value));
        if found.Err? { return None; }
        var current := if found.value.None? then Num(1) else found.value.value;
        var changed := apimanager.Set(ReplicasPath(c.value), count);
        if changed.Err? { return None; }
        return if waits then Some(current) else None;
      }
      if c.value !in deployments { return None; }
      var current := deployments[c.value];
      deployments := deployments[c.value := count];
      return if waits then Some(current) else None;
    }

    /** A body run inside its `with` blocks: the second scaling is in a `finally`. */
    method Execute(p: Program) returns (ok: bool)
      modifies this, apimanager
      ensures (State(), ok) == Run(old(State()), p)
      decreases p
    {
      match p
      case Skip => return true;
      case Raise => return false;
      case Sequence(first, second) =>
        ok := Execute(first);
        if ok { ok := Execute(second); }
      case Scale(name, count, waitsIn, waitsOut, body) =>
        var previous := Component(name, count, waitsIn);
        if previous.None? { return false; }
        ok := Execute(body);
        var restored := Component(name, previous.value, waitsOut);
        ok := ok && restored.Some?;
    }
  }
}
