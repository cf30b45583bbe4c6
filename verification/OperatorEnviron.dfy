/** Environment variables of an operator-managed gateway: `OperatorEnviron` of
    `testsuite/gateways/apicast/operator.py`. Variables are fields of a custom resource, held
    locally and on the cluster; a table says which field a variable stands for. */
module OperatorEnviron {
  import opened Wrappers
  import opened Text

  /** What a variable's name is looked up as: a field by name, the setter of the service list,
      or the setter of one service's configuration version. */
  datatype Key = Field(name: string) | ServiceList | Version(service: string)

  datatype Value = Plain(text: string) | Listed(items: seq<string>) | Versions(entries: map<string, string>)

  type Spec = map<string, Value>

  type Table = string -> Option<Key>

  /** NotApplied: the assertion that the client library's apply went through. */
  datatype Raised = NotImplemented | Missing | BadType | NotApplied

  const ENABLED: string := "enabledServices"
  const VERSIONS: string := "serviceConfigurationVersionOverride"

  /** No two plain names stand for one field, nor for a field of the setters. */
  ghost predicate Separate(table: Table) {
    && (forall n, m :: table(n).Some? && table(n) == table(m) && table(n).value.Field? ==> n == m)
    && (forall n :: table(n).Some? && table(n).value.Field? ==> table(n).value.name != ENABLED && table(n).value.name != VERSIONS)
  }

  predicate IsPlain(table: Table, name: string) {
    table(name).Some? && table(name).value.Field?
  }

  /** `__getitem__`: a field that is absent reads as None. */
  function Read(table: Table, spec: Spec, name: string): Result<Option<Value>, Raised> {
    if !IsPlain(table, name) then Err(NotImplemented)
    else
      var f := table(name).value.name;
      Ok(if f in spec then Some(spec[f]) else None)
  }

  /** `_set` */
  function Write(table: Table, spec: Spec, name: string, value: string): Result<Spec, Raised> {
    match table(name)
    case None => Err(NotImplemented)
    case Some(Field(f)) => Ok(spec[f := Plain(value)])
    case Some(ServiceList) => Ok(spec[ENABLED := Listed(Split(value, ','))])
    case Some(Version(service)) =>
      if VERSIONS !in spec then Ok(spec[VERSIONS := Versions(map[service := value])])
      else if !spec[VERSIONS].Versions? then Err(BadType)
      else Ok(spec[VERSIONS := Versions(spec[VERSIONS].entries[service := value])])
  }

  /** `_delete` */
  function Erase(table: Table, spec: Spec, name: string): Result<Spec, Raised> {
    if !IsPlain(table, name) then Err(NotImplemented)
    else if table(name).value.name !in spec then Err(Missing)
    else Ok(spec - {table(name).value.name})
  }

  /** The updates of `set_many` up to the first that is refused, and its error if there is one. */
  function WriteMany(table: Table, spec: Spec, envs: seq<(string, string)>): (Spec, Option<Raised>)
    decreases |envs|
  {
    if envs == [] then (spec, None)
    else match Write(table, spec, envs[0].0, envs[0].1)
      case Err(e) => (spec, Some(e))
      case Ok(next) => WriteMany(table, next, envs[1..])
  }

  // ----- One call

  datatype Event = Put(name: string, value: string) | PutMany(envs: seq<(string, string)>) | Drop(name: string)

  /** The modifier handed to the client library: what it leaves of the client's copy. */
  function Modify(table: Table, spec: Spec, e: Event): (Spec, Option<Raised>) {
    match e
    case Put(n, v) =>
      var w := Write(table, spec, n, v);
      if w.Ok? then (w.value, None) else (spec, Some(w.error))
    case Drop(n) =>
      var w := Erase(table, spec, n);
      if w.Ok? then (w.value, None) else (spec, Some(w.error))
    case PutMany(envs) => WriteMany(table, spec, envs)
  }

  /** What the client holds and what the cluster holds. */
  datatype State = State(local: Spec, remote: Spec)

  /** `modify_and_apply`, where `applies[k]` tells whether attempt k goes through (there are three,
      the first apply and its two retries): the modifier changes the client's copy, which is then
      applied; before it is tried again the copy is fetched anew from the cluster. */
  function Attempt(table: Table, s: State, e: Event, applies: seq<bool>): (State, Option<Raised>)
    requires applies != []
    decreases |applies|
  {
    var (local, raised) := Modify(table, s.local, e);
    if raised.Some? then (State(local, s.remote), raised)
    else if applies[0] then (State(local, local), None)
    else if |applies| == 1 then (State(local, s.remote), Some(NotApplied))
    else Attempt(table, State(s.remote, s.remote), e, applies[1..])
  }

  class Environ {
    const table: Table
    var local: Spec
    var remote: Spec
    var reloads: nat

    function Now(): State
      reads this
    {
      State(local, remote)
    }

    constructor (table: Table, spec: Spec)
      ensures this.table == table && Now() == State(spec, spec) && reloads == 0
    {
      this.table, local, remote, reloads := table, spec, spec, 0;
    }

    method Get(name: string) returns (r: Result<Option<Value>, Raised>)
      ensures r == Read(table, local, name)
    {
      var key := table(name);
      if key.None? || !key.value.Field? { return Err(NotImplemented); }
      var f := key.value.name;
      return Ok(if f in local then Some(local[f]) else None);
    }

    /** `_set`, `_delete` or the loop of `set_many`, on the client's copy. */
    method Update(e: Event) returns (raised: Option<Raised>)
      modifies this`local
      ensures (local, raised) == Modify(table, old(local), e)
    {
      match e
      case Put(name, value) =>
        var w := Write(table, local, name, value);
        if w.Err? { return Some(w.error); }
        local := w.value;
        return None;
      case Drop(name) =>
        var w := Erase(table, local, name);
        if w.Err? { return Some(w.error); }
        local := w.value;
        return None;
      case PutMany(envs) =>
        for i := 0 to |envs|
          invariant WriteMany(table, local, envs[i..]) == WriteMany(table, old(local), envs)
        {
          var w := Write(table, local, envs[i].0, envs[i].1);
          assert envs[i..][1..] == envs[i + 1..];
          if w.Err? { return Some(w.error); }
          local := w.value;
        }
        return None;
    }

    method ModifyAndApply(e: Event, applies: seq<bool>) returns (raised: Option<Raised>)
      requires |applies| == 3
      modifies this`local, this`remote
      ensures (Now(), raised) == Attempt(table, old(Now()), e, applies)
    {
      var k := 0;
      while true
        invariant 0 <= k < |applies|
        invariant Attempt(table, Now(), e, applies[k..]) == Attempt(table, old(Now()), e, applies)
        decreases |applies| - k
      {
        assert applies[k..][0] == applies[k] && applies[k..][1..] == applies[k + 1..];
        raised := Update(e);
        if raised.Some? { return; }
        if applies[k] {
          remote := local;
          return;
        }
        k := k + 1;
        if k == |applies| { return Some(NotApplied); }
        local := remote;
      }
    }

    /** The wait comes after the change; one that raises alters nothing here. */
    method Call(e: Event, applies: seq<bool>) returns (raised: Option<Raised>)
      requires |applies| == 3
      modifies this
      ensures (Now(), raised) == Attempt(table, old(Now()), e, applies)
      ensures reloads == old(reloads) + if raised.None? then 1 else 0
    {
      raised := ModifyAndApply(e, applies);
      if raised.None? {
        reloads := reloads + 1;
      }
    }

    method Set(name: string, value: string, applies: seq<bool>) returns (raised: Option<Raised>)
      requires |applies| == 3
      modifies this
      ensures (Now(), raised) == Attempt(table, old(Now()), Put(name, value), applies)
      ensures reloads == old(reloads) + if raised.None? then 1 else 0
    {
      raised := Call(Put(name, value), applies);
    }

    method Delete(name: string, applies: seq<bool>) returns (raised: Option<Raised>)
      requires |applies| == 3
      modifies this
      ensures (Now(), raised) == Attempt(table, old(Now()), Drop(name), applies)
      ensures reloads == old(reloads) + if raised.None? then 1 else 0
    {
      raised := Call(Drop(name), applies);
    }

    method SetMany(envs: seq<(string, string)>, applies: seq<bool>) returns (raised: Option<Raised>)
      requires |applies| == 3
      modifies this
      ensures (Now(), raised) == Attempt(table, old(Now()), PutMany(envs), applies)
      ensures reloads == old(reloads) + if raised.None? then 1 else 0
    {
      raised := Call(PutMany(envs), applies);
    }
  }

  // ----- Runs

  /** A call and the answers to its attempts. */
  datatype Step = Step(event: Event, applies: seq<bool>)

  predicate Tried(steps: seq<Step>) {
    forall k :: 0 <= k < |steps| ==> |steps[k].applies| == 3
  }

  function Run(table: Table, s: State, steps: seq<Step>): State
    requires Tried(steps)
    decreases |steps|
  {
    if steps == [] then s else Run(table, Attempt(table, s, steps[0].event, steps[0].applies).0, steps[1..])
  }

  /** The plain names as a dictionary from names to texts; nothing else is in it. */
  type Dict = map<string, string>

  function PutOne(table: Table, d: Dict, name: string, value: string): Dict {
    if IsPlain(table, name) then d[name := value] else d
  }

  /** A batch ends at its first unknown name. */
  function PutAll(table: Table, d: Dict, envs: seq<(string, string)>): Dict
    decreases |envs|
  {
    if envs == [] || table(envs[0].0).None? then d
    else PutAll(table, PutOne(table, d, envs[0].0, envs[0].1), envs[1..])
  }

  function OnDict(table: Table, d: Dict, e: Event): Dict {
    match e
    case Put(n, v) => PutOne(table, d, n, v)
    case Drop(n) => if IsPlain(table, n) then d - {n} else d
    case PutMany(envs) => PutAll(table, d, envs)
  }

  /** Only unknown names are refused, and deletions of what is not set. */
  predicate Refuses(table: Table, d: Dict, e: Event) {
    match e
    case Put(n, _) => table(n).None?
    case Drop(n) => !IsPlain(table, n) || n !in d
    case PutMany(envs) => exists i :: 0 <= i < |envs| && table(envs[i].0).None?
  }

  /** The same call on a dictionary of the client's and one of the cluster's. */
  function AttemptDict(table: Table, local: Dict, remote: Dict, e: Event, applies: seq<bool>): (Dict, Dict)
    requires applies != []
    decreases |applies|
  {
    var d := OnDict(table, local, e);
    if Refuses(table, local, e) then (d, remote)
    else if applies[0] then (d, d)
    else if |applies| == 1 then (d, remote)
    else AttemptDict(table, remote, remote, e, applies[1..])
  }

  function RunDict(table: Table, local: Dict, remote: Dict, steps: seq<Step>): (Dict, Dict)
    requires Tried(steps)
    decreases |steps|
  {
    if steps == [] then (local, remote)
    else
      var (l, r) := AttemptDict(table, local, remote, steps[0].event, steps[0].applies);
      RunDict(table, l, r, steps[1..])
  }

  /** The versions field, when present, is a table of versions. */
  predicate WellTyped(spec: Spec) {
    VERSIONS in spec ==> spec[VERSIONS].Versions?
  }

  /** Reading a plain name gives exactly what the dictionary holds for it. */
  ghost predicate Shows(table: Table, spec: Spec, d: Dict) {
    && WellTyped(spec)
    && forall n :: IsPlain(table, n) ==> Read(table, spec, n) == Ok(if n in d then Some(Plain(d[n])) else None)
  }

  /** Only an unknown name is refused, and a write shows in the dictionary. */
  lemma {:induction false} WriteShows(table: Table, spec: Spec, d: Dict, name: string, value: string)
    requires Separate(table) && Shows(table, spec, d)
    ensures var w := Write(table, spec, name, value);
      if table(name).None? then w == Err(NotImplemented)
      else w.Ok? && Shows(table, w.value, PutOne(table, d, name, value))
  {
    if table(name).Some? {
      var next, after := Write(table, spec, name, value).value, PutOne(table, d, name, value);
      forall n | IsPlain(table, n) ensures Read(table, next, n) == Ok(if n in after then Some(Plain(after[n])) else None) {
        assert Read(table, spec, n) == Ok(if n in d then Some(Plain(d[n])) else None);
      }
    }
  }

  /** A batch is refused exactly when it holds an unknown name. */
  lemma {:induction false} WriteManyShows(table: Table, spec: Spec, d: Dict, envs: seq<(string, string)>)
    requires Separate(table) && Shows(table, spec, d)
    ensures Shows(table, WriteMany(table, spec, envs).0, PutAll(table, d, envs))
    ensures WriteMany(table, spec, envs).1.Some? <==> exists i :: 0 <= i < |envs| && table(envs[i].0).None?
    decreases |envs|
  {
    if envs != [] {
      WriteShows(table, spec, d, envs[0].0, envs[0].1);
      if table(envs[0].0).Some? {
        var next := Write(table, spec, envs[0].0, envs[0].1).value;
        WriteManyShows(table, next, PutOne(table, d, envs[0].0, envs[0].1), envs[1..]);
        assert forall i :: 0 < i < |envs| ==> envs[i] == envs[1..][i - 1];
        assert forall i :: 0 <= i < |envs| - 1 ==> envs[1..][i] == envs[i + 1];
      }
    }
  }

  lemma {:induction false} EraseShows(table: Table, spec: Spec, d: Dict, name: string)
    requires Separate(table) && Shows(table, spec, d)
    ensures var w := Erase(table, spec, name);
      && (w.Ok? <==> IsPlain(table, name) && name in d)
      && Shows(table, if w.Ok? then w.value else spec, if IsPlain(table, name) then d - {name} else d)
  {
    var w := Erase(table, spec, name);
    var next, after := if w.Ok? then w.value else spec, if IsPlain(table, name) then d - {name} else d;
    if IsPlain(table, name) {
      assert Read(table, spec, name) == Ok(if name in d then Some(Plain(d[name])) else None);
    }
    forall n | IsPlain(table, n) ensures Read(table, next, n) == Ok(if n in after then Some(Plain(after[n])) else None) {
      assert Read(table, spec, n) == Ok(if n in d then Some(Plain(d[n])) else None);
    }
  }

  lemma {:induction false} ModifyShows(table: Table, spec: Spec, d: Dict, e: Event)
    requires Separate(table) && Shows(table, spec, d)
    ensures Shows(table, Modify(table, spec, e).0, OnDict(table, d, e))
    ensures Modify(table, spec, e).1.Some? <==> Refuses(table, d, e)
  {
    match e
    case Put(n, v) => WriteShows(table, spec, d, n, v);
    case Drop(n) => EraseShows(table, spec, d, n);
    case PutMany(envs) => WriteManyShows(table, spec, d, envs);
  }

  lemma {:induction false} AttemptShows(table: Table, s: State, local: Dict, remote: Dict, e: Event, applies: seq<bool>)
    requires Separate(table) && Shows(table, s.local, local) && Shows(table, s.remote, remote) && applies != []
    ensures var (next, (l, r)) := (Attempt(table, s, e, applies).0, AttemptDict(table, local, remote, e, applies));
      Shows(table, next.local, l) && Shows(table, next.remote, r)
    decreases |applies|
  {
    ModifyShows(table, s.local, local, e);
    if !Refuses(table, local, e) && !applies[0] && |applies| > 1 {
      AttemptShows(table, State(s.remote, s.remote), remote, remote, e, applies[1..]);
    }
  }

  /** Over every run, with applies that fail anywhere, the client reads its plain names as from a
      dictionary of its own writes, and the cluster holds another, whatever the setters of lists
      and versions do in between. */
  lemma {:induction false} RunIsDictionary(table: Table, s: State, local: Dict, remote: Dict, steps: seq<Step>)
    requires Separate(table) && Shows(table, s.local, local) && Shows(table, s.remote, remote) && Tried(steps)
    ensures var (last, (l, r)) := (Run(table, s, steps), RunDict(table, local, remote, steps));
      Shows(table, last.local, l) && Shows(table, last.remote, r)
    decreases |steps|
  {
    if steps != [] {
      var (e, applies) := (steps[0].event, steps[0].applies);
      AttemptShows(table, s, local, remote, e, applies);
      var (l, r) := AttemptDict(table, local, remote, e, applies);
      RunIsDictionary(table, Attempt(table, s, e, applies).0, l, r, steps[1..]);
    }
  }

  // ----- When the cluster holds what the client holds

  predicate Settled(s: State) {
    s.local == s.remote
  }

  /** A call that returns settles everything, whatever was left open before. */
  lemma {:induction false} ReturnSettles(table: Table, s: State, e: Event, applies: seq<bool>)
    requires applies != [] && Attempt(table, s, e, applies).1.None?
    ensures Settled(Attempt(table, s, e, applies).0)
    decreases |applies|
  {
    if !applies[0] && |applies| > 1 {
      ReturnSettles(table, State(s.remote, s.remote), e, applies[1..]);
    }
  }

  /** What a call leaves open: it is refused, or no apply goes through, and its modifier has
      changed the client's copy. */
  predicate LeavesOpen(table: Table, s: State, e: Event, applies: seq<bool>) {
    (Modify(table, s.local, e).1.Some? || true !in applies) && Modify(table, s.local, e).0 != s.local
  }

  /** From a settled state, a call returns if and only if its names are accepted and some apply
      goes through, and leaves the state settled if and only if it leaves nothing open. */
  lemma {:induction false} StepSettlesExact(table: Table, s: State, e: Event, applies: seq<bool>)
    requires applies != [] && Settled(s)
    ensures var (next, raised) := Attempt(table, s, e, applies);
      && (raised.None? <==> Modify(table, s.local, e).1.None? && true in applies)
      && (Settled(next) <==> !LeavesOpen(table, s, e, applies))
    decreases |applies|
  {
    assert applies == [applies[0]] + applies[1..];
    if Modify(table, s.local, e).1.None? && !applies[0] && |applies| > 1 {
      StepSettlesExact(table, State(s.remote, s.remote), e, applies[1..]);
    }
  }

  predicate AlwaysSettled(table: Table, s: State, steps: seq<Step>)
    requires Tried(steps)
    decreases |steps|
  {
    Settled(s) &&
    (steps != [] ==> AlwaysSettled(table, Attempt(table, s, steps[0].event, steps[0].applies).0, steps[1..]))
  }

  predicate SomethingOpen(table: Table, s: State, steps: seq<Step>)
    requires Tried(steps)
    decreases |steps|
  {
    steps != [] &&
    (LeavesOpen(table, s, steps[0].event, steps[0].applies) ||
     SomethingOpen(table, Attempt(table, s, steps[0].event, steps[0].applies).0, steps[1..]))
  }

  /** Over every run, the cluster holds what the client holds after each of its calls if and only
      if no call of the run leaves something open. */
  lemma {:induction false} RunPublishesExact(table: Table, s: State, steps: seq<Step>)
    requires Tried(steps) && Settled(s)
    ensures AlwaysSettled(table, s, steps) <==> !SomethingOpen(table, s, steps)
    decreases |steps|
  {
    if steps != [] {
      StepSettlesExact(table, s, steps[0].event, steps[0].applies);
      var next := Attempt(table, s, steps[0].event, steps[0].applies).0;
      if Settled(next) {
        RunPublishesExact(table, next, steps[1..]);
      }
    }
  }

  lemma {:induction false} BatchPrefix(table: Table, spec: Spec, known: seq<(string, string)>,
          rest: seq<(string, string)>)
    requires WriteMany(table, spec, known).1.None?
    ensures WriteMany(table, spec, known + rest) == WriteMany(table, WriteMany(table, spec, known).0, rest)
    decreases |known|
  {
    if known == [] {
      assert known + rest == rest;
    } else {
      assert (known + rest)[1..] == known[1..] + rest;
      BatchPrefix(table, Write(table, spec, known[0].0, known[0].1).value, known[1..], rest);
    }
  }

  /** A refused batch publishes nothing by itself, but the part before the refused name stays in
      the client's copy. The next write publishes it along if its first apply goes through; when
      only a later one does, the copy has been fetched anew and the part is lost. */
  lemma {:induction false} RefusedBatchIsPublishedLater(table: Table, s: State, known: seq<(string, string)>,
          bad: (string, string), rest: seq<(string, string)>, first: seq<bool>, name: string, value: string, applies: seq<bool>)
    requires WriteMany(table, s.local, known).1.None? && table(bad.0).None?
    requires table(name).Some? && table(name).value.Field? && first != [] && |applies| == 3
    ensures var refused := Attempt(table, s, PutMany(known + [bad] + rest), first).0;
      && refused == State(WriteMany(table, s.local, known).0, s.remote)
      && Attempt(table, refused, Put(name, value), applies).0.remote ==
         if applies[0] then WriteMany(table, s.local, known + [(name, value)]).0
         else if true in applies then Write(table, s.remote, name, value).value
         else s.remote
  {
    assert known + [bad] + rest == known + ([bad] + rest);
    BatchPrefix(table, s.local, known, [bad] + rest);
    BatchPrefix(table, s.local, known, [(name, value)]);
    assert ([bad] + rest)[0] == bad;
    var refused := State(WriteMany(table, s.local, known).0, s.remote);
    assert WriteMany(table, refused.local, [(name, value)]).0 == Write(table, refused.local, name, value).value;
    if !applies[0] {
      assert applies == [applies[0]] + applies[1..];
      AllButLastFail(table, s.remote, name, value, applies[1..]);
    }
  }

  lemma {:induction false} AllButLastFail(table: Table, spec: Spec, name: string, value: string, applies: seq<bool>)
    requires applies != [] && table(name).Some? && table(name).value.Field?
    ensures Attempt(table, State(spec, spec), Put(name, value), applies).0.remote ==
            if true in applies then Write(table, spec, name, value).value else spec
    decreases |applies|
  {
    assert applies == [applies[0]] + applies[1..];
    if !applies[0] && |applies| > 1 {
      AllButLastFail(table, spec, name, value, applies[1..]);
    }
  }

  /** Only plain names can be read and deleted; one that is not set reads as None and cannot be deleted. */
  lemma {:induction false} PlainOnly(table: Table, spec: Spec, name: string)
    ensures var plain := table(name).Some? && table(name).value.Field?;
      && (Read(table, spec, name) == Err(NotImplemented) <==> !plain)
      && (Erase(table, spec, name) == Err(NotImplemented) <==> !plain)
      && (plain ==>
            var field := table(name).value.name;
            && (Read(table, spec, name) == Ok(None) <==> field !in spec)
            && (Erase(table, spec, name) == Err(Missing) <==> field !in spec)
            && (field in spec ==>
                  Read(table, spec, name) == Ok(Some(spec[field])) && Erase(table, spec, name) == Ok(spec - {field})))
  {
  }

  /** Setting the service list leaves the parts of the value in the field of enabled services: none
      of them holds a comma, and joined by commas they are the value again. Nothing else changes. */
  lemma {:induction false} ServiceListExact(table: Table, spec: Spec, name: string, value: string)
    requires table(name) == Some(ServiceList)
    ensures var w := Write(table, spec, name, value);
      && w.Ok? && "enabledServices" in w.value && w.value["enabledServices"].Listed?
      && var items := w.value["enabledServices"].items;
      && |items| > 0 && Join(items, ',') == value && (forall k :: 0 <= k < |items| ==> ',' !in items[k])
      && w.value - {"enabledServices"} == spec - {"enabledServices"}
  {
    JoinSplit(value, ',');
  }

  /** Setting one service's version keeps every other service's version and every other field. */
  lemma {:induction false} VersionsDoNotInterfere(table: Table, spec: Spec, name: string, value: string)
    requires table(name).Some? && table(name).value.Version? && Write(table, spec, name, value).Ok?
    ensures var service, field := table(name).value.service, "serviceConfigurationVersionOverride";
      var next := Write(table, spec, name, value).value;
      && next - {field} == spec - {field}
      && field in next && next[field].Versions?
      && service in next[field].entries && next[field].entries[service] == value
      && next[field].entries - {service} == (if field in spec then spec[field].entries - {service} else map[])
  {
  }
}
