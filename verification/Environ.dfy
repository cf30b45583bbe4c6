/** `Environ` of `testsuite/openshift/env.py`: a cached, dictionary-like view of a remote
    deployment's environment, with every remote call free to fail. */
module Environ {
  import opened Wrappers
  import opened Text
  import opened GreedyPattern
  import opened EnvListing
  import opened RemoteEnviron

  /** What the remote side does when asked: `listed` for the listing, `sent` for the request that
      changes something (one that fails changes nothing), `waited` for the wait after it. */
  datatype Answers = Answers(listed: bool, sent: bool, waited: bool)

  const ALL_WELL := Answers(true, true, true)

  /** The remote variables and the client's cache. */
  datatype View = View(vars: Remote, cache: Option<map<string, Var>>)

  datatype Action = Read(name: string) | Write(op: Op)

  datatype Call = Call(action: Action, answers: Answers)

  /** What the listing of a container's variables says, once read back. */
  type Lister = Remote -> map<string, Var>

  function ListerOf(header: string): Lister {
    (vars: Remote) => Parsed(header, vars)
  }

  // ----- One call

  /** The `_envs` property: `refresh` empties the cache before it asks for the listing. */
  function Look(list: Lister, s: View, listed: bool): View {
    if s.cache.Some? then s else s.(cache := Some(if listed then list(s.vars) else map[]))
  }

  predicate LookRaises(s: View, listed: bool) {
    s.cache.None? && !listed
  }

  /** A request, the wait after it, and only then the cache is dropped. */
  function Change(s: View, vars: Remote, a: Answers): (View, Result<bool, EnvError>) {
    if !a.sent then (s, Err(Unreachable))
    else if !a.waited then (s.(vars := vars), Err(Unreachable))
    else (View(vars, None), Ok(true))
  }

  function ReadVar(list: Lister, s: View, name: string, a: Answers): (View, Result<Var, EnvError>) {
    var seen := Look(list, s, a.listed);
    if LookRaises(s, a.listed) then (seen, Err(Unreachable))
    else if name !in seen.cache.value then (seen, Err(KeyError))
    else (seen, Ok(seen.cache.value[name]))
  }

  function SetVar(list: Lister, s: View, name: string, v: EnvValue, a: Answers): (View, Result<bool, EnvError>) {
    var seen := Look(list, s, a.listed);
    if LookRaises(s, a.listed) then (seen, Err(Unreachable))
    else if name !in seen.cache.value then Change(seen, Put(s.vars, name, Lowered(v)), a)
    else if !seen.cache.value[name].Plain? then (seen, Err(NotImplemented))
    else Change(seen, Put(s.vars, name, Shown(v)), a)
  }

  function DeleteVar(list: Lister, s: View, name: string, a: Answers): (View, Result<bool, EnvError>) {
    var seen := Look(list, s, a.listed);
    if LookRaises(s, a.listed) then (seen, Err(Unreachable))
    else if name !in seen.cache.value then (seen, Err(KeyError))
    else if !seen.cache.value[name].Plain? then (seen, Err(NotImplemented))
    else Change(seen, Drop(s.vars, name), a)
  }

  function WriteVars(list: Lister, s: View, op: Op, a: Answers): (View, Result<bool, EnvError>) {
    match op
    case SetOp(name, v) => SetVar(list, s, name, v, a)
    case DeleteOp(name) => DeleteVar(list, s, name, a)
    case SetManyOp(values) => Change(s, PutAll(s.vars, LoweredAll(values)), a)
  }

  function Perform(list: Lister, s: View, c: Call): View {
    match c.action
    case Read(name) => ReadVar(list, s, name, c.answers).0
    case Write(op) => WriteVars(list, s, op, c.answers).0
  }

  function Run(list: Lister, s: View, calls: seq<Call>): View
    decreases |calls|
  {
    if calls == [] then s else Run(list, Perform(list, s, calls[0]), calls[1..])
  }

  /** The cache is absent or is the parsed listing. */
  predicate Agrees(list: Lister, s: View) {
    s.cache.Some? ==> s.cache.value == list(s.vars)
  }

  // ----- Runs whose remote calls succeed

  predicate Answered(calls: seq<Call>) {
    forall k :: 0 <= k < |calls| ==> calls[k].answers == ALL_WELL
  }

  function Writes(calls: seq<Call>): seq<Op> {
    if calls == [] then []
    else (if calls[0].action.Write? then [calls[0].action.op] else []) + Writes(calls[1..])
  }

  lemma {:induction false} AnsweredStep(list: Lister, s: View, c: Call)
    requires Agrees(list, s) && c.answers == ALL_WELL
    ensures Agrees(list, Perform(list, s, c))
  {
  }

  lemma {:induction false} AnsweredWrite(header: string, s: View, op: Op)
    requires Agrees(ListerOf(header), s)
    ensures WriteVars(ListerOf(header), s, op, ALL_WELL).0.vars == Remotely(header, s.vars, op)
  {
    var listing := Parsed(header, s.vars);
    assert ListerOf(header)(s.vars) == listing;
  }

  lemma {:induction false} AnsweredRun(list: Lister, s: View, calls: seq<Call>)
    requires Agrees(list, s) && Answered(calls)
    ensures Agrees(list, Run(list, s, calls))
    decreases |calls|
  {
    if calls != [] {
      AnsweredStep(list, s, calls[0]);
      AnsweredRun(list, Perform(list, s, calls[0]), calls[1..]);
    }
  }

  lemma {:induction false} FirstWrite(header: string, vars: Remote, calls: seq<Call>)
    requires calls != []
    ensures RemotelyAll(header, vars, Writes(calls)) ==
            if calls[0].action.Write? then RemotelyAll(header, Remotely(header, vars, calls[0].action.op), Writes(calls[1..]))
            else RemotelyAll(header, vars, Writes(calls[1..]))
  {
    if calls[0].action.Write? {
      assert Writes(calls)[0] == calls[0].action.op && Writes(calls)[1..] == Writes(calls[1..]);
    } else {
      assert Writes(calls) == Writes(calls[1..]);
    }
  }

  /** As long as every remote call succeeds the cache stays absent or equal to the listing, and
      the remote variables are what the writes alone make of them. */
  lemma {:induction false} RunAgrees(header: string, s: View, calls: seq<Call>)
    requires Agrees(ListerOf(header), s) && Answered(calls)
    ensures var last := Run(ListerOf(header), s, calls);
      Agrees(ListerOf(header), last) && last.vars == RemotelyAll(header, s.vars, Writes(calls))
    decreases |calls|
  {
    if calls != [] {
      AnsweredStep(ListerOf(header), s, calls[0]);
      RunAgrees(header, Perform(ListerOf(header), s, calls[0]), calls[1..]);
      FirstWrite(header, s.vars, calls);
      if calls[0].action.Write? {
        AnsweredWrite(header, s, calls[0].action.op);
      }
    }
  }

  /** What a client reads after any run of writes whose remote calls succeed is what the same
      writes leave in a plain dictionary. */
  lemma {:induction false} RunReads(header: string, s: View, calls: seq<Call>, name: string)
    requires AllReadable(header, s.vars) && Agrees(ListerOf(header), s) && Answered(calls)
    requires forall k :: 0 <= k < |Writes(calls)| ==> WritableOp(Writes(calls)[k])
    ensures var d := OnDictionaryAll(Parsed(header, s.vars), Writes(calls));
      ReadVar(ListerOf(header), Run(ListerOf(header), s, calls), name, ALL_WELL).1 ==
      if name in d then Ok(d[name]) else Err(KeyError)
  {
    RunAgrees(header, s, calls);
    RunIsDictionary(header, s.vars, Writes(calls));
  }

  lemma {:induction false} RunConcat(list: Lister, s: View, a: seq<Call>, b: seq<Call>)
    ensures Run(list, s, a + b) == Run(list, Run(list, s, a), b)
    decreases |a|
  {
    if a == [] {
      assert a + b == b;
    } else {
      assert (a + b)[1..] == a[1..] + b;
      RunConcat(list, Perform(list, s, a[0]), a[1..], b);
    }
  }

  lemma {:induction false} RunOne(list: Lister, s: View, c: Call)
    ensures Run(list, s, [c]) == Perform(list, s, c)
  {
    assert [c][1..] == [];
    assert Run(list, Perform(list, s, c), [c][1..]) == Perform(list, s, c);
  }

  /** Whatever failed before, a write that returns puts things right, and they stay right as
      long as the calls after it succeed. */
  lemma {:induction false} RunRecovers(list: Lister, s: View, before: seq<Call>, op: Op, a: Answers, after: seq<Call>)
    requires WriteVars(list, Run(list, s, before), op, a).1.Ok? && Answered(after)
    ensures Agrees(list, Run(list, s, before + [Call(Write(op), a)] + after))
  {
    var c := Call(Write(op), a);
    RunConcat(list, s, before + [c], after);
    RunConcat(list, s, before, [c]);
    RunOne(list, Run(list, s, before), c);
    AnsweredRun(list, Perform(list, Run(list, s, before), c), after);
  }

  // ----- Exactly when a call leaves a wrong cache

  predicate Looks(c: Call) {
    !(c.action.Write? && c.action.op.SetManyOp?)
  }

  /** The listing fails when it is needed, and there is something it would have listed. */
  predicate LeavesEmpty(s: View, c: Call) {
    Looks(c) && s.cache.None? && !c.answers.listed && s.vars != []
  }

  /** The write is not refused and changes what the variables are. */
  predicate Changes(vars: Remote, op: Op) {
    match op
    case SetOp(name, v) =>
      var found := Lookup(vars, name);
      found.None? || (found.value.Plain? && found.value.value != Shown(v))
    case DeleteOp(name) => Lookup(vars, name).Some? && Lookup(vars, name).value.Plain?
    case SetManyOp(values) =>
      exists k :: 0 <= k < |values| && Lookup(vars, values[k].0) != Some(Plain(Lowered(values[k].1)))
  }

  /** The change is made, the wait after it fails, and there is a cache to go stale. */
  predicate LeavesStale(s: View, c: Call) {
    && c.action.Write? && c.answers.sent && !c.answers.waited
    && (s.cache.Some? || (Looks(c) && c.answers.listed))
    && Changes(s.vars, c.action.op)
  }

  /** The names of a bulk write come from a dictionary. */
  ghost predicate DistinctNames(args: seq<(string, string)>) {
    forall i, j :: 0 <= i < j < |args| ==> args[i].0 != args[j].0
  }

  /** The listing says what there is. */
  ghost predicate Right(list: Lister, vars: Remote) {
    Distinct(vars) && list(vars) == MapOf(vars)
  }

  lemma {:induction false} PutChanges(vars: Remote, name: string, text: string)
    requires Distinct(vars)
    ensures MapOf(Put(vars, name, text)) == MapOf(vars) <==> Lookup(vars, name) == Some(Plain(text))
  {
    PutMap(vars, name, text);
    MapOfLookup(vars, name);
    UpdateChanges(MapOf(vars), name, Plain(text));
  }

  lemma {:induction false} UpdateChanges(m: map<string, Var>, name: string, v: Var)
    ensures m[name := v] == m <==> name in m && m[name] == v
  {
    if name in m && m[name] == v {
      assert m[name := v] == m;
    }
  }

  lemma {:induction false} DropChanges(vars: Remote, name: string)
    requires Distinct(vars)
    ensures MapOf(Drop(vars, name)) == MapOf(vars) <==> Lookup(vars, name).None?
  {
    DropMap(vars, name);
    MapOfLookup(vars, name);
    RemovalChanges(MapOf(vars), name);
  }

  lemma {:induction false} RemovalChanges(m: map<string, Var>, name: string)
    ensures m - {name} == m <==> name !in m
  {
    assert name !in m - {name};
    if name !in m {
      assert m - {name} == m;
    }
  }

  lemma {:induction false} UpdateAllAt(m: map<string, Var>, args: seq<(string, string)>, name: string, k: int)
    requires DistinctNames(args)
    requires 0 <= k < |args| ==> args[k].0 == name
    requires !(0 <= k < |args|) ==> forall i :: 0 <= i < |args| ==> args[i].0 != name
    ensures var m' := UpdateAll(m, args);
      if 0 <= k < |args| then name in m' && m'[name] == Plain(args[k].1)
      else (name in m' <==> name in m) && (name in m ==> m'[name] == m[name])
    decreases |args|
  {
    if args != [] {
      UpdateAllAt(m[args[0].0 := Plain(args[0].1)], args[1..], name, if 0 < k < |args| then k - 1 else -1);
    }
  }

  lemma {:induction false} UpdateAllChanges(m: map<string, Var>, args: seq<(string, string)>)
    requires DistinctNames(args)
    ensures UpdateAll(m, args) == m <==>
            forall k :: 0 <= k < |args| ==> args[k].0 in m && m[args[k].0] == Plain(args[k].1)
  {
    var m' := UpdateAll(m, args);
    if m' == m {
      forall k | 0 <= k < |args| ensures args[k].0 in m && m[args[k].0] == Plain(args[k].1) {
        UpdateAllAt(m, args, args[k].0, k);
      }
    }
    if forall k :: 0 <= k < |args| ==> args[k].0 in m && m[args[k].0] == Plain(args[k].1) {
      forall name ensures (name in m' <==> name in m) && (name in m ==> m'[name] == m[name]) {
        if k :| 0 <= k < |args| && args[k].0 == name {
          UpdateAllAt(m, args, name, k);
        } else {
          UpdateAllAt(m, args, name, -1);
        }
      }
      assert m' == m;
    }
  }

  lemma {:induction false} PutAllChanges(vars: Remote, values: seq<(string, EnvValue)>)
    requires Distinct(vars) && DistinctNames(LoweredAll(values))
    ensures MapOf(PutAll(vars, LoweredAll(values))) == MapOf(vars) <==> !Changes(vars, SetManyOp(values))
  {
    var args, m := LoweredAll(values), MapOf(vars);
    PutAllMap(vars, args);
    UpdateAllChanges(m, args);
    forall k | 0 <= k < |values|
      ensures args[k].0 in m && m[args[k].0] == Plain(args[k].1) <==>
              Lookup(vars, values[k].0) == Some(Plain(Lowered(values[k].1)))
    {
      MapOfLookup(vars, values[k].0);
    }
  }

  lemma {:induction false} NothingListed(vars: Remote)
    requires Distinct(vars)
    ensures MapOf(vars) == map[] <==> vars == []
  {
    if vars != [] {
      LookupAt(vars, 0);
      MapOfLookup(vars, vars[0].0);
    }
  }

  lemma {:induction false} LookAgreesExact(list: Lister, s: View, listed: bool)
    requires Right(list, s.vars) && Agrees(list, s)
    ensures Agrees(list, Look(list, s, listed)) <==> !(s.cache.None? && !listed && s.vars != [])
  {
    NothingListed(s.vars);
  }

  lemma {:induction false} SetAgreesExact(list: Lister, s: View, name: string, v: EnvValue, a: Answers)
    requires Right(list, s.vars) && Agrees(list, s)
    requires Right(list, SetVar(list, s, name, v, a).0.vars)
    ensures var c := Call(Write(SetOp(name, v)), a);
      Agrees(list, SetVar(list, s, name, v, a).0) <==> !LeavesEmpty(s, c) && !LeavesStale(s, c)
  {
    LookAgreesExact(list, s, a.listed);
    MapOfLookup(s.vars, name);
    PutChanges(s.vars, name, Shown(v));
    PutChanges(s.vars, name, Lowered(v));
  }

  lemma {:induction false} DeleteAgreesExact(list: Lister, s: View, name: string, a: Answers)
    requires Right(list, s.vars) && Agrees(list, s)
    requires Right(list, DeleteVar(list, s, name, a).0.vars)
    ensures var c := Call(Write(DeleteOp(name)), a);
      Agrees(list, DeleteVar(list, s, name, a).0) <==> !LeavesEmpty(s, c) && !LeavesStale(s, c)
  {
    LookAgreesExact(list, s, a.listed);
    MapOfLookup(s.vars, name);
    DropChanges(s.vars, name);
  }

  /** On a view that agrees, a call leaves one that does not if and only if it leaves an empty or
      a stale cache. */
  lemma {:induction false} StepAgreesExact(list: Lister, s: View, c: Call)
    requires Right(list, s.vars) && Right(list, Perform(list, s, c).vars) && Agrees(list, s)
    requires c.action.Write? && c.action.op.SetManyOp? ==> DistinctNames(LoweredAll(c.action.op.values))
    ensures Agrees(list, Perform(list, s, c)) <==> !LeavesEmpty(s, c) && !LeavesStale(s, c)
  {
    match c.action
    case Read(_) => LookAgreesExact(list, s, c.answers.listed);
    case Write(SetManyOp(values)) => PutAllChanges(s.vars, values);
    case Write(DeleteOp(name)) => DeleteAgreesExact(list, s, name, c.answers);
    case Write(SetOp(name, v)) => SetAgreesExact(list, s, name, v, c.answers);
  }

  ghost predicate Allowed(c: Call) {
    c.action.Write? ==>
      WritableOp(c.action.op) && (c.action.op.SetManyOp? ==> DistinctNames(LoweredAll(c.action.op.values)))
  }

  lemma {:induction false} ReadableIsRight(header: string, vars: Remote)
    requires AllReadable(header, vars)
    ensures Right(ListerOf(header), vars)
  {
    ListingRoundTrip(header, vars);
  }

  /** The remote variables after a call are the old ones, or a write of them. */
  lemma {:induction false} VarsAfter(list: Lister, s: View, c: Call)
    ensures var vars := Perform(list, s, c).vars;
      || vars == s.vars
      || (c.action.Write? && match c.action.op
          case SetOp(name, v) => vars == Put(s.vars, name, Shown(v)) || vars == Put(s.vars, name, Lowered(v))
          case DeleteOp(name) => vars == Drop(s.vars, name)
          case SetManyOp(values) => vars == PutAll(s.vars, LoweredAll(values)))
  {
  }

  lemma {:induction false} StepReadable(header: string, list: Lister, s: View, c: Call)
    requires AllReadable(header, s.vars) && Allowed(c)
    ensures AllReadable(header, Perform(list, s, c).vars)
  {
    VarsAfter(list, s, c);
    match c.action
    case Read(_) =>
    case Write(op) => WritesReadable(header, s.vars, op);
  }

  lemma {:induction false} WritesReadable(header: string, vars: Remote, op: Op)
    requires AllReadable(header, vars) && WritableOp(op)
    ensures match op
      case SetOp(name, v) => AllReadable(header, Put(vars, name, Shown(v))) && AllReadable(header, Put(vars, name, Lowered(v)))
      case DeleteOp(name) => AllReadable(header, Drop(vars, name))
      case SetManyOp(values) => AllReadable(header, PutAll(vars, LoweredAll(values)))
  {
    match op
    case SetOp(name, v) =>
      LoweredWritable(name, v);
      PutIsUpdate(header, vars, name, Shown(v));
      PutIsUpdate(header, vars, name, Lowered(v));
    case DeleteOp(name) => DropReadable(header, vars, name);
    case SetManyOp(values) =>
      var args := LoweredAll(values);
      forall k | 0 <= k < |args| ensures Writable(args[k].0, args[k].1) {
        LoweredWritable(values[k].0, values[k].1);
      }
      PutAllIsUpdate(header, vars, args);
  }

  /** Some call of the run leaves an empty or a stale cache. */
  predicate GoesWrong(list: Lister, s: View, calls: seq<Call>)
    decreases |calls|
  {
    calls != [] &&
    (LeavesEmpty(s, calls[0]) || LeavesStale(s, calls[0]) || GoesWrong(list, Perform(list, s, calls[0]), calls[1..]))
  }

  /** The view agrees at the start and after each call. */
  predicate AlwaysAgrees(list: Lister, s: View, calls: seq<Call>)
    decreases |calls|
  {
    Agrees(list, s) && (calls != [] ==> AlwaysAgrees(list, Perform(list, s, calls[0]), calls[1..]))
  }

  /** Over every run with failures: the cache agrees after each of its calls if and only if none
      of them leaves an empty or a stale cache. */
  lemma {:induction false} RunAgreesExact(header: string, s: View, calls: seq<Call>)
    requires AllReadable(header, s.vars) && Agrees(ListerOf(header), s)
    requires forall k :: 0 <= k < |calls| ==> Allowed(calls[k])
    ensures AlwaysAgrees(ListerOf(header), s, calls) <==> !GoesWrong(ListerOf(header), s, calls)
    decreases |calls|
  {
    if calls != [] {
      var list := ListerOf(header);
      var next := Perform(list, s, calls[0]);
      assert Allowed(calls[0]);
      StepReadable(header, list, s, calls[0]);
      ReadableIsRight(header, s.vars);
      ReadableIsRight(header, next.vars);
      StepAgreesExact(list, s, calls[0]);
      if Agrees(list, next) {
        RunAgreesExact(header, next, calls[1..]);
      }
    }
  }

  /** `AlwaysAgrees` speaks of every prefix of the run. */
  lemma {:induction false} AlwaysMeansEveryPrefix(list: Lister, s: View, calls: seq<Call>)
    ensures AlwaysAgrees(list, s, calls) <==> forall k :: 0 <= k <= |calls| ==> Agrees(list, Run(list, s, calls[..k]))
    decreases |calls|
  {
    assert Run(list, s, calls[..0]) == s;
    if calls == [] {
      assert forall k :: 0 <= k <= |calls| ==> calls[..k] == [];
    } else {
      var next := Perform(list, s, calls[0]);
      AlwaysMeansEveryPrefix(list, next, calls[1..]);
      forall k | 0 < k <= |calls| ensures Run(list, s, calls[..k]) == Run(list, next, calls[1..][..k - 1]) {
        assert calls[..k][1..] == calls[1..][..k - 1];
      }
      assert forall k :: 0 <= k <= |calls[1..]| ==> Run(list, next, calls[1..][..k]) == Run(list, s, calls[..k + 1]);
    }
  }

  // ----- What a call answers, and what it changes

  /** The write is refused: the variable is a reference, or there is none to delete. */
  predicate Refused(vars: Remote, op: Op) {
    match op
    case SetOp(name, _) => Lookup(vars, name).Some? && !Lookup(vars, name).value.Plain?
    case DeleteOp(name) => Lookup(vars, name).None? || !Lookup(vars, name).value.Plain?
    case SetManyOp(_) => false
  }

  /** Over a view that agrees, a write returns exactly when the listing it needs, its request and its
      wait go through and it is not refused; it changes the remote variables exactly when its
      request was made, and then to what was intended. */
  lemma {:induction false} WriteExact(list: Lister, s: View, op: Op, a: Answers)
    requires Right(list, s.vars) && Agrees(list, s)
    ensures var (next, result) := WriteVars(list, s, op, a);
      var listing := op.SetManyOp? || s.cache.Some? || a.listed;
      && (result == Ok(true) <==> listing && !Refused(s.vars, op) && a.sent && a.waited)
      && (result == Err(Unreachable) <==> !listing || (!Refused(s.vars, op) && !(a.sent && a.waited)))
      && (result == Err(NotImplemented) <==>
            listing && Refused(s.vars, op) && Lookup(s.vars, op.name).Some? && !Lookup(s.vars, op.name).value.Plain?)
      && (result == Err(KeyError) <==> listing && op.DeleteOp? && Lookup(s.vars, op.name).None?)
      && next.vars == (if listing && !Refused(s.vars, op) && a.sent then
                         match op
                         case SetOp(name, v) => Intended(s.vars, name, v)
                         case DeleteOp(name) => Drop(s.vars, name)
                         case SetManyOp(values) => PutAll(s.vars, LoweredAll(values))
                       else s.vars)
  {
    match op
    case SetOp(name, _) => MapOfLookup(s.vars, name);
    case DeleteOp(name) => MapOfLookup(s.vars, name);
    case SetManyOp(_) =>
  }

  /** What a client gets for a name from a view that agrees: a plain variable's text, what the server
      has under the object and key of a reference, and otherwise KeyError. */
  lemma {:induction false} ReadsWhatIsThere(header: string, s: View, name: string,
          secret: (string, string) -> Option<string>, configMap: (string, string) -> Option<string>)
    requires AllReadable(header, s.vars) && Agrees(ListerOf(header), s)
    ensures var found := ReadVar(ListerOf(header), s, name, ALL_WELL).1;
      var got := if found.Ok? then ValueOf(found.value, secret, configMap) else Err(found.error);
      match Lookup(s.vars, name)
      case None => got == Err(KeyError)
      case Some(Plain(text)) => got == Ok(text)
      case Some(FromSecret(o, key)) =>
        (secret(o, key).None? ==> got == Err(KeyError)) && (secret(o, key).Some? ==> got == Ok(secret(o, key).value))
      case Some(FromConfigMap(o, key)) =>
        (configMap(o, key).None? ==> got == Err(KeyError)) && (configMap(o, key).Some? ==> got == Ok(configMap(o, key).value))
  {
    ReadableIsRight(header, s.vars);
    MapOfLookup(s.vars, name);
  }

  // ----- What a wrong cache does

  /** What a write to this name does to the remote variables when the listing is right. */
  function Intended(vars: Remote, name: string, v: EnvValue): Remote {
    var found := Lookup(vars, name);
    if found.None? then Put(vars, name, Lowered(v))
    else if found.value.Plain? then Put(vars, name, Shown(v)) else vars
  }

  lemma {:induction false} IntendedIsRemotely(header: string, vars: Remote, name: string, v: EnvValue)
    requires AllReadable(header, vars)
    ensures Remotely(header, vars, SetOp(name, v)) == Intended(vars, name, v)
  {
    ListingRoundTrip(header, vars);
    MapOfLookup(vars, name);
  }

  /** After a listing that failed, every read raises KeyError, and a write does what it would
      have done on the true listing if and only if the name is not there, or is a plain variable
      that is written the same either way. A variable taken from a secret or configmap, which is
      never to be written, is overwritten. */
  lemma {:induction false} EmptyCacheExact(list: Lister, vars: Remote, name: string, v: EnvValue, first: Call,
          a: Answers)
    requires Distinct(vars) && Looks(first) && !first.answers.listed
    ensures var s := Perform(list, View(vars, None), first);
      && s == View(vars, Some(map[]))
      && ReadVar(list, s, name, a).1 == Err(KeyError)
      && (a.sent && a.waited ==>
            var found, (next, result) := Lookup(vars, name), SetVar(list, s, name, v, a);
            && result == Ok(true)
            && Lookup(next.vars, name) == Some(Plain(Lowered(v)))
            && (next.vars == Intended(vars, name, v) <==>
                  found.None? || (found.value.Plain? && Shown(v) == Lowered(v))))
  {
    LookupAfterPut(vars, name, Lowered(v), name);
    LookupAfterPut(vars, name, Shown(v), name);
  }

  /** After a write whose wait failed, a read finds what was written if and only if it was there
      before: otherwise it returns the old value, or KeyError for a new variable. */
  lemma {:induction false} StaleReadExact(list: Lister, s: View, name: string, v: EnvValue, a: Answers, again: Answers)
    requires Right(list, s.vars) && Agrees(list, s)
    requires (s.cache.Some? || a.listed) && a.sent && !a.waited
    requires Lookup(s.vars, name).Some? ==> Lookup(s.vars, name).value.Plain?
    ensures var (next, result) := SetVar(list, s, name, v, a);
      var text := if Lookup(s.vars, name).Some? then Shown(v) else Lowered(v);
      && result == Err(Unreachable)
      && Lookup(next.vars, name) == Some(Plain(text))
      && (ReadVar(list, next, name, again).1 == Ok(Plain(text)) <==> Lookup(s.vars, name) == Some(Plain(text)))
  {
    MapOfLookup(s.vars, name);
    LookupAfterPut(s.vars, name, Lowered(v), name);
    LookupAfterPut(s.vars, name, Shown(v), name);
  }

  // ----- The objects

  /** One of the three kinds, in the order they are tried. */
  function TryKind(kind: nat, line: string): Option<(string, Var)> {
    var m := Match(if kind == 0 then PlainPattern() else if kind == 1 then SecretPattern() else ConfigMapPattern(), line);
    if kind == 0 then if m.Some? && |m.value| == 2 then Some((m.value[0], Plain(m.value[1]))) else None
    else if m.Some? && |m.value| == 3 then
      Some((m.value[0], if kind == 1 then FromSecret(m.value[1], m.value[2]) else FromConfigMap(m.value[1], m.value[2])))
    else None
  }

  lemma {:induction false} KindsAreParseLine(line: string)
    ensures ParseLine(line) ==
            if TryKind(0, line).Some? then TryKind(0, line)
            else if TryKind(1, line).Some? then TryKind(1, line) else TryKind(2, line)
  {
  }

  lemma {:induction false} OnePut(vars: Remote, name: string, text: string)
    ensures PutAll(vars, [(name, text)]) == Put(vars, name, text)
  {
    assert [(name, text)][1..] == [];
  }

  class Deployment {
    const header: string
    var vars: Remote

    constructor (header: string, vars: Remote)
      ensures this.header == header && this.vars == vars
    {
      this.header := header;
      this.vars := vars;
    }

    method List(listed: bool) returns (out: Option<string>)
      ensures out == if listed then Some(Listing(header, vars)) else None
    {
      out := if listed then Some(Listing(header, vars)) else None;
    }

    method SetEnv(args: seq<(string, string)>, sent: bool)
      modifies this
      ensures vars == if sent then PutAll(old(vars), args) else old(vars)
    {
      if !sent { return; }
      for k := 0 to |args|
        invariant PutAll(old(vars), args) == PutAll(vars, args[k..])
      {
        assert args[k..][1..] == args[k + 1..];
        vars := Put(vars, args[k].0, args[k].1);
      }
    }

    method UnsetEnv(name: string, sent: bool)
      modifies this
      ensures vars == if sent then Drop(old(vars), name) else old(vars)
    {
      vars := if sent then Drop(vars, name) else vars;
    }
  }

  class Environ {
    const deployment: Deployment
    var envs: Option<map<string, Var>>

    constructor (deployment: Deployment)
      ensures this.deployment == deployment && State() == View(deployment.vars, None)
    {
      this.deployment := deployment;
      envs := None;
    }

    function State(): View
      reads this, deployment
    {
      View(deployment.vars, envs)
    }

    /** The first kind of variable whose pattern matches the line. */
    static method Recognise(line: string) returns (parsed: Option<(string, Var)>)
      ensures parsed == ParseLine(line)
    {
      KindsAreParseLine(line);
      for kind := 0 to 3
        invariant forall j :: 0 <= j < kind ==> TryKind(j, line).None?
      {
        parsed := TryKind(kind, line);
        if parsed.Some? { return; }
      }
      return None;
    }

    /** The cache is empty before the listing is asked for, and stays so when that raises. */
    method Refresh(listed: bool) returns (raised: bool)
      modifies this
      ensures raised == !listed
      ensures envs == Some(if listed then Parsed(deployment.header, deployment.vars) else map[])
    {
      envs := Some(map[]);
      var out := deployment.List(listed);
      if out.None? { return true; }
      var lines := Split(out.value, '\n');
      for i := 0 to |lines|
        invariant envs == Some(Collect(lines[..i]))
      {
        var parsed := Recognise(lines[i]);
        assert lines[..i + 1][..i] == lines[..i];
        if parsed.Some? {
          envs := Some(envs.value[parsed.value.0 := parsed.value.1]);
        }
      }
      assert lines[..|lines|] == lines;
      return false;
    }

    /** The `_envs` property. */
    method Envs(listed: bool) returns (raised: bool)
      modifies this
      ensures State() == Look(ListerOf(deployment.header), old(State()), listed)
      ensures raised <==> LookRaises(old(State()), listed)
    {
      if envs.None? {
        raised := Refresh(listed);
        return;
      }
      return false;
    }

    /** `secret` and `configMap` are the objects on the server, by name and key. */
    method Get(name: string, secret: (string, string) -> Option<string>,
            configMap: (string, string) -> Option<string>, a: Answers)
      returns (r: Result<string, EnvError>)
      modifies this
      ensures var (next, found) := ReadVar(ListerOf(deployment.header), old(State()), name, a);
        State() == next && r == if found.Ok? then ValueOf(found.value, secret, configMap) else Err(found.error)
    {
      var raised := Envs(a.listed);
      if raised { return Err(Unreachable); }
      if name !in envs.value { return Err(KeyError); }
      match envs.value[name] {
        case Plain(value) => return Ok(value);
        case FromSecret(o, key) =>
          var found := secret(o, key);
          return if found.Some? then Ok(found.value) else Err(KeyError);
        case FromConfigMap(o, key) =>
          var found := configMap(o, key);
          return if found.Some? then Ok(found.value) else Err(KeyError);
      }
    }

    method Set(name: string, v: EnvValue, a: Answers) returns (r: Result<bool, EnvError>)
      modifies this, deployment
      ensures (State(), r) == WriteVars(ListerOf(deployment.header), old(State()), SetOp(name, v), a)
    {
      var raised := Envs(a.listed);
      if raised { return Err(Unreachable); }
      if name in envs.value {
        if !envs.value[name].Plain? { return Err(NotImplemented); }
        deployment.SetEnv([(name, Shown(v))], a.sent);
      } else {
        deployment.SetEnv([(name, Lowered(v))], a.sent);
      }
      OnePut(old(deployment.vars), name, Shown(v));
      OnePut(old(deployment.vars), name, Lowered(v));
      if !a.sent || !a.waited { return Err(Unreachable); }
      envs := None;
      return Ok(true);
    }

    /** Several variables in one request; references are overwritten without refusal. */
    method SetMany(values: seq<(string, EnvValue)>, a: Answers) returns (r: Result<bool, EnvError>)
      modifies this, deployment
      ensures (State(), r) == WriteVars(ListerOf(deployment.header), old(State()), SetManyOp(values), a)
    {
      var args: seq<(string, string)> := [];
      for k := 0 to |values|
        invariant args == LoweredAll(values[..k])
        invariant State() == old(State())
      {
        args := args + [(values[k].0, Lowered(values[k].1))];
      }
      assert values[..|values|] == values;
      deployment.SetEnv(args, a.sent);
      if !a.sent || !a.waited { return Err(Unreachable); }
      envs := None;
      return Ok(true);
    }

    method Delete(name: string, a: Answers) returns (r: Result<bool, EnvError>)
      modifies this, deployment
      ensures (State(), r) == WriteVars(ListerOf(deployment.header), old(State()), DeleteOp(name), a)
    {
      var raised := Envs(a.listed);
      if raised { return Err(Unreachable); }
      if name !in envs.value { return Err(KeyError); }
      if !envs.value[name].Plain? { return Err(NotImplemented); }
      deployment.UnsetEnv(name, a.sent);
      if !a.sent || !a.waited { return Err(Unreachable); }
      envs := None;
      return Ok(true);
    }
  }
}
