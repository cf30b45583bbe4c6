/** The factory fixtures of `testsuite/tests/conftest.py` as they run: hooks called in loops
    that may raise, lists and finalizer stacks that grow, and teardown walking them. */
module Fixtures {
  import opened Wrappers
  import opened Json
  import opened FixtureRuns

  type Params = map<string, Value>

  /** The lifecycle hooks the factories look for. */
  datatype HookName =
    | BeforeService | BeforeProxy | BeforeApplication | BeforeBackend
    | OnServiceCreate | OnApplicationCreate | OnBackendCreate
    | OnServiceDelete | OnApplicationDelete | OnBackendDelete

  /** An object with some of the lifecycle hooks. A `before_*` hook returns new parameters or
      raises (None), an `on_*_create` hook does or does not raise, and for an `on_*_delete` hook
      it matters what it raises. */
  datatype Hook = Hook(before: map<HookName, Params -> Option<Params>>, on: map<HookName, bool>,
                       onDelete: map<HookName, HookEnd>)

  /** `hasattr` and `getattr`: what each hook has under a name, if anything. */
  function Lookup<T>(name: HookName, table: map<HookName, T>): Option<T> {
    if name in table then Some(table[name]) else None
  }

  /** Those that are there, in order. */
  function Present<T>(found: seq<Option<T>>): seq<T> {
    if found == [] then [] else (if found[0].Some? then [found[0].value] else []) + Present(found[1..])
  }

  /** `_select_hooks` */
  function SelectBefore(name: HookName, hooks: seq<Hook>): seq<Params -> Option<Params>> {
    Present(seq(|hooks|, i requires 0 <= i < |hooks| => Lookup(name, hooks[i].before)))
  }

  function SelectOn(name: HookName, hooks: seq<Hook>): seq<bool> {
    Present(seq(|hooks|, i requires 0 <= i < |hooks| => Lookup(name, hooks[i].on)))
  }

  function SelectDelete(name: HookName, hooks: seq<Hook>): seq<HookEnd> {
    Present(seq(|hooks|, i requires 0 <= i < |hooks| => Lookup(name, hooks[i].onDelete)))
  }

  /** The places before this one where something is there. */
  function FoundBefore<T>(found: seq<Option<T>>, n: nat): set<nat>
    requires n <= |found|
  {
    set j: nat | j < n && found[j].Some?
  }

  lemma {:induction false} PresentConcat<T>(a: seq<Option<T>>, b: seq<Option<T>>)
    ensures Present(a + b) == Present(a) + Present(b)
  {
    if a == [] {
      assert a + b == b && Present(a) == [];
    } else {
      var first := if a[0].Some? then [a[0].value] else [];
      assert (a + b)[0] == a[0] && (a + b)[1..] == a[1..] + b;
      PresentConcat(a[1..], b);
      assert Present(a + b) == first + Present(a[1..] + b);
      assert Present(a) == first + Present(a[1..]);
    }
  }

  lemma {:induction false} PresentOne<T>(one: Option<T>)
    ensures Present([one]) == if one.Some? then [one.value] else []
  {
    assert [one][1..] == [];
  }

  lemma {:induction false} PresentCount<T>(found: seq<Option<T>>, n: nat)
    requires n <= |found|
    ensures |Present(found[..n])| == |FoundBefore(found, n)|
  {
    if n > 0 {
      var m := n - 1;
      PresentCount(found, m);
      assert found[..n] == found[..m] + [found[m]];
      PresentConcat(found[..m], [found[m]]);
      PresentOne(found[m]);
      assert FoundBefore(found, n) == FoundBefore(found, m) + if found[m].Some? then {m} else {};
    }
  }

  /** As many hooks are selected as have the name, and hook k, when it has it, comes after those of
      them before it. */
  lemma {:induction false} PresentExact<T>(found: seq<Option<T>>, k: nat)
    requires k < |found|
    ensures |Present(found)| == |FoundBefore(found, |found|)|
    ensures found[k].Some? ==>
      |FoundBefore(found, k)| < |Present(found)| && Present(found)[|FoundBefore(found, k)|] == found[k].value
  {
    PresentCount(found, |found|);
    PresentCount(found, k);
    assert found[..|found|] == found && found == found[..k] + found[k..];
    PresentConcat(found[..k], found[k..]);
  }

  /** Hook k, when it has the name, is called after as many as have it before k; nobody else is. */
  lemma {:induction false} SelectBeforeExact(name: HookName, hooks: seq<Hook>, k: nat)
    requires k < |hooks|
    ensures |SelectBefore(name, hooks)| == |set j: nat | j < |hooks| && name in hooks[j].before|
    ensures name in hooks[k].before ==>
      var place := |set j: nat | j < k && name in hooks[j].before|;
      place < |SelectBefore(name, hooks)| && SelectBefore(name, hooks)[place] == hooks[k].before[name]
  {
    var found := seq(|hooks|, i requires 0 <= i < |hooks| => Lookup(name, hooks[i].before));
    PresentExact(found, k);
    assert FoundBefore(found, k) == set j: nat | j < k && name in hooks[j].before;
    assert FoundBefore(found, |found|) == set j: nat | j < |hooks| && name in hooks[j].before;
  }

  lemma {:induction false} SelectOnExact(name: HookName, hooks: seq<Hook>, k: nat)
    requires k < |hooks|
    ensures |SelectOn(name, hooks)| == |set j: nat | j < |hooks| && name in hooks[j].on|
    ensures name in hooks[k].on ==>
      var place := |set j: nat | j < k && name in hooks[j].on|;
      place < |SelectOn(name, hooks)| && SelectOn(name, hooks)[place] == hooks[k].on[name]
  {
    var found := seq(|hooks|, i requires 0 <= i < |hooks| => Lookup(name, hooks[i].on));
    PresentExact(found, k);
    assert FoundBefore(found, k) == set j: nat | j < k && name in hooks[j].on;
    assert FoundBefore(found, |found|) == set j: nat | j < |hooks| && name in hooks[j].on;
  }

  lemma {:induction false} SelectDeleteExact(name: HookName, hooks: seq<Hook>, k: nat)
    requires k < |hooks|
    ensures |SelectDelete(name, hooks)| == |set j: nat | j < |hooks| && name in hooks[j].onDelete|
    ensures name in hooks[k].onDelete ==>
      var place := |set j: nat | j < k && name in hooks[j].onDelete|;
      place < |SelectDelete(name, hooks)| && SelectDelete(name, hooks)[place] == hooks[k].onDelete[name]
  {
    var found := seq(|hooks|, i requires 0 <= i < |hooks| => Lookup(name, hooks[i].onDelete));
    PresentExact(found, k);
    assert FoundBefore(found, k) == set j: nat | j < k && name in hooks[j].onDelete;
    assert FoundBefore(found, |found|) == set j: nat | j < |hooks| && name in hooks[j].onDelete;
  }

  /** Each hook gets what the one before it returned. */
  function Thread(selected: seq<Params -> Option<Params>>, params: Params): Option<Params> {
    if selected == [] then Some(params)
    else
      var next := selected[0](params);
      if next.None? then None else Thread(selected[1..], next.value)
  }

  /** What the hooks were given and returned, one after the other. */
  ghost predicate IsTrace(selected: seq<Params -> Option<Params>>, params: Params, trace: seq<Params>) {
    && |trace| == |selected| + 1 && trace[0] == params
    && forall k :: 0 <= k < |selected| ==> selected[k](trace[k]) == Some(trace[k + 1])
  }

  lemma {:induction false} ThreadTraced(selected: seq<Params -> Option<Params>>, params: Params) returns (trace: seq<Params>)
    requires Thread(selected, params).Some?
    ensures IsTrace(selected, params, trace) && Thread(selected, params) == Some(trace[|selected|])
  {
    if selected == [] {
      trace := [params];
    } else {
      var inner := ThreadTraced(selected[1..], selected[0](params).value);
      trace := [params] + inner;
      forall k | 0 <= k < |selected| ensures selected[k](trace[k]) == Some(trace[k + 1]) {
        if k > 0 { assert selected[1..][k - 1] == selected[k]; }
      }
    }
  }

  lemma {:induction false} TraceThreads(selected: seq<Params -> Option<Params>>, params: Params, trace: seq<Params>)
    requires IsTrace(selected, params, trace)
    ensures Thread(selected, params) == Some(trace[|selected|])
  {
    if selected != [] {
      assert selected[0](trace[0]) == Some(trace[0 + 1]);
      assert forall k :: 0 <= k < |selected| - 1 ==> selected[1..][k] == selected[k + 1];
      TraceThreads(selected[1..], trace[1], trace[1..]);
    }
  }

  /** It returns what the last hook returned when each returned given what the one before it did, and
      raises when there is no such way through. */
  lemma {:induction false} ThreadExact(selected: seq<Params -> Option<Params>>, params: Params)
    ensures Thread(selected, params).Some? <==> exists trace :: IsTrace(selected, params, trace)
    ensures forall trace :: IsTrace(selected, params, trace) ==> Thread(selected, params) == Some(trace[|selected|])
  {
    forall trace | IsTrace(selected, params, trace) ensures Thread(selected, params) == Some(trace[|selected|]) {
      TraceThreads(selected, params, trace);
    }
    if Thread(selected, params).Some? {
      var trace := ThreadTraced(selected, params);
    }
  }

  /** Every hook returns when given these parameters. */
  ghost predicate AllReturn(selected: seq<Params -> Option<Params>>, params: Params) {
    forall k :: 0 <= k < |selected| ==> selected[k](params).Some?
  }

  method RunBefore(name: HookName, hooks: seq<Hook>, params: Params) returns (r: Option<Params>)
    ensures r == Thread(SelectBefore(name, hooks), params)
  {
    var selected := SelectBefore(name, hooks);
    var current := params;
    for k := 0 to |selected|
      invariant Thread(selected[k..], current) == Thread(selected, params)
    {
      var next := selected[k](current);
      assert selected[k..][1..] == selected[k + 1..];
      if next.None? { return None; }
      current := next.value;
    }
    return Some(current);
  }

  /** The `on_*_create` loops: the first hook that raises ends the call. */
  method RunOn(name: HookName, hooks: seq<Hook>) returns (raised: bool)
    ensures raised <==> true in SelectOn(name, hooks)
  {
    var selected := SelectOn(name, hooks);
    for k := 0 to |selected|
      invariant forall j :: 0 <= j < k ==> !selected[j]
    {
      if selected[k] { return true; }
    }
    return false;
  }

  /** The `on_*_delete` loops inside the finalizers: what `except Exception` catches is passed
      over, and the rest leaves the finalizer before its deletion. */
  method RunOnDelete(hooks: seq<HookEnd>) returns (escaped: bool)
    ensures escaped <==> Escapes in hooks
  {
    for k := 0 to |hooks|
      invariant forall j :: 0 <= j < k ==> hooks[j] != Escapes
    {
      match hooks[k] {
        case Returns =>
        case Raises =>
        case Escapes => return true;
      }
    }
    return false;
  }

  /** What the server answers while a service is made. */
  datatype ServiceAnswers = ServiceAnswers(created: bool, usages: seq<bool>, updated: bool, deployed: bool)

  /** The backends attached before the first refusal. */
  function Attached(backends: seq<nat>, answers: seq<bool>, live: set<nat>): (r: seq<nat>)
    requires |answers| == |backends|
    ensures |r| <= |backends| && forall b :: b in r ==> b in live
  {
    if backends == [] || !answers[0] || backends[0] !in live then []
    else [backends[0]] + Attached(backends[1..], answers[1..], live)
  }

  lemma {:induction false} AttachedPrefix(backends: seq<nat>, answers: seq<bool>, live: set<nat>, i: nat)
    requires |answers| == |backends| && i <= |backends|
    requires forall j :: 0 <= j < i ==> answers[j] && backends[j] in live
    requires i == |backends| || !answers[i] || backends[i] !in live
    ensures Attached(backends, answers, live) == backends[..i]
  {
    if i > 0 {
      AttachedPrefix(backends[1..], answers[1..], live, i - 1);
      assert backends[..i] == [backends[0]] + backends[1..][..i - 1];
    }
  }

  ghost predicate SameRegistries(a: World, b: World) {
    a.serviceFins == b.serviceFins && a.planList == b.planList && a.appFins == b.appFins && a.backendFins == b.backendFins
  }

  lemma {:induction false} RegistriesStay(w: World, ds: seq<Deletion>)
    ensures SameRegistries(w, DeleteAll(w, ds))
    decreases |ds|
  {
    if ds != [] {
      RegistriesStay(Delete(w, ds[0]), ds[1..]);
    }
  }

  lemma {:induction false} SameFinalizers(a: World, b: World, f: Fixture)
    requires SameRegistries(a, b)
    ensures Finalizers(a, f) == Finalizers(b, f)
  {
  }

  lemma {:induction false} MakeServiceAttached(w: World, autoclean: bool, attached: seq<nat>, hooks: seq<HookEnd>)
    ensures Perform(w, MakeService(autoclean, true, attached, hooks)) ==
            Perform(w, MakeService(autoclean, true, [], hooks)).(usages := w.usages + UsagesOf(w.next, attached))
  {
  }

  /** The requests for one object, and what they leave. */
  function Own(f: Fixture, id: nat): seq<Deletion> {
    if f.Backends? then [SweepUsages(id), DeleteBackend(id)] else [OwnDeletion(f, id)]
  }

  function Without(w: World, f: Fixture, id: nat): World {
    if f.Backends? then Delete(Delete(w, SweepUsages(id)), DeleteBackend(id)) else Delete(w, OwnDeletion(f, id))
  }

  lemma {:induction false} OwnLeaves(w: World, f: Fixture, id: nat)
    ensures DeleteAll(w, Own(f, id)) == Without(w, f, id)
  {
    var ds := Own(f, id);
    if f.Backends? {
      var rest := ds[1..];
      assert rest == [DeleteBackend(id)] && rest[1..] == [];
      assert DeleteAll(Delete(w, ds[0]), rest) == DeleteAll(Delete(Delete(w, ds[0]), rest[0]), rest[1..]);
    } else {
      assert ds[1..] == [];
      assert DeleteAll(w, ds) == DeleteAll(Delete(w, ds[0]), ds[1..]);
    }
  }

  lemma {:induction false} DeletionsCons(f: Fixture, ids: seq<nat>)
    requires ids != []
    ensures Deletions(f, ids) == Own(f, ids[0]) + Deletions(f, ids[1..])
  {
    if !f.Backends? {
      var whole, parts := Deletions(f, ids), Own(f, ids[0]) + Deletions(f, ids[1..]);
      assert |whole| == |parts|;
      forall i | 0 <= i < |ids| ensures whole[i] == parts[i] {
      }
    }
  }

  lemma {:induction false} ReversedAppend(s: seq<nat>, x: nat)
    ensures Reversed(s + [x])[0] == x && Reversed(s + [x])[1..] == Reversed(s)
  {
  }

  /** The finalizer registered last goes first. */
  lemma {:induction false} LastFinalizer(w: World, f: Fixture, fins: seq<Finalizer>, refused: set<nat>)
    requires fins != []
    ensures var last, before := fins[|fins| - 1], fins[..|fins| - 1];
      DeleteAll(w, Deletions(f, Reversed(Going(Accepted(fins, refused))))) ==
      DeleteAll(if Escapes in last.hooks || last.id in refused then w else Without(w, f, last.id),
                Deletions(f, Reversed(Going(Accepted(before, refused)))))
  {
    var last, before := fins[|fins| - 1], Accepted(fins[..|fins| - 1], refused);
    if last.id in refused {
      assert before + [] == before;
    } else {
      assert (before + [last])[..|before|] == before;
      if Escapes in last.hooks {
        assert Going(before) + [] == Going(before);
      } else {
        ReversedAppend(Going(before), last.id);
        DeletionsCons(f, Reversed(Going(before + [last])));
        SafeConcat(w, Own(f, last.id), Deletions(f, Reversed(Going(before))));
        OwnLeaves(w, f, last.id);
      }
    }
  }

  lemma {:induction false} NoneRefused(fins: seq<Finalizer>)
    ensures Accepted(fins, {}) == fins
  {
    if fins != [] {
      NoneRefused(fins[..|fins| - 1]);
      assert fins == fins[..|fins| - 1] + [fins[|fins| - 1]];
    }
  }

  /** Some attempt of a retried deletion meets no error. */
  predicate GetsThrough(failures: seq<Option<nat>>) {
    |failures| >= 14 && exists i :: 0 <= i < 14 && failures[i].None?
  }

  class Factories {
    var next: nat
    var services: set<nat>
    var plans: map<nat, nat>
    var apps: map<nat, nat>
    var backends: set<nat>
    var usages: set<(nat, nat)>
    var serviceFins: seq<Finalizer>
    var orphans: seq<Finalizer>
    var planList: seq<nat>
    var appFins: seq<Finalizer>
    var backendFins: seq<Finalizer>
    ghost var auto: set<nat>
    const skipCleanup: bool

    ghost function State(): World
      reads this
    {
      World(skipCleanup, next, services, plans, apps, backends, usages, serviceFins, orphans,
            if skipCleanup then [] else planList, appFins, backendFins, auto)
    }

    constructor (skipCleanup: bool)
      ensures State() == Empty(skipCleanup) && this.skipCleanup == skipCleanup
    {
      this.skipCleanup := skipCleanup;
      next, services, plans, apps, backends, usages := 0, {}, map[], map[], {}, {};
      serviceFins, orphans, planList, appFins, backendFins, auto := [], [], [], [], [], {};
    }

    /** The create request succeeded: from here on the finalizer is in place. */
    method RegisterService(autoclean: bool, deletes: seq<HookEnd>) returns (svc: nat)
      modifies this
      ensures svc == old(next) && State() == Perform(old(State()), MakeService(autoclean, true, [], deletes))
    {
      svc := next;
      next, services := next + 1, services + {svc};
      auto := if autoclean && !skipCleanup then auto + {svc} else auto;
      if !skipCleanup {
        if autoclean {
          serviceFins := serviceFins + [Finalizer(svc, deletes)];
        } else {
          orphans := orphans + [Finalizer(svc, deletes)];
        }
      }
      assert UsagesOf(svc, []) == {};
    }

    method AttachUsages(svc: nat, wanted: seq<nat>, answers: seq<bool>) returns (all: bool)
      requires |answers| == |wanted|
      modifies this`usages
      ensures var attached := Attached(wanted, answers, backends);
        usages == old(usages) + UsagesOf(svc, attached) && (all <==> |attached| == |wanted|)
    {
      for i := 0 to |wanted|
        invariant forall j :: 0 <= j < i ==> answers[j] && wanted[j] in backends
        invariant usages == old(usages) + UsagesOf(svc, wanted[..i])
      {
        if !answers[i] || wanted[i] !in backends {
          AttachedPrefix(wanted, answers, backends, i);
          return false;
        }
        usages := usages + {(svc, wanted[i])};
        assert wanted[..i + 1] == wanted[..i] + [wanted[i]];
        assert UsagesOf(svc, wanted[..i + 1]) == UsagesOf(svc, wanted[..i]) + {(svc, wanted[i])};
      }
      AttachedPrefix(wanted, answers, backends, |wanted|);
      assert wanted[..|wanted|] == wanted;
      return true;
    }

    /** The creation with its usages, up to the first one that is refused. */
    method RegisterAndAttach(autoclean: bool, deletes: seq<HookEnd>, wanted: seq<nat>, answers: seq<bool>)
      returns (svc: nat, all: bool)
      requires |answers| == |wanted|
      modifies this
      ensures var attached := Attached(wanted, answers, old(backends));
        && State() == Perform(old(State()), MakeService(autoclean, true, attached, deletes))
        && svc == old(next) && svc in services && (all <==> |attached| == |wanted|)
    {
      svc := RegisterService(autoclean, deletes);
      ghost var created := State();
      all := AttachUsages(svc, wanted, answers);
      MakeServiceAttached(old(State()), autoclean, Attached(wanted, answers, backends), deletes);
      assert State() == created.(usages := usages);
    }

    method CustomService(params: Params, proxyParams: Params, wanted: seq<nat>, autoclean: bool,
            hooks: seq<Hook>, api: ServiceAnswers)
      returns (r: Option<nat>)
      requires |api.usages| == |wanted|
      modifies this
      ensures var attached := Attached(wanted, api.usages, old(backends));
        var created := Thread(SelectBefore(BeforeService, hooks), params).Some? && api.created;
        var proxy := Thread(SelectBefore(BeforeProxy, hooks), proxyParams);
        && State() == Perform(old(State()), MakeService(autoclean, created, attached, SelectDelete(OnServiceDelete, hooks)))
        && (r.Some? <==>
              created && |attached| == |wanted| && proxy.Some? && (proxy.value != map[] ==> api.updated) && api.deployed &&
              true !in SelectOn(OnServiceCreate, hooks))
        && (r.Some? ==> r.value == old(next) && r.value in services)
    {
      var threaded := RunBefore(BeforeService, hooks, params);
      if threaded.None? || !api.created { return None; }
      var svc, all := RegisterAndAttach(autoclean, SelectDelete(OnServiceDelete, hooks), wanted, api.usages);
      if !all { return None; }
      var proxy := RunBefore(BeforeProxy, hooks, proxyParams);
      if proxy.None? { return None; }
      if proxy.value != map[] && !api.updated { return None; }
      if !api.deployed { return None; }
      var raised := RunOn(OnServiceCreate, hooks);
      if raised { return None; }
      return Some(svc);
    }

    /** Without a service one is made first, autocleaned and without hooks. */
    method CustomAppPlan(service: Option<nat>, params: Params, proxyParams: Params, autoclean: bool,
            api: ServiceAnswers, created: bool)
      returns (r: Option<nat>)
      requires api.usages == []
      modifies this
      ensures service.Some? ==>
        State() == Perform(old(State()), MakePlan(service.value, autoclean, created && service.value in old(services))) &&
        (r == if created && service.value in old(services) then Some(old(next)) else None)
      ensures service.None? ==>
        var w := Perform(old(State()), MakeService(true, api.created, [], []));
        && State() == (if r.Some? then Perform(w, MakePlan(old(next), autoclean, true)) else w)
        && (r.Some? <==> api.created && (proxyParams != map[] ==> api.updated) && api.deployed && created)
        && (r.Some? ==> r.value == old(next) + 1)
    {
      var svc := service;
      if svc.None? {
        svc := CustomService(params, proxyParams, [], true, [], api);
        if svc.None? { return None; }
      }
      if !created || svc.value !in services { return None; }
      var plan := RegisterPlan(svc.value, autoclean);
      return Some(plan);
    }

    /** The list grows in any case; with cleanup skipped no finalizer ever walks it. */
    method RegisterPlan(service: nat, autoclean: bool) returns (plan: nat)
      modifies this
      ensures plan == old(next) && State() == Perform(old(State()), MakePlan(service, autoclean, true))
    {
      plan := next;
      next, plans := next + 1, plans[plan := service];
      auto := if autoclean && !skipCleanup then auto + {plan} else auto;
      if autoclean {
        planList := planList + [plan];
      }
    }

    method RegisterApplication(plan: nat, autoclean: bool, deletes: seq<HookEnd>) returns (app: nat)
      modifies this
      ensures app == old(next) && State() == Perform(old(State()), MakeApplication(plan, autoclean, true, deletes))
    {
      app := next;
      next, apps := next + 1, apps[app := plan];
      auto := if autoclean && !skipCleanup then auto + {app} else auto;
      if autoclean && !skipCleanup {
        appFins := appFins + [Finalizer(app, deletes)];
      }
    }

    method RegisterBackend(autoclean: bool, deletes: seq<HookEnd>) returns (backend: nat)
      modifies this
      ensures backend == old(next) && State() == Perform(old(State()), MakeBackend(autoclean, true, deletes))
    {
      backend := next;
      next, backends := next + 1, backends + {backend};
      auto := if autoclean && !skipCleanup then auto + {backend} else auto;
      if autoclean && !skipCleanup {
        backendFins := backendFins + [Finalizer(backend, deletes)];
      }
    }

    method CustomApplication(plan: nat, params: Params, autoclean: bool, hooks: seq<Hook>, answered: bool)
      returns (r: Option<nat>)
      modifies this
      ensures var created := Thread(SelectBefore(BeforeApplication, hooks), params).Some? && answered && plan in old(plans);
        && State() == Perform(old(State()), MakeApplication(plan, autoclean, created, SelectDelete(OnApplicationDelete, hooks)))
        && (r.Some? <==> created && true !in SelectOn(OnApplicationCreate, hooks))
        && (r.Some? ==> r.value == old(next))
    {
      var threaded := RunBefore(BeforeApplication, hooks, params);
      if threaded.None? || !answered || plan !in plans { return None; }
      var app := RegisterApplication(plan, autoclean, SelectDelete(OnApplicationDelete, hooks));
      var raised := RunOn(OnApplicationCreate, hooks);
      if raised { return None; }
      return Some(app);
    }

    /** Unlike the other factories this one ignores what its `before_backend` hooks return. */
    method CustomBackend(params: Params, autoclean: bool, hooks: seq<Hook>, answered: bool) returns (r: Option<nat>)
      modifies this
      ensures var selected := SelectBefore(BeforeBackend, hooks);
        var created := AllReturn(selected, params) && answered;
        && State() == Perform(old(State()), MakeBackend(autoclean, created, SelectDelete(OnBackendDelete, hooks)))
        && (r.Some? <==> created && true !in SelectOn(OnBackendCreate, hooks))
        && (r.Some? ==> r.value == old(next))
    {
      var selected := SelectBefore(BeforeBackend, hooks);
      for k := 0 to |selected|
        invariant forall j :: 0 <= j < k ==> selected[j](params).Some?
        invariant State() == old(State())
      {
        if selected[k](params).None? {
          assert !AllReturn(selected, params);
          return None;
        }
      }
      if !answered { return None; }
      var backend := RegisterBackend(autoclean, SelectDelete(OnBackendDelete, hooks));
      var raised := RunOn(OnBackendCreate, hooks);
      if raised { return None; }
      return Some(backend);
    }

    method DeleteOne(d: Deletion)
      modifies this
      ensures State() == Delete(old(State()), d)
    {
      match d
      case DeleteApplication(id) => apps := apps - {id};
      case DeletePlan(id) => plans := plans - {id};
      case DeleteService(id) =>
        services := services - {id};
        usages := set u | u in usages && u.0 != id;
      case SweepUsages(id) => usages := set u | u in usages && u.1 != id;
      case DeleteBackend(id) => backends := backends - {id};
    }

    /** The one plan finalizer walks its list up to the first plan whose deletion is refused. */
    method FinishPlans(refused: set<nat>)
      modifies this
      ensures State() == DeleteAll(old(State()), Finalizers(Outcome(old(State()), refused), Plans))
    {
      ghost var start := State();
      ghost var all := Finalizers(Outcome(start, refused), Plans);
      var ids := if skipCleanup then [] else planList;
      UntilRefusedPrefix(ids, refused);
      ghost var gone := UntilRefused(ids, refused);
      for k := 0 to |ids|
        invariant k <= |gone| == |all| && DeleteAll(start, all) == DeleteAll(State(), all[k..])
      {
        if ids[k] in refused {
          assert k == |gone|;
          return;
        }
        assert all[k..][0] == DeletePlan(ids[k]) && all[k..][1..] == all[k + 1..];
        DeleteOne(DeletePlan(ids[k]));
      }
    }

    /** A fixture's finalizers, the last registered first. Each runs its delete-side hooks and
        then requests the deletion; one that an exception leaves does not stop the others. */
    method FinishEach(f: Fixture, fins: seq<Finalizer>, retries: nat -> seq<Option<nat>>, refused: set<nat>)
      requires !f.Plans? && forall id :: GetsThrough(retries(id))
      modifies this
      ensures State() == DeleteAll(old(State()), Deletions(f, Reversed(Going(Accepted(fins, refused)))))
    {
      ghost var end := DeleteAll(State(), Deletions(f, Reversed(Going(Accepted(fins, refused)))));
      var left := fins;
      while left != []
        invariant end == DeleteAll(State(), Deletions(f, Reversed(Going(Accepted(left, refused)))))
        decreases |left|
      {
        LastFinalizer(State(), f, left, refused);
        var fin := left[|left| - 1];
        left := left[..|left| - 1];
        var escaped := RunOnDelete(fin.hooks);
        if !escaped && fin.id !in refused {
          DeleteObject(f, fin.id, retries);
        }
      }
    }

    /** The end of a finalizer. */
    method DeleteObject(f: Fixture, id: nat, retries: nat -> seq<Option<nat>>)
      requires GetsThrough(retries(id))
      modifies this
      ensures State() == Without(old(State()), f, id)
    {
      if f.Backends? {
        var deleted, attempts := BackendDelete(id, retries(id));
      } else {
        DeleteOne(OwnDeletion(f, id));
      }
    }

    method Finish(f: Fixture, retries: nat -> seq<Option<nat>>, refused: set<nat>)
      requires forall id :: GetsThrough(retries(id))
      modifies this
      ensures State() == DeleteAll(old(State()), Finalizers(Outcome(old(State()), refused), f))
    {
      match f
      case Applications => FinishEach(f, appFins, retries, refused);
      case Plans => FinishPlans(refused);
      case Services => FinishEach(f, serviceFins, retries, refused);
      case Backends =>
        NoneRefused(backendFins);
        FinishEach(f, backendFins, retries, {});
    }

    /** The whole module's teardown. `refused` are the applications, plans and services whose
        deletion raises, and `retries` holds the answers to each backend's deletion. */
    method TearDown(order: seq<Fixture>, retries: nat -> seq<Option<nat>>, refused: set<nat>)
      requires forall id :: GetsThrough(retries(id))
      modifies this
      ensures State() == DeleteAll(old(State()), Teardown(Outcome(old(State()), refused), order))
    {
      ghost var start := State();
      ghost var o := Outcome(start, refused);
      for k := 0 to |order|
        invariant DeleteAll(start, Teardown(o, order)) == DeleteAll(State(), Teardown(o, order[k..]))
        invariant SameRegistries(start, State())
      {
        assert order[k..][0] == order[k] && order[k..][1..] == order[k + 1..];
        SafeConcat(State(), Finalizers(o, order[k]), Teardown(o, order[k + 1..]));
        SameFinalizers(o, Outcome(State(), refused), order[k]);
        RegistriesStay(State(), Finalizers(o, order[k]));
        Finish(order[k], retries, refused);
      }
    }

    /** `_backend_delete` under its retry: each attempt lists the usages anew, deletes them one
        by one and then the backend; `failures[i]` is the request of attempt i that fails. The
        backend is only ever deleted with no usage left, and given up on after 14 attempts. */
    method BackendDelete(id: nat, failures: seq<Option<nat>>) returns (deleted: bool, attempts: nat)
      requires |failures| >= 14
      modifies this`usages, this`backends
      ensures attempts <= 14
      ensures deleted ==> State() == Delete(Delete(old(State()), SweepUsages(id)), DeleteBackend(id))
      ensures !deleted ==> backends == old(backends) && attempts == 14
      ensures GetsThrough(failures) ==> deleted
      ensures forall u: (nat, nat) :: u.1 != id ==> (u in usages <==> u in old(usages))
      ensures usages <= old(usages)
    {
      attempts := 0;
      while attempts < 14
        invariant attempts <= 14 && backends == old(backends) && usages <= old(usages)
        invariant forall i :: 0 <= i < attempts ==> failures[i].Some?
        invariant forall u: (nat, nat) :: u.1 != id ==> (u in usages <==> u in old(usages))
      {
        var through := SweepAttempt(id, failures[attempts]);
        attempts := attempts + 1;
        if through {
          assert usages == set u | u in old(usages) && u.1 != id;
          backends := backends - {id};
          return true, attempts;
        }
      }
      return false, attempts;
    }

    /** One attempt up to the backend's own request: true when every request went through. */
    method SweepAttempt(id: nat, failure: Option<nat>) returns (through: bool)
      modifies this`usages
      ensures through ==> forall u :: u in usages ==> u.1 != id
      ensures failure.None? ==> through
      ensures forall u: (nat, nat) :: u.1 != id ==> (u in usages <==> u in old(usages))
      ensures usages <= old(usages)
    {
      var listed := set u | u in usages && u.1 == id;
      var requests := 0;
      while listed != {}
        invariant listed == set u | u in usages && u.1 == id
        invariant usages <= old(usages)
        invariant forall u: (nat, nat) :: u.1 != id ==> (u in usages <==> u in old(usages))
        decreases listed
      {
        if failure == Some(requests) { return false; }
        var usage :| usage in listed;
        usages, listed := usages - {usage}, listed - {usage};
        requests := requests + 1;
      }
      assert forall u :: u in usages && u.1 == id ==> u in listed;
      return failure != Some(requests);
    }
  }
}
