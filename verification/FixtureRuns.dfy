/** The resource factories of `testsuite/tests/conftest.py` as a state machine: what they
    create on the server, what they register for cleanup, and what teardown then deletes. */
module FixtureRuns {

  /** How a delete-side hook ends: it returns, it raises an Exception, which the finalizer
      catches, or something else, such as pytest's skip or fail outcomes, which it does not. */
  datatype HookEnd = Returns | Raises | Escapes

  /** The finalizer of an object, with the delete-side hooks selected for it. */
  datatype Finalizer = Finalizer(id: nat, hooks: seq<HookEnd>)

  /** Server objects have numbers; every object is created once. `auto` remembers which were
      asked to be cleaned. `serviceFins`, `appFins` and `backendFins` are finalizer stacks,
      `planList` the list the one plan finalizer walks, `orphans` the finalizers of services
      that are not autocleaned. With `skip`, the configuration's skip_cleanup, nothing is
      registered at all. */
  datatype World = World(
    skip: bool, next: nat,
    services: set<nat>, plans: map<nat, nat>, apps: map<nat, nat>, backends: set<nat>, usages: set<(nat, nat)>,
    serviceFins: seq<Finalizer>, orphans: seq<Finalizer>, planList: seq<nat>,
    appFins: seq<Finalizer>, backendFins: seq<Finalizer>,
    auto: set<nat>)

  function Empty(skip: bool): World {
    World(skip, 0, {}, map[], map[], {}, {}, [], [], [], [], [], {})
  }

  /** One call of a factory. `created` tells whether the creating request was reached and
      succeeded: a hook that raises earlier prevents it, one that raises later does not undo
      it. `attached` are the backends whose usages were created before anything raised, `hooks`
      what the delete-side hooks will do. */
  datatype Call =
    | MakeService(autoclean: bool, created: bool, attached: seq<nat>, hooks: seq<HookEnd>)
    | MakePlan(service: nat, autoclean: bool, created: bool)
    | MakeApplication(plan: nat, autoclean: bool, created: bool, hooks: seq<HookEnd>)
    | MakeBackend(autoclean: bool, created: bool, hooks: seq<HookEnd>)

  /** The server refuses children of objects it does not have. */
  predicate Possible(w: World, c: Call) {
    match c
    case MakeService(_, _, attached, _) => forall b :: b in attached ==> b in w.backends
    case MakePlan(service, _, created) => created ==> service in w.services
    case MakeApplication(plan, _, created, _) => created ==> plan in w.plans
    case MakeBackend(_, _, _) => true
  }

  function UsagesOf(service: nat, attached: seq<nat>): set<(nat, nat)> {
    set b | b in attached :: (service, b)
  }

  function Perform(w: World, c: Call): World {
    var cleaned := c.autoclean && !w.skip;
    var auto' := if cleaned then w.auto + {w.next} else w.auto;
    if !c.created then w
    else match c
      case MakeService(_, _, attached, hooks) =>
        var w' := w.(next := w.next + 1, services := w.services + {w.next}, auto := auto',
                     usages := w.usages + UsagesOf(w.next, attached));
        if cleaned then w'.(serviceFins := w.serviceFins + [Finalizer(w.next, hooks)])
        else if w.skip then w' else w'.(orphans := w.orphans + [Finalizer(w.next, hooks)])
      case MakePlan(service, _, _) =>
        var w' := w.(next := w.next + 1, plans := w.plans[w.next := service], auto := auto');
        if cleaned then w'.(planList := w.planList + [w.next]) else w'
      case MakeApplication(plan, _, _, hooks) =>
        var w' := w.(next := w.next + 1, apps := w.apps[w.next := plan], auto := auto');
        if cleaned then w'.(appFins := w.appFins + [Finalizer(w.next, hooks)]) else w'
      case MakeBackend(_, _, hooks) =>
        var w' := w.(next := w.next + 1, backends := w.backends + {w.next}, auto := auto');
        if cleaned then w'.(backendFins := w.backendFins + [Finalizer(w.next, hooks)]) else w'
  }

  predicate PossibleAll(w: World, calls: seq<Call>)
    decreases |calls|
  {
    calls == [] || (Possible(w, calls[0]) && PossibleAll(Perform(w, calls[0]), calls[1..]))
  }

  function PerformAll(w: World, calls: seq<Call>): World
    decreases |calls|
  {
    if calls == [] then w else PerformAll(Perform(w, calls[0]), calls[1..])
  }

  // ----- What holds in every state the factories reach

  predicate Distinct(s: seq<nat>) {
    forall i, j :: 0 <= i < j < |s| ==> s[i] != s[j]
  }

  function Elements(s: seq<nat>): set<nat> {
    set x | x in s
  }

  function Ids(fins: seq<Finalizer>): seq<nat> {
    seq(|fins|, i requires 0 <= i < |fins| => fins[i].id)
  }

  ghost predicate Registered(w: World) {
    var services, apps, backends := Ids(w.serviceFins), Ids(w.appFins), Ids(w.backendFins);
    && Distinct(services) && Distinct(w.planList) && Distinct(apps) && Distinct(backends)
    && Elements(services) <= w.services && Elements(w.planList) <= w.plans.Keys
    && Elements(apps) <= w.apps.Keys && Elements(backends) <= w.backends
    && w.auto == Elements(services) + Elements(w.planList) + Elements(apps) + Elements(backends)
  }

  ghost predicate Consistent(w: World) {
    && (forall p :: p in w.plans ==> w.plans[p] in w.services)
    && (forall a :: a in w.apps ==> w.apps[a] in w.plans)
    && (forall u :: u in w.usages ==> u.0 in w.services && u.1 in w.backends)
  }

  ghost predicate Numbered(w: World) {
    && (forall x :: x in w.services || x in w.plans || x in w.apps || x in w.backends ==> x < w.next)
    && w.services !! w.plans.Keys !! w.apps.Keys !! w.backends
  }

  ghost predicate Reachable(w: World) {
    Registered(w) && Consistent(w) && Numbered(w)
  }

  lemma {:induction false} AppendElement(s: seq<nat>, x: nat)
    ensures Elements(s + [x]) == Elements(s) + {x}
    ensures Distinct(s) && x !in s ==> Distinct(s + [x])
  {
  }

  lemma {:induction false} AppendFinalizer(fins: seq<Finalizer>, x: nat, hooks: seq<HookEnd>)
    ensures var ids := Ids(fins + [Finalizer(x, hooks)]);
      && ids == Ids(fins) + [x] && Elements(ids) == Elements(Ids(fins)) + {x}
      && (Distinct(Ids(fins)) && x !in Ids(fins) ==> Distinct(ids))
  {
    AppendElement(Ids(fins), x);
    assert Ids(fins + [Finalizer(x, hooks)]) == Ids(fins) + [x];
  }

  lemma {:induction false} MakeServiceKeeps(w: World, autoclean: bool, attached: seq<nat>, hooks: seq<HookEnd>)
    requires Reachable(w) && forall b :: b in attached ==> b in w.backends
    ensures Reachable(Perform(w, MakeService(autoclean, true, attached, hooks)))
  {
    AppendFinalizer(w.serviceFins, w.next, hooks);
    assert w.next !in w.services && w.next !in w.plans && w.next !in w.apps && w.next !in w.backends;
  }

  lemma {:induction false} MakePlanKeeps(w: World, service: nat, autoclean: bool)
    requires Reachable(w) && service in w.services
    ensures Reachable(Perform(w, MakePlan(service, autoclean, true)))
  {
    AppendElement(w.planList, w.next);
    assert w.next !in w.services && w.next !in w.plans && w.next !in w.apps && w.next !in w.backends;
  }

  lemma {:induction false} MakeApplicationKeeps(w: World, plan: nat, autoclean: bool, hooks: seq<HookEnd>)
    requires Reachable(w) && plan in w.plans
    ensures Reachable(Perform(w, MakeApplication(plan, autoclean, true, hooks)))
  {
    AppendFinalizer(w.appFins, w.next, hooks);
    assert w.next !in w.services && w.next !in w.plans && w.next !in w.apps && w.next !in w.backends;
  }

  lemma {:induction false} MakeBackendKeeps(w: World, autoclean: bool, hooks: seq<HookEnd>)
    requires Reachable(w)
    ensures Reachable(Perform(w, MakeBackend(autoclean, true, hooks)))
  {
    AppendFinalizer(w.backendFins, w.next, hooks);
    assert w.next !in w.services && w.next !in w.plans && w.next !in w.apps && w.next !in w.backends;
  }

  lemma {:induction false} PerformKeeps(w: World, c: Call)
    requires Reachable(w) && Possible(w, c)
    ensures Reachable(Perform(w, c))
  {
    if c.created {
      match c
      case MakeService(autoclean, _, attached, hooks) => MakeServiceKeeps(w, autoclean, attached, hooks);
      case MakePlan(service, autoclean, _) => MakePlanKeeps(w, service, autoclean);
      case MakeApplication(plan, autoclean, _, hooks) => MakeApplicationKeeps(w, plan, autoclean, hooks);
      case MakeBackend(autoclean, _, hooks) => MakeBackendKeeps(w, autoclean, hooks);
    }
  }

  lemma {:induction false} PerformAllKeeps(w: World, calls: seq<Call>)
    requires Reachable(w) && PossibleAll(w, calls)
    ensures Reachable(PerformAll(w, calls))
    decreases |calls|
  {
    if calls != [] {
      PerformKeeps(w, calls[0]);
      PerformAllKeeps(Perform(w, calls[0]), calls[1..]);
    }
  }

  // ----- Teardown

  datatype Fixture = Applications | Plans | Services | Backends

  /** A deletion request; `SweepUsages` stands for the loop of `_backend_delete` before the
      backend's own deletion. */
  datatype Deletion =
    | DeleteApplication(id: nat) | DeletePlan(id: nat) | DeleteService(id: nat)
    | SweepUsages(id: nat) | DeleteBackend(id: nat)

  function Reversed(s: seq<nat>): (r: seq<nat>)
    ensures |r| == |s| && forall i :: 0 <= i < |s| ==> r[i] == s[|s| - 1 - i]
  {
    seq(|s|, i requires 0 <= i < |s| => s[|s| - 1 - i])
  }

  function BackendDeletions(ids: seq<nat>): seq<Deletion> {
    if ids == [] then [] else [SweepUsages(ids[0]), DeleteBackend(ids[0])] + BackendDeletions(ids[1..])
  }

  /** The objects whose finalizer reaches its deletion: no hook of theirs escapes the catch. */
  function Going(fins: seq<Finalizer>): seq<nat> {
    if fins == [] then []
    else
      var last := fins[|fins| - 1];
      Going(fins[..|fins| - 1]) + if Escapes in last.hooks then [] else [last.id]
  }

  function OwnDeletion(f: Fixture, id: nat): Deletion {
    match f
    case Applications => DeleteApplication(id)
    case Plans => DeletePlan(id)
    case Services => DeleteService(id)
    case Backends => DeleteBackend(id)
  }

  function Deletions(f: Fixture, ids: seq<nat>): seq<Deletion> {
    if f.Backends? then BackendDeletions(ids)
    else seq(|ids|, i requires 0 <= i < |ids| => OwnDeletion(f, ids[i]))
  }

  /** What a fixture's finalizers delete, in registration order. */
  function Registry(w: World, f: Fixture): seq<nat> {
    match f
    case Applications => Going(w.appFins)
    case Plans => w.planList
    case Services => Going(w.serviceFins)
    case Backends => Going(w.backendFins)
  }

  /** The requests one fixture's finalizers make: finalizers run last registered first, one
      that is left by an exception does not keep the others from running, and the single plan
      finalizer walks its list from the front. */
  function Finalizers(w: World, f: Fixture): seq<Deletion> {
    Deletions(f, if f.Plans? then w.planList else Reversed(Registry(w, f)))
  }

  function Teardown(w: World, order: seq<Fixture>): seq<Deletion> {
    if order == [] then [] else Finalizers(w, order[0]) + Teardown(w, order[1..])
  }

  /** Fixtures are torn down in reverse order of setup; `custom_application` depends on
      `custom_app_plan` and that on `custom_service`, `custom_backend` on neither. */
  predicate TeardownOrder(order: seq<Fixture>) {
    order == [Backends, Applications, Plans, Services] || order == [Applications, Backends, Plans, Services] ||
    order == [Applications, Plans, Backends, Services] || order == [Applications, Plans, Services, Backends]
  }

  /** The server's answer to a successful deletion; a service takes its usages along. */
  function Delete(w: World, d: Deletion): World {
    match d
    case DeleteApplication(id) => w.(apps := w.apps - {id})
    case DeletePlan(id) => w.(plans := w.plans - {id})
    case DeleteService(id) => w.(services := w.services - {id}, usages := set u | u in w.usages && u.0 != id)
    case SweepUsages(id) => w.(usages := set u | u in w.usages && u.1 != id)
    case DeleteBackend(id) => w.(backends := w.backends - {id})
  }

  function DeleteAll(w: World, ds: seq<Deletion>): World
    decreases |ds|
  {
    if ds == [] then w else DeleteAll(Delete(w, ds[0]), ds[1..])
  }

  /** Nothing that still has live dependents is deleted. */
  ghost predicate SafeNow(w: World, d: Deletion) {
    match d
    case DeletePlan(id) => forall a :: a in w.apps ==> w.apps[a] != id
    case DeleteService(id) => forall p :: p in w.plans ==> w.plans[p] != id
    case DeleteBackend(id) => forall u :: u in w.usages ==> u.1 != id
    case _ => true
  }

  ghost predicate Safe(w: World, ds: seq<Deletion>)
    decreases |ds|
  {
    ds == [] || (SafeNow(w, ds[0]) && Safe(Delete(w, ds[0]), ds[1..]))
  }

  /** Children of parents that will be deleted will be deleted too: they are autocleaned and no
      hook of theirs escapes. */
  ghost predicate Closed(w: World) {
    && (forall a :: a in w.apps && w.apps[a] in w.planList ==> a in Going(w.appFins))
    && (forall p :: p in w.plans && w.plans[p] in Going(w.serviceFins) ==> p in w.planList)
  }

  // ----- Deletions in sequence

  lemma {:induction false} SafeConcat(w: World, a: seq<Deletion>, b: seq<Deletion>)
    ensures DeleteAll(w, a + b) == DeleteAll(DeleteAll(w, a), b)
    ensures Safe(w, a + b) <==> Safe(w, a) && Safe(DeleteAll(w, a), b)
    decreases |a|
  {
    if a == [] {
      assert a + b == b;
    } else {
      assert (a + b)[1..] == a[1..] + b;
      SafeConcat(Delete(w, a[0]), a[1..], b);
    }
  }

  /** Everything but what a fixture's own finalizers delete is left by them as it is. */
  lemma {:induction false} ApplicationsDeleted(w: World, ds: seq<Deletion>)
    requires forall d :: d in ds ==> d.DeleteApplication?
    ensures DeleteAll(w, ds) == w.(apps := w.apps - set d | d in ds :: d.id)
    ensures Safe(w, ds)
    decreases |ds|
  {
    if ds == [] {
      assert w.apps - {} == w.apps;
    } else {
      ApplicationsDeleted(Delete(w, ds[0]), ds[1..]);
      assert (set d | d in ds :: d.id) == {ds[0].id} + (set d | d in ds[1..] :: d.id);
      assert w.apps - {ds[0].id} - (set d | d in ds[1..] :: d.id) == w.apps - (set d | d in ds :: d.id);
    }
  }

  lemma {:induction false} PlansDeleted(w: World, ds: seq<Deletion>)
    requires forall d :: d in ds ==> d.DeletePlan?
    ensures DeleteAll(w, ds) == w.(plans := w.plans - set d | d in ds :: d.id)
    ensures Safe(w, ds) <==> forall a :: a in w.apps ==> DeletePlan(w.apps[a]) !in ds
    decreases |ds|
  {
    if ds == [] {
      assert w.plans - {} == w.plans;
    } else {
      PlansDeleted(Delete(w, ds[0]), ds[1..]);
      assert ds == [ds[0]] + ds[1..];
      assert (set d | d in ds :: d.id) == {ds[0].id} + (set d | d in ds[1..] :: d.id);
      assert w.plans - {ds[0].id} - (set d | d in ds[1..] :: d.id) == w.plans - (set d | d in ds :: d.id);
    }
  }

  lemma {:induction false} ServicesDeleted(w: World, ds: seq<Deletion>)
    requires forall d :: d in ds ==> d.DeleteService?
    ensures var w' := DeleteAll(w, ds);
      w' == w.(services := w.services - (set d | d in ds :: d.id), usages := w'.usages)
    ensures Safe(w, ds) <==> forall p :: p in w.plans ==> DeleteService(w.plans[p]) !in ds
    decreases |ds|
  {
    if ds == [] {
    } else {
      ServicesDeleted(Delete(w, ds[0]), ds[1..]);
      assert ds == [ds[0]] + ds[1..];
      assert (set d | d in ds :: d.id) == {ds[0].id} + (set d | d in ds[1..] :: d.id);
      assert w.services - {ds[0].id} - (set d | d in ds[1..] :: d.id) == w.services - (set d | d in ds :: d.id);
    }
  }

  lemma {:induction false} BackendsDeleted(w: World, ids: seq<nat>)
    ensures var w' := DeleteAll(w, BackendDeletions(ids));
      w' == w.(backends := w.backends - Elements(ids), usages := w'.usages)
    ensures Safe(w, BackendDeletions(ids))
    decreases |ids|
  {
    if ids != [] {
      var first, rest := [SweepUsages(ids[0]), DeleteBackend(ids[0])], BackendDeletions(ids[1..]);
      SafeConcat(w, first, rest);
      var swept := Delete(w, first[0]);
      assert first[1..] == [first[1]] && first[1..][1..] == [];
      assert Safe(Delete(swept, first[1]), []) && Safe(swept, first[1..]);
      assert DeleteAll(w, first) == DeleteAll(swept, first[1..]) == DeleteAll(Delete(swept, first[1]), first[1..][1..]);
      BackendsDeleted(DeleteAll(w, first), ids[1..]);
      assert Elements(ids) == {ids[0]} + Elements(ids[1..]);
    }
  }

  // ----- The main results

  /** Plans still in use when the plan finalizer starts, or services when theirs do. */
  lemma {:induction false} FixtureEffect(w: World, now: World, f: Fixture)
    ensures var w' := DeleteAll(now, Finalizers(w, f));
      var gone := Elements(Registry(w, f));
      match f
      case Applications => w' == now.(apps := now.apps - gone) && Safe(now, Finalizers(w, f))
      case Plans =>
        && w' == now.(plans := now.plans - gone)
        && (Safe(now, Finalizers(w, f)) <==> forall a :: a in now.apps ==> now.apps[a] !in w.planList)
      case Services =>
        && w' == now.(services := now.services - gone, usages := w'.usages)
        && (Safe(now, Finalizers(w, f)) <==> forall p :: p in now.plans ==> now.plans[p] !in Going(w.serviceFins))
      case Backends => w' == now.(backends := now.backends - gone, usages := w'.usages) && Safe(now, Finalizers(w, f))
  {
    var ids, ds := Registry(w, f), Finalizers(w, f);
    ReversedElements(ids);
    if f.Backends? {
      BackendsDeleted(now, Reversed(ids));
    } else {
      DeletionsListed(f, if f.Plans? then ids else Reversed(ids));
      match f
      case Applications => ApplicationsDeleted(now, ds);
      case Plans => PlansDeleted(now, ds);
      case Services => ServicesDeleted(now, ds);
    }
  }

  lemma {:induction false} DeletionsListed(f: Fixture, ids: seq<nat>)
    requires !f.Backends?
    ensures forall x :: x in ids <==> OwnDeletion(f, x) in Deletions(f, ids)
    ensures (set d | d in Deletions(f, ids) :: d.id) == Elements(ids)
    ensures forall d :: d in Deletions(f, ids) ==> d == OwnDeletion(f, d.id)
  {
    var ds := Deletions(f, ids);
    forall x | x in ids ensures OwnDeletion(f, x) in ds {
      var i :| 0 <= i < |ids| && ids[i] == x;
      assert ds[i] == OwnDeletion(f, x);
    }
    assert forall d :: d in ds ==> d == OwnDeletion(f, d.id) && d.id in ids;
    assert forall x :: x in ids ==> OwnDeletion(f, x).id == x;
    forall x ensures x in (set d | d in ds :: d.id) <==> x in Elements(ids) {
      if x in ids {
        assert OwnDeletion(f, x) in ds && OwnDeletion(f, x).id == x;
      }
    }
  }

  lemma {:induction false} ReversedElements(s: seq<nat>)
    ensures forall x :: x in Reversed(s) <==> x in s
    ensures Elements(Reversed(s)) == Elements(s)
  {
    forall x | x in s ensures x in Reversed(s) {
      var i :| 0 <= i < |s| && s[i] == x;
      assert Reversed(s)[|s| - 1 - i] == x;
    }
  }

  /** How often an object's own deletion is requested. */
  function Count(ds: seq<Deletion>, id: nat): nat {
    if ds == [] then 0
    else (if !ds[0].SweepUsages? && ds[0].id == id then 1 else 0) + Count(ds[1..], id)
  }

  lemma {:induction false} CountConcat(a: seq<Deletion>, b: seq<Deletion>, id: nat)
    ensures Count(a + b, id) == Count(a, id) + Count(b, id)
  {
    if a == [] {
      assert a + b == b;
    } else {
      assert (a + b)[1..] == a[1..] + b;
      CountConcat(a[1..], b, id);
    }
  }

  lemma {:induction false} CountOnePerId(ids: seq<nat>, ds: seq<Deletion>, id: nat)
    requires Distinct(ids) && |ds| == |ids|
    requires forall i :: 0 <= i < |ids| ==> !ds[i].SweepUsages? && ds[i].id == ids[i]
    ensures Count(ds, id) == if id in ids then 1 else 0
  {
    if ids != [] {
      CountOnePerId(ids[1..], ds[1..], id);
      assert id in ids <==> id == ids[0] || id in ids[1..];
      assert ids[0] !in ids[1..];
    }
  }

  lemma {:induction false} CountBackends(ids: seq<nat>, id: nat)
    requires Distinct(ids)
    ensures Count(BackendDeletions(ids), id) == if id in ids then 1 else 0
  {
    if ids != [] {
      var first := [SweepUsages(ids[0]), DeleteBackend(ids[0])];
      CountBackends(ids[1..], id);
      CountConcat(first, BackendDeletions(ids[1..]), id);
      assert first[1..] == [first[1]] && first[1..][1..] == [];
      assert Count(first, id) == Count(first[1..], id) == if ids[0] == id then 1 else 0;
      assert id in ids <==> id == ids[0] || id in ids[1..];
      assert ids[0] !in ids[1..];
    }
  }

  ghost predicate EscapesIn(fins: seq<Finalizer>, id: nat) {
    exists i :: 0 <= i < |fins| && fins[i].id == id && Escapes in fins[i].hooks
  }

  /** Some delete-side hook of the object gets past its finalizer's catch. */
  ghost predicate Escaped(w: World, id: nat) {
    EscapesIn(w.serviceFins, id) || EscapesIn(w.appFins, id) || EscapesIn(w.backendFins, id)
  }

  lemma {:induction false} EscapesLast(fins: seq<Finalizer>, id: nat)
    requires fins != []
    ensures var last := fins[|fins| - 1];
      EscapesIn(fins, id) <==> EscapesIn(fins[..|fins| - 1], id) || (last.id == id && Escapes in last.hooks)
  {
    var n := |fins| - 1;
    if EscapesIn(fins[..n], id) {
      var i :| 0 <= i < n && fins[..n][i].id == id && Escapes in fins[..n][i].hooks;
      assert fins[i] == fins[..n][i];
    }
    if EscapesIn(fins, id) {
      var i :| 0 <= i < |fins| && fins[i].id == id && Escapes in fins[i].hooks;
      if i < n {
        assert fins[..n][i] == fins[i];
      }
    }
  }

  lemma {:induction false} IdsLast(fins: seq<Finalizer>)
    requires fins != [] && Distinct(Ids(fins))
    ensures var n := |fins| - 1;
      Ids(fins) == Ids(fins[..n]) + [fins[n].id] && Distinct(Ids(fins[..n])) && fins[n].id !in Ids(fins[..n])
  {
    var n := |fins| - 1;
    assert Ids(fins) == Ids(fins[..n]) + [fins[n].id];
    assert forall i :: 0 <= i < n ==> Ids(fins[..n])[i] == Ids(fins)[i];
    assert Ids(fins)[n] == fins[n].id;
  }

  lemma {:induction false} GoingExact(fins: seq<Finalizer>, id: nat)
    requires Distinct(Ids(fins))
    ensures id in Going(fins) <==> id in Ids(fins) && !EscapesIn(fins, id)
  {
    if fins != [] {
      IdsLast(fins);
      EscapesLast(fins, id);
      GoingExact(fins[..|fins| - 1], id);
      InIds(fins[..|fins| - 1], id);
    }
  }

  lemma {:induction false} GoingDistinct(fins: seq<Finalizer>)
    requires Distinct(Ids(fins))
    ensures Distinct(Going(fins))
  {
    if fins != [] {
      var n := |fins| - 1;
      IdsLast(fins);
      GoingDistinct(fins[..n]);
      GoingExact(fins[..n], fins[n].id);
      AppendElement(Going(fins[..n]), fins[n].id);
    }
  }

  lemma {:induction false} CountFixture(w: World, f: Fixture, id: nat)
    requires Registered(w)
    ensures Count(Finalizers(w, f), id) == if id in Registry(w, f) then 1 else 0
  {
    var ids, ds := Registry(w, f), Finalizers(w, f);
    GoingDistinct(w.appFins);
    GoingDistinct(w.serviceFins);
    GoingDistinct(w.backendFins);
    ReversedElements(ids);
    match f
    case Plans => CountOnePerId(ids, ds, id);
    case Backends => CountBackends(Reversed(ids), id);
    case _ => CountOnePerId(Reversed(ids), ds, id);
  }

  lemma {:induction false} TeardownUnfolded(w: World, order: seq<Fixture>)
    requires |order| == 4
    ensures Teardown(w, order) ==
            Finalizers(w, order[0]) + (Finalizers(w, order[1]) + (Finalizers(w, order[2]) + Finalizers(w, order[3])))
  {
    assert order[1..][1..] == order[2..] && order[2..][1..] == order[3..] && order[3..][1..] == [];
    assert Teardown(w, order[3..]) == Finalizers(w, order[3]) + [] == Finalizers(w, order[3]);
    assert Teardown(w, order[2..]) == Finalizers(w, order[2]) + Teardown(w, order[3..]);
    assert Teardown(w, order[1..]) == Finalizers(w, order[1]) + Teardown(w, order[2..]);
  }

  lemma {:induction false} CountTeardown(w: World, order: seq<Fixture>, id: nat)
    requires |order| == 4
    ensures Count(Teardown(w, order), id) ==
            Count(Finalizers(w, order[0]), id) + Count(Finalizers(w, order[1]), id) +
            Count(Finalizers(w, order[2]), id) + Count(Finalizers(w, order[3]), id)
  {
    TeardownUnfolded(w, order);
    var a, b, c, d := Finalizers(w, order[0]), Finalizers(w, order[1]), Finalizers(w, order[2]), Finalizers(w, order[3]);
    CountConcat(a, b + (c + d), id);
    CountConcat(b, c + d, id);
    CountConcat(c, d, id);
  }

  function Once(w: World, f: Fixture, id: nat): nat {
    if id in Registry(w, f) then 1 else 0
  }

  lemma {:induction false} InIds(fins: seq<Finalizer>, id: nat)
    ensures id in Ids(fins) <==> id in Elements(Ids(fins))
    ensures EscapesIn(fins, id) ==> id in Ids(fins)
  {
    if EscapesIn(fins, id) {
      var i :| 0 <= i < |fins| && fins[i].id == id && Escapes in fins[i].hooks;
      assert Ids(fins)[i] == id;
    }
  }

  /** An object is deleted by at most one fixture, and by one exactly when it is autocleaned and
      none of its hooks escapes. */
  lemma {:induction false} RegisteredOnce(w: World, id: nat)
    requires Reachable(w)
    ensures Once(w, Applications, id) + Once(w, Plans, id) + Once(w, Services, id) + Once(w, Backends, id) ==
            if id in w.auto && !Escaped(w, id) then 1 else 0
  {
    GoingExact(w.appFins, id);
    GoingExact(w.serviceFins, id);
    GoingExact(w.backendFins, id);
    InIds(w.appFins, id);
    InIds(w.serviceFins, id);
    InIds(w.backendFins, id);
    assert id in w.planList ==> id in Elements(w.planList);
  }

  /** Whatever the delete-side hooks raise, teardown requests the deletion of every autocleaned
      object exactly once and of nothing else, wherever `custom_backend` comes in the order;
      only an object whose own hook escapes the catch is not deleted. */
  lemma {:induction false} DeletesEachOnce(w: World, order: seq<Fixture>, id: nat)
    requires Reachable(w) && TeardownOrder(order)
    ensures Count(Teardown(w, order), id) == if id in w.auto && !Escaped(w, id) then 1 else 0
  {
    CountTeardown(w, order, id);
    forall f: Fixture ensures Count(Finalizers(w, f), id) == Once(w, f, id) {
      CountFixture(w, f, id);
    }
    RegisteredOnce(w, id);
  }

  /** No plan is deleted with a live application, no service with a live plan and no backend
      with a live usage, if and only if children of deleted parents are deleted too. */
  lemma {:induction false} TeardownSafeExact(w: World, order: seq<Fixture>)
    requires TeardownOrder(order)
    ensures Safe(w, Teardown(w, order)) <==> Closed(w)
    ensures var w' := DeleteAll(w, Teardown(w, order));
      && w'.apps == w.apps - Elements(Going(w.appFins)) && w'.plans == w.plans - Elements(w.planList)
      && w'.services == w.services - Elements(Going(w.serviceFins))
      && w'.backends == w.backends - Elements(Going(w.backendFins))
  {
    TeardownUnfolded(w, order);
    var a, b, c, d := Finalizers(w, order[0]), Finalizers(w, order[1]), Finalizers(w, order[2]), Finalizers(w, order[3]);
    SafeConcat(w, a, b + (c + d));
    var w1 := DeleteAll(w, a);
    SafeConcat(w1, b, c + d);
    var w2 := DeleteAll(w1, b);
    SafeConcat(w2, c, d);
    FixtureEffect(w, w, order[0]);
    FixtureEffect(w, w1, order[1]);
    FixtureEffect(w, w2, order[2]);
    FixtureEffect(w, DeleteAll(w2, c), order[3]);
    ClosedAtTeardown(w);
  }

  lemma {:induction false} ClosedAtTeardown(w: World)
    ensures Closed(w) <==>
      && (forall x :: x in w.apps - Elements(Going(w.appFins)) ==> w.apps[x] !in w.planList)
      && (forall x :: x in w.plans - Elements(w.planList) ==> w.plans[x] !in Going(w.serviceFins))
  {
  }

  ghost predicate Unregistered(w: World) {
    w.skip && w.appFins == [] && w.planList == [] && w.serviceFins == [] && w.backendFins == [] && w.orphans == []
  }

  lemma {:induction false} NothingRegistered(w: World, calls: seq<Call>)
    requires Unregistered(w)
    ensures Unregistered(PerformAll(w, calls))
    decreases |calls|
  {
    if calls != [] {
      NothingRegistered(Perform(w, calls[0]), calls[1..]);
    }
  }

  lemma {:induction false} NothingToDo(w: World, order: seq<Fixture>)
    requires Unregistered(w)
    ensures Teardown(w, order) == []
  {
    if order != [] {
      NothingToDo(w, order[1..]);
    }
  }

  predicate Live(w: World, id: nat) {
    id in w.services || id in w.plans || id in w.apps || id in w.backends
  }

  lemma {:induction false} LiveAfter(w: World, order: seq<Fixture>, id: nat)
    requires Reachable(w) && TeardownOrder(order) && id in w.auto
    ensures Live(DeleteAll(w, Teardown(w, order)), id) <==> Escaped(w, id)
  {
    TeardownSafeExact(w, order);
    GoingExact(w.appFins, id);
    GoingExact(w.serviceFins, id);
    GoingExact(w.backendFins, id);
    InIds(w.appFins, id);
    InIds(w.serviceFins, id);
    InIds(w.backendFins, id);
    assert id in w.planList ==> id in Elements(w.planList);
  }

  // ----- Deletions that are refused

  /** The finalizers whose own deletion is not refused. */
  function Accepted(fins: seq<Finalizer>, refused: set<nat>): seq<Finalizer> {
    if fins == [] then []
    else
      var last := fins[|fins| - 1];
      Accepted(fins[..|fins| - 1], refused) + if last.id in refused then [] else [last]
  }

  /** The single plan finalizer ends at the first plan that is refused. */
  function UntilRefused(ids: seq<nat>, refused: set<nat>): seq<nat> {
    if ids == [] || ids[0] in refused then [] else [ids[0]] + UntilRefused(ids[1..], refused)
  }

  /** The registries cut down to what is deleted when the server refuses these deletions: teardown
      then deletes what it would delete for them. */
  function Outcome(w: World, refused: set<nat>): World {
    var services, apps := Accepted(w.serviceFins, refused), Accepted(w.appFins, refused);
    var plans := UntilRefused(w.planList, refused);
    w.(serviceFins := services, appFins := apps, planList := plans,
       auto := Elements(Ids(services)) + Elements(plans) + Elements(Ids(apps)) + Elements(Ids(w.backendFins)))
  }

  lemma {:induction false} AcceptedExact(fins: seq<Finalizer>, refused: set<nat>, id: nat)
    requires Distinct(Ids(fins))
    ensures id in Ids(Accepted(fins, refused)) <==> id in Ids(fins) && id !in refused
    ensures EscapesIn(Accepted(fins, refused), id) <==> EscapesIn(fins, id) && id !in refused
  {
    if fins != [] {
      var n := |fins| - 1;
      var before := Accepted(fins[..n], refused);
      IdsLast(fins);
      EscapesLast(fins, id);
      AcceptedExact(fins[..n], refused, id);
      if fins[n].id in refused {
        assert before + [] == before;
      } else {
        var all := before + [fins[n]];
        assert Ids(all) == Ids(before) + [fins[n].id] && all[..|all| - 1] == before;
        EscapesLast(all, id);
      }
    }
  }

  lemma {:induction false} AcceptedDistinct(fins: seq<Finalizer>, refused: set<nat>)
    requires Distinct(Ids(fins))
    ensures Distinct(Ids(Accepted(fins, refused)))
  {
    if fins != [] {
      var n := |fins| - 1;
      var before := Accepted(fins[..n], refused);
      IdsLast(fins);
      AcceptedDistinct(fins[..n], refused);
      AcceptedExact(fins[..n], refused, fins[n].id);
      if fins[n].id in refused {
        assert before + [] == before;
      } else {
        assert Ids(before + [fins[n]]) == Ids(before) + [fins[n].id];
        AppendElement(Ids(before), fins[n].id);
      }
    }
  }

  lemma {:induction false} UntilRefusedPrefix(ids: seq<nat>, refused: set<nat>)
    ensures UntilRefused(ids, refused) <= ids
    ensures forall x :: x in UntilRefused(ids, refused) ==> x !in refused
    ensures UntilRefused(ids, refused) == ids || ids[|UntilRefused(ids, refused)|] in refused
  {
    if ids != [] && ids[0] !in refused {
      UntilRefusedPrefix(ids[1..], refused);
      assert ids == [ids[0]] + ids[1..];
    }
  }

  lemma {:induction false} OutcomeReachable(w: World, refused: set<nat>)
    requires Reachable(w)
    ensures Reachable(Outcome(w, refused))
  {
    var o := Outcome(w, refused);
    AcceptedDistinct(w.serviceFins, refused);
    AcceptedDistinct(w.appFins, refused);
    UntilRefusedPrefix(w.planList, refused);
    forall x | x in Elements(Ids(o.serviceFins)) ensures x in w.services {
      AcceptedExact(w.serviceFins, refused, x);
      assert x in Elements(Ids(w.serviceFins));
    }
    forall x | x in Elements(Ids(o.appFins)) ensures x in w.apps.Keys {
      AcceptedExact(w.appFins, refused, x);
      assert x in Elements(Ids(w.appFins));
    }
    forall x | x in Elements(o.planList) ensures x in w.plans.Keys {
      assert x in Elements(w.planList);
    }
  }

  /** An autocleaned object that teardown does not get rid of: a hook of its own escapes, its
      deletion is refused, or it is a plan behind the first one that is refused. */
  ghost predicate Kept(w: World, refused: set<nat>, id: nat) {
    Escaped(w, id) || id in refused || (id in w.planList && id !in UntilRefused(w.planList, refused))
  }

  lemma {:induction false} OutcomeCleans(w: World, refused: set<nat>, id: nat)
    requires Reachable(w) && forall b :: b in Ids(w.backendFins) ==> b !in refused
    ensures var o := Outcome(w, refused);
      && o.auto <= w.auto
      && (id in w.auto ==> (id in o.auto && !Escaped(o, id) <==> !Kept(w, refused, id)))
  {
    var o := Outcome(w, refused);
    UntilRefusedPrefix(w.planList, refused);
    forall x | x in o.auto ensures x in w.auto {
      AcceptedExact(w.serviceFins, refused, x);
      AcceptedExact(w.appFins, refused, x);
      InIds(w.serviceFins, x);
      InIds(w.appFins, x);
    }
    AcceptedExact(w.serviceFins, refused, id);
    AcceptedExact(w.appFins, refused, id);
    InIds(w.serviceFins, id);
    InIds(w.appFins, id);
    InIds(w.backendFins, id);
    InIds(o.serviceFins, id);
    InIds(o.appFins, id);
    assert id in w.planList <==> id in Elements(w.planList);
    assert id in o.planList <==> id in Elements(o.planList);
  }

  ghost predicate SameServer(a: World, b: World) {
    a.services == b.services && a.plans == b.plans && a.apps == b.apps && a.backends == b.backends && a.usages == b.usages
  }

  /** What deletions do does not depend on what is registered. */
  lemma {:induction false} ServerDecides(a: World, b: World, ds: seq<Deletion>)
    requires SameServer(a, b)
    ensures SameServer(DeleteAll(a, ds), DeleteAll(b, ds))
    ensures Safe(a, ds) <==> Safe(b, ds)
    decreases |ds|
  {
    if ds != [] {
      ServerDecides(Delete(a, ds[0]), Delete(b, ds[0]), ds[1..]);
    }
  }

  /** With the deletions of any applications, plans and services refused: every autocleaned object
      is deleted once and is gone, except exactly those kept; and nothing with live dependents is
      deleted if and only if children of deleted parents are deleted too. */
  lemma {:induction false} RefusedExact(w: World, order: seq<Fixture>, refused: set<nat>, id: nat)
    requires Reachable(w) && TeardownOrder(order) && forall b :: b in Ids(w.backendFins) ==> b !in refused
    ensures var o := Outcome(w, refused);
      var ds := Teardown(o, order);
      && Count(ds, id) == (if id in w.auto && !Kept(w, refused, id) then 1 else 0)
      && (id in w.auto ==> (Live(DeleteAll(w, ds), id) <==> Kept(w, refused, id)))
      && (Safe(w, ds) <==> Closed(o))
  {
    var o := Outcome(w, refused);
    OutcomeReachable(w, refused);
    OutcomeCleans(w, refused, id);
    DeletesEachOnce(o, order, id);
    TeardownSafeExact(o, order);
    ServerDecides(w, o, Teardown(o, order));
    if id in o.auto {
      LiveAfter(o, order, id);
    } else if id in w.auto {
      NotTouched(o, order, id);
      LiveWhenRegistered(w, id);
    }
  }

  lemma {:induction false} LiveWhenRegistered(w: World, id: nat)
    requires Reachable(w) && id in w.auto
    ensures Live(w, id)
  {
  }

  lemma {:induction false} NotTouched(w: World, order: seq<Fixture>, id: nat)
    requires Reachable(w) && TeardownOrder(order) && id !in w.auto
    ensures Live(DeleteAll(w, Teardown(w, order)), id) <==> Live(w, id)
  {
    TeardownSafeExact(w, order);
    GoingExact(w.appFins, id);
    GoingExact(w.serviceFins, id);
    GoingExact(w.backendFins, id);
    InIds(w.appFins, id);
    InIds(w.serviceFins, id);
    InIds(w.backendFins, id);
  }

  /** The same over whole runs: after any calls of the factories, with hooks and requests that
      raised anywhere, delete-side hooks raising anything and deletions refused, each object created
      for cleaning is deleted once and is gone, or is one of those kept and neither; nothing at all
      is created for cleaning when cleanup is skipped. */
  lemma {:induction false} RunThenTeardown(skip: bool, calls: seq<Call>, order: seq<Fixture>, refused: set<nat>, id: nat)
    requires PossibleAll(Empty(skip), calls) && TeardownOrder(order)
    requires forall b :: b in Ids(PerformAll(Empty(skip), calls).backendFins) ==> b !in refused
    ensures var w := PerformAll(Empty(skip), calls);
      var ds := Teardown(Outcome(w, refused), order);
      && Count(ds, id) == (if id in w.auto && !Kept(w, refused, id) then 1 else 0)
      && (id in w.auto ==> (Live(DeleteAll(w, ds), id) <==> Kept(w, refused, id)))
      && (Safe(w, ds) <==> Closed(Outcome(w, refused)))
      && (skip ==> ds == [])
  {
    assert Reachable(Empty(skip));
    PerformAllKeeps(Empty(skip), calls);
    var w := PerformAll(Empty(skip), calls);
    RefusedExact(w, order, refused, id);
    if skip {
      NothingRegistered(Empty(skip), calls);
      NothingToDo(Outcome(w, refused), order);
    }
  }
}
