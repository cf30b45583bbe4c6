/** The runs of the factories read off the calls alone: which objects there are, what each call
    registered, and which of them teardown deletes (testsuite/tests/conftest.py). */
module FixtureCalls {
  import opened FixtureRuns

  /** Objects are numbered in the order they are created. */
  function Number(calls: seq<Call>, k: nat): nat
    requires k <= |calls|
  {
    |CreatedBefore(calls, k)|
  }

  function CreatedBefore(calls: seq<Call>, k: nat): set<nat>
    requires k <= |calls|
  {
    set j: nat | j < k && calls[j].created
  }

  /** Call k made the object of this number. */
  predicate Makes(calls: seq<Call>, k: nat, id: nat) {
    k < |calls| && calls[k].created && Number(calls, k) == id
  }

  /** It is to be cleaned. */
  predicate Cleans(calls: seq<Call>, k: nat, id: nat) {
    Makes(calls, k, id) && calls[k].autoclean
  }

  lemma {:induction false} NumberStep(calls: seq<Call>, k: nat)
    requires k < |calls|
    ensures Number(calls, k + 1) == Number(calls, k) + if calls[k].created then 1 else 0
  {
    assert CreatedBefore(calls, k + 1) == CreatedBefore(calls, k) + if calls[k].created then {k} else {};
  }

  lemma {:induction false} NumbersGrow(calls: seq<Call>, j: nat, k: nat)
    requires j <= k <= |calls|
    ensures Number(calls, j) <= Number(calls, k)
    ensures j < k && calls[j].created ==> Number(calls, j) < Number(calls, k)
    decreases k - j
  {
    if j < k {
      NumberStep(calls, j);
      NumbersGrow(calls, j + 1, k);
    }
  }

  /** Every object is made by one call. */
  lemma {:induction false} MadeOnce(calls: seq<Call>, j: nat, k: nat, id: nat)
    requires Makes(calls, j, id) && Makes(calls, k, id)
    ensures j == k
  {
    NumbersGrow(calls, if j < k then j else k, if j < k then k else j);
  }

  lemma {:induction false} NumberInPrefix(calls: seq<Call>, n: nat, k: nat)
    requires k <= n <= |calls|
    ensures Number(calls[..n], k) == Number(calls, k)
  {
    assert CreatedBefore(calls[..n], k) == CreatedBefore(calls, k);
  }

  /** What call n adds to the objects made. */
  lemma {:induction false} MakesLast(calls: seq<Call>, k: nat, id: nat)
    requires calls != []
    ensures var n := |calls| - 1;
      Makes(calls, k, id) <==> Makes(calls[..n], k, id) || (k == n && calls[n].created && id == Number(calls, n))
  {
    var n := |calls| - 1;
    if k < n {
      NumberInPrefix(calls, n, k);
    }
  }

  lemma {:induction false} PerformLast(w: World, calls: seq<Call>)
    requires calls != []
    ensures PerformAll(w, calls) == Perform(PerformAll(w, calls[..|calls| - 1]), calls[|calls| - 1])
    decreases |calls|
  {
    var n := |calls| - 1;
    if n > 0 {
      PerformLast(Perform(w, calls[0]), calls[1..]);
      assert calls[1..][..n - 1] == calls[..n][1..];
    } else {
      assert calls[1..] == [] && calls[..0] == [];
    }
  }

  lemma {:induction false} PerformedNext(w: World, c: Call)
    ensures Perform(w, c).next == w.next + (if c.created then 1 else 0) && Perform(w, c).skip == w.skip
  {
  }

  lemma {:induction false} NextIsNumber(skip: bool, calls: seq<Call>)
    ensures var w := PerformAll(Empty(skip), calls); w.next == Number(calls, |calls|) && w.skip == skip
    decreases |calls|
  {
    if calls == [] {
      assert CreatedBefore(calls, 0) == {};
    } else {
      var n := |calls| - 1;
      PerformLast(Empty(skip), calls);
      NextIsNumber(skip, calls[..n]);
      NumberInPrefix(calls, n, n);
      NumberStep(calls, n);
      PerformedNext(PerformAll(Empty(skip), calls[..n]), calls[n]);
    }
  }

  // ----- What a run leaves on the server and in the registries

  /** The objects made by the calls of some sort. */
  function Those(calls: seq<Call>, sort: Call -> bool): set<nat> {
    set k: nat | k < |calls| && calls[k].created && sort(calls[k]) :: Number(calls, k)
  }

  predicate IsService(c: Call) { c.MakeService? }
  predicate IsPlan(c: Call) { c.MakePlan? }
  predicate IsApplication(c: Call) { c.MakeApplication? }
  predicate IsBackend(c: Call) { c.MakeBackend? }
  predicate IsCleaned(c: Call) { c.autoclean }
  predicate IsCleanedService(c: Call) { c.MakeService? && c.autoclean }
  predicate IsOrphan(c: Call) { c.MakeService? && !c.autoclean }
  predicate IsCleanedPlan(c: Call) { c.MakePlan? && c.autoclean }
  predicate IsCleanedApplication(c: Call) { c.MakeApplication? && c.autoclean }
  predicate IsCleanedBackend(c: Call) { c.MakeBackend? && c.autoclean }

  lemma {:induction false} InThose(calls: seq<Call>, sort: Call -> bool, id: nat)
    ensures id in Those(calls, sort) <==> exists k: nat :: Makes(calls, k, id) && sort(calls[k])
    ensures id in Those(calls, sort) ==> id < Number(calls, |calls|)
  {
    if id in Those(calls, sort) {
      var k: nat :| k < |calls| && calls[k].created && sort(calls[k]) && Number(calls, k) == id;
      assert Makes(calls, k, id);
      NumbersGrow(calls, k, |calls|);
    }
  }

  lemma {:induction false} ThoseLast(calls: seq<Call>, sort: Call -> bool)
    requires calls != []
    ensures var n := |calls| - 1;
      Those(calls, sort) ==
      Those(calls[..n], sort) + if calls[n].created && sort(calls[n]) then {Number(calls, n)} else {}
  {
    var n := |calls| - 1;
    var before, now := Those(calls[..n], sort), Those(calls, sort);
    forall k: nat | k < n ensures Number(calls[..n], k) == Number(calls, k) {
      NumberInPrefix(calls, n, k);
    }
    forall id ensures id in now <==> id in before || (calls[n].created && sort(calls[n]) && id == Number(calls, n)) {
      if id in before {
        var k: nat :| k < n && calls[..n][k].created && sort(calls[..n][k]) && Number(calls[..n], k) == id;
        assert calls[..n][k] == calls[k] && Number(calls, k) in now;
      }
      if id in now {
        var k: nat :| k < |calls| && calls[k].created && sort(calls[k]) && Number(calls, k) == id;
        if k < n {
          assert calls[..n][k] == calls[k] && Number(calls[..n], k) in before;
        }
      }
    }
  }

  /** The objects on the server are those the calls made, whatever they are registered for. */
  ghost predicate ServerHolds(w: World, calls: seq<Call>) {
    && w.services == Those(calls, IsService) && w.plans.Keys == Those(calls, IsPlan)
    && w.apps.Keys == Those(calls, IsApplication) && w.backends == Those(calls, IsBackend)
  }

  predicate Rising(s: seq<nat>) {
    forall i, j :: 0 <= i < j < |s| ==> s[i] < s[j]
  }

  /** This registry holds exactly the objects of this sort, in the order they were made. */
  ghost predicate Lists(ids: seq<nat>, calls: seq<Call>, sort: Call -> bool) {
    Rising(ids) && Elements(ids) == Those(calls, sort)
  }

  ghost predicate RegistriesHold(w: World, calls: seq<Call>) {
    && w.auto == Those(calls, IsCleaned)
    && Lists(Ids(w.serviceFins), calls, IsCleanedService) && Lists(Ids(w.orphans), calls, IsOrphan)
    && Lists(w.planList, calls, IsCleanedPlan)
    && Lists(Ids(w.appFins), calls, IsCleanedApplication) && Lists(Ids(w.backendFins), calls, IsCleanedBackend)
  }

  ghost predicate NothingRegisteredFor(w: World) {
    w.auto == {} && w.serviceFins == [] && w.orphans == [] && w.planList == [] && w.appFins == [] && w.backendFins == []
  }

  lemma {:induction false} OneMore(m: map<nat, nat>, id: nat, parent: nat)
    ensures m[id := parent].Keys == m.Keys + {id}
  {
  }

  lemma {:induction false} PerformedServer(w: World, c: Call)
    ensures var w' := Perform(w, c);
      && w'.services == (if c.created && IsService(c) then w.services + {w.next} else w.services)
      && w'.plans == (if c.created && c.MakePlan? then w.plans[w.next := c.service] else w.plans)
      && w'.plans.Keys == (if c.created && IsPlan(c) then w.plans.Keys + {w.next} else w.plans.Keys)
      && w'.apps == (if c.created && c.MakeApplication? then w.apps[w.next := c.plan] else w.apps)
      && w'.apps.Keys == (if c.created && IsApplication(c) then w.apps.Keys + {w.next} else w.apps.Keys)
      && w'.backends == (if c.created && IsBackend(c) then w.backends + {w.next} else w.backends)
  {
    if c.created {
      match c
      case MakeService(_, _, _, _) =>
      case MakePlan(service, _, _) => OneMore(w.plans, w.next, service);
      case MakeApplication(plan, _, _, _) => OneMore(w.apps, w.next, plan);
      case MakeBackend(_, _, _) =>
    }
  }

  lemma {:induction false} ThoseNext(before: set<nat>, calls: seq<Call>, sort: Call -> bool)
    requires calls != [] && before == Those(calls[..|calls| - 1], sort)
    ensures var n := |calls| - 1;
      (if calls[n].created && sort(calls[n]) then before + {Number(calls, n)} else before) == Those(calls, sort)
  {
    ThoseLast(calls, sort);
  }

  lemma {:induction false} ServerStep(w: World, calls: seq<Call>, w': World)
    requires calls != [] && w.next == Number(calls, |calls| - 1) && ServerHolds(w, calls[..|calls| - 1])
    requires var c := calls[|calls| - 1];
      && w'.services == (if c.created && IsService(c) then w.services + {w.next} else w.services)
      && w'.plans.Keys == (if c.created && IsPlan(c) then w.plans.Keys + {w.next} else w.plans.Keys)
      && w'.apps.Keys == (if c.created && IsApplication(c) then w.apps.Keys + {w.next} else w.apps.Keys)
      && w'.backends == (if c.created && IsBackend(c) then w.backends + {w.next} else w.backends)
    ensures ServerHolds(w', calls)
  {
    ThoseNext(w.services, calls, IsService);
    ThoseNext(w.plans.Keys, calls, IsPlan);
    ThoseNext(w.apps.Keys, calls, IsApplication);
    ThoseNext(w.backends, calls, IsBackend);
  }

  /** One more object of this sort, or of another. */
  lemma {:induction false} ListsLast(ids: seq<nat>, calls: seq<Call>, sort: Call -> bool)
    requires calls != [] && Lists(ids, calls[..|calls| - 1], sort)
    ensures var n := |calls| - 1;
      Lists(if calls[n].created && sort(calls[n]) then ids + [Number(calls, n)] else ids, calls, sort)
  {
    var n := |calls| - 1;
    ThoseLast(calls, sort);
    NumberInPrefix(calls, n, n);
    forall i | 0 <= i < |ids| ensures ids[i] < Number(calls, n) {
      assert ids[i] in Elements(ids);
      InThose(calls[..n], sort, ids[i]);
    }
    AppendElement(ids, Number(calls, n));
  }

  lemma {:induction false} RegistriesStep(w: World, calls: seq<Call>)
    requires calls != [] && w.next == Number(calls, |calls| - 1) && !w.skip
    requires RegistriesHold(w, calls[..|calls| - 1])
    ensures RegistriesHold(Perform(w, calls[|calls| - 1]), calls)
  {
    var c := calls[|calls| - 1];
    ThoseLast(calls, IsCleaned);
    ListsLast(Ids(w.serviceFins), calls, IsCleanedService);
    ListsLast(Ids(w.orphans), calls, IsOrphan);
    ListsLast(w.planList, calls, IsCleanedPlan);
    ListsLast(Ids(w.appFins), calls, IsCleanedApplication);
    ListsLast(Ids(w.backendFins), calls, IsCleanedBackend);
    match c
    case MakeService(_, _, _, hooks) =>
      AppendFinalizer(w.serviceFins, w.next, hooks);
      AppendFinalizer(w.orphans, w.next, hooks);
    case MakePlan(_, _, _) =>
    case MakeApplication(_, _, _, hooks) => AppendFinalizer(w.appFins, w.next, hooks);
    case MakeBackend(_, _, hooks) => AppendFinalizer(w.backendFins, w.next, hooks);
  }

  lemma {:induction false} NoCalls(sort: Call -> bool)
    ensures Those([], sort) == {} && Lists([], [], sort)
  {
  }

  /** After every run of the factories: the server has exactly the objects the calls made, and, when
      cleanup is not skipped, each registry has exactly the objects made for it, in order: those
      to be cleaned by their kind, and services that are not among the orphans. */
  lemma {:induction false} RunExact(skip: bool, calls: seq<Call>)
    ensures var w := PerformAll(Empty(skip), calls);
      ServerHolds(w, calls) && if skip then NothingRegisteredFor(w) else RegistriesHold(w, calls)
    decreases |calls|
  {
    if calls == [] {
      NoCalls(IsService);
      NoCalls(IsPlan);
      NoCalls(IsApplication);
      NoCalls(IsBackend);
      NoCalls(IsCleaned);
      NoCalls(IsCleanedService);
      NoCalls(IsOrphan);
      NoCalls(IsCleanedPlan);
      NoCalls(IsCleanedApplication);
      NoCalls(IsCleanedBackend);
    } else {
      var n := |calls| - 1;
      var before := PerformAll(Empty(skip), calls[..n]);
      RunExact(skip, calls[..n]);
      PerformLast(Empty(skip), calls);
      NextIsNumber(skip, calls[..n]);
      NumberInPrefix(calls, n, n);
      PerformedServer(before, calls[n]);
      ServerStep(before, calls, Perform(before, calls[n]));
      if !skip {
        RegistriesStep(before, calls);
      }
    }
  }

  /** An object hangs below the parent its call named. */
  lemma {:induction false} ParentExact(skip: bool, calls: seq<Call>, k: nat, id: nat)
    requires Makes(calls, k, id)
    ensures var w := PerformAll(Empty(skip), calls);
      && (calls[k].MakePlan? ==> id in w.plans && w.plans[id] == calls[k].service)
      && (calls[k].MakeApplication? ==> id in w.apps && w.apps[id] == calls[k].plan)
    decreases |calls|
  {
    var n := |calls| - 1;
    var before := PerformAll(Empty(skip), calls[..n]);
    PerformLast(Empty(skip), calls);
    NextIsNumber(skip, calls[..n]);
    NumberInPrefix(calls, n, n);
    PerformedServer(before, calls[n]);
    if k < n {
      NumberInPrefix(calls, n, k);
      NumbersGrow(calls, k, n);
      ParentExact(skip, calls[..n], k, id);
    }
  }

  lemma {:induction false} PerformedUsages(w: World, c: Call)
    ensures Perform(w, c).usages ==
            if c.created && c.MakeService? then w.usages + UsagesOf(w.next, c.attached) else w.usages
  {
    if c.created {
      match c
      case MakeService(_, _, _, _) =>
      case _ =>
    }
  }

  /** The usages are those of the backends that were attached to a service when it was made. */
  ghost predicate Attaches(calls: seq<Call>, k: nat, service: nat, backend: nat) {
    Makes(calls, k, service) && calls[k].MakeService? && backend in calls[k].attached
  }

  lemma {:induction false} AttachesLast(calls: seq<Call>, k: nat, service: nat, backend: nat)
    requires calls != []
    ensures var n := |calls| - 1;
      Attaches(calls, k, service, backend) <==>
      || Attaches(calls[..n], k, service, backend)
      || (k == n && calls[n].created && calls[n].MakeService? && service == Number(calls, n) && backend in calls[n].attached)
  {
    MakesLast(calls, k, service);
  }

  lemma {:induction false} UsagesExact(skip: bool, calls: seq<Call>, service: nat, backend: nat)
    ensures (service, backend) in PerformAll(Empty(skip), calls).usages <==> exists k: nat :: Attaches(calls, k, service, backend)
    decreases |calls|
  {
    if calls != [] {
      var n := |calls| - 1;
      var before := PerformAll(Empty(skip), calls[..n]);
      PerformLast(Empty(skip), calls);
      NextIsNumber(skip, calls[..n]);
      NumberInPrefix(calls, n, n);
      PerformedUsages(before, calls[n]);
      UsagesExact(skip, calls[..n], service, backend);
      AttachesLast(calls, n, service, backend);
      if k: nat :| Attaches(calls[..n], k, service, backend) {
        AttachesLast(calls, k, service, backend);
      }
      if k: nat :| Attaches(calls, k, service, backend) {
        AttachesLast(calls, k, service, backend);
      }
    }
  }

  /** Each finalizer runs the delete-side hooks given to the call that made its object. */
  ghost predicate HooksHold(fins: seq<Finalizer>, calls: seq<Call>) {
    forall i :: 0 <= i < |fins| ==>
      exists k: nat :: Makes(calls, k, fins[i].id) && !calls[k].MakePlan? && calls[k].hooks == fins[i].hooks
  }

  lemma {:induction false} HooksLast(fins: seq<Finalizer>, calls: seq<Call>)
    requires calls != [] && HooksHold(fins, calls[..|calls| - 1])
    ensures HooksHold(fins, calls)
    ensures var n := |calls| - 1;
      calls[n].created && !calls[n].MakePlan? ==>
      HooksHold(fins + [Finalizer(Number(calls, n), calls[n].hooks)], calls)
  {
    var n := |calls| - 1;
    forall i | 0 <= i < |fins|
      ensures exists k: nat :: Makes(calls, k, fins[i].id) && !calls[k].MakePlan? && calls[k].hooks == fins[i].hooks
    {
      var k: nat :| Makes(calls[..n], k, fins[i].id) && !calls[..n][k].MakePlan? && calls[..n][k].hooks == fins[i].hooks;
      MakesLast(calls, k, fins[i].id);
      assert calls[..n][k] == calls[k];
    }
    assert calls[n].created ==> Makes(calls, n, Number(calls, n));
  }

  ghost predicate AllHooksHold(w: World, calls: seq<Call>) {
    && HooksHold(w.serviceFins, calls) && HooksHold(w.orphans, calls)
    && HooksHold(w.appFins, calls) && HooksHold(w.backendFins, calls)
  }

  /** A registry stays, or takes one finalizer more when the call made an object of its kind. */
  predicate Grows(before: seq<Finalizer>, after: seq<Finalizer>, next: nat, c: Call, kind: Call -> bool) {
    after == before || (c.created && kind(c) && !c.MakePlan? && after == before + [Finalizer(next, c.hooks)])
  }

  lemma {:induction false} PerformedFins(w: World, c: Call)
    ensures var w' := Perform(w, c);
      && Grows(w.serviceFins, w'.serviceFins, w.next, c, IsService)
      && Grows(w.orphans, w'.orphans, w.next, c, IsService)
      && Grows(w.appFins, w'.appFins, w.next, c, IsApplication)
      && Grows(w.backendFins, w'.backendFins, w.next, c, IsBackend)
  {
    if c.created {
      match c
      case MakeService(_, _, _, _) =>
      case MakePlan(_, _, _) =>
      case MakeApplication(_, _, _, _) =>
      case MakeBackend(_, _, _) =>
    }
  }

  lemma {:induction false} HooksExact(skip: bool, calls: seq<Call>)
    ensures AllHooksHold(PerformAll(Empty(skip), calls), calls)
    decreases |calls|
  {
    if calls != [] {
      var n := |calls| - 1;
      var before := PerformAll(Empty(skip), calls[..n]);
      HooksExact(skip, calls[..n]);
      PerformLast(Empty(skip), calls);
      NextIsNumber(skip, calls[..n]);
      NumberInPrefix(calls, n, n);
      PerformedFins(before, calls[n]);
      HooksLast(before.serviceFins, calls);
      HooksLast(before.orphans, calls);
      HooksLast(before.appFins, calls);
      HooksLast(before.backendFins, calls);
    }
  }

  // ----- Which objects teardown deletes

  /** Call k made an object that teardown deletes when the deletions of these objects are refused:
      it was made to be cleaned, its own deletion is not refused, no hook of its own escapes, and
      of a plan, none made before it and to be cleaned too is refused. */
  ghost predicate Deleted(skip: bool, calls: seq<Call>, refused: set<nat>, k: nat)
    requires k < |calls|
  {
    && !skip && calls[k].created && calls[k].autoclean && Number(calls, k) !in refused
    && if calls[k].MakePlan? then
         forall j: nat :: j < k && calls[j].created && IsCleanedPlan(calls[j]) ==> Number(calls, j) !in refused
       else Escapes !in calls[k].hooks
  }

  lemma {:induction false} EscapesInExact(fins: seq<Finalizer>, calls: seq<Call>, sort: Call -> bool, k: nat, id: nat)
    requires HooksHold(fins, calls) && Lists(Ids(fins), calls, sort)
    requires Makes(calls, k, id) && !calls[k].MakePlan?
    ensures EscapesIn(fins, id) <==> sort(calls[k]) && Escapes in calls[k].hooks
  {
    InThose(calls, sort, id);
    InIds(fins, id);
    if i :| 0 <= i < |fins| && fins[i].id == id {
      var j: nat :| Makes(calls, j, fins[i].id) && !calls[j].MakePlan? && calls[j].hooks == fins[i].hooks;
      MadeOnce(calls, j, k, id);
    }
    if sort(calls[k]) {
      assert id in Elements(Ids(fins));
      var i :| 0 <= i < |Ids(fins)| && Ids(fins)[i] == id;
      var j: nat :| Makes(calls, j, fins[i].id) && !calls[j].MakePlan? && calls[j].hooks == fins[i].hooks;
      MadeOnce(calls, j, k, id);
    }
    if EscapesIn(fins, id) {
      assert id in Those(calls, sort);
      var j: nat :| Makes(calls, j, id) && sort(calls[j]);
      MadeOnce(calls, j, k, id);
      var i :| 0 <= i < |fins| && fins[i].id == id && Escapes in fins[i].hooks;
      var h: nat :| Makes(calls, h, fins[i].id) && !calls[h].MakePlan? && calls[h].hooks == fins[i].hooks;
      MadeOnce(calls, h, k, id);
    }
  }

  lemma {:induction false} NotAPlan(fins: seq<Finalizer>, calls: seq<Call>, k: nat, id: nat)
    requires HooksHold(fins, calls) && Makes(calls, k, id) && calls[k].MakePlan?
    ensures !EscapesIn(fins, id)
  {
    if i :| 0 <= i < |fins| && fins[i].id == id && Escapes in fins[i].hooks {
      var j: nat :| Makes(calls, j, fins[i].id) && !calls[j].MakePlan? && calls[j].hooks == fins[i].hooks;
      MadeOnce(calls, j, k, id);
    }
  }

  /** In a rising list, what comes before the first refusal. */
  lemma {:induction false} UntilRefusedRising(ids: seq<nat>, refused: set<nat>, id: nat)
    requires Rising(ids) && id in ids
    ensures id in UntilRefused(ids, refused) <==> forall x :: x in ids && x <= id ==> x !in refused
  {
    var passed := UntilRefused(ids, refused);
    UntilRefusedPrefix(ids, refused);
    var i :| 0 <= i < |ids| && ids[i] == id;
    if id in passed {
      var j :| 0 <= j < |passed| && passed[j] == id;
      forall x | x in ids && x <= id ensures x !in refused {
        var h :| 0 <= h < |ids| && ids[h] == x;
        assert passed[h] == x;
      }
    } else {
      assert forall j :: 0 <= j < |passed| ==> passed[j] == ids[j];
      assert |passed| <= i;
      assert ids[|passed|] in refused && ids[|passed|] <= id;
    }
  }

  lemma {:induction false} EscapedExact(calls: seq<Call>, k: nat, id: nat)
    requires Cleans(calls, k, id)
    ensures Escaped(PerformAll(Empty(false), calls), id) <==> !calls[k].MakePlan? && Escapes in calls[k].hooks
  {
    var w := PerformAll(Empty(false), calls);
    RunExact(false, calls);
    HooksExact(false, calls);
    if calls[k].MakePlan? {
      NotAPlan(w.serviceFins, calls, k, id);
      NotAPlan(w.appFins, calls, k, id);
      NotAPlan(w.backendFins, calls, k, id);
    } else {
      EscapesInExact(w.serviceFins, calls, IsCleanedService, k, id);
      EscapesInExact(w.appFins, calls, IsCleanedApplication, k, id);
      EscapesInExact(w.backendFins, calls, IsCleanedBackend, k, id);
    }
  }

  lemma {:induction false} PlanPassed(calls: seq<Call>, refused: set<nat>, k: nat, id: nat)
    requires Cleans(calls, k, id)
    ensures var w := PerformAll(Empty(false), calls);
      && (id in w.planList <==> calls[k].MakePlan?)
      && (calls[k].MakePlan? ==> (id in UntilRefused(w.planList, refused) <==> Deleted(false, calls, refused, k)))
  {
    var w := PerformAll(Empty(false), calls);
    PlanBefore(calls, k, id, id);
    if calls[k].MakePlan? {
      assert IsCleanedPlan(calls[k]);
      RunExact(false, calls);
      UntilRefusedRising(w.planList, refused, id);
      NoneRefusedBefore(calls, refused, k, id);
    } else if j: nat :| Makes(calls, j, id) && IsCleanedPlan(calls[j]) {
      MadeOnce(calls, j, k, id);
    }
  }

  lemma {:induction false} NoneRefusedBefore(calls: seq<Call>, refused: set<nat>, k: nat, id: nat)
    requires Makes(calls, k, id) && IsCleanedPlan(calls[k])
    ensures var w := PerformAll(Empty(false), calls);
      (forall x :: x in w.planList && x <= id ==> x !in refused) <==> Deleted(false, calls, refused, k)
  {
    var w := PerformAll(Empty(false), calls);
    if Deleted(false, calls, refused, k) {
      forall x: nat | x in w.planList && x <= id ensures x !in refused {
        PlanBefore(calls, k, id, x);
      }
    } else {
      var j: nat :| j <= k && calls[j].created && IsCleanedPlan(calls[j]) && Number(calls, j) in refused;
      assert Makes(calls, j, Number(calls, j));
      PlanBefore(calls, k, id, Number(calls, j));
    }
  }

  lemma {:induction false} PlanBefore(calls: seq<Call>, k: nat, id: nat, x: nat)
    requires Makes(calls, k, id)
    ensures var w := PerformAll(Empty(false), calls);
      x in w.planList && x <= id <==> exists j: nat :: Makes(calls, j, x) && IsCleanedPlan(calls[j]) && j <= k
  {
    var w := PerformAll(Empty(false), calls);
    RunExact(false, calls);
    InThose(calls, IsCleanedPlan, x);
    assert x in w.planList <==> x in Elements(w.planList);
    if j: nat :| Makes(calls, j, x) && IsCleanedPlan(calls[j]) {
      if j <= k { NumbersGrow(calls, j, k); } else { NumbersGrow(calls, k, j); }
      forall h: nat | Makes(calls, h, x) ensures h == j {
        MadeOnce(calls, h, j, x);
      }
    }
  }

  lemma {:induction false} KeptExact(calls: seq<Call>, refused: set<nat>, k: nat, id: nat)
    requires Cleans(calls, k, id)
    ensures Kept(PerformAll(Empty(false), calls), refused, id) <==> !Deleted(false, calls, refused, k)
  {
    EscapedExact(calls, k, id);
    PlanPassed(calls, refused, k, id);
  }

  /** The deletions of backends go through, after their retries. */
  ghost predicate BackendsGo(calls: seq<Call>, refused: set<nat>) {
    forall k: nat :: k < |calls| && calls[k].created && calls[k].MakeBackend? ==> Number(calls, k) !in refused
  }

  lemma {:induction false} BackendsNotRefused(skip: bool, calls: seq<Call>, refused: set<nat>)
    requires BackendsGo(calls, refused)
    ensures forall b :: b in Ids(PerformAll(Empty(skip), calls).backendFins) ==> b !in refused
  {
    var w := PerformAll(Empty(skip), calls);
    RunExact(skip, calls);
    forall b | b in Ids(w.backendFins) ensures b !in refused {
      assert b in Elements(Ids(w.backendFins));
      InThose(calls, IsCleanedBackend, b);
    }
  }

  lemma {:induction false} AutoExact(skip: bool, calls: seq<Call>, k: nat, id: nat)
    requires Makes(calls, k, id)
    ensures var w := PerformAll(Empty(skip), calls);
      (id in w.auto <==> !skip && calls[k].autoclean) && Live(w, id)
  {
    RunExact(skip, calls);
    InThose(calls, IsCleaned, id);
    InThose(calls, IsService, id);
    InThose(calls, IsPlan, id);
    InThose(calls, IsApplication, id);
    InThose(calls, IsBackend, id);
    if j: nat :| Makes(calls, j, id) && IsCleaned(calls[j]) {
      MadeOnce(calls, j, k, id);
    }
  }

  /** After every run of the factories, whatever is refused at teardown: each object that was made is
      deleted once and gone, if it was made to be cleaned and neither its hooks nor a refusal keep
      it, and otherwise its deletion never succeeds and it is still there. */
  lemma {:induction false} TeardownExact(skip: bool, calls: seq<Call>, order: seq<Fixture>, refused: set<nat>,
          k: nat, id: nat)
    requires PossibleAll(Empty(skip), calls) && TeardownOrder(order) && BackendsGo(calls, refused)
    requires Makes(calls, k, id)
    ensures var w := PerformAll(Empty(skip), calls);
      var ds := Teardown(Outcome(w, refused), order);
      && Count(ds, id) == (if Deleted(skip, calls, refused, k) then 1 else 0)
      && (Live(DeleteAll(w, ds), id) <==> !Deleted(skip, calls, refused, k))
  {
    var w := PerformAll(Empty(skip), calls);
    var o := Outcome(w, refused);
    BackendsNotRefused(skip, calls, refused);
    RunThenTeardown(skip, calls, order, refused, id);
    AutoExact(skip, calls, k, id);
    if id in w.auto {
      KeptExact(calls, refused, k, id);
    } else {
      assert Reachable(Empty(skip));
      PerformAllKeeps(Empty(skip), calls);
      OutcomeReachable(w, refused);
      OutcomeCleans(w, refused, id);
      NotTouched(o, order, id);
      ServerDecides(w, o, Teardown(o, order));
    }
  }

  /** Nothing else is deleted, and nothing at all when cleanup is skipped. */
  lemma {:induction false} NothingElseDeleted(skip: bool, calls: seq<Call>, order: seq<Fixture>, refused: set<nat>, id: nat)
    requires PossibleAll(Empty(skip), calls) && TeardownOrder(order) && BackendsGo(calls, refused)
    ensures var ds := Teardown(Outcome(PerformAll(Empty(skip), calls), refused), order);
      && (Count(ds, id) > 0 ==> exists k: nat :: Makes(calls, k, id) && Deleted(skip, calls, refused, k))
      && (skip ==> ds == [])
  {
    var w := PerformAll(Empty(skip), calls);
    BackendsNotRefused(skip, calls, refused);
    RunThenTeardown(skip, calls, order, refused, id);
    if id in w.auto {
      RunExact(skip, calls);
      InThose(calls, IsCleaned, id);
      var k: nat :| Makes(calls, k, id) && IsCleaned(calls[k]);
      TeardownExact(skip, calls, order, refused, k, id);
    }
  }

  // ----- Safety, on the calls

  lemma {:induction false} SkipsAll(calls: seq<Call>, refused: set<nat>)
    ensures var o := Outcome(PerformAll(Empty(true), calls), refused);
      o.planList == [] && Going(o.appFins) == [] && Going(o.serviceFins) == []
  {
    RunExact(true, calls);
  }

  lemma {:induction false} RegisteredFins(calls: seq<Call>)
    requires PossibleAll(Empty(false), calls)
    ensures var w := PerformAll(Empty(false), calls);
      && Distinct(Ids(w.appFins)) && HooksHold(w.appFins, calls) && Lists(Ids(w.appFins), calls, IsCleanedApplication)
      && Distinct(Ids(w.serviceFins)) && HooksHold(w.serviceFins, calls) && Lists(Ids(w.serviceFins), calls, IsCleanedService)
  {
    assert Reachable(Empty(false));
    PerformAllKeeps(Empty(false), calls);
    RunExact(false, calls);
    HooksExact(false, calls);
  }

  /** What the registries of the outcome say about the object of one call. */
  lemma {:induction false} GoneExact(skip: bool, calls: seq<Call>, refused: set<nat>, k: nat, id: nat)
    requires PossibleAll(Empty(skip), calls) && Makes(calls, k, id)
    ensures var o := Outcome(PerformAll(Empty(skip), calls), refused);
      && (calls[k].MakePlan? ==> (id in o.planList <==> Deleted(skip, calls, refused, k)))
      && (calls[k].MakeApplication? ==> (id in Going(o.appFins) <==> Deleted(skip, calls, refused, k)))
      && (calls[k].MakeService? ==> (id in Going(o.serviceFins) <==> Deleted(skip, calls, refused, k)))
  {
    var w := PerformAll(Empty(skip), calls);
    if skip {
      SkipsAll(calls, refused);
    } else {
      RegisteredFins(calls);
      match calls[k]
      case MakePlan(_, _, _) => PlanGone(calls, refused, k, id);
      case MakeApplication(_, _, _, _) => FinalizerGone(w.appFins, calls, IsCleanedApplication, refused, k, id);
      case MakeService(_, _, _, _) => FinalizerGone(w.serviceFins, calls, IsCleanedService, refused, k, id);
      case MakeBackend(_, _, _) =>
    }
  }

  lemma {:induction false} PlanGone(calls: seq<Call>, refused: set<nat>, k: nat, id: nat)
    requires Makes(calls, k, id) && calls[k].MakePlan?
    ensures id in UntilRefused(PerformAll(Empty(false), calls).planList, refused) <==> Deleted(false, calls, refused, k)
  {
    var w := PerformAll(Empty(false), calls);
    if calls[k].autoclean {
      PlanPassed(calls, refused, k, id);
    } else {
      UntilRefusedPrefix(w.planList, refused);
      PlanBefore(calls, k, id, id);
      if j: nat :| Makes(calls, j, id) && IsCleanedPlan(calls[j]) {
        MadeOnce(calls, j, k, id);
      }
    }
  }

  lemma {:induction false} FinalizerGone(fins: seq<Finalizer>, calls: seq<Call>, sort: Call -> bool, refused: set<nat>,
          k: nat, id: nat)
    requires Makes(calls, k, id) && !calls[k].MakePlan?
    requires sort(calls[k]) == calls[k].autoclean
    requires Distinct(Ids(fins)) && HooksHold(fins, calls) && Lists(Ids(fins), calls, sort)
    ensures id in Going(Accepted(fins, refused)) <==> Deleted(false, calls, refused, k)
  {
    AcceptedDistinct(fins, refused);
    GoingExact(Accepted(fins, refused), id);
    AcceptedExact(fins, refused, id);
    EscapesInExact(fins, calls, sort, k, id);
    InThose(calls, sort, id);
    InIds(fins, id);
    if j: nat :| Makes(calls, j, id) && sort(calls[j]) {
      MadeOnce(calls, j, k, id);
    }
  }

  /** Call k made an application or plan below the object of call j. */
  predicate ChildOf(calls: seq<Call>, k: nat, j: nat) {
    k < |calls| && calls[k].created &&
    ((calls[k].MakeApplication? && Makes(calls, j, calls[k].plan) && calls[j].MakePlan?) ||
     (calls[k].MakePlan? && Makes(calls, j, calls[k].service) && calls[j].MakeService?))
  }

  /** Whenever the parent an application or plan was made for is deleted, so is the child. */
  ghost predicate ChildrenGo(skip: bool, calls: seq<Call>, refused: set<nat>) {
    forall k: nat, j: nat ::
      ChildOf(calls, k, j) && Deleted(skip, calls, refused, j) ==> Deleted(skip, calls, refused, k)
  }

  /** After every run: no plan is deleted with a live application and no service with a live plan, nor
      a backend with a live usage, if and only if children of deleted parents are deleted too. */
  lemma {:induction false} SafeExact(skip: bool, calls: seq<Call>, order: seq<Fixture>, refused: set<nat>)
    requires PossibleAll(Empty(skip), calls) && TeardownOrder(order) && BackendsGo(calls, refused)
    ensures var w := PerformAll(Empty(skip), calls);
      Safe(w, Teardown(Outcome(w, refused), order)) <==> ChildrenGo(skip, calls, refused)
  {
    var w := PerformAll(Empty(skip), calls);
    var o := Outcome(w, refused);
    BackendsNotRefused(skip, calls, refused);
    RunThenTeardown(skip, calls, order, refused, 0);
    RunExact(skip, calls);
    if ChildrenGo(skip, calls, refused) {
      ClosedWhenChildrenGo(skip, calls, refused);
    }
    if Closed(o) {
      forall k: nat, j: nat | ChildOf(calls, k, j) && Deleted(skip, calls, refused, j)
        ensures Deleted(skip, calls, refused, k)
      {
        ChildGoes(skip, calls, refused, k, j);
      }
    }
  }

  lemma {:induction false} ChildGoes(skip: bool, calls: seq<Call>, refused: set<nat>, k: nat, j: nat)
    requires PossibleAll(Empty(skip), calls) && Closed(Outcome(PerformAll(Empty(skip), calls), refused))
    requires ChildOf(calls, k, j) && Deleted(skip, calls, refused, j)
    ensures Deleted(skip, calls, refused, k)
  {
    var id := Number(calls, k);
    assert Makes(calls, k, id);
    ParentExact(skip, calls, k, id);
    GoneExact(skip, calls, refused, k, id);
    GoneExact(skip, calls, refused, j, Number(calls, j));
  }

  lemma {:induction false} CallsOfApplication(skip: bool, calls: seq<Call>, a: nat) returns (k: nat, j: nat)
    requires PossibleAll(Empty(skip), calls) && a in PerformAll(Empty(skip), calls).apps
    ensures ChildOf(calls, k, j) && calls[k].MakeApplication? && Makes(calls, k, a)
    ensures Makes(calls, j, PerformAll(Empty(skip), calls).apps[a]) && calls[j].MakePlan?
  {
    var w := PerformAll(Empty(skip), calls);
    RunExact(skip, calls);
    assert Reachable(Empty(skip));
    PerformAllKeeps(Empty(skip), calls);
    InThose(calls, IsApplication, a);
    k :| Makes(calls, k, a) && IsApplication(calls[k]);
    ParentExact(skip, calls, k, a);
    InThose(calls, IsPlan, w.apps[a]);
    j :| Makes(calls, j, w.apps[a]) && IsPlan(calls[j]);
  }

  lemma {:induction false} CallsOfPlan(skip: bool, calls: seq<Call>, p: nat) returns (k: nat, j: nat)
    requires PossibleAll(Empty(skip), calls) && p in PerformAll(Empty(skip), calls).plans
    ensures ChildOf(calls, k, j) && calls[k].MakePlan? && Makes(calls, k, p)
    ensures Makes(calls, j, PerformAll(Empty(skip), calls).plans[p]) && calls[j].MakeService?
  {
    var w := PerformAll(Empty(skip), calls);
    RunExact(skip, calls);
    assert Reachable(Empty(skip));
    PerformAllKeeps(Empty(skip), calls);
    InThose(calls, IsPlan, p);
    k :| Makes(calls, k, p) && IsPlan(calls[k]);
    ParentExact(skip, calls, k, p);
    InThose(calls, IsService, w.plans[p]);
    j :| Makes(calls, j, w.plans[p]) && IsService(calls[j]);
  }

  lemma {:induction false} ClosedWhenChildrenGo(skip: bool, calls: seq<Call>, refused: set<nat>)
    requires PossibleAll(Empty(skip), calls) && ChildrenGo(skip, calls, refused)
    ensures Closed(Outcome(PerformAll(Empty(skip), calls), refused))
  {
    var o := Outcome(PerformAll(Empty(skip), calls), refused);
    forall a | a in o.apps && o.apps[a] in o.planList ensures a in Going(o.appFins) {
      var k, j := CallsOfApplication(skip, calls, a);
      GoneExact(skip, calls, refused, k, a);
      GoneExact(skip, calls, refused, j, o.apps[a]);
    }
    forall p | p in o.plans && o.plans[p] in Going(o.serviceFins) ensures p in o.planList {
      var k, j := CallsOfPlan(skip, calls, p);
      GoneExact(skip, calls, refused, k, p);
      GoneExact(skip, calls, refused, j, o.plans[p]);
    }
  }

  // ----- The order of the deletions

  lemma {:induction false} RisingAppend(s: seq<nat>, x: nat)
    requires Rising(s) && forall y :: y in s ==> y < x
    ensures Rising(s + [x])
  {
    forall i, j | 0 <= i < j < |s + [x]| ensures (s + [x])[i] < (s + [x])[j] {
      assert (s + [x])[i] == s[i] && s[i] in s;
    }
  }

  lemma {:induction false} RisingBefore(fins: seq<Finalizer>)
    requires fins != [] && Rising(Ids(fins))
    ensures var n := |fins| - 1;
      && Ids(fins) == Ids(fins[..n]) + [fins[n].id] && Rising(Ids(fins[..n]))
      && forall x :: x in Ids(fins[..n]) ==> x < fins[n].id
  {
    var n := |fins| - 1;
    var ids, before := Ids(fins), Ids(fins[..n]);
    assert ids == before + [fins[n].id];
    forall x | x in before ensures x < fins[n].id {
      var i :| 0 <= i < |before| && before[i] == x;
      assert ids[i] == x && ids[n] == fins[n].id;
    }
    forall i, j | 0 <= i < j < |before| ensures before[i] < before[j] {
      assert ids[i] == before[i] && ids[j] == before[j];
    }
  }

  lemma {:induction false} AcceptedRising(fins: seq<Finalizer>, refused: set<nat>)
    requires Rising(Ids(fins))
    ensures Rising(Ids(Accepted(fins, refused)))
    ensures forall x :: x in Ids(Accepted(fins, refused)) ==> x in Ids(fins)
  {
    if fins != [] {
      var n := |fins| - 1;
      var before := Accepted(fins[..n], refused);
      RisingBefore(fins);
      AcceptedRising(fins[..n], refused);
      if fins[n].id in refused {
        assert before + [] == before;
      } else {
        assert Ids(before + [fins[n]]) == Ids(before) + [fins[n].id];
        RisingAppend(Ids(before), fins[n].id);
      }
    }
  }

  lemma {:induction false} GoingRising(fins: seq<Finalizer>)
    requires Rising(Ids(fins))
    ensures Rising(Going(fins))
    ensures forall x :: x in Going(fins) ==> x in Ids(fins)
  {
    if fins != [] {
      var n := |fins| - 1;
      RisingBefore(fins);
      GoingRising(fins[..n]);
      RisingAppend(Going(fins[..n]), fins[n].id);
    }
  }

  lemma {:induction false} BackendPairs(ids: seq<nat>)
    ensures |BackendDeletions(ids)| == 2 * |ids|
    ensures forall i :: 0 <= i < |ids| ==>
      BackendDeletions(ids)[2 * i] == SweepUsages(ids[i]) && BackendDeletions(ids)[2 * i + 1] == DeleteBackend(ids[i])
  {
    if ids != [] {
      BackendPairs(ids[1..]);
      var rest := BackendDeletions(ids[1..]);
      forall i | 0 <= i < |ids|
        ensures BackendDeletions(ids)[2 * i] == SweepUsages(ids[i]) && BackendDeletions(ids)[2 * i + 1] == DeleteBackend(ids[i])
      {
        if i > 0 {
          assert BackendDeletions(ids)[2 * i] == rest[2 * (i - 1)] && BackendDeletions(ids)[2 * i + 1] == rest[2 * (i - 1) + 1];
        }
      }
    }
  }

  /** The requests of this fixture go from the object made last to the one made first, plans the
      other way, and each backend's usages go just before it. */
  ghost predicate Ordered(f: Fixture, ds: seq<Deletion>) {
    match f
    case Plans => forall i, j :: 0 <= i < j < |ds| ==> ds[i].DeletePlan? && ds[j].DeletePlan? && ds[i].id < ds[j].id
    case Backends =>
      && (forall i :: 0 <= i < |ds| && i % 2 == 0 ==> i + 1 < |ds| && ds[i].SweepUsages? && ds[i + 1] == DeleteBackend(ds[i].id))
      && forall i, j :: 0 <= i < j < |ds| && i % 2 == 0 && j % 2 == 0 ==> ds[i].id > ds[j].id
    case _ => forall i, j :: 0 <= i < j < |ds| ==> ds[i] == OwnDeletion(f, ds[i].id) && ds[i].id > ds[j].id
  }

  /** After every run: a fixture's finalizers delete the objects made last first, and the one plan
      finalizer in the order the plans were made. */
  lemma {:induction false} OrderExact(skip: bool, calls: seq<Call>, refused: set<nat>, f: Fixture)
    ensures Ordered(f, Finalizers(Outcome(PerformAll(Empty(skip), calls), refused), f))
  {
    var w := PerformAll(Empty(skip), calls);
    var o := Outcome(w, refused);
    RunExact(skip, calls);
    match f
    case Plans =>
      UntilRefusedPrefix(w.planList, refused);
      PlansOrdered(o.planList);
    case Applications =>
      AcceptedRising(w.appFins, refused);
      GoingRising(o.appFins);
      ReversedOrdered(f, Going(o.appFins));
    case Services =>
      AcceptedRising(w.serviceFins, refused);
      GoingRising(o.serviceFins);
      ReversedOrdered(f, Going(o.serviceFins));
    case Backends =>
      GoingRising(w.backendFins);
      BackendsOrdered(Reversed(Going(w.backendFins)));
  }

  lemma {:induction false} PlansOrdered(ids: seq<nat>)
    requires Rising(ids)
    ensures Ordered(Plans, Deletions(Plans, ids))
  {
  }

  lemma {:induction false} ReversedOrdered(f: Fixture, ids: seq<nat>)
    requires (f.Applications? || f.Services?) && Rising(ids)
    ensures Ordered(f, Deletions(f, Reversed(ids)))
  {
  }

  lemma {:induction false} BackendsOrdered(ids: seq<nat>)
    requires forall i, j :: 0 <= i < j < |ids| ==> ids[i] > ids[j]
    ensures Ordered(Backends, BackendDeletions(ids))
  {
    var ds := BackendDeletions(ids);
    BackendPairs(ids);
    forall i | 0 <= i < |ds| && i % 2 == 0
      ensures i + 1 < |ds| && ds[i].SweepUsages? && ds[i + 1] == DeleteBackend(ds[i].id) && ds[i].id == ids[i / 2]
    {
      assert ds[2 * (i / 2)] == SweepUsages(ids[i / 2]);
    }
  }

  /** The usages left are those of no deleted service and of no swept backend. */
  lemma {:induction false} UsagesLeft(w: World, ds: seq<Deletion>, u: (nat, nat))
    ensures u in DeleteAll(w, ds).usages <==> u in w.usages && DeleteService(u.0) !in ds && SweepUsages(u.1) !in ds
    decreases |ds|
  {
    if ds != [] {
      UsagesLeft(Delete(w, ds[0]), ds[1..], u);
      assert forall d :: d in ds <==> d == ds[0] || d in ds[1..];
    }
  }
}
