/** The capability registry of `testsuite/capabilities/__init__.py`: providers are run only
    when one of the capabilities they declare is asked for. */
module Capabilities {
  import opened Wrappers

  /** A provider declares what it may find and finds some capabilities when run. */
  datatype Provider = Provider(declares: set<string>, finds: set<string>)

  datatype Registry = Registry(providers: seq<Provider>, discovered: set<string>, capabilities: set<string>,
          ran: seq<nat>)

  const EMPTY := Registry([], {}, {}, [])

  /** Unpacking the None of a failed lookup raises TypeError; a provider may raise when run. */
  datatype Raised = TypeError | ProviderFailed

  /** `_find_provider`: the index of the first provider declaring it. */
  function FindProvider(providers: seq<Provider>, item: string): (i: nat)
    ensures i <= |providers|
    ensures i < |providers| ==> item in providers[i].declares
    ensures forall j :: 0 <= j < i ==> item !in providers[j].declares
  {
    if providers == [] || item in providers[0].declares then 0 else 1 + FindProvider(providers[1..], item)
  }

  function Register(r: Registry, p: Provider): Registry {
    r.(providers := r.providers + [p])
  }

  /** Running provider i. */
  function Discover(r: Registry, i: nat): Registry
    requires i < |r.providers|
  {
    r.(discovered := r.discovered + r.providers[i].declares, capabilities := r.capabilities + r.providers[i].finds,
       ran := r.ran + [i])
  }

  /** `item in registry`; `up` tells whether a provider that is run returns. One that raises leaves
      everything as it was, so it is run again when next asked for. */
  function Query(r: Registry, item: string, up: bool): (Registry, Result<bool, Raised>) {
    if item in r.discovered then (r, Ok(item in r.capabilities))
    else
      var i := FindProvider(r.providers, item);
      if i == |r.providers| then (r, Err(TypeError))
      else if !up then (r, Err(ProviderFailed))
      else (Discover(r, i), Ok(item in Discover(r, i).capabilities))
  }

  class CapabilityRegistry {
    var providers: seq<Provider>
    var discovered: set<string>
    var capabilities: set<string>
    ghost var ran: seq<nat>

    ghost function State(): Registry
      reads this
    {
      Registry(providers, discovered, capabilities, ran)
    }

    constructor ()
      ensures State() == EMPTY
    {
      providers, discovered, capabilities, ran := [], {}, {}, [];
    }

    method RegisterProvider(p: Provider)
      modifies this
      ensures State() == Register(old(State()), p)
    {
      providers := providers + [p];
    }

    method Find(item: string) returns (found: Option<nat>)
      ensures found == if FindProvider(providers, item) < |providers| then Some(FindProvider(providers, item)) else None
    {
      for i := 0 to |providers|
        invariant forall j :: 0 <= j < i ==> item !in providers[j].declares
      {
        if item in providers[i].declares {
          return Some(i);
        }
      }
      return None;
    }

    method Contains(item: string, up: bool) returns (r: Result<bool, Raised>)
      modifies this
      ensures (State(), r) == Query(old(State()), item, up)
    {
      if item !in discovered {
        var found := Find(item);
        if found.None? { return Err(TypeError); }
        if !up { return Err(ProviderFailed); }
        var p := providers[found.value];
        discovered, capabilities := discovered + p.declares, capabilities + p.finds;
        ran := ran + [found.value];
      }
      return Ok(item in capabilities);
    }
  }

  // ----- Lazy against eager

  datatype Event = Registration(provider: Provider) | Question(item: string, up: bool)

  /** Registrations and questions in any order, with the answers given. */
  function Lazily(r: Registry, events: seq<Event>): (Registry, seq<Result<bool, Raised>>)
    decreases |events|
  {
    if events == [] then (r, [])
    else match events[0]
      case Registration(p) => Lazily(Register(r, p), events[1..])
      case Question(item, up) =>
        var (next, answer) := Query(r, item, up);
        var (last, answers) := Lazily(next, events[1..]);
        (last, [answer] + answers)
  }

  /** Every provider is run as soon as it is registered. */
  function Eagerly(r: Registry, events: seq<Event>): (Registry, seq<Result<bool, Raised>>)
    decreases |events|
  {
    if events == [] then (r, [])
    else match events[0]
      case Registration(p) => Eagerly(Discover(Register(r, p), |r.providers|), events[1..])
      case Question(item, up) =>
        var (next, answer) := Query(r, item, up);
        var (last, answers) := Eagerly(next, events[1..]);
        (last, [answer] + answers)
  }

  function Providers(events: seq<Event>): seq<Provider> {
    if events == [] then []
    else (if events[0].Registration? then [events[0].provider] else []) + Providers(events[1..])
  }

  ghost predicate Disjoint(providers: seq<Provider>) {
    forall i, j :: 0 <= i < j < |providers| ==> providers[i].declares !! providers[j].declares
  }

  ghost predicate Honest(providers: seq<Provider>) {
    forall i :: 0 <= i < |providers| ==> providers[i].finds <= providers[i].declares
  }

  /** Found and known are what the run providers returned and declared; none ran twice. */
  ghost predicate Consistent(r: Registry) {
    && (forall i :: i in r.ran ==> i < |r.providers|)
    && (forall x :: x in r.discovered <==> exists i :: i in r.ran && x in r.providers[i].declares)
    && (forall x :: x in r.capabilities <==> exists i :: i in r.ran && x in r.providers[i].finds)
    && (forall i, j :: 0 <= i < j < |r.ran| ==> r.ran[i] != r.ran[j])
  }

  lemma {:induction false} DiscoverKeeps(r: Registry, i: nat)
    requires Consistent(r) && i < |r.providers| && i !in r.ran
    ensures Consistent(Discover(r, i))
  {
    var r' := Discover(r, i);
    forall x ensures x in r'.discovered <==> exists k :: k in r'.ran && x in r'.providers[k].declares {
      if x in r.providers[i].declares { assert i in r'.ran; }
      if x in r.discovered {
        var k :| k in r.ran && x in r.providers[k].declares;
        assert k in r'.ran;
      }
    }
    forall x ensures x in r'.capabilities <==> exists k :: k in r'.ran && x in r'.providers[k].finds {
      if x in r.providers[i].finds { assert i in r'.ran; }
      if x in r.capabilities {
        var k :| k in r.ran && x in r.providers[k].finds;
        assert k in r'.ran;
      }
    }
  }

  // ----- Unknown capabilities

  /** A question keeps the registry consistent, however the declarations overlap. */
  lemma {:induction false} QueryKeeps(r: Registry, item: string, up: bool)
    requires Consistent(r)
    ensures Consistent(Query(r, item, up).0) && Query(r, item, up).0.providers == r.providers
  {
    var i := FindProvider(r.providers, item);
    if item !in r.discovered && i < |r.providers| {
      assert i !in r.ran;
      DiscoverKeeps(r, i);
    }
  }

  ghost predicate Declared(providers: seq<Provider>, item: string) {
    exists i :: 0 <= i < |providers| && item in providers[i].declares
  }

  /** A question raises if and only if no provider declares the capability: the branch that is
      meant to answer False for it is never reached. */
  lemma {:induction false} QueryRaisesExact(r: Registry, item: string, up: bool)
    requires Consistent(r)
    ensures Query(r, item, up).1 == Err(TypeError) <==> !Declared(r.providers, item)
  {
    if item in r.discovered {
      var i :| i in r.ran && item in r.providers[i].declares;
      assert Declared(r.providers, item);
    }
  }

  lemma {:induction false} LazilyConcat(r: Registry, a: seq<Event>, b: seq<Event>)
    ensures var (mid, answers) := Lazily(r, a);
      Lazily(r, a + b) == (Lazily(mid, b).0, answers + Lazily(mid, b).1)
    decreases |a|
  {
    if a == [] {
      assert a + b == b;
      assert Lazily(r, a).1 + Lazily(r, b).1 == Lazily(r, b).1;
    } else {
      assert (a + b)[1..] == a[1..] + b;
      match a[0]
      case Registration(p) => LazilyConcat(Register(r, p), a[1..], b);
      case Question(item, up) =>
        var (next, answer) := Query(r, item, up);
        LazilyConcat(next, a[1..], b);
        var (mid, answers) := Lazily(next, a[1..]);
        assert [answer] + (answers + Lazily(mid, b).1) == [answer] + answers + Lazily(mid, b).1;
    }
  }

  lemma {:induction false} QueryProviders(r: Registry, item: string, up: bool)
    ensures Query(r, item, up).0.providers == r.providers
  {
  }

  lemma {:induction false} LazilyProviders(r: Registry, events: seq<Event>)
    ensures Lazily(r, events).0.providers == r.providers + Providers(events)
    decreases |events|
  {
    if events == [] {
      assert r.providers + [] == r.providers;
    } else {
      match events[0]
      case Registration(p) =>
        LazilyProviders(Register(r, p), events[1..]);
        assert r.providers + [p] + Providers(events[1..]) == r.providers + ([p] + Providers(events[1..]));
      case Question(item, up) =>
        QueryProviders(r, item, up);
        LazilyProviders(Query(r, item, up).0, events[1..]);
        assert Providers(events) == Providers(events[1..]);
    }
  }

  lemma {:induction false} LazilyKeeps(r: Registry, events: seq<Event>)
    requires Consistent(r)
    ensures Consistent(Lazily(r, events).0)
    decreases |events|
  {
    if events != [] {
      match events[0]
      case Registration(p) =>
        RegisterKeeps(r, p);
        LazilyKeeps(Register(r, p), events[1..]);
      case Question(item, up) =>
        QueryKeeps(r, item, up);
        LazilyKeeps(Query(r, item, up).0, events[1..]);
    }
  }

  lemma {:induction false} AskedAfter(before: seq<Event>, item: string, up: bool)
    ensures var (mid, answers) := Lazily(EMPTY, before);
      Lazily(EMPTY, before + [Question(item, up)]).1 == answers + [Query(mid, item, up).1]
  {
    var question := [Question(item, up)];
    LazilyConcat(EMPTY, before, question);
    assert question[1..] == [];
  }

  /** In every run of registrations and questions, whatever the providers declare or find, a
      question raises TypeError if and only if none of the providers registered before it declares
      the capability; it changes no answer given before. */
  lemma {:induction false} UnknownRaisesExact(before: seq<Event>, item: string, up: bool, after: seq<Event>)
    ensures var n, answers := |Lazily(EMPTY, before).1|, Lazily(EMPTY, before + [Question(item, up)] + after).1;
      && n < |answers|
      && answers[..n] == Lazily(EMPTY, before).1
      && (answers[n] == Err(TypeError) <==> !Declared(Providers(before), item))
  {
    LazilyConcat(EMPTY, before + [Question(item, up)], after);
    AskedAfter(before, item, up);
    LazilyKeeps(EMPTY, before);
    LazilyProviders(EMPTY, before);
    var mid := Lazily(EMPTY, before).0;
    assert mid.providers == Providers(before);
    QueryRaisesExact(mid, item, up);
  }

  // ----- Providers are run only when asked for

  /** Question k, answered by a provider that returns, is the business of provider i: the first one
      registered by then that declares the capability. */
  ghost predicate AsksFor(events: seq<Event>, k: nat, i: nat) {
    && k < |events| && events[k].Question? && events[k].up
    && i < |Providers(events[..k])| && events[k].item in Providers(events[..k])[i].declares
    && forall j :: 0 <= j < i ==> events[k].item !in Providers(events[..k])[j].declares
  }

  lemma {:induction false} LazilyLast(events: seq<Event>)
    requires events != []
    ensures var n := |events| - 1;
      var mid := Lazily(EMPTY, events[..n]).0;
      Lazily(EMPTY, events).0 ==
      match events[n]
      case Registration(p) => Register(mid, p)
      case Question(item, up) => Query(mid, item, up).0
  {
    var n := |events| - 1;
    assert events == events[..n] + [events[n]] && [events[n]][1..] == [];
    LazilyConcat(EMPTY, events[..n], [events[n]]);
  }

  lemma {:induction false} AsksForInPrefix(events: seq<Event>, n: nat, k: nat, i: nat)
    requires k < n <= |events|
    ensures AsksFor(events[..n], k, i) <==> AsksFor(events, k, i)
  {
    assert events[..n][..k] == events[..k];
  }

  /** Over every run: a provider has been run only if some question was its business. */
  lemma {:induction false} RanWasAsked(events: seq<Event>, i: nat)
    requires i in Lazily(EMPTY, events).0.ran
    ensures exists k: nat :: AsksFor(events, k, i)
    decreases |events|
  {
    if events != [] {
      var n := |events| - 1;
      var mid := Lazily(EMPTY, events[..n]).0;
      LazilyLast(events);
      LazilyProviders(EMPTY, events[..n]);
      assert mid.providers == Providers(events[..n]);
      if i in mid.ran {
        RanWasAsked(events[..n], i);
        var k: nat :| AsksFor(events[..n], k, i);
        AsksForInPrefix(events, n, k, i);
      } else {
        assert AsksFor(events, n, i);
      }
    }
  }

  /** What was asked of a provider that did not raise has been discovered. */
  lemma {:induction false} AskedIsDiscovered(events: seq<Event>, k: nat, i: nat)
    requires AsksFor(events, k, i)
    ensures events[k].item in Lazily(EMPTY, events).0.discovered
    decreases |events|
  {
    var n := |events| - 1;
    var mid := Lazily(EMPTY, events[..n]).0;
    LazilyLast(events);
    if k < n {
      AsksForInPrefix(events, n, k, i);
      AskedIsDiscovered(events[..n], k, i);
    } else {
      LazilyProviders(EMPTY, events[..n]);
      assert mid.providers == Providers(events[..n]);
      assert FindProvider(mid.providers, events[n].item) == i;
    }
  }

  /** The one answer there is: whether the declaring provider returned it. */
  function Truth(providers: seq<Provider>, item: string): Result<bool, Raised> {
    var i := FindProvider(providers, item);
    if i == |providers| then Err(TypeError) else Ok(item in providers[i].finds)
  }

  /** The answer does not depend on what was asked before, but for a provider that raises when it
      is run for this very question. */
  lemma {:induction false} QueryIsTruth(r: Registry, item: string, up: bool)
    requires Consistent(r) && Disjoint(r.providers) && Honest(r.providers)
    ensures Query(r, item, up).1 ==
            if !up && item !in r.discovered && Declared(r.providers, item) then Err(ProviderFailed)
            else Truth(r.providers, item)
    ensures Consistent(Query(r, item, up).0) && Query(r, item, up).0.providers == r.providers
  {
    var i := FindProvider(r.providers, item);
    QueryKeeps(r, item, up);
    if item in r.discovered {
      var k :| k in r.ran && item in r.providers[k].declares;
      assert k == i;
      SoleSource(r, item, i);
    } else if i < |r.providers| {
      assert Declared(r.providers, item);
      if up {
        assert i !in r.ran;
        DiscoverKeeps(r, i);
        assert i in Discover(r, i).ran;
        SoleSource(Discover(r, i), item, i);
      }
    }
  }

  lemma {:induction false} SoleSource(r: Registry, item: string, i: nat)
    requires Consistent(r) && Disjoint(r.providers) && Honest(r.providers)
    requires i in r.ran && item in r.providers[i].declares
    ensures item in r.capabilities <==> item in r.providers[i].finds
  {
    if item in r.capabilities {
      var k :| k in r.ran && item in r.providers[k].finds;
      assert item in r.providers[k].declares;
      assert k == i;
    }
  }

  ghost predicate AllRan(r: Registry) {
    Consistent(r) && forall i :: 0 <= i < |r.providers| ==> i in r.ran
  }

  lemma {:induction false} RegisterKeeps(r: Registry, p: Provider)
    requires Consistent(r)
    ensures Consistent(Register(r, p))
  {
    assert forall i :: i in r.ran ==> Register(r, p).providers[i] == r.providers[i];
  }

  lemma {:induction false} RegisterAndRun(r: Registry, p: Provider)
    requires AllRan(r)
    ensures AllRan(Discover(Register(r, p), |r.providers|))
  {
    RegisterKeeps(r, p);
    RunLast(Register(r, p));
  }

  lemma {:induction false} RunLast(r: Registry)
    requires Consistent(r) && r.providers != [] && |r.providers| - 1 !in r.ran
    requires forall i :: 0 <= i < |r.providers| - 1 ==> i in r.ran
    ensures AllRan(Discover(r, |r.providers| - 1))
  {
    DiscoverKeeps(r, |r.providers| - 1);
  }

  lemma {:induction false} Earlier(providers: seq<Provider>, more: seq<Provider>)
    requires Disjoint(providers + more) && Honest(providers + more)
    ensures Disjoint(providers) && Honest(providers)
  {
    var all := providers + more;
    assert forall i :: 0 <= i < |providers| ==> all[i] == providers[i];
  }

  /** No provider raises. */
  predicate AllReturn(events: seq<Event>) {
    forall k :: 0 <= k < |events| && events[k].Question? ==> events[k].up
  }

  /** The same answers, but for providers that raised. */
  ghost predicate SameButRaised(lazy: seq<Result<bool, Raised>>, eager: seq<Result<bool, Raised>>) {
    |lazy| == |eager| && forall k :: 0 <= k < |lazy| ==> lazy[k] == eager[k] || lazy[k] == Err(ProviderFailed)
  }

  lemma {:induction false} SameCons(a: Result<bool, Raised>, lazy: seq<Result<bool, Raised>>, b: Result<bool, Raised>,
          eager: seq<Result<bool, Raised>>)
    requires SameButRaised(lazy, eager) && (a == b || a == Err(ProviderFailed))
    ensures SameButRaised([a] + lazy, [b] + eager)
  {
  }

  /** For disjoint, honest providers the lazy registry answers every sequence of registrations and
      questions as the eager one does, except where a provider raises, and altogether as it does
      when none raises; and neither completes a provider twice. */
  lemma {:induction false} LazyIsEager(lazy: Registry, eager: Registry, events: seq<Event>)
    requires lazy.providers == eager.providers && Consistent(lazy) && AllRan(eager)
    requires Disjoint(lazy.providers + Providers(events)) && Honest(lazy.providers + Providers(events))
    ensures SameButRaised(Lazily(lazy, events).1, Eagerly(eager, events).1)
    ensures AllReturn(events) ==> Lazily(lazy, events).1 == Eagerly(eager, events).1
    ensures Consistent(Lazily(lazy, events).0)
    decreases |events|
  {
    if events != [] {
      assert AllReturn(events) ==> AllReturn(events[1..]);
      match events[0]
      case Registration(p) =>
        assert lazy.providers + [p] + Providers(events[1..]) == lazy.providers + Providers(events);
        RegisterKeeps(lazy, p);
        RegisterAndRun(eager, p);
        LazyIsEager(Register(lazy, p), Discover(Register(eager, p), |eager.providers|), events[1..]);
      case Question(item, up) =>
        Earlier(lazy.providers, Providers(events));
        QueryIsTruth(lazy, item, up);
        QueryIsTruth(eager, item, up);
        assert Providers(events) == Providers(events[1..]);
        EagerStays(eager, item, up);
        LazyIsEager(Query(lazy, item, up).0, eager, events[1..]);
        SameCons(Query(lazy, item, up).1, Lazily(Query(lazy, item, up).0, events[1..]).1,
                 Query(eager, item, up).1, Eagerly(eager, events[1..]).1);
    }
  }

  /** With every provider run, a declared capability is discovered already. */
  lemma {:induction false} EagerStays(r: Registry, item: string, up: bool)
    requires AllRan(r)
    ensures Query(r, item, up).0 == r
    ensures Query(r, item, up).1 != Err(ProviderFailed)
  {
    var i := FindProvider(r.providers, item);
    if i < |r.providers| {
      assert i in r.ran && item in r.providers[i].declares;
    }
  }

  lemma {:induction false} RegisteredFirst(r: Registry, p: Provider, rest: seq<Event>)
    ensures Lazily(r, [Registration(p)] + rest) == Lazily(Register(r, p), rest)
    ensures Eagerly(r, [Registration(p)] + rest) == Eagerly(Discover(Register(r, p), |r.providers|), rest)
    ensures Providers([Registration(p)] + rest) == [p] + Providers(rest)
  {
    assert ([Registration(p)] + rest)[1..] == rest;
  }

  lemma {:induction false} AskedOnce(r: Registry, item: string, up: bool)
    ensures Lazily(r, [Question(item, up)]).1 == Eagerly(r, [Question(item, up)]).1 == [Query(r, item, up).1]
    ensures Providers([Question(item, up)]) == []
  {
    assert [Question(item, up)][1..] == [];
  }

  lemma {:induction false} TwoThenAsked(p: Provider, q: Provider, item: string, up: bool)
    ensures var events := [Registration(p)] + ([Registration(q)] + [Question(item, up)]);
      && Providers(events) == [p, q]
      && Lazily(EMPTY, events).1 == [Query(Register(Register(EMPTY, p), q), item, up).1]
      && Eagerly(EMPTY, events).1 == [Query(Discover(Register(Discover(Register(EMPTY, p), 0), q), 1), item, up).1]
  {
    var last := [Question(item, up)];
    RegisteredFirst(EMPTY, p, [Registration(q)] + last);
    RegisteredFirst(Register(EMPTY, p), q, last);
    RegisteredFirst(Discover(Register(EMPTY, p), 0), q, last);
    AskedOnce(Register(Register(EMPTY, p), q), item, up);
    AskedOnce(Discover(Register(Discover(Register(EMPTY, p), 0), q), 1), item, up);
  }

  /** With overlapping declarations the first provider answers for both and the two differ. */
  lemma {:induction false} OverlapDiffers()
    ensures exists events :: Honest(Providers(events)) && Lazily(EMPTY, events).1 != Eagerly(EMPTY, events).1
  {
    var p, q := Provider({"a", "b"}, {}), Provider({"b"}, {"b"});
    TwoThenAsked(p, q, "b", true);
    assert Register(Register(EMPTY, p), q).providers == [p, q];
    assert Query(Register(Register(EMPTY, p), q), "b", true).1 == Ok(false);
    assert Query(Discover(Register(Discover(Register(EMPTY, p), 0), q), 1), "b", true).1 == Ok(true);
  }
}
