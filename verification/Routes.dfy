/** Which OpenShift routes a gateway keeps track of: `add_route`, `delete_route` and `destroy`
    of `testsuite/gateways/apicast/__init__.py`, and the hooks of `zyncless.py`. */
module Routes {
  import opened Wrappers

  /** The live routes, true when this gateway created them, and the gateway's `_routes`. */
  datatype State = State(live: map<string, bool>, tracked: seq<string>)

  const EMPTY := State(map[], [])

  /** What the gateway, or anybody else, does. `Recreate` is the route creation of
      ZyncLessApicast, which removes a route of that name first; `up` tells whether the cluster
      does what is asked of it, and `failure` the number of the deletion that `destroy` fails at. */
  datatype Event =
    | AddRoute(name: string, up: bool)
    | DeleteRoute(name: string, up: bool)
    | Recreate(name: string, up: bool)
    | Destroy(failure: Option<nat>)
    | OutsideDelete(name: string)
    | OutsideCreate(name: string)

  /** `list.remove(x)` */
  function RemoveOne(s: seq<string>, x: string): (r: seq<string>)
    ensures forall y :: y != x ==> (y in r <==> y in s)
    ensures |r| == if x in s then |s| - 1 else |s|
  {
    if s == [] then []
    else if s[0] == x then
      assert s == [s[0]] + s[1..];
      s[1..]
    else
      var r := [s[0]] + RemoveOne(s[1..], x);
      assert forall y :: y in s <==> y == s[0] || y in s[1..];
      assert forall y :: y in r <==> y == s[0] || y in RemoveOne(s[1..], x);
      r
  }

  function Untracked(live: map<string, bool>, tracked: seq<string>): map<string, bool> {
    map n | n in live && n !in tracked :: live[n]
  }

  /** The walk of `destroy` over the tracked names: what is left live, and whether it raised. */
  function Walk(live: map<string, bool>, tracked: seq<string>, failure: Option<nat>): (map<string, bool>, bool) {
    if tracked == [] then (live, false)
    else if tracked[0] !in live then Walk(live, tracked[1..], failure)
    else if failure == Some(0) then (live, true)
    else Walk(live - {tracked[0]}, tracked[1..], if failure.Some? then Some(failure.value - 1) else None)
  }

  /** The names the walk has passed when it ends. */
  function Passed(live: map<string, bool>, tracked: seq<string>, failure: Option<nat>): (k: nat)
    ensures k <= |tracked|
  {
    if tracked == [] then 0
    else if tracked[0] !in live then 1 + Passed(live, tracked[1..], failure)
    else if failure == Some(0) then 0
    else 1 + Passed(live - {tracked[0]}, tracked[1..], if failure.Some? then Some(failure.value - 1) else None)
  }

  /** What is left are the live routes of names not passed; the walk raises exactly when it has
      not passed all, and then it stopped at a live one. */
  lemma {:induction false} WalkExact(live: map<string, bool>, tracked: seq<string>, failure: Option<nat>)
    ensures var (left, raised), k := Walk(live, tracked, failure), Passed(live, tracked, failure);
      && left == Untracked(live, tracked[..k])
      && (raised <==> k < |tracked|)
      && (raised ==> failure.Some? && tracked[k] in left)
    decreases |tracked|
  {
    if tracked == [] {
      assert Untracked(live, []) == live;
    } else if tracked[0] !in live {
      WalkExact(live, tracked[1..], failure);
      PassOne(live, tracked, 1 + Passed(live, tracked[1..], failure));
    } else if failure == Some(0) {
      assert Untracked(live, tracked[..0]) == live;
    } else {
      var next := if failure.Some? then Some(failure.value - 1) else None;
      WalkExact(live - {tracked[0]}, tracked[1..], next);
      PassOne(live, tracked, 1 + Passed(live - {tracked[0]}, tracked[1..], next));
    }
  }

  /** So many of these names are gone. */
  function Gone(all: set<string>, left: set<string>): nat {
    |all - left|
  }

  lemma {:induction false} OneGone(all: set<string>, name: string, left: set<string>)
    requires name in all && left <= all - {name}
    ensures Gone(all, left) == Gone(all - {name}, left) + 1
  {
    assert all - left == (all - {name} - left) + {name};
  }

  lemma {:induction false} NoneGone(all: set<string>)
    ensures Gone(all, all) == 0
  {
    assert all - all == {};
  }

  lemma {:induction false} RestKeys(live: map<string, bool>, name: string)
    ensures (live - {name}).Keys == live.Keys - {name}
  {
  }

  /** It raises after exactly as many deletions as the number of the failing request says. */
  lemma {:induction false} WalkCounts(live: map<string, bool>, tracked: seq<string>, failure: Option<nat>)
    ensures var (left, raised) := Walk(live, tracked, failure);
      && left.Keys <= live.Keys
      && (failure.Some? ==> Gone(live.Keys, left.Keys) <= failure.value)
      && (raised ==> failure.Some? && Gone(live.Keys, left.Keys) == failure.value)
    decreases |tracked|
  {
    NoneGone(live.Keys);
    if tracked != [] {
      if tracked[0] !in live {
        WalkCounts(live, tracked[1..], failure);
      } else if failure != Some(0) {
        var rest, next := live - {tracked[0]}, if failure.Some? then Some(failure.value - 1) else None;
        WalkCounts(rest, tracked[1..], next);
        RestKeys(live, tracked[0]);
        OneGone(live.Keys, tracked[0], Walk(rest, tracked[1..], next).0.Keys);
      }
    }
  }

  lemma {:induction false} PassOne(live: map<string, bool>, tracked: seq<string>, k: nat)
    requires 1 <= k <= |tracked|
    ensures Untracked(live, tracked[..k]) == Untracked(live - {tracked[0]}, tracked[1..][..k - 1])
    ensures tracked[0] !in live ==> Untracked(live, tracked[..k]) == Untracked(live, tracked[1..][..k - 1])
  {
    assert tracked[..k] == [tracked[0]] + tracked[1..][..k - 1];
  }

  /** Creating a route whose name is taken raises, and so does a creation that is not accepted. */
  function Perform(s: State, e: Event): State {
    match e
    case AddRoute(n, up) => if n in s.live || !up then s else State(s.live[n := true], s.tracked + [n])
    case DeleteRoute(n, up) => if n in s.tracked && n in s.live && up then State(s.live - {n}, RemoveOne(s.tracked, n)) else s
    case Recreate(n, up) => if up then State(s.live[n := true], s.tracked + [n]) else s.(live := s.live - {n})
    case Destroy(failure) => s.(live := Walk(s.live, s.tracked, failure).0)
    case OutsideDelete(n) => s.(live := s.live - {n})
    case OutsideCreate(n) => if n in s.live then s else s.(live := s.live[n := false])
  }

  lemma {:induction false} RemoveOneExact(s: seq<string>, x: string)
    ensures multiset(RemoveOne(s, x)) == multiset(s) - multiset{x}
  {
    if s != [] {
      assert s == [s[0]] + s[1..];
      if s[0] != x {
        RemoveOneExact(s[1..], x);
      }
    }
  }

  /** What each request leaves under its name and under any other: a creation that is accepted makes
      the route this gateway's and tracks it once more, a refused one leaves what was there, but
      after a recreation nothing; a deletion takes a tracked live route with one entry. */
  lemma {:induction false} RequestExact(s: State, name: string, other: string, up: bool)
    requires other != name
    ensures var added := Perform(s, AddRoute(name, up));
      if up && name !in s.live then
        && name in added.live && added.live[name] && added.tracked == s.tracked + [name]
        && added.live - {name} == s.live
      else added == s
    ensures var made := Perform(s, Recreate(name, up));
      && made.live - {name} == s.live - {name}
      && (if up then name in made.live && made.live[name] && made.tracked == s.tracked + [name]
          else name !in made.live && made.tracked == s.tracked)
    ensures var deleted := Perform(s, DeleteRoute(name, up));
      if up && name in s.tracked && name in s.live then
        && name !in deleted.live && deleted.live == s.live - {name}
        && multiset(deleted.tracked) == multiset(s.tracked) - multiset{name}
      else deleted == s
  {
    RemoveOneExact(s.tracked, name);
    assert s.live[name := true] - {name} == s.live - {name};
    if name !in s.live {
      assert s.live - {name} == s.live;
    }
  }

  function PerformAll(s: State, events: seq<Event>): State
    decreases |events|
  {
    if events == [] then s else PerformAll(Perform(s, events[0]), events[1..])
  }

  /** Every live route the gateway created is tracked. */
  predicate Tracks(s: State) {
    forall n :: n in s.live && s.live[n] ==> n in s.tracked
  }

  lemma {:induction false} StepTracks(s: State, e: Event)
    requires Tracks(s)
    ensures Tracks(Perform(s, e))
  {
    if e.Destroy? {
      WalkExact(s.live, s.tracked, e.failure);
    }
  }

  /** Over every run, whatever fails: every live route the gateway created is tracked. */
  lemma {:induction false} AlwaysTracks(s: State, events: seq<Event>)
    requires Tracks(s)
    ensures Tracks(PerformAll(s, events))
    decreases |events|
  {
    if events != [] {
      StepTracks(s, events[0]);
      AlwaysTracks(Perform(s, events[0]), events[1..]);
    }
  }

  /** Over every run, with routes created twice, removed or replaced from outside and requests that
      fail: deleting a name leaves a route of it that the gateway created if and only if there is
      one and the request fails. After a `destroy` that goes through there is none at all, and
      destroying again changes nothing. */
  lemma {:induction false} NothingLeftBehind(events: seq<Event>, name: string, up: bool, again: Option<nat>)
    ensures var s := PerformAll(EMPTY, events);
      && (var deleted := Perform(s, DeleteRoute(name, up));
          (name in deleted.live && deleted.live[name]) <==> (name in s.live && s.live[name] && !up))
      && (var destroyed := Perform(s, Destroy(None));
          && (forall n :: n in destroyed.live ==> !destroyed.live[n])
          && Perform(destroyed, Destroy(again)) == destroyed)
  {
    AlwaysTracks(EMPTY, events);
    var s := PerformAll(EMPTY, events);
    WalkExact(s.live, s.tracked, None);
    assert s.tracked[..|s.tracked|] == s.tracked;
    var left := Untracked(s.live, s.tracked);
    NothingToWalk(left, s.tracked, again);
  }

  lemma {:induction false} NothingToWalk(live: map<string, bool>, tracked: seq<string>, failure: Option<nat>)
    requires forall n :: n in tracked ==> n !in live
    ensures Walk(live, tracked, failure) == (live, false)
  {
    if tracked != [] {
      assert tracked[0] in tracked;
      NothingToWalk(live, tracked[1..], failure);
    }
  }

  /** A `destroy` that fails leaves exactly the routes of the names it has not passed, every one of
      the gateway's among them still tracked; repeating it finishes what it began. */
  lemma {:induction false} FailedDestroyExact(events: seq<Event>, failure: Option<nat>)
    ensures var s := PerformAll(EMPTY, events);
      var left, k := Perform(s, Destroy(failure)), Passed(s.live, s.tracked, failure);
      && left == State(Untracked(s.live, s.tracked[..k]), s.tracked)
      && (Walk(s.live, s.tracked, failure).1 <==> k < |s.tracked|)
      && (k < |s.tracked| ==> s.tracked[k] in left.live)
      && Tracks(left)
      && Perform(left, Destroy(None)) == Perform(s, Destroy(None))
  {
    AlwaysTracks(EMPTY, events);
    var s := PerformAll(EMPTY, events);
    var left, k := Perform(s, Destroy(failure)), Passed(s.live, s.tracked, failure);
    StepTracks(s, Destroy(failure));
    WalkExact(s.live, s.tracked, failure);
    WalkExact(s.live, s.tracked, None);
    WalkExact(left.live, s.tracked, None);
    assert s.tracked[..|s.tracked|] == s.tracked;
    assert Untracked(Untracked(s.live, s.tracked[..k]), s.tracked) == Untracked(s.live, s.tracked);
  }

  /** The request for this name is made. */
  predicate Requested(s: State, name: string) {
    name in s.tracked && name in s.live
  }

  /** `on_service_delete` of ZyncLessApicast; `up` and `upAgain` answer the two requests. */
  function ServiceDeleted(s: State, stage: string, production: string, up: bool, upAgain: bool): State {
    var first := Perform(s, DeleteRoute(stage, up));
    if Requested(s, stage) && !up then first else Perform(first, DeleteRoute(production, upAgain))
  }

  /** Deleting a service, over every run: the second name is asked for only when the first request
      does not fail; when both go through neither of the two is left live by this gateway, and a
      route of any other name stays live and tracked as it was in any case. */
  lemma {:induction false} ServiceRoutesGone(events: seq<Event>, stage: string, production: string,
          other: string, up: bool, upAgain: bool)
    requires other != stage && other != production
    ensures var s := PerformAll(EMPTY, events);
      var gone := ServiceDeleted(s, stage, production, up, upAgain);
      && (up && upAgain ==> (stage in gone.live ==> !gone.live[stage]) && (production in gone.live ==> !gone.live[production]))
      && (up ==> stage in gone.live ==> !gone.live[stage])
      && (stage in s.tracked && stage in s.live && !up ==> gone == s)
      && (other in gone.live <==> other in s.live)
      && (other in s.live ==> gone.live[other] == s.live[other])
      && (other in gone.tracked <==> other in s.tracked)
      && Tracks(gone)
  {
    AlwaysTracks(EMPTY, events);
    var s := PerformAll(EMPTY, events);
    StepTracks(s, DeleteRoute(stage, up));
    StepTracks(Perform(s, DeleteRoute(stage, up)), DeleteRoute(production, upAgain));
  }

  /** Over every run: a live route survives a `destroy` that goes through if and only if its name is
      not tracked, and then it is somebody else's. */
  lemma {:induction false} DestroyExact(events: seq<Event>, name: string)
    requires name in PerformAll(EMPTY, events).live
    ensures var s := PerformAll(EMPTY, events);
      && (name in Perform(s, Destroy(None)).live <==> name !in s.tracked)
      && (name !in s.tracked ==> !s.live[name])
  {
    AlwaysTracks(EMPTY, events);
    var s := PerformAll(EMPTY, events);
    WalkExact(s.live, s.tracked, None);
    assert s.tracked[..|s.tracked|] == s.tracked;
  }

  /** A name stays tracked when its route goes from outside, so whatever somebody else puts
      there goes with `destroy`. */
  lemma {:induction false} ForeignRouteLost(events: seq<Event>, name: string)
    requires name in PerformAll(EMPTY, events).tracked
    ensures var s := Perform(Perform(PerformAll(EMPTY, events), OutsideDelete(name)), OutsideCreate(name));
      name in s.live && !s.live[name] && name !in Perform(s, Destroy(None)).live
  {
    var s := Perform(Perform(PerformAll(EMPTY, events), OutsideDelete(name)), OutsideCreate(name));
    WalkExact(s.live, s.tracked, None);
    assert s.tracked[..|s.tracked|] == s.tracked;
  }

  class Gateway {
    var live: map<string, bool>
    var tracked: seq<string>

    function Now(): State
      reads this
    {
      State(live, tracked)
    }

    constructor ()
      ensures Now() == EMPTY
    {
      live, tracked := map[], [];
    }

    method Add(name: string, up: bool) returns (raised: bool)
      modifies this
      ensures Now() == Perform(old(Now()), AddRoute(name, up)) && (raised <==> name in old(live) || !up)
    {
      if name in live || !up { return true; }
      live := live[name := true];
      tracked := tracked + [name];
      return false;
    }

    method Delete(name: string, up: bool) returns (raised: bool)
      modifies this
      ensures Now() == Perform(old(Now()), DeleteRoute(name, up)) && (raised <==> Requested(old(Now()), name) && !up)
    {
      if name in tracked && name in live {
        if !up { return true; }
        live := live - {name};
        tracked := RemoveOne(tracked, name);
      }
      return false;
    }

    /** `_create_route` of ZyncLessApicast: when the creation is refused the old route is gone. */
    method Create(name: string, up: bool) returns (raised: bool)
      modifies this
      ensures Now() == Perform(old(Now()), Recreate(name, up)) && (raised <==> !up)
    {
      if name in live {
        live := live - {name};
      }
      assert live == old(live) - {name};
      if !up { return true; }
      live := live[name := true];
      tracked := tracked + [name];
      assert old(live)[name := true] == (old(live) - {name})[name := true];
      return false;
    }

    /** The two names a service's routes can have, up to the first request that fails. */
    method OnServiceDelete(stage: string, production: string, up: bool, upAgain: bool) returns (raised: bool)
      modifies this
      ensures Now() == ServiceDeleted(old(Now()), stage, production, up, upAgain)
    {
      var names, answers := [stage, production], [up, upAgain];
      for i := 0 to |names|
        invariant i == 0 ==> Now() == old(Now())
        invariant i == 1 ==> Now() == Perform(old(Now()), DeleteRoute(stage, up)) && !(Requested(old(Now()), stage) && !up)
        invariant i == 2 ==> Now() == ServiceDeleted(old(Now()), stage, production, up, upAgain)
      {
        raised := Delete(names[i], answers[i]);
        if raised { return; }
      }
      return false;
    }

    method DestroyAll(failure: Option<nat>) returns (raised: bool)
      modifies this`live
      ensures Now() == Perform(old(Now()), Destroy(failure)) && raised == Walk(old(live), tracked, failure).1
    {
      var left := failure;
      for i := 0 to |tracked|
        invariant Walk(live, tracked[i..], left) == Walk(old(live), tracked, failure)
      {
        assert tracked[i..][0] == tracked[i] && tracked[i..][1..] == tracked[i + 1..];
        if tracked[i] in live {
          if left == Some(0) { return true; }
          live := live - {tracked[i]};
          left := if left.Some? then Some(left.value - 1) else None;
        }
      }
      return false;
    }
  }
}
