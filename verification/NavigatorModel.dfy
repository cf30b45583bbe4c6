/** What `testsuite/ui/navigation` promises: the path from a view back to a displayed one, and
    the steps taken along it. Views are named; the pages, their steps and what a step does to
    the browser are parameters. */
module NavigatorModel {
  import opened Wrappers

  type View = string

  /** `prereq` holds the views that name a prerequisite; `steps` lists, per view, the keywords
      of its step methods in listing order; the functions are the browser's answers, None for
      an exception. `displayed` is the set of views that would now report being displayed. */
  datatype Site = Site(
    prereq: map<View, View>,
    steps: View -> seq<string>,
    act: (View, nat, View, set<View>) -> Option<set<View>>,
    post: (View, set<View>) -> Option<set<View>>,
    refresh: set<View> -> set<View>)

  function Prereq(site: Site, v: View): Option<View> {
    if v in site.prereq then Some(site.prereq[v]) else None
  }

  // ----- Backtracking

  /** Following prerequisites from `v` meets a displayed view or a missing prerequisite
      within n steps: exactly when the recursion ends. */
  ghost predicate EndsWithin(site: Site, displayed: set<View>, v: Option<View>, n: nat)
    decreases n
  {
    v.None? || v.value in displayed || (n > 0 && EndsWithin(site, displayed, Prereq(site, v.value), n - 1))
  }

  /** The views visited from `target`: each the prerequisite of the one before, none displayed
      but possibly the last. */
  ghost predicate Climb(site: Site, displayed: set<View>, target: View, chain: seq<View>) {
    && chain != [] && chain[0] == target
    && (forall i :: 0 <= i < |chain| - 1 ==> Prereq(site, chain[i]) == Some(chain[i + 1]))
    && (forall i :: 0 <= i < |chain| - 1 ==> chain[i] !in displayed)
  }

  /** It stops at a displayed view. */
  ghost predicate Found(displayed: set<View>, chain: seq<View>) {
    chain != [] && chain[|chain| - 1] in displayed
  }

  /** It stops at a view that is not displayed and has no prerequisite. */
  ghost predicate Stuck(site: Site, displayed: set<View>, chain: seq<View>) {
    chain != [] && chain[|chain| - 1] !in displayed && Prereq(site, chain[|chain| - 1]).None?
  }

  lemma {:induction false} RepeatShifts(site: Site, displayed: set<View>, target: View, chain: seq<View>,
          i: nat, j: nat, k: nat)
    requires Climb(site, displayed, target, chain)
    requires i < j && j + k < |chain| && chain[i] == chain[j]
    ensures chain[i + k] == chain[j + k]
  {
    if k > 0 {
      RepeatShifts(site, displayed, target, chain, i, j, k - 1);
      assert Prereq(site, chain[i + k - 1]) == Some(chain[i + k]);
      assert Prereq(site, chain[j + k - 1]) == Some(chain[j + k]);
    }
  }

  /** The views of a finished climb are all distinct. */
  lemma {:induction false} ClimbDistinct(site: Site, displayed: set<View>, target: View, chain: seq<View>)
    requires Climb(site, displayed, target, chain)
    requires Found(displayed, chain) || Stuck(site, displayed, chain)
    ensures forall i, j :: 0 <= i < j < |chain| ==> chain[i] != chain[j]
  {
    forall i, j | 0 <= i < j < |chain| ensures chain[i] != chain[j] {
      if chain[i] == chain[j] {
        var k := |chain| - 1 - j;
        RepeatShifts(site, displayed, target, chain, i, j, k);
        ClimbAt(site, displayed, target, chain, i + k);
      }
    }
  }

  lemma {:induction false} ClimbAt(site: Site, displayed: set<View>, target: View, chain: seq<View>, i: nat)
    requires Climb(site, displayed, target, chain) && i < |chain| - 1
    ensures Prereq(site, chain[i]) == Some(chain[i + 1]) && chain[i] !in displayed
  {
  }

  /** There is only one finished climb. */
  lemma {:induction false} ClimbUnique(site: Site, displayed: set<View>, target: View, a: seq<View>, b: seq<View>)
    requires Climb(site, displayed, target, a) && (Found(displayed, a) || Stuck(site, displayed, a))
    requires Climb(site, displayed, target, b) && (Found(displayed, b) || Stuck(site, displayed, b))
    ensures a == b
  {
    var m := if |a| < |b| then |a| else |b|;
    ClimbsAgree(site, displayed, target, a, b, m);
    if |a| < |b| {
      ClimbNotLonger(site, displayed, target, a, b);
    } else {
      ClimbNotLonger(site, displayed, target, b, a);
    }
  }

  lemma {:induction false} ClimbNotLonger(site: Site, displayed: set<View>, target: View, a: seq<View>, b: seq<View>)
    requires a != [] && (Found(displayed, a) || Stuck(site, displayed, a))
    requires Climb(site, displayed, target, b)
    requires |a| <= |b| && a[|a| - 1] == b[|a| - 1]
    ensures |b| == |a|
  {
    if |a| < |b| {
      ClimbAt(site, displayed, target, b, |a| - 1);
    }
  }

  lemma {:induction false} ClimbsAgree(site: Site, displayed: set<View>, target: View, a: seq<View>,
          b: seq<View>, n: nat)
    requires Climb(site, displayed, target, a) && Climb(site, displayed, target, b)
    requires n <= |a| && n <= |b|
    ensures forall i :: 0 <= i < n ==> a[i] == b[i]
  {
    if n > 1 {
      ClimbsAgree(site, displayed, target, a, b, n - 1);
      assert Prereq(site, a[n - 2]) == Some(a[n - 1]);
      assert Prereq(site, b[n - 2]) == Some(b[n - 1]);
    }
  }

  // ----- Acyclic prerequisites

  /** k prerequisites up from v. */
  function Up(site: Site, v: View, k: nat): Option<View> {
    if k == 0 then Some(v)
    else
      var below := Up(site, v, k - 1);
      if below.None? then None else Prereq(site, below.value)
  }

  ghost predicate Acyclic(site: Site) {
    forall v, k: nat :: k > 0 ==> Up(site, v, k) != Some(v)
  }

  lemma {:induction false} UpConcat(site: Site, v: View, j: nat, k: nat)
    ensures Up(site, v, j + k) == if Up(site, v, j).None? then None else Up(site, Up(site, v, j).value, k)
  {
    if k > 0 {
      UpConcat(site, v, j, k - 1);
    }
  }

  lemma {:induction false} EndsWhereUpEnds(site: Site, displayed: set<View>, v: View, n: nat)
    requires Up(site, v, n).None?
    ensures EndsWithin(site, displayed, Some(v), n)
    decreases n
  {
    if n > 0 && v !in displayed {
      UpConcat(site, v, 1, n - 1);
      assert Up(site, v, 0) == Some(v) && Up(site, v, 1) == Prereq(site, v);
      if Prereq(site, v).Some? {
        EndsWhereUpEnds(site, displayed, Prereq(site, v).value, n - 1);
      }
    }
  }

  function ElementSet(s: seq<View>): set<View> {
    set x | x in s
  }

  lemma {:induction false} DistinctSize(s: seq<View>)
    requires forall i, j :: 0 <= i < j < |s| ==> s[i] != s[j]
    ensures |ElementSet(s)| == |s|
  {
    if s != [] {
      DistinctSize(s[1..]);
      assert ElementSet(s) == {s[0]} + ElementSet(s[1..]);
    }
  }

  lemma {:induction false} SubsetSize(a: set<View>, b: set<View>)
    requires a <= b
    ensures |a| <= |b|
    decreases |a|
  {
    if a != {} {
      var x :| x in a;
      SubsetSize(a - {x}, b - {x});
    }
  }

  /** With acyclic prerequisites the recursion ends from every view, whatever is displayed:
      there are not enough views for a longer path. */
  lemma {:induction false} AcyclicEnds(site: Site, displayed: set<View>, v: View)
    requires Acyclic(site)
    ensures EndsWithin(site, displayed, Some(v), |site.prereq.Keys| + 1)
  {
    var m := |site.prereq.Keys| + 1;
    if Up(site, v, m).None? {
      EndsWhereUpEnds(site, displayed, v, m);
    } else {
      forall k: nat | k <= m ensures Up(site, v, k).Some? {
        UpConcat(site, v, k, m - k);
      }
      var path := seq(m, k requires 0 <= k < m => Up(site, v, k).value);
      forall i, j | 0 <= i < j < m ensures path[i] != path[j] {
        UpConcat(site, v, i, j - i);
      }
      forall x | x in ElementSet(path) ensures x in site.prereq.Keys {
        var k :| 0 <= k < m && path[k] == x;
        assert Up(site, v, k + 1).Some?;
      }
      DistinctSize(path);
      SubsetSize(ElementSet(path), site.prereq.Keys);
      assert false;
    }
  }

  // ----- Choosing a step

  datatype Choice = Exact(index: nat) | Href(index: nat) | NoStep

  function FirstEqual(keywords: seq<string>, name: string): (i: nat)
    ensures i <= |keywords|
  {
    if keywords == [] || keywords[0] == name then 0 else 1 + FirstEqual(keywords[1..], name)
  }

  function FirstHref(keywords: seq<string>): (i: nat)
    ensures i <= |keywords|
  {
    if keywords == [] || "@href" <= keywords[0] then 0 else 1 + FirstHref(keywords[1..])
  }

  /** An exact name wins over "@href" wherever the two are listed. */
  function Choose(keywords: seq<string>, name: string): Choice {
    if FirstEqual(keywords, name) < |keywords| then Exact(FirstEqual(keywords, name))
    else if FirstHref(keywords) < |keywords| then Href(FirstHref(keywords))
    else NoStep
  }

  lemma {:induction false} FirstEqualExact(keywords: seq<string>, name: string)
    ensures var i := FirstEqual(keywords, name);
      (i < |keywords| ==> keywords[i] == name) && forall j :: 0 <= j < i ==> keywords[j] != name
  {
    if keywords != [] && keywords[0] != name {
      FirstEqualExact(keywords[1..], name);
    }
  }

  lemma {:induction false} FirstHrefExact(keywords: seq<string>)
    ensures var i := FirstHref(keywords);
      (i < |keywords| ==> "@href" <= keywords[i]) && forall j :: 0 <= j < i ==> !("@href" <= keywords[j])
  {
    if keywords != [] && !("@href" <= keywords[0]) {
      FirstHrefExact(keywords[1..]);
    }
  }

  /** Which kind of step is taken depends on what is listed, not on the order; none is taken
      exactly when neither kind is there. */
  lemma {:induction false} ChooseExact(keywords: seq<string>, name: string)
    ensures Choose(keywords, name).Exact? <==> name in keywords
    ensures Choose(keywords, name).NoStep? <==> name !in keywords && forall k :: k in keywords ==> !("@href" <= k)
    ensures match Choose(keywords, name)
      case Exact(i) => i < |keywords| && keywords[i] == name && name !in keywords[..i]
      case Href(i) => i < |keywords| && "@href" <= keywords[i] && forall j :: 0 <= j < i ==> !("@href" <= keywords[j])
      case NoStep => true
  {
    FirstEqualExact(keywords, name);
    FirstHrefExact(keywords);
    if name in keywords {
      var j :| 0 <= j < |keywords| && keywords[j] == name;
    }
    forall k | k in keywords && "@href" <= k ensures FirstHref(keywords) < |keywords| {
      var j :| 0 <= j < |keywords| && keywords[j] == k;
    }
    if FirstHref(keywords) < |keywords| {
      assert keywords[FirstHref(keywords)] in keywords;
    }
  }

  // ----- Performing the steps

  datatype Error = NoPrerequisite | EmptyChain | StepNotFound(from: View,
          dest: View) | StepFailed | PostFailed | NotDisplayed

  datatype Event = Stepped(from: View, choice: Choice, dest: View) | PostNavigated(view: View) | Refreshed(view: View)

  datatype Outcome = Outcome(result: Result<View, Error>, chain: seq<View>, displayed: set<View>, log: seq<Event>)

  /** `_perform_steps` on a chain whose last element is the current page. */
  function Perform(site: Site, chain: seq<View>, displayed: set<View>, log: seq<Event>): Outcome
    requires chain != []
    decreases |chain|
  {
    if |chain| == 1 then Outcome(Ok(chain[0]), chain, displayed, log)
    else
      var page, rest := chain[|chain| - 1], chain[..|chain| - 1];
      var dest := rest[|rest| - 1];
      var choice := Choose(site.steps(page), dest);
      if choice.NoStep? then Outcome(Err(StepNotFound(page, dest)), rest, displayed, log)
      else
        var acted := site.act(page, choice.index, dest, displayed);
        var log' := log + [Stepped(page, choice, dest)];
        if acted.None? then Outcome(Err(StepFailed), rest, displayed, log')
        else
          var posted := site.post(dest, acted.value);
          var log'' := log' + [PostNavigated(dest)];
          if posted.None? then Outcome(Err(PostFailed), rest, acted.value, log'')
          else Perform(site, rest, posted.value, log'')
  }

  /** From a displayed page the chosen step, when there is one, leads to the destination being
      displayed, and still so after its `post_navigate`. */
  ghost predicate StepWorks(site: Site, page: View, dest: View) {
    forall displayed: set<View> :: page in displayed ==>
      var choice := Choose(site.steps(page), dest);
      choice.NoStep? ||
      (var acted := site.act(page, choice.index, dest, displayed);
       acted.Some? && dest in acted.value && site.post(dest, acted.value).Some? && dest in site.post(dest, acted.value).value)
  }

  ghost predicate ChainWorks(site: Site, chain: seq<View>) {
    forall i :: 0 <= i < |chain| - 1 ==> StepWorks(site, chain[i + 1], chain[i])
  }

  predicate HasStep(site: Site, page: View, dest: View) {
    !Choose(site.steps(page), dest).NoStep?
  }

  /** One step and one `post_navigate` per destination, from the root to position n. */
  function Walk(site: Site, chain: seq<View>, n: nat): seq<Event>
    requires n < |chain|
    decreases |chain| - n
  {
    if n == |chain| - 1 then []
    else
      var step := Stepped(chain[n + 1], Choose(site.steps(chain[n + 1]), chain[n]), chain[n]);
      Walk(site, chain, n + 1) + [step, PostNavigated(chain[n])]
  }

  lemma {:induction false} WalkPrefix(site: Site, chain: seq<View>, n: nat)
    requires n + 1 < |chain|
    ensures Walk(site, chain, n) ==
            Walk(site, chain[|chain| - 2..], 0) + Walk(site, chain[..|chain| - 1], n)
    decreases |chain| - n
  {
    var top, low := chain[|chain| - 2..], chain[..|chain| - 1];
    if n + 2 < |chain| {
      WalkPrefix(site, chain, n + 1);
      var pair := [Stepped(chain[n + 1], Choose(site.steps(chain[n + 1]), chain[n]), chain[n]), PostNavigated(chain[n])];
      assert Walk(site, low, n) == Walk(site, low, n + 1) + pair;
      assert Walk(site, top, 0) + Walk(site, low, n + 1) + pair == Walk(site, top, 0) + (Walk(site, low, n + 1) + pair);
    } else {
      assert Walk(site, chain, n + 1) == [] && Walk(site, top, 1) == [] && Walk(site, low, n) == [];
      assert top[0] == chain[n] && top[1] == chain[n + 1];
    }
  }

  /** When every pair on the chain has a step and each step works, the target is returned,
      displayed, after one step and one `post_navigate` per pair, root to target. */
  lemma {:induction false} PerformSucceeds(site: Site, chain: seq<View>, displayed: set<View>, log: seq<Event>)
    requires chain != [] && chain[|chain| - 1] in displayed && ChainWorks(site, chain)
    requires forall i :: 0 <= i < |chain| - 1 ==> HasStep(site, chain[i + 1], chain[i])
    ensures var o := Perform(site, chain, displayed, log);
      && o.result == Ok(chain[0]) && o.chain == [chain[0]] && chain[0] in o.displayed
      && o.log == log + Walk(site, chain, 0) && |Walk(site, chain, 0)| == 2 * (|chain| - 1)
    decreases |chain|
  {
    if |chain| == 1 {
      assert chain == [chain[0]] && log + [] == log;
    } else {
      var page, rest := chain[|chain| - 1], chain[..|chain| - 1];
      var dest := rest[|rest| - 1];
      var choice := Choose(site.steps(page), dest);
      assert StepWorks(site, chain[|rest| - 1 + 1], chain[|rest| - 1]);
      assert HasStep(site, chain[|rest| - 1 + 1], chain[|rest| - 1]);
      var pair := [Stepped(page, choice, dest), PostNavigated(dest)];
      var acted := site.act(page, choice.index, dest, displayed);
      var after := site.post(dest, acted.value).value;
      assert log + [Stepped(page, choice, dest)] + [PostNavigated(dest)] == log + pair;
      forall i | 0 <= i < |rest| - 1 ensures StepWorks(site, rest[i + 1], rest[i]) && HasStep(site, rest[i + 1], rest[i]) {
        assert StepWorks(site, chain[i + 1], chain[i]) && HasStep(site, chain[i + 1], chain[i]);
      }
      PerformSucceeds(site, rest, after, log + pair);
      WalkPrefix(site, chain, 0);
      TopWalk(site, chain);
      assert log + (pair + Walk(site, rest, 0)) == log + pair + Walk(site, rest, 0);
    }
  }

  lemma {:induction false} TopWalk(site: Site, chain: seq<View>)
    requires |chain| > 1
    ensures var page, dest := chain[|chain| - 1], chain[|chain| - 2];
      Walk(site, chain[|chain| - 2..], 0) == [Stepped(page, Choose(site.steps(page), dest), dest), PostNavigated(dest)]
  {
    var top := chain[|chain| - 2..];
    assert top[0] == chain[|chain| - 2] && top[1] == chain[|chain| - 1];
    assert Walk(site, top, 1) == [];
  }

  /** Position n is the destination of the pair nearest the root that has no step. */
  ghost predicate FirstMissing(site: Site, chain: seq<View>, n: int) {
    && 0 <= n < |chain| - 1 && !HasStep(site, chain[n + 1], chain[n])
    && forall i :: n < i < |chain| - 1 ==> HasStep(site, chain[i + 1], chain[i])
  }

  ghost predicate AllSteps(site: Site, chain: seq<View>) {
    forall i :: 0 <= i < |chain| - 1 ==> HasStep(site, chain[i + 1], chain[i])
  }

  lemma {:induction false} MissingInRest(site: Site, chain: seq<View>, n: int)
    requires |chain| > 1 && HasStep(site, chain[|chain| - 1], chain[|chain| - 2])
    ensures var rest := chain[..|chain| - 1];
      && (AllSteps(site, chain) <==> AllSteps(site, rest))
      && (FirstMissing(site, rest, n) ==> FirstMissing(site, chain, n) && rest[n] == chain[n] && rest[n + 1] == chain[n + 1])
  {
    var rest := chain[..|chain| - 1];
    if AllSteps(site, rest) {
      forall i | 0 <= i < |chain| - 1 ensures HasStep(site, chain[i + 1], chain[i]) {
        if i < |rest| - 1 {
          assert HasStep(site, rest[i + 1], rest[i]);
        }
      }
    }
  }

  /** When the steps that exist work, navigation fails only for want of a step, at the pair
      nearest the root that has none. */
  lemma {:induction false} PerformFailsExactly(site: Site, chain: seq<View>, displayed: set<View>, log: seq<Event>)
    requires chain != [] && chain[|chain| - 1] in displayed && ChainWorks(site, chain)
    ensures var o := Perform(site, chain, displayed, log);
      var n := |o.chain| - 1;
      && (o.result.Ok? <==> AllSteps(site, chain))
      && (o.result.Err? ==> FirstMissing(site, chain, n) && o.result == Err(StepNotFound(chain[n + 1], chain[n])))
    decreases |chain|
  {
    if |chain| > 1 {
      var page, rest := chain[|chain| - 1], chain[..|chain| - 1];
      var dest := rest[|rest| - 1];
      assert StepWorks(site, chain[|rest| - 1 + 1], chain[|rest| - 1]);
      if HasStep(site, page, dest) {
        forall i | 0 <= i < |rest| - 1 ensures StepWorks(site, rest[i + 1], rest[i]) {
          assert StepWorks(site, chain[i + 1], chain[i]);
        }
        var choice := Choose(site.steps(page), dest);
        var after := site.post(dest, site.act(page, choice.index, dest, displayed).value).value;
        var log' := log + [Stepped(page, choice, dest)] + [PostNavigated(dest)];
        PerformFailsExactly(site, rest, after, log');
        MissingInRest(site, chain, |Perform(site, rest, after, log').chain| - 1);
      } else {
        assert !HasStep(site, chain[|chain| - 2 + 1], chain[|chain| - 2]);
      }
    }
  }

  // ----- Steps that raise

  /** What one pair of the chain did: what was displayed after its step and after `post_navigate`. */
  datatype Done = Done(stepped: set<View>, posted: set<View>)

  /** The view pair i goes from, counted from the root, and the one it goes to. */
  function From(chain: seq<View>, i: nat): View
    requires i + 1 < |chain|
  {
    chain[|chain| - 1 - i]
  }

  function Dest(chain: seq<View>, i: nat): View
    requires i + 1 < |chain|
  {
    chain[|chain| - 2 - i]
  }

  /** What is displayed when pair i begins. */
  function Before(displayed: set<View>, trace: seq<Done>, i: nat): set<View>
    requires i <= |trace|
  {
    if i == 0 then displayed else trace[i - 1].posted
  }

  /** The pairs that were gone through, each with a step that returned and a `post_navigate` that did. */
  ghost predicate GoneThrough(site: Site, chain: seq<View>, displayed: set<View>, trace: seq<Done>) {
    |trace| < |chain| &&
    forall i: nat :: i < |trace| ==>
      var choice := Choose(site.steps(From(chain, i)), Dest(chain, i));
      && !choice.NoStep?
      && site.act(From(chain, i), choice.index, Dest(chain, i), Before(displayed, trace, i)) == Some(trace[i].stepped)
      && site.post(Dest(chain, i), trace[i].stepped) == Some(trace[i].posted)
  }

  /** How it ends after these pairs: with the target when all are gone through, and otherwise at the
      next pair, which has no step, or whose step raises, or whose `post_navigate` does. */
  ghost predicate EndsAfter(site: Site, chain: seq<View>, displayed: set<View>, trace: seq<Done>, o: Outcome)
    requires |trace| < |chain|
  {
    var i, now := |trace|, Before(displayed, trace, |trace|);
    if i == |chain| - 1 then o.result == Ok(chain[0]) && o.displayed == now && o.chain == [chain[0]]
    else
      var choice := Choose(site.steps(From(chain, i)), Dest(chain, i));
      && o.chain == chain[..|chain| - 1 - i]
      && if choice.NoStep? then o.result == Err(StepNotFound(From(chain, i), Dest(chain, i))) && o.displayed == now
         else
           var acted := site.act(From(chain, i), choice.index, Dest(chain, i), now);
           if acted.None? then o.result == Err(StepFailed) && o.displayed == now
           else o.result == Err(PostFailed) && o.displayed == acted.value && site.post(Dest(chain, i), acted.value).None?
  }

  lemma {:induction false} FromRest(chain: seq<View>, i: nat)
    requires i + 2 < |chain|
    ensures var rest := chain[..|chain| - 1]; From(rest, i) == From(chain, i + 1) && Dest(rest, i) == Dest(chain, i + 1)
  {
  }

  lemma {:induction false} OnePairMore(site: Site, chain: seq<View>, displayed: set<View>, first: Done, trace: seq<Done>)
    requires |chain| > 1 && GoneThrough(site, chain, displayed, [first])
    requires GoneThrough(site, chain[..|chain| - 1], first.posted, trace)
    ensures GoneThrough(site, chain, displayed, [first] + trace)
  {
    var all, rest := [first] + trace, chain[..|chain| - 1];
    forall i: nat | i < |all|
      ensures var choice := Choose(site.steps(From(chain, i)), Dest(chain, i));
        && !choice.NoStep?
        && site.act(From(chain, i), choice.index, Dest(chain, i), Before(displayed, all, i)) == Some(all[i].stepped)
        && site.post(Dest(chain, i), all[i].stepped) == Some(all[i].posted)
    {
      if i == 0 {
        assert [first][0] == all[0] && Before(displayed, [first], 0) == Before(displayed, all, 0);
      } else {
        FromRest(chain, i - 1);
        assert trace[i - 1] == all[i] && Before(first.posted, trace, i - 1) == Before(displayed, all, i);
      }
    }
  }

  /** The first pair is gone through. */
  predicate Passes(site: Site, chain: seq<View>, displayed: set<View>) {
    |chain| > 1 &&
    var choice := Choose(site.steps(From(chain, 0)), Dest(chain, 0));
    && !choice.NoStep?
    && var acted := site.act(From(chain, 0), choice.index, Dest(chain, 0), displayed);
    && acted.Some? && site.post(Dest(chain, 0), acted.value).Some?
  }

  lemma {:induction false} PassesOn(site: Site, chain: seq<View>, displayed: set<View>, log: seq<Event>)
    returns (first: Done, log': seq<Event>)
    requires Passes(site, chain, displayed)
    ensures GoneThrough(site, chain, displayed, [first])
    ensures Perform(site, chain, displayed, log) == Perform(site, chain[..|chain| - 1], first.posted, log')
  {
    var page, dest := From(chain, 0), Dest(chain, 0);
    var choice := Choose(site.steps(page), dest);
    var acted := site.act(page, choice.index, dest, displayed).value;
    first := Done(acted, site.post(dest, acted).value);
    log' := log + [Stepped(page, choice, dest)] + [PostNavigated(dest)];
  }

  lemma {:induction false} StopsAtOnce(site: Site, chain: seq<View>, displayed: set<View>, log: seq<Event>)
    requires chain != [] && !Passes(site, chain, displayed)
    ensures GoneThrough(site, chain, displayed, [])
    ensures EndsAfter(site, chain, displayed, [], Perform(site, chain, displayed, log))
  {
    if |chain| == 1 {
      assert chain == [chain[0]];
    }
  }

  /** Whatever the steps do: the target is returned if and only if every pair has a step and every
      step and `post_navigate` returned, and otherwise it ends at the first pair where one did not,
      with the error of that pair. */
  lemma {:induction false} PerformExact(site: Site, chain: seq<View>, displayed: set<View>, log: seq<Event>)
    returns (trace: seq<Done>)
    requires chain != []
    ensures GoneThrough(site, chain, displayed, trace)
    ensures EndsAfter(site, chain, displayed, trace, Perform(site, chain, displayed, log))
    decreases |chain|
  {
    if Passes(site, chain, displayed) {
      var first, log' := PassesOn(site, chain, displayed, log);
      var rest := chain[..|chain| - 1];
      var later := PerformExact(site, rest, first.posted, log');
      OnePairMore(site, chain, displayed, first, later);
      trace := [first] + later;
      EndsLater(site, chain, displayed, first, later, Perform(site, rest, first.posted, log'));
    } else {
      trace := [];
      StopsAtOnce(site, chain, displayed, log);
    }
  }

  lemma {:induction false} EndsLater(site: Site, chain: seq<View>, displayed: set<View>, first: Done, later: seq<Done>, o: Outcome)
    requires |chain| > 1 && |later| < |chain| - 1
    requires EndsAfter(site, chain[..|chain| - 1], first.posted, later, o)
    ensures EndsAfter(site, chain, displayed, [first] + later, o)
  {
    var rest, all := chain[..|chain| - 1], [first] + later;
    assert Before(first.posted, later, |later|) == Before(displayed, all, |all|);
    if |later| < |rest| - 1 {
      FromRest(chain, |later|);
      assert rest[..|rest| - 1 - |later|] == chain[..|chain| - 1 - |all|];
    }
  }
}
