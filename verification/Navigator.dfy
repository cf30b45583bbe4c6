/** The `Navigator` of `testsuite/ui/navigation`, with its deque and a browser object. */
module Navigator {
  import opened Wrappers
  import opened NavigatorModel

  lemma {:induction false} FirstEqualIs(keywords: seq<string>, name: string, i: nat)
    requires i < |keywords| && keywords[i] == name && forall j :: 0 <= j < i ==> keywords[j] != name
    ensures FirstEqual(keywords, name) == i
  {
    if i > 0 {
      FirstEqualIs(keywords[1..], name, i - 1);
    }
  }

  lemma {:induction false} FirstHrefIs(keywords: seq<string>, i: nat)
    requires i <= |keywords| && (i < |keywords| ==> "@href" <= keywords[i])
    requires forall j :: 0 <= j < i ==> !("@href" <= keywords[j])
    ensures FirstHref(keywords) == i
  {
    if i > 0 {
      FirstHrefIs(keywords[1..], i - 1);
    }
  }

  lemma {:induction false} NoneEqual(keywords: seq<string>, name: string)
    requires forall j :: 0 <= j < |keywords| ==> keywords[j] != name
    ensures FirstEqual(keywords, name) == |keywords|
  {
    FirstEqualExact(keywords, name);
  }

  class Browser {
    var displayed: set<View>
    var log: seq<Event>

    constructor (displayed: set<View>)
      ensures this.displayed == displayed && log == []
    {
      this.displayed := displayed;
      log := [];
    }
  }

  class Navigator {
    const browser: Browser
    var pageChain: seq<View>

    constructor (browser: Browser)
      ensures this.browser == browser && pageChain == []
    {
      this.browser := browser;
      pageChain := [];
    }

    /** The search of `_invoke_step` and `_invoke_alternative_step` through the step methods. */
    static method FindStep(keywords: seq<string>, dest: string) returns (choice: Choice)
      ensures choice == Choose(keywords, dest)
    {
      var alternatives: seq<nat> := [];
      for i := 0 to |keywords|
        invariant forall j :: 0 <= j < i ==> keywords[j] != dest
        invariant forall a :: 0 <= a < |alternatives| ==> alternatives[a] < i
        invariant forall a, b :: 0 <= a < b < |alternatives| ==> alternatives[a] < alternatives[b]
        invariant forall j :: 0 <= j < i && "@" <= keywords[j] ==> j in alternatives
      {
        if keywords[i] == dest {
          FirstEqualIs(keywords, dest, i);
          return Exact(i);
        }
        if "@" <= keywords[i] {
          alternatives := alternatives + [i];
        }
      }
      NoneEqual(keywords, dest);
      choice := FindAlternative(keywords, alternatives);
    }

    static method FindAlternative(keywords: seq<string>, alternatives: seq<nat>) returns (choice: Choice)
      requires forall a :: 0 <= a < |alternatives| ==> alternatives[a] < |keywords|
      requires forall a, b :: 0 <= a < b < |alternatives| ==> alternatives[a] < alternatives[b]
      requires forall j :: 0 <= j < |keywords| && "@" <= keywords[j] ==> j in alternatives
      ensures choice == if FirstHref(keywords) < |keywords| then Href(FirstHref(keywords)) else NoStep
    {
      for k := 0 to |alternatives|
        invariant forall a :: 0 <= a < k ==> !("@href" <= keywords[alternatives[a]])
      {
        var i := alternatives[k];
        if "@href" <= keywords[i] {
          forall j | 0 <= j < i ensures !("@href" <= keywords[j]) {
            HrefIsListed(keywords, alternatives, j);
          }
          FirstHrefIs(keywords, i);
          return Href(i);
        }
      }
      forall j | 0 <= j < |keywords| ensures !("@href" <= keywords[j]) {
        HrefIsListed(keywords, alternatives, j);
      }
      FirstHrefIs(keywords, |keywords|);
      return NoStep;
    }

    static lemma {:induction false} HrefIsListed(keywords: seq<string>, alternatives: seq<nat>, j: nat)
      requires forall i :: 0 <= i < |keywords| && "@" <= keywords[i] ==> i in alternatives
      requires j < |keywords|
      ensures "@href" <= keywords[j] ==> exists a :: 0 <= a < |alternatives| && alternatives[a] == j
    {
      if "@href" <= keywords[j] {
        assert keywords[j][0] == "@href"[0];
        assert "@" <= keywords[j];
        assert j in alternatives;
      }
    }

    /** `_backtrace`. `climbed` is the chain as it stood when the recursion ended. */
    method Backtrace(site: Site, cls: Option<View>, ghost target: View, ghost n: nat)
      returns (failure: Option<Error>, ghost climbed: seq<View>)
      requires EndsWithin(site, browser.displayed, cls, n)
      requires pageChain == [] ==> cls == Some(target)
      requires pageChain != [] ==>
        Climb(site, browser.displayed, target, pageChain) && pageChain[|pageChain| - 1] !in browser.displayed &&
        Prereq(site, pageChain[|pageChain| - 1]) == cls
      modifies this, browser
      ensures Climb(site, old(browser.displayed), target, climbed)
      ensures Found(old(browser.displayed), climbed) || Stuck(site, old(browser.displayed), climbed)
      ensures Stuck(site, old(browser.displayed), climbed) ==>
        failure == Some(if |climbed| == 1 then EmptyChain else NoPrerequisite) &&
        browser.displayed == old(browser.displayed) && browser.log == old(browser.log)
      ensures Found(old(browser.displayed), climbed) ==> pageChain == climbed
      ensures Found(old(browser.displayed), climbed) && |climbed| > 1 ==>
        failure == None && browser.displayed == old(browser.displayed) && browser.log == old(browser.log)
      ensures Found(old(browser.displayed), climbed) && |climbed| == 1 ==>
        browser.displayed == site.refresh(old(browser.displayed)) && browser.log == old(browser.log) + [Refreshed(target)] &&
        failure == if target in browser.displayed then None else Some(NotDisplayed)
      decreases n
    {
      climbed := pageChain;
      if cls.None? {
        pageChain := pageChain[1..];
        if pageChain == [] {
          return Some(EmptyChain), climbed;
        }
        pageChain := pageChain[..|pageChain| - 1];
        return Some(NoPrerequisite), climbed;
      }
      var page := cls.value;
      pageChain := pageChain + [page];
      climbed := pageChain;
      if page in browser.displayed {
        if |pageChain| == 1 {
          browser.displayed := site.refresh(browser.displayed);
          browser.log := browser.log + [Refreshed(page)];
          if page !in browser.displayed {
            return Some(NotDisplayed), climbed;
          }
        }
        return None, climbed;
      }
      failure, climbed := Backtrace(site, Prereq(site, page), target, n - 1);
    }

    /** `_perform_steps` */
    method PerformSteps(site: Site) returns (r: Result<View, Error>)
      requires pageChain != []
      modifies this, browser
      ensures Outcome(r, pageChain, browser.displayed, browser.log) ==
              Perform(site, old(pageChain), old(browser.displayed), old(browser.log))
      decreases |pageChain|
    {
      if |pageChain| == 1 {
        return Ok(pageChain[0]);
      }
      var page := pageChain[|pageChain| - 1];
      pageChain := pageChain[..|pageChain| - 1];
      var dest := pageChain[|pageChain| - 1];
      var choice := FindStep(site.steps(page), dest);
      if choice.NoStep? {
        return Err(StepNotFound(page, dest));
      }
      browser.log := browser.log + [Stepped(page, choice, dest)];
      var acted := site.act(page, choice.index, dest, browser.displayed);
      if acted.None? {
        return Err(StepFailed);
      }
      browser.displayed := acted.value;
      browser.log := browser.log + [PostNavigated(dest)];
      var posted := site.post(dest, browser.displayed);
      if posted.None? {
        return Err(PostFailed);
      }
      browser.displayed := posted.value;
      r := PerformSteps(site);
    }

    /** `navigate`. Whether it ends depends on the prerequisites alone: `n` bounds the path. */
    method Navigate(site: Site, target: View, ghost n: nat) returns (r: Result<View, Error>, ghost climbed: seq<View>)
      requires EndsWithin(site, browser.displayed, Some(target), n)
      modifies this, browser
      ensures Climb(site, old(browser.displayed), target, climbed)
      ensures Found(old(browser.displayed), climbed) || Stuck(site, old(browser.displayed), climbed)
      ensures Stuck(site, old(browser.displayed), climbed) ==>
        r == Err(if |climbed| == 1 then EmptyChain else NoPrerequisite) &&
        browser.displayed == old(browser.displayed) && browser.log == old(browser.log)
      ensures Found(old(browser.displayed), climbed) && |climbed| > 1 ==>
        Outcome(r, pageChain, browser.displayed, browser.log) ==
        Perform(site, climbed, old(browser.displayed), old(browser.log))
      ensures Found(old(browser.displayed), climbed) && |climbed| == 1 ==>
        browser.displayed == site.refresh(old(browser.displayed)) && browser.log == old(browser.log) + [Refreshed(target)] &&
        r == if target in browser.displayed then Ok(target) else Err(NotDisplayed)
    {
      pageChain := [];
      var failure;
      failure, climbed := Backtrace(site, Some(target), target, n);
      if failure.Some? {
        return Err(failure.value), climbed;
      }
      r := PerformSteps(site);
    }
  }
}
