/** Which rule decides a skipped test: `warn_and_skip` of `testsuite/utils.py`. A rule maps a
    prefix of test names to an action. */
module SkipRules {

  datatype Rule = Rule(key: string, action: string)

  /** What happens to the test: a warning or none, then skipped or failed. */
  datatype Outcome = Outcome(warned: bool, skipped: bool)

  /** `_warn_and_skip` */
  function React(action: string): Outcome {
    Outcome(action != "quiet", action == "warn" || action == "quiet")
  }

  ghost predicate DistinctKeys(rules: seq<Rule>) {
    forall i, j :: 0 <= i < j < |rules| ==> rules[i].key != rules[j].key
  }

  /** The rule of the longest key that is a prefix of the test's name. */
  ghost predicate Governs(rules: set<Rule>, current: string, r: Rule) {
    && r in rules
    && r.key <= current
    && forall s :: s in rules && s.key <= current ==> |s.key| <= |r.key|
  }

  ghost predicate Longest(rules: seq<Rule>) {
    forall i, j :: 0 <= i < j < |rules| ==> |rules[i].key| >= |rules[j].key|
  }

  function Elements(rules: seq<Rule>): set<Rule> {
    set r | r in rules
  }

  /** Puts a rule behind those of keys at least as long. */
  function Insert(rules: seq<Rule>, r: Rule): seq<Rule> {
    if rules == [] then [r]
    else if |rules[0].key| >= |r.key| then [rules[0]] + Insert(rules[1..], r)
    else [r] + rules
  }

  /** `sorted(rules, key=len, reverse=True)`: stable, so equally long keys keep their order. */
  function SortByLength(rules: seq<Rule>): seq<Rule> {
    if rules == [] then [] else Insert(SortByLength(rules[..|rules| - 1]), rules[|rules| - 1])
  }

  lemma {:induction false} InsertElements(rules: seq<Rule>, r: Rule, x: Rule)
    ensures x in Insert(rules, r) <==> x in rules || x == r
  {
    if rules != [] && |rules[0].key| >= |r.key| {
      InsertElements(rules[1..], r, x);
      assert x in rules <==> x == rules[0] || x in rules[1..];
    }
  }

  lemma {:induction false} InsertSorts(rules: seq<Rule>, r: Rule)
    requires Longest(rules)
    ensures Longest(Insert(rules, r))
  {
    if rules != [] && |rules[0].key| >= |r.key| {
      var rest := Insert(rules[1..], r);
      InsertSorts(rules[1..], r);
      forall j | 0 <= j < |rest| ensures |rules[0].key| >= |rest[j].key| {
        InsertElements(rules[1..], r, rest[j]);
      }
    }
  }

  lemma {:induction false} SortByLengthSorts(rules: seq<Rule>)
    ensures Longest(SortByLength(rules))
  {
    if rules != [] {
      var last := |rules| - 1;
      SortByLengthSorts(rules[..last]);
      InsertSorts(SortByLength(rules[..last]), rules[last]);
    }
  }

  lemma {:induction false} SortByLengthElements(rules: seq<Rule>, x: Rule)
    ensures x in SortByLength(rules) <==> x in rules
  {
    if rules != [] {
      var last := |rules| - 1;
      SortByLengthElements(rules[..last], x);
      InsertElements(SortByLength(rules[..last]), rules[last], x);
      assert rules == rules[..last] + [rules[last]];
    }
  }

  lemma {:induction false} OneRulePerKey(rules: seq<Rule>, r: Rule, s: Rule)
    requires DistinctKeys(rules) && r in rules && s in rules && r.key == s.key
    ensures r == s
  {
    var i :| 0 <= i < |rules| && rules[i] == r;
    var j :| 0 <= j < |rules| && rules[j] == s;
    assert i == j;
  }

  /** At most one rule governs a test, whatever the rules' order, and one does exactly when
      some key is a prefix of its name. */
  lemma {:induction false} GoverningRule(rules: seq<Rule>, current: string)
    requires DistinctKeys(rules)
    ensures (exists r :: Governs(Elements(rules), current, r)) <==> exists r :: r in rules && r.key <= current
    ensures forall r, s :: Governs(Elements(rules), current, r) && Governs(Elements(rules), current, s) ==> r == s
  {
    forall r, s | Governs(Elements(rules), current, r) && Governs(Elements(rules), current, s) ensures r == s {
      assert r.key == current[..|r.key|] == s.key;
      OneRulePerKey(rules, r, s);
    }
    if r :| r in rules && r.key <= current {
      var longest := LongestPrefix(rules, current, r);
      assert Governs(Elements(rules), current, longest);
    }
  }

  lemma {:induction false} LongestPrefix(rules: seq<Rule>, current: string, r: Rule) returns (longest: Rule)
    requires r in rules && r.key <= current
    ensures Governs(Elements(rules), current, longest)
    decreases |current| - |r.key|
  {
    longest := r;
    if s :| s in rules && s.key <= current && |s.key| > |r.key| {
      longest := LongestPrefix(rules, current, s);
    }
  }

  /** Scanning by descending length, the first matching key is the governing one. */
  lemma {:induction false} FirstGoverns(sorted: seq<Rule>, current: string, i: nat)
    requires Longest(sorted) && i < |sorted| && sorted[i].key <= current
    requires forall j :: 0 <= j < i ==> !(sorted[j].key <= current)
    ensures Governs(Elements(sorted), current, sorted[i])
  {
    forall s | s in Elements(sorted) && s.key <= current ensures |s.key| <= |sorted[i].key| {
      var j :| 0 <= j < |sorted| && sorted[j] == s;
      assert j >= i;
    }
  }

  method WarnAndSkip(rules: seq<Rule>, current: string, action: string) returns (outcome: Outcome)
    requires DistinctKeys(rules)
    ensures forall r :: Governs(Elements(rules), current, r) ==> outcome == React(r.action)
    ensures (forall r :: r in rules ==> !(r.key <= current)) ==> outcome == React(action)
    ensures forall r :: Governs(Elements(rules), current, r) ==>
      (outcome.warned <==> r.action != "quiet") && (outcome.skipped <==> r.action in {"warn", "quiet"})
    ensures (forall r :: r in rules ==> !(r.key <= current)) ==>
      (outcome.warned <==> action != "quiet") && (outcome.skipped <==> action in {"warn", "quiet"})
  {
    var sorted := SortByLength(rules);
    SortByLengthSorts(rules);
    forall x ensures x in sorted <==> x in rules {
      SortByLengthElements(rules, x);
    }
    assert Elements(sorted) == Elements(rules);
    GoverningRule(rules, current);
    for i := 0 to |sorted|
      invariant forall j :: 0 <= j < i ==> !(sorted[j].key <= current)
    {
      if sorted[i].key <= current {
        FirstGoverns(sorted, current, i);
        return React(sorted[i].action);
      }
    }
    assert forall r :: r in sorted ==> !(r.key <= current);
    return React(action);
  }
}
