/** Waiting for the next metrics scrape: `wait_on_next_scrape` of `testsuite/prometheus.py`.
    Points in time and durations are whole microseconds. */
module Scrape {
  import opened Wrappers

  const SECOND: int := 1_000_000
  const DAY: int := 86_400 * SECOND
  const PROMETHEUS_REFRESH: Interval := 30

  /** A scrape interval in seconds. */
  type Interval = n: nat | n > 0 witness 1

  /** One scraped container; `scraped` is the true instant of its last scrape. */
  datatype Target = Target(labels: map<string, string>, scraped: int, interval: Interval)

  const CONTAINER := "container"

  /** `lastScrape[:19]`: the fraction of the second is cut off. */
  function Truncated(instant: int): (r: int)
    ensures r <= instant < r + SECOND && r % SECOND == 0
  {
    instant - instant % SECOND
  }

  predicate IsOf(t: Target, container: string) {
    CONTAINER in t.labels && t.labels[CONTAINER] == container
  }

  /** `math.ceil(a / b)` */
  function Ceil(a: nat, b: nat): (n: nat)
    requires b > 0
    ensures (n - 1) * b < a <= n * b
  {
    CeilBounds(a, b);
    (a + b - 1) / b
  }

  lemma {:induction false} CeilBounds(a: nat, b: nat)
    requires b > 0
    ensures var n := (a + b - 1) / b; (n - 1) * b < a <= n * b
  {
    var n := (a + b - 1) / b;
    assert a + b - 1 == n * b + (a + b - 1) % b;
    assert (n - 1) * b == n * b - b;
  }

  /** The number of whole intervals from the observed scrape that reach `after`. */
  function Intervals(scraped: int, interval: Interval, after: int): nat
    requires Truncated(scraped) <= after
  {
    Ceil(after - Truncated(scraped), interval * SECOND)
  }

  /** `till`, from what was observed of the target, if anything. */
  function Till(seen: Option<Target>, after: int): int
    requires seen.Some? ==> Truncated(seen.value.scraped) <= after
  {
    match seen
    case None => after + (PROMETHEUS_REFRESH + 2) * SECOND
    case Some(t) => Truncated(t.scraped) + Intervals(t.scraped, t.interval, after) * (t.interval * SECOND) + 2 * SECOND
  }

  /** `(till - now).seconds`: a negative difference is a negative number of days plus this. */
  function Seconds(difference: int): nat {
    difference % DAY / SECOND
  }

  /** A scrape the target performs, every interval before or after the one observed. */
  function Instant(t: Target, k: int): int {
    t.scraped + k * (t.interval * SECOND)
  }

  function IntervalOf(seen: Option<Target>): Interval {
    if seen.Some? then seen.value.interval else PROMETHEUS_REFRESH
  }

  lemma {:induction false} TillBounds(seen: Option<Target>, after: int)
    requires seen.Some? ==> Truncated(seen.value.scraped) <= after
    ensures after + 2 * SECOND <= Till(seen, after) <= after + (IntervalOf(seen) + 2) * SECOND
    ensures seen.Some? ==> Till(seen, after) < after + (IntervalOf(seen) + 2) * SECOND
  {
    if seen.Some? {
      var t := seen.value;
      var n, p := Intervals(t.scraped, t.interval, after), t.interval * SECOND;
      assert (n - 1) * p == n * p - p;
    }
  }

  /** It waits until two seconds after the first scrape, counted in whole intervals from the one
      observed, that is not before `after`; without one, for 32 seconds. */
  lemma {:induction false} TillExact(seen: Option<Target>, after: int)
    requires seen.Some? ==> Truncated(seen.value.scraped) <= after
    ensures seen.None? ==> Till(seen, after) == after + 32_000_000
    ensures seen.Some? ==>
      var t := seen.value;
      var k, period := Intervals(t.scraped, t.interval, after), t.interval * 1_000_000;
      && Till(seen, after) == Truncated(t.scraped) + k * period + 2_000_000
      && after <= Truncated(t.scraped) + k * period < after + period
  {
    if seen.Some? {
      var t := seen.value;
      var k, period := Intervals(t.scraped, t.interval, after), t.interval * SECOND;
      assert (k - 1) * period == k * period - period;
    }
  }

  /** The seconds of a difference: what is left of it after whole days, in whole seconds. */
  lemma {:induction false} SecondsExact(difference: int)
    ensures var s := Seconds(difference);
      && s < 86_400
      && exists days: int :: LeftOver(difference, days, s)
  {
    assert LeftOver(difference, difference / DAY, Seconds(difference));
  }

  predicate LeftOver(difference: int, days: int, seconds: int) {
    0 <= difference - days * 86_400_000_000 - seconds * 1_000_000 < 1_000_000
  }

  /** The sleep stays within the interval and two seconds exactly while the computed end is
      not in the past, up to the day after which the seconds come round again. */
  lemma {:induction false} SleepBoundExact(seen: Option<Target>, after: int, now: int)
    requires seen.Some? ==> Truncated(seen.value.scraped) <= after
    requires after <= now <= Till(seen, after) + DAY - (IntervalOf(seen) + 3) * SECOND
    ensures Seconds(Till(seen, after) - now) <= IntervalOf(seen) + 2 <==> now <= Till(seen, after)
  {
    TillBounds(seen, after);
    var d := Till(seen, after) - now;
    if d >= 0 {
      if d >= DAY {
        assert Seconds(d) * SECOND <= d % DAY <= d;
      }
    } else {
      assert d % DAY == d + DAY;
    }
  }

  /** Waking up after the sleep, a scrape at or after `after` has happened. */
  lemma {:induction false} ScrapeHasPassed(t: Target, after: int, now: int)
    requires Truncated(t.scraped) <= after <= now <= Till(Some(t), after)
    requires t.interval + 2 < 86_400
    ensures var k := Intervals(t.scraped, t.interval, after);
      after <= Instant(t, k) < now + Seconds(Till(Some(t), after) - now) * SECOND
  {
    TillBounds(Some(t), after);
    var d := Till(Some(t), after) - now;
    assert 0 <= d < DAY;
    assert d % DAY == d;
    assert d - Seconds(d) * SECOND < SECOND;
  }

  /** The poll after the sleep compares truncated instants strictly: the scrape waited for
      satisfies it except when `after` lies a whole number of intervals behind the truncated
      scrape first observed. */
  lemma {:induction false} PollAcceptsExact(t: Target, after: int)
    requires Truncated(t.scraped) <= after
    ensures var k := Intervals(t.scraped, t.interval, after);
      after < Truncated(Instant(t, k)) <==> (after - Truncated(t.scraped)) % (t.interval * SECOND) != 0
  {
    var k, p := Intervals(t.scraped, t.interval, after), t.interval * SECOND;
    var a := after - Truncated(t.scraped);
    WholeSeconds(t.scraped, k * t.interval);
    assert k * p == k * t.interval * SECOND;
    assert Truncated(Instant(t, k)) == Truncated(t.scraped) + k * p;
    if a % p == 0 {
      var q := a / p;
      assert a == q * p;
      Same(q, k, p);
    } else if a == k * p {
      Multiple(k, p);
    }
  }

  lemma {:induction false} WholeSeconds(instant: int, n: int)
    ensures Truncated(instant + n * SECOND) == Truncated(instant) + n * SECOND
  {
  }

  lemma {:induction false} AtLeastOneMore(a: int, b: int, p: int)
    requires a > b && p > 0
    ensures a * p >= b * p + p
  {
    NonNegative(a - b - 1, p);
    assert (a - b - 1) * p == a * p - b * p - p;
  }

  lemma {:induction false} NonNegative(n: nat, p: nat)
    ensures n * p >= 0
  {
  }

  lemma {:induction false} Multiple(k: int, p: int)
    requires p > 0
    ensures k * p % p == 0
  {
    var q, r := k * p / p, k * p % p;
    assert k * p == q * p + r;
    assert (k - q) * p == r;
    if k - q >= 1 {
      AtLeastOneMore(k - q, 0, p);
    } else if k - q <= -1 {
      AtLeastOneMore(0, k - q, p);
    }
  }

  lemma {:induction false} Same(q: int, k: int, p: int)
    requires p > 0 && (k - 1) * p < q * p <= k * p
    ensures q == k
  {
    if q > k {
      AtLeastOneMore(q, k, p);
    } else if q < k - 1 {
      AtLeastOneMore(k - 1, q, p);
    }
  }

  // ----- The method

  /** The first target of the container. */
  function Observe(targets: seq<Target>, container: string): (seen: Option<Target>)
    ensures seen.Some? ==> IsOf(seen.value, container) && seen.value in targets
    ensures seen.None? <==> forall t :: t in targets ==> !IsOf(t, container)
  {
    if targets == [] then None
    else if IsOf(targets[0], container) then Some(targets[0])
    else
      assert forall t :: t in targets <==> t == targets[0] || t in targets[1..];
      Observe(targets[1..], container)
  }

  /** The container's scrape shows as later than `after`. */
  predicate Scraped(targets: seq<Target>, container: string, after: int) {
    var seen := Observe(targets, container);
    seen.Some? && after < Truncated(seen.value.scraped)
  }

  /** The target of this container, by its label. */
  predicate Labelled(t: Target, container: string) {
    "container" in t.labels && t.labels["container"] == container
  }

  /** The first target of the container decides, and it must have been scraped strictly later. */
  lemma {:induction false} ObserveFirst(targets: seq<Target>, container: string, i: nat, after: int)
    requires i < |targets| && Labelled(targets[i], container)
    requires forall j :: 0 <= j < i ==> !Labelled(targets[j], container)
    ensures Observe(targets, container) == Some(targets[i])
    ensures Scraped(targets, container, after) <==> after < Truncated(targets[i].scraped)
  {
    if i > 0 {
      ObserveFirst(targets[1..], container, i - 1, after);
    }
  }

  lemma {:induction false} ObserveNone(targets: seq<Target>, container: string, after: int)
    requires forall i :: 0 <= i < |targets| ==> !Labelled(targets[i], container)
    ensures Observe(targets, container) == None && !Scraped(targets, container, after)
  {
  }

  /** `_time_of_scrape` */
  method TimeOfScrape(targets: seq<Target>, container: string) returns (seen: Option<Target>)
    ensures seen == Observe(targets, container)
  {
    for i := 0 to |targets|
      invariant Observe(targets[i..], container) == Observe(targets, container)
    {
      if IsOf(targets[i], container) {
        return Some(targets[i]);
      }
      assert targets[i..][1..] == targets[i + 1..];
    }
    return None;
  }

  /** `wait_on_next_scrape`. The server's answers are `answers[0]` at first and `answers[k]` at
      the k-th poll; `now` is the time just before the sleep. The result is the sleep in
      seconds, if there was one, and the number of polls after it. */
  method WaitOnNextScrape(answers: seq<seq<Target>>, container: string, after: int, now: int)
    returns (slept: Option<nat>, polls: nat)
    requires |answers| == 11
    ensures slept.None? <==> Scraped(answers[0], container, after)
    ensures slept.Some? ==> slept.value == Seconds(Till(Observe(answers[0], container), after) - now)
    ensures slept.None? ==> polls == 0
    ensures slept.Some? ==> 1 <= polls <= 10
    ensures forall k :: 1 <= k < polls ==> !Scraped(answers[k], container, after)
    ensures slept.Some? ==> polls == 10 || Scraped(answers[polls], container, after)
  {
    var seen := TimeOfScrape(answers[0], container);
    if seen.Some? && after < Truncated(seen.value.scraped) {
      return None, 0;
    }
    slept := Some(Seconds(Till(seen, after) - now));
    polls := 0;
    while polls < 10
      invariant polls <= 10
      invariant forall k :: 1 <= k <= polls ==> !Scraped(answers[k], container, after)
    {
      polls := polls + 1;
      var again := TimeOfScrape(answers[polls], container);
      if again.Some? && after < Truncated(again.value.scraped) {
        return;
      }
    }
  }
}
