/** The pairing loop of `find_and_cmp` (testsuite/toolbox/toolbox.py): every element of the
    first list takes the first remaining element of the second that has the same key. */
module Pairing {

  /** The index of the first item with this key, or the length when there is none. */
  function FirstWith<E, K(==)>(key: E -> K, k: K, items: seq<E>): (i: nat)
    ensures i <= |items|
  {
    if items == [] then 0
    else if key(items[0]) == k then 0
    else 1 + FirstWith(key, k, items[1..])
  }

  lemma {:induction false} FirstWithExact<E, K>(key: E -> K, k: K, items: seq<E>)
    ensures var i := FirstWith(key, k, items);
      && (i < |items| ==> key(items[i]) == k)
      && (forall j :: 0 <= j < i ==> key(items[j]) != k)
  {
    if items != [] && key(items[0]) != k {
      FirstWithExact(key, k, items[1..]);
    }
  }

  /** The queue of pairs and what is left of the second list. */
  function Greedy<E, K(==)>(key: E -> K, first: seq<E>, second: seq<E>): (seq<(E, E)>, seq<E>)
    decreases |first|
  {
    if first == [] then ([], second)
    else
      var i := FirstWith(key, key(first[0]), second);
      if i < |second| then
        var rest := Greedy(key, first[1..], second[..i] + second[i + 1..]);
        ([(first[0], second[i])] + rest.0, rest.1)
      else Greedy(key, first[1..], second)
  }

  /** Pairs come from the two lists and agree on the key. */
  lemma {:induction false} PairsAgree<E, K>(key: E -> K, first: seq<E>, second: seq<E>)
    ensures forall p :: p in Greedy(key, first, second).0 ==>
      p.0 in first && p.1 in second && key(p.0) == key(p.1)
    decreases |first|
  {
    if first != [] {
      var i := FirstWith(key, key(first[0]), second);
      FirstWithExact(key, key(first[0]), second);
      PairsAgree(key, first[1..], if i < |second| then second[..i] + second[i + 1..] else second);
    }
  }

  /** The items with this key, in order. */
  function With<E, K(==)>(key: E -> K, k: K, items: seq<E>): (r: seq<E>)
  {
    if items == [] then []
    else (if key(items[0]) == k then [items[0]] else []) + With(key, k, items[1..])
  }

  /** The pairs with this key, in order. */
  function PairsWith<E, K(==)>(key: E -> K, k: K, pairs: seq<(E, E)>): seq<(E, E)>
  {
    if pairs == [] then []
    else (if key(pairs[0].0) == k then [pairs[0]] else []) + PairsWith(key, k, pairs[1..])
  }

  /** Python's `zip`: as long as the shorter list. */
  function Zip<E>(a: seq<E>, b: seq<E>): (r: seq<(E, E)>)
    ensures |r| == if |a| < |b| then |a| else |b|
    ensures forall i :: 0 <= i < |r| ==> r[i] == (a[i], b[i])
  {
    if a == [] || b == [] then [] else [(a[0], b[0])] + Zip(a[1..], b[1..])
  }

  function Keys<E, K>(key: E -> K, items: seq<E>): seq<K> {
    seq(|items|, i requires 0 <= i < |items| => key(items[i]))
  }

  function Firsts<E>(pairs: seq<(E, E)>): seq<E> {
    seq(|pairs|, i requires 0 <= i < |pairs| => pairs[i].0)
  }

  function Seconds<E>(pairs: seq<(E, E)>): seq<E> {
    seq(|pairs|, i requires 0 <= i < |pairs| => pairs[i].1)
  }

  // ----- Facts about With

  lemma {:induction false} WithConcat<E, K>(key: E -> K, k: K, a: seq<E>, b: seq<E>)
    ensures With(key, k, a + b) == With(key, k, a) + With(key, k, b)
  {
    if a == [] {
      assert a + b == b && With(key, k, a) == [];
    } else {
      var first := if key(a[0]) == k then [a[0]] else [];
      assert (a + b)[0] == a[0] && (a + b)[1..] == a[1..] + b;
      WithConcat(key, k, a[1..], b);
      assert With(key, k, a + b) == first + With(key, k, a[1..] + b);
      assert With(key, k, a) == first + With(key, k, a[1..]);
    }
  }

  lemma {:induction false} WithNone<E, K>(key: E -> K, k: K, items: seq<E>)
    requires forall j :: 0 <= j < |items| ==> key(items[j]) != k
    ensures With(key, k, items) == []
  {
    if items != [] {
      WithNone(key, k, items[1..]);
    }
  }

  lemma {:induction false} WithOne<E, K>(key: E -> K, k: K, item: E)
    ensures With(key, k, [item]) == if key(item) == k then [item] else []
  {
    assert [item][1..] == [];
  }

  /** Taking the first item of a key out of a list drops the head of that key's items and
      leaves every other key's items alone. */
  lemma {:induction false} WithTaken<E, K>(key: E -> K, k: K, before: seq<E>, item: E, after: seq<E>)
    requires forall j :: 0 <= j < |before| ==> key(before[j]) != key(item)
    ensures With(key, k, before + [item] + after) ==
            (if key(item) == k then [item] else []) + With(key, k, before + after)
  {
    WithConcat(key, k, before + [item], after);
    WithConcat(key, k, before, [item]);
    WithConcat(key, k, before, after);
    WithOne(key, k, item);
    if key(item) == k {
      WithNone(key, k, before);
    }
  }

  lemma {:induction false} CountIsWith<E, K>(key: E -> K, k: K, items: seq<E>)
    ensures multiset(Keys(key, items))[k] == |With(key, k, items)|
  {
    if items != [] {
      CountIsWith(key, k, items[1..]);
      assert Keys(key, items) == [key(items[0])] + Keys(key, items[1..]);
    }
  }

  lemma {:induction false} InWith<E, K>(key: E -> K, pairs: seq<(E, E)>, p: (E, E))
    ensures p in pairs <==> p in PairsWith(key, key(p.0), pairs)
  {
    if pairs != [] {
      InWith(key, pairs[1..], p);
      assert p in pairs <==> p == pairs[0] || p in pairs[1..];
    }
  }

  lemma {:induction false} PairsWithLength<E, K>(key: E -> K, k: K, pairs: seq<(E, E)>)
    ensures |PairsWith(key, k, pairs)| == multiset(Keys(key, Firsts(pairs)))[k]
  {
    if pairs != [] {
      PairsWithLength(key, k, pairs[1..]);
      assert Keys(key, Firsts(pairs)) == [key(pairs[0].0)] + Keys(key, Firsts(pairs[1..]));
    }
  }

  // ----- What the loop computes

  lemma {:induction false} ZipCons<E>(x: E, a: seq<E>, y: E, b: seq<E>)
    ensures Zip([x] + a, [y] + b) == [(x, y)] + Zip(a, b)
  {
    assert ([x] + a)[1..] == a && ([y] + b)[1..] == b;
  }

  lemma {:induction false} PairsWithCons<E, K>(key: E -> K, k: K, p: (E, E), pairs: seq<(E, E)>)
    ensures PairsWith(key, k, [p] + pairs) == (if key(p.0) == k then [p] else []) + PairsWith(key, k, pairs)
  {
    assert ([p] + pairs)[1..] == pairs;
  }

  /** The queue and leftover agree with pairing the items of one key in order. */
  ghost predicate Stable<E, K>(key: E -> K, k: K, first: seq<E>, second: seq<E>, queue: seq<(E, E)>, rest: seq<E>) {
    var zipped := Zip(With(key, k, first), With(key, k, second));
    PairsWith(key, k, queue) == zipped && With(key, k, rest) == With(key, k, second)[|zipped|..]
  }

  lemma {:induction false} StableTaken<E, K>(key: E -> K, k: K, x: E, first: seq<E>, before: seq<E>, y: E,
          after: seq<E>,
                                  queue: seq<(E, E)>, rest: seq<E>)
    requires key(x) == key(y) && forall j :: 0 <= j < |before| ==> key(before[j]) != key(y)
    requires Stable(key, k, first, before + after, queue, rest)
    ensures Stable(key, k, [x] + first, before + [y] + after, [(x, y)] + queue, rest)
  {
    var left, right := With(key, k, first), With(key, k, before + after);
    WithTaken(key, k, before, y, after);
    assert ([x] + first)[1..] == first;
    PairsWithCons(key, k, (x, y), queue);
    if key(x) == k {
      ZipCons(x, left, y, right);
      assert ([y] + right)[|Zip(left, right)| + 1..] == right[|Zip(left, right)|..];
    } else {
      assert [] + left == left && [] + right == right && [] + PairsWith(key, k, queue) == PairsWith(key, k, queue);
    }
  }

  lemma {:induction false} StableSkipped<E, K>(key: E -> K, k: K, x: E, first: seq<E>, second: seq<E>,
          queue: seq<(E, E)>, rest: seq<E>)
    requires forall j :: 0 <= j < |second| ==> key(second[j]) != key(x)
    requires Stable(key, k, first, second, queue, rest)
    ensures Stable(key, k, [x] + first, second, queue, rest)
  {
    assert ([x] + first)[1..] == first;
    if key(x) == k {
      WithNone(key, k, second);
    } else {
      assert [] + With(key, k, first) == With(key, k, first);
    }
  }

  /** Stable pairing, key by key: the i-th item of a key on the left is paired with the i-th
      item of that key on the right, and the surplus on the right stays, in order. */
  lemma {:induction false} StablePairing<E, K>(key: E -> K, k: K, first: seq<E>, second: seq<E>)
    ensures Stable(key, k, first, second, Greedy(key, first, second).0, Greedy(key, first, second).1)
    decreases |first|
  {
    if first == [] {
      assert With(key, k, second)[0..] == With(key, k, second);
    } else {
      var x, i := first[0], FirstWith(key, key(first[0]), second);
      FirstWithExact(key, key(x), second);
      assert first == [x] + first[1..];
      if i < |second| {
        var before, y, after := second[..i], second[i], second[i + 1..];
        assert second == before + [y] + after;
        StablePairing(key, k, first[1..], before + after);
        var inner := Greedy(key, first[1..], before + after);
        StableTaken(key, k, x, first[1..], before, y, after, inner.0, inner.1);
      } else {
        StablePairing(key, k, first[1..], second);
        var inner := Greedy(key, first[1..], second);
        StableSkipped(key, k, x, first[1..], second, inner.0, inner.1);
      }
    }
  }

  ghost predicate Subsequence<E>(a: seq<E>, b: seq<E>) {
    if a == [] then true
    else if b == [] then false
    else if a[0] == b[0] then Subsequence(a[1..], b[1..])
    else Subsequence(a, b[1..])
  }

  lemma {:induction false} SubsequenceSkip<E>(a: seq<E>, b: seq<E>)
    requires b != [] && Subsequence(a, b[1..])
    ensures Subsequence(a, b)
    decreases |b|, 0
  {
    if a != [] && a[0] == b[0] {
      SubsequenceTail(a, b[1..]);
    }
  }

  lemma {:induction false} SubsequenceTail<E>(a: seq<E>, b: seq<E>)
    requires a != [] && Subsequence(a, b)
    ensures Subsequence(a[1..], b)
    decreases |b|, 1
  {
    if a[0] == b[0] {
      SubsequenceSkip(a[1..], b);
    } else {
      SubsequenceTail(a, b[1..]);
      SubsequenceSkip(a[1..], b);
    }
  }

  /** Removing one item keeps the order of the others. */
  lemma {:induction false} SubsequenceWithout<E>(a: seq<E>, b: seq<E>, i: nat)
    requires i < |b| && Subsequence(a, b[..i] + b[i + 1..])
    ensures Subsequence(a, b)
    decreases |b|
  {
    if i == 0 {
      assert b[..0] + b[1..] == b[1..];
      SubsequenceSkip(a, b);
    } else if a != [] {
      var without := b[..i] + b[i + 1..];
      assert without[1..] == b[1..][..i - 1] + b[1..][i..];
      SubsequenceWithout(if a[0] == b[0] then a[1..] else a, b[1..], i - 1);
    }
  }

  lemma {:induction false} LeftoverInOrder<E, K>(key: E -> K, first: seq<E>, second: seq<E>)
    ensures Subsequence(Greedy(key, first, second).1, second)
    decreases |first|
  {
    if first == [] {
      SubsequenceSelf(second);
    } else {
      var i := FirstWith(key, key(first[0]), second);
      if i < |second| {
        LeftoverInOrder(key, first[1..], second[..i] + second[i + 1..]);
        SubsequenceWithout(Greedy(key, first[1..], second[..i] + second[i + 1..]).1, second, i);
      } else {
        LeftoverInOrder(key, first[1..], second);
      }
    }
  }

  lemma {:induction false} OneTaken<E>(items: seq<E>, i: nat)
    requires i < |items|
    ensures multiset(items) == multiset(items[..i] + items[i + 1..]) + multiset{items[i]}
  {
    assert items == items[..i] + [items[i]] + items[i + 1..];
  }

  lemma {:induction false} SecondsCons<E>(p: (E, E), pairs: seq<(E, E)>)
    ensures multiset(Seconds([p] + pairs)) == multiset{p.1} + multiset(Seconds(pairs))
  {
    assert Seconds([p] + pairs) == [p.1] + Seconds(pairs);
  }

  /** The leftover is the second list minus the matched elements, in the original order. */
  lemma {:induction false} LeftoverExact<E, K>(key: E -> K, first: seq<E>, second: seq<E>)
    ensures multiset(Greedy(key, first, second).1) + multiset(Seconds(Greedy(key, first, second).0)) == multiset(second)
    ensures Subsequence(Greedy(key, first, second).1, second)
    decreases |first|
  {
    LeftoverInOrder(key, first, second);
    if first == [] {
      assert Seconds<E>([]) == [];
    } else {
      var i := FirstWith(key, key(first[0]), second);
      if i < |second| {
        var others := second[..i] + second[i + 1..];
        LeftoverExact(key, first[1..], others);
        OneTaken(second, i);
        SecondsCons((first[0], second[i]), Greedy(key, first[1..], others).0);
      } else {
        LeftoverExact(key, first[1..], second);
      }
    }
  }

  lemma {:induction false} SubsequenceSelf<E>(a: seq<E>)
    ensures Subsequence(a, a)
  {
    if a != [] {
      SubsequenceSelf(a[1..]);
    }
  }

  /** The number of pairs is the sum over the keys of the smaller multiplicity. */
  lemma {:induction false} PairCount<E, K(!new)>(key: E -> K, first: seq<E>, second: seq<E>)
    ensures var queue := Greedy(key, first, second).0;
      && multiset(Keys(key, Firsts(queue))) == multiset(Keys(key, first)) * multiset(Keys(key, second))
      && |queue| == |multiset(Keys(key, first)) * multiset(Keys(key, second))|
  {
    var queue := Greedy(key, first, second).0;
    var common := multiset(Keys(key, first)) * multiset(Keys(key, second));
    var paired := multiset(Keys(key, Firsts(queue)));
    forall k ensures paired[k] == common[k] {
      StablePairing(key, k, first, second);
      PairsWithLength(key, k, queue);
      CountIsWith(key, k, first);
      CountIsWith(key, k, second);
    }
    assert paired == common;
    assert |paired| == |queue|;
  }

  /** A matching: index pairs with equal keys, no index used twice on either side. */
  ghost predicate Matching<E, K>(key: E -> K, first: seq<E>, second: seq<E>, m: seq<(nat, nat)>) {
    && (forall p :: 0 <= p < |m| ==> m[p].0 < |first| && m[p].1 < |second| && key(first[m[p].0]) == key(second[m[p].1]))
    && (forall p, q :: 0 <= p < q < |m| ==> m[p].0 != m[q].0 && m[p].1 != m[q].1)
  }

  function Picked<K>(items: seq<K>, at: seq<nat>): seq<K>
    requires forall p :: 0 <= p < |at| ==> at[p] < |items|
  {
    seq(|at|, p requires 0 <= p < |at| => items[at[p]])
  }

  /** Picking at distinct places never picks more of anything than there is. */
  lemma {:induction false} PickedWithin<K>(items: seq<K>, at: seq<nat>)
    requires forall p :: 0 <= p < |at| ==> at[p] < |items|
    requires forall p, q :: 0 <= p < q < |at| ==> at[p] != at[q]
    ensures multiset(Picked(items, at)) <= multiset(items)
    decreases |items|
  {
    if at == [] {
    } else {
      assert at[0] < |items|;
      var n := |items| - 1;
      assert items == items[..n] + [items[n]];
      if p :| 0 <= p < |at| && at[p] == n {
        var others := at[..p] + at[p + 1..];
        assert forall q :: 0 <= q < |others| ==> others[q] < n;
        PickedWithin(items[..n], others);
        assert Picked(items, at) == Picked(items, at)[..p] + [items[n]] + Picked(items, at)[p + 1..];
        assert Picked(items[..n], others) == Picked(items, at)[..p] + Picked(items, at)[p + 1..];
      } else {
        PickedWithin(items[..n], at);
        assert Picked(items[..n], at) == Picked(items, at);
      }
    }
  }

  /** No matching has more pairs than the loop finds. */
  lemma {:induction false} GreedyIsMaximum<E, K(!new)>(key: E -> K, first: seq<E>, second: seq<E>, m: seq<(nat, nat)>)
    requires Matching(key, first, second, m)
    ensures |m| <= |Greedy(key, first, second).0|
  {
    var left := seq(|m|, p requires 0 <= p < |m| => m[p].0);
    var right := seq(|m|, p requires 0 <= p < |m| => m[p].1);
    PickedWithin(Keys(key, first), left);
    PickedWithin(Keys(key, second), right);
    var picked := Picked(Keys(key, first), left);
    assert picked == Picked(Keys(key, second), right);
    PairCount(key, first, second);
    var common := multiset(Keys(key, first)) * multiset(Keys(key, second));
    assert multiset(picked) <= common;
    assert common == multiset(picked) + (common - multiset(picked));
    assert |multiset(picked)| == |m|;
  }

  /** Swapping the lists swaps the pairs and changes nothing else about them. */
  lemma {:induction false} Mirror<E, K>(key: E -> K, first: seq<E>, second: seq<E>, a: E, b: E)
    ensures (a, b) in Greedy(key, first, second).0 <==> (b, a) in Greedy(key, second, first).0
  {
    if (a, b) in Greedy(key, first, second).0 {
      MirrorOneWay(key, first, second, a, b);
    }
    if (b, a) in Greedy(key, second, first).0 {
      MirrorOneWay(key, second, first, b, a);
    }
  }

  lemma {:induction false} MirrorOneWay<E, K>(key: E -> K, first: seq<E>, second: seq<E>, a: E, b: E)
    requires (a, b) in Greedy(key, first, second).0
    ensures (b, a) in Greedy(key, second, first).0
  {
    var k := key(a);
    PairsAgree(key, first, second);
    var left, right := With(key, k, first), With(key, k, second);
    StablePairing(key, k, first, second);
    StablePairing(key, k, second, first);
    InWith(key, Greedy(key, first, second).0, (a, b));
    InWith(key, Greedy(key, second, first).0, (b, a));
    var i :| 0 <= i < |Zip(left, right)| && Zip(left, right)[i] == (a, b);
    assert Zip(right, left)[i] == (b, a);
  }

  // ----- The pairs by position

  /** The places before this one whose items have the key of the item here. */
  function SameBefore<E, K(==)>(key: E -> K, items: seq<E>, i: nat): set<nat>
    requires i < |items|
  {
    set x: nat | x < i && key(items[x]) == key(items[i])
  }

  function Rank<E, K(==)>(key: E -> K, items: seq<E>, i: nat): nat
    requires i < |items|
  {
    |SameBefore(key, items, i)|
  }

  /** The two places hold the same key and it is there for the same time, counted from the left. */
  predicate Partners<E, K(==)>(key: E -> K, first: seq<E>, i: nat, second: seq<E>, j: nat)
    requires i < |first| && j < |second|
  {
    key(first[i]) == key(second[j]) && Rank(key, first, i) == Rank(key, second, j)
  }

  lemma {:induction false} BeforeIsWith<E, K>(key: E -> K, k: K, items: seq<E>, n: nat)
    requires n <= |items|
    ensures |set x: nat | x < n && key(items[x]) == k| == |With(key, k, items[..n])|
  {
    if n > 0 {
      var m := n - 1;
      BeforeIsWith(key, k, items, m);
      assert items[..n] == items[..m] + [items[m]];
      WithConcat(key, k, items[..m], [items[m]]);
      WithOne(key, k, items[m]);
      var before, now := set x: nat | x < m && key(items[x]) == k, set x: nat | x < n && key(items[x]) == k;
      assert now == before + if key(items[m]) == k then {m} else {};
    }
  }

  lemma {:induction false} AtRank<E, K>(key: E -> K, items: seq<E>, i: nat)
    requires i < |items|
    ensures var k := key(items[i]);
      Rank(key, items, i) < |With(key, k, items)| && With(key, k, items)[Rank(key, items, i)] == items[i]
  {
    var k := key(items[i]);
    BeforeIsWith(key, k, items, i);
    assert items == items[..i] + ([items[i]] + items[i + 1..]);
    WithConcat(key, k, items[..i], [items[i]] + items[i + 1..]);
    WithConcat(key, k, [items[i]], items[i + 1..]);
    WithOne(key, k, items[i]);
  }

  /** Every item of a key stands at the place its rank says. */
  lemma {:induction false} OfRank<E, K>(key: E -> K, k: K, items: seq<E>, r: nat) returns (i: nat)
    requires r < |With(key, k, items)|
    ensures i < |items| && key(items[i]) == k && Rank(key, items, i) == r && items[i] == With(key, k, items)[r]
  {
    assert items[..|items|] == items;
    i := OfRankIn(key, k, items, r, |items|);
    AtRank(key, items, i);
  }

  lemma {:induction false} OfRankIn<E, K>(key: E -> K, k: K, items: seq<E>, r: nat, n: nat) returns (i: nat)
    requires n <= |items| && r < |With(key, k, items[..n])|
    ensures i < n && key(items[i]) == k && Rank(key, items, i) == r
    decreases n
  {
    var m := n - 1;
    assert items[..n] == items[..m] + [items[m]];
    WithConcat(key, k, items[..m], [items[m]]);
    WithOne(key, k, items[m]);
    if r < |With(key, k, items[..m])| {
      i := OfRankIn(key, k, items, r, m);
    } else {
      i := m;
      BeforeIsWith(key, k, items, m);
    }
  }

  /** The queue holds exactly the pairs of partners: what is paired with what is decided by the
      places in the two lists alone. */
  lemma {:induction false} PairsArePartners<E, K>(key: E -> K, first: seq<E>, second: seq<E>, p: (E, E))
    ensures p in Greedy(key, first, second).0 <==>
      exists i: nat, j: nat :: i < |first| && j < |second| && Partners(key, first, i, second, j) && p == (first[i], second[j])
  {
    var k, queue := key(p.0), Greedy(key, first, second).0;
    var left, right := With(key, k, first), With(key, k, second);
    StablePairing(key, k, first, second);
    InWith(key, queue, p);
    if p in queue {
      var r :| 0 <= r < |Zip(left, right)| && Zip(left, right)[r] == p;
      var i := OfRank(key, k, first, r);
      var j := OfRank(key, k, second, r);
      assert Partners(key, first, i, second, j);
    }
    if i: nat, j: nat :| i < |first| && j < |second| && Partners(key, first, i, second, j) && p == (first[i], second[j]) {
      AtRank(key, first, i);
      AtRank(key, second, j);
      assert Zip(left, right)[Rank(key, first, i)] == p;
    }
  }
}
