/** The nested comparison of `testsuite/toolbox/toolbox.py`. Each `cmp_*` function compares
    two entities and then some lists below them through `find_and_cmp`; here the resources are
    a tree whose nodes carry their entity and those lists, and one recursion compares trees. */
module Comparison {
  import opened Wrappers
  import opened Json
  import opened Pairing

  type Entity = map<string, Value>

  /** One per ignored-attribute set; the two "MetricOf" kinds are the metrics `cmp_limits` and
      `cmp_pricing_rules` walk over without comparing their attributes. */
  datatype Kind =
    | ServiceKind | ProxyKind | ContentKind | InnerProxyKind
    | MetricKind | MethodKind | MappingKind | PlanKind
    | MetricOfLimits | LimitKind | MetricOfPricing | PricingKind
    | ActiveDocKind | UsageKind | BackendKind

  datatype Rules = Rules(ignored: Kind -> set<string>, dropApiBackend: bool)

  /** `sound` is the outcome of checks a node makes on itself, `fixed` what must be equal as a
      whole, `parts` what is compared one to one, `lists` what goes through `find_and_cmp`. */
  datatype Node = Node(kind: Kind, entity: Entity, sound: bool, fixed: seq<Value>, parts: seq<Node>,
          lists: seq<Listing>)
  datatype Listing = Listing(ids: seq<string>, exact: bool, nodes: seq<Node>)

  // ----- Comparing two entities

  function Dropped(rules: Rules, kind: Kind): set<string> {
    if rules.dropApiBackend && kind.InnerProxyKind? then {"api_backend"} else {}
  }

  predicate ComparesAttributes(kind: Kind) {
    !kind.MetricOfLimits? && !kind.MetricOfPricing?
  }

  /** The attributes handed to `cmp_ents`: the first entity's keys less the ignored ones. */
  function Attributes(rules: Rules, kind: Kind, e: Entity): set<string> {
    if ComparesAttributes(kind) then e.Keys - rules.ignored(kind) - Dropped(rules, kind) else {}
  }

  /** `cmp_ents`: a missing key raises just as a difference does. */
  predicate CmpEnts(e1: Entity, e2: Entity, attributes: set<string>) {
    forall a :: a in attributes ==> a in e1 && a in e2 && e1[a] == e2[a]
  }

  predicate EntityAccepted(rules: Rules, n1: Node, n2: Node) {
    && n1.kind == n2.kind && n1.sound && n2.sound && n1.fixed == n2.fixed
    && |n1.entity.Keys| == |n2.entity.Keys|
    && Dropped(rules, n1.kind) <= n1.entity.Keys - rules.ignored(n1.kind)
    && CmpEnts(n1.entity, n2.entity, Attributes(rules, n1.kind, n1.entity))
  }

  /** The two entities carry equally many ignored keys (and the key dropped, if any). */
  predicate Alike(rules: Rules, n1: Node, n2: Node) {
    ComparesAttributes(n1.kind) ==>
      var ignored := rules.ignored(n1.kind);
      && |n1.entity.Keys * ignored| == |n2.entity.Keys * ignored|
      && Dropped(rules, n1.kind) <= n2.entity.Keys - ignored
  }

  lemma {:induction false} SubsetOfSameSize(a: set<string>, b: set<string>)
    requires a <= b && |a| == |b|
    ensures a == b
    decreases |a|
  {
    if a != {} {
      var x :| x in a;
      SubsetOfSameSize(a - {x}, b - {x});
      assert a == (a - {x}) + {x} && b == (b - {x}) + {x};
    }
  }

  lemma {:induction false} SplitSize(keys: set<string>, ignored: set<string>)
    ensures |keys| == |keys - ignored| + |keys * ignored|
  {
    assert keys == (keys - ignored) + (keys * ignored);
  }

  /** Equal key counts and equality on the first entity's compared keys force equal compared
      key sets exactly when equally many keys are ignored on both sides; so acceptance of an
      entity pair can be turned round exactly then. */
  lemma {:induction false} EntitySwap(rules: Rules, n1: Node, n2: Node)
    requires EntityAccepted(rules, n1, n2)
    ensures EntityAccepted(rules, n2, n1) <==> Alike(rules, n1, n2)
    ensures Alike(rules, n1, n2) && ComparesAttributes(n1.kind) ==>
      n1.entity.Keys - rules.ignored(n1.kind) == n2.entity.Keys - rules.ignored(n1.kind)
  {
    if ComparesAttributes(n1.kind) {
      var ignored, dropped := rules.ignored(n1.kind), Dropped(rules, n1.kind);
      var left, right := n1.entity.Keys - ignored, n2.entity.Keys - ignored;
      SplitSize(n1.entity.Keys, ignored);
      SplitSize(n2.entity.Keys, ignored);
      assert forall a :: a in left - dropped ==> a in right;
      if EntityAccepted(rules, n2, n1) {
        assert forall a :: a in right - dropped ==> a in left;
        assert left <= right && right <= left;
        assert left == right;
      }
      if Alike(rules, n1, n2) {
        assert left <= right;
        SubsetOfSameSize(left, right);
      }
    }
  }

  // ----- Matching nodes of two lists

  /** Whether two entities agree on the id attributes, asked in order up to the first that
      differs; None when one of them lacks an attribute that is reached. */
  function SameIds(e1: Entity, e2: Entity, ids: seq<string>): Option<bool> {
    if ids == [] then Some(true)
    else if ids[0] !in e1 || ids[0] !in e2 then None
    else if e1[ids[0]] != e2[ids[0]] then Some(false)
    else SameIds(e1, e2, ids[1..])
  }

  /** All id attributes are there on both sides and equal. */
  predicate SameOn(ids: seq<string>, e1: Entity, e2: Entity) {
    forall k :: 0 <= k < |ids| ==> ids[k] in e1 && ids[k] in e2 && e1[ids[k]] == e2[ids[k]]
  }

  lemma {:induction false} SameOnCons(ids: seq<string>, e1: Entity, e2: Entity)
    requires ids != []
    ensures SameOn(ids, e1, e2) <==> ids[0] in e1 && ids[0] in e2 && e1[ids[0]] == e2[ids[0]] && SameOn(ids[1..], e1, e2)
  {
    assert forall k :: 0 <= k < |ids| - 1 ==> ids[1..][k] == ids[k + 1];
    if SameOn(ids[1..], e1, e2) && ids[0] in e1 && ids[0] in e2 && e1[ids[0]] == e2[ids[0]] {
      forall k | 0 <= k < |ids| ensures ids[k] in e1 && ids[k] in e2 && e1[ids[k]] == e2[ids[k]] {
        if k > 0 { assert ids[1..][k - 1] == ids[k]; }
      }
    }
  }

  /** The comparison comes to attribute k, having found those before it equal, and it is missing. */
  predicate MissesAt(ids: seq<string>, e1: Entity, e2: Entity, k: nat)
    requires k < |ids|
  {
    SameOn(ids[..k], e1, e2) && (ids[k] !in e1 || ids[k] !in e2)
  }

  lemma {:induction false} MissesLater(ids: seq<string>, e1: Entity, e2: Entity, k: nat)
    requires 0 < k < |ids|
    ensures MissesAt(ids, e1, e2, k) <==>
            ids[0] in e1 && ids[0] in e2 && e1[ids[0]] == e2[ids[0]] && MissesAt(ids[1..], e1, e2, k - 1)
  {
    SameOnCons(ids[..k], e1, e2);
    assert ids[..k][1..] == ids[1..][..k - 1];
  }

  /** They agree when all are equal; the first that is missing raises, unless one before differs. */
  lemma {:induction false} SameIdsExact(e1: Entity, e2: Entity, ids: seq<string>)
    ensures SameIds(e1, e2, ids) == Some(true) <==> SameOn(ids, e1, e2)
    ensures SameIds(e1, e2, ids) == None <==> exists k: nat :: k < |ids| && MissesAt(ids, e1, e2, k)
  {
    if ids != [] {
      SameIdsExact(e1, e2, ids[1..]);
      SameOnCons(ids, e1, e2);
      assert MissesAt(ids, e1, e2, 0) <==> ids[0] !in e1 || ids[0] !in e2;
      forall k: nat | 0 < k < |ids|
        ensures MissesAt(ids, e1, e2, k) <==>
                ids[0] in e1 && ids[0] in e2 && e1[ids[0]] == e2[ids[0]] && MissesAt(ids[1..], e1, e2, k - 1)
      {
        MissesLater(ids, e1, e2, k);
      }
      if k: nat :| k < |ids[1..]| && MissesAt(ids[1..], e1, e2, k) {
        assert MissesAt(ids[1..], e1, e2, (k + 1) - 1);
        assert SameIds(e1, e2, ids).None? ==> ids[0] !in e1 || ids[0] !in e2 || MissesAt(ids, e1, e2, k + 1);
      }
    }
  }

  function RawFirst(e1: Entity, nodes: seq<Node>, ids: seq<string>): (r: Option<nat>)
    ensures r.Some? ==> r.value <= |nodes|
  {
    if nodes == [] then Some(0)
    else
      var same := SameIds(e1, nodes[0].entity, ids);
      if same.None? then None
      else if same.value then Some(0)
      else
        var later := RawFirst(e1, nodes[1..], ids);
        if later.None? then None else Some(later.value + 1)
  }

  /** The queue and the leftover of the pairing loop, None when a key is missing on the way. */
  function RawQueue(first: seq<Node>, second: seq<Node>, ids: seq<string>): (r: Option<(seq<(Node, Node)>, seq<Node>)>)
    ensures r.Some? ==> forall p :: p in r.value.0 ==> p.0 in first && p.1 in second
    decreases |first|
  {
    if first == [] then Some(([], second))
    else
      var i := RawFirst(first[0].entity, second, ids);
      if i.None? then None
      else if i.value < |second| then
        var inner := RawQueue(first[1..], second[..i.value] + second[i.value + 1..], ids);
        if inner.None? then None
        else Some(([(first[0], second[i.value])] + inner.value.0, inner.value.1))
      else RawQueue(first[1..], second, ids)
  }

  function IdsOf(ids: seq<string>, n: Node): seq<Option<Value>> {
    seq(|ids|, i requires 0 <= i < |ids| => if ids[i] in n.entity then Some(n.entity[ids[i]]) else None)
  }

  function Key(ids: seq<string>): Node -> seq<Option<Value>> {
    n => IdsOf(ids, n)
  }

  predicate HasIds(ids: seq<string>, n: Node) {
    forall i :: 0 <= i < |ids| ==> ids[i] in n.entity
  }

  predicate Keyed(ids: seq<string>, nodes: seq<Node>) {
    forall n :: n in nodes ==> HasIds(ids, n)
  }

  lemma {:induction false} SameIdsIsKey(ids: seq<string>, n1: Node, n2: Node)
    requires HasIds(ids, n1) && HasIds(ids, n2)
    ensures SameIds(n1.entity, n2.entity, ids) == Some(IdsOf(ids, n1) == IdsOf(ids, n2))
  {
    if ids != [] {
      assert HasIds(ids[1..], n1) && HasIds(ids[1..], n2);
      SameIdsIsKey(ids[1..], n1, n2);
      var k1, k2 := IdsOf(ids, n1), IdsOf(ids, n2);
      assert k1[1..] == IdsOf(ids[1..], n1) && k2[1..] == IdsOf(ids[1..], n2);
      assert k1 == [k1[0]] + k1[1..] && k2 == [k2[0]] + k2[1..];
      assert HasIds(ids, n1) && ids[0] in n1.entity && ids[0] in n2.entity;
    }
  }

  lemma {:induction false} RawFirstIsFirst(ids: seq<string>, n: Node, nodes: seq<Node>)
    requires HasIds(ids, n) && Keyed(ids, nodes)
    ensures RawFirst(n.entity, nodes, ids) == Some(FirstWith(Key(ids), Key(ids)(n), nodes))
  {
    if nodes != [] {
      SameIdsIsKey(ids, n, nodes[0]);
      RawFirstIsFirst(ids, n, nodes[1..]);
    }
  }

  /** On entities that have their id attributes the loop raises nothing and is the greedy pairing. */
  lemma {:induction false} QueueIsGreedy(ids: seq<string>, first: seq<Node>, second: seq<Node>)
    requires Keyed(ids, first) && Keyed(ids, second)
    ensures RawQueue(first, second, ids) == Some(Greedy(Key(ids), first, second))
    decreases |first|
  {
    if first != [] {
      RawFirstIsFirst(ids, first[0], second);
      var i := FirstWith(Key(ids), Key(ids)(first[0]), second);
      QueueIsGreedy(ids, first[1..], if i < |second| then second[..i] + second[i + 1..] else second);
    }
  }

  // ----- Comparing trees

  predicate Accepts(rules: Rules, n1: Node, n2: Node)
    decreases n1
  {
    && EntityAccepted(rules, n1, n2)
    && |n1.parts| == |n2.parts| && |n1.lists| == |n2.lists|
    && (forall i :: 0 <= i < |n1.parts| ==> Accepts(rules, n1.parts[i], n2.parts[i]))
    && (forall i :: 0 <= i < |n1.lists| ==> AcceptsLists(rules, n1.lists[i], n2.lists[i]))
  }

  /** `find_and_cmp` on two lists of the same sort. */
  predicate AcceptsLists(rules: Rules, l1: Listing, l2: Listing)
    decreases l1
  {
    && l1.ids == l2.ids && l1.exact == l2.exact
    && (l1.exact ==> |l1.nodes| == |l2.nodes|)
    && var found := RawQueue(l1.nodes, l2.nodes, l1.ids);
    && found.Some?
    && forall p :: p in found.value.0 ==> Accepts(rules, p.0, p.1)
  }

  predicate KeyedTree(n: Node) {
    && (forall i :: 0 <= i < |n.parts| ==> KeyedTree(n.parts[i]))
    && (forall i :: 0 <= i < |n.lists| ==> KeyedListing(n.lists[i]))
  }

  predicate KeyedListing(l: Listing) {
    Keyed(l.ids, l.nodes) && forall i :: 0 <= i < |l.nodes| ==> KeyedTree(l.nodes[i])
  }

  /** Every pair of entities the comparison meets carries equally many ignored keys. */
  predicate Aligned(rules: Rules, n1: Node, n2: Node)
    decreases n1
  {
    && Alike(rules, n1, n2)
    && |n1.parts| == |n2.parts| && |n1.lists| == |n2.lists|
    && (forall i :: 0 <= i < |n1.parts| ==> Aligned(rules, n1.parts[i], n2.parts[i]))
    && (forall i :: 0 <= i < |n1.lists| ==> AlignedLists(rules, n1.lists[i], n2.lists[i]))
  }

  predicate AlignedLists(rules: Rules, l1: Listing, l2: Listing)
    decreases l1
  {
    var found := RawQueue(l1.nodes, l2.nodes, l1.ids);
    found.Some? && forall p :: p in found.value.0 ==> Aligned(rules, p.0, p.1)
  }

  /** An accepted comparison of two trees is accepted the other way round if and only if every
      pair of entities it met carries equally many ignored keys. */
  lemma {:induction false} ComparisonSwap(rules: Rules, n1: Node, n2: Node)
    requires KeyedTree(n1) && KeyedTree(n2)
    requires Accepts(rules, n1, n2)
    ensures Accepts(rules, n2, n1) <==> Aligned(rules, n1, n2)
    decreases n1
  {
    EntitySwap(rules, n1, n2);
    forall i | 0 <= i < |n1.parts|
      ensures Accepts(rules, n2.parts[i], n1.parts[i]) <==> Aligned(rules, n1.parts[i], n2.parts[i])
    {
      ComparisonSwap(rules, n1.parts[i], n2.parts[i]);
    }
    forall i | 0 <= i < |n1.lists|
      ensures AcceptsLists(rules, n2.lists[i], n1.lists[i]) <==> AlignedLists(rules, n1.lists[i], n2.lists[i])
    {
      ListsSwap(rules, n1.lists[i], n2.lists[i]);
    }
  }

  lemma {:induction false} ListsSwap(rules: Rules, l1: Listing, l2: Listing)
    requires KeyedListing(l1) && KeyedListing(l2)
    requires AcceptsLists(rules, l1, l2)
    ensures AcceptsLists(rules, l2, l1) <==> AlignedLists(rules, l1, l2)
    decreases l1
  {
    QueueIsGreedy(l1.ids, l1.nodes, l2.nodes);
    QueueIsGreedy(l1.ids, l2.nodes, l1.nodes);
    var there, back := RawQueue(l1.nodes, l2.nodes, l1.ids).value.0, RawQueue(l2.nodes, l1.nodes, l1.ids).value.0;
    forall p | p in there
      ensures (p.1, p.0) in back && (Accepts(rules, p.1, p.0) <==> Aligned(rules, p.0, p.1))
    {
      Mirror(Key(l1.ids), l1.nodes, l2.nodes, p.0, p.1);
      var i :| 0 <= i < |l1.nodes| && l1.nodes[i] == p.0;
      var j :| 0 <= j < |l2.nodes| && l2.nodes[j] == p.1;
      ComparisonSwap(rules, p.0, p.1);
    }
    forall p | p in back ensures (p.1, p.0) in there {
      Mirror(Key(l1.ids), l1.nodes, l2.nodes, p.1, p.0);
    }
  }

  // ----- What acceptance says about the entities

  /** Accepted entities have equal values at every key of the first that is not ignored. */
  lemma {:induction false} AcceptedValues(rules: Rules, n1: Node, n2: Node, a: string)
    requires Accepts(rules, n1, n2) && a in n1.entity && a !in rules.ignored(n1.kind)
    requires !n1.kind.MetricOfLimits? && !n1.kind.MetricOfPricing?
    requires !(rules.dropApiBackend && n1.kind.InnerProxyKind? && a == "api_backend")
    ensures a in n2.entity && n1.entity[a] == n2.entity[a]
  {
    assert a in Attributes(rules, n1.kind, n1.entity);
  }

  function Entities(nodes: seq<Node>): seq<Entity> {
    seq(|nodes|, i requires 0 <= i < |nodes| => nodes[i].entity)
  }

  /** The places before this one whose entities agree with the one here on the id attributes. */
  function Before(ids: seq<string>, entities: seq<Entity>, i: nat): set<nat>
    requires i < |entities|
  {
    set x: nat | x < i && SameOn(ids, entities[x], entities[i])
  }

  /** Two entities that are compared: with the same id attributes, for the same time from the left. */
  predicate Matched(ids: seq<string>, first: seq<Entity>, i: nat, second: seq<Entity>, j: nat)
    requires i < |first| && j < |second|
  {
    SameOn(ids, first[i], second[j]) && |Before(ids, first, i)| == |Before(ids, second, j)|
  }

  lemma {:induction false} SameOnIsKey(ids: seq<string>, n1: Node, n2: Node)
    requires HasIds(ids, n1) && HasIds(ids, n2)
    ensures SameOn(ids, n1.entity, n2.entity) <==> Key(ids)(n1) == Key(ids)(n2)
  {
    SameIdsIsKey(ids, n1, n2);
    SameIdsExact(n1.entity, n2.entity, ids);
  }

  lemma {:induction false} BeforeIsRank(ids: seq<string>, nodes: seq<Node>, i: nat)
    requires Keyed(ids, nodes) && i < |nodes|
    ensures |Before(ids, Entities(nodes), i)| == Rank(Key(ids), nodes, i)
  {
    var entities := Entities(nodes);
    forall x: nat | x < i
      ensures SameOn(ids, entities[x], entities[i]) <==> Key(ids)(nodes[x]) == Key(ids)(nodes[i])
    {
      SameOnIsKey(ids, nodes[x], nodes[i]);
    }
    assert Before(ids, entities, i) == SameBefore(Key(ids), nodes, i);
  }

  lemma {:induction false} MatchedIsPartners(ids: seq<string>, first: seq<Node>, i: nat, second: seq<Node>, j: nat)
    requires Keyed(ids, first) && Keyed(ids, second) && i < |first| && j < |second|
    ensures Matched(ids, Entities(first), i, Entities(second), j) <==> Partners(Key(ids), first, i, second, j)
  {
    SameOnIsKey(ids, first[i], second[j]);
    BeforeIsRank(ids, first, i);
    BeforeIsRank(ids, second, j);
  }

  /** One call of `find_and_cmp` accepts exactly when the lists are equally long, if that is asked
      for, and every two matched entities are accepted. */
  lemma {:induction false} ListsExact(rules: Rules, ids: seq<string>, exact: bool, first: seq<Node>, second: seq<Node>)
    requires Keyed(ids, first) && Keyed(ids, second)
    ensures AcceptsLists(rules, Listing(ids, exact, first), Listing(ids, exact, second)) <==>
      && (exact ==> |first| == |second|)
      && forall i: nat, j: nat :: i < |first| && j < |second| && Matched(ids, Entities(first), i, Entities(second), j) ==>
           Accepts(rules, first[i], second[j])
  {
    QueueIsGreedy(ids, first, second);
    var queue := Greedy(Key(ids), first, second).0;
    forall i: nat, j: nat | i < |first| && j < |second| && Matched(ids, Entities(first), i, Entities(second), j)
      ensures (first[i], second[j]) in queue
    {
      MatchedIsPartners(ids, first, i, second, j);
      PairsArePartners(Key(ids), first, second, (first[i], second[j]));
    }
    forall p | p in queue
      ensures exists i: nat, j: nat ::
        i < |first| && j < |second| && p == (first[i], second[j]) && Matched(ids, Entities(first), i, Entities(second), j)
    {
      PairsArePartners(Key(ids), first, second, p);
      var i: nat, j: nat :| i < |first| && j < |second| && Partners(Key(ids), first, i, second, j) && p == (first[i], second[j]);
      MatchedIsPartners(ids, first, i, second, j);
    }
  }

  /** An entity that lacks the attribute it is matched by raises when there is one to compare it with,
      so the lists are not accepted. */
  lemma {:induction false} MissingIdRefused(rules: Rules, ids: seq<string>, exact: bool, first: seq<Node>, second: seq<Node>)
    requires ids != [] && first != [] && second != []
    requires ids[0] !in first[0].entity || ids[0] !in second[0].entity
    ensures !AcceptsLists(rules, Listing(ids, exact, first), Listing(ids, exact, second))
  {
  }

  /** Without that condition it fails: {id, name} is accepted against {alias, name} when only
      "id" is ignored, but not the other way round. */
  lemma {:induction false} SwapFails()
    ensures exists rules, n1, n2 :: Accepts(rules, n1, n2) && !Accepts(rules, n2, n1)
  {
    var rules := Rules((k: Kind) => {"id"}, false);
    var n1 := Node(MethodKind, map["id" := Num(1), "name" := Str("m")], true, [], [], []);
    var n2 := Node(MethodKind, map["alias" := Num(1), "name" := Str("m")], true, [], [], []);
    assert n1.entity.Keys == {"id", "name"} && n2.entity.Keys == {"alias", "name"};
    assert Attributes(rules, MethodKind, n1.entity) == {"name"};
    assert Accepts(rules, n1, n2);
    assert "alias" in Attributes(rules, MethodKind, n2.entity);
    assert !Accepts(rules, n2, n1);
  }

  // ----- Acceptance from that of what hangs below

  lemma {:induction false} AllBelow(rules: Rules, n1: Node, n2: Node)
    requires EntityAccepted(rules, n1, n2) && |n1.parts| == |n2.parts| && |n1.lists| == |n2.lists|
    requires forall i :: 0 <= i < |n1.parts| ==> Accepts(rules, n1.parts[i], n2.parts[i])
    requires forall i :: 0 <= i < |n1.lists| ==> AcceptsLists(rules, n1.lists[i], n2.lists[i])
    ensures Accepts(rules, n1, n2)
  {
  }

  lemma {:induction false} OnePartBelow(rules: Rules, n1: Node, n2: Node)
    requires EntityAccepted(rules, n1, n2) && |n1.parts| == |n2.parts| == 1 && |n1.lists| == |n2.lists|
    requires Accepts(rules, n1.parts[0], n2.parts[0])
    requires forall i :: 0 <= i < |n1.lists| ==> AcceptsLists(rules, n1.lists[i], n2.lists[i])
    ensures Accepts(rules, n1, n2)
  {
    OneAccepted(rules, n1.parts, n2.parts);
    AllBelow(rules, n1, n2);
  }

  lemma {:induction false} OneAccepted(rules: Rules, first: seq<Node>, second: seq<Node>)
    requires |first| == |second| == 1 && Accepts(rules, first[0], second[0])
    ensures forall i :: 0 <= i < |first| ==> Accepts(rules, first[i], second[i])
  {
  }

  lemma {:induction false} FiveAccepted(rules: Rules, first: seq<Listing>, second: seq<Listing>)
    requires |first| == |second| == 5
    requires AcceptsLists(rules, first[0], second[0]) && AcceptsLists(rules, first[1], second[1])
    requires AcceptsLists(rules, first[2], second[2]) && AcceptsLists(rules, first[3], second[3])
    requires AcceptsLists(rules, first[4], second[4])
    ensures forall i :: 0 <= i < |first| ==> AcceptsLists(rules, first[i], second[i])
  {
  }

  predicate FivePlaces(rules: Rules, n1: Node, n2: Node)
    requires |n1.parts| == |n2.parts| == 1 && |n1.lists| == |n2.lists| == 5
  {
    && EntityAccepted(rules, n1, n2) && Accepts(rules, n1.parts[0], n2.parts[0])
    && AcceptsLists(rules, n1.lists[0], n2.lists[0]) && AcceptsLists(rules, n1.lists[1], n2.lists[1])
    && AcceptsLists(rules, n1.lists[2], n2.lists[2]) && AcceptsLists(rules, n1.lists[3], n2.lists[3])
    && AcceptsLists(rules, n1.lists[4], n2.lists[4])
  }

  lemma {:induction false} FiveBelow(rules: Rules, n1: Node, n2: Node)
    requires |n1.parts| == |n2.parts| == 1 && |n1.lists| == |n2.lists| == 5
    requires Accepts(rules, n1, n2)
    ensures FivePlaces(rules, n1, n2)
  {
  }

  lemma {:induction false} OneList(rules: Rules, n1: Node, n2: Node)
    requires n1.parts == n2.parts == [] && |n1.lists| == |n2.lists| == 1
    ensures Accepts(rules, n1, n2) <==> EntityAccepted(rules, n1, n2) && AcceptsLists(rules, n1.lists[0], n2.lists[0])
  {
  }

  lemma {:induction false} TwoLists(rules: Rules, n1: Node, n2: Node)
    requires n1.parts == n2.parts == [] && |n1.lists| == |n2.lists| == 2
    ensures Accepts(rules, n1, n2) <==>
      && EntityAccepted(rules, n1, n2)
      && AcceptsLists(rules, n1.lists[0], n2.lists[0]) && AcceptsLists(rules, n1.lists[1], n2.lists[1])
  {
  }

  lemma {:induction false} OnePart(rules: Rules, n1: Node, n2: Node)
    requires n1.lists == n2.lists == [] && |n1.parts| == |n2.parts| == 1
    ensures Accepts(rules, n1, n2) <==> EntityAccepted(rules, n1, n2) && Accepts(rules, n1.parts[0], n2.parts[0])
  {
    if !Accepts(rules, n1, n2) && EntityAccepted(rules, n1, n2) && Accepts(rules, n1.parts[0], n2.parts[0]) {
      OnePartBelow(rules, n1, n2);
    }
  }

  predicate IsLeaf(n: Node) {
    n.parts == [] && n.lists == []
  }

  lemma {:induction false} TwoLeaves(rules: Rules, n1: Node, n2: Node)
    requires n1.lists == n2.lists == [] && |n1.parts| == |n2.parts| == 2
    requires IsLeaf(n1.parts[0]) && IsLeaf(n1.parts[1]) && IsLeaf(n2.parts[0]) && IsLeaf(n2.parts[1])
    ensures Accepts(rules, n1, n2) <==>
      && EntityAccepted(rules, n1, n2)
      && EntityAccepted(rules, n1.parts[0], n2.parts[0]) && EntityAccepted(rules, n1.parts[1], n2.parts[1])
  {
  }

  lemma {:induction false} FiveLists(rules: Rules, n1: Node, n2: Node)
    requires |n1.parts| == |n2.parts| == 1 && |n1.lists| == |n2.lists| == 5
    ensures Accepts(rules, n1, n2) <==> FivePlaces(rules, n1, n2)
  {
    if Accepts(rules, n1, n2) {
      FiveBelow(rules, n1, n2);
    } else if FivePlaces(rules, n1, n2) {
      FiveAccepted(rules, n1.lists, n2.lists);
      OnePartBelow(rules, n1, n2);
    }
  }
}
