/** `find_and_cmp`, `cmp_ents` and the comparison of two services as they run: lists consumed
    in place, loops that stop at the first failed assertion, and the resources they fetch. */
module Toolbox {
  import opened Wrappers
  import opened Comparison

  /** A Python list that is changed in place. */
  class PyList<T(==)> {
    var items: seq<T>

    constructor (items: seq<T>)
      ensures this.items == items
    {
      this.items := items;
    }

    /** `list.remove(x)`: the first element equal to x goes. */
    method Remove(x: T)
      requires x in items
      modifies this
      ensures exists i ::
        0 <= i < |old(items)| && old(items)[i] == x && x !in old(items)[..i] &&
        items == old(items)[..i] + old(items)[i + 1..]
    {
      var i := 0;
      while items[i] != x
        invariant 0 <= i < |items| && x !in items[..i] && x in items[i..]
        decreases |items| - i
      {
        i := i + 1;
      }
      items := items[..i] + items[i + 1..];
    }
  }

  /** `cmp_ents`: true when no attribute raised. */
  method CompareEntities(e1: Entity, e2: Entity, attributes: set<string>) returns (ok: bool)
    ensures ok == CmpEnts(e1, e2, attributes)
  {
    var todo := attributes;
    while todo != {}
      invariant todo <= attributes
      invariant CmpEnts(e1, e2, attributes - todo)
    {
      var attr :| attr in todo;
      if attr !in e1 || attr !in e2 || e1[attr] != e2[attr] {
        return false;
      }
      todo := todo - {attr};
    }
    assert attributes - todo == attributes;
    return true;
  }

  lemma {:induction false} RawFirstAt(e: Entity, nodes: seq<Node>, ids: seq<string>, j: nat)
    requires j < |nodes|
    requires forall i :: 0 <= i < j ==> SameIds(e, nodes[i].entity, ids) == Some(false)
    ensures SameIds(e, nodes[j].entity, ids).None? ==> RawFirst(e, nodes, ids).None?
    ensures SameIds(e, nodes[j].entity, ids) == Some(true) ==> RawFirst(e, nodes, ids) == Some(j)
  {
    if j > 0 {
      RawFirstAt(e, nodes[1..], ids, j - 1);
    }
  }

  lemma {:induction false} RawFirstNone(e: Entity, nodes: seq<Node>, ids: seq<string>)
    requires forall i :: 0 <= i < |nodes| ==> SameIds(e, nodes[i].entity, ids) == Some(false)
    ensures RawFirst(e, nodes, ids) == Some(|nodes|)
  {
    if nodes != [] {
      RawFirstNone(e, nodes[1..], ids);
    }
  }

  /** The inner loop: look for a partner of `ent1` and take it out of the list. */
  method TakePartner(ent1: Node, list2: PyList<Node>, ids: seq<string>) returns (partner: Option<Node>, raised: bool)
    modifies list2
    ensures var i := RawFirst(ent1.entity, old(list2.items), ids);
      if i.None? then raised
      else if i.value < |old(list2.items)| then
        !raised && partner == Some(old(list2.items)[i.value]) &&
        list2.items == old(list2.items)[..i.value] + old(list2.items)[i.value + 1..]
      else !raised && partner == None && list2.items == old(list2.items)
  {
    ghost var before := list2.items;
    var j := 0;
    while j < |list2.items|
      invariant j <= |list2.items| && list2.items == before
      invariant forall i :: 0 <= i < j ==> SameIds(ent1.entity, before[i].entity, ids) == Some(false)
    {
      var ent2 := list2.items[j];
      var same := SameIds(ent1.entity, ent2.entity, ids);
      if same.None? {
        RawFirstAt(ent1.entity, before, ids, j);
        return None, true;
      }
      if same.value {
        RawFirstAt(ent1.entity, before, ids, j);
        list2.Remove(ent2);
        return Some(ent2), false;
      }
      j := j + 1;
    }
    RawFirstNone(ent1.entity, before, ids);
    return None, false;
  }

  /** The outcome of the whole loop once `queue` is built and the rest yields `left`. */
  function Onward(queue: seq<(Node, Node)>, left: Option<(seq<(Node, Node)>, seq<Node>)>): Option<(seq<(Node,
          Node)>, seq<Node>)> {
    if left.None? then None else Some((queue + left.value.0, left.value.1))
  }

  lemma {:induction false} QueueStep(queue: seq<(Node, Node)>, first: seq<Node>, second: seq<Node>, ids: seq<string>)
    requires first != []
    ensures var i := RawFirst(first[0].entity, second, ids);
      Onward(queue, RawQueue(first, second, ids)) ==
      if i.None? then None
      else if i.value < |second| then
        Onward(queue + [(first[0], second[i.value])], RawQueue(first[1..], second[..i.value] + second[i.value + 1..], ids))
      else Onward(queue, RawQueue(first[1..], second, ids))
  {
    var i := RawFirst(first[0].entity, second, ids);
    if i.Some? && i.value < |second| {
      var p := (first[0], second[i.value]);
      var inner := RawQueue(first[1..], second[..i.value] + second[i.value + 1..], ids);
      if inner.Some? {
        assert queue + ([p] + inner.value.0) == queue + [p] + inner.value.0;
      }
    }
  }

  /** The pairing loop: `list2` keeps what found no partner. */
  method BuildQueue(list1: seq<Node>, list2: PyList<Node>, ids: seq<string>)
    returns (queue: seq<(Node, Node)>, raised: bool)
    modifies list2
    ensures raised <==> RawQueue(list1, old(list2.items), ids).None?
    ensures !raised ==> RawQueue(list1, old(list2.items), ids) == Some((queue, list2.items))
  {
    queue := [];
    ghost var whole := RawQueue(list1, list2.items, ids);
    assert list1[0..] == list1;
    assert whole.Some? ==> [] + whole.value.0 == whole.value.0;
    for k := 0 to |list1|
      invariant whole == Onward(queue, RawQueue(list1[k..], list2.items, ids))
    {
      QueueStep(queue, list1[k..], list2.items, ids);
      assert list1[k..][1..] == list1[k + 1..];
      var partner, failed := TakePartner(list1[k], list2, ids);
      if failed {
        return queue, true;
      }
      if partner.Some? {
        queue := queue + [(list1[k], partner.value)];
      }
    }
    assert list1[|list1|..] == [] && queue + [] == queue;
    return queue, false;
  }

  /** `find_and_cmp`; the comparison function of every caller is the comparison of two nodes. */
  method FindAndCmp(rules: Rules, list1: seq<Node>, list2: PyList<Node>, ids: seq<string>, exact: bool)
    returns (ok: bool)
    modifies list2
    ensures ok == AcceptsLists(rules, Listing(ids, exact, list1), Listing(ids, exact, old(list2.items)))
    decreases list1, 2
  {
    if exact && |list1| != |list2.items| {
      return false;
    }
    var queue, raised := BuildQueue(list1, list2, ids);
    if raised {
      return false;
    }
    ok := CompareQueue(rules, list1, queue);
  }

  method CompareQueue(rules: Rules, list1: seq<Node>, queue: seq<(Node, Node)>) returns (ok: bool)
    requires forall p :: p in queue ==> p.0 in list1
    ensures ok <==> forall p :: p in queue ==> Accepts(rules, p.0, p.1)
    decreases list1, 1
  {
    for k := 0 to |queue|
      invariant forall i :: 0 <= i < k ==> Accepts(rules, queue[i].0, queue[i].1)
    {
      assert queue[k] in queue;
      ok := CompareNodes(rules, queue[k].0, queue[k].1);
      if !ok {
        return false;
      }
    }
    forall p | p in queue ensures Accepts(rules, p.0, p.1) {
      var i :| 0 <= i < |queue| && queue[i] == p;
    }
    return true;
  }

  /** One node against another: its own attributes first, then what hangs below it. */
  method CompareNodes(rules: Rules, n1: Node, n2: Node) returns (ok: bool)
    ensures ok == Accepts(rules, n1, n2)
    decreases n1, 1
  {
    ok := CompareOwn(rules, n1, n2);
    if !ok || |n1.parts| != |n2.parts| || |n1.lists| != |n2.lists| {
      return false;
    }
    ok := CompareParts(rules, n1, n2);
    if !ok { return; }
    for i := 0 to |n1.lists|
      invariant forall j :: 0 <= j < i ==> AcceptsLists(rules, n1.lists[j], n2.lists[j])
    {
      ok := CompareListings(rules, n1.lists[i], n2.lists[i]);
      if !ok { return; }
    }
    return true;
  }

  method CompareParts(rules: Rules, n1: Node, n2: Node) returns (ok: bool)
    requires |n1.parts| == |n2.parts|
    ensures ok <==> forall i :: 0 <= i < |n1.parts| ==> Accepts(rules, n1.parts[i], n2.parts[i])
    decreases n1, 0
  {
    for i := 0 to |n1.parts|
      invariant forall j :: 0 <= j < i ==> Accepts(rules, n1.parts[j], n2.parts[j])
    {
      ok := CompareNodes(rules, n1.parts[i], n2.parts[i]);
      if !ok { return; }
    }
    return true;
  }

  method CompareOwn(rules: Rules, n1: Node, n2: Node) returns (ok: bool)
    ensures ok == EntityAccepted(rules, n1, n2)
  {
    if n1.kind != n2.kind || !n1.sound || !n2.sound || n1.fixed != n2.fixed || |n1.entity.Keys| != |n2.entity.Keys| {
      return false;
    }
    if !(Dropped(rules, n1.kind) <= n1.entity.Keys - rules.ignored(n1.kind)) {
      return false;
    }
    ok := CompareEntities(n1.entity, n2.entity, Attributes(rules, n1.kind, n1.entity));
  }

  method CompareListings(rules: Rules, l1: Listing, l2: Listing) returns (ok: bool)
    ensures ok == AcceptsLists(rules, l1, l2)
    decreases l1, 3
  {
    if l1.ids != l2.ids || l1.exact != l2.exact {
      return false;
    }
    var fetched := new PyList(l2.nodes);
    assert l1.nodes == Listing(l1.ids, l1.exact, l1.nodes).nodes;
    ok := FindAndCmp(rules, l1.nodes, fetched, l1.ids, l1.exact);
  }
}
