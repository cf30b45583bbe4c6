/** The comparison of two services in terms of the services themselves: which values must be
    equal for `cmp_services` to accept (testsuite/toolbox/toolbox.py). */
module Agreement {
  import opened Json
  import opened Comparison
  import opened Services
  import opened Toolbox

  function MetricEntities(metrics: seq<Metric>): seq<Entity> {
    seq(|metrics|, i requires 0 <= i < |metrics| => metrics[i].entity)
  }

  /** Equally many keys, and equal values at every key of the first that is not ignored. */
  predicate EntitiesAgree(rules: Rules, kind: Kind, e1: Entity, e2: Entity) {
    && |e1.Keys| == |e2.Keys|
    && forall a :: a in e1 && a !in rules.ignored(kind) ==> a in e2 && e1[a] == e2[a]
  }

  predicate ListsAgree(rules: Rules, kind: Kind, ids: seq<string>, exact: bool, first: seq<Entity>, second: seq<Entity>) {
    && (exact ==> |first| == |second|)
    && forall i: nat, j: nat ::
         i < |first| && j < |second| && Matched(ids, first, i, second, j) ==> EntitiesAgree(rules, kind, first[i], second[j])
  }

  predicate MetricsAgree(rules: Rules, exact: bool, first: seq<Metric>, second: seq<Metric>) {
    && (exact ==> |first| == |second|)
    && forall i: nat, j: nat ::
         i < |first| && j < |second| && Matched(["friendly_name"], MetricEntities(first), i, MetricEntities(second), j) ==>
           EntitiesAgree(rules, MetricKind, first[i].entity, second[j].entity) &&
           ListsAgree(rules, MethodKind, ["system_name"], exact, first[i].methods, second[j].methods)
  }

  /** What a per-metric table holds for a metric of this id. */
  function HeldFor(table: map<Value, seq<Entity>>, id: Value): seq<Entity> {
    if id in table then table[id] else []
  }

  /** Metrics have equally many keys, and what their plans hold for them agrees. */
  predicate HeldAgree(rules: Rules, kind: Kind, ids: seq<string>, m1: Entity, table1: map<Value, seq<Entity>>,
          m2: Entity, table2: map<Value, seq<Entity>>) {
    && |m1.Keys| == |m2.Keys| && "id" in m1 && "id" in m2
    && ListsAgree(rules, kind, ids, true, HeldFor(table1, m1["id"]), HeldFor(table2, m2["id"]))
  }

  predicate TablesAgree(rules: Rules, kind: Kind, ids: seq<string>, metrics1: seq<Metric>,
          table1: map<Value, seq<Entity>>, metrics2: seq<Metric>, table2: map<Value, seq<Entity>>) {
    && |metrics1| == |metrics2|
    && forall i: nat, j: nat ::
         i < |metrics1| && j < |metrics2| &&
         Matched(["friendly_name"], MetricEntities(metrics1), i, MetricEntities(metrics2), j) ==>
           HeldAgree(rules, kind, ids, metrics1[i].entity, table1, metrics2[j].entity, table2)
  }

  predicate PlansAgree(rules: Rules, exact: bool, s1: Service, s2: Service) {
    && (exact ==> |s1.plans| == |s2.plans|)
    && forall i: nat, j: nat ::
         i < |s1.plans| && j < |s2.plans| && Matched(["system_name"], PlanEntities(s1.plans), i, PlanEntities(s2.plans), j) ==>
         var p1, p2 := s1.plans[i], s2.plans[j];
         && EntitiesAgree(rules, PlanKind, p1.entity, p2.entity)
         && TablesAgree(rules, PricingKind, ["min", "max"], s1.metrics, p1.pricing, s2.metrics, p2.pricing)
         && TablesAgree(rules, LimitKind, ["period"], s1.metrics, p1.limits, s2.metrics, p2.limits)
  }

  function PlanEntities(plans: seq<Plan>): seq<Entity> {
    seq(|plans|, i requires 0 <= i < |plans| => plans[i].entity)
  }

  function UsageEntities(usages: seq<Usage>): seq<Entity> {
    seq(|usages|, i requires 0 <= i < |usages| => usages[i].entity)
  }

  predicate BackendsAgree(rules: Rules, exact: bool, b1: Backend, b2: Backend) {
    && EntitiesAgree(rules, BackendKind, b1.entity, b2.entity)
    && MetricsAgree(rules, exact, b1.metrics, b2.metrics)
    && ListsAgree(rules, MappingKind, ["pattern"], exact, b1.mappings, b2.mappings)
  }

  /** The usage names its own service, and some backend. */
  predicate Belongs(usage: Entity, service: Entity) {
    && "service_id" in usage && "backend_id" in usage && "id" in service
    && usage["service_id"] == service["id"]
  }

  /** Usages are always equally many, whatever is said about lengths. */
  predicate UsagesAgree(rules: Rules, exact: bool, s1: Service, s2: Service) {
    && |s1.usages| == |s2.usages|
    && forall i: nat, j: nat ::
         i < |s1.usages| && j < |s2.usages| && Matched(["path"], UsageEntities(s1.usages), i, UsageEntities(s2.usages), j) ==>
         var u1, u2 := s1.usages[i], s2.usages[j];
         && Belongs(u1.entity, s1.entity) && Belongs(u2.entity, s2.entity)
         && EntitiesAgree(rules, UsageKind, u1.entity, u2.entity)
         && BackendsAgree(rules, exact, u1.backend, u2.backend)
  }

  /** The inner proxy's "api_backend" must be there to be passed over; the first policy of a
      product's chain is passed over too. */
  predicate ProxiesAgree(rules: Rules, product: bool, p1: Proxy, p2: Proxy) {
    && EntitiesAgree(rules, ProxyKind, p1.entity, p2.entity)
    && p1.policies == p2.policies
    && EntitiesAgree(rules, ContentKind, p1.content, p2.content)
    && |p1.inner.Keys| == |p2.inner.Keys|
    && (rules.dropApiBackend ==> "api_backend" in p1.inner && "api_backend" !in rules.ignored(InnerProxyKind))
    && (forall a :: a in p1.inner && a !in rules.ignored(InnerProxyKind) && !(rules.dropApiBackend && a == "api_backend") ==>
          a in p2.inner && p1.inner[a] == p2.inner[a])
    && (product ==> AfterFirst(p1.policyChain) == AfterFirst(p2.policyChain))
  }

  function AfterFirst(chain: seq<Value>): seq<Value> {
    if chain == [] then [] else chain[1..]
  }

  predicate ServicesAgree(rules: Rules, product: bool, exact: bool, s1: Service, s2: Service) {
    && EntitiesAgree(rules, ServiceKind, s1.entity, s2.entity)
    && ProxiesAgree(rules, product, s1.proxy, s2.proxy)
    && MetricsAgree(rules, exact, s1.metrics, s2.metrics)
    && ListsAgree(rules, MappingKind, ["pattern"], exact, s1.mappings, s2.mappings)
    && PlansAgree(rules, exact, s1, s2)
    && ListsAgree(rules, ActiveDocKind, ["system_name"], exact, s1.activeDocs, s2.activeDocs)
    && UsagesAgree(rules, exact, s1, s2)
  }

  lemma {:induction false} EntityExact(rules: Rules, n1: Node, n2: Node)
    requires n1.kind == n2.kind && ComparesAttributes(n1.kind) && !n1.kind.InnerProxyKind?
    ensures EntityAccepted(rules, n1, n2) <==>
            n1.sound && n2.sound && n1.fixed == n2.fixed && EntitiesAgree(rules, n1.kind, n1.entity, n2.entity)
  {
    assert Dropped(rules, n1.kind) == {};
    assert forall a :: a in Attributes(rules, n1.kind, n1.entity) <==> a in n1.entity && a !in rules.ignored(n1.kind);
  }

  lemma {:induction false} LeavesListed(kind: Kind, ids: seq<string>, entities: seq<Entity>)
    requires forall k :: 0 <= k < |ids| ==> Has(ids[k], entities)
    ensures Keyed(ids, Leaves(kind, entities)) && Entities(Leaves(kind, entities)) == entities
  {
    LeavesKeyed(kind, entities, ids, true);
  }

  lemma {:induction false} LeavesExact(rules: Rules, kind: Kind, ids: seq<string>, exact: bool, first: seq<Entity>,
          second: seq<Entity>)
    requires ComparesAttributes(kind) && !kind.InnerProxyKind?
    requires forall k :: 0 <= k < |ids| ==> Has(ids[k], first) && Has(ids[k], second)
    ensures AcceptsLists(rules, Listing(ids, exact, Leaves(kind, first)), Listing(ids, exact, Leaves(kind, second))) <==>
            ListsAgree(rules, kind, ids, exact, first, second)
  {
    LeavesListed(kind, ids, first);
    LeavesListed(kind, ids, second);
    ListsExact(rules, ids, exact, Leaves(kind, first), Leaves(kind, second));
    forall i: nat, j: nat | i < |first| && j < |second|
      ensures Accepts(rules, Leaves(kind, first)[i], Leaves(kind, second)[j]) <==> EntitiesAgree(rules, kind, first[i], second[j])
    {
      EntityExact(rules, Leaf(kind, first[i]), Leaf(kind, second[j]));
    }
  }

  lemma {:induction false} MetricExact(rules: Rules, exact: bool, m1: Metric, m2: Metric)
    requires Has("system_name", m1.methods) && Has("system_name", m2.methods)
    ensures Accepts(rules, MetricNode(m1, exact), MetricNode(m2, exact)) <==>
            EntitiesAgree(rules, MetricKind, m1.entity, m2.entity) &&
            ListsAgree(rules, MethodKind, ["system_name"], exact, m1.methods, m2.methods)
  {
    EntityExact(rules, MetricNode(m1, exact), MetricNode(m2, exact));
    LeavesExact(rules, MethodKind, ["system_name"], exact, m1.methods, m2.methods);
    OneList(rules, MetricNode(m1, exact), MetricNode(m2, exact));
  }

  lemma {:induction false} MetricsExact(rules: Rules, exact: bool, first: seq<Metric>, second: seq<Metric>)
    requires MetricsNamed(first) && MetricsNamed(second)
    ensures AcceptsLists(rules, Listing(["friendly_name"], exact, MetricNodes(first, exact)),
                         Listing(["friendly_name"], exact, MetricNodes(second, exact))) <==>
            MetricsAgree(rules, exact, first, second)
  {
    var left, right := MetricNodes(first, exact), MetricNodes(second, exact);
    MetricsKeyed(first, exact);
    MetricsKeyed(second, exact);
    ListsExact(rules, ["friendly_name"], exact, left, right);
    assert Entities(left) == MetricEntities(first) && Entities(right) == MetricEntities(second);
    forall i: nat, j: nat | i < |first| && j < |second|
      ensures Accepts(rules, left[i], right[j]) <==>
              EntitiesAgree(rules, MetricKind, first[i].entity, second[j].entity) &&
              ListsAgree(rules, MethodKind, ["system_name"], exact, first[i].methods, second[j].methods)
    {
      MetricExact(rules, exact, first[i], second[j]);
    }
  }

  predicate TableNamed(ids: seq<string>, table: map<Value, seq<Entity>>) {
    forall id :: id in table ==> forall k :: 0 <= k < |ids| ==> Has(ids[k], table[id])
  }

  lemma {:induction false} PerMetricExact(rules: Rules, metricKind: Kind, kind: Kind, ids: seq<string>,
          m1: Metric, table1: map<Value, seq<Entity>>, m2: Metric, table2: map<Value, seq<Entity>>)
    requires !ComparesAttributes(metricKind) && ComparesAttributes(kind) && !kind.InnerProxyKind?
    requires TableNamed(ids, table1) && TableNamed(ids, table2)
    ensures Accepts(rules, PerMetric(metricKind, kind, ids, m1, table1), PerMetric(metricKind, kind, ids, m2, table2)) <==>
            HeldAgree(rules, kind, ids, m1.entity, table1, m2.entity, table2)
  {
    var n1, n2 := PerMetric(metricKind, kind, ids, m1, table1), PerMetric(metricKind, kind, ids, m2, table2);
    assert EntityAccepted(rules, n1, n2) <==> n1.sound && n2.sound && |m1.entity.Keys| == |m2.entity.Keys|;
    if "id" in m1.entity && "id" in m2.entity {
      var first, second := HeldFor(table1, m1.entity["id"]), HeldFor(table2, m2.entity["id"]);
      assert n1.lists == [Listing(ids, true, Leaves(kind, first))] && n2.lists == [Listing(ids, true, Leaves(kind, second))];
      LeavesExact(rules, kind, ids, true, first, second);
      OneList(rules, n1, n2);
    }
  }

  lemma {:induction false} PerMetricsListed(metricKind: Kind, kind: Kind, ids: seq<string>, metrics: seq<Metric>,
          table: map<Value, seq<Entity>>, names: seq<string>)
    requires MetricsNamed(metrics) && names == ["friendly_name"]
    ensures var nodes := PerMetrics(metricKind, kind, ids, metrics, table).nodes;
      Keyed(names, nodes) && Entities(nodes) == MetricEntities(metrics)
  {
    var nodes := PerMetrics(metricKind, kind, ids, metrics, table).nodes;
    forall n | n in nodes ensures HasIds(names, n) {
      var i :| 0 <= i < |metrics| && n == nodes[i];
      assert n.entity == metrics[i].entity;
    }
  }

  /** `HeldAgree` for all matched metrics, seen from two lists of nodes over their entities. */
  lemma {:induction false} HeldExact(rules: Rules, kind: Kind, ids: seq<string>, first: seq<Node>, second: seq<Node>,
          metrics1: seq<Metric>, table1: map<Value, seq<Entity>>, metrics2: seq<Metric>, table2: map<Value, seq<Entity>>)
    requires Keyed(["friendly_name"], first) && Keyed(["friendly_name"], second)
    requires Entities(first) == MetricEntities(metrics1) && Entities(second) == MetricEntities(metrics2)
    requires |first| == |metrics1| && |second| == |metrics2|
    requires forall i: nat, j: nat :: i < |metrics1| && j < |metrics2| ==>
      (Accepts(rules, first[i], second[j]) <==>
       HeldAgree(rules, kind, ids, metrics1[i].entity, table1, metrics2[j].entity, table2))
    ensures AcceptsLists(rules, Listing(["friendly_name"], true, first), Listing(["friendly_name"], true, second)) <==>
            TablesAgree(rules, kind, ids, metrics1, table1, metrics2, table2)
  {
    ListsExact(rules, ["friendly_name"], true, first, second);
  }

  lemma {:induction false} TablesExact(rules: Rules, metricKind: Kind, kind: Kind, ids: seq<string>,
          metrics1: seq<Metric>, table1: map<Value, seq<Entity>>, metrics2: seq<Metric>, table2: map<Value, seq<Entity>>)
    requires !ComparesAttributes(metricKind) && ComparesAttributes(kind) && !kind.InnerProxyKind?
    requires MetricsNamed(metrics1) && MetricsNamed(metrics2) && TableNamed(ids, table1) && TableNamed(ids, table2)
    ensures AcceptsLists(rules, PerMetrics(metricKind, kind, ids, metrics1, table1),
                         PerMetrics(metricKind, kind, ids, metrics2, table2)) <==>
            TablesAgree(rules, kind, ids, metrics1, table1, metrics2, table2)
  {
    var names := ["friendly_name"];
    PerMetricsListed(metricKind, kind, ids, metrics1, table1, names);
    PerMetricsListed(metricKind, kind, ids, metrics2, table2, names);
    var first := PerMetrics(metricKind, kind, ids, metrics1, table1).nodes;
    var second := PerMetrics(metricKind, kind, ids, metrics2, table2).nodes;
    forall i: nat, j: nat | i < |metrics1| && j < |metrics2|
      ensures Accepts(rules, first[i], second[j]) <==>
              HeldAgree(rules, kind, ids, metrics1[i].entity, table1, metrics2[j].entity, table2)
    {
      PerMetricExact(rules, metricKind, kind, ids, metrics1[i], table1, metrics2[j], table2);
    }
    HeldExact(rules, kind, ids, first, second, metrics1, table1, metrics2, table2);
  }

  lemma {:induction false} PlanExact(rules: Rules, p1: Plan, metrics1: seq<Metric>, p2: Plan, metrics2: seq<Metric>)
    requires PlanNamed(p1) && PlanNamed(p2) && MetricsNamed(metrics1) && MetricsNamed(metrics2)
    ensures Accepts(rules, PlanNode(p1, metrics1), PlanNode(p2, metrics2)) <==>
      && EntitiesAgree(rules, PlanKind, p1.entity, p2.entity)
      && TablesAgree(rules, PricingKind, ["min", "max"], metrics1, p1.pricing, metrics2, p2.pricing)
      && TablesAgree(rules, LimitKind, ["period"], metrics1, p1.limits, metrics2, p2.limits)
  {
    var n1, n2 := PlanNode(p1, metrics1), PlanNode(p2, metrics2);
    EntityExact(rules, n1, n2);
    TablesExact(rules, MetricOfPricing, PricingKind, ["min", "max"], metrics1, p1.pricing, metrics2, p2.pricing);
    TablesExact(rules, MetricOfLimits, LimitKind, ["period"], metrics1, p1.limits, metrics2, p2.limits);
    TwoLists(rules, n1, n2);
  }

  lemma {:induction false} BackendExact(rules: Rules, exact: bool, b1: Backend, b2: Backend)
    requires MetricsNamed(b1.metrics) && MetricsNamed(b2.metrics) && Has("pattern", b1.mappings) && Has("pattern", b2.mappings)
    ensures Accepts(rules, BackendNode(b1, exact), BackendNode(b2, exact)) <==> BackendsAgree(rules, exact, b1, b2)
  {
    var n1, n2 := BackendNode(b1, exact), BackendNode(b2, exact);
    EntityExact(rules, n1, n2);
    MetricsExact(rules, exact, b1.metrics, b2.metrics);
    LeavesExact(rules, MappingKind, ["pattern"], exact, b1.mappings, b2.mappings);
    TwoLists(rules, n1, n2);
  }

  lemma {:induction false} UsageExact(rules: Rules, exact: bool, u1: Usage, s1: Entity, u2: Usage, s2: Entity)
    requires MetricsNamed(u1.backend.metrics) && MetricsNamed(u2.backend.metrics)
    requires Has("pattern", u1.backend.mappings) && Has("pattern", u2.backend.mappings)
    ensures Accepts(rules, UsageNode(u1, s1, exact), UsageNode(u2, s2, exact)) <==>
      && Belongs(u1.entity, s1) && Belongs(u2.entity, s2)
      && EntitiesAgree(rules, UsageKind, u1.entity, u2.entity)
      && BackendsAgree(rules, exact, u1.backend, u2.backend)
  {
    var n1, n2 := UsageNode(u1, s1, exact), UsageNode(u2, s2, exact);
    EntityExact(rules, n1, n2);
    BackendExact(rules, exact, u1.backend, u2.backend);
    OnePart(rules, n1, n2);
  }

  lemma {:induction false} ProxyExact(rules: Rules, product: bool, p1: Proxy, p2: Proxy)
    ensures Accepts(rules, ProxyNode(p1, product), ProxyNode(p2, product)) <==> ProxiesAgree(rules, product, p1, p2)
  {
    var n1, n2 := ProxyNode(p1, product), ProxyNode(p2, product);
    EntityExact(rules, n1, n2);
    EntityExact(rules, n1.parts[0], n2.parts[0]);
    InnerExact(rules, n1.parts[1], n2.parts[1]);
    TwoLeaves(rules, n1, n2);
    assert [p1.policies] == [p2.policies] <==> p1.policies == p2.policies by {
      assert [p1.policies][0] == p1.policies && [p2.policies][0] == p2.policies;
    }
  }

  lemma {:induction false} InnerExact(rules: Rules, n1: Node, n2: Node)
    requires n1.kind.InnerProxyKind? && n2.kind.InnerProxyKind? && n1.sound && n2.sound
    ensures EntityAccepted(rules, n1, n2) <==>
      && n1.fixed == n2.fixed
      && |n1.entity.Keys| == |n2.entity.Keys|
      && (rules.dropApiBackend ==> "api_backend" in n1.entity && "api_backend" !in rules.ignored(InnerProxyKind))
      && (forall a :: a in n1.entity && a !in rules.ignored(InnerProxyKind) && !(rules.dropApiBackend && a == "api_backend") ==>
            a in n2.entity && n1.entity[a] == n2.entity[a])
  {
    assert forall a :: a in Attributes(rules, InnerProxyKind, n1.entity) <==>
      a in n1.entity && a !in rules.ignored(InnerProxyKind) && !(rules.dropApiBackend && a == "api_backend");
  }

  lemma {:induction false} PlansExact(rules: Rules, exact: bool, s1: Service, s2: Service, product: bool)
    requires Named(s1) && Named(s2)
    ensures AcceptsLists(rules, ServiceNode(s1, product, exact).lists[2], ServiceNode(s2, product, exact).lists[2]) <==>
            PlansAgree(rules, exact, s1, s2)
  {
    var l1, l2 := ServiceNode(s1, product, exact).lists[2], ServiceNode(s2, product, exact).lists[2];
    ServiceKeyed(s1, product, exact);
    ServiceKeyed(s2, product, exact);
    ListsExact(rules, ["system_name"], exact, l1.nodes, l2.nodes);
    assert Entities(l1.nodes) == PlanEntities(s1.plans) && Entities(l2.nodes) == PlanEntities(s2.plans);
    forall i: nat, j: nat | i < |s1.plans| && j < |s2.plans|
      ensures Accepts(rules, l1.nodes[i], l2.nodes[j]) <==>
        && EntitiesAgree(rules, PlanKind, s1.plans[i].entity, s2.plans[j].entity)
        && TablesAgree(rules, PricingKind, ["min", "max"], s1.metrics, s1.plans[i].pricing, s2.metrics, s2.plans[j].pricing)
        && TablesAgree(rules, LimitKind, ["period"], s1.metrics, s1.plans[i].limits, s2.metrics, s2.plans[j].limits)
    {
      PlanExact(rules, s1.plans[i], s1.metrics, s2.plans[j], s2.metrics);
    }
  }

  lemma {:induction false} UsagesExact(rules: Rules, exact: bool, s1: Service, s2: Service, product: bool)
    requires Named(s1) && Named(s2)
    ensures AcceptsLists(rules, ServiceNode(s1, product, exact).lists[4], ServiceNode(s2, product, exact).lists[4]) <==>
            UsagesAgree(rules, exact, s1, s2)
  {
    var l1, l2 := ServiceNode(s1, product, exact).lists[4], ServiceNode(s2, product, exact).lists[4];
    ServiceKeyed(s1, product, exact);
    ServiceKeyed(s2, product, exact);
    ListsExact(rules, ["path"], true, l1.nodes, l2.nodes);
    assert Entities(l1.nodes) == UsageEntities(s1.usages) && Entities(l2.nodes) == UsageEntities(s2.usages);
    forall i: nat, j: nat | i < |s1.usages| && j < |s2.usages|
      ensures Accepts(rules, l1.nodes[i], l2.nodes[j]) <==>
        && Belongs(s1.usages[i].entity, s1.entity) && Belongs(s2.usages[j].entity, s2.entity)
        && EntitiesAgree(rules, UsageKind, s1.usages[i].entity, s2.usages[j].entity)
        && BackendsAgree(rules, exact, s1.usages[i].backend, s2.usages[j].backend)
    {
      UsageExact(rules, exact, s1.usages[i], s1.entity, s2.usages[j], s2.entity);
    }
  }

  /** Two services are accepted if and only if they agree: their own values, the proxy's, and those
      of all metrics, methods, mapping rules, plans with their limits and pricing rules, active
      docs and usages with their backends that are matched by their ids. */
  lemma {:induction false} ServicesExact(rules: Rules, s1: Service, s2: Service, product: bool, exact: bool)
    requires Named(s1) && Named(s2)
    ensures Accepts(rules, ServiceNode(s1, product, exact), ServiceNode(s2, product, exact)) <==>
            ServicesAgree(rules, product, exact, s1, s2)
  {
    var n1, n2 := ServiceNode(s1, product, exact), ServiceNode(s2, product, exact);
    EntityExact(rules, n1, n2);
    ProxyExact(rules, product, s1.proxy, s2.proxy);
    MetricsExact(rules, exact, s1.metrics, s2.metrics);
    LeavesExact(rules, MappingKind, ["pattern"], exact, s1.mappings, s2.mappings);
    PlansExact(rules, exact, s1, s2, product);
    LeavesExact(rules, ActiveDocKind, ["system_name"], exact, s1.activeDocs, s2.activeDocs);
    UsagesExact(rules, exact, s1, s2, product);
    FiveLists(rules, n1, n2);
  }

  /** `cmp_services`: true when nothing raised. */
  method CompareServices(rules: Rules, s1: Service, s2: Service, product: bool, exact: bool) returns (ok: bool)
    ensures ok == Accepts(rules, ServiceNode(s1, product, exact), ServiceNode(s2, product, exact))
    ensures Named(s1) && Named(s2) ==> ok == ServicesAgree(rules, product, exact, s1, s2)
  {
    ok := CompareNodes(rules, ServiceNode(s1, product, exact), ServiceNode(s2, product, exact));
    if Named(s1) && Named(s2) {
      ServicesExact(rules, s1, s2, product, exact);
    }
  }

  /** A service is told from a copy of it in which one compared attribute has another value. */
  lemma {:induction false} OtherValueRefused(rules: Rules, s: Service, attribute: string, other: Value, product: bool, exact: bool)
    requires attribute in s.entity && attribute !in rules.ignored(ServiceKind) && s.entity[attribute] != other
    ensures var changed := s.(entity := s.entity[attribute := other]);
      && !Accepts(rules, ServiceNode(s, product, exact), ServiceNode(changed, product, exact))
      && changed.entity.Keys == s.entity.Keys
  {
    var n1, n2 := ServiceNode(s, product, exact), ServiceNode(s.(entity := s.entity[attribute := other]), product, exact);
    if Accepts(rules, n1, n2) {
      AcceptedValues(rules, n1, n2, attribute);
    }
  }
}
