/** Products, plans, metrics and backends as the client library returns them, and the tree
    of comparisons `cmp_services` makes over them (testsuite/toolbox/toolbox.py). */
module Services {
  import opened Json
  import opened Comparison

  datatype Metric = Metric(entity: Entity, methods: seq<Entity>)

  /** Limits and pricing rules are fetched per metric, by the metric's "id". */
  datatype Plan = Plan(entity: Entity, limits: map<Value, seq<Entity>>, pricing: map<Value, seq<Entity>>)

  datatype Backend = Backend(entity: Entity, metrics: seq<Metric>, mappings: seq<Entity>)

  datatype Usage = Usage(entity: Entity, backend: Backend)

  /** `content` and `inner` are the sandbox configuration and its "proxy" member. */
  datatype Proxy = Proxy(entity: Entity, policies: Value, content: Entity, inner: Entity, policyChain: seq<Value>)

  datatype Service = Service(
    entity: Entity, proxy: Proxy, metrics: seq<Metric>, mappings: seq<Entity>,
    plans: seq<Plan>, activeDocs: seq<Entity>, usages: seq<Usage>)

  function Leaf(kind: Kind, entity: Entity): Node {
    Node(kind, entity, true, [], [], [])
  }

  function Leaves(kind: Kind, entities: seq<Entity>): seq<Node> {
    seq(|entities|, i requires 0 <= i < |entities| => Leaf(kind, entities[i]))
  }

  function MetricNode(m: Metric, exact: bool): Node {
    Node(MetricKind, m.entity, true, [], [], [Listing(["system_name"], exact, Leaves(MethodKind, m.methods))])
  }

  function MetricNodes(metrics: seq<Metric>, exact: bool): seq<Node> {
    seq(|metrics|, i requires 0 <= i < |metrics| => MetricNode(metrics[i], exact))
  }

  /** What one metric has in a per-metric table; without an "id" the fetch raises. */
  function PerMetric(metricKind: Kind, kind: Kind, ids: seq<string>, m: Metric, table: map<Value, seq<Entity>>): Node {
    var found := if "id" in m.entity && m.entity["id"] in table then table[m.entity["id"]] else [];
    Node(metricKind, m.entity, "id" in m.entity, [], [], [Listing(ids, true, Leaves(kind, found))])
  }

  function PerMetrics(metricKind: Kind, kind: Kind, ids: seq<string>, metrics: seq<Metric>, table: map<Value,
          seq<Entity>>): Listing {
    Listing(["friendly_name"], true,
      seq(|metrics|, i requires 0 <= i < |metrics| => PerMetric(metricKind, kind, ids, metrics[i], table)))
  }

  /** `cmp_pricing_rules` and `cmp_limits` are called without `cmp_length`, so they always compare lengths. */
  function PlanNode(p: Plan, metrics: seq<Metric>): Node {
    Node(PlanKind, p.entity, true, [], [], [
      PerMetrics(MetricOfPricing, PricingKind, ["min", "max"], metrics, p.pricing),
      PerMetrics(MetricOfLimits, LimitKind, ["period"], metrics, p.limits)])
  }

  function BackendNode(b: Backend, exact: bool): Node {
    Node(BackendKind, b.entity, true, [], [], [
      Listing(["friendly_name"], exact, MetricNodes(b.metrics, exact)),
      Listing(["pattern"], exact, Leaves(MappingKind, b.mappings))])
  }

  /** A usage must point at its own service; its backend is read and compared as a whole. */
  function UsageNode(u: Usage, service: Entity, exact: bool): Node {
    var sound := "service_id" in u.entity && "backend_id" in u.entity && "id" in service &&
      u.entity["service_id"] == service["id"];
    Node(UsageKind, u.entity, sound, [], [BackendNode(u.backend, exact)], [])
  }

  function ProxyNode(p: Proxy, product: bool): Node {
    var chain := if product && |p.policyChain| > 0 then p.policyChain[1..] else [];
    Node(ProxyKind, p.entity, true, [p.policies],
      [Leaf(ContentKind, p.content), Node(InnerProxyKind, p.inner, true, chain, [], [])], [])
  }

  /** `cmp_services`. `exact` is its `cmp_length`; usages are compared with the default, true. */
  function ServiceNode(s: Service, product: bool, exact: bool): Node {
    Node(ServiceKind, s.entity, true, [], [ProxyNode(s.proxy, product)], [
      Listing(["friendly_name"], exact, MetricNodes(s.metrics, exact)),
      Listing(["pattern"], exact, Leaves(MappingKind, s.mappings)),
      Listing(["system_name"], exact,
        seq(|s.plans|, i requires 0 <= i < |s.plans| => PlanNode(s.plans[i], s.metrics))),
      Listing(["system_name"], exact, Leaves(ActiveDocKind, s.activeDocs)),
      Listing(["path"], true,
        seq(|s.usages|, i requires 0 <= i < |s.usages| => UsageNode(s.usages[i], s.entity, exact)))])
  }

  // ----- The server's side of the contract: entities carry the attributes they are matched by

  predicate Has(name: string, entities: seq<Entity>) {
    forall i :: 0 <= i < |entities| ==> name in entities[i]
  }

  predicate MetricsNamed(metrics: seq<Metric>) {
    forall i :: 0 <= i < |metrics| ==> "friendly_name" in metrics[i].entity && Has("system_name", metrics[i].methods)
  }

  predicate PlanNamed(p: Plan) {
    && "system_name" in p.entity
    && (forall m :: m in p.limits ==> Has("period", p.limits[m]))
    && (forall m :: m in p.pricing ==> Has("min", p.pricing[m]) && Has("max", p.pricing[m]))
  }

  predicate Named(s: Service) {
    && MetricsNamed(s.metrics) && Has("pattern", s.mappings) && Has("system_name", s.activeDocs)
    && (forall i :: 0 <= i < |s.plans| ==> PlanNamed(s.plans[i]))
    && (forall i :: 0 <= i < |s.usages| ==>
          "path" in s.usages[i].entity && MetricsNamed(s.usages[i].backend.metrics) &&
          Has("pattern", s.usages[i].backend.mappings))
  }

  lemma {:induction false} LeavesKeyed(kind: Kind, entities: seq<Entity>, ids: seq<string>, exact: bool)
    requires forall k :: 0 <= k < |ids| ==> Has(ids[k], entities)
    ensures KeyedListing(Listing(ids, exact, Leaves(kind, entities)))
  {
    forall n | n in Leaves(kind, entities) ensures HasIds(ids, n) {
      var i :| 0 <= i < |entities| && n == Leaf(kind, entities[i]);
      forall k | 0 <= k < |ids| ensures ids[k] in n.entity {
        assert Has(ids[k], entities);
      }
    }
  }

  lemma {:induction false} MetricsKeyed(metrics: seq<Metric>, exact: bool)
    requires MetricsNamed(metrics)
    ensures KeyedListing(Listing(["friendly_name"], exact, MetricNodes(metrics, exact)))
  {
    forall i | 0 <= i < |metrics| ensures KeyedTree(MetricNode(metrics[i], exact)) {
      LeavesKeyed(MethodKind, metrics[i].methods, ["system_name"], exact);
    }
  }

  lemma {:induction false} PerMetricKeyed(metricKind: Kind, kind: Kind, ids: seq<string>, m: Metric,
          table: map<Value, seq<Entity>>)
    requires forall id :: id in table ==> forall k :: 0 <= k < |ids| ==> Has(ids[k], table[id])
    ensures KeyedTree(PerMetric(metricKind, kind, ids, m, table))
  {
    var found := if "id" in m.entity && m.entity["id"] in table then table[m.entity["id"]] else [];
    forall k | 0 <= k < |ids| ensures Has(ids[k], found) {
    }
    LeavesKeyed(kind, found, ids, true);
  }

  lemma {:induction false} PerMetricsKeyed(metricKind: Kind, kind: Kind, ids: seq<string>,
          metrics: seq<Metric>, table: map<Value, seq<Entity>>)
    requires MetricsNamed(metrics)
    requires forall id :: id in table ==> forall k :: 0 <= k < |ids| ==> Has(ids[k], table[id])
    ensures KeyedListing(PerMetrics(metricKind, kind, ids, metrics, table))
  {
    var nodes := PerMetrics(metricKind, kind, ids, metrics, table).nodes;
    forall i | 0 <= i < |metrics| ensures KeyedTree(nodes[i]) {
      PerMetricKeyed(metricKind, kind, ids, metrics[i], table);
    }
    forall n | n in nodes ensures HasIds(["friendly_name"], n) {
      var i :| 0 <= i < |metrics| && n == nodes[i];
      assert n.entity == metrics[i].entity;
    }
  }

  lemma {:induction false} PlanKeyed(p: Plan, metrics: seq<Metric>)
    requires PlanNamed(p) && MetricsNamed(metrics)
    ensures KeyedTree(PlanNode(p, metrics))
  {
    PerMetricsKeyed(MetricOfPricing, PricingKind, ["min", "max"], metrics, p.pricing);
    PerMetricsKeyed(MetricOfLimits, LimitKind, ["period"], metrics, p.limits);
  }

  lemma {:induction false} BackendKeyed(b: Backend, exact: bool)
    requires MetricsNamed(b.metrics) && Has("pattern", b.mappings)
    ensures KeyedTree(BackendNode(b, exact))
  {
    MetricsKeyed(b.metrics, exact);
    LeavesKeyed(MappingKind, b.mappings, ["pattern"], exact);
  }

  lemma {:induction false} ServiceKeyed(s: Service, product: bool, exact: bool)
    requires Named(s)
    ensures KeyedTree(ServiceNode(s, product, exact))
  {
    var node := ServiceNode(s, product, exact);
    MetricsKeyed(s.metrics, exact);
    LeavesKeyed(MappingKind, s.mappings, ["pattern"], exact);
    LeavesKeyed(ActiveDocKind, s.activeDocs, ["system_name"], exact);
    forall i | 0 <= i < |s.plans| ensures KeyedTree(node.lists[2].nodes[i]) {
      PlanKeyed(s.plans[i], s.metrics);
    }
    assert KeyedListing(node.lists[2]);
    forall i | 0 <= i < |s.usages| ensures KeyedTree(node.lists[4].nodes[i]) {
      BackendKeyed(s.usages[i].backend, exact);
    }
    assert KeyedListing(node.lists[4]);
  }

  /** An accepted comparison of two services is accepted the other way round if and only if
      all paired entities, down to the methods, limits and pricing rules, carry equally many
      ignored keys. */
  lemma {:induction false} ServicesSwap(rules: Rules, s1: Service, s2: Service, product: bool, exact: bool)
    requires Named(s1) && Named(s2)
    requires Accepts(rules, ServiceNode(s1, product, exact), ServiceNode(s2, product, exact))
    ensures Accepts(rules, ServiceNode(s2, product, exact), ServiceNode(s1, product, exact)) <==>
            Aligned(rules, ServiceNode(s1, product, exact), ServiceNode(s2, product, exact))
  {
    ServiceKeyed(s1, product, exact);
    ServiceKeyed(s2, product, exact);
    ComparisonSwap(rules, ServiceNode(s1, product, exact), ServiceNode(s2, product, exact));
  }
}
