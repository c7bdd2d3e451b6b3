/** The two handlers that fan out over the managed clusters, as instances of FanOut,
    and the per-cluster reads that they report (pkg/server/handlers_clusters.go,
    pkg/server/handlers_available_capacity.go, pkg/kubeclient/kubeclient.go). */
module ClusterHandlers {
  import opened Prelude
  import opened Sorting
  import opened Strings
  import opened FanOut

  type Phases = map<string, nat>

  // ---- counting by phase

  /** The sum of a map's values. No order of visiting the keys is built in: see SumAnyOrder. */
  ghost function Total(m: Phases): nat {
    if m == map[] then 0
    else
      var k :| k in m;
      m[k] + Total(m - {k})
  }

  lemma {:induction false} SumAnyOrder(m: Phases, k: string)
    requires k in m
    ensures Total(m) == m[k] + Total(m - {k})
    decreases |m|
  {
    var j :| j in m && Total(m) == m[j] + Total(m - {j});
    if j == k {
    } else {
      SumAnyOrder(m - {j}, k);
      SumAnyOrder(m - {k}, j);
      assert m - {j} - {k} == m - {k} - {j};
    }
  }

  method SumValues(m: Phases) returns (total: nat)
    ensures total == Total(m)
  {
    total := 0;
    var rest := m;
    while rest != map[]
      invariant total + Total(rest) == Total(m)
      decreases |rest|
    {
      var k :| k in rest;
      SumAnyOrder(rest, k);
      total := total + rest[k];
      rest := rest - {k};
    }
  }

  function PhaseOf(phase: string, default: string): string {
    if phase == "" then default else phase
  }

  /** How many of the listed objects are in the given phase. */
  function InPhase(items: seq<string>, default: string, phase: string): nat {
    if items == [] then 0
    else
      InPhase(items[..|items| - 1], default, phase)
      + (if PhaseOf(items[|items| - 1], default) == phase then 1 else 0)
  }

  lemma TotalBump(m: Phases, k: string)
    ensures Total(m[k := (if k in m then m[k] else 0) + 1]) == Total(m) + 1
  {
    var m' := m[k := (if k in m then m[k] else 0) + 1];
    SumAnyOrder(m', k);
    assert m' - {k} == m - {k};
    if k in m {
      SumAnyOrder(m, k);
    } else {
      assert m - {k} == m;
    }
  }

  /** The objects that are counted under a phase: those that carry it, and for the default
      phase those that carry none. */
  function PositionsIn(items: seq<string>, default: string, phase: string): set<int> {
    set i | 0 <= i < |items| && (if items[i] != "" then items[i] == phase else default == phase)
  }

  lemma PositionsStep(items: seq<string>, default: string, phase: string)
    requires items != []
    ensures var last := |items| - 1;
      var before := PositionsIn(items[..last], default, phase);
      && last !in before
      && PositionsIn(items, default, phase)
         == if PhaseOf(items[last], default) == phase then before + {last} else before
  {
    var last := |items| - 1;
    assert forall i | 0 <= i < last :: items[i] == items[..last][i];
  }

  lemma {:induction false} InPhaseCounts(items: seq<string>, default: string, phase: string)
    ensures InPhase(items, default, phase) == |PositionsIn(items, default, phase)|
  {
    if items == [] {
    } else {
      InPhaseCounts(items[..|items| - 1], default, phase);
      PositionsStep(items, default, phase);
    }
  }

  /** items holds the status.phase of every listed object, "" where it has none. */
  method CountByStatusPhase(list: Result<seq<string>, string>, default: string) returns (r: Result<Phases, string>)
    ensures if list.Err? then r == Err(list.error) else r.Ok?
    ensures r.Ok? ==> forall p :: (if p in r.value then r.value[p] else 0) == InPhase(list.value, default, p)
    ensures r.Ok? ==> Total(r.value) == |list.value|
    ensures r.Ok? ==> forall p ::
      (if p in r.value then r.value[p] else 0) == |PositionsIn(list.value, default, p)|
  {
    if list.Err? {
      return Err(list.error);
    }
    var items := list.value;
    var out: Phases := map[];
    for i := 0 to |items|
      invariant forall p :: (if p in out then out[p] else 0) == InPhase(items[..i], default, p)
      invariant Total(out) == i
    {
      assert items[..i + 1][..i] == items[..i];
      var phase := PhaseOf(items[i], default);
      TotalBump(out, phase);
      out := out[phase := (if phase in out then out[phase] else 0) + 1];
    }
    assert items[..|items|] == items;
    r := Ok(out);
    forall p ensures InPhase(items, default, p) == |PositionsIn(items, default, p)| {
      InPhaseCounts(items, default, p);
    }
  }

  // ---- the clusters list

  datatype ClusterSummary = ClusterSummary(
    id: string,
    capacityRequests: nat,
    capacityRequestsPending: nat,
    upcomingNodes: nat,
    error: Option<string>)

  /** What the two reads of one cluster return; a deadline is one of the errors. */
  datatype Reads = Reads(crs: Result<Phases, string>, uns: Result<Phases, string>)

  const EMPTY_SUMMARY := ClusterSummary("", 0, 0, 0, None)

  ghost function SummaryBody(name: string, r: Reads): seq<ClusterSummary -> ClusterSummary> {
    [ (s: ClusterSummary) => ClusterSummary(name, 0, 0, 0, None),
      (s: ClusterSummary) =>
        match r.crs
        case Ok(crs) =>
          s.(capacityRequests := Total(crs),
             capacityRequestsPending := if "Pending" in crs then crs["Pending"] else 0)
        case Err(e) => s.(error := Some(e)),
      (s: ClusterSummary) =>
        match r.uns
        case Ok(uns) => s.(upcomingNodes := Total(uns))
        case Err(e) => if s.error.None? then s.(error := Some(e)) else s ]
  }

  ghost function ClustersJob(names: seq<string>, env: string -> Reads): Job<ClusterSummary> {
    Job(EMPTY_SUMMARY, seq(|names|, i requires 0 <= i < |names| => SummaryBody(names[i], env(names[i]))))
  }

  /** What the response says about one cluster. */
  ghost predicate Reports(name: string, r: Reads, s: ClusterSummary) {
    && s.id == name
    && (s.error.None? <==> r.crs.Ok? && r.uns.Ok?)
    && (r.crs.Err? ==> s.error == Some(r.crs.error))
    && (r.crs.Ok? && r.uns.Err? ==> s.error == Some(r.uns.error))
    && s.capacityRequests == (if r.crs.Ok? then Total(r.crs.value) else 0)
    && s.capacityRequestsPending == (if r.crs.Ok? && "Pending" in r.crs.value then r.crs.value["Pending"] else 0)
    && s.upcomingNodes == (if r.uns.Ok? then Total(r.uns.value) else 0)
  }

  /** The response lists every cluster at its own place, with the counts of the reads
      that succeeded and the first error of those that did not, under every interleaving. */
  lemma ClustersResponse(names: seq<string>, env: string -> Reads, schedule: seq<Actor>)
    requires After(ClustersJob(names, env), schedule).Some?
    requires After(ClustersJob(names, env), schedule).value.response.Some?
    ensures var out := After(ClustersJob(names, env), schedule).value.response.value;
      |out| == |names| && forall i | 0 <= i < |names| :: Reports(names[i], env(names[i]), out[i])
  {
    var job := ClustersJob(names, env);
    ResponseIsSequential(job, schedule);
    forall i | 0 <= i < |names| ensures Reports(names[i], env(names[i]), Sequential(job)[i]) {
      assert Sequential(job)[i] == Alone(job, i);
      SummaryAlone(names, env, i);
    }
  }

  lemma SummaryAlone(names: seq<string>, env: string -> Reads, i: nat)
    requires i < |names|
    ensures Reports(names[i], env(names[i]), Alone(ClustersJob(names, env), i))
  {
    var body := SummaryBody(names[i], env(names[i]));
    assert ClustersJob(names, env).bodies[i] == body;
    var s1 := Apply(EMPTY_SUMMARY, body, 1);
    assert s1 == body[0](Apply(EMPTY_SUMMARY, body, 0)) == ClusterSummary(names[i], 0, 0, 0, None);
    assert Apply(EMPTY_SUMMARY, body, 2) == body[1](s1);
    assert Apply(EMPTY_SUMMARY, body, 3) == body[2](body[1](s1));
  }

  /** A healthy cluster's total is the number of its CapacityRequests, and the pending
      count takes in those that have no phase yet. */
  lemma HealthyCounts(items: seq<string>, r: Reads, name: string, s: ClusterSummary)
    requires Reports(name, r, s) && r.crs.Ok?
    requires forall p :: (if p in r.crs.value then r.crs.value[p] else 0) == InPhase(items, "Pending", p)
    requires Total(r.crs.value) == |items|
    ensures s.capacityRequests == |items|
    ensures s.capacityRequestsPending == InPhase(items, "Pending", "Pending")
    ensures s.capacityRequestsPending == Unset(items) + InPhase(items, "", "Pending")
    ensures s.capacityRequestsPending <= s.capacityRequests
  {
    PendingSplit(items);
  }

  function Unset(items: seq<string>): nat {
    if items == [] then 0 else Unset(items[..|items| - 1]) + (if items[|items| - 1] == "" then 1 else 0)
  }

  lemma {:induction false} PendingSplit(items: seq<string>)
    ensures InPhase(items, "Pending", "Pending") == Unset(items) + InPhase(items, "", "Pending")
    ensures InPhase(items, "Pending", "Pending") <= |items|
  {
    if items == [] {
    } else {
      PendingSplit(items[..|items| - 1]);
    }
  }

  // ---- available capacity

  datatype CapacityItem = CapacityItem(
    name: string,
    resources: map<string, string>,
    availableCount: int,
    availability: string,
    cost: string,
    requirements: seq<string>)

  /** Most available first, then by name. */
  predicate ItemLess(a: CapacityItem, b: CapacityItem) {
    if a.availableCount != b.availableCount then a.availableCount > b.availableCount
    else StrLess(a.name, b.name)
  }

  lemma ItemLessStrictWeak(dom: set<CapacityItem>)
    ensures StrictWeakOn(ItemLess, dom)
  {
    StrLessOrders(set x | x in dom :: x.name);
    forall a, b | a in dom && b in dom && Tied(ItemLess, a, b)
      ensures a.availableCount == b.availableCount && a.name == b.name
    {
      StrLessTotal(a.name, b.name);
    }
    forall a, b, c | a in dom && b in dom && c in dom && ItemLess(a, b) && ItemLess(b, c) ensures ItemLess(a, c) {
      if a.availableCount == b.availableCount == c.availableCount {
        StrLessTransitive(a.name, b.name, c.name);
      }
    }
    forall a | a in dom ensures !ItemLess(a, a) {
      StrLessIrreflexive(a.name);
    }
  }

  method ListAvailableCapacity(list: Result<seq<CapacityItem>, string>) returns (r: Result<seq<CapacityItem>, string>)
    ensures list.Err? ==> r == list
    ensures list.Ok? ==> r.Ok? && Sorts(ItemLess, list.value, r.value)
    ensures r.Ok? ==> forall i, j | 0 <= i < j < |r.value| ::
      || r.value[i].availableCount > r.value[j].availableCount
      || (r.value[i].availableCount == r.value[j].availableCount && !StrLess(r.value[j].name, r.value[i].name))
  {
    if list.Err? {
      return list;
    }
    ghost var dom := set x | x in list.value;
    ItemLessStrictWeak(dom);
    var out := SortSomehow(ItemLess, dom, list.value);
    r := Ok(out);
    assert forall i, j | 0 <= i < j < |out| :: !ItemLess(out[j], out[i]);
  }

  /** items is None while the Go slice is nil, which JSON renders as null. */
  datatype CapacityCluster = CapacityCluster(id: string, items: Option<seq<CapacityItem>>, error: Option<string>)

  const EMPTY_CLUSTER := CapacityCluster("", None, None)

  function AppendItem(it: CapacityItem): CapacityCluster -> CapacityCluster {
    (s: CapacityCluster) =>
      var copy := CapacityItem(it.name, it.resources, it.availableCount, it.availability, it.cost, it.requirements);
      s.(items := Some((if s.items.Some? then s.items.value else []) + [copy]))
  }

  function CapacityBody(name: string, read: Result<seq<CapacityItem>, string>)
    : seq<CapacityCluster -> CapacityCluster>
  {
    var start := (s: CapacityCluster) => CapacityCluster(name, None, None);
    match read
    case Err(e) => [start, (s: CapacityCluster) => s.(error := Some(e))]
    case Ok(items) =>
      [start, (s: CapacityCluster) => s.(items := Some([]))]
      + seq(|items|, k requires 0 <= k < |items| => AppendItem(items[k]))
  }

  function CapacityJob(names: seq<string>, env: string -> Result<seq<CapacityItem>, string>): Job<CapacityCluster> {
    Job(EMPTY_CLUSTER, seq(|names|, i requires 0 <= i < |names| => CapacityBody(names[i], env(names[i]))))
  }

  lemma {:induction false} CapacityApply(name: string, items: seq<CapacityItem>, k: nat)
    requires k <= |items|
    ensures Apply(EMPTY_CLUSTER, CapacityBody(name, Ok(items)), k + 2) == CapacityCluster(name, Some(items[..k]), None)
  {
    var body := CapacityBody(name, Ok(items));
    if k == 0 {
      var s1 := Apply(EMPTY_CLUSTER, body, 1);
      assert s1 == body[0](Apply(EMPTY_CLUSTER, body, 0)) == CapacityCluster(name, None, None);
      assert Apply(EMPTY_CLUSTER, body, 2) == body[1](s1);
    } else {
      CapacityApply(name, items, k - 1);
      assert body[k + 1] == AppendItem(items[k - 1]);
      assert items[..k] == items[..k - 1] + [items[k - 1]];
    }
  }

  /** Each cluster answers with its own items in the order of the read, or with its own
      error and no items, whatever happens to the other clusters. */
  lemma CapacityResponse(names: seq<string>, env: string -> Result<seq<CapacityItem>, string>, schedule: seq<Actor>)
    requires After(CapacityJob(names, env), schedule).Some?
    requires After(CapacityJob(names, env), schedule).value.response.Some?
    ensures var out := After(CapacityJob(names, env), schedule).value.response.value;
      |out| == |names| && forall i | 0 <= i < |names| ::
        out[i] == match env(names[i])
                  case Ok(items) => CapacityCluster(names[i], Some(items), None)
                  case Err(e) => CapacityCluster(names[i], None, Some(e))
  {
    var job := CapacityJob(names, env);
    ResponseIsSequential(job, schedule);
    forall i | 0 <= i < |names|
      ensures Sequential(job)[i] == match env(names[i])
                                    case Ok(items) => CapacityCluster(names[i], Some(items), None)
                                    case Err(e) => CapacityCluster(names[i], None, Some(e))
    {
      var body := CapacityBody(names[i], env(names[i]));
      assert job.bodies[i] == body;
      assert Sequential(job)[i] == Alone(job, i) == Apply(EMPTY_CLUSTER, body, |body|);
      match env(names[i])
      case Ok(items) =>
        CapacityApply(names[i], items, |items|);
        assert items[..|items|] == items;
      case Err(e) =>
        var s1 := Apply(EMPTY_CLUSTER, body, 1);
        assert s1 == body[0](Apply(EMPTY_CLUSTER, body, 0)) == CapacityCluster(names[i], None, None);
        assert Apply(EMPTY_CLUSTER, body, 2) == body[1](s1);
    }
  }

  /** The list of clusters, and with it the whole response, does not depend on the order in
      which Go ranges over the kubeconfig's contexts nor on the scheduler. */
  lemma ClustersResponseUnique(configs: set<string>, names: seq<string>, names': seq<string>,
                               env: string -> Reads, schedule: seq<Actor>, schedule': seq<Actor>)
    requires Lists(configs, names) && Lists(configs, names')
    requires After(ClustersJob(names, env), schedule).Some?
    requires After(ClustersJob(names, env), schedule).value.response.Some?
    requires After(ClustersJob(names', env), schedule').Some?
    requires After(ClustersJob(names', env), schedule').value.response.Some?
    ensures After(ClustersJob(names, env), schedule).value.response
         == After(ClustersJob(names', env), schedule').value.response
  {
    ListsUnique(configs, names, names');
    ResponseIsSequential(ClustersJob(names, env), schedule);
    ResponseIsSequential(ClustersJob(names', env), schedule');
  }
}
