/** The lists and counts around the walk: clusters, scoped, rows and summary of
    ui/src/pages/Needs.tsx, and how the counts on the page fit together. */
module NeedsPage {
  import opened Prelude
  import opened Sorting
  import opened Needs
  import opened WalkSpec
  import opened WalkTheorems

  const ALL := "*"

  datatype Status = AllNeeds | SatisfiedOnly | UnmetOnly

  function InCluster(id: string): Need -> bool {
    (n: Need) => n.clusterId == id
  }

  function IsSatisfied(): Need -> bool {
    (n: Need) => n.satisfied
  }

  function IsUnmet(): Need -> bool {
    (n: Need) => !n.satisfied
  }

  function UnmetFor(reason: string): Need -> bool {
    (n: Need) => !n.satisfied && n.unmetReason == reason
  }

  function UnmetIn(id: string): Need -> bool {
    (n: Need) => !n.satisfied && n.clusterId == id
  }

  function Scoped(all: seq<Need>, cluster: string): seq<Need> {
    if cluster != "" && cluster != ALL then Filter(InCluster(cluster), all) else all
  }

  /** An absent reason and the empty string both leave the reason filter off. */
  function Rows(scoped: seq<Need>, status: Status, reason: Option<string>): seq<Need> {
    var r :=
      match status
      case SatisfiedOnly => Filter(IsSatisfied(), scoped)
      case UnmetOnly => Filter(IsUnmet(), scoped)
      case AllNeeds => scoped;
    if reason.Some? && reason.value != "" then Filter(UnmetFor(reason.value), r) else r
  }

  // ---- counts

  function SumVals(keys: seq<string>, vals: map<string, nat>): nat {
    if keys == [] then 0
    else
      var k := keys[|keys| - 1];
      SumVals(keys[..|keys| - 1], vals) + (if k in vals then vals[k] else 0)
  }

  lemma {:induction false} SumUntouched(keys: seq<string>, vals: map<string, nat>, k: string, v: nat)
    requires k !in keys
    ensures SumVals(keys, vals[k := v]) == SumVals(keys, vals)
  {
    if keys == [] {
    } else {
      var init := keys[..|keys| - 1];
      assert forall x | x in init :: x in keys;
      SumUntouched(init, vals, k, v);
      assert keys[|keys| - 1] in keys;
    }
  }

  /** Bumping one entry of a counter map bumps the sum by one. */
  lemma {:induction false} SumBump(keys: seq<string>, vals: map<string, nat>, k: string)
    requires NoDup(keys) && k in keys && k in vals
    ensures SumVals(keys, vals[k := vals[k] + 1]) == SumVals(keys, vals) + 1
  {
    var init, last := keys[..|keys| - 1], keys[|keys| - 1];
    if last == k {
      SumUntouched(init, vals, k, vals[k] + 1);
    } else {
      assert k in init;
      SumBump(init, vals, k);
    }
  }

  /** A counter map: one entry per key, and an entry for every key ever counted. */
  ghost predicate Counter(m: JsMap<nat>) {
    NoDup(m.keys) && forall k :: k in m.keys <==> k in m.vals
  }

  function Bump(m: JsMap<nat>, k: string): JsMap<nat> {
    m.Set(k, m.Get(k, 0) + 1)
  }

  lemma BumpCounts(m: JsMap<nat>, k: string)
    requires Counter(m)
    ensures Counter(Bump(m, k))
    ensures SumVals(Bump(m, k).keys, Bump(m, k).vals) == SumVals(m.keys, m.vals) + 1
  {
    if k in m.vals {
      SumBump(m.keys, m.vals, k);
    } else {
      SumUntouched(m.keys, m.vals, k, 1);
      assert Bump(m, k).keys[..|m.keys|] == m.keys;
    }
  }

  ghost predicate CountsReasons(xs: seq<Need>, byReason: JsMap<nat>) {
    forall r :: byReason.Get(r, 0) == |Filter(UnmetFor(r), xs)|
  }

  /** The summary of a list of needs: every need is counted once, satisfied or under its reason. */
  ghost predicate Summarizes(xs: seq<Need>, satisfied: nat, byReason: JsMap<nat>) {
    && satisfied == |Filter(IsSatisfied(), xs)|
    && Counter(byReason)
    && CountsReasons(xs, byReason)
    && satisfied + SumVals(byReason.keys, byReason.vals) == |xs|
  }

  lemma UnmetOneMore(xs: seq<Need>, n: Need, byReason: JsMap<nat>)
    requires !n.satisfied && CountsReasons(xs, byReason)
    ensures CountsReasons(xs + [n], Bump(byReason, n.unmetReason))
  {
    forall r ensures Bump(byReason, n.unmetReason).Get(r, 0) == |Filter(UnmetFor(r), xs + [n])| {
      FilterAppend(UnmetFor(r), xs, n);
      assert byReason.Get(r, 0) == |Filter(UnmetFor(r), xs)|;
    }
  }

  lemma SatisfiedOneMore(xs: seq<Need>, n: Need, byReason: JsMap<nat>)
    requires n.satisfied && CountsReasons(xs, byReason)
    ensures CountsReasons(xs + [n], byReason)
  {
    forall r ensures byReason.Get(r, 0) == |Filter(UnmetFor(r), xs + [n])| {
      FilterAppend(UnmetFor(r), xs, n);
      assert byReason.Get(r, 0) == |Filter(UnmetFor(r), xs)|;
    }
  }

  lemma SummarizesOneMore(xs: seq<Need>, n: Need, satisfied: nat, byReason: JsMap<nat>)
    requires Summarizes(xs, satisfied, byReason)
    ensures n.satisfied ==> Summarizes(xs + [n], satisfied + 1, byReason)
    ensures !n.satisfied ==> Summarizes(xs + [n], satisfied, Bump(byReason, n.unmetReason))
  {
    FilterAppend(IsSatisfied(), xs, n);
    if n.satisfied {
      SatisfiedOneMore(xs, n, byReason);
    } else {
      UnmetOneMore(xs, n, byReason);
      BumpCounts(byReason, n.unmetReason);
    }
  }

  method Summary(scoped: seq<Need>) returns (satisfied: nat, byReason: JsMap<nat>)
    ensures satisfied == |Filter(IsSatisfied(), scoped)|
    ensures Counter(byReason)
    ensures forall r :: byReason.Get(r, 0) == |Filter(UnmetFor(r), scoped)|
    ensures satisfied + SumVals(byReason.keys, byReason.vals) == |scoped|
  {
    satisfied := 0;
    byReason := JsMap([], map[]);
    for i := 0 to |scoped|
      invariant Summarizes(scoped[..i], satisfied, byReason)
    {
      var n := scoped[i];
      assert scoped[..i + 1] == scoped[..i] + [n];
      SummarizesOneMore(scoped[..i], n, satisfied, byReason);
      if n.satisfied {
        satisfied := satisfied + 1;
      } else {
        byReason := byReason.Set(n.unmetReason, byReason.Get(n.unmetReason, 0) + 1);
      }
    }
    assert scoped[..|scoped|] == scoped;
  }

  datatype ClusterCount = ClusterCount(id: string, total: nat, unmet: nat)

  /** Most unmet needs first, then by id as the locale orders it. */
  function ClusterLess(idLess: (string, string) -> bool): (ClusterCount, ClusterCount) -> bool {
    (a: ClusterCount, b: ClusterCount) => a.unmet > b.unmet || (a.unmet == b.unmet && idLess(a.id, b.id))
  }

  /** One entry per cluster that has needs, each with its own counts. */
  ghost predicate CountsClusters(all: seq<Need>, entries: seq<ClusterCount>) {
    && (forall i, j | 0 <= i < j < |entries| :: entries[i].id != entries[j].id)
    && (forall e | e in entries :: e.total == |Filter(InCluster(e.id), all)| > 0)
    && (forall e | e in entries :: e.unmet == |Filter(UnmetIn(e.id), all)|)
    && (forall n | n in all :: exists e :: e in entries && e.id == n.clusterId)
  }

  lemma ClusterLessStrictWeak(idLess: (string, string) -> bool, entries: seq<ClusterCount>, dom: set<ClusterCount>)
    requires StrictWeakOn(idLess, set e | e in entries :: e.id)
    requires dom == set e | e in entries
    ensures StrictWeakOn(ClusterLess(idLess), dom)
  {
    var ids := set e | e in entries :: e.id;
    var less := ClusterLess(idLess);
    assert forall e | e in dom :: e.id in ids;
    forall a, b, c | a in dom && b in dom && c in dom && Tied(less, a, b) && Tied(less, b, c)
      ensures Tied(less, a, c)
    {
      assert Tied(idLess, a.id, b.id) && Tied(idLess, b.id, c.id);
    }
  }

  datatype Tally = Tally(total: nat, unmet: nat)

  ghost predicate Tallies(xs: seq<Need>, m: JsMap<Tally>) {
    && NoDup(m.keys) && (forall k :: k in m.keys <==> k in m.vals)
    && (forall n | n in xs :: n.clusterId in m.keys)
    && (forall k | k in m.keys :: m.vals[k].total > 0)
    && (forall k :: m.Get(k, Tally(0, 0)).total == |Filter(InCluster(k), xs)|)
    && (forall k :: m.Get(k, Tally(0, 0)).unmet == |Filter(UnmetIn(k), xs)|)
  }

  function Count(m: JsMap<Tally>, n: Need): JsMap<Tally> {
    var e := m.Get(n.clusterId, Tally(0, 0));
    m.Set(n.clusterId, Tally(e.total + 1, if n.satisfied then e.unmet else e.unmet + 1))
  }

  lemma CountAt(m: JsMap<Tally>, n: Need, k: string)
    ensures var e := m.Get(k, Tally(0, 0));
      Count(m, n).Get(k, Tally(0, 0))
      == if n.clusterId == k then Tally(e.total + 1, if n.satisfied then e.unmet else e.unmet + 1) else e
  {
  }

  lemma CountKeys(m: JsMap<Tally>, n: Need)
    requires NoDup(m.keys) && forall k :: k in m.keys <==> k in m.vals
    ensures NoDup(Count(m, n).keys) && forall k :: k in Count(m, n).keys <==> k in Count(m, n).vals
    ensures forall k :: k in Count(m, n).keys <==> k in m.keys || k == n.clusterId
  {
  }

  lemma TalliesOneMore(xs: seq<Need>, n: Need, m: JsMap<Tally>)
    requires Tallies(xs, m)
    ensures Tallies(xs + [n], Count(m, n))
  {
    CountKeys(m, n);
    forall k
      ensures Count(m, n).Get(k, Tally(0, 0)).total == |Filter(InCluster(k), xs + [n])|
      ensures Count(m, n).Get(k, Tally(0, 0)).unmet == |Filter(UnmetIn(k), xs + [n])|
    {
      CountAt(m, n, k);
      FilterAppend(InCluster(k), xs, n);
      FilterAppend(UnmetIn(k), xs, n);
    }
  }

  function Entries(m: JsMap<Tally>): (r: seq<ClusterCount>)
    ensures |r| == |m.keys|
  {
    seq(|m.keys|, i requires 0 <= i < |m.keys| =>
      var e := m.Get(m.keys[i], Tally(0, 0)); ClusterCount(m.keys[i], e.total, e.unmet))
  }

  lemma EntryTotals(all: seq<Need>, m: JsMap<Tally>, i: nat)
    requires Tallies(all, m) && i < |m.keys|
    ensures var e := Entries(m)[i];
      && e.id == m.keys[i] && e.total == |Filter(InCluster(e.id), all)| > 0
      && e.unmet == |Filter(UnmetIn(e.id), all)|
  {
    assert m.keys[i] in m.keys;
  }

  lemma EntryExists(all: seq<Need>, m: JsMap<Tally>, n: Need)
    requires Tallies(all, m) && n in all
    ensures exists e :: e in Entries(m) && e.id == n.clusterId
  {
    var i :| 0 <= i < |m.keys| && m.keys[i] == n.clusterId;
    assert Entries(m)[i] in Entries(m);
  }

  lemma EntriesCount(all: seq<Need>, m: JsMap<Tally>)
    requires Tallies(all, m)
    ensures CountsClusters(all, Entries(m))
  {
    var r := Entries(m);
    forall e | e in r
      ensures e.total == |Filter(InCluster(e.id), all)| > 0 && e.unmet == |Filter(UnmetIn(e.id), all)|
    {
      var i :| 0 <= i < |r| && r[i] == e;
      EntryTotals(all, m, i);
    }
    forall n | n in all ensures exists e :: e in r && e.id == n.clusterId {
      EntryExists(all, m, n);
    }
  }

  lemma IdsPermuted(entries: seq<ClusterCount>, r: seq<ClusterCount>, i: nat, j: nat)
    requires forall a, b | 0 <= a < b < |entries| :: entries[a].id != entries[b].id
    requires i < |r| && j < |r| && r[i] != r[j] && r[i] in entries && r[j] in entries
    ensures r[i].id != r[j].id
  {
    var a :| 0 <= a < |entries| && entries[a] == r[i];
    var b :| 0 <= b < |entries| && entries[b] == r[j];
    assert a < b || b < a;
  }

  lemma CountsClustersPermuted(all: seq<Need>, entries: seq<ClusterCount>, r: seq<ClusterCount>)
    requires CountsClusters(all, entries) && multiset(entries) == multiset(r)
    ensures CountsClusters(all, r)
  {
    SameElements(entries, r);
    NoDupPermuted(entries, r);
    forall i, j | 0 <= i < j < |r| ensures r[i].id != r[j].id {
      assert r[i] in r && r[j] in r;
      IdsPermuted(entries, r, i, j);
    }
  }

  lemma {:induction false} FilterNonEmpty<T>(p: T -> bool, xs: seq<T>)
    requires |Filter(p, xs)| > 0
    ensures exists x :: x in xs && p(x)
  {
    var x := Filter(p, xs)[0];
    FilterExact(p, xs, x);
    assert x in multiset(Filter(p, xs));
  }

  lemma ClustersSorted(all: seq<Need>, entries: seq<ClusterCount>, idLess: (string, string) -> bool)
    requires StrictWeakOn(idLess, set n | n in all :: n.clusterId)
    requires CountsClusters(all, entries)
    ensures Sorts(ClusterLess(idLess), entries, StableSort(ClusterLess(idLess), entries))
  {
    var ids := set e | e in entries :: e.id;
    forall id | id in ids ensures id in (set n | n in all :: n.clusterId) {
      var e :| e in entries && e.id == id;
      FilterNonEmpty(InCluster(id), all);
    }
    var dom := set e | e in entries;
    ClusterLessStrictWeak(idLess, entries, dom);
    StableSortStablySorts(ClusterLess(idLess), dom, entries);
  }

  method Clusters(all: seq<Need>, idLess: (string, string) -> bool) returns (r: seq<ClusterCount>)
    requires StrictWeakOn(idLess, set n | n in all :: n.clusterId)
    ensures CountsClusters(all, r)
    ensures Sorted(ClusterLess(idLess), r)
    ensures forall i, j | 0 <= i < j < |r| ::
      r[i].unmet > r[j].unmet || (r[i].unmet == r[j].unmet && !idLess(r[j].id, r[i].id))
  {
    var m: JsMap<Tally> := JsMap([], map[]);
    for i := 0 to |all|
      invariant Tallies(all[..i], m)
    {
      var n := all[i];
      assert all[..i + 1] == all[..i] + [n];
      TalliesOneMore(all[..i], n, m);
      m := Count(m, n);
    }
    assert all[..|all|] == all;
    var entries := Entries(m);
    EntriesCount(all, m);
    r := StableSort(ClusterLess(idLess), entries);
    ClustersSorted(all, entries, idLess);
    CountsClustersPermuted(all, entries, r);
    assert forall i, j | 0 <= i < j < |r| :: !ClusterLess(idLess)(r[j], r[i]);
  }

  // ---- the counts agree

  function SumTotals(entries: seq<ClusterCount>): nat {
    if entries == [] then 0 else SumTotals(entries[..|entries| - 1]) + entries[|entries| - 1].total
  }

  function SizeIn(entries: seq<ClusterCount>, all: seq<Need>): nat {
    if entries == [] then 0
    else SizeIn(entries[..|entries| - 1], all) + |Filter(InCluster(entries[|entries| - 1].id), all)|
  }

  lemma {:induction false} SizeInAppend(entries: seq<ClusterCount>, all: seq<Need>, n: Need)
    requires forall i, j | 0 <= i < j < |entries| :: entries[i].id != entries[j].id
    ensures SizeIn(entries, all + [n])
         == SizeIn(entries, all) + (if exists e :: e in entries && e.id == n.clusterId then 1 else 0)
  {
    if entries == [] {
    } else {
      var init, last := entries[..|entries| - 1], entries[|entries| - 1];
      SizeInAppend(init, all, n);
      assert (all + [n])[..|all|] == all;
      assert entries == init + [last];
      if last.id == n.clusterId {
        assert last in entries;
      }
    }
  }

  lemma {:induction false} SizeInIsAll(entries: seq<ClusterCount>, all: seq<Need>)
    requires forall i, j | 0 <= i < j < |entries| :: entries[i].id != entries[j].id
    requires forall n | n in all :: exists e :: e in entries && e.id == n.clusterId
    ensures SizeIn(entries, all) == |all|
  {
    if all == [] {
      SizeInEmpty(entries);
    } else {
      var init, n := all[..|all| - 1], all[|all| - 1];
      assert all == init + [n];
      assert forall x | x in init :: x in all;
      SizeInIsAll(entries, init);
      SizeInAppend(entries, init, n);
      assert n in all;
    }
  }

  lemma {:induction false} SizeInEmpty(entries: seq<ClusterCount>)
    ensures SizeIn(entries, []) == 0
  {
    if entries == [] {
    } else {
      SizeInEmpty(entries[..|entries| - 1]);
    }
  }

  /** The totals next to the clusters add up to the total next to "All clusters". */
  lemma TotalsAddUp(all: seq<Need>, entries: seq<ClusterCount>)
    requires CountsClusters(all, entries)
    ensures SumTotals(entries) == |all|
  {
    SizeInIsAll(entries, all);
    SumIsSize(entries, all);
  }

  lemma {:induction false} SumIsSize(entries: seq<ClusterCount>, all: seq<Need>)
    requires forall e | e in entries :: e.total == |Filter(InCluster(e.id), all)|
    ensures SumTotals(entries) == SizeIn(entries, all)
  {
    if entries == [] {
    } else {
      var init := entries[..|entries| - 1];
      assert forall e | e in init :: e in entries;
      SumIsSize(init, all);
      assert entries[|entries| - 1] in entries;
    }
  }

  lemma {:induction false} FilterAll<T>(p: T -> bool, xs: seq<T>)
    ensures |Filter(p, xs)| == |xs| <==> forall x | x in xs :: p(x)
    ensures |Filter(p, xs)| == |xs| ==> Filter(p, xs) == xs
  {
    if xs == [] {
    } else {
      var init, last := xs[..|xs| - 1], xs[|xs| - 1];
      assert xs == init + [last];
      FilterAll(p, init);
      assert last in xs;
      assert forall x | x in init :: x in xs;
      if |Filter(p, xs)| == |xs| {
        assert p(last) && |Filter(p, init)| == |init|;
        assert forall x | x in xs :: x in init || x == last;
      }
    }
  }

  /** Picking a cluster from the list shows as many needs as the list announced, unless
      the cluster's id is empty or "*": those two ids select every need. */
  lemma ScopeMatchesTotal(all: seq<Need>, entries: seq<ClusterCount>, e: ClusterCount)
    requires CountsClusters(all, entries) && e in entries
    ensures |Scoped(all, e.id)| == e.total
       <==> (e.id != "" && e.id != "*") || forall n | n in all :: n.clusterId == e.id
  {
    FilterAll(InCluster(e.id), all);
  }

  function NeedOf(clusterId: string): Need {
    Need(clusterId, 0, None, None, None, None, None, true, "", 0, None)
  }

  /** A cluster with the empty id, or with the id "*", and one need: picking it next to
      another cluster's need shows two needs. */
  lemma OddIdShowsAll(id: string, other: string)
    requires (id == "" || id == "*") && other != id
    ensures var all := [NeedOf(id), NeedOf(other)];
      var e := ClusterCount(id, 1, 0);
      && CountsClusters(all, [e, ClusterCount(other, 1, 0)])
      && |Scoped(all, id)| == 2 != e.total
  {
    var all := [NeedOf(id), NeedOf(other)];
    FilterPair(InCluster(id), NeedOf(id), NeedOf(other));
    FilterPair(InCluster(other), NeedOf(id), NeedOf(other));
    FilterPair(UnmetIn(id), NeedOf(id), NeedOf(other));
    FilterPair(UnmetIn(other), NeedOf(id), NeedOf(other));
    var entries := [ClusterCount(id, 1, 0), ClusterCount(other, 1, 0)];
    assert entries[0] in entries && entries[1] in entries;
    assert CountsClusters(all, entries);
  }

  lemma FilterPair<T>(p: T -> bool, a: T, b: T)
    ensures Filter(p, [a, b]) == (if p(a) then [a] else []) + (if p(b) then [b] else [])
  {
    FilterAppend(p, [], a);
    FilterAppend(p, [a], b);
    assert [] + [a] == [a] && [a] + [b] == [a, b];
    assert Filter(p, [a]) == if p(a) then [a] else [];
  }

  lemma {:induction false} FilterTwice<T>(p: T -> bool, q: T -> bool, xs: seq<T>)
    requires forall x | x in xs && q(x) :: p(x)
    ensures Filter(q, Filter(p, xs)) == Filter(q, xs)
  {
    if xs == [] {
    } else {
      var init, last := xs[..|xs| - 1], xs[|xs| - 1];
      assert forall x | x in init :: x in xs;
      FilterTwice(p, q, init);
      assert last in xs;
      var f := Filter(p, xs);
      if p(last) {
        assert f[..|f| - 1] == Filter(p, init);
      } else {
        assert f == Filter(p, init);
      }
    }
  }

  lemma {:induction false} FilterNone<T>(p: T -> bool, xs: seq<T>)
    requires forall x | x in xs :: !p(x)
    ensures Filter(p, xs) == []
  {
    if xs == [] {
    } else {
      assert xs[|xs| - 1] in xs;
      assert forall x | x in xs[..|xs| - 1] :: x in xs;
      FilterNone(p, xs[..|xs| - 1]);
    }
  }

  /** A need passes the two filters. */
  predicate Passes(n: Need, status: Status, reason: Option<string>) {
    && (status == SatisfiedOnly ==> n.satisfied)
    && (status == UnmetOnly ==> !n.satisfied)
    && (reason.Some? && reason.value != "" ==> !n.satisfied && n.unmetReason == reason.value)
  }

  /** The page shows exactly the needs that pass both filters, as often as the scope has them. */
  lemma RowsExact(scoped: seq<Need>, status: Status, reason: Option<string>, n: Need)
    ensures multiset(Rows(scoped, status, reason))[n] == if Passes(n, status, reason) then multiset(scoped)[n] else 0
  {
    var r := match status
      case SatisfiedOnly => Filter(IsSatisfied(), scoped)
      case UnmetOnly => Filter(IsUnmet(), scoped)
      case AllNeeds => scoped;
    FilterExact(IsSatisfied(), scoped, n);
    FilterExact(IsUnmet(), scoped, n);
    if reason.Some? && reason.value != "" {
      FilterExact(UnmetFor(reason.value), r, n);
    }
  }

  /** The scope of a cluster, likewise; the empty id and "*" stand for all clusters. */
  lemma ScopedExact(all: seq<Need>, cluster: string, n: Need)
    ensures multiset(Scoped(all, cluster))[n]
         == if cluster == "" || cluster == "*" || n.clusterId == cluster then multiset(all)[n] else 0
  {
    FilterExact(InCluster(cluster), all, n);
  }

  /** What the page shows while the badge of a reason is pressed. */
  lemma ShownForReason(scoped: seq<Need>, status: Status, reason: string)
    requires reason != ""
    ensures |Rows(scoped, status, Some(reason))|
         == if status == SatisfiedOnly then 0 else |Filter(UnmetFor(reason), scoped)|
  {
    match status
    case AllNeeds =>
    case UnmetOnly => FilterTwice(IsUnmet(), UnmetFor(reason), scoped);
    case SatisfiedOnly =>
      var r := Filter(IsSatisfied(), scoped);
      forall n | n in r ensures !UnmetFor(reason)(n) {
        FilterExact(IsSatisfied(), scoped, n);
        assert n in multiset(r);
      }
      FilterNone(UnmetFor(reason), r);
  }

  function Example(satisfied: bool, reason: string): Need {
    Need("c", 0, None, None, None, None, None, satisfied, reason, 0, None)
  }

  /** A badge announces the number of rows that pressing it shows, on every list of
      needs, exactly when its reason is not empty and the status filter is not
      "satisfied": an empty reason leaves the filter off, and satisfied needs have no
      unmet reason to match. */
  lemma BadgeMatchesRows(status: Status, reason: string)
    ensures (forall scoped :: |Rows(scoped, status, Some(reason))| == |Filter(UnmetFor(reason), scoped)|)
       <==> reason != "" && status != SatisfiedOnly
  {
    if reason != "" {
      forall scoped ensures |Rows(scoped, status, Some(reason))|
        == if status == SatisfiedOnly then 0 else |Filter(UnmetFor(reason), scoped)| {
        ShownForReason(scoped, status, reason);
      }
      var one := [Example(false, reason)];
      assert one[..0] == [];
      assert |Filter(UnmetFor(reason), one)| == 1;
      assert status == SatisfiedOnly ==> |Rows(one, status, Some(reason))| == 0;
    } else {
      var one := [Example(status != UnmetOnly, "OTHER")];
      assert one[..0] == [];
      assert |Filter(UnmetFor(reason), one)| == 0;
      assert |Rows(one, status, Some(reason))| == 1;
    }
  }

  /** ... and the walk shows all those rows, whatever it does with cohorts. */
  lemma WalkShowsBadge(scoped: seq<Need>, status: Status, reason: string, showCluster: bool, items: seq<WalkItem>)
    requires reason != "" && status != SatisfiedOnly
    requires IsWalk(Rows(scoped, status, Some(reason)), showCluster, items)
    ensures |RowNeeds(items)| == |Filter(UnmetFor(reason), scoped)|
  {
    ShownForReason(scoped, status, reason);
    Conservation(Rows(scoped, status, Some(reason)), showCluster, items);
    SameElements(RowNeeds(items), Rows(scoped, status, Some(reason)));
  }
}
