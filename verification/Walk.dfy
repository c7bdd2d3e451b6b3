/** buildWalk of ui/src/pages/Needs.tsx, step by step, proved to emit a list that
    WalkSpec allows. */
module Walk {
  import opened Prelude
  import opened Sorting
  import opened Needs
  import opened WalkSpec
  import opened WalkGroups
  import WalkFields

  method FindCut(g: seq<Need>) returns (cut: int)
    ensures IsCut(g, cut)
    ensures cut == FirstCut(g, 0)
  {
    cut := -1;
    var i := 0;
    while i < |g| - 1
      invariant 0 <= i && (g == [] || i <= |g| - 1)
      invariant forall j | 0 <= j < i :: !CutAt(g, j)
      invariant i <= |g| ==> FirstCut(g, 0) == FirstCut(g, i)
    {
      if g[i].claimedMachineCount > 0 && !g[i + 1].satisfied && g[i + 1].claimedMachineCount == 0 {
        cut := i;
        break;
      }
      i := i + 1;
    }
  }

  /** The groups are those of the list: one entry per key, holding that fingerprint's needs. */
  ghost predicate GroupsOf(groups: JsMap<seq<Need>>, xs: seq<Need>, showCluster: bool) {
    && groups.keys == FirstSeen(xs, showCluster)
    && (forall fp :: fp in groups.keys <==> fp in groups.vals)
    && forall fp | fp in groups.vals :: groups.vals[fp] == Members(fp, xs)
  }

  lemma OneMoreNeed(groups: JsMap<seq<Need>>, xs: seq<Need>, n: Need, showCluster: bool)
    requires GroupsOf(groups, xs, showCluster)
    ensures Grouped(n, showCluster) ==>
      GroupsOf(groups.Set(Fp(n), groups.Get(Fp(n), []) + [n]), xs + [n], showCluster)
    ensures !Grouped(n, showCluster) ==> GroupsOf(groups, xs + [n], showCluster)
  {
    var more := xs + [n];
    assert more[..|xs|] == xs;
    FirstSeenExact(xs, showCluster);
    assert forall fp :: Members(fp, more) == Members(fp, xs) + (if Fp(n) == fp then [n] else []);
    if Grouped(n, showCluster) {
      var fp := Fp(n);
      if fp !in groups.vals {
        NoMembers(fp, xs, showCluster);
      }
      assert groups.Get(fp, []) == Members(fp, xs);
    }
  }

  /** The first loop: grouped needs into the map, the others onto the flat list. */
  method GroupByFingerprint(sorted: seq<Need>, showCluster: bool) returns (groups: JsMap<seq<Need>>, flat: seq<Need>)
    ensures GroupsOf(groups, sorted, showCluster)
    ensures flat == Ungrouped(sorted, showCluster)
  {
    groups := JsMap([], map[]);
    flat := [];
    for k := 0 to |sorted|
      invariant GroupsOf(groups, sorted[..k], showCluster)
      invariant flat == Ungrouped(sorted[..k], showCluster)
    {
      var n := sorted[k];
      assert sorted[..k + 1] == sorted[..k] + [n];
      OneMoreNeed(groups, sorted[..k], n, showCluster);
      var fp := Fp(n);
      if fp == "" || showCluster {
        flat := flat + [n];
      } else {
        var g := groups.Get(fp, []);
        groups := groups.Set(fp, g + [n]);
      }
    }
    assert sorted[..|sorted|] == sorted;
  }

  /** The cohort loop's body. */
  method EmitCohort(fp: string, g: seq<Need>) returns (items: seq<WalkItem>)
    ensures items == CohortItems(fp, g, FirstCut(g, 0))
  {
    var contested := exists i | 0 <= i < |g| :: !g[i].satisfied;
    items := [Header(HeaderKey(fp), fp, |g|, contested, Pool(g))];
    var cut := FindCut(g);
    for i := 0 to |g|
      invariant items == [HeaderItem(fp, g)] + MemberItems(fp, g, cut, i)
    {
      items := items + [MemberRow(fp, i, g[i])];
      if i == cut {
        items := items + [Cutline(CutKey(fp), |g| - i - 1)];
      }
    }
  }

  method SelectCohorts(groups: JsMap<seq<Need>>, ghost sorted: seq<Need>, ghost showCluster: bool)
    returns (cohorts: seq<string>)
    requires GroupsOf(groups, sorted, showCluster)
    ensures cohorts == Contended(groups.keys, sorted)
    ensures forall fp | fp in groups.keys :: fp in cohorts <==> |Members(fp, sorted)| >= 2
  {
    var fps := groups.keys;
    FirstSeenExact(sorted, showCluster);
    ContendedExact(fps, sorted);
    cohorts := [];
    for k := 0 to |fps|
      invariant cohorts == Contended(fps[..k], sorted)
    {
      OneMoreGroup(fps, k, sorted);
      assert fps[k] in fps;
      if |groups.vals[fps[k]]| >= 2 {
        cohorts := cohorts + [fps[k]];
      }
    }
    assert fps[..|fps|] == fps;
  }

  method AppendSingles(groups: JsMap<seq<Need>>, cohorts: seq<string>, ungrouped: seq<Need>,
                       ghost sorted: seq<Need>, ghost showCluster: bool)
    returns (flat: seq<Need>)
    requires GroupsOf(groups, sorted, showCluster)
    requires forall fp | fp in groups.keys :: fp in cohorts <==> |Members(fp, sorted)| >= 2
    ensures flat == ungrouped + Singles(groups.keys, sorted)
  {
    var fps := groups.keys;
    flat := ungrouped;
    for k := 0 to |fps|
      invariant flat == ungrouped + Singles(fps[..k], sorted)
    {
      OneMoreGroup(fps, k, sorted);
      assert fps[k] in fps;
      if fps[k] !in cohorts {
        assert groups.vals[fps[k]] == Members(fps[k], sorted);
        ConcatAssociates(ungrouped, Singles(fps[..k], sorted), Members(fps[k], sorted));
        flat := flat + groups.vals[fps[k]];
      }
    }
    assert fps[..|fps|] == fps;
  }

  method EmitCohorts(groups: JsMap<seq<Need>>, order: seq<string>, ghost sorted: seq<Need>, ghost showCluster: bool)
    returns (items: seq<WalkItem>)
    requires GroupsOf(groups, sorted, showCluster)
    requires forall fp | fp in order :: fp in groups.keys
    ensures items == Cohorts(order, sorted)
  {
    items := [];
    for k := 0 to |order|
      invariant items == Cohorts(order[..k], sorted)
    {
      assert order[..k + 1][..k] == order[..k];
      assert order[k] in order;
      var block := EmitCohort(order[k], groups.vals[order[k]]);
      items := items + block;
    }
    assert order[..|order|] == order;
  }

  method EmitTail(items: seq<WalkItem>, flat: seq<Need>) returns (out: seq<WalkItem>)
    ensures out == items + TailItems(flat)
  {
    out := items;
    for i := 0 to |flat|
      invariant out == items + TailItems(flat)[..i]
    {
      out := out + [Row(TailKey(i, flat[i]), flat[i])];
    }
    assert TailItems(flat)[..|flat|] == TailItems(flat);
  }

  method BuildWalk(rows: seq<Need>, showCluster: bool) returns (items: seq<WalkItem>)
    ensures IsWalk(rows, showCluster, items)
    ensures exists order, blocks, tail :: WalkFields.ShownList(rows, showCluster, items, order, blocks, tail)
  {
    var sorted := StableSort(Precedes, rows);
    var groups, ungrouped := GroupByFingerprint(sorted, showCluster);
    var cohorts := SelectCohorts(groups, sorted, showCluster);
    var flat := AppendSingles(groups, cohorts, ungrouped, sorted, showCluster);
    FirstSeenExact(sorted, showCluster);
    ContendedExact(groups.keys, sorted);
    ghost var dom := set fp | fp in cohorts;
    HeadsStrictWeak(sorted, dom);
    var order := SortSomehow(ByHead(sorted), dom, cohorts);
    assert CohortOrder(sorted, showCluster, order);
    SameElements(order, cohorts);
    var top := EmitCohorts(groups, order, sorted, showCluster);
    items := EmitTail(top, StableSort(Precedes, flat));
    assert items == WalkSpec.Walk(rows, showCluster, order);
    WalkFields.WalkShows(rows, showCluster, items);
  }
}
