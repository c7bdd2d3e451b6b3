/** What a reader of the Needs page may rely on, for every list that the walk may emit. */
module WalkTheorems {
  import opened Prelude
  import opened Sorting
  import opened Decimal
  import opened Needs
  import opened WalkSpec
  import opened WalkGroups

  // ---- the needs shown by parts of the list

  lemma {:induction false} RowNeedsConcat(a: seq<WalkItem>, b: seq<WalkItem>)
    ensures RowNeeds(a + b) == RowNeeds(a) + RowNeeds(b)
  {
    if b == [] {
      assert a + b == a;
    } else {
      var init := b[..|b| - 1];
      RowNeedsConcat(a, init);
      assert (a + b)[..|a + b| - 1] == a + init;
    }
  }

  lemma RowNeedsAppend(items: seq<WalkItem>, x: WalkItem)
    ensures RowNeeds(items + [x]) == if x.Row? then RowNeeds(items) + [x.need] else RowNeeds(items)
  {
    assert (items + [x])[..|items|] == items;
  }

  lemma OneMemberRows(items: seq<WalkItem>, row: WalkItem, line: WalkItem, cutHere: bool)
    requires row.Row? && line.Cutline?
    ensures RowNeeds(items + [row] + (if cutHere then [line] else [])) == RowNeeds(items) + [row.need]
  {
    RowNeedsAppend(items, row);
    RowNeedsAppend(items + [row], line);
    assert items + [row] + [] == items + [row];
  }

  lemma {:induction false} MemberItemsRows(fp: string, g: seq<Need>, cut: int, k: nat)
    requires k <= |g|
    ensures RowNeeds(MemberItems(fp, g, cut, k)) == g[..k]
  {
    if k == 0 {
    } else {
      MemberItemsRows(fp, g, cut, k - 1);
      OneMemberRows(MemberItems(fp, g, cut, k - 1), MemberRow(fp, k - 1, g[k - 1]),
                    Cutline(CutKey(fp), |g| - k), k - 1 == cut);
      assert g[..k] == g[..k - 1] + [g[k - 1]];
    }
  }

  lemma CohortItemsRows(fp: string, g: seq<Need>, cut: int)
    ensures RowNeeds(CohortItems(fp, g, cut)) == g
  {
    var head := [HeaderItem(fp, g)];
    assert head[..0] == [];
    RowNeedsConcat(head, MemberItems(fp, g, cut, |g|));
    MemberItemsRows(fp, g, cut, |g|);
    assert g[..|g|] == g;
  }

  lemma {:induction false} TailItemsRows(flat: seq<Need>)
    ensures RowNeeds(TailItems(flat)) == flat
  {
    if flat == [] {
    } else {
      InitLast(flat);
      var init := flat[..|flat| - 1];
      TailItemsRows(init);
      assert TailItems(flat)[..|flat| - 1] == TailItems(init);
    }
  }

  // ---- conservation

  /** The cohorts together show every need of their fingerprints, as often as the list has it. */
  lemma {:induction false} CohortsCount(order: seq<string>, sorted: seq<Need>, n: Need)
    requires NoDup(order)
    ensures multiset(RowNeeds(Cohorts(order, sorted)))[n] == if Fp(n) in order then multiset(sorted)[n] else 0
  {
    if order == [] {
    } else {
      InitLast(order);
      var init, fp := order[..|order| - 1], order[|order| - 1];
      CohortsCount(init, sorted, n);
      var g := Members(fp, sorted);
      var cut := FirstCut(g, 0);
      RowNeedsConcat(Cohorts(init, sorted), CohortItems(fp, g, cut));
      CohortItemsRows(fp, g, cut);
      MembersCount(fp, sorted, n);
    }
  }

  lemma {:induction false} SinglesCount(fps: seq<string>, sorted: seq<Need>, n: Need)
    requires NoDup(fps)
    ensures multiset(Singles(fps, sorted))[n]
         == if Fp(n) in fps && |Members(Fp(n), sorted)| < 2 then multiset(sorted)[n] else 0
  {
    if fps == [] {
    } else {
      InitLast(fps);
      SinglesCount(fps[..|fps| - 1], sorted, n);
      MembersCount(fps[|fps| - 1], sorted, n);
    }
  }

  /** A need has a place in a cohort when at least two needs share its fingerprint. */
  predicate InCohort(rows: seq<Need>, showCluster: bool, n: Need) {
    Grouped(n, showCluster) && |Members(Fp(n), rows)| >= 2
  }

  lemma {:induction false} MembersPermuted(fp: string, xs: seq<Need>, ys: seq<Need>)
    requires multiset(xs) == multiset(ys)
    ensures multiset(Members(fp, xs)) == multiset(Members(fp, ys))
    ensures |Members(fp, xs)| == |Members(fp, ys)|
  {
    forall n ensures multiset(Members(fp, xs))[n] == multiset(Members(fp, ys))[n] {
      MembersCount(fp, xs, n);
      MembersCount(fp, ys, n);
    }
    SameElements(Members(fp, xs), Members(fp, ys));
  }

  /** The flat list holds exactly the needs that no cohort holds. */
  lemma LeftoverCount(sorted: seq<Need>, showCluster: bool, n: Need)
    ensures multiset(Leftover(sorted, showCluster))[n]
         == if InCohort(sorted, showCluster, n) then 0 else multiset(sorted)[n]
  {
    var fps := FirstSeen(sorted, showCluster);
    FirstSeenExact(sorted, showCluster);
    UngroupedCount(sorted, showCluster, n);
    SinglesCount(fps, sorted, n);
    assert n in sorted <==> n in multiset(sorted);
  }

  lemma SortedRows(rows: seq<Need>)
    ensures StablySorts(Precedes, rows, StableSort(Precedes, rows))
    ensures multiset(StableSort(Precedes, rows)) == multiset(rows)
  {
    var dom := set n | n in rows;
    PrecedesStrictWeak(dom);
    StableSortStablySorts(Precedes, dom, rows);
  }

  lemma OrderExact(sorted: seq<Need>, showCluster: bool, order: seq<string>)
    requires CohortOrder(sorted, showCluster, order)
    ensures NoDup(order)
    ensures forall fp :: fp in order ==> fp != "" && !showCluster && |Members(fp, sorted)| >= 2
    ensures forall fp | fp != "" && !showCluster && |Members(fp, sorted)| >= 2 :: fp in order
  {
    var fps := FirstSeen(sorted, showCluster);
    FirstSeenExact(sorted, showCluster);
    ContendedExact(fps, sorted);
    NoDupPermuted(Contended(fps, sorted), order);
    SameElements(Contended(fps, sorted), order);
    forall fp: string | fp != "" && !showCluster && |Members(fp, sorted)| >= 2 ensures fp in order {
      var n := Members(fp, sorted)[0];
      MembersExact(fp, sorted, n);
      assert n in Members(fp, sorted);
      assert Grouped(n, showCluster);
      assert fp in fps;
      assert fp in Contended(fps, sorted);
    }
  }

  /** Every need has its place either in a cohort or in the flat list. */
  lemma PlacedOnce(sorted: seq<Need>, showCluster: bool, order: seq<string>, n: Need)
    requires CohortOrder(sorted, showCluster, order)
    ensures multiset(RowNeeds(Cohorts(order, sorted)))[n] + multiset(Leftover(sorted, showCluster))[n]
         == multiset(sorted)[n]
  {
    OrderExact(sorted, showCluster, order);
    CohortsCount(order, sorted, n);
    LeftoverCount(sorted, showCluster, n);
    assert InCohort(sorted, showCluster, n) <==> Fp(n) in order;
  }

  lemma SortedSame(rows: seq<Need>)
    ensures multiset(StableSort(Precedes, rows)) == multiset(rows)
  {
    SortedRows(rows);
  }

  lemma WalkRows(rows: seq<Need>, showCluster: bool, order: seq<string>)
    ensures var sorted := StableSort(Precedes, rows);
      RowNeeds(Walk(rows, showCluster, order))
      == RowNeeds(Cohorts(order, sorted)) + StableSort(Precedes, Leftover(sorted, showCluster))
  {
    var sorted := StableSort(Precedes, rows);
    var tail := StableSort(Precedes, Leftover(sorted, showCluster));
    RowNeedsConcat(Cohorts(order, sorted), TailItems(tail));
    TailItemsRows(tail);
  }

  lemma AllPlaced(sorted: seq<Need>, showCluster: bool, order: seq<string>)
    requires CohortOrder(sorted, showCluster, order)
    ensures multiset(RowNeeds(Cohorts(order, sorted))) + multiset(Leftover(sorted, showCluster)) == multiset(sorted)
  {
    forall n ensures multiset(RowNeeds(Cohorts(order, sorted)))[n] + multiset(Leftover(sorted, showCluster))[n]
                  == multiset(sorted)[n] {
      PlacedOnce(sorted, showCluster, order, n);
    }
  }

  /** The list shows every need of the input exactly as often as the input has it. */
  lemma Conservation(rows: seq<Need>, showCluster: bool, items: seq<WalkItem>)
    requires IsWalk(rows, showCluster, items)
    ensures multiset(RowNeeds(items)) == multiset(rows)
  {
    var sorted := StableSort(Precedes, rows);
    var order :| CohortOrder(sorted, showCluster, order) && items == Walk(rows, showCluster, order);
    WalkRows(rows, showCluster, order);
    AllPlaced(sorted, showCluster, order);
    SortedSame(rows);
    SortedSame(Leftover(sorted, showCluster));
  }

  // ---- the shape of one cohort

  /** The block of one fingerprint, described by what can be seen in the list:
      a header that counts the rows below it, then the needs of the fingerprint in
      precedence order, then at most one cut-line. The cut-line stands directly below
      the first need that claimed machines while the next one is unmet with none, and
      counts the rows below it. */
  ghost predicate CohortBlock(rows: seq<Need>, fp: string, c: seq<WalkItem>) {
    var g := RowNeeds(c);
    && StablySorts(Precedes, Members(fp, rows), g)
    && c != [] && c[0].Header?
    && c[0].fingerprint == fp && c[0].count == |g|
    && (c[0].contested <==> exists n :: n in g && !n.satisfied)
    && IsFirstSupply(g, c[0].supply)
    && (forall p | 0 <= p < |c| :: c[p].Header? <==> p == 0)
    && ((exists p :: 0 <= p < |c| && c[p].Cutline?) <==> (exists i :: CutAt(g, i)))
    && (forall p | 0 <= p < |c| && c[p].Cutline? :: CutLineAt(g, c, p))
    && (forall p | 0 <= p < |c| :: KeyOfPart(fp, g, c[p]))
  }

  /** The key of a header, a cut-line and the i-th row of a cohort. */
  ghost predicate KeyOfPart(fp: string, g: seq<Need>, x: WalkItem) {
    match x
    case Header(key, _, _, _, _) => key == "h:" + fp
    case Cutline(key, _) => key == "c:" + fp
    case Row(key, n) => exists i :: 0 <= i < |g| && g[i] == n && key == "r:" + fp + ":" + NatStr(i)
  }

  lemma PartKeys(fp: string, g: seq<Need>, cut: int, p: nat)
    requires IsCut(g, cut) && p < |CohortItems(fp, g, cut)|
    ensures KeyOfPart(fp, g, CohortItems(fp, g, cut)[p])
  {
    CohortItemsAt(fp, g, cut);
    var x := ItemAt(fp, g, cut, p);
    if x.Row? {
      var i: nat := if cut == -1 || p <= cut + 1 then p - 1 else p - 2;
      assert x == MemberRow(fp, i, g[i]);
    }
  }

  /** supply is that of the first need that carries one, or none if no need does. */
  ghost predicate IsFirstSupply(g: seq<Need>, supply: Option<Supply>) {
    if supply.None? then forall n | n in g :: n.matchingSupply.None?
    else exists i :: FirstSupplyAt(g, supply, i)
  }

  ghost predicate FirstSupplyAt(g: seq<Need>, supply: Option<Supply>, i: int) {
    && 0 <= i < |g| && g[i].matchingSupply == supply
    && forall j | 0 <= j < i :: g[j].matchingSupply.None?
  }

  lemma {:induction false} PoolIsFirstSupply(g: seq<Need>)
    ensures IsFirstSupply(g, Pool(g))
  {
    if g != [] && g[0].matchingSupply.Some? {
      assert FirstSupplyAt(g, Pool(g), 0);
    } else if g != [] {
      var rest := g[1..];
      PoolIsFirstSupply(rest);
      if Pool(g).Some? {
        var i :| FirstSupplyAt(rest, Pool(g), i);
        forall j | 0 <= j < i + 1 ensures g[j].matchingSupply.None? {
          assert j > 0 ==> g[j] == rest[j - 1];
        }
        assert FirstSupplyAt(g, Pool(g), i + 1);
      } else {
        forall n | n in g ensures n.matchingSupply.None? {
          assert n == g[0] || n in rest;
        }
      }
    }
  }

  ghost predicate CutLineAt(g: seq<Need>, c: seq<WalkItem>, p: nat)
    requires p < |c| && c[p].Cutline?
  {
    && 2 <= p < |c| - 1
    && IsCut(g, p - 2)
    && c[p - 1].Row? && c[p - 1].need == g[p - 2]
    && c[p + 1].Row? && c[p + 1].need == g[p - 1]
    && c[p].below == |RowNeeds(c[p + 1..])| >= 1
    && c[0].Header? && c[0].contested
  }

  lemma {:induction false} FirstCutIsCut(g: seq<Need>, i: nat)
    requires i <= |g| && forall j | 0 <= j < i :: !CutAt(g, j)
    ensures IsCut(g, FirstCut(g, i))
    decreases |g| - i
  {
    if i >= |g| - 1 || CutAt(g, i) {
    } else {
      FirstCutIsCut(g, i + 1);
    }
  }

  /** The item at position p of a cohort. */
  function ItemAt(fp: string, g: seq<Need>, cut: int, p: nat): WalkItem
    requires p <= |g| || (cut >= 0 && p == |g| + 1)
    requires -1 <= cut < |g|
  {
    if p == 0 then HeaderItem(fp, g)
    else if cut == -1 || p <= cut + 1 then MemberRow(fp, p - 1, g[p - 1])
    else if p == cut + 2 then Cutline(CutKey(fp), |g| - cut - 1)
    else MemberRow(fp, p - 2, g[p - 2])
  }

  lemma {:induction false} MemberItemsAt(fp: string, g: seq<Need>, cut: int, k: nat)
    requires k <= |g| && -1 <= cut < |g|
    ensures |MemberItems(fp, g, cut, k)| == k + (if 0 <= cut < k then 1 else 0)
    ensures forall p: nat | p < |MemberItems(fp, g, cut, k)| ::
      MemberItems(fp, g, cut, k)[p] == ItemAt(fp, g, cut, p + 1)
  {
    if k == 0 {
    } else {
      MemberItemsAt(fp, g, cut, k - 1);
      var front := MemberItems(fp, g, cut, k - 1);
      var m := MemberItems(fp, g, cut, k);
      assert m[..|front|] == front;
      assert m[|front|] == MemberRow(fp, k - 1, g[k - 1]) == ItemAt(fp, g, cut, |front| + 1);
      if k - 1 == cut {
        assert m[|front| + 1] == ItemAt(fp, g, cut, |front| + 2);
      }
      forall p: nat | p < |m| ensures m[p] == ItemAt(fp, g, cut, p + 1) {
        if p < |front| {
          assert m[p] == front[p];
        }
      }
    }
  }

  /** Where each item of a cohort stands. */
  lemma CohortItemsAt(fp: string, g: seq<Need>, cut: int)
    requires IsCut(g, cut)
    ensures |CohortItems(fp, g, cut)| == |g| + (if cut == -1 then 1 else 2)
    ensures forall p: nat | p < |CohortItems(fp, g, cut)| ::
      CohortItems(fp, g, cut)[p] == ItemAt(fp, g, cut, p)
  {
    var m := MemberItems(fp, g, cut, |g|);
    var c := CohortItems(fp, g, cut);
    MemberItemsAt(fp, g, cut, |g|);
    forall p: nat | p < |c| ensures c[p] == ItemAt(fp, g, cut, p) {
      if p > 0 {
        assert c[p] == m[p - 1];
      }
    }
  }

  lemma {:induction false} TiedWithAppend<T>(less: (T, T) -> bool, x: T, ys: seq<T>, y: T)
    ensures TiedWith(less, x, ys + [y]) == TiedWith(less, x, ys) + (if Tied(less, x, y) then [y] else [])
  {
    if ys == [] {
      assert TiedWith(less, x, [y][1..]) == [];
    } else {
      TiedWithAppend(less, x, ys[1..], y);
      assert (ys + [y])[1..] == ys[1..] + [y];
      ConcatAssociates(if Tied(less, x, ys[0]) then [ys[0]] else [], TiedWith(less, x, ys[1..]),
                       if Tied(less, x, y) then [y] else []);
    }
  }

  /** Selecting a group and selecting ties commute. */
  lemma {:induction false} TiedMembers(fp: string, x: Need, xs: seq<Need>)
    ensures TiedWith(Precedes, x, Members(fp, xs)) == Members(fp, TiedWith(Precedes, x, xs))
  {
    if xs == [] {
    } else {
      InitLast(xs);
      var init, n := xs[..|xs| - 1], xs[|xs| - 1];
      TiedMembers(fp, x, init);
      FilterAppend(Shares(fp), init, n);
      TiedWithAppend(Precedes, x, init, n);
      TiedWithAppend(Precedes, x, Members(fp, init), n);
      FilterAppend(Shares(fp), TiedWith(Precedes, x, init), n);
      assert Fp(n) != fp ==> Members(fp, xs) == Members(fp, init);
      assert !Tied(Precedes, x, n) ==> TiedWith(Precedes, x, xs) == TiedWith(Precedes, x, init);
    }
  }

  /** Grouping a stably sorted list gives stably sorted groups. */
  lemma MembersStablySorted(fp: string, rows: seq<Need>)
    ensures StablySorts(Precedes, Members(fp, rows), Members(fp, StableSort(Precedes, rows)))
  {
    var sorted := StableSort(Precedes, rows);
    SortedRows(rows);
    MembersPermuted(fp, rows, sorted);
    MembersSorted(fp, sorted);
    forall x | x in Members(fp, rows)
      ensures TiedWith(Precedes, x, Members(fp, sorted)) == TiedWith(Precedes, x, Members(fp, rows))
    {
      MembersExact(fp, rows, x);
      TiedMembers(fp, x, sorted);
      TiedMembers(fp, x, rows);
    }
  }

  lemma {:induction false} OnlyRows(items: seq<WalkItem>)
    requires forall x | x in items :: x.Row?
    ensures |RowNeeds(items)| == |items|
  {
    if items == [] {
    } else {
      InitLast(items);
      OnlyRows(items[..|items| - 1]);
    }
  }

  /** Below the cut-line there are rows only, one for each remaining member. */
  lemma RowsBelow(fp: string, g: seq<Need>, cut: int)
    requires IsCut(g, cut) && cut >= 0
    ensures |CohortItems(fp, g, cut)| > cut + 3
    ensures |RowNeeds(CohortItems(fp, g, cut)[cut + 3..])| == |g| - cut - 1
  {
    var c := CohortItems(fp, g, cut);
    CohortItemsAt(fp, g, cut);
    var bottom := c[cut + 3..];
    forall x | x in bottom ensures x.Row? {
      var p :| 0 <= p < |bottom| && bottom[p] == x;
      assert x == c[cut + 3 + p] == ItemAt(fp, g, cut, cut + 3 + p);
    }
    OnlyRows(bottom);
  }

  lemma CutLineHolds(fp: string, g: seq<Need>, cut: int, p: nat)
    requires IsCut(g, cut)
    requires p < |CohortItems(fp, g, cut)| && CohortItems(fp, g, cut)[p].Cutline?
    ensures cut >= 0 && CutLineAt(g, CohortItems(fp, g, cut), p)
  {
    var c := CohortItems(fp, g, cut);
    CohortItemsAt(fp, g, cut);
    assert c[p] == ItemAt(fp, g, cut, p);
    RowsBelow(fp, g, cut);
    assert c[p - 1] == ItemAt(fp, g, cut, p - 1);
    assert c[p + 1] == ItemAt(fp, g, cut, p + 1);
    assert c[0] == ItemAt(fp, g, cut, 0);
  }

  lemma OneHeader(fp: string, g: seq<Need>, cut: int)
    requires IsCut(g, cut)
    ensures var c := CohortItems(fp, g, cut);
      forall p | 0 <= p < |c| :: c[p].Header? <==> p == 0
  {
    CohortItemsAt(fp, g, cut);
  }

  lemma CutLineShown(fp: string, g: seq<Need>, cut: int)
    requires IsCut(g, cut)
    ensures var c := CohortItems(fp, g, cut);
      (exists p :: 0 <= p < |c| && c[p].Cutline?) <==> (exists i :: CutAt(g, i))
  {
    var c := CohortItems(fp, g, cut);
    CohortItemsAt(fp, g, cut);
    if cut >= 0 {
      assert CutAt(g, cut) && c[cut + 2] == ItemAt(fp, g, cut, cut + 2);
    }
  }

  lemma CohortHasBlockShape(rows: seq<Need>, fp: string, g: seq<Need>, cut: int)
    requires IsCut(g, cut) && StablySorts(Precedes, Members(fp, rows), g)
    ensures CohortBlock(rows, fp, CohortItems(fp, g, cut))
  {
    var c := CohortItems(fp, g, cut);
    CohortItemsRows(fp, g, cut);
    OneHeader(fp, g, cut);
    CutLineShown(fp, g, cut);
    PoolIsFirstSupply(g);
    assert c[0] == HeaderItem(fp, g);
    forall p | 0 <= p < |c| && c[p].Cutline? ensures CutLineAt(g, c, p) {
      CutLineHolds(fp, g, cut, p);
    }
    forall p | 0 <= p < |c| ensures KeyOfPart(fp, g, c[p]) {
      PartKeys(fp, g, cut, p);
    }
  }

  lemma CohortIsBlock(rows: seq<Need>, fp: string)
    ensures var g := Members(fp, StableSort(Precedes, rows));
      CohortBlock(rows, fp, CohortItems(fp, g, FirstCut(g, 0)))
  {
    var g := Members(fp, StableSort(Precedes, rows));
    MembersStablySorted(fp, rows);
    FirstCutIsCut(g, 0);
    CohortHasBlockShape(rows, fp, g, FirstCut(g, 0));
  }

  // ---- the shape of the whole list

  function Concat(blocks: seq<seq<WalkItem>>): seq<WalkItem> {
    if blocks == [] then [] else Concat(blocks[..|blocks| - 1]) + blocks[|blocks| - 1]
  }

  /** The list is one block per contended fingerprint, blocks ordered by the precedence
      of their top needs, and then a tail of the remaining needs in precedence order. */
  ghost predicate Layout(rows: seq<Need>, showCluster: bool, items: seq<WalkItem>,
                         order: seq<string>, blocks: seq<seq<WalkItem>>, tail: seq<WalkItem>) {
    && items == Concat(blocks) + tail
    && |order| == |blocks| && NoDup(order)
    && (forall fp :: fp in order <==> fp != "" && !showCluster && |Members(fp, rows)| >= 2)
    && (forall b | 0 <= b < |blocks| :: CohortBlock(rows, order[b], blocks[b]))
    && (forall a, b | 0 <= a < b < |blocks| :: HeadsInOrder(blocks[a], blocks[b]))
    && IsTail(tail)
    && Sorted(Precedes, RowNeeds(tail))
    && (forall n :: multiset(RowNeeds(tail))[n] == if InCohort(rows, showCluster, n) then 0 else multiset(rows)[n])
  }

  /** The key of the p-th row of the tail. */
  function KeyInTail(p: nat, n: Need): string {
    var priority := if n.priority < 0 then "-" + NatStr(-n.priority) else NatStr(n.priority);
    "f:" + NatStr(p) + ":" + n.clusterId + ":" + priority
  }

  ghost predicate IsTail(tail: seq<WalkItem>) {
    forall p | 0 <= p < |tail| :: tail[p].Row? && tail[p].key == KeyInTail(p, tail[p].need)
  }

  lemma TailIsTail(flat: seq<Need>)
    ensures IsTail(TailItems(flat))
  {
  }

  ghost predicate HeadsInOrder(upper: seq<WalkItem>, lower: seq<WalkItem>) {
    RowNeeds(upper) != [] && RowNeeds(lower) != [] && !Precedes(RowNeeds(lower)[0], RowNeeds(upper)[0])
  }

  function Blocks(order: seq<string>, sorted: seq<Need>): (r: seq<seq<WalkItem>>)
    ensures |r| == |order|
  {
    seq(|order|, b requires 0 <= b < |order| =>
      var g := Members(order[b], sorted); CohortItems(order[b], g, FirstCut(g, 0)))
  }

  lemma {:induction false} CohortsAreBlocks(order: seq<string>, sorted: seq<Need>)
    ensures Cohorts(order, sorted) == Concat(Blocks(order, sorted))
  {
    if order == [] {
    } else {
      var init := order[..|order| - 1];
      CohortsAreBlocks(init, sorted);
      assert Blocks(order, sorted)[..|order| - 1] == Blocks(init, sorted);
    }
  }

  lemma HeadsOrdered(rows: seq<Need>, showCluster: bool, order: seq<string>)
    requires CohortOrder(StableSort(Precedes, rows), showCluster, order)
    ensures var blocks := Blocks(order, StableSort(Precedes, rows));
      forall a, b | 0 <= a < b < |blocks| :: HeadsInOrder(blocks[a], blocks[b])
  {
    var sorted := StableSort(Precedes, rows);
    var blocks := Blocks(order, sorted);
    OrderExact(sorted, showCluster, order);
    forall a, b | 0 <= a < b < |blocks| ensures HeadsInOrder(blocks[a], blocks[b]) {
      var ga, gb := Members(order[a], sorted), Members(order[b], sorted);
      assert order[a] in order && order[b] in order;
      CohortItemsRows(order[a], ga, FirstCut(ga, 0));
      CohortItemsRows(order[b], gb, FirstCut(gb, 0));
      assert !ByHead(sorted)(order[b], order[a]);
    }
  }

  lemma BlocksHold(rows: seq<Need>, order: seq<string>)
    ensures var blocks := Blocks(order, StableSort(Precedes, rows));
      forall b | 0 <= b < |blocks| :: CohortBlock(rows, order[b], blocks[b])
  {
    forall b | 0 <= b < |order| ensures CohortBlock(rows, order[b], Blocks(order, StableSort(Precedes, rows))[b]) {
      CohortIsBlock(rows, order[b]);
    }
  }

  lemma TailExact(rows: seq<Need>, showCluster: bool, n: Need)
    ensures multiset(StableSort(Precedes, Leftover(StableSort(Precedes, rows), showCluster)))[n]
         == if InCohort(rows, showCluster, n) then 0 else multiset(rows)[n]
  {
    var sorted := StableSort(Precedes, rows);
    SortedRows(rows);
    SortedRows(Leftover(sorted, showCluster));
    LeftoverCount(sorted, showCluster, n);
    MembersPermuted(Fp(n), rows, sorted);
  }

  lemma OrderOfRows(rows: seq<Need>, showCluster: bool, order: seq<string>)
    requires CohortOrder(StableSort(Precedes, rows), showCluster, order)
    ensures NoDup(order)
    ensures forall fp :: fp in order <==> fp != "" && !showCluster && |Members(fp, rows)| >= 2
  {
    var sorted := StableSort(Precedes, rows);
    OrderExact(sorted, showCluster, order);
    SortedSame(rows);
    forall fp: string ensures |Members(fp, rows)| == |Members(fp, sorted)| {
      MembersPermuted(fp, rows, sorted);
    }
  }

  lemma LayoutOf(rows: seq<Need>, showCluster: bool, order: seq<string>)
    requires CohortOrder(StableSort(Precedes, rows), showCluster, order)
    ensures var sorted := StableSort(Precedes, rows);
      var tail := TailItems(StableSort(Precedes, Leftover(sorted, showCluster)));
      Layout(rows, showCluster, Walk(rows, showCluster, order), order, Blocks(order, sorted), tail)
  {
    var sorted := StableSort(Precedes, rows);
    var flat := StableSort(Precedes, Leftover(sorted, showCluster));
    OrderOfRows(rows, showCluster, order);
    CohortsAreBlocks(order, sorted);
    HeadsOrdered(rows, showCluster, order);
    BlocksHold(rows, order);
    SortedRows(Leftover(sorted, showCluster));
    TailItemsRows(flat);
    TailIsTail(flat);
    forall n ensures multiset(flat)[n] == if InCohort(rows, showCluster, n) then 0 else multiset(rows)[n] {
      TailExact(rows, showCluster, n);
    }
  }

  lemma LayoutHolds(rows: seq<Need>, showCluster: bool, items: seq<WalkItem>)
    requires IsWalk(rows, showCluster, items)
    ensures exists order, blocks, tail :: Layout(rows, showCluster, items, order, blocks, tail)
  {
    var order :| CohortOrder(StableSort(Precedes, rows), showCluster, order) && items == Walk(rows, showCluster, order);
    LayoutOf(rows, showCluster, order);
  }

  // ---- item keys

  /** a is determined by a + ":" + x when it has no colon. */
  lemma ColonPrefix(a: string, x: string, b: string, y: string)
    requires a + ":" + x == b + ":" + y
    requires AllDigits(a) && AllDigits(b)
    ensures a == b
  {
    var s, t := a + ":" + x, b + ":" + y;
    assert s[|a|] == ':' && t[|b|] == ':';
    assert forall i | 0 <= i < |a| :: s[i] == a[i];
    assert forall i | 0 <= i < |b| :: t[i] == b[i];
    assert |a| == |b|;
    assert a == s[..|a|] && b == t[..|b|];
  }

  /** x and a are determined by x + ":" + a when a has no colon, whatever x holds. */
  lemma ColonSuffix(x: string, a: string, y: string, b: string)
    requires x + ":" + a == y + ":" + b
    requires AllDigits(a) && AllDigits(b)
    ensures x == y && a == b
  {
    var s, t := x + ":" + a, y + ":" + b;
    assert s[|x|] == ':' && t[|y|] == ':';
    assert forall i | |x| < i < |s| :: s[i] == a[i - |x| - 1];
    assert forall i | |y| < i < |t| :: t[i] == b[i - |y| - 1];
    assert |x| == |y|;
    assert x == s[..|x|] && y == t[..|y|];
    assert a == s[|x| + 1..] && b == t[|y| + 1..];
  }

  /** key belongs to the cohort fp. */
  ghost predicate CohortKey(fp: string, key: string) {
    key == HeaderKey(fp) || key == CutKey(fp) || exists i: nat :: key == RowKey(fp, i)
  }

  lemma RowKeyInjective(fp: string, i: nat, fp': string, j: nat)
    requires RowKey(fp, i) == RowKey(fp', j)
    ensures fp == fp' && i == j
  {
    ColonSuffix("r:" + fp, NatStr(i), "r:" + fp', NatStr(j));
    assert fp == ("r:" + fp)[2..] && fp' == ("r:" + fp')[2..];
    NatStrInjective(i, j);
  }

  /** The first character of a key tells the kinds of items apart. */
  lemma KeyKinds(fp: string, i: nat, n: Need)
    ensures HeaderKey(fp)[0] == 'h' && HeaderKey(fp)[2..] == fp
    ensures CutKey(fp)[0] == 'c' && CutKey(fp)[2..] == fp
    ensures RowKey(fp, i)[0] == 'r'
    ensures TailKey(i, n)[0] == 'f'
  {
  }

  lemma CohortKeyOwner(fp: string, fp': string, key: string)
    requires CohortKey(fp, key) && CohortKey(fp', key)
    ensures fp == fp'
  {
    var i: nat :| key == HeaderKey(fp) || key == CutKey(fp) || key == RowKey(fp, i);
    var j: nat :| key == HeaderKey(fp') || key == CutKey(fp') || key == RowKey(fp', j);
    assert HeaderKey(fp)[0] == 'h' && CutKey(fp)[0] == 'c' && RowKey(fp, i)[0] == 'r';
    assert HeaderKey(fp')[0] == 'h' && CutKey(fp')[0] == 'c' && RowKey(fp', j)[0] == 'r';
    if key[0] == 'r' {
      RowKeyInjective(fp, i, fp', j);
    } else {
      assert key[2..] == fp && key[2..] == fp';
    }
  }

  function KeyRest(n: Need): string {
    n.clusterId + ":" + IntStr(n.priority)
  }

  lemma TailKeyRest(i: nat, n: Need)
    ensures TailKey(i, n)[2..] == NatStr(i) + ":" + KeyRest(n)
  {
  }

  lemma TailKeyInjective(i: nat, n: Need, j: nat, m: Need)
    requires TailKey(i, n) == TailKey(j, m)
    ensures i == j
  {
    TailKeyRest(i, n);
    TailKeyRest(j, m);
    ColonPrefix(NatStr(i), KeyRest(n), NatStr(j), KeyRest(m));
    NatStrInjective(i, j);
  }

  ghost predicate DistinctItemKeys(items: seq<WalkItem>) {
    forall p, q | 0 <= p < q < |items| :: items[p].key != items[q].key
  }

  lemma ItemKeysDiffer(fp: string, g: seq<Need>, cut: int, p: nat, q: nat)
    requires p < q && (q <= |g| || (cut >= 0 && q == |g| + 1))
    requires -1 <= cut < |g|
    ensures ItemAt(fp, g, cut, p).key != ItemAt(fp, g, cut, q).key
    ensures CohortKey(fp, ItemAt(fp, g, cut, p).key) && CohortKey(fp, ItemAt(fp, g, cut, q).key)
  {
    var i: nat := if cut == -1 || p <= cut + 1 then p else p - 1;
    var j: nat := if cut == -1 || q <= cut + 1 then q - 1 else q - 2;
    var a, b := RowKey(fp, if i == 0 then 0 else i - 1), RowKey(fp, j);
    assert HeaderKey(fp)[0] == 'h' && CutKey(fp)[0] == 'c' && a[0] == 'r' && b[0] == 'r';
    if a == b {
      RowKeyInjective(fp, if i == 0 then 0 else i - 1, fp, j);
    }
  }

  lemma CohortItemKeys(fp: string, g: seq<Need>, cut: int)
    requires IsCut(g, cut) && g != []
    ensures DistinctItemKeys(CohortItems(fp, g, cut))
    ensures forall x | x in CohortItems(fp, g, cut) :: CohortKey(fp, x.key)
  {
    var c := CohortItems(fp, g, cut);
    CohortItemsAt(fp, g, cut);
    forall p, q | 0 <= p < q < |c|
      ensures c[p].key != c[q].key && CohortKey(fp, c[p].key) && CohortKey(fp, c[q].key)
    {
      ItemKeysDiffer(fp, g, cut, p, q);
    }
    forall x | x in c ensures CohortKey(fp, x.key) {
      var p :| 0 <= p < |c| && c[p] == x;
      assert c[0].key != c[1].key;
      if p == 0 {
        assert CohortKey(fp, c[0].key) && c[0].key != c[1].key;
      } else {
        assert c[0].key != c[p].key;
      }
    }
  }

  ghost predicate OwnedBy(order: seq<string>, key: string) {
    exists fp :: fp in order && CohortKey(fp, key)
  }

  /** Appending a block whose keys nobody owned keeps all keys apart. */
  lemma AppendKeys(front: seq<WalkItem>, c: seq<WalkItem>)
    requires DistinctItemKeys(front) && DistinctItemKeys(c)
    requires forall x, y | x in front && y in c :: x.key != y.key
    ensures DistinctItemKeys(front + c)
  {
    var all := front + c;
    forall p, q | 0 <= p < q < |all| ensures all[p].key != all[q].key {
      if q < |front| {
        assert all[p] == front[p] && all[q] == front[q];
      } else if p < |front| {
        assert all[p] == front[p] && all[q] == c[q - |front|];
        assert front[p] in front && c[q - |front|] in c;
      } else {
        assert all[p] == c[p - |front|] && all[q] == c[q - |front|];
      }
    }
  }

  lemma {:induction false} CohortsKeys(order: seq<string>, sorted: seq<Need>)
    requires NoDup(order)
    requires forall fp | fp in order :: Members(fp, sorted) != []
    ensures DistinctItemKeys(Cohorts(order, sorted))
    ensures forall x | x in Cohorts(order, sorted) :: OwnedBy(order, x.key)
  {
    if order == [] {
    } else {
      InitLast(order);
      var init, fp := order[..|order| - 1], order[|order| - 1];
      var g := Members(fp, sorted);
      var cut := FirstCut(g, 0);
      CohortsKeys(init, sorted);
      FirstCutIsCut(g, 0);
      assert fp in order;
      CohortItemKeys(fp, g, cut);
      var front, c := Cohorts(init, sorted), CohortItems(fp, g, cut);
      forall x, y | x in front && y in c ensures x.key != y.key {
        if x.key == y.key {
          var f :| f in init && CohortKey(f, x.key);
          CohortKeyOwner(f, fp, x.key);
        }
      }
      AppendKeys(front, c);
      forall x | x in Cohorts(order, sorted) ensures OwnedBy(order, x.key) {
        if x in front {
          var f :| f in init && CohortKey(f, x.key);
          assert f in order;
        } else {
          assert x in c;
        }
      }
    }
  }

  lemma TailKeys(flat: seq<Need>)
    ensures DistinctItemKeys(TailItems(flat))
    ensures forall x | x in TailItems(flat) :: x.key != [] && x.key[0] == 'f'
  {
    var tail := TailItems(flat);
    forall p, q | 0 <= p < q < |tail| ensures tail[p].key != tail[q].key {
      if TailKey(p, flat[p]) == TailKey(q, flat[q]) {
        TailKeyInjective(p, flat[p], q, flat[q]);
      }
    }
    forall x | x in tail ensures x.key != [] && x.key[0] == 'f' {
      var p :| 0 <= p < |tail| && tail[p] == x;
      KeyKinds("", p, flat[p]);
    }
  }

  /** React keys never clash, even when fingerprints or cluster ids hold colons. */
  lemma KeysDistinct(rows: seq<Need>, showCluster: bool, items: seq<WalkItem>)
    requires IsWalk(rows, showCluster, items)
    ensures DistinctItemKeys(items)
  {
    var sorted := StableSort(Precedes, rows);
    var order :| CohortOrder(sorted, showCluster, order) && items == Walk(rows, showCluster, order);
    OrderExact(sorted, showCluster, order);
    CohortsKeys(order, sorted);
    var flat := StableSort(Precedes, Leftover(sorted, showCluster));
    TailKeys(flat);
    var top, tail := Cohorts(order, sorted), TailItems(flat);
    forall x, y | x in top && y in tail ensures x.key != y.key {
      assert OwnedBy(order, x.key);
      var fp :| fp in order && CohortKey(fp, x.key);
      var i: nat :| x.key == HeaderKey(fp) || x.key == CutKey(fp) || x.key == RowKey(fp, i);
      assert x.key[0] != 'f';
    }
    AppendKeys(top, tail);
  }

  // ---- determinism

  lemma HeadStays(xs: seq<Need>, fp: string)
    requires xs != [] && Members(fp, xs[..|xs| - 1]) != []
    ensures Members(fp, xs) != [] && Members(fp, xs)[0] == Members(fp, xs[..|xs| - 1])[0]
  {
  }

  lemma HeadOrderStays(xs: seq<Need>, a: string, b: string)
    requires xs != [] && Members(a, xs[..|xs| - 1]) != [] && Members(b, xs[..|xs| - 1]) != []
    ensures HeadPrecedes(xs, a, b) <==> HeadPrecedes(xs[..|xs| - 1], a, b)
  {
    HeadStays(xs, a);
    HeadStays(xs, b);
  }

  /** A fingerprint that the last need brings in does not come before the earlier ones. */
  lemma NewHeadIsLast(xs: seq<Need>, a: string, fp: string)
    requires xs != [] && Sorted(Precedes, xs)
    requires Members(a, xs[..|xs| - 1]) != [] && Members(fp, xs[..|xs| - 1]) == []
    ensures !HeadPrecedes(xs, fp, a)
  {
    var init := xs[..|xs| - 1];
    HeadStays(xs, a);
    var head := Members(a, init)[0];
    MembersExact(a, init, head);
    assert head in Members(a, init);
    var k :| 0 <= k < |init| && init[k] == head;
    assert !Precedes(xs[|xs| - 1], xs[k]);
  }

  lemma SortedAppend<T>(less: (T, T) -> bool, xs: seq<T>, x: T)
    requires Sorted(less, xs) && forall i | 0 <= i < |xs| :: !less(x, xs[i])
    ensures Sorted(less, xs + [x])
  {
  }

  /** The map already holds the cohorts in the order of their heads, so sorting them
      again can only move cohorts whose heads tie. */
  lemma {:induction false} FirstSeenSorted(xs: seq<Need>, showCluster: bool)
    requires Sorted(Precedes, xs)
    ensures Sorted(ByHead(xs), FirstSeen(xs, showCluster))
  {
    if xs == [] {
    } else {
      var init, fp := xs[..|xs| - 1], Fp(xs[|xs| - 1]);
      FirstSeenSorted(init, showCluster);
      FirstSeenExact(init, showCluster);
      var seen := FirstSeen(init, showCluster);
      forall i, j | 0 <= i < j < |seen| ensures !ByHead(xs)(seen[j], seen[i]) {
        assert seen[i] in seen && seen[j] in seen && !ByHead(init)(seen[j], seen[i]);
        HeadOrderStays(xs, seen[j], seen[i]);
      }
      if FirstSeen(xs, showCluster) != seen {
        NoMembers(fp, init, showCluster);
        forall i | 0 <= i < |seen| ensures !ByHead(xs)(fp, seen[i]) {
          assert seen[i] in seen;
          NewHeadIsLast(xs, seen[i], fp);
        }
        SortedAppend(ByHead(xs), seen, fp);
      }
    }
  }

  lemma HeadsTotal(xs: seq<Need>, dom: set<string>)
    requires NoTies(xs)
    requires forall fp | fp in dom :: Members(fp, xs) != []
    ensures TotalOn(ByHead(xs), dom)
  {
    forall a, b | a in dom && b in dom && a != b ensures ByHead(xs)(a, b) || ByHead(xs)(b, a) {
      var x, y := Members(a, xs)[0], Members(b, xs)[0];
      MembersExact(a, xs, x);
      MembersExact(b, xs, y);
      assert x in Members(a, xs) && y in Members(b, xs);
    }
  }

  lemma CohortOrderUnique(sorted: seq<Need>, showCluster: bool, order: seq<string>, order': seq<string>)
    requires NoTies(sorted)
    requires CohortOrder(sorted, showCluster, order) && CohortOrder(sorted, showCluster, order')
    ensures order == order'
  {
    var fps := FirstSeen(sorted, showCluster);
    FirstSeenExact(sorted, showCluster);
    var keys := Contended(fps, sorted);
    ContendedExact(fps, sorted);
    var dom := set fp | fp in keys;
    assert forall fp | fp in dom :: fp in fps;
    HeadsStrictWeak(sorted, dom);
    HeadsTotal(sorted, dom);
    SortsUnique(ByHead(sorted), dom, keys, keys, order, order');
  }

  lemma {:induction false} ContendedSorted(fps: seq<string>, xs: seq<Need>)
    requires NoDup(fps) && Sorted(ByHead(xs), fps)
    ensures Sorted(ByHead(xs), Contended(fps, xs))
  {
    if fps == [] {
    } else {
      var init, fp := fps[..|fps| - 1], fps[|fps| - 1];
      ContendedSorted(init, xs);
      ContendedExact(init, xs);
      var kept := Contended(init, xs);
      forall i | 0 <= i < |kept| ensures !ByHead(xs)(fp, kept[i]) {
        assert kept[i] in kept && kept[i] in init;
        var j :| 0 <= j < |init| && init[j] == kept[i];
        assert !ByHead(xs)(fps[|fps| - 1], fps[j]);
      }
    }
  }

  /** The cohort sort is superfluous: the map lists the cohorts by their heads already,
      and when no two different needs tie no other order is left. */
  lemma CohortSortIsIdentity(rows: seq<Need>, showCluster: bool, order: seq<string>)
    ensures var sorted := StableSort(Precedes, rows);
      var keys := Contended(FirstSeen(sorted, showCluster), sorted);
      && CohortOrder(sorted, showCluster, keys)
      && (NoTies(rows) && CohortOrder(sorted, showCluster, order) ==> order == keys)
  {
    var sorted := StableSort(Precedes, rows);
    var fps := FirstSeen(sorted, showCluster);
    SortedRows(rows);
    FirstSeenExact(sorted, showCluster);
    FirstSeenSorted(sorted, showCluster);
    ContendedSorted(fps, sorted);
    if NoTies(rows) && CohortOrder(sorted, showCluster, order) {
      SameElements(rows, sorted);
      CohortOrderUnique(sorted, showCluster, order, Contended(fps, sorted));
    }
  }

  /** There is a list for every input, so what is said of all lists is not said of nothing. */
  lemma WalkExists(rows: seq<Need>, showCluster: bool) returns (items: seq<WalkItem>)
    ensures IsWalk(rows, showCluster, items)
  {
    var sorted := StableSort(Precedes, rows);
    var order := Contended(FirstSeen(sorted, showCluster), sorted);
    CohortSortIsIdentity(rows, showCluster, order);
    items := Walk(rows, showCluster, order);
  }

  /** When no two different needs tie, the page looks the same in whatever order the needs arrive. */
  lemma Deterministic(rows: seq<Need>, rows': seq<Need>, showCluster: bool,
                      items: seq<WalkItem>, items': seq<WalkItem>)
    requires NoTies(rows) && multiset(rows) == multiset(rows')
    requires IsWalk(rows, showCluster, items) && IsWalk(rows', showCluster, items')
    ensures items == items'
  {
    var sorted, sorted' := StableSort(Precedes, rows), StableSort(Precedes, rows');
    var order :| CohortOrder(sorted, showCluster, order) && items == Walk(rows, showCluster, order);
    var order' :| CohortOrder(sorted', showCluster, order') && items' == Walk(rows', showCluster, order');
    SortedRows(rows);
    SortedRows(rows');
    var dom := set n | n in rows;
    PrecedesStrictWeak(dom);
    NoTiesTotal(rows);
    SortsUnique(Precedes, dom, rows, rows', sorted, sorted');
    SameElements(rows, sorted);
    CohortOrderUnique(sorted, showCluster, order, order');
  }
}
