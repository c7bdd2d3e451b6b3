/** The Needs walk in terms of the fields of the needs alone: what the page shows, without the
    vocabulary in which the walk is specified (buildWalk in ui/src/pages/Needs.tsx). */
module WalkFields {
  import opened Prelude
  import opened Sorting
  import opened Needs
  import opened WalkSpec
  import opened WalkGroups
  import opened WalkTheorems

  predicate Has(n: Need, fp: string) {
    n.profileFingerprint == Some(fp)
  }

  /** Two needs of the list carry the fingerprint. */
  ghost predicate Shared(rows: seq<Need>, fp: string) {
    exists i, j :: 0 <= i < j < |rows| && Has(rows[i], fp) && Has(rows[j], fp)
  }

  /** Supply ran out between a and the need below it. */
  predicate RanOut(a: Need, b: Need) {
    a.claimedMachineCount > 0 && !b.satisfied && b.claimedMachineCount == 0
  }

  ghost predicate RanOutAt(g: seq<Need>, i: int) {
    0 <= i < |g| - 1 && RanOut(g[i], g[i + 1])
  }

  /** The block of one fingerprint: a header that counts the rows below it, exactly the needs
      with that fingerprint in order, and one cut-line where supply first ran out, if it did. */
  ghost predicate ShownBlock(rows: seq<Need>, fp: string, c: seq<WalkItem>) {
    var g := RowNeeds(c);
    && (forall n :: multiset(g)[n] == if Has(n, fp) then multiset(rows)[n] else 0)
    && |g| >= 2 && InOrder(g)
    && c != [] && c[0].Header?
    && c[0].fingerprint == fp && c[0].count == |g|
    && (c[0].contested <==> exists n :: n in g && !n.satisfied)
    && IsFirstSupply(g, c[0].supply)
    && (forall p | 0 < p < |c| :: !c[p].Header?)
    && ((exists p :: 0 <= p < |c| && c[p].Cutline?) <==> (exists i :: RanOutAt(g, i)))
    && (forall p | 0 <= p < |c| && c[p].Cutline? :: ShownCut(g, c, p))
    && (forall p | 0 <= p < |c| :: KeyOfPart(fp, g, c[p]))
  }

  /** The cut-line stands below the first need that claimed machines while the next one is unmet
      with none, and counts the rows below it. */
  ghost predicate ShownCut(g: seq<Need>, c: seq<WalkItem>, p: int)
    requires 0 <= p < |c| && c[p].Cutline?
  {
    && 2 <= p < |c| - 1 && c[p - 1].Row? && c[p + 1].Row?
    && RanOut(c[p - 1].need, c[p + 1].need)
    && (forall i | 0 <= i < p - 2 :: !RanOutAt(g, i))
    && c[p].below == |RowNeeds(c[p + 1..])| >= 1
  }

  /** The list is one block per shared fingerprint, unless all clusters are shown, with the
      blocks ordered by their top needs, and then the other needs in order. */
  ghost predicate ShownList(rows: seq<Need>, showCluster: bool, items: seq<WalkItem>,
                            order: seq<string>, blocks: seq<seq<WalkItem>>, tail: seq<WalkItem>) {
    && items == Concat(blocks) + tail
    && |order| == |blocks| && NoDup(order)
    && (forall fp :: fp in order <==> fp != "" && !showCluster && Shared(rows, fp))
    && (forall b | 0 <= b < |blocks| :: ShownBlock(rows, order[b], blocks[b]))
    && (forall a, b | 0 <= a < b < |blocks| :: HeadOutranks(blocks[a], blocks[b]))
    && IsTail(tail)
    && InOrder(RowNeeds(tail))
    && (forall n :: multiset(RowNeeds(tail))[n] == if Placed(order, n) then 0 else multiset(rows)[n])
  }

  predicate Placed(order: seq<string>, n: Need) {
    n.profileFingerprint.Some? && n.profileFingerprint.value in order
  }

  ghost predicate HeadOutranks(upper: seq<WalkItem>, lower: seq<WalkItem>) {
    RowNeeds(upper) != [] && RowNeeds(lower) != [] && Outranks(RowNeeds(upper)[0], RowNeeds(lower)[0])
  }

  // ---- what the specification says, in these terms

  lemma MembersHave(fp: string, rows: seq<Need>, n: Need)
    requires fp != ""
    ensures multiset(Members(fp, rows))[n] == if Has(n, fp) then multiset(rows)[n] else 0
  {
    MembersCount(fp, rows, n);
  }

  /** Positions in a filtered list come from positions in the list, in the same order. */
  lemma {:induction false} MembersTwo(fp: string, rows: seq<Need>)
    requires fp != ""
    ensures |Members(fp, rows)| >= 1 <==> exists i :: 0 <= i < |rows| && Has(rows[i], fp)
    ensures |Members(fp, rows)| >= 2 <==> Shared(rows, fp)
  {
    if rows == [] {
    } else {
      var init, last := rows[..|rows| - 1], |rows| - 1;
      MembersTwo(fp, init);
      assert forall i | 0 <= i < last :: rows[i] == init[i];
      if Has(rows[last], fp) {
        if |Members(fp, init)| >= 1 {
          var i :| 0 <= i < |init| && Has(init[i], fp);
          assert Has(rows[i], fp);
          assert Shared(rows, fp);
        }
      }
    }
  }

  lemma CutIsRanOut(g: seq<Need>, i: int)
    ensures CutAt(g, i) <==> RanOutAt(g, i)
  {
  }

  lemma CutIsShown(g: seq<Need>, c: seq<WalkItem>, p: nat)
    requires p < |c| && c[p].Cutline? && CutLineAt(g, c, p)
    ensures ShownCut(g, c, p)
  {
    CutIsRanOut(g, p - 2);
    forall i | 0 <= i < p - 2 ensures !RanOutAt(g, i) {
      CutIsRanOut(g, i);
    }
  }

  lemma BlockIsShown(rows: seq<Need>, fp: string, c: seq<WalkItem>)
    requires fp != "" && CohortBlock(rows, fp, c) && |Members(fp, rows)| >= 2
    ensures ShownBlock(rows, fp, c)
  {
    var g := RowNeeds(c);
    SameElements(g, Members(fp, rows));
    forall n ensures multiset(g)[n] == if Has(n, fp) then multiset(rows)[n] else 0 {
      MembersHave(fp, rows, n);
    }
    SortedInOrder(g);
    forall i ensures CutAt(g, i) <==> RanOutAt(g, i) {
      CutIsRanOut(g, i);
    }
    forall p | 0 <= p < |c| && c[p].Cutline? ensures ShownCut(g, c, p) {
      CutIsShown(g, c, p);
    }
  }

  lemma PlacedExactly(rows: seq<Need>, showCluster: bool, order: seq<string>, n: Need)
    requires forall fp :: fp in order <==> fp != "" && !showCluster && |Members(fp, rows)| >= 2
    ensures InCohort(rows, showCluster, n) <==> Placed(order, n)
  {
  }

  lemma LayoutIsShown(rows: seq<Need>, showCluster: bool, items: seq<WalkItem>,
                      order: seq<string>, blocks: seq<seq<WalkItem>>, tail: seq<WalkItem>)
    requires Layout(rows, showCluster, items, order, blocks, tail)
    ensures ShownList(rows, showCluster, items, order, blocks, tail)
  {
    forall fp ensures fp in order <==> fp != "" && !showCluster && Shared(rows, fp) {
      if fp != "" {
        MembersTwo(fp, rows);
      }
    }
    forall b | 0 <= b < |blocks| ensures ShownBlock(rows, order[b], blocks[b]) {
      assert order[b] in order;
      BlockIsShown(rows, order[b], blocks[b]);
    }
    forall a, b | 0 <= a < b < |blocks| ensures HeadOutranks(blocks[a], blocks[b]) {
      assert HeadsInOrder(blocks[a], blocks[b]);
      OutranksExactly(RowNeeds(blocks[a])[0], RowNeeds(blocks[b])[0]);
    }
    SortedInOrder(RowNeeds(tail));
    forall n ensures multiset(RowNeeds(tail))[n] == if Placed(order, n) then 0 else multiset(rows)[n] {
      PlacedExactly(rows, showCluster, order, n);
    }
  }

  /** Every list that the walk may emit is of this shape. */
  lemma WalkShows(rows: seq<Need>, showCluster: bool, items: seq<WalkItem>)
    requires IsWalk(rows, showCluster, items)
    ensures exists order, blocks, tail :: ShownList(rows, showCluster, items, order, blocks, tail)
  {
    LayoutHolds(rows, showCluster, items);
    var order, blocks, tail :| Layout(rows, showCluster, items, order, blocks, tail);
    LayoutIsShown(rows, showCluster, items, order, blocks, tail);
  }
}
