/** The FinOps matrix (finopsHandler and orderCapacityTypes in pkg/server/handlers_finops.go)
    and its use by the page (PenaltyDistributionSection and MatrixCell in
    ui/src/pages/FinOps.tsx). Counts are exact numbers; QueryVector and QueryByLabel have
    dropped NaN and the infinities. */
module FinOpsMatrix {
  import opened Prelude
  import opened Sorting
  import opened Strings
  import BucketOrder

  datatype LabelledSample = LabelledSample(labels: map<string, string>, value: real)

  type Row = map<string, real>
  type Matrix = map<string, Row>

  const CAPACITY_TYPE := "capacity_type"
  const BUCKET := "interruption_penalty_bucket"

  /** A Go map yields the zero value for an absent key. */
  function Label(s: LabelledSample, name: string): string {
    if name in s.labels then s.labels[name] else ""
  }

  function CapacityType(s: LabelledSample): string {
    Label(s, CAPACITY_TYPE)
  }

  function Bucket(s: LabelledSample): string {
    Label(s, BUCKET)
  }

  predicate Counted(s: LabelledSample) {
    CapacityType(s) != "" && Bucket(s) != ""
  }

  predicate HasCell(m: Matrix, ct: string, bk: string) {
    ct in m && bk in m[ct]
  }

  /** data.configured[ct]?.[b] ?? 0 */
  function Cell(m: Matrix, ct: string, bk: string): real {
    if HasCell(m, ct, bk) then m[ct][bk] else 0.0
  }

  function Put(m: Matrix, ct: string, bk: string, v: real): Matrix {
    m[ct := (if ct in m then m[ct] else map[])[bk := v]]
  }

  predicate IsFor(s: LabelledSample, ct: string, bk: string) {
    Counted(s) && CapacityType(s) == ct && Bucket(s) == bk
  }

  ghost predicate LastFor(samples: seq<LabelledSample>, ct: string, bk: string, k: int) {
    0 <= k < |samples| && IsFor(samples[k], ct, bk) && forall j | k < j < |samples| :: !IsFor(samples[j], ct, bk)
  }

  /** A cell exists when a sample with both labels names it, and holds the last such sample. */
  ghost predicate Accumulates(samples: seq<LabelledSample>, m: Matrix) {
    NamesCells(samples, m) && NoEmptyRow(m) && HoldsLast(samples, m)
  }

  ghost predicate NamesCells(samples: seq<LabelledSample>, m: Matrix) {
    forall k | 0 <= k < |samples| && Counted(samples[k]) ::
      HasCell(m, CapacityType(samples[k]), Bucket(samples[k]))
  }

  ghost predicate NoEmptyRow(m: Matrix) {
    forall ct | ct in m :: m[ct] != map[]
  }

  ghost predicate HoldsLast(samples: seq<LabelledSample>, m: Matrix) {
    forall ct, bk | HasCell(m, ct, bk) :: IsLastOf(samples, ct, bk, m[ct][bk])
  }

  ghost predicate IsLastOf(samples: seq<LabelledSample>, ct: string, bk: string, v: real) {
    exists k :: LastFor(samples, ct, bk, k) && v == samples[k].value
  }

  // ---- the matrix in terms of the labels of the samples

  predicate Names(s: LabelledSample, ct: string, bk: string) {
    && "capacity_type" in s.labels && s.labels["capacity_type"] == ct != ""
    && "interruption_penalty_bucket" in s.labels && s.labels["interruption_penalty_bucket"] == bk != ""
  }

  predicate HasBoth(s: LabelledSample) {
    && "capacity_type" in s.labels && s.labels["capacity_type"] != ""
    && "interruption_penalty_bucket" in s.labels && s.labels["interruption_penalty_bucket"] != ""
  }

  ghost predicate LastNamed(samples: seq<LabelledSample>, ct: string, bk: string, v: real) {
    exists k :: 0 <= k < |samples| && Names(samples[k], ct, bk) && v == samples[k].value
      && forall j | k < j < |samples| :: !Names(samples[j], ct, bk)
  }

  /** There is a cell for every pair of labels that a sample carries, and it holds the value of
      the last such sample. */
  ghost predicate ShowsSamples(samples: seq<LabelledSample>, m: Matrix) {
    && (forall s | s in samples && HasBoth(s) ::
          && s.labels["capacity_type"] in m
          && s.labels["interruption_penalty_bucket"] in m[s.labels["capacity_type"]])
    && (forall ct, bk | ct in m && bk in m[ct] :: LastNamed(samples, ct, bk, m[ct][bk]))
    && (forall ct | ct in m :: m[ct] != map[])
  }

  lemma IsForNames(s: LabelledSample, ct: string, bk: string)
    ensures IsFor(s, ct, bk) <==> Names(s, ct, bk)
  {
  }

  lemma LastIsNamed(samples: seq<LabelledSample>, ct: string, bk: string, v: real)
    requires IsLastOf(samples, ct, bk, v)
    ensures LastNamed(samples, ct, bk, v)
  {
    var k :| LastFor(samples, ct, bk, k) && v == samples[k].value;
    IsForNames(samples[k], ct, bk);
    forall j | k < j < |samples| ensures !Names(samples[j], ct, bk) {
      IsForNames(samples[j], ct, bk);
    }
  }

  lemma AccumulatesShows(samples: seq<LabelledSample>, m: Matrix)
    requires Accumulates(samples, m)
    ensures ShowsSamples(samples, m)
  {
    forall s | s in samples && HasBoth(s)
      ensures s.labels["capacity_type"] in m
      ensures s.labels["interruption_penalty_bucket"] in m[s.labels["capacity_type"]]
    {
      var k :| 0 <= k < |samples| && samples[k] == s;
      assert HasCell(m, CapacityType(samples[k]), Bucket(samples[k]));
    }
    forall ct, bk | ct in m && bk in m[ct] ensures LastNamed(samples, ct, bk, m[ct][bk]) {
      assert HasCell(m, ct, bk);
      LastIsNamed(samples, ct, bk, m[ct][bk]);
    }
  }

  lemma PutCells(m: Matrix, ct: string, bk: string, v: real)
    ensures forall c, b :: HasCell(Put(m, ct, bk, v), c, b) <==> HasCell(m, c, b) || (c == ct && b == bk)
    ensures forall c, b | HasCell(Put(m, ct, bk, v), c, b) ::
      Put(m, ct, bk, v)[c][b] == if c == ct && b == bk then v else m[c][b]
    ensures NoEmptyRow(m) ==> NoEmptyRow(Put(m, ct, bk, v))
  {
    assert bk in Put(m, ct, bk, v)[ct];
  }

  lemma LastOneMore(samples: seq<LabelledSample>, n: nat, ct: string, bk: string, v: real)
    requires n < |samples|
    ensures IsFor(samples[n], ct, bk) ==> IsLastOf(samples[..n + 1], ct, bk, samples[n].value)
    ensures !IsFor(samples[n], ct, bk) && IsLastOf(samples[..n], ct, bk, v) ==> IsLastOf(samples[..n + 1], ct, bk, v)
  {
    var more := samples[..n + 1];
    if IsFor(samples[n], ct, bk) {
      assert LastFor(more, ct, bk, n);
    } else if k :| LastFor(samples[..n], ct, bk, k) && v == samples[..n][k].value {
      assert LastFor(more, ct, bk, k);
    }
  }

  lemma NamesOneMore(samples: seq<LabelledSample>, n: nat, m: Matrix, m': Matrix)
    requires n < |samples| && NamesCells(samples[..n], m)
    requires forall c, b | HasCell(m, c, b) :: HasCell(m', c, b)
    requires Counted(samples[n]) ==> HasCell(m', CapacityType(samples[n]), Bucket(samples[n]))
    ensures NamesCells(samples[..n + 1], m')
  {
    var more := samples[..n + 1];
    forall k | 0 <= k < |more| && Counted(more[k]) ensures HasCell(m', CapacityType(more[k]), Bucket(more[k])) {
      assert k < n ==> more[k] == samples[..n][k];
    }
  }

  lemma HoldsOneMore(samples: seq<LabelledSample>, n: nat, m: Matrix, m': Matrix)
    requires n < |samples| && HoldsLast(samples[..n], m)
    requires m' == if Counted(samples[n])
      then Put(m, CapacityType(samples[n]), Bucket(samples[n]), samples[n].value) else m
    ensures HoldsLast(samples[..n + 1], m')
  {
    var s := samples[n];
    PutCells(m, CapacityType(s), Bucket(s), s.value);
    forall ct, bk | HasCell(m', ct, bk) ensures IsLastOf(samples[..n + 1], ct, bk, m'[ct][bk]) {
      LastOneMore(samples, n, ct, bk, m'[ct][bk]);
    }
  }

  lemma AccumulatesOneMore(samples: seq<LabelledSample>, n: nat, m: Matrix, m': Matrix)
    requires n < |samples| && Accumulates(samples[..n], m)
    requires m' == if Counted(samples[n])
      then Put(m, CapacityType(samples[n]), Bucket(samples[n]), samples[n].value) else m
    ensures Accumulates(samples[..n + 1], m')
  {
    var s := samples[n];
    PutCells(m, CapacityType(s), Bucket(s), s.value);
    NamesOneMore(samples, n, m, m');
    HoldsOneMore(samples, n, m, m');
  }

  /** The labels that the snapshot lists: those of the matrix and of the one-label queries. */
  function Buckets(m: Matrix): set<string> {
    set ct, bk | ct in m && bk in m[ct] :: bk
  }

  method Accumulate(samples: seq<LabelledSample>,
                    configuredByCap: Row, idleByCap: Row, demand: Row, configuredByBucket: Row)
    returns (configured: Matrix, capacitySet: set<string>, bucketSet: set<string>)
    ensures Accumulates(samples, configured)
    ensures capacitySet == configured.Keys + configuredByCap.Keys + idleByCap.Keys
    ensures bucketSet == Buckets(configured) + demand.Keys + configuredByBucket.Keys
    ensures ShowsSamples(samples, configured)
    ensures forall b :: b in bucketSet <==>
      b in demand || b in configuredByBucket || exists ct :: ct in configured && b in configured[ct]
  {
    configured, capacitySet, bucketSet := map[], {}, {};
    for n := 0 to |samples|
      invariant Accumulates(samples[..n], configured)
      invariant capacitySet == configured.Keys
      invariant bucketSet == Buckets(configured)
    {
      ghost var before := configured;
      var ct, bk := Label(samples[n], CAPACITY_TYPE), Label(samples[n], BUCKET);
      if ct == "" || bk == "" {
        AccumulatesOneMore(samples, n, before, before);
        continue;
      }
      if ct !in configured {
        configured := configured[ct := map[]];
      }
      configured := configured[ct := configured[ct][bk := samples[n].value]];
      PutTwoSteps(before, ct, bk, samples[n].value, configured);
      AccumulatesOneMore(samples, n, before, configured);
      BucketsOfPut(before, ct, bk, samples[n].value);
      capacitySet := capacitySet + {ct};
      bucketSet := bucketSet + {bk};
    }
    assert samples[..|samples|] == samples;
    AccumulatesShows(samples, configured);
    capacitySet := capacitySet + configuredByCap.Keys + idleByCap.Keys;
    bucketSet := bucketSet + demand.Keys + configuredByBucket.Keys;
  }

  /** The two assignments of the loop are one Put. */
  lemma PutTwoSteps(m: Matrix, ct: string, bk: string, v: real, m': Matrix)
    requires var made := if ct !in m then m[ct := map[]] else m; m' == made[ct := made[ct][bk := v]]
    ensures m' == Put(m, ct, bk, v)
  {
  }

  lemma BucketsOfPut(m: Matrix, ct: string, bk: string, v: real)
    ensures Buckets(Put(m, ct, bk, v)) == Buckets(m) + {bk}
  {
    var m' := Put(m, ct, bk, v);
    forall b | b in Buckets(m) + {bk} ensures b in Buckets(m') {
      if b == bk {
        assert ct in m' && bk in m'[ct];
      } else {
        var c :| c in m && b in m[c];
        assert c in m' && b in m'[c];
      }
    }
    forall b | b in Buckets(m') ensures b in Buckets(m) + {bk} {
      var c :| c in m' && b in m'[c];
      assert b == bk || (c in m && b in m[c]);
    }
  }

  // ---- the order of the rows

  const CAPACITY_TYPE_ORDER := ["BareMetal", "Reserved", "OnDemand", "Spot"]

  function In(labels: set<string>): string -> bool {
    (c: string) => c in labels
  }

  /** The known types that occur, in their fixed order, then the other labels, sorted. */
  ghost predicate KnownThenSorted(known: seq<string>, labels: set<string>, out: seq<string>) {
    exists extras | Lists(labels - (set c | c in known), extras) :: out == Filter(In(labels), known) + extras
  }

  method OrderCapacityTypes(labels: set<string>) returns (out: seq<string>)
    ensures NoDup(out)
    ensures forall c :: c in out <==> c in labels
    ensures KnownThenSorted(CAPACITY_TYPE_ORDER, labels, out)
    ensures TierOrder(labels, out)
  {
    KnownTypesDistinct();
    out := OrderKnownFirst(CAPACITY_TYPE_ORDER, labels);
    OrderedByTier(labels, out);
  }

  function OneOf(labels: set<string>, c: string): seq<string> {
    if c in labels then [c] else []
  }

  /** Bare metal, reserved, on demand and spot, as far as they occur, then the others sorted. */
  ghost predicate TierOrder(labels: set<string>, out: seq<string>) {
    exists extras | Lists(labels - {"BareMetal", "Reserved", "OnDemand", "Spot"}, extras) ::
      out == OneOf(labels, "BareMetal") + OneOf(labels, "Reserved") + OneOf(labels, "OnDemand")
           + OneOf(labels, "Spot") + extras
  }

  lemma FilterMore(labels: set<string>, xs: seq<string>, c: string, more: seq<string>)
    requires more == xs + [c]
    ensures Filter(In(labels), more) == Filter(In(labels), xs) + OneOf(labels, c)
  {
    FilterAppend(In(labels), xs, c);
  }

  lemma FilterFour(labels: set<string>, a: string, b: string, c: string, d: string)
    ensures Filter(In(labels), [a, b, c, d])
         == OneOf(labels, a) + OneOf(labels, b) + OneOf(labels, c) + OneOf(labels, d)
  {
    FilterMore(labels, [], a, [a]);
    FilterMore(labels, [a], b, [a, b]);
    FilterMore(labels, [a, b], c, [a, b, c]);
    FilterMore(labels, [a, b, c], d, [a, b, c, d]);
    assert [] + OneOf(labels, a) == OneOf(labels, a);
  }

  lemma OrderedByTier(labels: set<string>, out: seq<string>)
    requires KnownThenSorted(CAPACITY_TYPE_ORDER, labels, out)
    ensures TierOrder(labels, out)
  {
    FilterFour(labels, "BareMetal", "Reserved", "OnDemand", "Spot");
    assert (set c | c in CAPACITY_TYPE_ORDER) == {"BareMetal", "Reserved", "OnDemand", "Spot"};
  }

  /** The list after the first i known types. */
  ghost predicate KnownPart(known: seq<string>, labels: set<string>, i: nat, out: seq<string>)
    requires i <= |known|
  {
    && out == Filter(In(labels), known[..i])
    && NoDup(out)
    && forall c :: c in out <==> c in labels && c in known[..i]
  }

  lemma KnownOneMore(known: seq<string>, labels: set<string>, i: nat, out: seq<string>)
    requires i < |known| && NoDup(known) && KnownPart(known, labels, i, out)
    ensures KnownPart(known, labels, i + 1, if known[i] in labels then out + [known[i]] else out)
  {
    assert known[..i + 1] == known[..i] + [known[i]];
    FilterAppend(In(labels), known[..i], known[i]);
    assert known[i] !in known[..i];
  }

  /** The other labels follow the known ones. */
  lemma ExtrasFollow(known: seq<string>, labels: set<string>, out: seq<string>, extras: seq<string>)
    requires KnownPart(known, labels, |known|, out)
    requires Lists(labels - (set c | c in out), extras)
    ensures NoDup(out + extras) && (forall c :: c in out + extras <==> c in labels)
    ensures KnownThenSorted(known, labels, out + extras)
  {
    assert known[..|known|] == known;
    assert labels - (set c | c in out) == labels - (set c | c in known);
    assert forall i | 0 <= i < |extras| :: extras[i] in extras;
  }

  method OrderKnownFirst(known: seq<string>, labels: set<string>) returns (out: seq<string>)
    requires NoDup(known)
    ensures NoDup(out)
    ensures forall c :: c in out <==> c in labels
    ensures KnownThenSorted(known, labels, out)
  {
    out := [];
    var used: set<string> := {};
    for i := 0 to |known|
      invariant KnownPart(known, labels, i, out)
      invariant used == set c | c in out
    {
      KnownOneMore(known, labels, i, out);
      var c := known[i];
      if c in labels {
        out := out + [c];
        used := used + {c};
      }
    }
    var extras := SortedKeys(labels - used);
    ExtrasFollow(known, labels, out, extras);
    out := out + extras;
  }

  /** However the map is iterated, the list comes out the same. */
  lemma OneListOfTypes(known: seq<string>, labels: set<string>, out: seq<string>, out': seq<string>)
    requires KnownThenSorted(known, labels, out) && KnownThenSorted(known, labels, out')
    ensures out == out'
  {
    var others := labels - set c | c in known;
    var extras :| Lists(others, extras) && out == Filter(In(labels), known) + extras;
    var extras' :| Lists(others, extras') && out' == Filter(In(labels), known) + extras';
    ListsUnique(others, extras, extras');
  }

  lemma KnownTypesDistinct()
    ensures NoDup(CAPACITY_TYPE_ORDER)
  {
    assert "BareMetal"[0] == 'B' && "Reserved"[0] == 'R' && "OnDemand"[0] == 'O' && "Spot"[0] == 'S';
  }

  // ---- the sum over the table

  function RowSum(m: Matrix, ct: string, buckets: seq<string>): real {
    if buckets == [] then 0.0 else Cell(m, ct, buckets[0]) + RowSum(m, ct, buckets[1..])
  }

  /** The sum of the cells that the page draws: one row per capacity type, one column per bucket. */
  function TableSum(m: Matrix, types: seq<string>, buckets: seq<string>): real {
    if types == [] then 0.0 else RowSum(m, types[0], buckets) + TableSum(m, types[1..], buckets)
  }

  function SampleSum(samples: seq<LabelledSample>): real {
    if samples == [] then 0.0
    else
      var s := samples[|samples| - 1];
      SampleSum(samples[..|samples| - 1]) + (if Counted(s) then s.value else 0.0)
  }

  lemma {:induction false} RowSumPut(m: Matrix, ct: string, bk: string, v: real, row: string, buckets: seq<string>)
    requires NoDup(buckets) && !HasCell(m, ct, bk)
    ensures RowSum(Put(m, ct, bk, v), row, buckets)
         == RowSum(m, row, buckets) + (if row == ct && bk in buckets then v else 0.0)
  {
    if buckets == [] {
    } else {
      var tail := buckets[1..];
      RowSumPut(m, ct, bk, v, row, tail);
      assert bk in buckets <==> bk == buckets[0] || bk in tail;
      assert Cell(Put(m, ct, bk, v), row, buckets[0])
          == if row == ct && bk == buckets[0] then v else Cell(m, row, buckets[0]);
    }
  }

  lemma {:induction false} TableSumPut(m: Matrix, ct: string, bk: string, v: real,
                                       types: seq<string>, buckets: seq<string>)
    requires NoDup(types) && NoDup(buckets) && !HasCell(m, ct, bk) && bk in buckets
    ensures TableSum(Put(m, ct, bk, v), types, buckets)
         == TableSum(m, types, buckets) + (if ct in types then v else 0.0)
  {
    if types == [] {
    } else {
      var tail := types[1..];
      TableSumPut(m, ct, bk, v, tail, buckets);
      RowSumPut(m, ct, bk, v, types[0], buckets);
      assert ct in types <==> ct == types[0] || ct in tail;
    }
  }

  lemma {:induction false} TableSumEmpty(types: seq<string>, buckets: seq<string>)
    ensures TableSum(map[], types, buckets) == 0.0
  {
    if types == [] {
    } else {
      RowSumEmpty(types[0], buckets);
      TableSumEmpty(types[1..], buckets);
    }
  }

  lemma {:induction false} RowSumEmpty(ct: string, buckets: seq<string>)
    ensures RowSum(map[], ct, buckets) == 0.0
  {
    if buckets == [] {
    } else {
      RowSumEmpty(ct, buckets[1..]);
    }
  }

  /** Prometheus groups by the two labels, so no two samples name the same cell. */
  ghost predicate DistinctCells(samples: seq<LabelledSample>) {
    forall i, j | 0 <= i < j < |samples| && Counted(samples[i]) && Counted(samples[j]) ::
      CapacityType(samples[i]) != CapacityType(samples[j]) || Bucket(samples[i]) != Bucket(samples[j])
  }

  /** The matrix built by putting the samples one after the other. */
  function Built(samples: seq<LabelledSample>): Matrix {
    if samples == [] then map[]
    else
      var m, s := Built(samples[..|samples| - 1]), samples[|samples| - 1];
      if Counted(s) then Put(m, CapacityType(s), Bucket(s), s.value) else m
  }

  lemma {:induction false} BuiltAccumulates(samples: seq<LabelledSample>)
    ensures Accumulates(samples, Built(samples))
  {
    if samples == [] {
    } else {
      var n := |samples| - 1;
      BuiltAccumulates(samples[..n]);
      AccumulatesOneMore(samples, n, Built(samples[..n]), Built(samples));
      assert samples[..n + 1] == samples;
    }
  }

  lemma CellsAgree(m: Matrix, m': Matrix)
    requires NoEmptyRow(m) && NoEmptyRow(m')
    requires forall ct, bk :: HasCell(m, ct, bk) <==> HasCell(m', ct, bk)
    requires forall ct, bk | HasCell(m, ct, bk) :: Cell(m, ct, bk) == Cell(m', ct, bk)
    ensures m == m'
  {
    forall ct ensures ct in m <==> ct in m' {
      if ct in m {
        var bk :| bk in m[ct];
        assert HasCell(m, ct, bk);
      }
      if ct in m' {
        var bk :| bk in m'[ct];
        assert HasCell(m', ct, bk);
      }
    }
    forall ct | ct in m ensures m[ct] == m'[ct] {
      assert forall bk :: bk in m[ct] <==> HasCell(m, ct, bk);
      assert forall bk :: bk in m'[ct] <==> HasCell(m', ct, bk);
      forall bk | bk in m[ct] ensures m[ct][bk] == m'[ct][bk] {
        assert HasCell(m, ct, bk);
        assert Cell(m, ct, bk) == Cell(m', ct, bk);
      }
    }
  }

  /** The samples determine the matrix. */
  lemma AccumulatesUnique(samples: seq<LabelledSample>, m: Matrix, m': Matrix)
    requires Accumulates(samples, m) && Accumulates(samples, m')
    ensures m == m'
  {
    forall ct, bk | HasCell(m, ct, bk) ensures HasCell(m', ct, bk) && m'[ct][bk] == m[ct][bk] {
      SameCell(samples, m, m', ct, bk);
    }
    forall ct, bk | HasCell(m', ct, bk) ensures HasCell(m, ct, bk) {
      SameCell(samples, m', m, ct, bk);
    }
    CellsAgree(m, m');
  }

  /** A cell of one matrix is a cell of the other, with the same value. */
  lemma SameCell(samples: seq<LabelledSample>, m: Matrix, m': Matrix, ct: string, bk: string)
    requires HasCell(m, ct, bk) && IsLastOf(samples, ct, bk, m[ct][bk])
    ensures Accumulates(samples, m') ==> HasCell(m', ct, bk) && m'[ct][bk] == m[ct][bk]
  {
    if Accumulates(samples, m') {
      var k :| LastFor(samples, ct, bk, k) && m[ct][bk] == samples[k].value;
      assert Counted(samples[k]);
      assert HasCell(m', ct, bk);
      var j :| LastFor(samples, ct, bk, j) && m'[ct][bk] == samples[j].value;
      assert !(j < k) && !(k < j);
    }
  }

  /** The lists of row and column labels name every cell of the matrix. */
  ghost predicate Covers(m: Matrix, types: seq<string>, buckets: seq<string>) {
    && NoDup(types) && NoDup(buckets)
    && forall ct, bk | HasCell(m, ct, bk) :: ct in types && bk in buckets
  }

  /** A sample whose cell no earlier sample names makes a new cell. */
  lemma NewCell(samples: seq<LabelledSample>, n: nat, m: Matrix)
    requires n < |samples| && DistinctCells(samples) && Accumulates(samples[..n], m)
    ensures Counted(samples[n]) ==> !HasCell(m, CapacityType(samples[n]), Bucket(samples[n]))
  {
    var s, init := samples[n], samples[..n];
    assert forall k | 0 <= k < n :: init[k] == samples[k];
    assert forall k | Counted(s) :: !LastFor(init, CapacityType(s), Bucket(s), k);
  }

  lemma {:induction false} BuiltSum(samples: seq<LabelledSample>, types: seq<string>, buckets: seq<string>)
    requires DistinctCells(samples) && Covers(Built(samples), types, buckets)
    ensures TableSum(Built(samples), types, buckets) == SampleSum(samples)
  {
    if samples == [] {
      TableSumEmpty(types, buckets);
    } else {
      var n := |samples| - 1;
      var s, m := samples[n], Built(samples[..n]);
      PutCells(m, CapacityType(s), Bucket(s), s.value);
      BuiltSum(samples[..n], types, buckets);
      BuiltAccumulates(samples[..n]);
      NewCell(samples, n, m);
      if Counted(s) {
        assert HasCell(Built(samples), CapacityType(s), Bucket(s));
        TableSumPut(m, CapacityType(s), Bucket(s), s.value, types, buckets);
      }
    }
  }

  /** The table shows every machine of the query: its cells add up to the samples that
      carry both labels, as long as Prometheus reports each cell once. */
  lemma TableShowsAll(samples: seq<LabelledSample>, m: Matrix, types: seq<string>, buckets: seq<string>)
    requires Accumulates(samples, m) && DistinctCells(samples) && Covers(m, types, buckets)
    ensures TableSum(m, types, buckets) == SampleSum(samples)
  {
    BuiltAccumulates(samples);
    AccumulatesUnique(samples, m, Built(samples));
    BuiltSum(samples, types, buckets);
  }

  /** The lists of the snapshot do name every cell. */
  lemma SnapshotCovers(m: Matrix, types: seq<string>, buckets: seq<string>,
                       configuredByCap: Row, idleByCap: Row, demand: Row, configuredByBucket: Row)
    requires NoDup(types) && NoDup(buckets)
    requires forall c :: c in types <==> c in m.Keys + configuredByCap.Keys + idleByCap.Keys
    requires forall b :: b in buckets <==> b in Buckets(m) + demand.Keys + configuredByBucket.Keys
    ensures Covers(m, types, buckets)
  {
    forall ct, bk | HasCell(m, ct, bk) ensures ct in types && bk in buckets {
      assert ct in m && bk in m[ct];
      assert bk in Buckets(m);
    }
  }

  // ---- the snapshot

  /** The part of the response that the table is drawn from. */
  datatype FinOpsSnapshot = FinOpsSnapshot(capacityTypes: seq<string>, buckets: seq<string>, configured: Matrix)

  /** The rows and columns name every cell once. No map iteration can change the order of the
      rows, nor that of the columns when bucketLess orders their labels and no two numerals
      have the same value. */
  method Snapshot(samples: seq<LabelledSample>,
                  configuredByCap: Row, idleByCap: Row, demand: Row, configuredByBucket: Row,
                  parse: BucketOrder.Parse)
    returns (r: FinOpsSnapshot)
    ensures Accumulates(samples, r.configured)
    ensures Covers(r.configured, r.capacityTypes, r.buckets)
    ensures ShowsSamples(samples, r.configured)
    ensures TierOrder(r.configured.Keys + configuredByCap.Keys + idleByCap.Keys, r.capacityTypes)
    ensures KnownThenSorted(CAPACITY_TYPE_ORDER,
                            r.configured.Keys + configuredByCap.Keys + idleByCap.Keys, r.capacityTypes)
    ensures forall b :: b in r.buckets <==> b in Buckets(r.configured) + demand.Keys + configuredByBucket.Keys
    ensures (
      var labels := Buckets(r.configured) + demand.Keys + configuredByBucket.Keys;
      BucketOrder.OrderedLabels(parse, labels) ==> Sorted(BucketOrder.ByBucket(parse), r.buckets))
    ensures DistinctCells(samples) ==> TableSum(r.configured, r.capacityTypes, r.buckets) == SampleSum(samples)
  {
    var configured, capacitySet, bucketSet :=
      Accumulate(samples, configuredByCap, idleByCap, demand, configuredByBucket);
    var capacityTypes := OrderCapacityTypes(capacitySet);
    var buckets := BucketOrder.OrderBuckets(bucketSet, parse);
    SnapshotCovers(configured, capacityTypes, buckets, configuredByCap, idleByCap, demand, configuredByBucket);
    if DistinctCells(samples) {
      TableShowsAll(samples, configured, capacityTypes, buckets);
    }
    r := FinOpsSnapshot(capacityTypes, buckets, configured);
  }

  // ---- the shading of the cells

  method MaxCell(m: Matrix, types: seq<string>, buckets: seq<string>) returns (max: real)
    ensures max >= 0.0
    ensures forall ct, bk | ct in types && bk in buckets :: Cell(m, ct, bk) <= max
    ensures max == 0.0 || exists ct, bk :: ct in types && bk in buckets && Cell(m, ct, bk) == max
  {
    max := 0.0;
    for i := 0 to |types|
      invariant max >= 0.0
      invariant forall c, bk | 0 <= c < i && bk in buckets :: Cell(m, types[c], bk) <= max
      invariant max == 0.0 || exists ct, bk :: ct in types && bk in buckets && Cell(m, ct, bk) == max
    {
      for j := 0 to |buckets|
        invariant max >= 0.0
        invariant forall c, bk | 0 <= c < i && bk in buckets :: Cell(m, types[c], bk) <= max
        invariant forall b | 0 <= b < j :: Cell(m, types[i], buckets[b]) <= max
        invariant max == 0.0 || exists ct, bk :: ct in types && bk in buckets && Cell(m, ct, bk) == max
      {
        var v := Cell(m, types[i], buckets[j]);
        if v > max {
          max := v;
          assert types[i] in types && buckets[j] in buckets;
        }
      }
    }
  }

  function Intensity(value: real, max: real): real {
    if max > 0.0 then (if value / max < 1.0 then value / max else 1.0) else 0.0
  }

  lemma QuotientBound(v: real, max: real)
    requires max > 0.0 && v <= max
    ensures v / max <= 1.0
    ensures v >= 0.0 ==> v / max >= 0.0
  {
    var q := v / max;
    assert q * max == v;
    assert q > 1.0 ==> q * max > 1.0 * max;
    assert q < 0.0 ==> q * max < 0.0;
  }

  /** The shade of a cell is its part of the largest one; without machines there is none. */
  lemma IntensityIsPart(value: real, max: real)
    requires value <= max
    ensures max > 0.0 ==> Intensity(value, max) * max == value
    ensures max <= 0.0 ==> Intensity(value, max) == 0.0
  {
    if max > 0.0 {
      QuotientBound(value, max);
      assert (value / max) * max == value;
    }
  }

  /** No cell is darker than the scale: the quotient stays at or below 1 without the clamp,
      and the largest cell, if positive, is drawn at full intensity. */
  lemma ClampIsIdle(m: Matrix, types: seq<string>, buckets: seq<string>, max: real, ct: string, bk: string)
    requires Covers(m, types, buckets) && HasCell(m, ct, bk)
    requires forall c, b | c in types && b in buckets :: Cell(m, c, b) <= max
    requires max > 0.0
    ensures Intensity(Cell(m, ct, bk), max) == Cell(m, ct, bk) / max <= 1.0
    ensures Cell(m, ct, bk) >= 0.0 ==> Intensity(Cell(m, ct, bk), max) >= 0.0
    ensures Cell(m, ct, bk) == max ==> Intensity(Cell(m, ct, bk), max) == 1.0
  {
    QuotientBound(Cell(m, ct, bk), max);
  }
}
