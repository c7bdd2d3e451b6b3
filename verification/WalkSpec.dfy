/** The vocabulary of the Needs walk: the items it emits, the fingerprint groups it
    forms, and what each part of the list looks like (buildWalk in ui/src/pages/Needs.tsx). */
module WalkSpec {
  import opened Prelude
  import opened Sorting
  import opened Decimal
  import opened Needs

  datatype WalkItem =
    | Header(key: string, fingerprint: string, count: int, contested: bool, supply: Option<Supply>)
    | Cutline(key: string, below: int)
    | Row(key: string, need: Need)

  function Fp(n: Need): string {
    if n.profileFingerprint.Some? then n.profileFingerprint.value else ""
  }

  predicate Grouped(n: Need, showCluster: bool) {
    Fp(n) != "" && !showCluster
  }

  // ---- groups

  function Shares(fp: string): Need -> bool {
    (n: Need) => Fp(n) == fp
  }

  /** The needs of one fingerprint, in list order. */
  function Members(fp: string, xs: seq<Need>): seq<Need> {
    Filter(Shares(fp), xs)
  }

  function StaysFlat(showCluster: bool): Need -> bool {
    (n: Need) => !Grouped(n, showCluster)
  }

  function Ungrouped(xs: seq<Need>, showCluster: bool): seq<Need> {
    Filter(StaysFlat(showCluster), xs)
  }

  /** The fingerprints that are grouped, in order of first appearance. */
  function FirstSeen(xs: seq<Need>, showCluster: bool): seq<string> {
    if xs == [] then []
    else
      var seen := FirstSeen(xs[..|xs| - 1], showCluster);
      var n := xs[|xs| - 1];
      if Grouped(n, showCluster) && Fp(n) !in seen then seen + [Fp(n)] else seen
  }

  /** Of the given fingerprints, those that two or more needs contend for. */
  function Contended(fps: seq<string>, xs: seq<Need>): seq<string> {
    if fps == [] then []
    else
      var rest := Contended(fps[..|fps| - 1], xs);
      if |Members(fps[|fps| - 1], xs)| >= 2 then rest + [fps[|fps| - 1]] else rest
  }

  /** The needs of the other fingerprints, group after group. */
  function Singles(fps: seq<string>, xs: seq<Need>): seq<Need> {
    if fps == [] then []
    else
      var rest := Singles(fps[..|fps| - 1], xs);
      var g := Members(fps[|fps| - 1], xs);
      if |g| >= 2 then rest else rest + g
  }

  /** The flat list before its final sort. */
  function Leftover(sorted: seq<Need>, showCluster: bool): seq<Need> {
    Ungrouped(sorted, showCluster) + Singles(FirstSeen(sorted, showCluster), sorted)
  }

  /** The order of cohorts: by the precedence of their first members. */
  predicate HeadPrecedes(xs: seq<Need>, a: string, b: string) {
    Members(a, xs) != [] && Members(b, xs) != [] && Precedes(Members(a, xs)[0], Members(b, xs)[0])
  }

  function ByHead(xs: seq<Need>): (string, string) -> bool {
    (a, b) => HeadPrecedes(xs, a, b)
  }

  // ---- one cohort

  predicate Contested(g: seq<Need>) {
    exists i | 0 <= i < |g| :: !g[i].satisfied
  }

  /** The supply of the first member that carries one. */
  function Pool(g: seq<Need>): Option<Supply> {
    if g == [] then None
    else if g[0].matchingSupply.Some? then g[0].matchingSupply
    else Pool(g[1..])
  }

  /** Supply ran out between members i and i + 1. */
  predicate CutAt(g: seq<Need>, i: int) {
    && 0 <= i < |g| - 1
    && g[i].claimedMachineCount > 0
    && !g[i + 1].satisfied
    && g[i + 1].claimedMachineCount == 0
  }

  /** cut is the first place where supply ran out, or -1 if there is none. */
  predicate IsCut(g: seq<Need>, cut: int) {
    && (cut == -1 || CutAt(g, cut))
    && forall i | 0 <= i < (if cut == -1 then |g| - 1 else cut) :: !CutAt(g, i)
  }

  function HeaderKey(fp: string): string {
    "h:" + fp
  }

  function CutKey(fp: string): string {
    "c:" + fp
  }

  function RowKey(fp: string, i: nat): string {
    "r:" + fp + ":" + NatStr(i)
  }

  function HeaderItem(fp: string, g: seq<Need>): WalkItem {
    Header(HeaderKey(fp), fp, |g|, Contested(g), Pool(g))
  }

  function MemberRow(fp: string, i: nat, n: Need): WalkItem {
    Row(RowKey(fp, i), n)
  }

  /** The rows of the first k members, with the cut-line after member cut. */
  function MemberItems(fp: string, g: seq<Need>, cut: int, k: nat): seq<WalkItem>
    requires k <= |g|
  {
    if k == 0 then []
    else
      MemberItems(fp, g, cut, k - 1) + [MemberRow(fp, k - 1, g[k - 1])]
      + (if k - 1 == cut then [Cutline(CutKey(fp), |g| - k)] else [])
  }

  function CohortItems(fp: string, g: seq<Need>, cut: int): seq<WalkItem> {
    [HeaderItem(fp, g)] + MemberItems(fp, g, cut, |g|)
  }

  // ---- the whole list

  function FirstCut(g: seq<Need>, i: nat): int
    requires i <= |g|
    decreases |g| - i
  {
    if i >= |g| - 1 then -1 else if CutAt(g, i) then i else FirstCut(g, i + 1)
  }

  function Cohorts(order: seq<string>, sorted: seq<Need>): seq<WalkItem> {
    if order == [] then []
    else
      var fp := order[|order| - 1];
      var g := Members(fp, sorted);
      Cohorts(order[..|order| - 1], sorted) + CohortItems(fp, g, FirstCut(g, 0))
  }

  function TailKey(i: nat, n: Need): string {
    "f:" + NatStr(i) + ":" + n.clusterId + ":" + IntStr(n.priority)
  }

  function TailItems(flat: seq<Need>): seq<WalkItem> {
    seq(|flat|, i requires 0 <= i < |flat| => Row(TailKey(i, flat[i]), flat[i]))
  }

  /** order is a possible result of sorting the cohorts by their heads. */
  ghost predicate CohortOrder(sorted: seq<Need>, showCluster: bool, order: seq<string>) {
    Sorts(ByHead(sorted), Contended(FirstSeen(sorted, showCluster), sorted), order)
  }

  function Walk(rows: seq<Need>, showCluster: bool, order: seq<string>): seq<WalkItem> {
    var sorted := StableSort(Precedes, rows);
    Cohorts(order, sorted) + TailItems(StableSort(Precedes, Leftover(sorted, showCluster)))
  }

  /** items is a list that the walk may produce; only ties between heads leave a choice. */
  ghost predicate IsWalk(rows: seq<Need>, showCluster: bool, items: seq<WalkItem>) {
    exists order | CohortOrder(StableSort(Precedes, rows), showCluster, order) ::
      items == Walk(rows, showCluster, order)
  }

  /** The needs shown by the row items, in list order. */
  function RowNeeds(items: seq<WalkItem>): seq<Need> {
    if items == [] then []
    else
      var last := items[|items| - 1];
      RowNeeds(items[..|items| - 1]) + (if last.Row? then [last.need] else [])
  }
}
