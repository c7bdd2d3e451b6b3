/** Needs, their precedence, and the lists that the Needs page derives from them
    (ui/src/pages/needsKit.tsx and the memos of ui/src/pages/Needs.tsx). */
module Needs {
  import opened Prelude
  import opened Sorting

  datatype Supply = Supply(idle: int, configured: int, speculative: int, capped: bool)

  /** A JavaScript record: its own keys, which are distinct, with their values, in the order of Object.entries. */
  type Record = seq<(string, string)>

  /** r[k], own keys only. */
  function Find(r: Record, k: string): Option<string> {
    if r == [] then None else if r[0].0 == k then Some(r[0].1) else Find(r[1..], k)
  }

  ghost predicate OneValueEach(r: Record) {
    forall i, j | 0 <= i < j < |r| :: r[i].0 != r[j].0
  }

  /** A key is found with the value that the record gives it. */
  lemma {:induction false} FindExact(r: Record, k: string, v: string)
    requires OneValueEach(r)
    ensures Find(r, k) == Some(v) <==> (k, v) in r
    ensures Find(r, k) == None <==> forall i | 0 <= i < |r| :: r[i].0 != k
  {
    if r == [] {
    } else {
      FindExact(r[1..], k, v);
      assert forall i | 0 < i < |r| :: r[i] == r[1..][i - 1];
      assert (k, v) in r <==> (k, v) == r[0] || (k, v) in r[1..];
    }
  }

  /** r?.[k] */
  function Lookup(r: Option<Record>, k: string): Option<string> {
    if r.Some? then Find(r.value, k) else None
  }

  lemma LookupExact(r: Option<Record>, k: string, v: string)
    requires r.Some? ==> OneValueEach(r.value)
    ensures Lookup(r, k) == Some(v) <==> r.Some? && (k, v) in r.value
    ensures Lookup(r, k) == None <==> r.None? || forall i | 0 <= i < |r.value| :: r.value[i].0 != k
  {
    if r.Some? {
      FindExact(r.value, k, v);
    }
  }

  datatype Need = Need(
    clusterId: string,
    priority: int,
    arrivalUnixNanos: Option<int>,
    profileFingerprint: Option<string>,
    aggregateResources: Option<Record>,
    minUnit: Option<Record>,
    residualDeficit: Option<Record>,
    satisfied: bool,
    unmetReason: string,
    claimedMachineCount: int,
    matchingSupply: Option<Supply>)

  function Arrival(n: Need): int {
    if n.arrivalUnixNanos.Some? then n.arrivalUnixNanos.value else 0
  }

  predicate Precedes(a: Need, b: Need) {
    if a.priority != b.priority then a.priority > b.priority else Arrival(a) < Arrival(b)
  }

  lemma PrecedesStrictWeak(dom: set<Need>)
    ensures StrictWeakOn(Precedes, dom)
  {
  }

  /** a arrived no later than b, where a missing arrival counts as 0. */
  predicate NoLater(a: Need, b: Need) {
    match (a.arrivalUnixNanos, b.arrivalUnixNanos)
    case (Some(x), Some(y)) => x <= y
    case (Some(x), None) => x <= 0
    case (None, Some(y)) => 0 <= y
    case (None, None) => true
  }

  /** a may stand above b: it has the larger priority, or the same and has arrived no later. */
  predicate Outranks(a: Need, b: Need) {
    a.priority > b.priority || (a.priority == b.priority && NoLater(a, b))
  }

  /** The order of the list, read off the fields. */
  lemma OutranksExactly(a: Need, b: Need)
    ensures Outranks(a, b) <==> !Precedes(b, a)
  {
  }

  predicate InOrder(xs: seq<Need>) {
    forall i, j | 0 <= i < j < |xs| :: Outranks(xs[i], xs[j])
  }

  lemma SortedInOrder(xs: seq<Need>)
    ensures Sorted(Precedes, xs) <==> InOrder(xs)
  {
    forall i, j | 0 <= i < j < |xs| ensures Outranks(xs[i], xs[j]) <==> !Precedes(xs[j], xs[i]) {
      OutranksExactly(xs[i], xs[j]);
    }
  }

  /** No two different needs of the list carry the same (priority, arrival) pair. */
  ghost predicate NoTies(rows: seq<Need>) {
    forall a, b | a in rows && b in rows && a != b :: a.priority != b.priority || Arrival(a) != Arrival(b)
  }

  lemma NoTiesTotal(rows: seq<Need>)
    ensures NoTies(rows) <==> TotalOn(Precedes, set n | n in rows)
  {
    if TotalOn(Precedes, set n | n in rows) {
      forall a, b | a in rows && b in rows && a != b ensures Precedes(a, b) || Precedes(b, a) {
        assert a in (set n | n in rows) && b in (set n | n in rows);
      }
    }
  }

  // ---- who is ahead in line

  function Keys(r: Option<Record>): set<string> {
    if r.None? then {} else set i | 0 <= i < |r.value| :: r.value[i].0
  }

  predicate ShapesOverlap(a: Need, b: Need) {
    exists k | k in Keys(a.aggregateResources) :: k in Keys(b.aggregateResources)
  }

  /** A need that can be shown as standing ahead of n. Precedence is irreflexive, so
      the source's identity test o !== n excludes nothing that this does not. */
  predicate AheadOf(o: Need, n: Need) {
    o.claimedMachineCount > 0 && Precedes(o, n) && ShapesOverlap(o, n)
  }

  function IsAheadOf(n: Need): Need -> bool {
    (o: Need) => AheadOf(o, n)
  }

  function Ahead(n: Need, all: seq<Need>): seq<Need> {
    Filter(IsAheadOf(n), all)
  }

  lemma OmittedAreLater(sorted: seq<Need>, k: nat, o: Need, kept: Need)
    requires Sorted(Precedes, sorted) && k <= |sorted|
    requires o in multiset(sorted) - multiset(sorted[..k]) && kept in sorted[..k]
    ensures !Precedes(o, kept)
  {
    assert sorted == sorted[..k] + sorted[k..];
    assert o in sorted[k..];
    var i :| 0 <= i < |sorted[k..]| && sorted[k..][i] == o;
    var j :| 0 <= j < k && sorted[..k][j] == kept;
    assert !Precedes(sorted[k + i], sorted[j]);
  }

  const MAX_COMPETITORS := 8

  /** r is what the first k of the candidates can be: as many as possible, in order, and
      none that is left out precedes one that is kept. */
  ghost predicate FirstOf(k: nat, candidates: seq<Need>, r: seq<Need>) {
    && |r| == Min(k, |candidates|)
    && multiset(r) <= multiset(candidates)
    && Sorted(Precedes, r)
    && forall o, kept: Need | o in multiset(candidates) - multiset(r) && kept in r :: !Precedes(o, kept)
  }

  lemma PrefixIsFirst(candidates: seq<Need>, sorted: seq<Need>, k: nat)
    requires Sorts(Precedes, candidates, sorted)
    ensures |sorted| == |candidates|
    ensures FirstOf(k, candidates, sorted[..Min(k, |sorted|)])
  {
    SameElements(sorted, candidates);
    var m := Min(k, |sorted|);
    assert sorted == sorted[..m] + sorted[m..];
    assert multiset(sorted) == multiset(sorted[..m]) + multiset(sorted[m..]);
    forall o, kept: Need | o in multiset(sorted) - multiset(sorted[..m]) && kept in sorted[..m]
      ensures !Precedes(o, kept)
    {
      OmittedAreLater(sorted, m, o, kept);
    }
  }

  predicate ShareResource(a: Record, b: Record) {
    exists i, j | 0 <= i < |a| && 0 <= j < |b| :: a[i].0 == b[j].0
  }

  /** o has claimed machines, outranks n while n does not outrank it, and asks for a resource
      that n asks for. */
  predicate Competes(o: Need, n: Need) {
    && o.claimedMachineCount > 0
    && (o.priority > n.priority || (o.priority == n.priority && !NoLater(n, o)))
    && o.aggregateResources.Some? && n.aggregateResources.Some?
    && ShareResource(o.aggregateResources.value, n.aggregateResources.value)
  }

  lemma CompetesExactly(o: Need, n: Need)
    ensures AheadOf(o, n) <==> Competes(o, n)
  {
    OutranksExactly(n, o);
    if o.aggregateResources.Some? && n.aggregateResources.Some? {
      var a, b := o.aggregateResources.value, n.aggregateResources.value;
      if ShareResource(a, b) {
        var i, j :| 0 <= i < |a| && 0 <= j < |b| && a[i].0 == b[j].0;
        assert a[i].0 in Keys(o.aggregateResources) && b[j].0 in Keys(n.aggregateResources);
      }
      if ShapesOverlap(o, n) {
        var k :| k in Keys(o.aggregateResources) && k in Keys(n.aggregateResources);
        var i :| 0 <= i < |a| && a[i].0 == k;
        var j :| 0 <= j < |b| && b[j].0 == k;
      }
    }
  }

  /** The first k or fewer of the needs that compete with n, read off the fields. */
  ghost predicate TopCompetitors(k: nat, n: Need, all: seq<Need>, r: seq<Need>) {
    && |r| <= k && multiset(r) <= multiset(all)
    && (forall o | o in r :: Competes(o, n))
    && InOrder(r)
    && forall o | o in all && Competes(o, n) && multiset(r)[o] < multiset(all)[o] ::
         |r| == k && forall kept | kept in r :: Outranks(kept, o)
  }

  lemma CandidateCount(n: Need, all: seq<Need>, o: Need)
    ensures multiset(Ahead(n, all))[o] == if Competes(o, n) then multiset(all)[o] else 0
  {
    AheadExact(n, all, o);
    CompetesExactly(o, n);
  }

  lemma FirstAreTop(k: nat, n: Need, all: seq<Need>, r: seq<Need>)
    requires FirstOf(k, Ahead(n, all), r)
    ensures TopCompetitors(k, n, all, r)
  {
    var candidates := Ahead(n, all);
    SortedInOrder(r);
    forall o ensures multiset(candidates)[o] == if Competes(o, n) then multiset(all)[o] else 0 {
      CandidateCount(n, all, o);
    }
    forall o | o in r ensures Competes(o, n) {
      assert o in multiset(r);
    }
    forall o | o in all && Competes(o, n) && multiset(r)[o] < multiset(all)[o]
      ensures |r| == k && forall kept | kept in r :: Outranks(kept, o)
    {
      assert o in multiset(candidates) - multiset(r);
      LeftOverMeansFull(candidates, r, o);
      forall kept | kept in r ensures Outranks(kept, o) {
        OutranksExactly(kept, o);
      }
    }
  }

  lemma LeftOverMeansFull(xs: seq<Need>, r: seq<Need>, o: Need)
    requires multiset(r) <= multiset(xs) && o in multiset(xs) - multiset(r)
    ensures |r| < |xs|
  {
    var rest := multiset(xs) - multiset(r);
    assert multiset(xs) == multiset(r) + rest;
    assert |multiset(xs)| == |xs| && |multiset(r)| == |r|;
  }

  /** The sort's comparator never answers "equal", so the order of tied needs is the runtime's choice. */
  method CompetitorsFor(n: Need, all: seq<Need>) returns (r: seq<Need>)
    ensures FirstOf(MAX_COMPETITORS, Ahead(n, all), r)
    ensures TopCompetitors(8, n, all, r)
  {
    var candidates := Ahead(n, all);
    ghost var dom := set o | o in candidates;
    PrecedesStrictWeak(dom);
    var sorted := SortSomehow(Precedes, dom, candidates);
    PrefixIsFirst(candidates, sorted, MAX_COMPETITORS);
    r := sorted[..Min(MAX_COMPETITORS, |sorted|)];
    FirstAreTop(MAX_COMPETITORS, n, all, r);
  }

  /** Every need that stands ahead is a candidate, as often as the list has it. */
  lemma AheadExact(n: Need, all: seq<Need>, o: Need)
    ensures multiset(Ahead(n, all))[o] == if AheadOf(o, n) then multiset(all)[o] else 0
  {
    FilterExact(IsAheadOf(n), all, o);
  }

  /** Following "is listed ahead of" from need to need never comes back to a need. */
  lemma {:induction false} AheadAcyclic(chain: seq<Need>)
    requires |chain| >= 2
    requires forall i | 0 <= i < |chain| - 1 :: AheadOf(chain[i], chain[i + 1])
    ensures chain[0] != chain[|chain| - 1]
    ensures Precedes(chain[0], chain[|chain| - 1])
  {
    if |chain| > 2 {
      var front := chain[..|chain| - 1];
      forall i | 0 <= i < |front| - 1 ensures AheadOf(front[i], front[i + 1]) {
        assert front[i] == chain[i] && front[i + 1] == chain[i + 1];
      }
      AheadAcyclic(front);
      assert AheadOf(chain[|chain| - 2], chain[|chain| - 2 + 1]);
    } else {
      assert AheadOf(chain[0], chain[0 + 1]);
    }
  }
}
