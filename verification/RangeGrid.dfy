/** Range queries on a fixed time axis (pkg/promclient/promclient.go), with the durations
    that the handlers let through (pkg/server/handlers_fleet.go, handlers_shard_trends.go).
    Instants and durations are whole nanoseconds, as in Go. */
module RangeGrid {
  import opened Prelude
  import opened Floats
  import opened Strings

  const MAX64: int := 0x7fff_ffff_ffff_ffff
  const MIN64: int := -0x8000_0000_0000_0000
  const SECOND: int := 1_000_000_000
  const HOUR: int := 3600 * SECOND

  /** Prometheus stamps samples in milliseconds. */
  datatype Sample = Sample(ms: int, value: Float) {
    function At(): int {
      ms * 1_000_000
    }
  }

  datatype Series = Series(metric: map<string, string>, values: seq<Sample>)

  datatype Answer = Failed(message: string) | NotAMatrix | Matrix(series: seq<Series>)

  datatype Range = Range(start: int, end: int, step: int)

  /** time.Time.Sub: a difference that does not fit a Duration is clamped. */
  function Sub(a: int, b: int): int {
    if a - b > MAX64 then MAX64 else if a - b < MIN64 then MIN64 else a - b
  }

  /** A Duration is a signed 64-bit number, and the difference itself where that can hold it. */
  lemma SubFits(a: int, b: int)
    ensures -9_223_372_036_854_775_808 <= Sub(a, b) <= 9_223_372_036_854_775_807
    ensures -9_223_372_036_854_775_808 <= a - b <= 9_223_372_036_854_775_807 ==> Sub(a, b) == a - b
  {
  }

  /** Go's integer division truncates toward zero. */
  function Quo(a: int, b: int): int
    requires b > 0
  {
    if a >= 0 then a / b else -((-a) / b)
  }

  /** What QueryRangeByLabel needs of its range; see HandlerRangeIsValid. */
  predicate Valid(r: Range) {
    0 < r.step && 0 <= r.end - r.start && r.end - r.start + r.step <= MAX64
  }

  function Steps(r: Range): (n: int)
    requires Valid(r)
    ensures n >= 1
  {
    Quo(Sub(r.end, r.start), r.step) + 1
  }

  /** The cell that the code computes for a sample. */
  function Idx(at: int, r: Range): int
    requires r.step > 0
  {
    Quo(Sub(at, r.start), r.step)
  }

  // ---- what the cells mean

  lemma Division(a: int, b: int)
    requires a >= 0 && b > 0
    ensures a / b >= 0
    ensures (a / b) * b <= a < (a / b + 1) * b
  {
    assert a == b * (a / b) + a % b;
    assert (a / b + 1) * b == (a / b) * b + b;
  }

  lemma {:induction false} ProductRises(p: int, q: int, b: int)
    requires b > 0 && p <= q
    ensures p * b <= q * b
    decreases q - p
  {
    if p == q {
    } else {
      ProductRises(p, q - 1, b);
      assert q * b == (q - 1) * b + b;
    }
  }

  lemma NextProduct(p: int, q: int, b: int)
    requires b > 0
    ensures p < q ==> (p + 1) * b <= q * b
  {
    if p < q {
      ProductRises(p + 1, q, b);
    }
  }

  lemma QuotientUnique(a: int, b: int, q: int)
    requires a >= 0 && b > 0
    ensures a / b == q <==> q * b <= a < (q + 1) * b
  {
    Division(a, b);
    NextProduct(a / b, q, b);
    NextProduct(q, a / b, b);
  }

  /** Cell i > 0 collects the samples from its grid instant up to the next one. Cell 0
      also collects those less than one step before Start, since division truncates
      toward zero; no other sample reaches any cell. */
  lemma CellMeaning(at: int, r: Range, i: int)
    requires Valid(r) && 0 <= i < Steps(r)
    ensures Idx(at, r) == i
       <==> (if i == 0 then r.start - r.step < at else r.start + i * r.step <= at) && at < r.start + (i + 1) * r.step
  {
    var d := at - r.start;
    if d >= 0 {
      if d <= MAX64 {
        QuotientUnique(d, r.step, i);
      } else {
        BeyondTheEnd(r, i);
      }
    } else if d >= MIN64 {
      Division(-d, r.step);
      QuotientUnique(-d, r.step, 0);
      assert i > 0 ==> i * r.step > 0;
      assert (i + 1) * r.step == i * r.step + r.step;
      assert i >= 0 ==> i * r.step >= 0;
    } else {
      Division(-MIN64, r.step);
      QuotientUnique(-MIN64, r.step, 0);
      assert i > 0 ==> i * r.step > 0;
    }
  }

  lemma BeyondTheEnd(r: Range, i: int)
    requires Valid(r) && 0 <= i < Steps(r)
    ensures MAX64 / r.step > i
    ensures r.start + (i + 1) * r.step <= r.start + MAX64
  {
    var span, b := r.end - r.start, r.step;
    var q, d := span / b, MAX64 / b;
    Division(span, b);
    Division(MAX64, b);
    NextProduct(i, q + 1, b);
    NextProduct(d, i + 1, b);
    assert (q + 1) * b == q * b + b;
  }

  /** A sample on the grid lands in the cell of its instant. */
  lemma GridPoint(r: Range, i: int)
    requires Valid(r) && 0 <= i < Steps(r)
    ensures Idx(r.start + i * r.step, r) == i
  {
    assert (i + 1) * r.step == i * r.step + r.step;
    CellMeaning(r.start + i * r.step, r, i);
  }

  // ---- one row

  predicate Hits(sp: Sample, r: Range, i: int)
    requires r.step > 0
  {
    Idx(sp.At(), r) == i && sp.value.Finite?
  }

  /** v is what cell i must show: the last finite sample of the cell, or 0 without one. */
  ghost predicate IsCell(values: seq<Sample>, r: Range, i: int, v: real)
    requires r.step > 0
  {
    || (v == 0.0 && forall k | 0 <= k < |values| :: !Hits(values[k], r, i))
    || (exists k :: LastHit(values, r, i, k) && v == values[k].value.v)
  }

  ghost predicate LastHit(values: seq<Sample>, r: Range, i: int, k: int)
    requires r.step > 0
  {
    0 <= k < |values| && Hits(values[k], r, i) && forall j | k < j < |values| :: !Hits(values[j], r, i)
  }

  ghost predicate IsRow(values: seq<Sample>, r: Range, row: seq<real>)
    requires Valid(r)
  {
    |row| == Steps(r) && forall i | 0 <= i < |row| :: IsCell(values, r, i, row[i])
  }

  /** The samples of a series determine its row. */
  lemma RowUnique(values: seq<Sample>, r: Range, row: seq<real>, row': seq<real>)
    requires Valid(r) && IsRow(values, r, row) && IsRow(values, r, row')
    ensures row == row'
  {
    forall i | 0 <= i < |row| ensures row[i] == row'[i] {
      assert IsCell(values, r, i, row[i]) && IsCell(values, r, i, row'[i]);
      assert forall j, k | LastHit(values, r, i, j) && LastHit(values, r, i, k) :: !(j < k) && !(k < j);
    }
  }

  lemma CellExtend(values: seq<Sample>, n: nat, r: Range, i: int, v: real)
    requires n < |values| && r.step > 0 && IsCell(values[..n], r, i, v)
    ensures IsCell(values[..n + 1], r, i, if Hits(values[n], r, i) then values[n].value.v else v)
  {
    var more := values[..n + 1];
    assert more == values[..n] + [values[n]];
    if Hits(values[n], r, i) {
      assert LastHit(more, r, i, n);
    } else if k :| LastHit(values[..n], r, i, k) && v == values[..n][k].value.v {
      assert LastHit(more, r, i, k);
    }
  }

  method FillRow(values: seq<Sample>, r: Range, steps: nat) returns (row: array<real>)
    requires Valid(r) && steps == Steps(r)
    ensures fresh(row) && IsRow(values, r, row[..])
  {
    row := new real[steps](_ => 0.0);
    for n := 0 to |values|
      invariant row.Length == steps
      invariant forall i | 0 <= i < steps :: IsCell(values[..n], r, i, row[i])
    {
      var idx := Idx(values[n].At(), r);
      ghost var before := row[..];
      forall i | 0 <= i < steps
        ensures IsCell(values[..n + 1], r, i, if Hits(values[n], r, i) then values[n].value.v else before[i])
      {
        CellExtend(values, n, r, i, before[i]);
      }
      if idx < 0 || idx >= steps {
        continue;
      }
      if !values[n].value.Finite? {
        continue;
      }
      row[idx] := values[n].value.v;
    }
    assert values[..|values|] == values;
  }

  // ---- the whole answer

  /** The series that the answer shows under a label value: the last one that carries it. */
  ghost predicate LastSeries(mat: seq<Series>, labelName: string, key: string, j: int) {
    && 0 <= j < |mat| && labelName in mat[j].metric && mat[j].metric[labelName] == key
    && forall k | j < k < |mat| :: !(labelName in mat[k].metric && mat[k].metric[labelName] == key)
  }

  ghost predicate Rows(mat: seq<Series>, labelName: string, r: Range, out: map<string, seq<real>>)
    requires Valid(r)
  {
    && (forall j | 0 <= j < |mat| && labelName in mat[j].metric :: mat[j].metric[labelName] in out)
    && (forall key | key in out :: exists j :: LastSeries(mat, labelName, key, j) && IsRow(mat[j].values, r, out[key]))
  }

  ghost predicate Axis(r: Range, timestamps: seq<int>)
    requires Valid(r)
  {
    |timestamps| == Steps(r) && forall i | 0 <= i < |timestamps| :: timestamps[i] == (r.start + i * r.step) / SECOND
  }

  lemma RowsExtend(mat: seq<Series>, n: nat, labelName: string, r: Range, out: map<string, seq<real>>, row: seq<real>)
    requires Valid(r) && n < |mat| && Rows(mat[..n], labelName, r, out) && IsRow(mat[n].values, r, row)
    ensures var out' := if labelName in mat[n].metric then out[mat[n].metric[labelName] := row] else out;
      Rows(mat[..n + 1], labelName, r, out')
  {
    var more := mat[..n + 1];
    assert more == mat[..n] + [mat[n]];
    var out' := if labelName in mat[n].metric then out[mat[n].metric[labelName] := row] else out;
    forall key | key in out'
      ensures exists j :: LastSeries(more, labelName, key, j) && IsRow(more[j].values, r, out'[key])
    {
      if labelName in mat[n].metric && mat[n].metric[labelName] == key {
        assert LastSeries(more, labelName, key, n);
      } else {
        var j :| LastSeries(mat[..n], labelName, key, j) && IsRow(mat[..n][j].values, r, out[key]);
        assert LastSeries(more, labelName, key, j);
      }
    }
  }

  method QueryRangeByLabel(answer: Answer, labelName: string, r: Range)
    returns (res: Result<(seq<int>, map<string, seq<real>>), string>)
    requires Valid(r)
    ensures res.Ok? <==> answer.Matrix?
    ensures res.Ok? ==> Axis(r, res.value.0)
    ensures res.Ok? ==> Rows(answer.series, labelName, r, res.value.1)
  {
    match answer {
      case Failed(message) => return Err(message);
      case NotAMatrix => return Err("promclient: expected matrix result");
      case Matrix(mat) =>
        var steps: nat := Quo(Sub(r.end, r.start), r.step) + 1;
        var timestamps := TimeAxis(r, steps);
        ghost var axis := timestamps[..];
        var out: map<string, seq<real>> := map[];
        for n := 0 to |mat|
          invariant timestamps[..] == axis
          invariant Rows(mat[..n], labelName, r, out)
        {
          if labelName !in mat[n].metric {
            assert mat[..n + 1] == mat[..n] + [mat[n]];
            assert Rows(mat[..n + 1], labelName, r, out) by { RowsSkip(mat, n, labelName, r, out); }
            continue;
          }
          var row := FillRow(mat[n].values, r, steps);
          RowsExtend(mat, n, labelName, r, out, row[..]);
          out := out[mat[n].metric[labelName] := row[..]];
        }
        assert mat[..|mat|] == mat;
        return Ok((timestamps[..], out));
    }
  }

  lemma RowsSkip(mat: seq<Series>, n: nat, labelName: string, r: Range, out: map<string, seq<real>>)
    requires Valid(r) && n < |mat| && Rows(mat[..n], labelName, r, out) && labelName !in mat[n].metric
    ensures Rows(mat[..n + 1], labelName, r, out)
  {
    var more := mat[..n + 1];
    assert more == mat[..n] + [mat[n]];
    forall key | key in out
      ensures exists j :: LastSeries(more, labelName, key, j) && IsRow(more[j].values, r, out[key])
    {
      var j :| LastSeries(mat[..n], labelName, key, j) && IsRow(mat[..n][j].values, r, out[key]);
      assert LastSeries(more, labelName, key, j);
    }
  }

  /** The axis; the product i * step stays within a Duration. */
  method TimeAxis(r: Range, steps: nat) returns (timestamps: array<int>)
    requires Valid(r) && steps == Steps(r)
    ensures fresh(timestamps) && Axis(r, timestamps[..])
  {
    timestamps := new int[steps](_ => 0);
    for i := 0 to steps
      invariant timestamps.Length == steps
      invariant forall j | 0 <= j < i :: timestamps[j] == (r.start + j * r.step) / SECOND
    {
      OffsetFits(r, i);
      assert 0 <= i * r.step <= MAX64;
      timestamps[i] := (r.start + i * r.step) / SECOND;
    }
  }

  lemma OffsetFits(r: Range, i: int)
    requires Valid(r) && 0 <= i < Steps(r)
    ensures 0 <= i * r.step <= r.end - r.start <= 9_223_372_036_854_775_807
  {
    var span := r.end - r.start;
    Division(span, r.step);
    assert i <= span / r.step;
    assert i * r.step <= (span / r.step) * r.step;
  }

  // ---- the ranges that the handlers ask for

  /** parsed is what time.ParseDuration returns for s. */
  function ParseDuration(s: string, parsed: Result<int, string>, def: int, max: int): (d: int)
    requires 0 < def <= max
    ensures 0 < d <= max
    ensures s != "" && parsed.Ok? && parsed.value > 0 ==> d == Min(parsed.value, max)
    ensures s == "" || parsed.Err? || parsed.value <= 0 ==> d == def
  {
    if s == "" then def
    else if parsed.Err? || parsed.value <= 0 then def
    else if parsed.value > max then max
    else parsed.value
  }

  /** Go rounds down to a multiple of d since the year 1; instants here are Unix nanoseconds. */
  const YEAR_ONE: int := -62135596800 * SECOND

  function Truncate(t: int, d: int): int
    requires d > 0
  {
    t - (t - YEAR_ONE) % d
  }

  datatype RangeQuery = RangeQuery(
    duration: string, parsedDuration: Result<int, string>, step: string, parsedStep: Result<int, string>)

  function HandlerRange(q: RangeQuery, now: int): Range {
    var duration := ParseDuration(q.duration, q.parsedDuration, HOUR, 24 * HOUR);
    var step := ParseDuration(q.step, q.parsedStep, 30 * SECOND, HOUR);
    var end := Truncate(now, step);
    Range(end - duration, end, step)
  }

  /** Whatever the query string says, the axis is sound: at least one point, no overflow,
      instants that rise from Start, stay within the range and miss End by less than a step. */
  lemma HandlerAxis(q: RangeQuery, now: int, timestamps: seq<int>)
    requires Valid(HandlerRange(q, now)) && Axis(HandlerRange(q, now), timestamps)
    ensures var r := HandlerRange(q, now);
      && |timestamps| == (r.end - r.start) / r.step + 1 >= 1
      && timestamps[0] == r.start / SECOND
      && (forall i | 0 <= i < |timestamps| :: 0 <= i * r.step <= 24 * HOUR)
      && (forall i | 0 <= i < |timestamps| :: r.start / SECOND <= timestamps[i] <= r.end / SECOND)
      && (forall i | 0 <= i < |timestamps| - 1 :: timestamps[i] <= timestamps[i + 1])
      && (r.step >= SECOND ==> forall i | 0 <= i < |timestamps| - 1 :: timestamps[i] < timestamps[i + 1])
      && r.end - r.step < r.start + (|timestamps| - 1) * r.step <= r.end
  {
    var r := HandlerRange(q, now);
    var n := |timestamps|;
    Division(r.end - r.start, r.step);
    assert (n - 1 + 1) * r.step == (n - 1) * r.step + r.step;
    forall i | 0 <= i < n
      ensures 0 <= i * r.step <= 24 * HOUR
      ensures r.start / SECOND <= timestamps[i] <= r.end / SECOND
    {
      OffsetFits(r, i);
    }
    forall i | 0 <= i < n - 1
      ensures timestamps[i] <= timestamps[i + 1]
      ensures r.step >= SECOND ==> timestamps[i] < timestamps[i + 1]
    {
      assert (i + 1) * r.step == i * r.step + r.step;
    }
  }

  lemma HandlerRangeIsValid(q: RangeQuery, now: int)
    ensures var r := HandlerRange(q, now);
      && Valid(r)
      && 0 < r.step <= HOUR && 0 < r.end - r.start <= 24 * HOUR
      && now - r.step < r.end <= now
      && (r.end - YEAR_ONE) % r.step == 0
  {
    var r := HandlerRange(q, now);
    var a := now - YEAR_ONE;
    assert a == r.step * (a / r.step) + a % r.step;
    assert r.end - YEAR_ONE == r.step * (a / r.step);
    MultipleMod(a / r.step, r.step);
  }

  lemma MultipleMod(k: int, d: int)
    requires d > 0
    ensures (d * k) % d == 0
  {
    var p, m := (d * k) / d, (d * k) % d;
    assert d * k == d * p + m;
    assert d * (k - p) == m;
    assert k - p >= 1 ==> d * (k - p) >= d;
    assert k - p <= -1 ==> d * (k - p) <= -d;
  }

  // ---- the same in terms of the query and of the samples

  /** d is what a query parameter asks for: the duration in the text, but no more than max, or
      def when there is none or it is not a positive one. */
  predicate Asked(text: string, parsed: Result<int, string>, def: int, max: int, d: int) {
    if text != "" && parsed.Ok? && parsed.value > 0 then
      d == (if parsed.value <= max then parsed.value else max)
    else d == def
  }

  /** The range of a query: an hour in steps of 30 seconds unless it asks otherwise, at most a day
      and at most an hour a step, up to the last multiple of the step since the year 1. */
  predicate AskedRange(q: RangeQuery, now: int, r: Range) {
    && Asked(q.duration, q.parsedDuration, 3_600_000_000_000, 86_400_000_000_000, r.end - r.start)
    && Asked(q.step, q.parsedStep, 30_000_000_000, 3_600_000_000_000, r.step)
    && r.step > 0 && now - r.step < r.end <= now
    && (r.end + 719_162 * 86_400_000_000_000) % r.step == 0
  }

  lemma HandlerRangeIsAsked(q: RangeQuery, now: int)
    ensures AskedRange(q, now, HandlerRange(q, now))
  {
    HandlerRangeIsValid(q, now);
  }

  /** One point per step from start to end, in whole seconds. */
  predicate Instants(r: Range, timestamps: seq<int>)
    requires r.step > 0
  {
    && |timestamps| == (r.end - r.start) / r.step + 1
    && forall i | 0 <= i < |timestamps| ::
         timestamps[i] * 1_000_000_000 <= r.start + i * r.step < (timestamps[i] + 1) * 1_000_000_000
  }

  lemma AxisIsInstants(r: Range, timestamps: seq<int>)
    requires Valid(r) && Axis(r, timestamps)
    ensures Instants(r, timestamps)
  {
  }

  /** A finite sample from the i-th instant on and before the next; the first cell also takes
      those less than a step before it. */
  predicate InCell(sp: Sample, r: Range, i: int) {
    && sp.value.Finite?
    && (if i == 0 then r.start - r.step < sp.ms * 1_000_000 else r.start + i * r.step <= sp.ms * 1_000_000)
    && sp.ms * 1_000_000 < r.start + (i + 1) * r.step
  }

  ghost predicate LastInCell(values: seq<Sample>, r: Range, i: int, k: int) {
    0 <= k < |values| && InCell(values[k], r, i) && forall j | k < j < |values| :: !InCell(values[j], r, i)
  }

  ghost predicate CellShows(values: seq<Sample>, r: Range, i: int, v: real) {
    || (v == 0.0 && forall k | 0 <= k < |values| :: !InCell(values[k], r, i))
    || (exists k :: LastInCell(values, r, i, k) && v == values[k].value.v)
  }

  /** Every cell shows its last finite sample, or 0 without one. */
  ghost predicate ShowsLast(values: seq<Sample>, r: Range, row: seq<real>) {
    forall i | 0 <= i < |row| :: CellShows(values, r, i, row[i])
  }

  lemma HitsExactly(sp: Sample, r: Range, i: int)
    requires Valid(r) && 0 <= i < Steps(r)
    ensures Hits(sp, r, i) <==> InCell(sp, r, i)
  {
    CellMeaning(sp.At(), r, i);
  }

  lemma CellIsShown(values: seq<Sample>, r: Range, i: int, v: real)
    requires Valid(r) && 0 <= i < Steps(r) && IsCell(values, r, i, v)
    ensures CellShows(values, r, i, v)
  {
    forall k | 0 <= k < |values| ensures Hits(values[k], r, i) <==> InCell(values[k], r, i) {
      HitsExactly(values[k], r, i);
    }
    if k :| LastHit(values, r, i, k) && v == values[k].value.v {
      assert LastInCell(values, r, i, k);
    }
  }

  lemma RowShowsLast(values: seq<Sample>, r: Range, row: seq<real>)
    requires Valid(r) && IsRow(values, r, row)
    ensures |row| == (r.end - r.start) / r.step + 1 && ShowsLast(values, r, row)
  {
    forall i | 0 <= i < |row| ensures CellShows(values, r, i, row[i]) {
      CellIsShown(values, r, i, row[i]);
    }
  }

  /** The row that an answer shows under a label value, read off the samples. */
  ghost predicate ShownRow(mat: seq<Series>, labelName: string, key: string, r: Range, row: seq<real>)
    requires r.step > 0
  {
    && |row| == (r.end - r.start) / r.step + 1
    && exists j :: LastSeries(mat, labelName, key, j) && ShowsLast(mat[j].values, r, row)
  }

  lemma RowIsShown(mat: seq<Series>, labelName: string, key: string, r: Range, row: seq<real>, j: int)
    requires Valid(r) && LastSeries(mat, labelName, key, j) && IsRow(mat[j].values, r, row)
    ensures ShownRow(mat, labelName, key, r, row)
  {
    RowShowsLast(mat[j].values, r, row);
  }

  // ---- the two handlers

  datatype ActionsSeries = ActionsSeries(timestamps: seq<int>, kinds: seq<string>, values: seq<seq<real>>)

  /** The answer to a query, in terms of what it asks for and of the samples that came back. */
  ghost predicate FleetShows(mat: seq<Series>, q: RangeQuery, now: int, r: Range, a: ActionsSeries) {
    && AskedRange(q, now, r) && Instants(r, a.timestamps)
    && |a.values| == |a.kinds|
    && forall i | 0 <= i < |a.kinds| :: ShownRow(mat, "kind", a.kinds[i], r, a.values[i])
  }

  /** fleetActionsHandler: one row per kind, kinds in order, rows aligned to the axis. */
  method FleetActions(answer: Answer, q: RangeQuery, now: int) returns (res: Result<ActionsSeries, string>)
    ensures res.Ok? <==> answer.Matrix?
    ensures res.Ok? ==>
      var r := HandlerRange(q, now);
      && Valid(r) && Axis(r, res.value.timestamps)
      && Lists(Labels(answer.series, "kind"), res.value.kinds)
      && |res.value.values| == |res.value.kinds|
      && forall i | 0 <= i < |res.value.kinds| ::
           && |res.value.values[i]| == |res.value.timestamps|
           && exists j :: LastSeries(answer.series, "kind", res.value.kinds[i], j)
                       && IsRow(answer.series[j].values, r, res.value.values[i])
    ensures res.Ok? ==> exists r :: FleetShows(answer.series, q, now, r, res.value)
  {
    HandlerRangeIsValid(q, now);
    HandlerRangeIsAsked(q, now);
    var r := HandlerRange(q, now);
    var answered := QueryRangeByLabel(answer, "kind", r);
    if answered.Err? {
      return Err(answered.error);
    }
    var (timestamps, series) := answered.value;
    RowsKeys(answer.series, "kind", r, series);
    var kinds := SortedKeys(series.Keys);
    var values := seq(|kinds|, i requires 0 <= i < |kinds| => if kinds[i] in series then series[kinds[i]] else []);
    forall i | 0 <= i < |kinds|
      ensures |values[i]| == |timestamps|
      ensures exists j :: LastSeries(answer.series, "kind", kinds[i], j) && IsRow(answer.series[j].values, r, values[i])
    {
      assert kinds[i] in kinds;
      assert kinds[i] in series;
    }
    res := Ok(ActionsSeries(timestamps, kinds, values));
    AxisIsInstants(r, timestamps);
    forall i | 0 <= i < |kinds| ensures ShownRow(answer.series, "kind", kinds[i], r, values[i]) {
      var j :| LastSeries(answer.series, "kind", kinds[i], j) && IsRow(answer.series[j].values, r, values[i]);
      RowIsShown(answer.series, "kind", kinds[i], r, values[i], j);
    }
    assert FleetShows(answer.series, q, now, r, res.value);
  }

  /** The label values that occur in the answer. */
  function Labels(mat: seq<Series>, labelName: string): set<string> {
    set j | 0 <= j < |mat| && labelName in mat[j].metric :: mat[j].metric[labelName]
  }

  lemma RowsKeys(mat: seq<Series>, labelName: string, r: Range, out: map<string, seq<real>>)
    requires Valid(r) && Rows(mat, labelName, r, out)
    ensures out.Keys == Labels(mat, labelName)
  {
    forall key | key in out ensures key in Labels(mat, labelName) {
      var j :| LastSeries(mat, labelName, key, j) && IsRow(mat[j].values, r, out[key]);
    }
  }

  datatype ShardTrends = ShardTrends(
    timestamps: seq<int>, cycleP99: Option<seq<real>>, actionRates: map<string, seq<real>>)

  /** The trends of a query, in terms of what it asks for and of the samples that came back. */
  ghost predicate TrendsShow(pod: string, cycles: seq<Series>, actions: seq<Series>, q: RangeQuery, now: int,
                             r: Range, t: ShardTrends) {
    && AskedRange(q, now, r) && Instants(r, t.timestamps)
    && (t.cycleP99.Some? ==> ShownRow(cycles, "pod", pod, r, t.cycleP99.value))
    && (t.cycleP99.None? ==>
          forall j | 0 <= j < |cycles| && "pod" in cycles[j].metric :: cycles[j].metric["pod"] != pod)
    && (forall kind | kind in t.actionRates :: ShownRow(actions, "kind", kind, r, t.actionRates[kind]))
    && forall j | 0 <= j < |actions| && "kind" in actions[j].metric :: actions[j].metric["kind"] in t.actionRates
  }

  /** shardTrendsHandler: two queries over one range, so all their rows share one axis. */
  method ShardTrendsOf(pod: string, cycles: Answer, actions: Answer, q: RangeQuery, now: int)
    returns (res: Result<ShardTrends, string>)
    ensures res.Ok? <==> cycles.Matrix? && actions.Matrix?
    ensures res.Ok? ==>
      var r := HandlerRange(q, now);
      && Valid(r) && Axis(r, res.value.timestamps)
      && Rows(actions.series, "kind", r, res.value.actionRates)
      && (res.value.cycleP99.Some? <==> pod in Labels(cycles.series, "pod"))
      && (res.value.cycleP99.Some? ==>
            && |res.value.cycleP99.value| == |res.value.timestamps|
            && exists j :: LastSeries(cycles.series, "pod", pod, j)
                        && IsRow(cycles.series[j].values, r, res.value.cycleP99.value))
      && forall kind | kind in res.value.actionRates :: |res.value.actionRates[kind]| == |res.value.timestamps|
    ensures res.Ok? ==> exists r :: TrendsShow(pod, cycles.series, actions.series, q, now, r, res.value)
  {
    HandlerRangeIsValid(q, now);
    HandlerRangeIsAsked(q, now);
    var r := HandlerRange(q, now);
    var byPod := QueryRangeByLabel(cycles, "pod", r);
    if byPod.Err? {
      return Err(byPod.error);
    }
    var byKind := QueryRangeByLabel(actions, "kind", r);
    if byKind.Err? {
      return Err(byKind.error);
    }
    RowsKeys(cycles.series, "pod", r, byPod.value.1);
    var cycle := if pod in byPod.value.1 then Some(byPod.value.1[pod]) else None;
    res := Ok(ShardTrends(byPod.value.0, cycle, byKind.value.1));
    forall kind | kind in byKind.value.1 ensures |byKind.value.1[kind]| == |byPod.value.0| {
      var j :| LastSeries(actions.series, "kind", kind, j) && IsRow(actions.series[j].values, r, byKind.value.1[kind]);
    }
    AxisIsInstants(r, byPod.value.0);
    ghost var trends := res.value;
    if trends.cycleP99.Some? {
      var j :| LastSeries(cycles.series, "pod", pod, j) && IsRow(cycles.series[j].values, r, trends.cycleP99.value);
      RowIsShown(cycles.series, "pod", pod, r, trends.cycleP99.value, j);
    }
    forall kind | kind in trends.actionRates
      ensures ShownRow(actions.series, "kind", kind, r, trends.actionRates[kind])
    {
      var j :| LastSeries(actions.series, "kind", kind, j)
        && IsRow(actions.series[j].values, r, trends.actionRates[kind]);
      RowIsShown(actions.series, "kind", kind, r, trends.actionRates[kind], j);
    }
    assert TrendsShow(pod, cycles.series, actions.series, q, now, r, trends);
  }
}
