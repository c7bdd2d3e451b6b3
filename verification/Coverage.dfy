/** How much of a need is covered, and in how many chunks it comes (coverage, chunkEstimate
    and the fraction drawn by ResourceCoverage in ui/src/pages/needsKit.tsx). Quantities are
    JavaScript numbers: exact where finite, with NaN and the infinities as they combine. */
module Coverage {
  import opened Prelude
  import opened Floats
  import opened Needs
  import opened Decimal
  import opened Numerals
  import opened Quantity

  // ---- coverage

  /** Stands for parseQuantity; what follows holds however quantities are read. */
  type Parser = Option<string> -> Float

  function Want(v: string, parse: Parser): Float {
    parse(Some(v))
  }

  function Deficit(n: Need, k: string, parse: Parser): Float {
    parse(Lookup(n.residualDeficit, k))
  }

  function Unit(n: Need, k: string, parse: Parser): Float {
    parse(Lookup(n.minUnit, k))
  }

  /** got / want in the loop of coverage, for a resource that is wanted. */
  function Share(want: Float, short: Float): Float
    requires !AtMostZero(want)
  {
    Over(MaxWithZero(Minus(want, short)), want)
  }

  function Fields(r: Option<Record>): Record {
    if r.Some? then r.value else []
  }

  /** One pass of the loop. */
  function Narrow(n: Need, field: (string, string), min: Float, parse: Parser): Float {
    var want := Want(field.1, parse);
    if AtMostZero(want) then min else MathMin(min, Share(want, Deficit(n, field.0, parse)))
  }

  method CoverageOf(n: Need, parse: Parser) returns (min: Float)
    ensures n.satisfied ==> min == Finite(1.0)
    ensures !n.satisfied ==> IsCoverage(n, Fields(n.aggregateResources), min, parse)
    ensures !n.satisfied && min != NaN ==>
      min.Finite? && 0.0 <= min.v <= 1.0 && CoverageFits(n, min.v, parse) && CoverageTight(n, min.v, parse)
  {
    if n.satisfied {
      return Finite(1.0);
    }
    var fields := Fields(n.aggregateResources);
    min := Finite(1.0);
    for i := 0 to |fields|
      invariant IsCoverage(n, fields[..i], min, parse)
    {
      NarrowKeeps(n, fields[..i], fields[i], min, parse);
      assert fields[..i + 1] == fields[..i] + [fields[i]];
      var want := Want(fields[i].1, parse);
      if AtMostZero(want) {
        continue;
      }
      var got := MaxWithZero(Minus(want, Deficit(n, fields[i].0, parse)));
      min := MathMin(min, Over(got, want));
    }
    assert fields[..|fields|] == fields;
    if min != NaN {
      CoverageInFields(n, min, parse);
    }
  }

  // ---- the number itself, in terms of the two records

  /** No resource is covered less than min says: of what is wanted, what is not short is at
      least that part. */
  ghost predicate CoverageFits(n: Need, min: real, parse: Parser) {
    n.aggregateResources.Some? ==>
      forall f | f in n.aggregateResources.value ::
        FitsOne(min, parse(Some(f.1)), parse(Lookup(n.residualDeficit, f.0)))
  }

  predicate FitsOne(min: real, want: Float, short: Float) {
    want.Finite? && want.v > 0.0 && !Overflows(want.v) && short.Finite? ==>
      min * want.v <= if short.v <= want.v then want.v - short.v else 0.0
  }

  /** And one resource is covered no more than that, unless everything is covered. */
  ghost predicate CoverageTight(n: Need, min: real, parse: Parser) {
    min == 1.0 || (n.aggregateResources.Some? && SomeTight(n, n.aggregateResources.value, min, parse))
  }

  ghost predicate SomeTight(n: Need, fields: Record, min: real, parse: Parser) {
    exists f | f in fields :: TightOne(min, parse(Some(f.1)), parse(Lookup(n.residualDeficit, f.0)))
  }

  predicate TightOne(min: real, want: Float, short: Float) {
    && want.Finite? && want.v > 0.0
    && if short.Finite? && short.v <= want.v && !Vanishes((want.v - short.v) / want.v)
       then min * want.v == want.v - short.v
       else min == 0.0 && (short.PosInf? || short.Finite?)
  }

  /** The drawn fraction of a wanted resource of an unsatisfied need. */
  lemma DrawnNumber(n: Need, field: (string, string), parse: Parser, want: real, short: real)
    requires !n.satisfied && want > 0.0 && parse(Some(field.1)) == Finite(want)
    requires parse(Lookup(n.residualDeficit, field.0)) == Finite(short)
    ensures short >= want ==> Drawn(n, field, parse) == Finite(0.0)
    ensures short < want && !Overflows(want - short) ==> Drawn(n, field, parse) == Near((want - short) / want)
    ensures short < want && Overflows(want - short) ==> Drawn(n, field, parse) == PosInf
  {
    InRange(short - want);
    InRange(want - short);
    NearModest(0.0);
    assert 0.0 / want == 0.0;
  }

  lemma QuotientOf(a: real, c: real) returns (q: real)
    requires c > 0.0
    ensures q == a / c && q * c == a && (a >= 0.0 ==> q >= 0.0)
    ensures a <= c <==> q <= 1.0
  {
    q := a / c;
    PositiveQuotientSign(q, c);
    Scaled(1.0, q, c);
    Scaled(q, 1.0, c);
  }

  lemma PositiveQuotientSign(q: real, c: real)
    requires c > 0.0
    ensures q * c >= 0.0 ==> q >= 0.0
  {
    assert q < 0.0 ==> (-q) * c > 0.0;
  }

  lemma DrawnFull(n: Need, field: (string, string), parse: Parser, want: real)
    requires n.satisfied && want > 0.0 && !Overflows(want) && parse(Some(field.1)) == Finite(want)
    ensures Drawn(n, field, parse) == Finite(1.0)
  {
    InRange(-want);
    NearModest(1.0);
    SameQuotient(want);
  }

  lemma SameQuotient(c: real)
    requires c > 0.0
    ensures c / c == 1.0
  {
  }

  lemma DrawnPart(n: Need, field: (string, string), parse: Parser, want: real, short: real) returns (q: real)
    requires !n.satisfied && 0.0 <= short < want && !Overflows(want)
    requires parse(Some(field.1)) == Finite(want) && parse(Lookup(n.residualDeficit, field.0)) == Finite(short)
    ensures q * want == want - short
    ensures Drawn(n, field, parse) == if Vanishes((want - short) / want) then Finite(0.0) else Finite(q)
  {
    DrawnNumber(n, field, parse, want, short);
    RangeMonotone(want - short, want);
    q := QuotientInRange(want - short, want);
  }

  /** The bar that is drawn: what is not short, as a part of what is wanted; all of it for a
      satisfied need. */
  lemma DrawnInFields(n: Need, field: (string, string), parse: Parser, want: real, short: real)
    requires want > 0.0 && !Overflows(want) && parse(Some(field.1)) == Finite(want)
    requires parse(Lookup(n.residualDeficit, field.0)) == Finite(short)
    ensures n.satisfied ==> Drawn(n, field, parse) == Finite(1.0)
    ensures !n.satisfied && short >= want ==> Drawn(n, field, parse) == Finite(0.0)
    ensures !n.satisfied && 0.0 <= short < want && !Vanishes((want - short) / want) ==>
      Drawn(n, field, parse).Finite? && Drawn(n, field, parse).v * want == want - short
  {
    if n.satisfied {
      DrawnFull(n, field, parse, want);
    } else if short >= want {
      DrawnNumber(n, field, parse, want, short);
    } else if short >= 0.0 {
      var q := DrawnPart(n, field, parse, want, short);
    }
  }

  lemma QuotientInRange(a: real, c: real) returns (q: real)
    requires 0.0 <= a <= c && c > 0.0
    ensures q * c == a && Near(a / c) == if Vanishes(a / c) then Finite(0.0) else Finite(q)
  {
    q := QuotientOf(a, c);
    InRange(q);
    NearPositive(q);
  }

  lemma FitsNumbers(n: Need, field: (string, string), min: real, parse: Parser, want: real, short: real)
    requires !n.satisfied && want > 0.0 && !Overflows(want) && parse(Some(field.1)) == Finite(want)
    requires parse(Lookup(n.residualDeficit, field.0)) == Finite(short)
    requires 0.0 <= min <= 1.0 && !Less(Drawn(n, field, parse), Finite(min))
    ensures min * want <= if short <= want then want - short else 0.0
  {
    var drawn := Drawn(n, field, parse);
    DrawnNumber(n, field, parse, want, short);
    var q := QuotientOf(want - short, want);
    FitsQuotient(min, want, short, q, drawn);
  }

  lemma FitsDrawn(n: Need, field: (string, string), min: real, parse: Parser)
    requires !n.satisfied && 0.0 <= min <= 1.0 && !Less(Drawn(n, field, parse), Finite(min))
    ensures FitsOne(min, parse(Some(field.1)), parse(Lookup(n.residualDeficit, field.0)))
  {
    var want, short := parse(Some(field.1)), parse(Lookup(n.residualDeficit, field.0));
    if want.Finite? && want.v > 0.0 && !Overflows(want.v) && short.Finite? {
      FitsNumbers(n, field, min, parse, want.v, short.v);
    }
  }

  lemma AtMostProduct(x: real, y: real, c: real, d: real)
    requires x <= y && c > 0.0 && y * c == d
    ensures x * c <= d
  {
    Scaled(y, x, c);
  }

  lemma FitsQuotient(min: real, want: real, short: real, q: real, drawn: Float)
    requires 0.0 <= min <= 1.0 && want > 0.0 && q * want == want - short && !Less(drawn, Finite(min))
    requires !Overflows(want)
    requires short >= want ==> drawn == Finite(0.0)
    requires short < want ==> q >= 0.0 && (drawn == Near(q) || (Overflows(want - short) && drawn == PosInf))
    ensures min * want <= if short <= want then want - short else 0.0
  {
    if short >= want {
      assert min == 0.0;
    } else if Overflows(want - short) {
      if want - short <= want {
        RangeMonotone(want - short, want);
      }
      AtMostProduct(min, 1.0, want, want);
    } else {
      NearPositive(q);
      InRange(q);
      AtMostProduct(min, if min <= q then q else min, want, if min <= q then want - short else min * want);
      assert min > q ==> min == 0.0;
    }
  }

  /** Coverage, where it is a number, read off the aggregate and the deficit. */
  lemma CoverageInFields(n: Need, min: Float, parse: Parser)
    requires !n.satisfied && min != NaN && IsCoverage(n, Fields(n.aggregateResources), min, parse)
    ensures min.Finite? && 0.0 <= min.v <= 1.0 && CoverageFits(n, min.v, parse) && CoverageTight(n, min.v, parse)
  {
    if n.aggregateResources.Some? {
      forall f | f in n.aggregateResources.value
        ensures FitsOne(min.v, parse(Some(f.1)), parse(Lookup(n.residualDeficit, f.0)))
      {
        FitsDrawn(n, f, min.v, parse);
      }
      if min.v != 1.0 {
        var f :| f in n.aggregateResources.value && Drawn(n, f, parse) == min;
        TightDrawn(n, f, min.v, parse);
      }
    }
  }

  lemma TightDrawn(n: Need, field: (string, string), min: real, parse: Parser)
    requires !n.satisfied && 0.0 <= min < 1.0 && Drawn(n, field, parse) == Finite(min)
    requires !Spoils(n, field, parse)
    ensures TightOne(min, parse(Some(field.1)), parse(Lookup(n.residualDeficit, field.0)))
  {
    var want, short := parse(Some(field.1)), parse(Lookup(n.residualDeficit, field.0));
    assert want.Finite? && want.v > 0.0;
    if short.Finite? {
      DrawnNumber(n, field, parse, want.v, short.v);
      if short.v < want.v {
        var q := QuotientOf(want.v - short.v, want.v);
        NearPositive(q);
      } else {
        var q := QuotientOf(want.v - short.v, want.v);
        InRange(q);
      }
    } else {
      NearModest(0.0);
      assert 0.0 / want.v == 0.0;
    }
  }

  /** A resource spoils the computation when its share is not a number: its own quantity is
      NaN or infinite, or it is wanted and its deficit is NaN. */
  predicate Spoils(n: Need, field: (string, string), parse: Parser) {
    var want := Want(field.1, parse);
    want.NaN? || want.PosInf? || (!AtMostZero(want) && Deficit(n, field.0, parse).NaN?)
  }

  /** The fraction that ResourceCoverage draws for a resource. */
  function Drawn(n: Need, field: (string, string), parse: Parser): Float {
    var want := Want(field.1, parse);
    var short := if n.satisfied then Finite(0.0) else Deficit(n, field.0, parse);
    var got := MaxWithZero(Minus(want, short));
    if Less(Finite(0.0), want) then Over(got, want) else Finite(1.0)
  }

  /** min is the smallest of 1 and the drawn fractions, or NaN when some resource spoils it. */
  ghost predicate IsCoverage(n: Need, fields: seq<(string, string)>, min: Float, parse: Parser) {
    if exists f :: f in fields && Spoils(n, f, parse) then min == NaN
    else
      && min.Finite? && 0.0 <= min.v <= 1.0
      && (forall f | f in fields :: !Less(Drawn(n, f, parse), min))
      && (min.v == 1.0 || exists f :: f in fields && Drawn(n, f, parse) == min)
  }

  lemma PositiveQuotient(a: real, b: real)
    requires a >= 0.0 && b > 0.0
    ensures a / b >= 0.0
  {
    var q := a / b;
    assert q * b == a;
    assert q < 0.0 ==> q * b < 0.0;
  }

  /** The share of an unspoiled wanted resource is the drawn fraction, and not negative. */
  lemma ShareIsDrawn(n: Need, field: (string, string), parse: Parser)
    requires !n.satisfied && !Spoils(n, field, parse) && !AtMostZero(Want(field.1, parse))
    ensures Share(Want(field.1, parse), Deficit(n, field.0, parse)) == Drawn(n, field, parse)
    ensures !Drawn(n, field, parse).NaN? && !Less(Drawn(n, field, parse), Finite(0.0))
  {
    var want := Want(field.1, parse);
    var got := MaxWithZero(Minus(want, Deficit(n, field.0, parse)));
    if got.Finite? {
      PositiveQuotient(got.v, want.v);
      NearSign(got.v / want.v);
    }
  }

  lemma NarrowKeeps(n: Need, fields: seq<(string, string)>, field: (string, string), min: Float, parse: Parser)
    requires !n.satisfied && IsCoverage(n, fields, min, parse)
    ensures IsCoverage(n, fields + [field], Narrow(n, field, min, parse), parse)
  {
    var more := fields + [field];
    assert forall f :: f in more <==> f in fields || f == field;
    var want := Want(field.1, parse);
    if AtMostZero(want) {
      assert !Spoils(n, field, parse);
      assert Drawn(n, field, parse) == Finite(1.0);
      if f :| f in fields && Spoils(n, f, parse) {
        assert f in more;
      }
      if f :| f in fields && Drawn(n, f, parse) == min {
        assert f in more;
      }
    } else if Spoils(n, field, parse) {
      assert field in more;
      assert Share(want, Deficit(n, field.0, parse)).NaN?;
    } else {
      ShareIsDrawn(n, field, parse);
      NarrowWanted(n, fields, field, min, parse);
    }
  }

  lemma NarrowWanted(n: Need, fields: seq<(string, string)>, field: (string, string), min: Float, parse: Parser)
    requires !n.satisfied && IsCoverage(n, fields, min, parse)
    requires !Spoils(n, field, parse)
    requires !Drawn(n, field, parse).NaN? && !Less(Drawn(n, field, parse), Finite(0.0))
    ensures IsCoverage(n, fields + [field], MathMin(min, Drawn(n, field, parse)), parse)
  {
    var more := fields + [field];
    var share := Drawn(n, field, parse);
    var next := MathMin(min, share);
    assert field in more;
    if f :| f in fields && Spoils(n, f, parse) {
      assert f in more;
    } else {
      forall f | f in more ensures !Less(Drawn(n, f, parse), next) && !Spoils(n, f, parse) {
        assert f in fields || f == field;
      }
      if next != share && next.v != 1.0 {
        var f :| f in fields && Drawn(n, f, parse) == min;
        assert f in more;
      }
    }
  }

  /** The order in which the record lists its keys does not matter. */
  lemma CoverageOrderFree(n: Need, fields: seq<(string, string)>, fields': seq<(string, string)>,
                          min: Float, min': Float, parse: Parser)
    requires forall f :: f in fields <==> f in fields'
    requires IsCoverage(n, fields, min, parse) && IsCoverage(n, fields', min', parse)
    ensures min == min'
  {
    if f :| f in fields && Spoils(n, f, parse) {
      assert f in fields';
    } else {
      assert forall f | f in fields' :: !Spoils(n, f, parse);
      assert forall f | f in fields' :: !Less(Drawn(n, f, parse), min');
      assert forall f | f in fields :: !Less(Drawn(n, f, parse), min);
    }
  }

  /** The number in front of the suffix, or the product with the suffix, is out of range. */
  predicate TooLarge(m: (string, string)) {
    && Suffix(m.1).Finite?
    && (Overflows(ReadDecimal(m.0)) || Overflows(Product(ReadDecimal(m.0), Suffix(m.1).v)))
  }

  lemma MultKinds(x: real, y: real)
    requires x >= 0.0 && 0.0 < y <= 1125899906842624.0
    ensures !Mult(Near(x), Finite(y)).NaN? && !Mult(Near(x), Finite(y)).NegInf?
    ensures Mult(Near(x), Finite(y)).PosInf? <==> Overflows(x) || Overflows(Product(x, y))
  {
    NearPositive(x);
    RangeDisjoint(x);
    InRange(x);
    ProductAtMost(x, y);
    InRange(Product(x, y));
    NearPositive(Product(x, y));
    assert Product(0.0, y) == 0.0;
    NearModest(0.0);
  }

  lemma ProductAtMost(x: real, y: real)
    requires x >= 0.0 && y > 0.0
    ensures Product(x, y) >= 0.0
    ensures x < 1.0 ==> Product(x, y) <= y
  {
    assert x < 1.0 ==> (1.0 - x) * y >= 0.0;
  }

  /** A quantity in the usual notation is NaN exactly when its suffix is a name that every
      object inherits, infinite exactly when it is too large, and never less than 0. */
  lemma NaNOnlyFromInherited(s: string, loose: string -> Float)
    requires s != "" && Exec(Trim(s)).Some?
    ensures ParseQuantity(Some(s), loose).NaN? <==> Exec(Trim(s)).value.1 in INHERITED
    ensures ParseQuantity(Some(s), loose).PosInf? <==> TooLarge(Exec(Trim(s)).value)
    ensures !ParseQuantity(Some(s), loose).NegInf?
  {
    var m := Exec(Trim(s)).value;
    SuffixKinds(m.1);
    if Suffix(m.1).Finite? {
      ReadNotNegative(m.0);
      MultKinds(ReadDecimal(m.0), Suffix(m.1).v);
    }
  }

  // ---- coverage with the parser of the page

  /** parseQuantity as the page calls it. */
  function Reader(loose: string -> Float): Parser {
    (s: Option<string>) => ParseQuantity(s, loose)
  }

  /** loose stands for parseFloat(s) || 0, which is never NaN; it can be infinite, as on "1e999". */
  ghost predicate NeverNaN(loose: string -> Float) {
    forall s :: !loose(s).NaN?
  }

  /** s reads as NaN: its suffix is a name that every object inherits. */
  predicate ReadsNaN(s: Option<string>) {
    s.Some? && s.value != "" && Exec(Trim(s.value)).Some? && Exec(Trim(s.value)).value.1 in INHERITED
  }

  /** s reads as infinity: it is too large, or the pattern rejects it and parseFloat finds a
      number in it that is too large. */
  predicate ReadsInfinite(s: string, loose: string -> Float) {
    && s != ""
    && match Exec(Trim(s))
       case Some(m) => TooLarge(m)
       case None => loose(s).PosInf?
  }

  lemma ReaderResult(s: Option<string>, loose: string -> Float)
    requires NeverNaN(loose)
    ensures ParseQuantity(s, loose).NaN? <==> ReadsNaN(s)
    ensures s.Some? ==> (ParseQuantity(s, loose).PosInf? <==> ReadsInfinite(s.value, loose))
    ensures s.None? ==> ParseQuantity(s, loose) == Finite(0.0)
  {
    if s.Some? && s.value != "" && Exec(Trim(s.value)).Some? {
      NaNOnlyFromInherited(s.value, loose);
    }
  }

  /** What makes a resource spoil the coverage of its need, read off the texts. */
  predicate TextSpoils(n: Need, field: (string, string), loose: string -> Float) {
    || ReadsNaN(Some(field.1)) || ReadsInfinite(field.1, loose)
    || (!AtMostZero(ParseQuantity(Some(field.1), loose)) && ReadsNaN(Lookup(n.residualDeficit, field.0)))
  }

  /** On the page, coverage is NaN exactly when some aggregate, or the deficit of a resource
      that is wanted, has an inherited name as its suffix, or some aggregate is infinite;
      otherwise it is a number from 0 to 1. */
  lemma CoverageNaNExactly(n: Need, fields: seq<(string, string)>, min: Float, loose: string -> Float)
    requires NeverNaN(loose) && IsCoverage(n, fields, min, Reader(loose))
    ensures min == NaN <==> exists f :: f in fields && TextSpoils(n, f, loose)
    ensures min != NaN ==> min.Finite? && 0.0 <= min.v <= 1.0
  {
    forall f | f in fields ensures Spoils(n, f, Reader(loose)) <==> TextSpoils(n, f, loose) {
      ReaderResult(Some(f.1), loose);
      ReaderResult(Lookup(n.residualDeficit, f.0), loose);
    }
  }

  const ONE_CONSTRUCTOR := "1 constructor"

  /** A quantity that reads as NaN. */
  lemma ConstructorIsNaN(loose: string -> Float)
    ensures ParseQuantity(Some(ONE_CONSTRUCTOR), loose) == NaN
  {
    var digits, space, suffix := "1", " ", "constructor";
    assert ONE_CONSTRUCTOR == digits + space + suffix;
    SuffixKinds(suffix);
    ParseMatched(ONE_CONSTRUCTOR, digits, space, suffix, loose);
  }

  /** For an unsatisfied need that asks for that quantity, coverage is NaN, while the bar of
      the resource is drawn as full. */
  lemma NaNDrawnAsFull(n: Need, fields: seq<(string, string)>, k: string, min: Float, loose: string -> Float)
    requires (k, ONE_CONSTRUCTOR) in fields
    ensures IsCoverage(n, fields, min, Reader(loose)) ==> min == NaN
    ensures Drawn(n, (k, ONE_CONSTRUCTOR), Reader(loose)) == Finite(1.0)
  {
    ConstructorIsNaN(loose);
    assert Spoils(n, (k, ONE_CONSTRUCTOR), Reader(loose));
  }

  lemma PowerIsInfinite(digits: nat, loose: string -> Float)
    requires digits >= 309
    ensures ParseQuantity(Some(PowerText(digits)), loose) == PosInf
  {
    var s, none := PowerText(digits), "";
    PowerRead(digits);
    PowerOverflows(digits);
    assert s == s + none + none;
    assert IsDigit(s[0]) && IsDigit(s[|s| - 1]);
    ParseMatched(s, s, none, none, loose);
    SuffixKinds(none);
    MultKinds(ReadDecimal(s), 1.0);
  }

  /** A plain number of 310 digits or more makes coverage NaN as well, and its bar NaN wide. */
  lemma OverflowIsNaN(n: Need, fields: seq<(string, string)>, k: string, digits: nat, min: Float,
                      loose: string -> Float)
    requires digits >= 309 && (k, PowerText(digits)) in fields
    ensures IsCoverage(n, fields, min, Reader(loose)) ==> min == NaN
    ensures Drawn(n, (k, PowerText(digits)), Reader(loose)) == NaN
  {
    PowerIsInfinite(digits, loose);
    assert Spoils(n, (k, PowerText(digits)), Reader(loose));
  }

  // ---- chunks

  datatype Estimate = Estimate(total: Float, bindingDim: string)

  function Ceil(x: Float): Float {
    if x.Finite? then Finite((-((-x.v).Floor)) as real) else x
  }

  /** The chunks that one resource asks for; 0 when it has no positive min-unit. */
  function Chunks(n: Need, field: (string, string), parse: Parser): Float {
    var chunk := Unit(n, field.0, parse);
    if AtMostZero(chunk) then Finite(0.0) else Ceil(Over(Want(field.1, parse), chunk))
  }

  /** total is the most chunks that a resource asks for and dim the first that asks for them. */
  ghost predicate IsMost(n: Need, fields: seq<(string, string)>, total: Float, dim: string, parse: Parser) {
    && !Less(total, Finite(0.0)) && !total.NaN? && !total.NegInf?
    && (forall f | f in fields :: !Less(total, Chunks(n, f, parse)))
    && (total == Finite(0.0) || exists i :: MostAt(n, fields, total, dim, parse, i))
  }

  ghost predicate MostAt(n: Need, fields: seq<(string, string)>, total: Float, dim: string, parse: Parser, i: int) {
    && 0 <= i < |fields| && fields[i].0 == dim && Chunks(n, fields[i], parse) == total
    && forall j | 0 <= j < i :: Less(Chunks(n, fields[j], parse), total) || Chunks(n, fields[j], parse).NaN?
  }

  predicate Asks(n: Need, field: (string, string), parse: Parser) {
    var chunk := Unit(n, field.0, parse);
    var want := Want(field.1, parse);
    && chunk.Finite? && chunk.v > 0.0 && Less(Finite(0.0), want)
    && (want.Finite? ==> !Vanishes(want.v / chunk.v))
  }

  predicate AnyAsks(n: Need, fields: seq<(string, string)>, parse: Parser) {
    exists i | 0 <= i < |fields| :: Asks(n, fields[i], parse)
  }

  /** The maximum is positive exactly when some resource asks for chunks. */
  lemma PositiveExactly(n: Need, fields: seq<(string, string)>, total: Float, dim: string, parse: Parser)
    requires IsMost(n, fields, total, dim, parse)
    ensures Less(Finite(0.0), total) <==> AnyAsks(n, fields, parse)
  {
    if Less(Finite(0.0), total) {
      var i :| MostAt(n, fields, total, dim, parse, i);
      AsksExactly(n, fields[i], parse);
    }
    if i :| 0 <= i < |fields| && Asks(n, fields[i], parse) {
      AsksExactly(n, fields[i], parse);
      assert fields[i] in fields;
    }
  }

  method ChunkEstimate(n: Need, parse: Parser) returns (r: Option<Estimate>)
    ensures r.Some? <==> n.minUnit.Some? && n.minUnit.value != [] && AnyAsks(n, Fields(n.aggregateResources), parse)
    ensures r.Some? ==> Less(Finite(0.0), r.value.total)
    ensures r.Some? ==> IsMost(n, Fields(n.aggregateResources), r.value.total, r.value.bindingDim, parse)
    ensures r.Some? <==> SomethingToSplit(n, parse)
    ensures r.Some? && r.value.total.Finite? ==>
      && r.value.total.v == r.value.total.v.Floor as real
      && ChunksCover(n, r.value.total.v, parse) && OneChunkLessFails(n, r.value.total.v, r.value.bindingDim, parse)
  {
    if n.minUnit.None? || n.minUnit.value == [] {
      return None;
    }
    var fields := Fields(n.aggregateResources);
    var total, bindingDim := Finite(0.0), "";
    for i := 0 to |fields|
      invariant IsMost(n, fields[..i], total, bindingDim, parse)
    {
      assert fields[..i + 1] == fields[..i] + [fields[i]];
      MostExtends(n, fields, i, total, bindingDim, parse);
      var chunk := Unit(n, fields[i].0, parse);
      if AtMostZero(chunk) {
        continue;
      }
      var c := Ceil(Over(Want(fields[i].1, parse), chunk));
      if Less(total, c) {
        total := c;
        bindingDim := fields[i].0;
      }
    }
    assert fields[..|fields|] == fields;
    PositiveExactly(n, fields, total, bindingDim, parse);
    r := if Less(Finite(0.0), total) then Some(Estimate(total, bindingDim)) else None;
    SplitExactly(n, parse);
    if r.Some? && total.Finite? {
      EstimateInFields(n, total.v, bindingDim, parse);
    }
  }

  // ---- the estimate in terms of the two records

  /** Some resource of the aggregate has a positive min-unit and a positive amount of which the
      min-unit is not an infinite multiple. */
  ghost predicate SomethingToSplit(n: Need, parse: Parser) {
    && n.minUnit.Some? && n.minUnit.value != [] && n.aggregateResources.Some?
    && exists f | f in n.aggregateResources.value ::
         Splits(parse(Lookup(n.minUnit, f.0)), parse(Some(f.1)))
  }

  predicate Splits(unit: Float, want: Float) {
    && unit.Finite? && unit.v > 0.0
    && (want.PosInf? || (want.Finite? && want.v > 0.0 && !Vanishes(want.v / unit.v)))
  }

  /** total min-units make up at least the aggregate, in every resource that has a min-unit. */
  ghost predicate ChunksCover(n: Need, total: real, parse: Parser) {
    n.aggregateResources.Some? ==>
      forall f | f in n.aggregateResources.value ::
        CoverOne(total, parse(Lookup(n.minUnit, f.0)), parse(Some(f.1)))
  }

  predicate CoverOne(total: real, unit: Float, want: Float) {
    unit.Finite? && unit.v > 0.0 && want.Finite? ==> total * unit.v >= want.v
  }

  /** One min-unit less does not make up the aggregate of the resource that is named. */
  ghost predicate OneChunkLessFails(n: Need, total: real, dim: string, parse: Parser) {
    && n.aggregateResources.Some?
    && exists f | f in n.aggregateResources.value && f.0 == dim ::
         LessFails(total, parse(Lookup(n.minUnit, f.0)), parse(Some(f.1)))
  }

  predicate LessFails(total: real, unit: Float, want: Float) {
    unit.Finite? && unit.v > 0.0 && want.Finite? && (total - 1.0) * unit.v < want.v
  }

  lemma SplitExactly(n: Need, parse: Parser)
    ensures SomethingToSplit(n, parse)
       <==> n.minUnit.Some? && n.minUnit.value != [] && AnyAsks(n, Fields(n.aggregateResources), parse)
  {
    if n.aggregateResources.Some? {
      var fields := n.aggregateResources.value;
      forall f | f in fields ensures Asks(n, f, parse) <==> Splits(parse(Lookup(n.minUnit, f.0)), parse(Some(f.1))) {
      }
      assert forall i | 0 <= i < |fields| :: fields[i] in fields;
    }
  }

  lemma CoverInFields(n: Need, f: (string, string), total: real, parse: Parser)
    requires Suffices(n, f, total, parse)
    ensures CoverOne(total, parse(Lookup(n.minUnit, f.0)), parse(Some(f.1)))
  {
  }

  lemma FailsInFields(n: Need, f: (string, string), total: real, parse: Parser)
    requires !Suffices(n, f, total - 1.0, parse)
    ensures LessFails(total, parse(Lookup(n.minUnit, f.0)), parse(Some(f.1)))
  {
  }

  lemma EstimateInFields(n: Need, total: real, dim: string, parse: Parser)
    requires IsMost(n, Fields(n.aggregateResources), Finite(total), dim, parse) && total > 0.0
    ensures total == total.Floor as real && ChunksCover(n, total, parse) && OneChunkLessFails(n, total, dim, parse)
  {
    EstimateIsLeast(n, Fields(n.aggregateResources), Finite(total), dim, parse);
    var f :| f in Fields(n.aggregateResources) && f.0 == dim && !Suffices(n, f, total - 1.0, parse);
    FailsInFields(n, f, total, parse);
    forall g | g in n.aggregateResources.value
      ensures CoverOne(total, parse(Lookup(n.minUnit, g.0)), parse(Some(g.1)))
    {
      CoverInFields(n, g, total, parse);
    }
  }

  lemma MostExtends(n: Need, fields: seq<(string, string)>, i: nat, total: Float, dim: string, parse: Parser)
    requires i < |fields| && IsMost(n, fields[..i], total, dim, parse)
    ensures var c := Chunks(n, fields[i], parse);
      if Less(total, c) then IsMost(n, fields[..i + 1], c, fields[i].0, parse)
      else IsMost(n, fields[..i + 1], total, dim, parse)
  {
    var more := fields[..i + 1];
    var c := Chunks(n, fields[i], parse);
    assert forall f :: f in more <==> f in fields[..i] || f == fields[i];
    if Less(total, c) {
      forall j | 0 <= j < i
        ensures Less(Chunks(n, more[j], parse), c) || Chunks(n, more[j], parse).NaN?
      {
        assert more[j] == fields[..i][j] && more[j] in fields[..i];
      }
      assert MostAt(n, more, c, fields[i].0, parse, i);
    } else if total != Finite(0.0) {
      var j :| MostAt(n, fields[..i], total, dim, parse, j);
      assert MostAt(n, more, total, dim, parse, j);
    }
  }

  lemma Scaled(x: real, y: real, c: real)
    requires c > 0.0
    ensures x > y ==> x * c > y * c
    ensures x >= y ==> x * c >= y * c
  {
    if x > y {
      assert (x - y) * c > 0.0;
      assert (x - y) * c == x * c - y * c;
    }
  }

  /** A whole number of chunks suffices for a resource. */
  predicate Suffices(n: Need, field: (string, string), count: real, parse: Parser) {
    var chunk := Unit(n, field.0, parse);
    var want := Want(field.1, parse);
    chunk.Finite? && chunk.v > 0.0 && want.Finite? ==> count * chunk.v >= want.v
  }

  /** Ceil(Near(q)) is no less than q, except that it is 0 for a q below 1 that vanishes. */
  lemma CeilAbove(q: real, count: real)
    requires count >= 1.0 && !Less(Finite(count), Ceil(Near(q)))
    ensures count >= q
  {
    InRange(q);
    RangeDisjoint(q);
    RangeDisjoint(-q);
  }

  lemma QuotientSuffices(a: real, c: real, count: real)
    requires c > 0.0 && count >= 1.0
    requires !Less(Finite(count), Ceil(Near(a / c)))
    ensures count * c >= a
  {
    var q := a / c;
    assert q * c == a;
    CeilAbove(q, count);
    Scaled(count, q, c);
  }

  /** A positive finite ceiling is whole and less than 1 above the quotient. */
  lemma CeilBelow(q: real, total: real)
    requires Ceil(Near(q)) == Finite(total) && total > 0.0
    ensures total == total.Floor as real && total - 1.0 < q
  {
  }

  lemma QuotientIsTight(a: real, c: real, total: real)
    requires c > 0.0 && total > 0.0 && Ceil(Near(a / c)) == Finite(total)
    ensures total == total.Floor as real && (total - 1.0) * c < a
  {
    var q := a / c;
    assert q * c == a;
    CeilBelow(q, total);
    Scaled(q, total - 1.0, c);
  }

  lemma ChunksSuffice(n: Need, field: (string, string), count: real, parse: Parser)
    requires count >= 1.0 && !Less(Finite(count), Chunks(n, field, parse))
    ensures Suffices(n, field, count, parse)
  {
    var chunk := Unit(n, field.0, parse);
    var want := Want(field.1, parse);
    if chunk.Finite? && chunk.v > 0.0 && want.Finite? {
      QuotientSuffices(want.v, chunk.v, count);
    }
  }

  lemma BindingIsTight(n: Need, field: (string, string), total: real, parse: Parser)
    requires Chunks(n, field, parse) == Finite(total) && total > 0.0
    ensures total == total.Floor as real && !Suffices(n, field, total - 1.0, parse)
  {
    var chunk := Unit(n, field.0, parse);
    var want := Want(field.1, parse);
    assert chunk.Finite? && chunk.v > 0.0 && want.Finite?;
    QuotientIsTight(want.v, chunk.v, total);
  }

  /** A finite estimate is the least number of chunks that suffices for every resource with a
      positive min-unit: it does, and one chunk less fails for the binding resource. */
  lemma EstimateIsLeast(n: Need, fields: seq<(string, string)>, total: Float, dim: string, parse: Parser)
    requires IsMost(n, fields, total, dim, parse) && total.Finite? && total.v > 0.0
    ensures total.v == total.v.Floor as real
    ensures forall f | f in fields :: Suffices(n, f, total.v, parse)
    ensures exists f :: f in fields && f.0 == dim && !Suffices(n, f, total.v - 1.0, parse)
  {
    var i :| MostAt(n, fields, total, dim, parse, i);
    assert fields[i] in fields;
    BindingIsTight(n, fields[i], total.v, parse);
    forall f | f in fields ensures Suffices(n, f, total.v, parse) {
      ChunksSuffice(n, f, total.v, parse);
    }
  }

  lemma PositiveChunks(a: real, c: real)
    requires c > 0.0
    ensures Less(Finite(0.0), Ceil(Near(a / c))) <==> a > 0.0 && !Vanishes(a / c)
  {
    var q := a / c;
    assert q * c == a;
    assert q > 0.0 <==> a > 0.0 by {
      assert q > 0.0 ==> q * c > 0.0;
      assert q <= 0.0 ==> (-q) * c >= 0.0;
    }
    RangeDisjoint(q);
    InRange(q);
  }

  /** A resource asks for chunks exactly when its min-unit is positive and finite, its
      aggregate is positive, be it infinite, and the quotient does not vanish. */
  lemma AsksExactly(n: Need, field: (string, string), parse: Parser)
    ensures Less(Finite(0.0), Chunks(n, field, parse)) <==> Asks(n, field, parse)
  {
    var chunk := Unit(n, field.0, parse);
    var want := Want(field.1, parse);
    if chunk.Finite? && want.Finite? && chunk.v > 0.0 {
      PositiveChunks(want.v, chunk.v);
    }
  }
}
