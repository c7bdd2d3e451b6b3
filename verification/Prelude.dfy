/** Small vocabulary shared by the other modules. */
module Prelude {
  datatype Option<+T> = None | Some(value: T)

  datatype Result<+T, +E> = Ok(value: T) | Err(error: E)

  /** A JavaScript Map: keys stay in the order in which they were first set. */
  datatype JsMap<V> = JsMap(keys: seq<string>, vals: map<string, V>) {
    function Get(k: string, default: V): V {
      if k in vals then vals[k] else default
    }

    function Set(k: string, v: V): JsMap<V> {
      JsMap(if k in vals then keys else keys + [k], vals[k := v])
    }
  }

  ghost predicate NoDup<T>(xs: seq<T>) {
    forall i, j | 0 <= i < j < |xs| :: xs[i] != xs[j]
  }

  function Min(a: int, b: int): int {
    if a <= b then a else b
  }

  /** The elements that satisfy p, in order. */
  function Filter<T>(p: T -> bool, xs: seq<T>): (r: seq<T>)
    ensures |r| <= |xs|
  {
    if xs == [] then []
    else Filter(p, xs[..|xs| - 1]) + (if p(xs[|xs| - 1]) then [xs[|xs| - 1]] else [])
  }

  lemma FilterAppend<T>(p: T -> bool, xs: seq<T>, x: T)
    ensures Filter(p, xs + [x]) == if p(x) then Filter(p, xs) + [x] else Filter(p, xs)
  {
    assert (xs + [x])[..|xs|] == xs;
  }

  lemma ConcatAssociates<T>(a: seq<T>, b: seq<T>, c: seq<T>)
    ensures a + (b + c) == a + b + c
  {
  }

  lemma {:induction false} FilterExact<T>(p: T -> bool, xs: seq<T>, x: T)
    ensures multiset(Filter(p, xs))[x] == if p(x) then multiset(xs)[x] else 0
  {
    if xs == [] {
    } else {
      assert xs == xs[..|xs| - 1] + [xs[|xs| - 1]];
      FilterExact(p, xs[..|xs| - 1], x);
    }
  }

  /** In a duplicate-free sequence every element occurs exactly once. */
  lemma {:induction false} NoDupCounts<T>(xs: seq<T>)
    requires NoDup(xs)
    ensures forall x: T | x in xs :: multiset(xs)[x] == 1
  {
    if xs == [] {
    } else {
      var tail := xs[1..];
      NoDupCounts(tail);
      assert xs == [xs[0]] + tail;
      forall x: T | x in xs ensures multiset(xs)[x] == 1 {
        if x == xs[0] {
          assert x !in tail;
          assert multiset(tail)[x] == 0;
        } else {
          assert x in tail;
        }
      }
    }
  }

  lemma CountsTwice<T>(xs: seq<T>, i: nat, j: nat)
    requires i < j < |xs|
    ensures xs[i] == xs[j] ==> multiset(xs)[xs[i]] >= 2
  {
    var front, back := xs[..j], xs[j..];
    assert xs == front + back;
    assert front[i] == xs[i] && back[0] == xs[j];
    assert xs[i] in front && xs[j] in back;
  }

  lemma CountsNoDup<T>(xs: seq<T>)
    requires forall x: T | x in xs :: multiset(xs)[x] == 1
    ensures NoDup(xs)
  {
    forall i, j | 0 <= i < j < |xs| ensures xs[i] != xs[j] {
      CountsTwice(xs, i, j);
    }
  }

  /** Rearranging a duplicate-free sequence leaves it duplicate-free. */
  lemma NoDupPermuted<T>(xs: seq<T>, ys: seq<T>)
    requires NoDup(xs) && multiset(xs) == multiset(ys)
    ensures NoDup(ys)
  {
    NoDupCounts(xs);
    forall y: T | y in ys ensures multiset(ys)[y] == 1 {
      assert y in multiset(ys);
      assert y in multiset(xs);
      assert y in xs;
    }
    CountsNoDup(ys);
  }
}

/** Decimal rendering of integers, as JavaScript's String(n) prints them. */
module Decimal {
  predicate IsDigit(c: char) {
    '0' <= c <= '9'
  }

  predicate AllDigits(s: string) {
    forall i | 0 <= i < |s| :: IsDigit(s[i])
  }

  function DigitChar(d: nat): char
    requires d < 10
  {
    '0' + d as char
  }

  function DigitVal(c: char): nat
    requires IsDigit(c)
  {
    (c - '0') as nat
  }

  function NatStr(n: nat): (s: string)
    ensures s != [] && AllDigits(s)
  {
    if n < 10 then [DigitChar(n)] else NatStr(n / 10) + [DigitChar(n % 10)]
  }

  function IntStr(n: int): string {
    if n < 0 then "-" + NatStr(-n) else NatStr(n)
  }

  /** The number a string of digits denotes; the empty string denotes 0. */
  function DigitsVal(s: string): nat
    requires AllDigits(s)
  {
    DigitsUpTo(s, |s|)
  }

  /** The number that the first k digits denote. */
  function DigitsUpTo(s: string, k: nat): nat
    requires AllDigits(s) && k <= |s|
  {
    if k == 0 then 0 else 10 * DigitsUpTo(s, k - 1) + DigitVal(s[k - 1])
  }

  lemma {:induction false} DigitsOfPrefix(s: string, t: string, k: nat)
    requires AllDigits(s) && AllDigits(s + t) && k <= |s|
    ensures DigitsUpTo(s + t, k) == DigitsUpTo(s, k)
  {
    if k == 0 {
    } else {
      DigitsOfPrefix(s, t, k - 1);
    }
  }

  lemma {:induction false} NatStrVal(n: nat)
    ensures DigitsVal(NatStr(n)) == n
  {
    if n < 10 {
      assert DigitsUpTo(NatStr(n), 0) == 0;
    } else {
      NatStrVal(n / 10);
      DigitsOfPrefix(NatStr(n / 10), [DigitChar(n % 10)], |NatStr(n / 10)|);
    }
  }

  lemma NatStrInjective(a: nat, b: nat)
    requires NatStr(a) == NatStr(b)
    ensures a == b
  {
    NatStrVal(a);
    NatStrVal(b);
  }
}

/** Floating-point numbers: rounding to the precision is left aside, but not the special
    values, nor that numbers are too large or too small to be told from infinity or 0. */
module Floats {
  datatype Float = Finite(v: real) | NaN | PosInf | NegInf

  // ---- the range of the numbers

  /** x / 2^k */
  function Halved(x: real, k: nat): real
    decreases k
  {
    if k == 0 then x else Halved(x / 2.0, k - 1)
  }

  /** x * 2^k */
  function Doubled(x: real, k: nat): real
    decreases k
  {
    if k == 0 then x else Doubled(2.0 * x, k - 1)
  }

  /** x rounds to infinity: it is at least 2^1024 - 2^970, which is (2^54 - 1) * 2^970. */
  predicate Overflows(x: real) {
    Halved(x, 970) >= 18014398509481983.0
  }

  /** x rounds to 0 or is negative: it is at most 2^-1075. */
  predicate Vanishes(x: real) {
    Doubled(x, 1075) <= 1.0
  }

  /** The result of a computation whose exact value is x. */
  function Near(x: real): Float {
    if Overflows(x) then PosInf
    else if Overflows(-x) then NegInf
    else if Vanishes(x) && Vanishes(-x) then Finite(0.0)
    else Finite(x)
  }

  lemma {:induction false} HalvedMonotone(x: real, y: real, k: nat)
    requires x <= y
    ensures Halved(x, k) <= Halved(y, k)
    decreases k
  {
    if k == 0 {
    } else {
      HalvedMonotone(x / 2.0, y / 2.0, k - 1);
    }
  }

  lemma {:induction false} HalvedShrinks(x: real, k: nat)
    requires x >= 0.0
    ensures 0.0 <= Halved(x, k) <= x
    decreases k
  {
    if k == 0 {
    } else {
      HalvedShrinks(x / 2.0, k - 1);
    }
  }

  lemma {:induction false} DoubledMonotone(x: real, y: real, k: nat)
    requires x <= y
    ensures Doubled(x, k) <= Doubled(y, k)
    decreases k
  {
    if k == 0 {
    } else {
      DoubledMonotone(2.0 * x, 2.0 * y, k - 1);
    }
  }

  lemma {:induction false} DoubledGrows(x: real, k: nat)
    requires x >= 0.0
    ensures Doubled(x, k) >= x
    ensures k > 0 ==> Doubled(x, k) >= 2.0 * x
    decreases k
  {
    if k == 0 {
    } else {
      DoubledGrows(2.0 * x, k - 1);
    }
  }

  lemma RangeMonotone(x: real, y: real)
    requires x <= y
    ensures Overflows(x) ==> Overflows(y)
    ensures Vanishes(y) ==> Vanishes(x)
  {
    HalvedMonotone(x, y, 970);
    DoubledMonotone(x, y, 1075);
  }

  /** Numbers up to 1 do not overflow, nor do those from 1 to 2^54 - 2, which do not vanish either. */
  lemma InRange(x: real)
    ensures x < 18014398509481983.0 ==> !Overflows(x)
    ensures x >= 1.0 ==> !Vanishes(x)
    ensures x <= 0.0 ==> Vanishes(x)
  {
    if x >= 0.0 {
      HalvedShrinks(x, 970);
      DoubledGrows(x, 1075);
    } else {
      HalvedMonotone(x, 0.0, 970);
      HalvedShrinks(0.0, 970);
    }
    if x <= 0.0 {
      DoubledMonotone(x, 0.0, 1075);
      DoubledZero(1075);
    }
  }

  lemma {:induction false} DoubledZero(k: nat)
    ensures Doubled(0.0, k) == 0.0
  {
    if k == 0 {
    } else {
      DoubledZero(k - 1);
    }
  }

  /** No number both overflows and vanishes. */
  lemma RangeDisjoint(x: real)
    ensures !(Overflows(x) && Vanishes(x))
    ensures x >= 0.0 ==> !Overflows(-x) && Vanishes(-x)
  {
    InRange(x);
    InRange(-x);
  }

  /** What Near makes of numbers that are not negative. */
  lemma NearPositive(x: real)
    requires x >= 0.0
    ensures Near(x) == if Overflows(x) then PosInf else if Vanishes(x) then Finite(0.0) else Finite(x)
  {
    RangeDisjoint(x);
  }

  lemma NearModest(x: real)
    requires x == 0.0 || 1.0 <= x < 18014398509481983.0
    ensures Near(x) == Finite(x)
  {
    NearPositive(x);
    InRange(x);
  }

  /** Near keeps the sign or gives 0. */
  lemma NearSign(x: real)
    ensures !Near(x).NaN?
    ensures x >= 0.0 ==> !Less(Near(x), Finite(0.0))
    ensures x <= 0.0 ==> !Less(Finite(0.0), Near(x))
  {
    RangeDisjoint(x);
    RangeDisjoint(-x);
    assert -(-x) == x;
  }

  // ---- the bounds as powers of two

  function Pow2(k: nat): (p: nat)
    ensures p >= 1
  {
    if k == 0 then 1 else 2 * Pow2(k - 1)
  }

  lemma {:induction false} Pow2Adds(j: nat, k: nat)
    ensures Pow2(j + k) == Pow2(j) * Pow2(k)
  {
    if k == 0 {
    } else {
      Pow2Adds(j, k - 1);
      assert Pow2(j) * (2 * Pow2(k - 1)) == 2 * (Pow2(j) * Pow2(k - 1));
    }
  }

  lemma {:induction false} DoubledIsProduct(x: real, k: nat)
    ensures Doubled(x, k) == x * Pow2(k) as real
    decreases k
  {
    if k == 0 {
    } else {
      DoubledIsProduct(2.0 * x, k - 1);
      var p := Pow2(k - 1) as real;
      assert 2.0 * x * p == x * (2.0 * p);
    }
  }

  lemma {:induction false} DoubledOnce(x: real, k: nat)
    ensures Doubled(2.0 * x, k) == 2.0 * Doubled(x, k)
    decreases k
  {
    if k == 0 {
    } else {
      DoubledOnce(2.0 * x, k - 1);
    }
  }

  lemma {:induction false} HalvedBound(x: real, c: real, k: nat)
    ensures Halved(x, k) >= c <==> x >= Doubled(c, k)
    decreases k
  {
    if k == 0 {
    } else {
      HalvedBound(x / 2.0, c, k - 1);
      DoubledOnce(c, k - 1);
    }
  }

  lemma {:induction false} DoubledPowers(i: nat, j: nat, k: nat)
    ensures Doubled(Pow2(i) as real - Pow2(j) as real, k) == Pow2(i + k) as real - Pow2(j + k) as real
    decreases k
  {
    if k == 0 {
    } else {
      DoubledPowers(i + 1, j + 1, k - 1);
    }
  }

  lemma Pow2Value()
    ensures Pow2(54) == 18014398509481984
  {
    assert Pow2(9) == 512;
    Pow2Adds(9, 9);
    Pow2Adds(18, 9);
    Pow2Adds(27, 27);
  }

  /** The numbers that round to infinity. */
  lemma OverflowsExactly(x: real, k: nat)
    requires k == 970
    ensures Overflows(x) <==> x >= Pow2(k + 54) as real - Pow2(k) as real
  {
    Pow2Value();
    HalvedBound(x, Pow2(54) as real - Pow2(0) as real, k);
    DoubledPowers(54, 0, k);
  }

  /** The numbers that round to 0 or are negative. */
  lemma VanishesExactly(x: real, k: nat)
    requires k == 1075
    ensures Vanishes(x) <==> x * Pow2(k) as real <= 1.0
  {
    DoubledIsProduct(x, k);
  }

  // ---- arithmetic

  /** a - b; differences do not vanish. */
  function Minus(a: Float, b: Float): Float {
    if a.NaN? || b.NaN? then NaN
    else if a.Finite? && b.Finite? then
      if Overflows(a.v - b.v) then PosInf else if Overflows(b.v - a.v) then NegInf else Finite(a.v - b.v)
    else if a == b then NaN
    else if a.Finite? then (if b.PosInf? then NegInf else PosInf)
    else a
  }

  /** a / b for b not 0. */
  function Over(a: Float, b: Float): Float
    requires b.Finite? ==> b.v != 0.0
  {
    if a.NaN? || b.NaN? then NaN
    else if !b.Finite? then (if a.Finite? then Finite(0.0) else NaN)
    else if a.Finite? then Near(a.v / b.v)
    else if b.v > 0.0 then a
    else if a.PosInf? then NegInf else PosInf
  }

  function Product(x: real, y: real): real {
    x * y
  }

  function Mult(a: Float, b: Float): Float {
    if a.NaN? || b.NaN? then NaN
    else if a.Finite? && b.Finite? then Near(Product(a.v, b.v))
    else if a == Finite(0.0) || b == Finite(0.0) then NaN
    else if Less(Finite(0.0), a) == Less(Finite(0.0), b) then PosInf else NegInf
  }

  predicate Less(a: Float, b: Float) {
    match (a, b)
    case (Finite(x), Finite(y)) => x < y
    case (NegInf, Finite(_)) => true
    case (NegInf, PosInf) => true
    case (Finite(_), PosInf) => true
    case _ => false
  }

  /** An infinite factor keeps its sign with that of the other, and times 0 there is no number. */
  lemma InfiniteProducts(y: real)
    ensures Mult(PosInf, Finite(y)) == if y > 0.0 then PosInf else if y < 0.0 then NegInf else NaN
    ensures Mult(PosInf, PosInf) == PosInf && Mult(NegInf, NegInf) == PosInf && Mult(PosInf, NegInf) == NegInf
  {
  }

  lemma LessOrdered(x: Float, y: Float, z: Float)
    ensures Less(x, y) && Less(y, z) ==> Less(x, z)
    ensures !x.NaN? && !y.NaN? && !z.NaN? && !Less(x, y) && !Less(y, z) ==> !Less(x, z)
  {
  }

  lemma MinusNegative(a: Float, b: Float)
    requires (a.Finite? || a.PosInf?) && (b.Finite? || b.PosInf?)
    ensures Less(Minus(a, b), Finite(0.0)) <==> Less(a, b)
  {
    if a.Finite? && b.Finite? {
      InRange(a.v - b.v);
      InRange(b.v - a.v);
    }
  }

  /** a <= 0, which NaN is not. */
  predicate AtMostZero(a: Float) {
    a.NegInf? || (a.Finite? && a.v <= 0.0)
  }

  function MathMin(a: Float, b: Float): Float {
    if a.NaN? || b.NaN? then NaN else if Less(b, a) then b else a
  }

  function MaxWithZero(a: Float): Float {
    if a.NaN? then NaN else if Less(Finite(0.0), a) then a else Finite(0.0)
  }
}
