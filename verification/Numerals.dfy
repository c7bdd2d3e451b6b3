/** Fixed-point decimals as text: toFixed, the two replacements of trimNum, and the
    reading of such text (ui/src/lib/format.ts). */
module Numerals {
  import opened Decimal
  import opened Floats

  /** x * 10^k */
  function Shift(x: real, k: nat): real
    decreases k
  {
    if k == 0 then x else Shift(10.0 * x, k - 1)
  }

  /** x / 10^k */
  function Unshift(x: real, k: nat): real
    decreases k
  {
    if k == 0 then x else Unshift(x / 10.0, k - 1)
  }

  lemma {:induction false} ShiftUnshift(x: real, k: nat)
    ensures Shift(Unshift(x, k), k) == x
    decreases k
  {
    if k == 0 {
    } else {
      UnshiftLast(x, k - 1);
      ShiftUnshift(x, k - 1);
    }
  }

  lemma {:induction false} UnshiftLast(x: real, k: nat)
    ensures Unshift(x, k + 1) == Unshift(x, k) / 10.0
    decreases k
  {
    if k == 0 {
    } else {
      UnshiftLast(x / 10.0, k - 1);
    }
  }

  lemma {:induction false} UnshiftAdds(x: real, y: real, k: nat)
    ensures Unshift(x + y, k) == Unshift(x, k) + Unshift(y, k)
    decreases k
  {
    if k == 0 {
    } else {
      UnshiftAdds(x / 10.0, y / 10.0, k - 1);
    }
  }

  function Pow10(k: nat): (p: nat)
    ensures p >= 1
  {
    if k == 0 then 1 else 10 * Pow10(k - 1)
  }

  /** Shifting k times is multiplying by 10^k. */
  lemma {:induction false} ShiftIsProduct(x: real, k: nat)
    ensures Shift(x, k) == x * Pow10(k) as real
    decreases k
  {
    if k == 0 {
    } else {
      ShiftIsProduct(10.0 * x, k - 1);
      var p := Pow10(k - 1) as real;
      assert 10.0 * x * p == x * (10.0 * p);
    }
  }

  lemma Cancels(y: real, p: real)
    requires p > 0.0
    ensures (y * p) / p == y
  {
  }

  /** Shifting back k times is dividing by 10^k. */
  lemma UnshiftIsQuotient(x: real, k: nat)
    ensures Unshift(x, k) == x / Pow10(k) as real
  {
    ShiftUnshift(x, k);
    ShiftIsProduct(Unshift(x, k), k);
    Cancels(Unshift(x, k), Pow10(k) as real);
  }

  lemma UnshiftShift(x: real, k: nat)
    ensures Unshift(Shift(x, k), k) == x
  {
    UnshiftIsQuotient(Shift(x, k), k);
    ShiftIsProduct(x, k);
    Cancels(x, Pow10(k) as real);
  }

  lemma {:induction false} UnshiftMonotone(x: real, y: real, k: nat)
    requires x <= y
    ensures Unshift(x, k) <= Unshift(y, k)
    decreases k
  {
    if k == 0 {
    } else {
      UnshiftMonotone(x / 10.0, y / 10.0, k - 1);
    }
  }

  function Abs(x: real): real {
    if x < 0.0 then -x else x
  }

  /** The digits of n without the last dp, as a number. */
  function DropDigits(n: nat, dp: nat): nat {
    if dp == 0 then n else DropDigits(n / 10, dp - 1)
  }

  /** The last dp digits of n. */
  function Padded(n: nat, dp: nat): (s: string)
    ensures |s| == dp && AllDigits(s)
  {
    if dp == 0 then [] else Padded(n / 10, dp - 1) + [DigitChar(n % 10)]
  }

  /** The integer nearest to x; of two equally near, the larger (section 21.1.3.3 of ECMA-262). */
  function Nearest(x: real): (n: int)
    ensures n as real - 0.5 <= x < n as real + 0.5
  {
    (x + 0.5).Floor
  }

  lemma NearestMonotone(x: real, y: real)
    requires x <= y
    ensures Nearest(x) <= Nearest(y)
  {
  }

  lemma NearestUnique(x: real, n: int)
    ensures Nearest(x) == n <==> n as real - 0.5 <= x < n as real + 0.5
  {
  }

  /** n / 10^dp, printed with dp decimals. */
  function FixedStr(n: nat, dp: nat): string {
    if dp == 0 then NatStr(n) else NatStr(DropDigits(n, dp)) + "." + Padded(n, dp)
  }

  /** Number.prototype.toFixed below 10^21; from there on it prints an exponent. */
  function ToFixed(x: real, dp: nat): string
    requires -1e21 < x < 1e21
  {
    if x < 0.0 then
      ShiftPositive(-x, dp);
      "-" + FixedStr(Nearest(Shift(-x, dp)), dp)
    else
      ShiftPositive(x, dp);
      FixedStr(Nearest(Shift(x, dp)), dp)
  }

  lemma {:induction false} ShiftPositive(x: real, k: nat)
    requires x >= 0.0
    ensures Shift(x, k) >= 0.0
    decreases k
  {
    if k == 0 {
    } else {
      ShiftPositive(10.0 * x, k - 1);
    }
  }

  // ---- trimNum's replacements

  function TrailingZeros(s: string): (n: nat)
    ensures n <= |s|
    ensures forall i | |s| - n <= i < |s| :: s[i] == '0'
    ensures n < |s| ==> s[|s| - n - 1] != '0'
  {
    ZerosBefore(s, |s|)
  }

  /** The number of zeros that end at position k. */
  function ZerosBefore(s: string, k: nat): (n: nat)
    requires k <= |s|
    ensures n <= k
    ensures forall i | k - n <= i < k :: s[i] == '0'
    ensures n < k ==> s[k - n - 1] != '0'
  {
    if k > 0 && s[k - 1] == '0' then 1 + ZerosBefore(s, k - 1) else 0
  }

  /** A character that is no zero stops the count. */
  lemma {:induction false} ZerosAfter(a: string, b: string, k: nat)
    requires a != [] && a[|a| - 1] != '0' && k <= |b|
    ensures ZerosBefore(a + b, |a| + k) == ZerosBefore(b, k)
  {
    if k == 0 {
    } else {
      ZerosAfter(a, b, k - 1);
    }
  }

  lemma TrailingZerosAre(s: string, n: nat)
    requires n <= |s| && (forall i | |s| - n <= i < |s| :: s[i] == '0')
    requires n < |s| ==> s[|s| - n - 1] != '0'
    ensures TrailingZeros(s) == n
  {
  }

  predicate AllZeros(s: string) {
    forall i | 0 <= i < |s| :: s[i] == '0'
  }

  /** A match of \.0+$ that starts at p. */
  predicate MatchesDotZeros(s: string, p: int) {
    0 <= p < |s| - 1 && s[p] == '.' && AllZeros(s[p + 1..])
  }

  /** A match of (\.[0-9]*?)0+$ that starts at p and whose group ends at q. */
  predicate MatchesFraction(s: string, p: int, q: int) {
    0 <= p < q < |s| && s[p] == '.' && AllDigits(s[p + 1..q]) && AllZeros(s[q..])
  }

  /** s.replace(/\.0+$/, "") */
  function DropDotZeros(s: string): string {
    var p := |s| - TrailingZeros(s) - 1;
    if 0 <= p < |s| - 1 && s[p] == '.' then s[..p] else s
  }

  /** s[..q] ends in a dot and digits. */
  predicate Fractional(s: string, q: nat)
    requires q <= |s|
  {
    q > 0 && (s[q - 1] == '.' || (IsDigit(s[q - 1]) && Fractional(s, q - 1)))
  }

  /** s.replace(/(\.[0-9]*?)0+$/, "$1") */
  function DropZeros(s: string): string {
    var q := |s| - TrailingZeros(s);
    if q < |s| && Fractional(s, q) then s[..q] else s
  }

  lemma {:induction false} FractionalHasDot(s: string, q: nat) returns (p: int)
    requires q <= |s| && Fractional(s, q)
    ensures 0 <= p < q && s[p] == '.' && AllDigits(s[p + 1..q])
  {
    if s[q - 1] == '.' {
      p := q - 1;
    } else {
      p := FractionalHasDot(s, q - 1);
      assert s[p + 1..q] == s[p + 1..q - 1] + [s[q - 1]];
    }
  }

  lemma {:induction false} DotMakesFractional(s: string, p: int, q: nat)
    requires 0 <= p < q <= |s| && s[p] == '.' && forall i | p < i < q :: IsDigit(s[i])
    ensures Fractional(s, q)
  {
    if q - 1 == p {
    } else {
      DotMakesFractional(s, p, q - 1);
    }
  }

  /** The replacement cuts at the one place where the pattern matches. */
  lemma DropDotZerosIsReplace(s: string)
    ensures forall p | MatchesDotZeros(s, p) :: DropDotZeros(s) == s[..p]
    ensures (forall p :: !MatchesDotZeros(s, p)) ==> DropDotZeros(s) == s
  {
    forall p | MatchesDotZeros(s, p) ensures p == |s| - TrailingZeros(s) - 1 {
      assert forall i | p + 1 <= i < |s| :: s[i] == s[p + 1..][i - p - 1];
      assert s[|s| - 1] == '0';
    }
    var p := |s| - TrailingZeros(s) - 1;
    if 0 <= p < |s| - 1 && s[p] == '.' {
      assert MatchesDotZeros(s, p);
    }
  }

  /** The replacement keeps the shortest group of the match, as the lazy quantifier demands. */
  lemma DropZerosIsReplace(s: string)
    ensures forall p, q | MatchesFraction(s, p, q) ::
      exists least :: MatchesFraction(s, p, least) && least <= q && DropZeros(s) == s[..least]
        && forall q' | MatchesFraction(s, p, q') :: least <= q'
    ensures (forall p, q :: !MatchesFraction(s, p, q)) ==> DropZeros(s) == s
  {
    var least := |s| - TrailingZeros(s);
    forall p, q | MatchesFraction(s, p, q)
      ensures MatchesFraction(s, p, least) && least <= q && Fractional(s, least)
    {
      assert forall i | q <= i < |s| :: s[i] == s[q..][i - q];
      assert s[|s| - 1] == '0';
      assert s[p] == '.';
      assert forall i | p + 1 <= i < least :: s[i] == s[p + 1..q][i - p - 1];
      DotMakesFractional(s, p, least);
    }
    if least < |s| && Fractional(s, least) {
      var p := FractionalHasDot(s, least);
      assert MatchesFraction(s, p, least);
    }
  }

  function TrimStr(s: string): string {
    DropZeros(DropDotZeros(s))
  }

  /** trimNum for finite numbers. */
  function TrimNum(x: real, dp: nat): string
    requires -1e21 < x < 1e21
  {
    TrimStr(ToFixed(x, dp))
  }

  predicate NoDot(s: string) {
    '.' !in s
  }

  lemma {:induction false} NoDotNoFraction(s: string, q: nat)
    requires NoDot(s) && q <= |s|
    ensures !Fractional(s, q)
  {
    if q == 0 {
    } else {
      NoDotNoFraction(s, q - 1);
    }
  }

  lemma TrimWithoutDot(s: string)
    requires NoDot(s)
    ensures TrimStr(s) == s
  {
    NoDotNoFraction(s, |s| - TrailingZeros(s));
  }

  lemma {:induction false} DigitsAfterDot(front: string, back: string, q: nat)
    requires AllDigits(back) && |front| < q <= |front| + 1 + |back|
    ensures Fractional(front + "." + back, q)
  {
    var s := front + "." + back;
    if q - 1 > |front| {
      assert s[q - 1] == back[q - 1 - |front| - 1];
      DigitsAfterDot(front, back, q - 1);
    } else {
      assert s[q - 1] == '.';
    }
  }

  lemma TrailingZerosOf(front: string, back: string)
    ensures TrailingZeros(front + "." + back) == TrailingZeros(back)
  {
    ZerosAfter(front + ".", back, |back|);
  }

  /** A fraction of zeros goes with its dot. */
  lemma TrimAllZeros(front: string, back: string)
    requires NoDot(front) && back != [] && TrailingZeros(back) == |back|
    ensures TrimStr(front + "." + back) == front
  {
    var s := front + "." + back;
    TrailingZerosOf(front, back);
    assert s[|front|] == '.' && s[..|front|] == front;
    assert DropDotZeros(s) == front;
    TrimWithoutDot(front);
  }

  lemma DropZerosCuts(s: string, q: nat)
    requires q == |s| - TrailingZeros(s) && Fractional(s, q)
    ensures DropZeros(s) == s[..q]
  {
    assert q == |s| ==> s[..q] == s;
  }

  lemma NothingDropped(s: string)
    requires TrailingZeros(s) < |s| && s[|s| - TrailingZeros(s) - 1] != '.'
    ensures DropDotZeros(s) == s
  {
  }

  lemma TrimCuts(s: string, q: nat)
    requires q == |s| - TrailingZeros(s) && Fractional(s, q) && s[q - 1] != '.'
    ensures TrimStr(s) == s[..q]
  {
    NothingDropped(s);
    DropZerosCuts(s, q);
  }

  /** The last k characters of a + b, for k up to |b|. */
  lemma ConcatEnd(a: string, b: string, k: nat)
    requires k < |b|
    ensures (a + b)[|a + b| - k - 1] == b[|b| - k - 1]
    ensures (a + b)[..|a + b| - k] == a + b[..|b| - k]
  {
  }

  /** Any other fraction loses its trailing zeros. */
  lemma TrimSomeZeros(front: string, back: string)
    requires AllDigits(back) && TrailingZeros(back) < |back|
    ensures TrimStr(front + "." + back) == front + "." + back[..|back| - TrailingZeros(back)]
  {
    var q := |front| + 1 + |back| - TrailingZeros(back);
    TrailingZerosOf(front, back);
    ConcatEnd(front + ".", back, TrailingZeros(back));
    assert IsDigit(back[|back| - TrailingZeros(back) - 1]);
    DigitsAfterDot(front, back, q);
    TrimCuts(front + "." + back, q);
  }

  /** A number with the digits a before the point and the digits kept after it. */
  function Point(a: string, kept: string): string {
    if kept == [] then a else a + "." + kept
  }

  /** What is left of front.back after trimming: no fraction when it is all zeros, or the
      fraction without its trailing zeros. The part before the dot is never touched. */
  lemma TrimShape(front: string, back: string)
    requires NoDot(front) && back != [] && AllDigits(back)
    ensures var kept := back[..|back| - TrailingZeros(back)];
      && TrimStr(front + "." + back) == Point(front, kept)
      && (kept != [] ==> kept[|kept| - 1] != '0')
  {
    if TrailingZeros(back) == |back| {
      TrimAllZeros(front, back);
    } else {
      TrimSomeZeros(front, back);
    }
  }

  // ---- reading

  /** The fraction that the digits after a dot denote. */
  function FracVal(s: string): real
    requires AllDigits(s)
  {
    FracFrom(s, 0)
  }

  /** The fraction that the digits from position k on denote after a dot. */
  function FracFrom(s: string, k: nat): real
    requires AllDigits(s) && k <= |s|
    decreases |s| - k
  {
    if k == |s| then 0.0 else (DigitVal(s[k]) as real + FracFrom(s, k + 1)) / 10.0
  }

  lemma {:induction false} FracFromAppend(s: string, c: char, k: nat)
    requires AllDigits(s) && IsDigit(c) && k <= |s|
    ensures AllDigits(s + [c])
    ensures FracFrom(s + [c], k) == FracFrom(s, k) + Unshift(DigitVal(c) as real, |s| - k + 1)
    decreases |s| - k
  {
    if k == |s| {
      assert FracFrom(s + [c], k + 1) == 0.0;
      assert Unshift(DigitVal(c) as real, 1) == Unshift(DigitVal(c) as real / 10.0, 0);
    } else {
      FracFromAppend(s, c, k + 1);
      UnshiftLast(DigitVal(c) as real, |s| - k);
    }
  }

  lemma FracValAppend(s: string, c: char)
    requires AllDigits(s) && IsDigit(c)
    ensures AllDigits(s + [c])
    ensures FracVal(s + [c]) == FracVal(s) + Unshift(DigitVal(c) as real, |s| + 1)
  {
    FracFromAppend(s, c, 0);
  }

  lemma {:induction false} UnshiftZero(k: nat)
    ensures Unshift(0.0, k) == 0.0
  {
    if k == 0 {
    } else {
      UnshiftZero(k - 1);
    }
  }

  /** Trailing zeros do not count. */
  lemma {:induction false} FracValTrim(s: string)
    requires AllDigits(s)
    ensures FracVal(s[..|s| - TrailingZeros(s)]) == FracVal(s)
  {
    if s != [] && s[|s| - 1] == '0' {
      var init := s[..|s| - 1];
      FracValTrim(init);
      TrailingZerosAre(init, TrailingZeros(s) - 1);
      assert s == init + [s[|s| - 1]];
      FracValAppend(init, '0');
      UnshiftZero(|s|);
      assert init[..|init| - TrailingZeros(init)] == s[..|s| - TrailingZeros(s)];
    } else {
      assert s[..|s|] == s;
    }
  }

  /** The digits before and after the point of FixedStr denote n / 10^dp. */
  lemma {:induction false} FixedVal(n: nat, dp: nat)
    ensures DropDigits(n, dp) as real + FracVal(Padded(n, dp)) == Unshift(n as real, dp)
  {
    if dp == 0 {
    } else {
      FixedVal(n / 10, dp - 1);
      FracValAppend(Padded(n / 10, dp - 1), DigitChar(n % 10));
      var q, m := (n / 10) as real, (n % 10) as real;
      assert n as real / 10.0 == q + m / 10.0;
      UnshiftAdds(q, m / 10.0, dp - 1);
      assert Unshift(m, dp) == Unshift(m / 10.0, dp - 1);
      assert DigitVal(DigitChar(n % 10)) == n % 10;
    }
  }

  /** The number of leading characters that satisfy p. */
  function Run(p: char -> bool, s: string): (n: nat)
    ensures n <= |s|
    ensures forall i | 0 <= i < n :: p(s[i])
    ensures n < |s| ==> !p(s[n])
  {
    RunEnd(p, s, 0)
  }

  /** The position after the characters from k on that satisfy p. */
  function RunEnd(p: char -> bool, s: string, k: nat): (n: nat)
    requires k <= |s|
    ensures k <= n <= |s|
    ensures forall i | k <= i < n :: p(s[i])
    ensures n < |s| ==> !p(s[n])
    decreases |s| - k
  {
    if k < |s| && p(s[k]) then RunEnd(p, s, k + 1) else k
  }

  lemma RunIs(p: char -> bool, s: string, n: nat)
    requires n <= |s| && (forall i | 0 <= i < n :: p(s[i])) && (n < |s| ==> !p(s[n]))
    ensures Run(p, s) == n
  {
  }

  /** parseFloat(s) || 0 for text of digits and dots: the longest prefix that is a decimal
      literal counts, and text without a digit in that prefix gives 0. */
  function ReadDecimal(s: string): real {
    var i := Run(IsDigit, s);
    var whole := DigitsVal(s[..i]) as real;
    if i < |s| && s[i] == '.' then
      var rest := s[i + 1..];
      whole + FracVal(rest[..Run(IsDigit, rest)])
    else whole
  }

  lemma {:induction false} FracNotNegative(s: string, k: nat)
    requires AllDigits(s) && k <= |s|
    ensures FracFrom(s, k) >= 0.0
    decreases |s| - k
  {
    if k == |s| {
    } else {
      FracNotNegative(s, k + 1);
    }
  }

  lemma ReadNotNegative(s: string)
    ensures ReadDecimal(s) >= 0.0
  {
    var i := Run(IsDigit, s);
    if i < |s| && s[i] == '.' {
      var rest := s[i + 1..];
      FracNotNegative(rest[..Run(IsDigit, rest)], 0);
    }
  }

  /** parseFloat(s) || 0 for such text: too many digits read as Infinity, too small a number as 0. */
  function ReadFloat(s: string): Float {
    Near(ReadDecimal(s))
  }

  lemma ReadWhole(a: string)
    requires AllDigits(a)
    ensures ReadDecimal(a) == DigitsVal(a) as real
  {
    assert a[..|a|] == a;
    RunIs(IsDigit, a, |a|);
  }

  lemma ReadFraction(a: string, f: string)
    requires AllDigits(a) && AllDigits(f)
    ensures ReadDecimal(a + "." + f) == DigitsVal(a) as real + FracVal(f)
  {
    var s := a + "." + f;
    assert s[..|a|] == a;
    RunIs(IsDigit, s, |a|);
    assert s[|a| + 1..] == f;
    assert f[..|f|] == f;
    RunIs(IsDigit, f, |f|);
  }

  /** t is a decimal without superfluous characters: digits, and if there is a dot, digits
      after it of which the last is not 0. */
  predicate Trimmed(t: string) {
    && t != [] && (forall i | 0 <= i < |t| :: IsDigit(t[i]) || t[i] == '.')
    && t[|t| - 1] != '.'
    && ('.' in t ==> t[|t| - 1] != '0')
  }

  lemma PointTrimmed(a: string, kept: string)
    requires a != [] && AllDigits(a) && AllDigits(kept)
    requires kept != [] ==> kept[|kept| - 1] != '0'
    ensures Trimmed(Point(a, kept))
    ensures a <= Point(a, kept)
  {
    DigitsHaveNoDot(a);
    var t := a + "." + kept;
    assert kept != [] ==> t[|t| - 1] == kept[|kept| - 1];
  }

  lemma PointValue(a: string, kept: string)
    requires AllDigits(a) && AllDigits(kept)
    ensures ReadDecimal(Point(a, kept)) == DigitsVal(a) as real + FracVal(kept)
  {
    if kept == [] {
      ReadWhole(a);
    } else {
      ReadFraction(a, kept);
    }
  }

  lemma TrimAgain(a: string, kept: string)
    requires AllDigits(a) && AllDigits(kept)
    requires kept != [] ==> kept[|kept| - 1] != '0'
    ensures var t := Point(a, kept); TrimStr(t) == t
  {
    DigitsHaveNoDot(a);
    if kept == [] {
      TrimWithoutDot(a);
    } else {
      TrimShape(a, kept);
      assert kept[..|kept|] == kept;
    }
  }

  /** What trimming leaves of a text that denotes v, with the digits a before the dot. */
  ghost predicate TrimsTo(s: string, v: real, a: string) {
    FullyTrimmed(TrimStr(s), v, a)
  }

  ghost predicate FullyTrimmed(t: string, v: real, a: string) {
    ReadDecimal(t) == v && TrimStr(t) == t && Trimmed(t) && a <= t
  }

  lemma PointFullyTrimmed(a: string, kept: string)
    requires a != [] && AllDigits(a) && AllDigits(kept)
    requires kept != [] ==> kept[|kept| - 1] != '0'
    ensures FullyTrimmed(Point(a, kept), DigitsVal(a) as real + FracVal(kept), a)
  {
    PointValue(a, kept);
    PointTrimmed(a, kept);
    TrimAgain(a, kept);
  }

  lemma TrimPoint(a: string, back: string)
    requires a != [] && AllDigits(a) && back != [] && AllDigits(back)
    ensures TrimsTo(a + "." + back, DigitsVal(a) as real + FracVal(back), a)
  {
    DigitsHaveNoDot(a);
    TrimShape(a, back);
    FracValTrim(back);
    PointFullyTrimmed(a, back[..|back| - TrailingZeros(back)]);
  }

  lemma TrimWhole(n: nat)
    ensures TrimsTo(NatStr(n), n as real, NatStr(n))
  {
    DigitsHaveNoDot(NatStr(n));
    TrimWithoutDot(NatStr(n));
    NatStrVal(n);
    ReadWhole(NatStr(n));
  }

  /** Trimming keeps the number: n / 10^dp is read back exactly, the digits before the dot
      stay as they are, and nothing is left to trim. */
  lemma TrimKeepsValue(n: nat, dp: nat)
    ensures TrimsTo(FixedStr(n, dp), Unshift(n as real, dp), NatStr(DropDigits(n, dp)))
  {
    if dp == 0 {
      TrimWhole(n);
    } else {
      TrimPoint(NatStr(DropDigits(n, dp)), Padded(n, dp));
      NatStrVal(DropDigits(n, dp));
      FixedVal(n, dp);
    }
  }

  lemma TrailingZerosSigned(s: string)
    ensures TrailingZeros("-" + s) == TrailingZeros(s)
  {
    ZerosAfter("-", s, |s|);
  }

  /** A sign is no obstacle: the replacements work behind it as without it. */
  lemma TrimSigned(s: string)
    ensures TrimStr("-" + s) == "-" + TrimStr(s)
  {
    DropDotZerosSigned(s);
    DropZerosSigned(DropDotZeros(s));
  }

  lemma DropDotZerosSigned(s: string)
    ensures DropDotZeros("-" + s) == "-" + DropDotZeros(s)
  {
    var t := "-" + s;
    TrailingZerosSigned(s);
    var p := |s| - TrailingZeros(s) - 1;
    if p >= 0 {
      assert t[p + 1] == s[p];
      assert t[p + 2..] == s[p + 1..];
      assert t[..p + 1] == "-" + s[..p];
    }
  }

  lemma {:induction false} FractionalSigned(s: string, q: nat)
    requires q <= |s|
    ensures Fractional("-" + s, q + 1) <==> Fractional(s, q)
  {
    var t := "-" + s;
    if q > 0 {
      assert t[q] == s[q - 1];
      FractionalSigned(s, q - 1);
    } else {
      assert t[0] == '-';
    }
  }

  lemma DropZerosSigned(s: string)
    ensures DropZeros("-" + s) == "-" + DropZeros(s)
  {
    TrailingZerosSigned(s);
    var q := |s| - TrailingZeros(s);
    FractionalSigned(s, q);
    assert ("-" + s)[..q + 1] == "-" + s[..q];
  }

  lemma DigitsHaveNoDot(s: string)
    requires AllDigits(s)
    ensures NoDot(s)
  {
  }

  // ---- how far the printed text is from the number

  /** parseFloat on a decimal that may carry a minus sign. */
  function ReadSigned(s: string): real {
    if s != [] && s[0] == '-' then -ReadDecimal(s[1..]) else ReadDecimal(s)
  }

  /** Rounding at dp decimals moves a number by at most half of the last place. */
  lemma RoundingNear(x: real, dp: nat)
    requires x >= 0.0
    ensures Abs(Unshift(Nearest(Shift(x, dp)) as real, dp) - x) <= Unshift(0.5, dp)
  {
    var y := Shift(x, dp);
    var r := Nearest(y) as real;
    UnshiftAdds(r - y, y, dp);
    UnshiftShift(x, dp);
    UnshiftMonotone(r - y, 0.5, dp);
    UnshiftMonotone(-0.5, r - y, dp);
    UnshiftAdds(0.5, -0.5, dp);
    UnshiftZero(dp);
  }

  lemma FixedReads(n: nat, dp: nat) returns (v: real)
    ensures Trimmed(TrimStr(FixedStr(n, dp))) && ReadDecimal(TrimStr(FixedStr(n, dp))) == v
    ensures v == Unshift(n as real, dp)
  {
    TrimKeepsValue(n, dp);
    v := Unshift(n as real, dp);
  }

  lemma FixedNear(x: real, dp: nat) returns (n: nat, v: real)
    requires 0.0 <= x < 1e21
    ensures n == Nearest(Shift(x, dp))
    ensures Trimmed(TrimStr(FixedStr(n, dp))) && ReadDecimal(TrimStr(FixedStr(n, dp))) == v
    ensures Abs(v - x) <= Unshift(0.5, dp)
  {
    ShiftPositive(x, dp);
    n := Nearest(Shift(x, dp));
    RoundingNear(x, dp);
    v := FixedReads(n, dp);
  }

  lemma NegativeText(x: real, dp: nat, n: nat)
    requires -1e21 < x < 0.0 && n == Nearest(Shift(-x, dp))
    ensures TrimNum(x, dp) == "-" + TrimStr(FixedStr(n, dp))
  {
    TrimSigned(FixedStr(n, dp));
  }

  lemma ReadNegative(s: string, t: string)
    requires s == "-" + t
    ensures ReadSigned(s) == -ReadDecimal(t)
  {
    assert s[1..] == t;
  }

  lemma ReadPositive(t: string)
    requires Trimmed(t)
    ensures ReadSigned(t) == ReadDecimal(t)
  {
    assert IsDigit(t[0]) || t[0] == '.';
  }

  lemma NegativeNear(x: real, dp: nat) returns (s: string, v: real)
    requires -1e21 < x < 0.0
    ensures s == TrimNum(x, dp) && ReadSigned(s) == v && Abs(v - x) <= Unshift(0.5, dp)
  {
    var n, w := FixedNear(-x, dp);
    NegativeText(x, dp, n);
    s := TrimNum(x, dp);
    ReadNegative(s, TrimStr(FixedStr(n, dp)));
    v := -w;
  }

  /** Reading back what trimNum prints gives the number to within half of the last decimal. */
  lemma PrintsNear(x: real, dp: nat)
    requires -1e21 < x < 1e21
    ensures Abs(ReadSigned(TrimNum(x, dp)) - x) <= 0.5 / Pow10(dp) as real
  {
    UnshiftIsQuotient(0.5, dp);
    if x < 0.0 {
      var s, v := NegativeNear(x, dp);
    } else {
      var n, v := FixedNear(x, dp);
      ReadPositive(TrimStr(FixedStr(n, dp)));
    }
  }

  // ---- numerals that are too long

  /** 10^n, written out. */
  function PowerText(n: nat): string {
    "1" + seq(n, _ => '0')
  }

  lemma {:induction false} PowerDigits(n: nat, k: nat)
    requires k <= n
    ensures AllDigits(PowerText(n)) && DigitsUpTo(PowerText(n), k + 1) == Pow10(k)
  {
    if k == 0 {
      assert DigitsUpTo(PowerText(n), 0) == 0;
    } else {
      PowerDigits(n, k - 1);
      assert PowerText(n)[k] == '0';
    }
  }

  lemma PowerRead(n: nat)
    ensures AllDigits(PowerText(n)) && ReadDecimal(PowerText(n)) == Pow10(n) as real
  {
    PowerDigits(n, n);
    ReadWhole(PowerText(n));
  }

  lemma {:induction false} Pow10Adds(j: nat, k: nat)
    ensures Pow10(j + k) == Pow10(j) * Pow10(k)
  {
    if k == 0 {
    } else {
      Pow10Adds(j, k - 1);
      assert Pow10(j) * (10 * Pow10(k - 1)) == 10 * (Pow10(j) * Pow10(k - 1));
    }
  }

  lemma TenValue()
    ensures Pow10(28) == 10000000000000000000000000000
  {
    assert Pow10(7) == 10000000;
    Pow10Adds(7, 7);
    Pow10Adds(14, 14);
  }

  lemma TwoValue()
    ensures Pow2(93) == 9903520314283042199192993792
  {
    assert Pow2(3) == 8;
    Pow2Adds(3, 3);
    Pow2Adds(6, 6);
    Pow2Adds(12, 12);
    assert Pow2(24) == 16777216;
    Pow2Adds(24, 24);
    assert Pow2(48) == 281474976710656;
    Pow2Adds(48, 24);
    Pow2Adds(72, 12);
    assert Pow2(84) == 19342813113834066795298816;
    Pow2Adds(84, 6);
    Pow2Adds(90, 3);
  }

  lemma ProductsRise(a: nat, b: nat, c: nat, d: nat)
    requires a >= b && c >= d
    ensures a * c >= b * d
  {
    assert a * c >= b * c >= b * d;
  }

  lemma {:induction false} TensBeatTwos(a: nat, b: nat, j: nat)
    requires Pow10(a) >= Pow2(b)
    ensures Pow10(a * j) >= Pow2(b * j)
  {
    if j == 0 {
      assert a * j == 0 && b * j == 0;
    } else {
      TensBeatTwos(a, b, j - 1);
      Pow10Adds(a * (j - 1), a);
      Pow2Adds(b * (j - 1), b);
      assert a * j == a * (j - 1) + a && b * j == b * (j - 1) + b;
      ProductsRise(Pow10(a * (j - 1)), Pow2(b * (j - 1)), Pow10(a), Pow2(b));
    }
  }

  lemma {:induction false} Pow10Rises(j: nat, k: nat)
    requires j <= k
    ensures Pow10(j) <= Pow10(k)
  {
    if j == k {
    } else {
      Pow10Rises(j, k - 1);
    }
  }

  lemma TenTo309(a: nat, b: nat, j: nat)
    requires Pow10(a) >= Pow2(b)
    ensures Pow10(a * j + 1) >= Pow2(b * j + 1)
  {
    TensBeatTwos(a, b, j);
    assert Pow10(a * j + 1) == 10 * Pow10(a * j);
    assert Pow2(b * j + 1) == 2 * Pow2(b * j);
  }

  /** From 310 digits on, a power of ten reads as Infinity. */
  lemma PowerOverflows(n: nat)
    requires n >= 309
    ensures Overflows(Pow10(n) as real)
  {
    var a, b, j, k := 28, 93, 11, 970;
    TenValue();
    TwoValue();
    TenTo309(a, b, j);
    Pow10Rises(a * j + 1, n);
    assert b * j + 1 == k + 54;
    OverflowsExactly(Pow10(n) as real, k);
  }
}
