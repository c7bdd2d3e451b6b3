/** Penalty buckets: their place on the ladder of powers of two (penaltyOrdinal in
    ui/src/lib/format.ts) and their rank in the shortfall table (bucketRank and
    sortShortfalls in ui/src/pages/ShardReports.tsx). */
module Penalty {
  import opened Prelude
  import opened Floats
  import opened Sorting
  import opened Decimal
  import opened Numerals

  const LADDER_MAX := 27

  // ---- rounding the binary logarithm

  lemma HalfFloor(y: real)
    requires y >= 1.0
    ensures 0 <= (y / 2.0).Floor < y.Floor
  {
  }

  lemma HalfReciprocal(n: real)
    requires 0.0 < n <= 1.0
    ensures 1.0 / (2.0 * n) == (1.0 / n) / 2.0 && 1.0 / n >= 1.0
  {
    var y := 1.0 / n;
    assert y * n == 1.0;
    assert y < 1.0 ==> y * n < 1.0 * n;
    assert (y / 2.0) * (2.0 * n) == 1.0;
  }

  lemma SquareBelow(n: real)
    requires n > 0.0
    ensures n * n >= 2.0 ==> n >= 1.0
    ensures n * n < 0.5 ==> n <= 1.0
  {
    assert n < 1.0 ==> n * n < 1.0;
    assert n > 1.0 ==> n * n > 1.0;
  }

  /** Math.round(Math.log2(n)) with an exact logarithm: the k with 2^(k-1/2) <= n < 2^(k+1/2),
      found on the squares by halving or doubling n; see RoundLog2Band. */
  function RoundLog2(n: real): int
    requires n > 0.0
  {
    if n * n < 0.5 then HalvesBelow(n) else HalvesAbove(n)
  }

  function HalvesAbove(n: real): (k: nat)
    requires n > 0.0
    decreases n.Floor
  {
    SquareBelow(n);
    if n * n >= 2.0 then
      HalfFloor(n);
      1 + HalvesAbove(n / 2.0)
    else 0
  }

  function HalvesBelow(n: real): int
    requires n > 0.0
    decreases (1.0 / n).Floor
  {
    SquareBelow(n);
    if n * n < 0.5 then
      HalfReciprocal(n);
      HalfFloor(1.0 / n);
      HalvesBelow(2.0 * n) - 1
    else 0
  }

  function Pow4(k: nat): (p: nat)
    ensures p >= 1
  {
    if k == 0 then 1 else 4 * Pow4(k - 1)
  }

  /** 4^k, for negative k as well. */
  function Pow4Real(k: int): (p: real)
    ensures p > 0.0
    decreases if k < 0 then -k else k
  {
    if k == 0 then 1.0 else if k > 0 then 4.0 * Pow4Real(k - 1) else Pow4Real(k + 1) / 4.0
  }

  lemma {:induction false} Pow4IsReal(k: nat)
    ensures Pow4Real(k) == Pow4(k) as real
  {
    if k == 0 {
    } else {
      Pow4IsReal(k - 1);
    }
  }

  lemma {:induction false} Pow4Rises(j: int, k: int)
    requires j < k
    ensures 4.0 * Pow4Real(j) <= Pow4Real(k)
    decreases k - j
  {
    if j + 1 == k {
    } else {
      Pow4Rises(j, k - 1);
    }
  }

  /** 2^(2k-1) <= s < 2^(2k+1) */
  predicate InBand(s: real, k: int) {
    Pow4Real(k) / 2.0 <= s < 2.0 * Pow4Real(k)
  }

  lemma SquareHalved(n: real)
    ensures (n / 2.0) * (n / 2.0) == n * n / 4.0
    ensures (2.0 * n) * (2.0 * n) == 4.0 * (n * n)
  {
  }

  lemma {:induction false} HalvesAboveBand(n: real)
    requires n > 0.0 && n * n >= 0.5
    ensures InBand(n * n, HalvesAbove(n))
    decreases n.Floor
  {
    SquareBelow(n);
    if n * n < 2.0 {
    } else {
      HalfFloor(n);
      SquareHalved(n);
      HalvesAboveBand(n / 2.0);
    }
  }

  lemma BandBelow(s: real, k: int)
    requires InBand(4.0 * s, k)
    ensures InBand(s, k - 1)
  {
    assert Pow4Real(k) == 4.0 * Pow4Real(k - 1);
  }

  lemma NextDouble(n: real) returns (m: real)
    requires n > 0.0 && n * n < 0.5
    ensures m > 0.0 && m * m == 4.0 * (n * n) && HalvesBelow(n) == HalvesBelow(m) - 1
    ensures 0 <= (1.0 / m).Floor < (1.0 / n).Floor
  {
    SquareBelow(n);
    HalfReciprocal(n);
    HalfFloor(1.0 / n);
    SquareHalved(n);
    m := 2.0 * n;
  }

  lemma {:induction false} HalvesBelowBand(n: real)
    requires n > 0.0 && n * n < 2.0
    ensures HalvesBelow(n) <= 0 && InBand(n * n, HalvesBelow(n))
    decreases (1.0 / n).Floor
  {
    if n * n >= 0.5 {
    } else {
      var m := NextDouble(n);
      HalvesBelowBand(m);
      BandBelow(n * n, HalvesBelow(m));
    }
  }

  /** Larger numbers lie in no lower band; so every number lies in one band at most. */
  lemma BandsRise(s: real, t: real, j: int, k: int)
    requires s <= t && InBand(s, j) && InBand(t, k)
    ensures j <= k
  {
    if k < j {
      Pow4Rises(k, j);
    }
  }

  /** The rounded logarithm of a positive number is k exactly when 2^(2k-1) <= n^2 < 2^(2k+1). */
  lemma RoundLog2Band(n: real, k: int)
    requires n > 0.0
    ensures RoundLog2(n) == k <==> InBand(n * n, k)
  {
    if n * n < 0.5 {
      HalvesBelowBand(n);
    } else {
      HalvesAboveBand(n);
    }
    if InBand(n * n, k) {
      BandsRise(n * n, n * n, RoundLog2(n), k);
      BandsRise(n * n, n * n, k, RoundLog2(n));
    }
  }

  lemma SquaresRise(m: real, n: real)
    requires 0.0 < m <= n
    ensures m * m <= n * n
  {
    assert m * (n - m) >= 0.0 && (n - m) * n >= 0.0;
  }

  lemma RoundLog2Monotone(m: real, n: real)
    requires 0.0 < m <= n
    ensures RoundLog2(m) <= RoundLog2(n)
  {
    RoundLog2Band(m, RoundLog2(m));
    RoundLog2Band(n, RoundLog2(n));
    SquaresRise(m, n);
    BandsRise(m * m, n * n, RoundLog2(m), RoundLog2(n));
  }

  lemma TwiceSquare(n: nat, m: nat)
    ensures n == 2 * m ==> 2 * n * n == 4 * (2 * m * m)
    ensures n == 2 * m + 1 ==> (2 * n * n) % 4 == 2
  {
    assert n == 2 * m + 1 ==> 2 * n * n == 4 * (2 * m * m + 2 * m) + 2;
  }

  /** No integer lies on the boundary between two rungs: 2 n^2 is never a power of four. */
  lemma {:induction false} NoTie(n: nat, k: nat)
    requires n >= 1
    ensures 2 * n * n != Pow4(k)
  {
    if k == 0 {
    } else {
      TwiceSquare(n, n / 2);
      if n % 2 == 0 {
        NoTie(n / 2, k - 1);
      }
    }
  }

  /** For an integer neither bound is met: the rounded logarithm is k exactly when
      2^(2k-1) < n^2 < 2^(2k+1). */
  lemma RoundLog2Exact(n: nat, k: nat)
    requires n >= 1
    ensures RoundLog2(n as real) == k <==> Pow4(k) < 2 * n * n < 4 * Pow4(k)
  {
    var x := n as real;
    assert x * x == (n * n) as real && 2 * n * n == 2 * (n * n);
    RoundLog2Band(x, k);
    Pow4IsReal(k);
    NoTie(n, k);
  }

  // ---- the ordinal

  function Upper(c: char): char {
    if 'a' <= c <= 'z' then 'A' + (c - 'a') else c
  }

  /** toUpperCase on ASCII text. */
  function ToUpper(s: string): string {
    seq(|s|, i requires 0 <= i < |s| => Upper(s[i]))
  }

  /** s.replace(/[^0-9.]/g, "") */
  function KeepNumeral(s: string): string {
    KeepFrom(s, 0)
  }

  /** The same for the characters from k on. */
  function KeepFrom(s: string, k: nat): string
    requires k <= |s|
    decreases |s| - k
  {
    if k == |s| then [] else (if IsDigit(s[k]) || s[k] == '.' then [s[k]] else []) + KeepFrom(s, k + 1)
  }

  function PenaltyOrdinal(bucket: Option<string>): int {
    if bucket.None? || bucket.value == "" then 0
    else
      var b := ToUpper(bucket.value);
      if b == "UNSPECIFIED" then 0
      else if b == "ZERO" || b == "$0" then 1
      else if b == "HALF_DOLLAR" || b == "$0.50" then 2
      else if b == "PINNED" then LADDER_MAX
      else RungOfAmount(ReadFloat(KeepNumeral(b)))
  }

  function RungOfAmount(n: Float): int {
    if !n.Finite? || n.v <= 0.0 then 0 else RoundLog2(n.v) + 3
  }

  lemma {:induction false} KeepsFrom(s: string, k: nat)
    requires k <= |s| && forall i | 0 <= i < |s| :: IsDigit(s[i]) || s[i] == '.'
    ensures KeepFrom(s, k) == s[k..]
    decreases |s| - k
  {
    if k == |s| {
    } else {
      KeepsFrom(s, k + 1);
      assert s[k..] == [s[k]] + s[k + 1..];
    }
  }

  lemma KeepsDigits(s: string)
    requires AllDigits(s)
    ensures KeepNumeral(s) == s && ToUpper(s) == s
  {
    KeepsFrom(s, 0);
    assert s[0..] == s;
  }

  /** The label of an integer amount stands where its rounded logarithm puts it, unless it is
      so large that it reads as Infinity. */
  lemma OrdinalOfInteger(n: nat, k: nat)
    requires n >= 1
    ensures PenaltyOrdinal(Some(NatStr(n))) == k + 3
       <==> !Overflows(n as real) && Pow4(k) < 2 * n * n < 4 * Pow4(k)
  {
    IntegerOrdinal(n);
    RoundLog2Exact(n, k);
  }

  lemma DigitFirst(s: string)
    requires s != [] && IsDigit(s[0])
    ensures s != "UNSPECIFIED" && s != "ZERO" && s != "$0" && s != "HALF_DOLLAR" && s != "$0.50" && s != "PINNED"
  {
  }

  lemma IntegerOrdinal(n: nat)
    requires n >= 1
    ensures PenaltyOrdinal(Some(NatStr(n))) == if Overflows(n as real) then 0 else RoundLog2(n as real) + 3
  {
    var s := NatStr(n);
    DigitFirst(s);
    KeepsDigits(s);
    NatStrVal(n);
    ReadWhole(s);
    NearPositive(n as real);
    InRange(n as real);
  }

  // ---- labels of any amount

  /** A label that penaltyOrdinal knows by name. */
  predicate Named(text: string) {
    ToUpper(text) in {"", "UNSPECIFIED", "ZERO", "$0", "HALF_DOLLAR", "$0.50", "PINNED"}
  }

  /** The amount that penaltyOrdinal reads out of any other label. */
  function Amount(text: string): real {
    ReadDecimal(KeepNumeral(ToUpper(text)))
  }

  /** The amount is one that parseFloat can tell from 0 and from Infinity. */
  predicate Readable(n: real) {
    !Vanishes(n) && !Overflows(n)
  }

  /** The rung of an amount of 0 or more. */
  lemma RungOfNear(n: real)
    requires n >= 0.0
    ensures Readable(n) ==> n > 0.0
    ensures RungOfAmount(Near(n)) == if n > 0.0 && Readable(n) then RoundLog2(n) + 3 else 0
  {
    NearPositive(n);
    InRange(n);
  }

  lemma OrdinalOfAmount(b: string)
    requires !Named(b)
    ensures PenaltyOrdinal(Some(b)) == RungOfAmount(Near(Amount(b)))
    ensures Amount(b) >= 0.0
  {
    assert ToUpper("") == "";
    ReadNotNegative(KeepNumeral(ToUpper(b)));
  }

  lemma BandBounds(s: real, k: int, low: int, high: int)
    requires InBand(s, k)
    ensures low <= k <==> Pow4Real(low) / 2.0 <= s
    ensures k <= high <==> s < 2.0 * Pow4Real(high)
  {
    if k < low {
      Pow4Rises(k, low);
    } else if low < k {
      Pow4Rises(low, k);
    }
    if k < high {
      Pow4Rises(k, high);
    } else if high < k {
      Pow4Rises(high, k);
    }
  }

  /** 2^-7 <= n^2 < 2^49 */
  predicate AmountOnLadder(n: real) {
    Pow4Real(-3) / 2.0 <= n * n < 2.0 * Pow4Real(24)
  }

  lemma RungOnLadder(n: real)
    requires n >= 0.0
    ensures 0 <= RungOfAmount(Near(n)) <= LADDER_MAX <==> !Readable(n) || AmountOnLadder(n)
  {
    RungOfNear(n);
    if Readable(n) {
      RoundLog2Band(n, RoundLog2(n));
      BandBounds(n * n, RoundLog2(n), -3, 24);
    }
  }

  lemma NamedOnLadder(b: string)
    requires Named(b)
    ensures 0 <= PenaltyOrdinal(Some(b)) <= LADDER_MAX
  {
    assert b != "" ==> ToUpper(b) != "";
  }

  /** Which labels have their place on the ladder of 0 to 27: the names, the amounts that read
      as 0 or as Infinity, and those that are at least 2^(-7/2) and below 2^(49/2). */
  lemma OnLadderExactly(b: string)
    ensures 0 <= PenaltyOrdinal(Some(b)) <= LADDER_MAX
       <==> Named(b) || !Readable(Amount(b)) || AmountOnLadder(Amount(b))
  {
    if Named(b) {
      NamedOnLadder(b);
    } else {
      AmountLadder(b, Amount(b));
    }
  }

  lemma AmountLadder(b: string, n: real)
    requires !Named(b) && n == Amount(b)
    ensures 0 <= PenaltyOrdinal(Some(b)) <= LADDER_MAX <==> !Readable(n) || AmountOnLadder(n)
  {
    OrdinalOfAmount(b);
    RungOnLadder(n);
  }

  // ---- whether a larger amount can stand lower

  /** Where m <= n, what the ends of the range do to their order: an amount that reads as 0 has
      the ordinal 0, and so has one that reads as Infinity. */
  predicate KeepsOrder(m: real, n: real) {
    && (Vanishes(m) && Readable(n) ==> Pow4Real(-3) / 2.0 <= n * n)
    && (Readable(m) && Overflows(n) ==> m * m < 2.0 * Pow4Real(-3))
  }

  lemma RungsRise(m: real, n: real)
    requires 0.0 <= m <= n
    ensures RungOfAmount(Near(m)) <= RungOfAmount(Near(n)) <==> KeepsOrder(m, n)
  {
    RungOfNear(m);
    RungOfNear(n);
    RangeMonotone(m, n);
    RangeDisjoint(m);
    RangeDisjoint(n);
    if Readable(m) && Readable(n) {
      RoundLog2Monotone(m, n);
    } else if Readable(m) {
      RoundLog2Band(m, RoundLog2(m));
      BandBounds(m * m, RoundLog2(m), -3, -3);
    } else if Readable(n) {
      RoundLog2Band(n, RoundLog2(n));
      BandBounds(n * n, RoundLog2(n), -3, -3);
    }
  }

  /** Of two labels with amounts the larger stands no lower exactly when the ends of the range
      do not interfere; in particular whenever both amounts can be read. */
  lemma OrdinalMonotone(a: string, b: string)
    requires !Named(a) && !Named(b) && Amount(a) <= Amount(b)
    ensures PenaltyOrdinal(Some(a)) <= PenaltyOrdinal(Some(b)) <==> KeepsOrder(Amount(a), Amount(b))
    ensures Readable(Amount(a)) && Readable(Amount(b)) ==> PenaltyOrdinal(Some(a)) <= PenaltyOrdinal(Some(b))
  {
    OrdinalOfAmount(a);
    OrdinalOfAmount(b);
    RungsRise(Amount(a), Amount(b));
    RangeDisjoint(Amount(b));
  }

  /** One cent stands below the ladder ... */
  lemma CentOffLadder()
    ensures PenaltyOrdinal(Some("0.01")) == -4
  {
    CentAmount();
    assert ToUpper("0.01")[1] == '.';
    CentBand();
    OrdinalOfAmount("0.01");
    CentReadable();
    RungOfNear(0.01);
    RoundLog2Band(0.01, -7);
  }

  lemma CentReadable()
    ensures Readable(0.01)
  {
    InRange(0.01);
    assert Doubled(0.01, 1075) == Doubled(1.28, 1068) by {
      assert Doubled(0.01, 1075) == Doubled(0.16, 1071) == Doubled(1.28, 1068);
    }
    DoubledGrows(1.28, 1068);
  }

  lemma CentBand()
    ensures InBand(0.01 * 0.01, -7)
  {
    assert Pow4Real(-3) == 1.0 / 64.0;
    assert Pow4Real(-6) == 1.0 / 4096.0;
    assert Pow4Real(-7) == 1.0 / 16384.0;
  }

  lemma CentAmount()
    ensures Amount("0.01") == 0.01
  {
    var cent, whole, frac := "0.01", "0", "01";
    assert cent == whole + "." + frac;
    assert ToUpper(cent) == cent;
    CentKept();
    ReadFraction(whole, frac);
    assert FracFrom(frac, 2) == 0.0;
    assert FracFrom(frac, 1) == 0.1;
    assert FracFrom(frac, 0) == 0.01;
    assert DigitsUpTo(whole, 0) == 0;
  }

  lemma CentKept()
    ensures KeepNumeral("0.01") == "0.01"
  {
    KeepsFrom("0.01", 0);
  }

  /** ... and the next power of two after those on the wire stands above "PINNED". */
  lemma BigOffLadder()
    ensures PenaltyOrdinal(Some(NatStr(33554432))) == LADDER_MAX + 1
  {
    assert Pow4(10) == 1048576;
    assert Pow4(20) == 1099511627776;
    assert Pow4(25) == 1125899906842624;
    InRange(33554432.0);
    OrdinalOfInteger(33554432, 25);
  }

  /** A power of ten with 310 digits or more is back at the bottom. */
  lemma HugeOrdinal(n: nat)
    requires n >= 309
    ensures PenaltyOrdinal(Some(PowerText(n))) == 0
  {
    var s := PowerText(n);
    PowerRead(n);
    PowerOverflows(n);
    assert IsDigit(s[0]);
    DigitFirst(s);
    KeepsDigits(s);
  }

  // ---- the wire ladder

  lemma {:induction false} Pow2Squared(k: nat)
    ensures Pow2(k) * Pow2(k) == Pow4(k)
  {
    if k == 0 {
    } else {
      Pow2Squared(k - 1);
      var p := Pow2(k - 1);
      assert (2 * p) * (2 * p) == 4 * (p * p);
    }
  }

  /** The labels on the wire, from the lowest rung to the highest. */
  function WireLabel(rung: nat): string
    requires rung <= LADDER_MAX
  {
    if rung == 0 then "UNSPECIFIED"
    else if rung == 1 then "ZERO"
    else if rung == 2 then "HALF_DOLLAR"
    else if rung == LADDER_MAX then "PINNED"
    else NatStr(Pow2(rung - 3))
  }

  lemma UpperNames()
    ensures ToUpper("UNSPECIFIED") == "UNSPECIFIED" && ToUpper("ZERO") == "ZERO"
    ensures ToUpper("HALF_DOLLAR") == "HALF_DOLLAR" && ToUpper("PINNED") == "PINNED"
  {
  }

  /** The other spellings of the two lowest amounts, and the names in lower case. */
  lemma OtherNames()
    ensures PenaltyOrdinal(Some("$0")) == 1 && PenaltyOrdinal(Some("$0.50")) == 2
    ensures PenaltyOrdinal(Some("zero")) == 1 && PenaltyOrdinal(Some("half_dollar")) == 2
    ensures PenaltyOrdinal(Some("pinned")) == 27 && PenaltyOrdinal(Some("unspecified")) == 0
    ensures PenaltyOrdinal(None) == 0 && PenaltyOrdinal(Some("")) == 0
  {
    UpperNames();
    assert ToUpper("$0") == "$0" && ToUpper("$0.50") == "$0.50";
    assert ToUpper("zero") == "ZERO" && ToUpper("half_dollar") == "HALF_DOLLAR";
    assert ToUpper("pinned") == "PINNED" && ToUpper("unspecified") == "UNSPECIFIED";
  }

  /** Every digit and point of a label counts, and no other character does. */
  lemma {:induction false} KeepsExactly(s: string, k: nat, c: char)
    requires k <= |s|
    ensures multiset(KeepFrom(s, k))[c] == if '0' <= c <= '9' || c == '.' then multiset(s[k..])[c] else 0
    decreases |s| - k
  {
    if k == |s| {
    } else {
      KeepsExactly(s, k + 1, c);
      assert s[k..] == [s[k]] + s[k + 1..];
    }
  }

  /** The ordinal of a wire label is its rung. */
  lemma WireOrdinal(rung: nat)
    requires rung <= LADDER_MAX
    ensures PenaltyOrdinal(Some(WireLabel(rung))) == rung
  {
    UpperNames();
    if 3 <= rung < LADDER_MAX {
      Pow2Squared(rung - 3);
      assert 2 * Pow2(rung - 3) * Pow2(rung - 3) == 2 * Pow4(rung - 3);
      WireModest(rung - 3);
      OrdinalOfInteger(Pow2(rung - 3), rung - 3);
    }
  }

  lemma WireModest(k: nat)
    requires k <= 23
    ensures Near(Pow2(k) as real) == Finite(Pow2(k) as real) && !Overflows(Pow2(k) as real)
  {
    assert Pow2(12) == 4096 && Pow2(23) == 2048 * Pow2(12);
    if k < 23 {
      Pow2Rises(k, 23);
    }
    NearModest(Pow2(k) as real);
    InRange(Pow2(k) as real);
  }

  // ---- ranks

  const PREFIX := "PENALTY_BUCKET_"

  function BucketShort(b: string): string {
    if PREFIX <= b then b[|PREFIX|..] else b
  }

  /** other stands for Number(s) on text that is not a plain sequence of digits. */
  function BucketRank(b: string, other: string -> Float): Float {
    var s := BucketShort(b);
    if s == "PINNED" then PosInf
    else if s == "ZERO" then Finite(0.0)
    else if s == "HALF_DOLLAR" then Finite(0.5)
    else if s == "UNSPECIFIED" || s == "" then Finite(-1.0)
    else
      var n := if AllDigits(s) then Near(DigitsVal(s) as real) else other(s);
      if n.Finite? then n else Finite(-1.0)
  }

  lemma DigitsAreNoName(s: string)
    requires s != [] && AllDigits(s)
    ensures !(PREFIX <= s) && s != "PINNED" && s != "ZERO" && s != "HALF_DOLLAR" && s != "UNSPECIFIED"
  {
    assert IsDigit(s[0]);
    assert PREFIX[0] == 'P';
  }

  /** The amount of a rung: unset below zero, then $0, $0.50, the powers of two, and pinned. */
  function RungRank(rung: nat): Float
    requires rung <= LADDER_MAX
  {
    if rung == 0 then Finite(-1.0) else if rung == 1 then Finite(0.0) else if rung == 2 then Finite(0.5)
    else if rung == LADDER_MAX then PosInf else Finite(Pow2(rung - 3) as real)
  }

  lemma RankOfRung(rung: nat, other: string -> Float)
    requires rung <= LADDER_MAX
    ensures BucketRank(WireLabel(rung), other) == RungRank(rung)
    ensures BucketRank("PENALTY_BUCKET_" + WireLabel(rung), other) == BucketRank(WireLabel(rung), other)
  {
    assert (PREFIX + WireLabel(rung))[|PREFIX|..] == WireLabel(rung);
    if 3 <= rung < LADDER_MAX {
      DigitsAreNoName(WireLabel(rung));
      NatStrVal(Pow2(rung - 3));
      WireModest(rung - 3);
    } else {
      assert !(PREFIX <= "UNSPECIFIED") && !(PREFIX <= "ZERO") && !(PREFIX <= "HALF_DOLLAR");
      assert PREFIX[1] == 'E' && "PINNED"[1] == 'I';
      assert !(PREFIX <= "PINNED");
    }
  }

  lemma {:induction false} Pow2Rises(j: nat, k: nat)
    requires j < k
    ensures Pow2(j) < Pow2(k)
  {
    if j + 1 == k {
    } else {
      Pow2Rises(j, k - 1);
    }
  }

  lemma RungRanksRise(i: nat, j: nat)
    requires i <= LADDER_MAX && j <= LADDER_MAX
    ensures Less(RungRank(i), RungRank(j)) <==> i < j
  {
    if 3 <= i < j {
      Pow2Rises(i - 3, j - 3);
    } else if 3 <= j < i {
      Pow2Rises(j - 3, i - 3);
    }
  }

  lemma RankAndOrdinal(rung: nat, other: string -> Float) returns (r: Float)
    requires rung <= LADDER_MAX
    ensures r == RungRank(rung) == BucketRank(WireLabel(rung), other)
    ensures PenaltyOrdinal(Some(WireLabel(rung))) == rung
  {
    WireOrdinal(rung);
    RankOfRung(rung, other);
    r := RungRank(rung);
  }

  /** The thermometer and the shortfall table put the wire labels in the same order. */
  lemma LaddersAgree(i: nat, j: nat, other: string -> Float)
    requires i <= LADDER_MAX && j <= LADDER_MAX
    ensures Less(BucketRank(WireLabel(i), other), BucketRank(WireLabel(j), other))
       <==> PenaltyOrdinal(Some(WireLabel(i))) < PenaltyOrdinal(Some(WireLabel(j)))
  {
    var x := RankAndOrdinal(i, other);
    var y := RankAndOrdinal(j, other);
    RungRanksRise(i, j);
    assert Less(x, y) <==> i < j;
  }

  /** Labels that are no wire labels: an empty one counts as unset, and so does text that is no
      finite number. */
  lemma OtherRanks(s: string, other: string -> Float)
    requires s != "" && !AllDigits(s) && !("PENALTY_BUCKET_" <= s)
    requires s != "PINNED" && s != "ZERO" && s != "HALF_DOLLAR" && s != "UNSPECIFIED"
    ensures BucketRank(s, other) == if other(s).Finite? then other(s) else Finite(-1.0)
    ensures BucketRank("", other) == Finite(-1.0)
  {
  }

  // ---- the shortfall table

  datatype Shortfall = Shortfall(priority: int, ageCycles: int, penaltyBucket: string)

  datatype SortField = ByPriority | ByAge | ByBucket

  /** What the comparator answers for (a, b); sort takes NaN, as from two PINNED rows, for a tie. */
  function Compare(field: SortField, other: string -> Float, a: Shortfall, b: Shortfall): Float {
    match field
    case ByAge => Finite((b.ageCycles - a.ageCycles) as real)
    case ByBucket => Minus(BucketRank(b.penaltyBucket, other), BucketRank(a.penaltyBucket, other))
    case ByPriority => Finite((b.priority - a.priority) as real)
  }

  function RowLess(field: SortField, other: string -> Float): (Shortfall, Shortfall) -> bool {
    (a: Shortfall, b: Shortfall) => Less(Compare(field, other, a, b), Finite(0.0))
  }

  lemma BucketOrder(other: string -> Float, a: Shortfall, b: Shortfall)
    ensures RowLess(ByBucket, other)(a, b)
       <==> Less(BucketRank(b.penaltyBucket, other), BucketRank(a.penaltyBucket, other))
  {
    var x, y := BucketRank(a.penaltyBucket, other), BucketRank(b.penaltyBucket, other);
    assert x.Finite? || x.PosInf?;
    assert y.Finite? || y.PosInf?;
    MinusNegative(y, x);
  }

  lemma RankKind(b: string, other: string -> Float) returns (r: Float)
    ensures r == BucketRank(b, other) && (r.Finite? || r.PosInf?)
  {
    r := BucketRank(b, other);
  }

  lemma BucketLessStrictWeak(other: string -> Float, dom: set<Shortfall>)
    ensures StrictWeakOn(RowLess(ByBucket, other), dom)
  {
    var less := RowLess(ByBucket, other);
    forall a, b ensures less(a, b) <==> Less(BucketRank(b.penaltyBucket, other), BucketRank(a.penaltyBucket, other)) {
      BucketOrder(other, a, b);
    }
    forall a, b, c: Shortfall
      ensures less(a, b) && less(b, c) ==> less(a, c)
      ensures !less(a, b) && !less(b, c) ==> !less(a, c)
    {
      var x := RankKind(a.penaltyBucket, other);
      var y := RankKind(b.penaltyBucket, other);
      var z := RankKind(c.penaltyBucket, other);
      LessOrdered(z, y, x);
    }
  }

  lemma RowLessStrictWeak(field: SortField, other: string -> Float, dom: set<Shortfall>)
    ensures StrictWeakOn(RowLess(field, other), dom)
  {
    if field == ByBucket {
      BucketLessStrictWeak(other, dom);
    }
  }

  /** Sorting by bucket puts the highest rung first and keeps the order of equal rungs. */
  method SortShortfalls(rows: seq<Shortfall>, field: SortField, other: string -> Float) returns (out: seq<Shortfall>)
    ensures StablySorts(RowLess(field, other), rows, out)
    ensures field == ByBucket ==> forall i, j | 0 <= i < j < |out| ::
      !Less(BucketRank(out[i].penaltyBucket, other), BucketRank(out[j].penaltyBucket, other))
    ensures field == ByAge ==> forall i, j | 0 <= i < j < |out| :: out[i].ageCycles >= out[j].ageCycles
    ensures field == ByPriority ==> forall i, j | 0 <= i < j < |out| :: out[i].priority >= out[j].priority
  {
    ghost var dom := set x | x in rows;
    RowLessStrictWeak(field, other, dom);
    StableSortStablySorts(RowLess(field, other), dom, rows);
    out := StableSort(RowLess(field, other), rows);
    if field == ByBucket {
      forall i, j | 0 <= i < j < |out|
        ensures !Less(BucketRank(out[i].penaltyBucket, other), BucketRank(out[j].penaltyBucket, other))
      {
        BucketOrder(other, out[j], out[i]);
        assert !RowLess(field, other)(out[j], out[i]);
      }
    }
    assert forall i, j | 0 <= i < j < |out| :: !RowLess(field, other)(out[j], out[i]);
  }
}
