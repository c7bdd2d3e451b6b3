/** Kubernetes quantities: reading them, and printing byte counts in binary units
    (ui/src/lib/format.ts). Numbers are exact; for integer byte counts below 2^53 the
    divisions by powers of two in fmtBytes are exact in floating point as well. */
module Quantity {
  import opened Prelude
  import opened Floats
  import opened Decimal
  import opened Numerals

  const KI: int := 1024
  const MI: int := 1024 * KI
  const GI: int := 1024 * MI
  const TI: int := 1024 * GI
  const PI: int := 1024 * TI

  const QTY_SUFFIX: map<string, real> := map[
    "" := 1.0, "m" := 0.001, "k" := 1e3, "M" := 1e6, "G" := 1e9, "T" := 1e12, "P" := 1e15,
    "Ki" := KI as real, "Mi" := MI as real, "Gi" := GI as real, "Ti" := TI as real, "Pi" := PI as real]

  /** Letter-only names that every JavaScript object inherits: looking one up in the table
      yields a function, and a number times a function is NaN. */
  const INHERITED: set<string> := {
    "constructor", "toString", "valueOf", "toLocaleString", "hasOwnProperty", "isPrototypeOf", "propertyIsEnumerable"}

  /** QTY_SUFFIX[suffix] ?? 1 */
  function Suffix(suffix: string): Float {
    if suffix in QTY_SUFFIX then Finite(QTY_SUFFIX[suffix])
    else if suffix in INHERITED then NaN
    else Finite(1.0)
  }

  /** No inherited name is in the table, so exactly those names read as NaN. */
  lemma SuffixKinds(suffix: string)
    ensures Suffix(suffix).NaN? <==> suffix in INHERITED
    ensures !Suffix(suffix).PosInf? && !Suffix(suffix).NegInf?
    ensures Suffix(suffix).Finite? ==> 0.0 < Suffix(suffix).v <= 1125899906842624.0
  {
    assert suffix in QTY_SUFFIX ==> |suffix| <= 2;
    assert suffix in INHERITED ==> |suffix| > 2;
  }

  /** The characters that trim() and \s take for white space. */
  predicate IsSpace(c: char) {
    var n := c as int;
    || 9 <= n <= 13 || n == 0x20 || n == 0xA0 || n == 0x1680 || 0x2000 <= n <= 0x200A
    || n == 0x2028 || n == 0x2029 || n == 0x202F || n == 0x205F || n == 0x3000 || n == 0xFEFF
  }

  predicate IsLetter(c: char) {
    'a' <= c <= 'z' || 'A' <= c <= 'Z'
  }

  predicate IsNumeral(c: char) {
    IsDigit(c) || c == '.'
  }

  /** The end of the text between low and k without the white space before k. */
  function TextEnd(s: string, low: nat, k: nat): (end: nat)
    requires low <= k <= |s|
    ensures low <= end <= k
    ensures forall i | end <= i < k :: IsSpace(s[i])
    ensures low < end ==> !IsSpace(s[end - 1])
  {
    if low < k && IsSpace(s[k - 1]) then TextEnd(s, low, k - 1) else k
  }

  function Trim(s: string): string {
    var n := Run(IsSpace, s);
    s[n..TextEnd(s, n, |s|)]
  }

  predicate All(p: char -> bool, s: string) {
    forall i | 0 <= i < |s| :: p(s[i])
  }

  /** s matches ^([0-9.]+)\s*([a-zA-Z]*)$ with these three parts. Each part takes all it
      can and the next character belongs to another class, so there is one way to match. */
  predicate Matches(s: string, digits: string, space: string, suffix: string) {
    && s == digits + space + suffix
    && digits != [] && All(IsNumeral, digits) && All(IsSpace, space) && All(IsLetter, suffix)
  }

  /** The two groups of the match, if there is one. */
  function Exec(s: string): Option<(string, string)> {
    var n := Run(IsNumeral, s);
    var rest := s[n..];
    var suffix := rest[Run(IsSpace, rest)..];
    if n > 0 && Run(IsLetter, suffix) == |suffix| then Some((s[..n], suffix)) else None
  }

  lemma MatchIsFound(s: string, digits: string, space: string, suffix: string)
    requires Matches(s, digits, space, suffix)
    ensures Exec(s) == Some((digits, suffix))
  {
    var rest := space + suffix;
    assert s == digits + rest;
    assert s[..|digits|] == digits && s[|digits|..] == rest;
    assert |digits| < |s| ==> s[|digits|] == rest[0];
    RunIs(IsNumeral, s, |digits|);
    assert rest[|space|..] == suffix;
    assert |space| < |rest| ==> rest[|space|] == suffix[0];
    RunIs(IsSpace, rest, |space|);
    RunIs(IsLetter, suffix, |suffix|);
  }

  /** Exec finds the groups of the pattern's match exactly when the pattern matches. */
  lemma ExecIsMatch(s: string, digits: string, suffix: string)
    ensures Exec(s) == Some((digits, suffix)) <==> exists space :: Matches(s, digits, space, suffix)
  {
    if Exec(s) == Some((digits, suffix)) {
      var rest := s[|digits|..];
      var space := rest[..Run(IsSpace, rest)];
      assert rest == space + suffix;
      assert s == digits + space + suffix;
      assert All(IsSpace, space);
      assert Matches(s, digits, space, suffix);
    }
    if space :| Matches(s, digits, space, suffix) {
      MatchIsFound(s, digits, space, suffix);
    }
  }

  /** parseQuantity. loose stands for parseFloat(s) || 0 on text that the pattern rejects. */
  function ParseQuantity(s: Option<string>, loose: string -> Float): Float {
    if s.None? || s.value == "" then Finite(0.0)
    else
      var m := Exec(Trim(s.value));
      if m.None? then loose(s.value)
      else Mult(ReadFloat(m.value.0), Suffix(m.value.1))
  }

  // ---- what the suffixes mean

  predicate PlainNumeral(d: string) {
    d != [] && forall i | 0 <= i < |d| :: '0' <= d[i] <= '9' || d[i] == '.'
  }

  /** x can be multiplied by anything from a thousandth to 2^50 without leaving the range. */
  predicate RoomFor(x: real) {
    x == 0.0 || (x > 0.0 && !Vanishes(x / 1000.0) && !Overflows(1125899906842624.0 * x))
  }

  lemma ReadsAs(d: string, suffix: string, loose: string -> Float)
    requires PlainNumeral(d) && All(IsLetter, suffix)
    ensures ParseQuantity(Some(d + suffix), loose) == Mult(ReadFloat(d), Suffix(suffix))
  {
    var s, none := d + suffix, "";
    assert s == d + none + suffix;
    assert s[0] == d[0] && (suffix != [] ==> s[|s| - 1] == suffix[|suffix| - 1]);
    assert suffix == [] ==> s == d;
    ParseMatched(s, d, none, suffix, loose);
  }

  lemma RoomToMultiply(x: real, size: real)
    requires RoomFor(x) && 0.001 <= size <= 1125899906842624.0
    ensures Mult(Near(x), Finite(size)) == Finite(Product(x, size))
  {
    if x == 0.0 {
      assert Product(0.0, size) == 0.0;
      NearModest(0.0);
    } else {
      ProductBounds(x, size);
      RangeMonotone(x / 1000.0, x);
      RangeMonotone(x / 1000.0, Product(x, size));
      RangeMonotone(x, 1125899906842624.0 * x);
      RangeMonotone(Product(x, size), 1125899906842624.0 * x);
      NearPositive(x);
      NearPositive(Product(x, size));
    }
  }

  lemma NotNegative(a: real, b: real)
    requires a >= 0.0 && b >= 0.0
    ensures a * b >= 0.0
  {
  }

  lemma ProductRises(x: real, a: real, b: real)
    requires x >= 0.0 && a <= b
    ensures Product(x, a) <= Product(x, b)
  {
    NotNegative(x, b - a);
    assert x * (b - a) == x * b - x * a;
  }

  lemma ProductBounds(x: real, size: real)
    requires x > 0.0 && 0.001 <= size <= 1125899906842624.0
    ensures x / 1000.0 <= Product(x, size) <= 1125899906842624.0 * x
  {
    ProductRises(x, 0.001, size);
    ProductRises(x, size, 1125899906842624.0);
  }

  lemma SuffixValue(d: string, suffix: string, size: real, loose: string -> Float) returns (v: real)
    requires PlainNumeral(d) && RoomFor(ReadDecimal(d))
    requires All(IsLetter, suffix) && Suffix(suffix) == Finite(size) && 0.001 <= size <= 1125899906842624.0
    ensures ParseQuantity(Some(d + suffix), loose) == Finite(v) && v == Product(ReadDecimal(d), size)
  {
    ReadsAs(d, suffix, loose);
    RoomToMultiply(ReadDecimal(d), size);
    v := Product(ReadDecimal(d), size);
  }

  /** The value of a numeral with a suffix. */
  function Value(d: string, suffix: string, loose: string -> Float): Float {
    ParseQuantity(Some(d + suffix), loose)
  }

  predicate Times(factor: real, a: Float, b: Float) {
    a.Finite? && b.Finite? && b.v == factor * a.v
  }

  lemma ProductScales(x: real, a: real, b: real, factor: real)
    requires b == factor * a
    ensures Product(x, b) == factor * Product(x, a)
  {
    assert x * (factor * a) == factor * (x * a);
  }

  lemma FloatRatio(x: real, a: real, b: real, factor: real, v: Float, w: Float)
    requires b == factor * a && v == Finite(Product(x, a)) && w == Finite(Product(x, b))
    ensures Times(factor, v, w)
  {
    ProductScales(x, a, b, factor);
  }

  lemma SuffixRatio(d: string, low: string, a: real, high: string, b: real, factor: real, loose: string -> Float)
    requires PlainNumeral(d) && RoomFor(ReadDecimal(d)) && b == factor * a
    requires All(IsLetter, low) && Suffix(low) == Finite(a) && 0.001 <= a <= 1125899906842624.0
    requires All(IsLetter, high) && Suffix(high) == Finite(b) && 0.001 <= b <= 1125899906842624.0
    ensures Times(factor, Value(d, low, loose), Value(d, high, loose))
  {
    var v := SuffixValue(d, low, a, loose);
    var w := SuffixValue(d, high, b, loose);
    FloatRatio(ReadDecimal(d), a, b, factor, Finite(v), Finite(w));
  }

  lemma DecimalTable()
    ensures Suffix("m") == Finite(0.001) && Suffix("") == Finite(1.0) && Suffix("k") == Finite(1e3)
    ensures Suffix("M") == Finite(1e6) && Suffix("G") == Finite(1e9)
    ensures Suffix("T") == Finite(1e12) && Suffix("P") == Finite(1e15)
  {
  }

  lemma BinaryTable()
    ensures Suffix("Ki") == Finite(1024.0) && Suffix("Mi") == Finite(1048576.0)
    ensures Suffix("Gi") == Finite(1073741824.0) && Suffix("Ti") == Finite(1099511627776.0)
    ensures Suffix("Pi") == Finite(1125899906842624.0)
  {
  }

  /** A plain number is read as it stands. */
  lemma PlainValue(d: string, loose: string -> Float)
    requires PlainNumeral(d) && RoomFor(ReadDecimal(d))
    ensures Value(d, "", loose) == Finite(ReadDecimal(d))
  {
    DecimalTable();
    var one := SuffixValue(d, "", 1.0, loose);
  }

  /** A thousand of "m" make one, and each decimal suffix is a thousand of the one before it. */
  lemma DecimalSuffixes(d: string, low: string, high: string, loose: string -> Float)
    requires PlainNumeral(d) && RoomFor(ReadDecimal(d))
    requires || (low == "m" && high == "") || (low == "" && high == "k") || (low == "k" && high == "M")
             || (low == "M" && high == "G") || (low == "G" && high == "T") || (low == "T" && high == "P")
    ensures Times(1000.0, Value(d, low, loose), Value(d, high, loose))
  {
    DecimalTable();
    var a := if low == "m" then 0.001 else if low == "" then 1.0 else if low == "k" then 1e3
             else if low == "M" then 1e6 else if low == "G" then 1e9 else 1e12;
    SuffixRatio(d, low, a, high, 1000.0 * a, 1000.0, loose);
  }

  /** Each binary suffix is 1024 of the one before it. */
  lemma BinarySuffixes(d: string, low: string, high: string, loose: string -> Float)
    requires PlainNumeral(d) && RoomFor(ReadDecimal(d))
    requires || (low == "" && high == "Ki") || (low == "Ki" && high == "Mi") || (low == "Mi" && high == "Gi")
             || (low == "Gi" && high == "Ti") || (low == "Ti" && high == "Pi")
    ensures Times(1024.0, Value(d, low, loose), Value(d, high, loose))
  {
    DecimalTable();
    BinaryTable();
    var a := if low == "" then 1.0 else if low == "Ki" then 1024.0 else if low == "Mi" then 1048576.0
             else if low == "Gi" then 1073741824.0 else 1099511627776.0;
    SuffixRatio(d, low, a, high, 1024.0 * a, 1024.0, loose);
  }

  lemma OtherWord(word: string)
    requires word !in {"", "m", "k", "M", "G", "T", "P", "Ki", "Mi", "Gi", "Ti", "Pi"}
    ensures Suffix(word) == if IsInherited(word) then NaN else Finite(1.0)
  {
  }

  /** Any other word is ignored, unless it is a name that every object inherits. */
  lemma OtherSuffixes(d: string, word: string, loose: string -> Float)
    requires PlainNumeral(d) && RoomFor(ReadDecimal(d)) && All(IsLetter, word)
    requires word !in {"", "m", "k", "M", "G", "T", "P", "Ki", "Mi", "Gi", "Ti", "Pi"}
    ensures Value(d, word, loose) == if IsInherited(word) then NaN else Finite(ReadDecimal(d))
  {
    ReadsAs(d, word, loose);
    OtherWord(word);
    if !IsInherited(word) {
      RoomToMultiply(ReadDecimal(d), 1.0);
    }
  }

  predicate IsInherited(word: string) {
    || word == "constructor" || word == "toString" || word == "valueOf" || word == "toLocaleString"
    || word == "hasOwnProperty" || word == "isPrototypeOf" || word == "propertyIsEnumerable"
  }

  /** An absent or empty text is 0, and text out of the pattern is left to parseFloat. */
  lemma OtherTexts(s: string, loose: string -> Float)
    ensures ParseQuantity(None, loose) == Finite(0.0) && ParseQuantity(Some(""), loose) == Finite(0.0)
    ensures s != "" && (forall d, space, word :: !Matches(Trim(s), d, space, word)) ==>
      ParseQuantity(Some(s), loose) == loose(s)
  {
    if Exec(Trim(s)).Some? {
      ExecIsMatch(Trim(s), Exec(Trim(s)).value.0, Exec(Trim(s)).value.1);
    }
  }

  /** Trimming takes the white space off both ends, and nothing else. */
  lemma TrimExact(s: string) returns (n: nat, end: nat)
    ensures n <= end <= |s| && Trim(s) == s[n..end]
    ensures forall i | 0 <= i < n || end <= i < |s| :: IsSpace(s[i])
    ensures n < end ==> !IsSpace(s[n]) && !IsSpace(s[end - 1])
  {
    n := Run(IsSpace, s);
    end := TextEnd(s, n, |s|);
  }

  // ---- printing bytes

  /** 1024^k */
  function Power(k: nat): (p: int)
    ensures p >= 1
  {
    if k == 0 then 1 else 1024 * Power(k - 1)
  }

  /** x / 1024^k */
  function Down(x: real, k: nat): real
    decreases k
  {
    if k == 0 then x else Down(x / 1024.0, k - 1)
  }

  /** x * 1024^k */
  function Up(x: real, k: nat): real
    decreases k
  {
    if k == 0 then x else Up(1024.0 * x, k - 1)
  }

  lemma {:induction false} UpIsProduct(x: real, k: nat)
    ensures Up(x, k) == x * Power(k) as real
    decreases k
  {
    if k == 0 {
    } else {
      UpIsProduct(1024.0 * x, k - 1);
      var p := Power(k - 1) as real;
      assert 1024.0 * x * p == x * (1024.0 * p);
    }
  }

  lemma {:induction false} UpDown(x: real, k: nat)
    ensures Up(Down(x, k), k) == x
    decreases k
  {
    if k == 0 {
    } else {
      DownLast(x, k - 1);
      UpDown(x, k - 1);
    }
  }

  lemma {:induction false} DownUp(x: real, k: nat)
    ensures Down(Up(x, k), k) == x
    decreases k
  {
    if k == 0 {
    } else {
      DownUp(1024.0 * x, k - 1);
      DownLast(Up(x, k), k - 1);
    }
  }

  lemma {:induction false} DownLast(x: real, k: nat)
    ensures Down(x, k + 1) == Down(x, k) / 1024.0
    decreases k
  {
    if k == 0 {
    } else {
      DownLast(x / 1024.0, k - 1);
    }
  }

  /** Dividing by 1024 k times is dividing by 1024^k. */
  lemma DownIsQuotient(x: real, k: nat)
    ensures Down(x, k) == x / Power(k) as real
  {
    UpDown(x, k);
    UpIsProduct(Down(x, k), k);
    Cancels(Down(x, k), Power(k) as real);
  }

  lemma {:induction false} DownMonotone(x: real, y: real, k: nat)
    requires x <= y
    ensures Down(x, k) <= Down(y, k)
    decreases k
  {
    if k == 0 {
    } else {
      DownMonotone(x / 1024.0, y / 1024.0, k - 1);
    }
  }

  lemma {:induction false} UpMonotone(x: real, y: real, k: nat)
    requires x <= y
    ensures Up(x, k) <= Up(y, k)
    decreases k
  {
    if k == 0 {
    } else {
      UpMonotone(1024.0 * x, 1024.0 * y, k - 1);
    }
  }

  lemma {:induction false} UpAdds(x: real, y: real, k: nat)
    ensures Up(x + y, k) == Up(x, k) + Up(y, k)
    decreases k
  {
    if k == 0 {
    } else {
      UpAdds(1024.0 * x, 1024.0 * y, k - 1);
    }
  }

  lemma {:induction false} DownShrinks(x: real, k: nat)
    requires x >= 0.0
    ensures 0.0 <= Down(x, k) <= x
    decreases k
  {
    if k == 0 {
    } else {
      DownShrinks(x / 1024.0, k - 1);
    }
  }

  /** The names of BINARY_UNITS, by power of 1024. */
  function UnitName(k: nat): string {
    if k == 1 then "Ki" else if k == 2 then "Mi" else if k == 3 then "Gi" else if k == 4 then "Ti" else "Pi"
  }

  /** The power of the largest unit that fits, or 0 when even the smallest does not. */
  function UnitPower(bytes: real): (k: nat)
    ensures k <= 5
  {
    if bytes >= Power(5) as real then 5
    else if bytes >= Power(4) as real then 4
    else if bytes >= Power(3) as real then 3
    else if bytes >= Power(2) as real then 2
    else if bytes >= Power(1) as real then 1
    else 0
  }

  /** From 10^21 bytes on toFixed may switch to exponents. */
  function FmtBytes(bytes: real): string
    requires -1e21 < bytes < 1e21
  {
    var k := UnitPower(bytes);
    if k > 0 then
      assert bytes >= 0.0;
      DownShrinks(bytes, k);
      TrimNum(Down(bytes, k), 1) + " " + UnitName(k)
    else TrimNum(bytes, 0) + " B"
  }

  // ---- reading back what was printed

  /** x rounded to the nearest tenth. */
  function Tenths(x: real): real {
    Nearest(x * 10.0) as real / 10.0
  }

  /** b in tenths of the unit, as near as possible, and back. */
  function Rounded(b: real, k: nat): real {
    Up(Tenths(Down(b, k)), k)
  }

  /** The number that the printed text denotes. */
  function Shown(b: nat): real {
    var k := UnitPower(b as real);
    if k == 0 then b as real else Rounded(b as real, k)
  }

  lemma NothingToTrim(s: string)
    requires s != [] && !IsSpace(s[0]) && !IsSpace(s[|s| - 1])
    ensures Trim(s) == s
  {
    RunIs(IsSpace, s, 0);
    assert s[0..] == s;
  }

  lemma ParseMatched(s: string, digits: string, space: string, suffix: string, loose: string -> Float)
    requires Matches(s, digits, space, suffix)
    requires !IsSpace(s[0]) && !IsSpace(s[|s| - 1])
    ensures ParseQuantity(Some(s), loose) == Mult(ReadFloat(digits), Suffix(suffix))
  {
    NothingToTrim(s);
    MatchIsFound(s, digits, space, suffix);
  }

  lemma PrintedParses(t: string, unit: string, loose: string -> Float)
    requires Trimmed(t) && unit != [] && All(IsLetter, unit)
    ensures ParseQuantity(Some(t + " " + unit), loose) == Mult(ReadFloat(t), Suffix(unit))
  {
    var s := t + " " + unit;
    var space := " ";
    assert s[0] == t[0] && s[|s| - 1] == unit[|unit| - 1];
    assert IsLetter(unit[|unit| - 1]);
    assert All(IsSpace, space);
    ParseMatched(s, t, space, unit, loose);
  }

  /** The table of suffixes undoes the table of units. */
  lemma UnitSuffix(k: nat)
    requires 1 <= k <= 5
    ensures UnitName(k) != [] && All(IsLetter, UnitName(k)) && Suffix(UnitName(k)) == Finite(Power(k) as real)
  {
    if k == 1 { assert Power(1) == KI; }
    else if k == 2 { assert Power(2) == MI; }
    else if k == 3 { assert Power(3) == GI; }
    else if k == 4 { assert Power(4) == TI; }
    else { assert Power(5) == PI; }
  }

  lemma PlainBytes()
    ensures All(IsLetter, "B") && Suffix("B") == Finite(1.0)
  {
  }

  lemma ToFixedIs(x: real, dp: nat, n: nat)
    requires 0.0 <= x < 1e21 && Nearest(Shift(x, dp)) == n
    ensures ToFixed(x, dp) == FixedStr(n, dp)
  {
  }

  lemma FixedTrims(n: nat, dp: nat) returns (t: string)
    ensures t == TrimStr(FixedStr(n, dp)) && Trimmed(t) && ReadDecimal(t) == Unshift(n as real, dp)
  {
    TrimKeepsValue(n, dp);
    t := TrimStr(FixedStr(n, dp));
  }

  /** Numbers of ordinary size multiply as they are. */
  lemma MultModest(v: real, size: real, w: real)
    requires v == 0.0 || 1.0 <= v < 18014398509481983.0
    requires w == v * size && (w == 0.0 || 1.0 <= w < 18014398509481983.0)
    ensures Mult(Near(v), Finite(size)) == Finite(w)
  {
    NearModest(v);
    NearModest(w);
    assert Product(v, size) == w;
  }

  lemma BytesText(b: nat) returns (t: string)
    requires b < KI
    ensures FmtBytes(b as real) == t + " B" && Trimmed(t) && ReadDecimal(t) == b as real
  {
    NearestUnique(b as real, b);
    ToFixedIs(b as real, 0, b);
    t := FixedTrims(b, 0);
  }

  lemma BytesDenote(b: nat, loose: string -> Float)
    requires b < KI
    ensures ParseQuantity(Some(FmtBytes(b as real)), loose) == Finite(b as real)
  {
    var t := BytesText(b);
    var unit := "B";
    assert t + " B" == t + " " + unit;
    PlainBytes();
    PrintedParses(t, unit, loose);
    BytesMultiply(b, t);
  }

  lemma BytesMultiply(b: nat, t: string)
    requires b < KI && ReadDecimal(t) == b as real
    ensures Mult(ReadFloat(t), Finite(1.0)) == Finite(b as real)
  {
    MultModest(b as real, 1.0, b as real);
  }

  /** The text and the number of x rounded to a tenth. */
  lemma TenthsText(x: real) returns (t: string, v: real)
    requires 0.0 <= x < 1e21
    ensures t == TrimNum(x, 1) && Trimmed(t) && ReadDecimal(t) == v
    ensures v == Tenths(x)
  {
    var n := Nearest(x * 10.0);
    assert Shift(x, 1) == Shift(10.0 * x, 0);
    ToFixedIs(x, 1, n);
    t := FixedTrims(n, 1);
    assert Unshift(n as real, 1) == Unshift(n as real / 10.0, 0);
    v := n as real / 10.0;
  }

  lemma UnitTimes(v: real, k: nat) returns (w: real)
    requires 1 <= k <= 5 && 1.0 <= v && Up(v, k) < 18014398509481983.0
    ensures Mult(Near(v), Suffix(UnitName(k))) == Finite(w) && w == Up(v, k)
  {
    UnitSuffix(k);
    UpIsProduct(v, k);
    w := Up(v, k);
    UpGrows(v, k);
    MultModest(v, Power(k) as real, w);
  }

  lemma {:induction false} UpGrows(v: real, k: nat)
    requires v >= 0.0
    ensures Up(v, k) >= v
    decreases k
  {
    if k == 0 {
    } else {
      UpGrows(1024.0 * v, k - 1);
    }
  }

  lemma UnitLetters(k: nat)
    requires 1 <= k <= 5
    ensures UnitName(k) != [] && All(IsLetter, UnitName(k))
  {
  }

  lemma TenthsParse(x: real, unit: string, loose: string -> Float) returns (v: real)
    requires 0.0 <= x < 1e21 && unit != [] && All(IsLetter, unit)
    ensures ParseQuantity(Some(TrimNum(x, 1) + " " + unit), loose) == Mult(Near(v), Suffix(unit))
    ensures v == Tenths(x)
  {
    var t;
    t, v := TenthsText(x);
    PrintedParses(t, unit, loose);
  }

  lemma TenthsDenote(x: real, k: nat, loose: string -> Float) returns (w: real)
    requires 0.0 <= x < 1e21 && 1 <= k <= 5
    requires 1.0 <= Tenths(x) && Up(Tenths(x), k) < 18014398509481983.0
    ensures ParseQuantity(Some(TrimNum(x, 1) + " " + UnitName(k)), loose) == Finite(w)
    ensures w == Up(Tenths(x), k)
  {
    UnitLetters(k);
    var v := TenthsParse(x, UnitName(k), loose);
    w := UnitTimes(v, k);
  }

  // ---- how far the printed text is from the number

  /** Rounding to a tenth of the unit moves the number by at most half a tenth. */
  lemma RoundingError(b: real, k: nat)
    ensures Abs(Rounded(b, k) - b) <= Power(k) as real / 20.0
  {
    var x := Down(b, k);
    var r := Tenths(x);
    UpDown(b, k);
    UpAdds(r - x, x, k);
    UpMonotone(r - x, 0.05, k);
    UpMonotone(-0.05, r - x, k);
    UpIsProduct(0.05, k);
    UpIsProduct(-0.05, k);
  }

  /** What is printed of a count below 2^53 stays in the range in which nothing overflows. */
  lemma UnitsModest(b: nat)
    requires b < 0x20_0000_0000_0000 && UnitPower(b as real) > 0
    ensures 1.0 <= Tenths(Down(b as real, UnitPower(b as real)))
    ensures Rounded(b as real, UnitPower(b as real)) < 18014398509481983.0
  {
    var k := UnitPower(b as real);
    RoundingError(b as real, k);
    UnitRange(b as real);
    DownMonotone(Power(k) as real, b as real, k);
    WholeUnits(1.0, k);
  }

  lemma UnitsDenote(b: nat, loose: string -> Float) returns (w: real)
    requires b < 0x20_0000_0000_0000 && UnitPower(b as real) > 0
    ensures ParseQuantity(Some(FmtBytes(b as real)), loose) == Finite(w)
    ensures w == Rounded(b as real, UnitPower(b as real))
  {
    UnitsModest(b);
    DownShrinks(b as real, UnitPower(b as real));
    w := TenthsDenote(Down(b as real, UnitPower(b as real)), UnitPower(b as real), loose);
  }

  lemma PrintedDenotes(b: nat, loose: string -> Float) returns (w: real)
    requires b < 0x20_0000_0000_0000
    ensures ParseQuantity(Some(FmtBytes(b as real)), loose) == Finite(w)
    ensures w == Shown(b)
  {
    if UnitPower(b as real) == 0 {
      assert b < KI;
      BytesDenote(b, loose);
      w := b as real;
    } else {
      w := UnitsDenote(b, loose);
    }
  }

  lemma ShownNear(b: nat)
    ensures b < KI ==> Shown(b) == b as real
    ensures b >= KI ==> Abs(Shown(b) - b as real) <= Power(UnitPower(b as real)) as real / 20.0 <= b as real / 20.0
  {
    RoundingError(b as real, UnitPower(b as real));
  }

  /** Reading back a printed byte count gives the count itself below 1024, and otherwise a
      number that is off by at most a twentieth of the unit, hence by at most 5%. */
  lemma RoundTrip(b: nat, loose: string -> Float)
    requires b < 0x20_0000_0000_0000
    ensures var v := ParseQuantity(Some(FmtBytes(b as real)), loose);
      && v.Finite?
      && (b < KI ==> v.v == b as real)
      && (b >= KI ==> Abs(v.v - b as real) <= Power(UnitPower(b as real)) as real / 20.0 <= b as real / 20.0)
  {
    var v := PrintedDenotes(b, loose);
    ShownNear(b);
  }

  // ---- the printed values rise with the numbers

  lemma SameUnitMonotone(b: real, c: real, k: nat)
    requires b <= c
    ensures Rounded(b, k) <= Rounded(c, k)
  {
    DownMonotone(b, c, k);
    NearestMonotone(Down(b, k) * 10.0, Down(c, k) * 10.0);
    UpMonotone(Tenths(Down(b, k)), Tenths(Down(c, k)), k);
  }

  lemma WholeUnits(n: real, k: nat)
    ensures Down(n * Power(k) as real, k) == n
  {
    UpIsProduct(n, k);
    DownUp(n, k);
  }

  /** A number below the next unit is printed as at most one of the next unit, as in "1024 Ki". */
  lemma BelowNextUnit(b: real, k: nat)
    requires b <= Power(k + 1) as real
    ensures Rounded(b, k) <= Power(k + 1) as real
  {
    WholeUnits(1024.0, k);
    DownMonotone(b, 1024.0 * Power(k) as real, k);
    UpMonotone(Tenths(Down(b, k)), 1024.0, k);
    UpIsProduct(1024.0, k);
  }

  lemma AtLeastOneUnit(c: real, k: nat)
    requires c >= Power(k) as real
    ensures Rounded(c, k) >= Power(k) as real
  {
    WholeUnits(1.0, k);
    DownMonotone(1.0 * Power(k) as real, c, k);
    UpMonotone(1.0, Tenths(Down(c, k)), k);
    UpIsProduct(1.0, k);
  }

  lemma {:induction false} PowersRise(j: nat, k: nat)
    requires j <= k
    ensures Power(j) <= Power(k)
  {
    if j == k {
    } else {
      PowersRise(j, k - 1);
    }
  }

  lemma UnitRange(b: real)
    requires b >= 0.0
    ensures var k := UnitPower(b);
      (k > 0 ==> b >= Power(k) as real) && (k < 5 ==> b < Power(k + 1) as real)
  {
  }

  lemma ShownMonotone(b: nat, c: nat)
    requires b <= c
    ensures Shown(b) <= Shown(c)
  {
    var j, k := UnitPower(b as real), UnitPower(c as real);
    UnitRange(b as real);
    UnitRange(c as real);
    if j == k {
      SameUnitMonotone(b as real, c as real, k);
    } else {
      if k < j {
        PowersRise(k + 1, j);
      }
      assert j < k;
      PowersRise(j + 1, k);
      BelowNextUnit(b as real, j);
      AtLeastOneUnit(c as real, k);
    }
  }

  /** A larger byte count never reads back smaller, not even across units. */
  lemma PrintedMonotone(b: nat, c: nat, loose: string -> Float)
    requires b <= c < 0x20_0000_0000_0000
    ensures var v := ParseQuantity(Some(FmtBytes(b as real)), loose);
      var w := ParseQuantity(Some(FmtBytes(c as real)), loose);
      v.Finite? && w.Finite? && v.v <= w.v
  {
    var v := PrintedDenotes(b, loose);
    var w := PrintedDenotes(c, loose);
    ShownMonotone(b, c);
  }
}
