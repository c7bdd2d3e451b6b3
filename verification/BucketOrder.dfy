/** The order of penalty-bucket labels on the FinOps page (bucketLess and orderBuckets in
    pkg/server/handlers_finops.go): when it is an order at all, and what it then looks like. */
module BucketOrder {
  import opened Prelude
  import opened Floats
  import opened Sorting
  import opened Strings

  /** Stands for strconv.ParseFloat: None is its error. */
  type Parse = string -> Option<Float>

  const PINNED := "pinned"

  predicate BucketLess(parse: Parse, a: string, b: string) {
    if a == b then false
    else if a == PINNED then false
    else if b == PINNED then true
    else if parse(a).Some? && parse(b).Some? then Less(parse(a).value, parse(b).value)
    else StrLess(a, b)
  }

  function ByBucket(parse: Parse): (string, string) -> bool {
    (a: string, b: string) => BucketLess(parse, a, b)
  }

  predicate Numeral(parse: Parse, s: string) {
    s != PINNED && parse(s).Some?
  }

  predicate Name(parse: Parse, s: string) {
    s != PINNED && parse(s).None?
  }

  /** A label that parses as NaN ties with every numeral, so the others must tie as well. */
  ghost predicate NaNHarmless(parse: Parse, dom: set<string>) {
    forall x, a, b | x in dom && a in dom && b in dom
      && Numeral(parse, x) && Numeral(parse, a) && Numeral(parse, b) && parse(x).value.NaN? ::
      !Less(parse(a).value, parse(b).value)
  }

  /** No name stands, as text, between two numerals against the order of their values. */
  ghost predicate NamesKeepOrder(parse: Parse, dom: set<string>) {
    forall a, b, m | a in dom && b in dom && m in dom
      && Numeral(parse, a) && Numeral(parse, b) && Name(parse, m)
      && !Less(parse(b).value, parse(a).value) && StrLess(b, m) ::
      StrLess(a, m)
  }

  ghost predicate OrderedLabels(parse: Parse, dom: set<string>) {
    NamesKeepOrder(parse, dom) && NaNHarmless(parse, dom)
  }

  /** Everything that is used of the order of texts, for three of them. */
  lemma TextOrder(a: string, b: string, c: string)
    ensures !StrLess(a, a)
    ensures a == b || StrLess(a, b) || StrLess(b, a)
    ensures !(StrLess(a, b) && StrLess(b, a))
    ensures StrLess(a, b) && StrLess(b, c) ==> StrLess(a, c)
  {
    StrLessIrreflexive(a);
    StrLessTotal(a, b);
    if StrLess(a, b) && StrLess(b, c) {
      StrLessTransitive(a, b, c);
    }
    if StrLess(a, b) && StrLess(b, a) {
      StrLessTransitive(a, b, a);
    }
  }

  lemma TransitiveNumerals(parse: Parse, a: string, b: string, c: string)
    requires Numeral(parse, a) && Numeral(parse, b) && Numeral(parse, c)
    requires BucketLess(parse, a, b) && BucketLess(parse, b, c)
    ensures BucketLess(parse, a, c)
  {
    LessOrdered(parse(a).value, parse(b).value, parse(c).value);
    LessOrdered(parse(a).value, parse(b).value, parse(a).value);
  }

  lemma TransitiveNameLast(parse: Parse, dom: set<string>, a: string, b: string, c: string)
    requires NamesKeepOrder(parse, dom) && a in dom && b in dom && c in dom
    requires Numeral(parse, a) && Numeral(parse, b) && Name(parse, c)
    requires Less(parse(a).value, parse(b).value) && StrLess(b, c)
    ensures StrLess(a, c)
  {
    LessOrdered(parse(a).value, parse(b).value, parse(a).value);
  }

  lemma TransitiveNameBetween(parse: Parse, dom: set<string>, a: string, b: string, c: string)
    requires NamesKeepOrder(parse, dom) && a in dom && b in dom && c in dom
    requires Numeral(parse, a) && Name(parse, b) && Numeral(parse, c)
    requires StrLess(a, b) && StrLess(b, c)
    ensures Less(parse(a).value, parse(c).value)
  {
    TextOrder(b, c, b);
  }

  lemma TransitiveNameFirst(parse: Parse, dom: set<string>, a: string, b: string, c: string)
    requires NamesKeepOrder(parse, dom) && a in dom && b in dom && c in dom
    requires Name(parse, a) && Numeral(parse, b) && Numeral(parse, c)
    requires StrLess(a, b) && Less(parse(b).value, parse(c).value)
    ensures StrLess(a, c)
  {
    LessOrdered(parse(b).value, parse(c).value, parse(b).value);
    TextOrder(a, b, a);
    TextOrder(a, c, a);
  }

  lemma SortedTransitive(parse: Parse, dom: set<string>, a: string, b: string, c: string)
    requires NamesKeepOrder(parse, dom)
    requires a in dom && b in dom && c in dom
    requires BucketLess(parse, a, b) && BucketLess(parse, b, c)
    ensures BucketLess(parse, a, c)
  {
    if c == PINNED {
    } else if Numeral(parse, a) && Numeral(parse, b) && Numeral(parse, c) {
      TransitiveNumerals(parse, a, b, c);
    } else {
      TextOrder(a, b, c);
      TextOrder(a, a, a);
      if Numeral(parse, a) && Numeral(parse, b) {
        TransitiveNameLast(parse, dom, a, b, c);
      } else if Numeral(parse, a) && Numeral(parse, c) {
        TransitiveNameBetween(parse, dom, a, b, c);
        LessOrdered(parse(a).value, parse(a).value, parse(a).value);
      } else if Numeral(parse, b) && Numeral(parse, c) {
        TransitiveNameFirst(parse, dom, a, b, c);
      }
    }
  }

  /** Different labels tie only as numerals of which neither is less. */
  lemma TiesAreNumerals(parse: Parse, a: string, b: string)
    ensures Tied(ByBucket(parse), a, b) <==>
      a == b || (Numeral(parse, a) && Numeral(parse, b)
        && !Less(parse(a).value, parse(b).value) && !Less(parse(b).value, parse(a).value))
  {
    StrLessTotal(a, b);
    StrLessIrreflexive(a);
  }

  lemma TiesTransitive(parse: Parse, dom: set<string>, a: string, b: string, c: string)
    requires NaNHarmless(parse, dom)
    requires a in dom && b in dom && c in dom
    requires Tied(ByBucket(parse), a, b) && Tied(ByBucket(parse), b, c)
    ensures Tied(ByBucket(parse), a, c)
  {
    TiesAreNumerals(parse, a, b);
    TiesAreNumerals(parse, b, c);
    TiesAreNumerals(parse, a, c);
    if a != b && b != c && a != c {
      LessOrdered(parse(a).value, parse(b).value, parse(c).value);
      LessOrdered(parse(c).value, parse(b).value, parse(a).value);
      assert parse(b).value.NaN? ==> !Less(parse(a).value, parse(c).value) && !Less(parse(c).value, parse(a).value);
      assert parse(a).value.NaN? ==> !Less(parse(a).value, parse(c).value);
    }
  }

  lemma OrderedIsHarmless(parse: Parse, dom: set<string>)
    requires StrictWeakOn(ByBucket(parse), dom)
    ensures NaNHarmless(parse, dom)
  {
    forall x, a, b | x in dom && a in dom && b in dom
      && Numeral(parse, x) && Numeral(parse, a) && Numeral(parse, b) && parse(x).value.NaN?
      ensures !Less(parse(a).value, parse(b).value)
    {
      TiesAreNumerals(parse, a, x);
      TiesAreNumerals(parse, x, b);
      TiesAreNumerals(parse, a, b);
      assert Tied(ByBucket(parse), a, x) && Tied(ByBucket(parse), x, b);
      LessOrdered(parse(a).value, parse(a).value, parse(a).value);
    }
  }

  lemma OrderedKeepsNames(parse: Parse, dom: set<string>)
    requires StrictWeakOn(ByBucket(parse), dom)
    ensures NamesKeepOrder(parse, dom)
  {
    var less := ByBucket(parse);
    forall a, b, m | a in dom && b in dom && m in dom
      && Numeral(parse, a) && Numeral(parse, b) && Name(parse, m)
      && !Less(parse(b).value, parse(a).value) && StrLess(b, m)
      ensures StrLess(a, m)
    {
      TextOrder(a, m, a);
      TextOrder(b, m, b);
      assert less(b, m);
      assert StrLess(m, a) ==> less(m, a);
      assert less(b, m) && less(m, a) ==> less(b, a);
    }
  }

  /** bucketLess is an order that a sort can use exactly when no name separates numerals
      against their values and no NaN ties with numerals that differ. */
  lemma OrderedExactly(parse: Parse, dom: set<string>)
    ensures StrictWeakOn(ByBucket(parse), dom) <==> OrderedLabels(parse, dom)
  {
    var less := ByBucket(parse);
    if NamesKeepOrder(parse, dom) && NaNHarmless(parse, dom) {
      forall a, b, c | a in dom && b in dom && c in dom && less(a, b) && less(b, c) ensures less(a, c) {
        SortedTransitive(parse, dom, a, b, c);
      }
      forall a, b, c | a in dom && b in dom && c in dom && Tied(less, a, b) && Tied(less, b, c)
        ensures Tied(less, a, c) {
        TiesTransitive(parse, dom, a, b, c);
      }
    }
    if StrictWeakOn(less, dom) {
      OrderedKeepsNames(parse, dom);
      OrderedIsHarmless(parse, dom);
    }
  }

  /** Over all labels it is not: "9" < "10" as numbers, "10" < "1a" and "1a" < "9" as text. */
  lemma NotAnOrder(parse: Parse, dom: set<string>)
    requires parse("9") == Some(Finite(9.0)) && parse("10") == Some(Finite(10.0)) && parse("1a") == None
    requires "9" in dom && "10" in dom && "1a" in dom
    ensures BucketLess(parse, "9", "10") && BucketLess(parse, "10", "1a") && BucketLess(parse, "1a", "9")
    ensures !StrictWeakOn(ByBucket(parse), dom)
  {
    assert StrLess("0", "a") && StrLess("10", "1a") && StrLess("1a", "9") by {
      assert "10"[1..] == "0" && "1a"[1..] == "a";
    }
    var less := ByBucket(parse);
    assert less("9", "10") && less("10", "1a") && less("1a", "9");
    assert !less("9", "9");
  }

  /** The labels that Prometheus carries: numerals that begin with a digit, a point or a sign
      and are not NaN, names that begin with a letter, and "pinned". */
  ghost predicate UsualLabels(parse: Parse, dom: set<string>) {
    forall s | s in dom && s != PINNED ::
      && s != ""
      && (parse(s).Some? ==> s[0] <= '9' && !parse(s).value.NaN?)
      && (parse(s).None? ==> s[0] > '9')
  }

  /** On usual labels numerals come first by value, then names as texts, then "pinned". */
  lemma UsualOrder(parse: Parse, dom: set<string>)
    requires UsualLabels(parse, dom)
    ensures StrictWeakOn(ByBucket(parse), dom)
    ensures forall a, b | a in dom && b in dom && a != "pinned" && b != "pinned" && parse(a).Some? && parse(b).Some? ::
      BucketLess(parse, a, b) <==> Less(parse(a).value, parse(b).value)
    ensures forall a, b | a in dom && b in dom && a != "pinned" && b != "pinned" && parse(a).Some? && parse(b).None? ::
      BucketLess(parse, a, b) && !BucketLess(parse, b, a)
    ensures forall a, b | a in dom && b in dom && a != "pinned" && b != "pinned" && parse(a).None? && parse(b).None? ::
      BucketLess(parse, a, b) <==> StrLess(a, b)
    ensures forall a | a in dom && a != "pinned" :: BucketLess(parse, a, "pinned") && !BucketLess(parse, "pinned", a)
  {
    OrderedExactly(parse, dom);
    forall a | a in dom && Numeral(parse, a) ensures !Less(parse(a).value, parse(a).value) {
      LessOrdered(parse(a).value, parse(a).value, parse(a).value);
    }
    forall a ensures !StrLess(a, a) {
      StrLessIrreflexive(a);
    }
  }

  ghost predicate DistinctValues(parse: Parse, dom: set<string>) {
    forall a, b | a in dom && b in dom && a != b && Numeral(parse, a) && Numeral(parse, b) ::
      Less(parse(a).value, parse(b).value) || Less(parse(b).value, parse(a).value)
  }

  /** sort.Slice: always a permutation, and in order whenever the comparison is an order. */
  method SortSlice(less: (string, string) -> bool, xs: seq<string>) returns (out: seq<string>)
    ensures multiset(out) == multiset(xs)
    ensures StrictWeakOn(less, set x | x in xs) ==> Sorted(less, out)
  {
    out := StableSort(less, xs);
    StableSortElements(less, xs);
    if StrictWeakOn(less, set x | x in xs) {
      StableSortStablySorts(less, (set x | x in xs), xs);
    }
  }

  lemma {:induction false} StableSortElements<T>(less: (T, T) -> bool, xs: seq<T>)
    ensures multiset(StableSort(less, xs)) == multiset(xs)
  {
    if xs == [] {
    } else {
      StableSortElements(less, xs[1..]);
      InsertElements(less, xs[0], StableSort(less, xs[1..]));
      HeadTail(xs);
    }
  }

  /** out lists every label once, without inversions. */
  ghost predicate Orders(parse: Parse, labels: set<string>, out: seq<string>) {
    NoDup(out) && (forall k :: k in out <==> k in labels) && Sorted(ByBucket(parse), out)
  }

  method OrderBuckets(labels: set<string>, parse: Parse) returns (out: seq<string>)
    ensures NoDup(out)
    ensures forall k :: k in out <==> k in labels
    ensures OrderedLabels(parse, labels) ==> Orders(parse, labels, out)
  {
    var found := RangeKeys(labels);
    out := SortSlice(ByBucket(parse), found);
    SameElements(found, out);
    NoDupPermuted(found, out);
    assert (set x | x in found) == labels;
    OrderedExactly(parse, labels);
  }

  /** When no two numerals have the same value there is one result, whatever order Go ranges
      over the map in and however it sorts. */
  lemma OrderBucketsUnique(parse: Parse, labels: set<string>, out: seq<string>, out': seq<string>)
    requires OrderedLabels(parse, labels) && DistinctValues(parse, labels)
    requires Orders(parse, labels, out) && Orders(parse, labels, out')
    ensures out == out'
  {
    OrderedExactly(parse, labels);
    SameKeys(out, out');
    forall a, b | a in labels && b in labels && a != b ensures ByBucket(parse)(a, b) || ByBucket(parse)(b, a) {
      TiesAreNumerals(parse, a, b);
    }
    SortsUnique(ByBucket(parse), labels, out, out', out, out');
  }

  lemma {:induction false} AnyListing(labels: set<string>) returns (out: seq<string>)
    ensures NoDup(out) && forall k :: k in out <==> k in labels
    decreases |labels|
  {
    if labels == {} {
      out := [];
    } else {
      var k :| k in labels;
      out := AnyListing(labels - {k});
      out := out + [k];
    }
  }

  lemma SomeOrder(parse: Parse, labels: set<string>) returns (out: seq<string>)
    requires OrderedLabels(parse, labels)
    ensures Orders(parse, labels, out)
  {
    var found := AnyListing(labels);
    out := StableSort(ByBucket(parse), found);
    OrderedExactly(parse, labels);
    StableSortStablySorts(ByBucket(parse), labels, found);
    SameElements(found, out);
    NoDupPermuted(found, out);
  }

  /** Two numerals of equal value can change places in the list. */
  lemma OtherOrder(parse: Parse, labels: set<string>, a: string, b: string)
    returns (out: seq<string>, out': seq<string>)
    requires OrderedLabels(parse, labels)
    requires a in labels && b in labels && a != b && Tied(ByBucket(parse), a, b)
    ensures Orders(parse, labels, out) && Orders(parse, labels, out') && out != out'
  {
    OrderedExactly(parse, labels);
    out := SomeOrder(parse, labels);
    var i :| 0 <= i < |out| && out[i] == a;
    var j :| 0 <= j < |out| && out[j] == b;
    SwapTied(ByBucket(parse), labels, out, i, j);
    out' := out[i := b][j := a];
    assert out[i] != out'[i];
    assert multiset(out') == multiset(out);
    SameElements(out, out');
    NoDupPermuted(out, out');
  }

  /** On labels that bucketLess orders, the list is determined exactly when no two numerals
      have the same value. */
  lemma OneOrderExactly(parse: Parse, labels: set<string>)
    requires OrderedLabels(parse, labels)
    ensures (forall out, out' | Orders(parse, labels, out) && Orders(parse, labels, out') :: out == out')
       <==> DistinctValues(parse, labels)
  {
    if DistinctValues(parse, labels) {
      forall out, out' | Orders(parse, labels, out) && Orders(parse, labels, out') ensures out == out' {
        OrderBucketsUnique(parse, labels, out, out');
      }
    } else {
      var a, b :| a in labels && b in labels && a != b && Numeral(parse, a) && Numeral(parse, b)
        && !Less(parse(a).value, parse(b).value) && !Less(parse(b).value, parse(a).value);
      TiesAreNumerals(parse, a, b);
      var out, out' := OtherOrder(parse, labels, a, b);
    }
  }
}
