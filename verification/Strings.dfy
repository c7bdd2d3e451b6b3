/** Go's order on strings, and lists of map keys in that order. */
module Strings {
  import opened Prelude
  import opened Sorting

  /** Lexicographic order; a proper prefix comes first. */
  predicate StrLess(a: string, b: string) {
    if b == [] then false
    else if a == [] then true
    else if a[0] != b[0] then a[0] < b[0]
    else StrLess(a[1..], b[1..])
  }

  lemma {:induction false} StrLessIrreflexive(a: string)
    ensures !StrLess(a, a)
  {
    if a == [] {
    } else {
      StrLessIrreflexive(a[1..]);
    }
  }

  lemma {:induction false} StrLessTransitive(a: string, b: string, c: string)
    requires StrLess(a, b) && StrLess(b, c)
    ensures StrLess(a, c)
  {
    if a == [] || a[0] != b[0] || b[0] != c[0] {
    } else {
      StrLessTransitive(a[1..], b[1..], c[1..]);
    }
  }

  lemma {:induction false} StrLessTotal(a: string, b: string)
    ensures a == b || StrLess(a, b) || StrLess(b, a)
  {
    if a == [] || b == [] || a[0] != b[0] {
    } else {
      StrLessTotal(a[1..], b[1..]);
      assert a == [a[0]] + a[1..] && b == [b[0]] + b[1..];
    }
  }

  /** a and b are equal up to position k, where a ends or has the smaller character. */
  predicate SmallerAt(a: string, b: string, k: int) {
    && 0 <= k <= |a| && k < |b| && (forall i | 0 <= i < k :: a[i] == b[i])
    && (k == |a| || a[k] < b[k])
  }

  /** The order of texts: at the first difference the smaller character comes first, and a text
      comes before its extensions. */
  lemma {:induction false} StrLessExactly(a: string, b: string)
    ensures StrLess(a, b) <==> exists k :: SmallerAt(a, b, k)
  {
    if a == [] || b == [] || a[0] != b[0] {
      assert b != [] && (a == [] || a[0] < b[0]) ==> SmallerAt(a, b, 0);
    } else {
      StrLessExactly(a[1..], b[1..]);
      if k :| SmallerAt(a[1..], b[1..], k) {
        assert forall i | 0 < i <= k :: a[i] == a[1..][i - 1] && b[i] == b[1..][i - 1];
        assert SmallerAt(a, b, k + 1);
      }
      if k :| SmallerAt(a, b, k) {
        assert k > 0;
        assert SmallerAt(a[1..], b[1..], k - 1);
      }
    }
  }

  lemma StrLessOrders(dom: set<string>)
    ensures StrictWeakOn(StrLess, dom) && TotalOn(StrLess, dom)
  {
    forall a | a in dom ensures !StrLess(a, a) {
      StrLessIrreflexive(a);
    }
    forall a, b, c | a in dom && b in dom && c in dom && StrLess(a, b) && StrLess(b, c) ensures StrLess(a, c) {
      StrLessTransitive(a, b, c);
    }
    forall a, b | a in dom && b in dom ensures a == b || StrLess(a, b) || StrLess(b, a) {
      StrLessTotal(a, b);
    }
  }

  /** The list holds every key of the set exactly once, in increasing order. */
  ghost predicate Lists(keys: set<string>, r: seq<string>) {
    NoDup(r) && Sorted(StrLess, r) && forall k :: k in r <==> k in keys
  }

  lemma SameKeys<T>(xs: seq<T>, ys: seq<T>)
    requires NoDup(xs) && NoDup(ys)
    requires forall x: T :: x in xs <==> x in ys
    ensures multiset(xs) == multiset(ys)
  {
    NoDupCounts(xs);
    NoDupCounts(ys);
    forall x: T ensures multiset(xs)[x] == multiset(ys)[x] {
      assert x in xs <==> x in multiset(xs);
      assert x in ys <==> x in multiset(ys);
    }
  }

  /** A set of keys has one sorted listing, so Go's random map order cannot show. */
  lemma ListsUnique(keys: set<string>, r: seq<string>, r': seq<string>)
    requires Lists(keys, r) && Lists(keys, r')
    ensures r == r'
  {
    SameKeys(r, r');
    StrLessOrders(keys);
    SortsUnique(StrLess, keys, r, r', r, r');
  }

  /** Ranging over a map's keys visits each once, in an order of the runtime's choosing. */
  method RangeKeys(keys: set<string>) returns (r: seq<string>)
    ensures NoDup(r)
    ensures forall k :: k in r <==> k in keys
  {
    r := [];
    var rest := keys;
    while rest != {}
      invariant NoDup(r) && rest <= keys
      invariant forall k :: k in r <==> k in keys && k !in rest
      decreases |rest|
    {
      var k :| k in rest;
      r := r + [k];
      rest := rest - {k};
    }
  }

  /** Collect the keys of a map and sort them, as Clusters() and fleetActionsHandler do. */
  method SortedKeys(keys: set<string>) returns (r: seq<string>)
    ensures Lists(keys, r)
  {
    var found := RangeKeys(keys);
    StrLessOrders(keys);
    r := SortSomehow(StrLess, keys, found);
    SameElements(found, r);
    NoDupPermuted(found, r);
  }
}
