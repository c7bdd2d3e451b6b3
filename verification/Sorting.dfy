/** Sorting as the two runtimes promise it.

    JavaScript's Array.prototype.sort (section 23.1.3.30 of ECMA-262) is a stable
    sort whenever its comparator is consistent; Go's sort.Slice only promises an
    order without inversions. Both need the comparison to be a strict weak order on
    the elements at hand, so that property is stated relative to a set of elements. */
module Sorting {

  /** Neither element comes before the other. */
  predicate Tied<T>(less: (T, T) -> bool, a: T, b: T) {
    !less(a, b) && !less(b, a)
  }

  ghost predicate StrictWeakOn<T>(less: (T, T) -> bool, dom: set<T>) {
    && (forall a | a in dom :: !less(a, a))
    && (forall a, b, c | a in dom && b in dom && c in dom && less(a, b) && less(b, c) :: less(a, c))
    && (forall a, b, c | a in dom && b in dom && c in dom && Tied(less, a, b) && Tied(less, b, c) :: Tied(less, a, c))
  }

  /** No two different elements tie. */
  ghost predicate TotalOn<T>(less: (T, T) -> bool, dom: set<T>) {
    forall a, b | a in dom && b in dom && a != b :: less(a, b) || less(b, a)
  }

  predicate Sorted<T>(less: (T, T) -> bool, xs: seq<T>) {
    forall i, j | 0 <= i < j < |xs| :: !less(xs[j], xs[i])
  }

  ghost predicate Within<T>(xs: seq<T>, dom: set<T>) {
    forall x | x in xs :: x in dom
  }

  /** The elements of ys that tie with x, in the order in which ys has them. */
  function TiedWith<T>(less: (T, T) -> bool, x: T, ys: seq<T>): seq<T> {
    if ys == [] then []
    else (if Tied(less, x, ys[0]) then [ys[0]] else []) + TiedWith(less, x, ys[1..])
  }

  /** What a stable sort returns: a permutation without inversions that keeps tied elements in order. */
  ghost predicate StablySorts<T>(less: (T, T) -> bool, xs: seq<T>, out: seq<T>) {
    && multiset(out) == multiset(xs)
    && Sorted(less, out)
    && forall x | x in xs :: TiedWith(less, x, out) == TiedWith(less, x, xs)
  }

  /** What an unstable sort, or a sort with a comparator that never answers "equal", may return. */
  predicate Sorts<T(==)>(less: (T, T) -> bool, xs: seq<T>, out: seq<T>) {
    && multiset(out) == multiset(xs)
    && Sorted(less, out)
  }

  function Insert<T>(less: (T, T) -> bool, x: T, ys: seq<T>): seq<T> {
    if ys == [] then [x]
    else if less(ys[0], x) then [ys[0]] + Insert(less, x, ys[1..])
    else [x] + ys
  }

  function StableSort<T>(less: (T, T) -> bool, xs: seq<T>): seq<T> {
    if xs == [] then [] else Insert(less, xs[0], StableSort(less, xs[1..]))
  }

  // ---- multisets and membership

  lemma SameElements<T>(xs: seq<T>, ys: seq<T>)
    requires multiset(xs) == multiset(ys)
    ensures |xs| == |ys|
    ensures forall x: T :: x in xs ==> x in ys
    ensures forall x: T :: x in ys ==> x in xs
  {
    assert |multiset(xs)| == |xs| && |multiset(ys)| == |ys|;
    forall x ensures x in xs <==> x in ys {
      assert x in xs <==> x in multiset(xs);
      assert x in ys <==> x in multiset(ys);
    }
  }

  lemma HeadTail<T>(xs: seq<T>)
    requires xs != []
    ensures xs == [xs[0]] + xs[1..]
    ensures multiset(xs) == multiset{xs[0]} + multiset(xs[1..])
  {
    assert xs == [xs[0]] + xs[1..];
  }

  // ---- a strict weak order compares consistently

  lemma NegativelyTransitive<T>(less: (T, T) -> bool, dom: set<T>, a: T, b: T, c: T)
    requires StrictWeakOn(less, dom)
    requires a in dom && b in dom && c in dom
    requires !less(a, b) && !less(b, c)
    ensures !less(a, c)
  {
    assert less(a, c) && less(b, a) ==> less(b, c);
    assert less(a, c) && less(c, b) ==> less(a, b);
    assert Tied(less, a, b) && Tied(less, b, c) ==> Tied(less, a, c);
  }

  /** Tied elements of a sorted list may change places. */
  lemma SwapTied<T>(less: (T, T) -> bool, dom: set<T>, xs: seq<T>, i: nat, j: nat)
    requires StrictWeakOn(less, dom) && Within(xs, dom) && Sorted(less, xs)
    requires i < |xs| && j < |xs| && Tied(less, xs[i], xs[j])
    ensures Sorted(less, xs[i := xs[j]][j := xs[i]])
  {
    var ys := xs[i := xs[j]][j := xs[i]];
    forall p, q | 0 <= p < q < |ys| ensures !less(ys[q], ys[p]) {
      assert xs[p] in dom && xs[q] in dom && xs[i] in dom && xs[j] in dom;
      assert !less(ys[q], xs[q]) && !less(xs[p], ys[p]) && !less(xs[q], xs[p]);
      NegativelyTransitive(less, dom, ys[q], xs[q], xs[p]);
      NegativelyTransitive(less, dom, ys[q], xs[p], ys[p]);
    }
  }

  // ---- insertion

  lemma {:induction false} InsertElements<T>(less: (T, T) -> bool, x: T, ys: seq<T>)
    ensures multiset(Insert(less, x, ys)) == multiset{x} + multiset(ys)
    ensures forall y: T :: y in Insert(less, x, ys) ==> y == x || y in ys
  {
    if ys == [] || !less(ys[0], x) {
    } else {
      InsertElements(less, x, ys[1..]);
      HeadTail(ys);
    }
    SameElements(Insert(less, x, ys), [x] + ys);
  }

  lemma {:induction false} InsertSorted<T>(less: (T, T) -> bool, dom: set<T>, x: T, ys: seq<T>)
    requires StrictWeakOn(less, dom) && x in dom && Within(ys, dom)
    requires Sorted(less, ys)
    ensures Sorted(less, Insert(less, x, ys))
  {
    if ys == [] {
    } else {
      HeadTail(ys);
      var zs := Insert(less, x, ys);
      if less(ys[0], x) {
        InsertSorted(less, dom, x, ys[1..]);
        InsertElements(less, x, ys[1..]);
        var tail := ys[1..];
        var rest := Insert(less, x, tail);
        assert zs == [ys[0]] + rest;
        forall i, j | 0 <= i < j < |zs| ensures !less(zs[j], zs[i]) {
          assert zs[j] == rest[j - 1] && rest[j - 1] in rest;
          if i == 0 {
            if zs[j] == x {
              assert less(x, ys[0]) ==> less(x, x);
            } else {
              assert zs[j] in tail;
              var k :| 0 <= k < |tail| && tail[k] == zs[j];
              assert ys[k + 1] == zs[j];
            }
          } else {
            assert zs[i] == rest[i - 1];
          }
        }
      } else {
        assert zs == [x] + ys;
        forall j | 0 < j < |zs| ensures !less(zs[j], x) {
          assert zs[j] == ys[j - 1];
          if j > 1 {
            assert !less(ys[j - 1], ys[0]);
            NegativelyTransitive(less, dom, ys[j - 1], ys[0], x);
          }
        }
      }
    }
  }

  lemma {:induction false} InsertTied<T>(less: (T, T) -> bool, dom: set<T>, w: T, x: T, ys: seq<T>)
    requires StrictWeakOn(less, dom) && w in dom && x in dom && Within(ys, dom)
    ensures TiedWith(less, w, Insert(less, x, ys)) == TiedWith(less, w, [x] + ys)
  {
    assert ([x] + ys)[1..] == ys;
    if ys == [] || !less(ys[0], x) {
    } else {
      var rest := Insert(less, x, ys[1..]);
      InsertTied(less, dom, w, x, ys[1..]);
      assert ([ys[0]] + rest)[1..] == rest;
      assert ([x] + ys[1..])[1..] == ys[1..];
      assert Tied(less, w, ys[0]) ==> Tied(less, ys[0], w);
      assert Tied(less, ys[0], w) && Tied(less, w, x) ==> Tied(less, ys[0], x);
    }
  }

  // ---- the stable sort meets its contract, and nothing else does

  lemma {:induction false} StableSortStablySorts<T>(less: (T, T) -> bool, dom: set<T>, xs: seq<T>)
    requires StrictWeakOn(less, dom) && Within(xs, dom)
    ensures StablySorts(less, xs, StableSort(less, xs))
    ensures forall w | w in dom :: TiedWith(less, w, StableSort(less, xs)) == TiedWith(less, w, xs)
  {
    if xs == [] {
    } else {
      HeadTail(xs);
      var tail := xs[1..];
      var rest := StableSort(less, tail);
      StableSortStablySorts(less, dom, tail);
      SameElements(rest, tail);
      forall x | x in rest ensures x in dom {
        assert x in tail;
      }
      InsertElements(less, xs[0], rest);
      InsertSorted(less, dom, xs[0], rest);
      forall w | w in dom
        ensures TiedWith(less, w, StableSort(less, xs)) == TiedWith(less, w, xs)
      {
        InsertTied(less, dom, w, xs[0], rest);
        assert ([xs[0]] + rest)[1..] == rest;
      }
    }
  }

  lemma {:induction false} TiedWithHead<T>(less: (T, T) -> bool, dom: set<T>, x: T, ys: seq<T>)
    requires StrictWeakOn(less, dom) && x in dom && Within(ys, dom)
    requires ys != [] && Sorted(less, ys) && x in ys && !less(ys[0], x)
    ensures TiedWith(less, x, ys) != [] && TiedWith(less, x, ys)[0] == ys[0]
  {
    var k :| 0 <= k < |ys| && ys[k] == x;
    assert !less(x, ys[0]);
  }

  lemma SameHead<T>(less: (T, T) -> bool, dom: set<T>, xs: seq<T>, ys: seq<T>)
    requires StrictWeakOn(less, dom) && Within(xs, dom) && xs != []
    requires multiset(xs) == multiset(ys) && Sorted(less, xs) && Sorted(less, ys)
    requires forall w | w in xs :: TiedWith(less, w, xs) == TiedWith(less, w, ys)
    ensures ys != [] && xs[0] == ys[0]
  {
    SameElements(xs, ys);
    assert ys[0] in xs && xs[0] in ys;
    var j :| 0 <= j < |xs| && xs[j] == ys[0];
    var k :| 0 <= k < |ys| && ys[k] == xs[0];
    assert !less(ys[0], xs[0]) && !less(xs[0], ys[0]);
    TiedWithHead(less, dom, xs[0], xs);
    TiedWithHead(less, dom, xs[0], ys);
  }

  lemma TiedTails<T>(less: (T, T) -> bool, w: T, xs: seq<T>, ys: seq<T>)
    requires xs != [] && ys != [] && xs[0] == ys[0] && TiedWith(less, w, xs) == TiedWith(less, w, ys)
    ensures TiedWith(less, w, xs[1..]) == TiedWith(less, w, ys[1..])
  {
    var head := if Tied(less, w, xs[0]) then [xs[0]] else [];
    assert TiedWith(less, w, xs[1..]) == TiedWith(less, w, xs)[|head|..];
    assert TiedWith(less, w, ys[1..]) == TiedWith(less, w, ys)[|head|..];
  }

  /** Two sorted permutations that agree on every class of tied elements are equal. */
  lemma {:induction false} SortedAgree<T>(less: (T, T) -> bool, dom: set<T>, xs: seq<T>, ys: seq<T>)
    requires StrictWeakOn(less, dom) && Within(xs, dom)
    requires multiset(xs) == multiset(ys) && Sorted(less, xs) && Sorted(less, ys)
    requires forall w | w in xs :: TiedWith(less, w, xs) == TiedWith(less, w, ys)
    ensures xs == ys
  {
    if xs == [] {
      assert |multiset(ys)| == 0;
    } else {
      SameHead(less, dom, xs, ys);
      HeadTail(xs);
      HeadTail(ys);
      forall w | w in xs[1..] ensures TiedWith(less, w, xs[1..]) == TiedWith(less, w, ys[1..]) {
        assert w in xs;
        TiedTails(less, w, xs, ys);
      }
      assert multiset(xs[1..]) == multiset(xs) - multiset{xs[0]};
      SortedAgree(less, dom, xs[1..], ys[1..]);
    }
  }

  /** Whatever algorithm a runtime uses, a stable sort has exactly one possible result. */
  lemma StableSortUnique<T>(less: (T, T) -> bool, dom: set<T>, xs: seq<T>, out: seq<T>)
    requires StrictWeakOn(less, dom) && Within(xs, dom)
    ensures StablySorts(less, xs, out) <==> out == StableSort(less, xs)
  {
    StableSortStablySorts(less, dom, xs);
    if StablySorts(less, xs, out) {
      SameElements(xs, out);
      SortedAgree(less, dom, out, StableSort(less, xs));
    }
  }

  lemma {:induction false} TiedWithTotal<T>(less: (T, T) -> bool, dom: set<T>, w: T, xs: seq<T>)
    requires StrictWeakOn(less, dom) && TotalOn(less, dom) && w in dom && Within(xs, dom)
    ensures TiedWith(less, w, xs) == seq(multiset(xs)[w], _ => w)
  {
    if xs == [] {
      assert multiset(xs)[w] == 0;
    } else {
      HeadTail(xs);
      TiedWithTotal(less, dom, w, xs[1..]);
      assert Tied(less, w, xs[0]) <==> xs[0] == w;
    }
  }

  /** When no two different elements tie, even an unstable sort has one possible
      result, and it does not depend on the order of its input. */
  lemma SortsUnique<T>(less: (T, T) -> bool, dom: set<T>, xs: seq<T>, ys: seq<T>, outX: seq<T>, outY: seq<T>)
    requires StrictWeakOn(less, dom) && TotalOn(less, dom) && Within(xs, dom)
    requires multiset(xs) == multiset(ys)
    requires Sorts(less, xs, outX) && Sorts(less, ys, outY)
    ensures outX == outY
  {
    SameElements(xs, outX);
    forall w | w in outX ensures TiedWith(less, w, outX) == TiedWith(less, w, outY) {
      SameElements(xs, outY);
      SameElements(xs, ys);
      TiedWithTotal(less, dom, w, outX);
      TiedWithTotal(less, dom, w, outY);
    }
    SortedAgree(less, dom, outX, outY);
  }

  /** Some sorted permutation exists, so a caller may be handed an arbitrary one. */
  lemma SortsExists<T>(less: (T, T) -> bool, dom: set<T>, xs: seq<T>)
    requires StrictWeakOn(less, dom) && Within(xs, dom)
    ensures Sorts(less, xs, StableSort(less, xs))
  {
    StableSortStablySorts(less, dom, xs);
  }

  /** A runtime's sort with ties left open: the caller knows the contract and no more. */
  method SortSomehow<T(==)>(less: (T, T) -> bool, ghost dom: set<T>, xs: seq<T>) returns (out: seq<T>)
    requires StrictWeakOn(less, dom) && Within(xs, dom)
    ensures Sorts(less, xs, out)
  {
    SortsExists(less, dom, xs);
    out :| Sorts(less, xs, out);
  }
}
