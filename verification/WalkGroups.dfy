/** What the grouping stage of the walk computes, stated about all the needs at once:
    which fingerprints form groups, which needs each group holds, and that every need
    ends up in exactly one place. */
module WalkGroups {
  import opened Prelude
  import opened Sorting
  import opened Needs
  import opened WalkSpec

  /** Splitting a sequence at its last element. */
  lemma InitLast<T>(xs: seq<T>)
    requires xs != []
    ensures xs == xs[..|xs| - 1] + [xs[|xs| - 1]]
    ensures multiset(xs) == multiset(xs[..|xs| - 1]) + multiset{xs[|xs| - 1]}
    ensures forall x: T :: x in xs ==> x in xs[..|xs| - 1] || x == xs[|xs| - 1]
    ensures forall x: T :: x in xs[..|xs| - 1] ==> x in xs
  {
    assert xs == xs[..|xs| - 1] + [xs[|xs| - 1]];
  }

  /** A group holds exactly the needs of its fingerprint, as often as the list does. */
  lemma MembersCount(fp: string, xs: seq<Need>, n: Need)
    ensures multiset(Members(fp, xs))[n] == if Fp(n) == fp then multiset(xs)[n] else 0
  {
    FilterExact(Shares(fp), xs, n);
  }

  lemma MembersExact(fp: string, xs: seq<Need>, n: Need)
    ensures n in Members(fp, xs) <==> Fp(n) == fp && n in xs
  {
    MembersCount(fp, xs, n);
    assert n in Members(fp, xs) <==> n in multiset(Members(fp, xs));
    assert n in xs <==> n in multiset(xs);
  }

  /** Groups inherit the order of the list. */
  lemma {:induction false} MembersSorted(fp: string, xs: seq<Need>)
    requires Sorted(Precedes, xs)
    ensures Sorted(Precedes, Members(fp, xs))
  {
    if xs == [] {
    } else {
      var init, n := xs[..|xs| - 1], xs[|xs| - 1];
      MembersSorted(fp, init);
      var front := Members(fp, init);
      forall i | 0 <= i < |front| ensures !Precedes(n, front[i]) {
        MembersExact(fp, init, front[i]);
        assert front[i] in init;
        var j :| 0 <= j < |init| && init[j] == front[i];
        assert !Precedes(xs[|xs| - 1], xs[j]);
      }
    }
  }

  lemma UngroupedCount(xs: seq<Need>, showCluster: bool, n: Need)
    ensures multiset(Ungrouped(xs, showCluster))[n] == if Grouped(n, showCluster) then 0 else multiset(xs)[n]
  {
    FilterExact(StaysFlat(showCluster), xs, n);
  }

  /** The map's keys are the fingerprints of grouped needs, each once. */
  lemma {:induction false} FirstSeenExact(xs: seq<Need>, showCluster: bool)
    ensures NoDup(FirstSeen(xs, showCluster))
    ensures forall fp :: fp in FirstSeen(xs, showCluster) ==> fp != "" && !showCluster && Members(fp, xs) != []
    ensures forall n | n in xs && Grouped(n, showCluster) :: Fp(n) in FirstSeen(xs, showCluster)
  {
    if xs == [] {
    } else {
      InitLast(xs);
      FirstSeenExact(xs[..|xs| - 1], showCluster);
    }
  }

  lemma NoMembers(fp: string, xs: seq<Need>, showCluster: bool)
    requires fp != "" && !showCluster && fp !in FirstSeen(xs, showCluster)
    ensures Members(fp, xs) == []
  {
    FirstSeenExact(xs, showCluster);
    if Members(fp, xs) != [] {
      var n := Members(fp, xs)[0];
      MembersExact(fp, xs, n);
      assert n in Members(fp, xs);
      assert Grouped(n, showCluster);
    }
  }

  lemma {:induction false} ContendedExact(fps: seq<string>, xs: seq<Need>)
    requires NoDup(fps)
    ensures NoDup(Contended(fps, xs))
    ensures forall fp :: fp in Contended(fps, xs) <==> fp in fps && |Members(fp, xs)| >= 2
  {
    if fps == [] {
    } else {
      InitLast(fps);
      ContendedExact(fps[..|fps| - 1], xs);
    }
  }

  /** One more fingerprint in the filter and in the loop over the singletons. */
  lemma OneMoreGroup(fps: seq<string>, k: nat, xs: seq<Need>)
    requires k < |fps|
    ensures Contended(fps[..k + 1], xs)
         == Contended(fps[..k], xs) + (if |Members(fps[k], xs)| >= 2 then [fps[k]] else [])
    ensures Singles(fps[..k + 1], xs)
         == Singles(fps[..k], xs) + (if |Members(fps[k], xs)| >= 2 then [] else Members(fps[k], xs))
  {
    assert fps[..k + 1][..k] == fps[..k];
  }

  lemma HeadsStrictWeak(xs: seq<Need>, dom: set<string>)
    requires forall fp | fp in dom :: Members(fp, xs) != []
    ensures StrictWeakOn(ByHead(xs), dom)
  {
    var less := ByHead(xs);
    forall a, b, c | a in dom && b in dom && c in dom && Tied(less, a, b) && Tied(less, b, c)
      ensures Tied(less, a, c)
    {
      assert Members(a, xs) != [] && Members(b, xs) != [] && Members(c, xs) != [];
    }
  }
}
