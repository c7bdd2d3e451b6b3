/** The fan-out together with the client cache that its goroutines share with every other
    request: a goroutine calls clientFor, and so waits for the mutex, while it holds a slot of
    the semaphore (pkg/server/handlers_clusters.go, pkg/kubeclient/kubeclient.go).

    Every step of the whole is a step of one of the two systems, so what FanOut and ClientCache
    prove about their runs holds here; that the whole can always move on does not follow from
    either of them. */
module Requests {
  import opened Prelude
  import F = FanOut
  import C = ClientCache

  /** One update of a slot, and the call of clientFor that has to return before it, if any. */
  datatype Op<!S> = Op(call: Option<nat>, update: (Option<C.Outcome>, S) -> S)

  datatype Work<!S> = Work(zero: S, bodies: seq<seq<Op<S>>>)

  datatype State<S> = State(fan: F.State<S>, cache: C.State)

  /** Main, a goroutine of the request, or a call that some other request makes. */
  datatype Actor = Main | Go(index: nat) | Other(call: nat)

  /** The call that goroutine i makes before its update d. */
  function CallAt<S(!new)>(w: Work<S>, i: int, d: int): Option<nat> {
    if 0 <= i < |w.bodies| && 0 <= d < |w.bodies[i]| then w.bodies[i][d].call else None
  }

  ghost predicate Owned<S(!new)>(w: Work<S>, c: nat) {
    exists i, d :: CallAt(w, i, d) == Some(c)
  }

  /** The goroutines make calls that exist, and no call is made twice. */
  ghost predicate Proper<S(!new)>(sys: C.System, w: Work<S>) {
    && (forall i, d :: CallAt(w, i, d).Some? ==> CallAt(w, i, d).value < |sys.calls|)
    && (forall i, d, i', d' :: CallAt(w, i, d).Some? && CallAt(w, i, d) == CallAt(w, i', d') ==> i == i' && d == d')
  }

  /** What the call has returned. */
  function ResultOf(pcs: seq<C.Pc>, call: Option<nat>): Option<C.Outcome> {
    if call.Some? && call.value < |pcs| && pcs[call.value].Done? then Some(pcs[call.value].r) else None
  }

  function Bound<S(!new)>(op: Op<S>, pcs: seq<C.Pc>): S -> S {
    (v: S) => op.update(ResultOf(pcs, op.call), v)
  }

  function BoundAll<S(!new)>(ops: seq<Op<S>>, pcs: seq<C.Pc>): (r: seq<S -> S>)
    ensures |r| == |ops|
  {
    seq(|ops|, d requires 0 <= d < |ops| => Bound(ops[d], pcs))
  }

  /** The fan-out's job when the calls have returned what they have in pcs. */
  function JobAt<S(!new)>(w: Work<S>, pcs: seq<C.Pc>): (job: F.Job<S>)
    ensures |job.bodies| == |w.bodies|
    ensures forall i | 0 <= i < |w.bodies| :: |job.bodies[i]| == |w.bodies[i]|
  {
    F.Job(w.zero, seq(|w.bodies|, i requires 0 <= i < |w.bodies| => BoundAll(w.bodies[i], pcs)))
  }

  function Init<S(!new)>(sys: C.System, w: Work<S>): State<S> {
    State(F.Init(JobAt(w, [])), C.Init(sys))
  }

  ghost predicate Sized<S(!new)>(sys: C.System, w: Work<S>, s: State<S>) {
    |s.fan.gos| == |s.fan.out| == |w.bodies| && |s.cache.pcs| == |sys.calls|
  }

  /** The call that goroutine i is in. */
  function Pending<S(!new)>(w: Work<S>, s: State<S>, i: nat): Option<nat>
    requires i < |s.fan.gos|
  {
    if s.fan.gos[i].Working? then
      var call := CallAt(w, i, s.fan.gos[i].done);
      if call.Some? && ResultOf(s.cache.pcs, call).None? then call else None
    else None
  }

  function JobNow<S(!new)>(w: Work<S>, s: State<S>): F.Job<S> {
    JobAt(w, s.cache.pcs)
  }

  ghost predicate Enabled<S(!new)>(sys: C.System, w: Work<S>, s: State<S>, a: Actor)
    requires Sized(sys, w, s)
  {
    match a
    case Main => F.Enabled(JobNow(w, s), s.fan, F.Main)
    case Go(i) =>
      i < |s.fan.gos| &&
      if Pending(w, s, i).Some? then C.Enabled(sys, s.cache, Pending(w, s, i).value)
      else F.Enabled(JobNow(w, s), s.fan, F.Go(i))
    case Other(c) => !Owned(w, c) && C.Enabled(sys, s.cache, c)
  }

  /** The actor's part in the fan-out, or None when its step is one of the cache. */
  function FanActor<S(!new)>(w: Work<S>, s: State<S>, a: Actor): Option<F.Actor> {
    match a
    case Main => Some(F.Main)
    case Go(i) => if i < |s.fan.gos| && Pending(w, s, i).Some? then None else Some(F.Go(i))
    case Other(_) => None
  }

  /** The call that moves when the step is one of the cache. */
  function CallActor<S(!new)>(w: Work<S>, s: State<S>, a: Actor): nat {
    match a
    case Main => 0
    case Go(i) => if i < |s.fan.gos| && Pending(w, s, i).Some? then Pending(w, s, i).value else 0
    case Other(c) => c
  }

  ghost function Step<S(!new)>(sys: C.System, w: Work<S>, s: State<S>, a: Actor): (t: State<S>)
    requires Sized(sys, w, s) && Enabled(sys, w, s, a)
    ensures Sized(sys, w, t)
  {
    var fan := FanActor(w, s, a);
    if fan.Some? then s.(fan := F.Step(JobNow(w, s), s.fan, fan.value))
    else s.(cache := C.Step(sys, s.cache, CallActor(w, s, a)))
  }

  ghost function After<S(!new)>(sys: C.System, w: Work<S>, schedule: seq<Actor>): (r: Option<State<S>>)
    ensures r.Some? ==> Sized(sys, w, r.value)
  {
    if schedule == [] then Some(Init(sys, w))
    else
      var before := After(sys, w, schedule[..|schedule| - 1]);
      var a := schedule[|schedule| - 1];
      if before.Some? && Enabled(sys, w, before.value, a) then Some(Step(sys, w, before.value, a)) else None
  }

  // ---- a run of the whole is a run of each part

  /** The steps of the fan-out in a run. */
  ghost function FanPart<S(!new)>(sys: C.System, w: Work<S>, schedule: seq<Actor>): seq<F.Actor> {
    if schedule == [] then []
    else
      var init := schedule[..|schedule| - 1];
      var before := After(sys, w, init);
      var a := if before.Some? then FanActor(w, before.value, schedule[|schedule| - 1]) else None;
      FanPart(sys, w, init) + (if a.Some? then [a.value] else [])
  }

  /** The steps of the cache in a run. */
  ghost function CachePart<S(!new)>(sys: C.System, w: Work<S>, schedule: seq<Actor>): seq<nat> {
    if schedule == [] then []
    else
      var init := schedule[..|schedule| - 1];
      var before := After(sys, w, init);
      var a := schedule[|schedule| - 1];
      CachePart(sys, w, init)
      + (if before.Some? && FanActor(w, before.value, a).None? then [CallActor(w, before.value, a)] else [])
  }

  lemma CacheExtends(sys: C.System, schedule: seq<nat>, s: C.State, c: nat)
    requires C.After(sys, schedule) == Some(s) && C.Enabled(sys, s, c)
    ensures C.After(sys, schedule + [c]) == Some(C.Step(sys, s, c))
  {
    assert (schedule + [c])[..|schedule|] == schedule;
  }

  lemma FanExtends<S(!new)>(job: F.Job<S>, schedule: seq<F.Actor>, s: F.State<S>, a: F.Actor)
    requires F.After(job, schedule) == Some(s) && F.Enabled(job, s, a)
    ensures F.After(job, schedule + [a]) == Some(F.Step(job, s, a))
  {
    assert (schedule + [a])[..|schedule|] == schedule;
  }

  /** Seen from the cache, a run is a run of concurrent calls. */
  lemma {:induction false} CacheRuns<S(!new)>(sys: C.System, w: Work<S>, schedule: seq<Actor>)
    requires After(sys, w, schedule).Some?
    ensures C.After(sys, CachePart(sys, w, schedule)) == Some(After(sys, w, schedule).value.cache)
  {
    if schedule == [] {
    } else {
      var init, a := schedule[..|schedule| - 1], schedule[|schedule| - 1];
      CacheRuns(sys, w, init);
      var s := After(sys, w, init).value;
      if FanActor(w, s, a).None? {
        CacheExtends(sys, CachePart(sys, w, init), s.cache, CallActor(w, s, a));
      } else {
        assert CachePart(sys, w, schedule) == CachePart(sys, w, init);
      }
    }
  }

  /** later holds every result that pcs holds. */
  predicate Settles(pcs: seq<C.Pc>, later: seq<C.Pc>) {
    |pcs| == |later| && forall c | 0 <= c < |pcs| && pcs[c].Done? :: later[c] == pcs[c]
  }

  lemma CallsStayDone(sys: C.System, s: C.State, c: nat, later: seq<C.Pc>)
    requires C.Enabled(sys, s, c) && Settles(C.Step(sys, s, c).pcs, later)
    ensures Settles(s.pcs, later)
  {
    var t := C.Step(sys, s, c);
    forall k | 0 <= k < |s.pcs| && s.pcs[k].Done? ensures later[k] == s.pcs[k] {
      assert t.pcs[k] == s.pcs[k];
    }
  }

  /** A step of the fan-out uses no result but those that are there. */
  lemma SameFanStep<S(!new)>(w: Work<S>, s: State<S>, a: Actor, later: seq<C.Pc>)
    requires |s.fan.gos| == |s.fan.out| == |w.bodies| && Settles(s.cache.pcs, later)
    requires FanActor(w, s, a).Some? && F.Enabled(JobNow(w, s), s.fan, FanActor(w, s, a).value)
    ensures F.Enabled(JobAt(w, later), s.fan, FanActor(w, s, a).value)
    ensures F.Step(JobAt(w, later), s.fan, FanActor(w, s, a).value)
         == F.Step(JobNow(w, s), s.fan, FanActor(w, s, a).value)
  {
    if a.Go? && s.fan.gos[a.index].Working? {
      var i, d := a.index, s.fan.gos[a.index].done;
      if d < |w.bodies[i]| {
        var op, v := w.bodies[i][d], s.fan.out[i];
        assert CallAt(w, i, d) == op.call;
        assert ResultOf(later, op.call) == ResultOf(s.cache.pcs, op.call);
        assert JobAt(w, later).bodies[i][d](v) == JobNow(w, s).bodies[i][d](v);
      }
    }
  }

  lemma FanRunsStep<S(!new)>(w: Work<S>, s: State<S>, a: Actor, part: seq<F.Actor>, later: seq<C.Pc>)
    requires |s.fan.gos| == |s.fan.out| == |w.bodies| && Settles(s.cache.pcs, later)
    requires FanActor(w, s, a).Some? && F.Enabled(JobNow(w, s), s.fan, FanActor(w, s, a).value)
    requires F.After(JobAt(w, later), part) == Some(s.fan)
    ensures F.After(JobAt(w, later), part + [FanActor(w, s, a).value])
         == Some(F.Step(JobNow(w, s), s.fan, FanActor(w, s, a).value))
  {
    SameFanStep(w, s, a, later);
    FanExtends(JobAt(w, later), part, s.fan, FanActor(w, s, a).value);
  }

  lemma StepSettles<S(!new)>(sys: C.System, w: Work<S>, s: State<S>, a: Actor, later: seq<C.Pc>)
    requires Sized(sys, w, s) && Enabled(sys, w, s, a) && Settles(Step(sys, w, s, a).cache.pcs, later)
    ensures Settles(s.cache.pcs, later)
  {
    if FanActor(w, s, a).None? {
      CallsStayDone(sys, s.cache, CallActor(w, s, a), later);
    }
  }

  /** Seen from the fan-out, a run is a run of the job in which every call has returned what
      it returns in the end. */
  lemma {:induction false} FanRuns<S(!new)>(sys: C.System, w: Work<S>, schedule: seq<Actor>, later: seq<C.Pc>)
    requires After(sys, w, schedule).Some? && Settles(After(sys, w, schedule).value.cache.pcs, later)
    ensures F.After(JobAt(w, later), FanPart(sys, w, schedule)) == Some(After(sys, w, schedule).value.fan)
  {
    if schedule == [] {
      assert F.Init(JobAt(w, later)) == F.Init(JobAt(w, []));
    } else {
      var init, a := schedule[..|schedule| - 1], schedule[|schedule| - 1];
      var s := After(sys, w, init).value;
      StepSettles(sys, w, s, a, later);
      FanRuns(sys, w, init, later);
      if FanActor(w, s, a).Some? {
        FanRunsStep(w, s, a, FanPart(sys, w, init), later);
      } else {
        assert FanPart(sys, w, schedule) == FanPart(sys, w, init);
      }
    }
  }

  /** So the invariants of both parts hold throughout. */
  lemma ReachableInvs<S(!new)>(sys: C.System, w: Work<S>, schedule: seq<Actor>)
    requires After(sys, w, schedule).Some?
    ensures var s := After(sys, w, schedule).value;
      F.Inv(JobNow(w, s), s.fan) && C.Inv(sys, s.cache)
  {
    var s := After(sys, w, schedule).value;
    FanRuns(sys, w, schedule, s.cache.pcs);
    F.ReachableInv(JobNow(w, s), FanPart(sys, w, schedule));
    CacheRuns(sys, w, schedule);
    C.ReachableInv(sys, CachePart(sys, w, schedule));
  }

  // ---- where the calls of the goroutines stand

  /** A goroutine that has made d updates has all results it used, and has not begun later calls. */
  predicate CallOk(go: F.GoPc, d: int, pc: C.Pc) {
    match go
    case Unspawned => pc.Start?
    case Blocked => pc.Start?
    case Working(e) => if d < e then pc.Done? else if d > e then pc.Start? else true
    case _ => pc.Done?
  }

  ghost predicate Linked<S(!new)>(w: Work<S>, s: State<S>)
    requires |s.fan.gos| == |w.bodies|
  {
    forall i, d | CallAt(w, i, d).Some? ::
      CallAt(w, i, d).value < |s.cache.pcs| && CallOk(s.fan.gos[i], d, s.cache.pcs[CallAt(w, i, d).value])
  }

  lemma FanStepCallOk<S(!new)>(job: F.Job<S>, fan: F.State<S>, a: F.Actor, i: nat, d: int, pc: C.Pc)
    requires F.Inv(job, fan) && F.Enabled(job, fan, a) && i < |fan.gos| && 0 <= d < |job.bodies[i]|
    requires CallOk(fan.gos[i], d, pc)
    requires a == F.Go(i) && fan.gos[i] == F.Working(d) ==> pc.Done?
    ensures CallOk(F.Step(job, fan, a).gos[i], d, pc)
  {
  }

  lemma FanStepLinked<S(!new)>(sys: C.System, w: Work<S>, s: State<S>, a: Actor)
    requires Proper(sys, w) && Sized(sys, w, s) && Enabled(sys, w, s, a) && FanActor(w, s, a).Some?
    requires Linked(w, s) && F.Inv(JobNow(w, s), s.fan)
    ensures Linked(w, Step(sys, w, s, a))
  {
    var t := Step(sys, w, s, a);
    forall i, d | CallAt(w, i, d).Some?
      ensures CallOk(t.fan.gos[i], d, t.cache.pcs[CallAt(w, i, d).value])
    {
      FanStepCallOk(JobNow(w, s), s.fan, FanActor(w, s, a).value, i, d, s.cache.pcs[CallAt(w, i, d).value]);
    }
  }

  lemma CacheStepLinked<S(!new)>(sys: C.System, w: Work<S>, s: State<S>, a: Actor)
    requires Proper(sys, w) && Sized(sys, w, s) && Enabled(sys, w, s, a) && FanActor(w, s, a).None?
    requires Linked(w, s)
    ensures Linked(w, Step(sys, w, s, a))
  {
    var t, c := Step(sys, w, s, a), CallActor(w, s, a);
    forall i, d | CallAt(w, i, d).Some?
      ensures CallOk(t.fan.gos[i], d, t.cache.pcs[CallAt(w, i, d).value])
    {
      assert CallOk(s.fan.gos[i], d, s.cache.pcs[CallAt(w, i, d).value]);
      if CallAt(w, i, d).value == c {
        assert Owned(w, c);
        assert a.Go? && CallAt(w, a.index, s.fan.gos[a.index].done) == Some(c);
      } else {
        assert t.cache.pcs[CallAt(w, i, d).value] == s.cache.pcs[CallAt(w, i, d).value];
      }
    }
  }

  lemma {:induction false} ReachableLinked<S(!new)>(sys: C.System, w: Work<S>, schedule: seq<Actor>)
    requires Proper(sys, w) && After(sys, w, schedule).Some?
    ensures Linked(w, After(sys, w, schedule).value)
  {
    if schedule == [] {
    } else {
      var init, a := schedule[..|schedule| - 1], schedule[|schedule| - 1];
      ReachableLinked(sys, w, init);
      ReachableInvs(sys, w, init);
      var s := After(sys, w, init).value;
      if FanActor(w, s, a).Some? {
        FanStepLinked(sys, w, s, a);
      } else {
        CacheStepLinked(sys, w, s, a);
      }
    }
  }

  // ---- what a reader may rely on

  /** The response is what a sequential loop makes of the results that the calls returned, and
      all of the request's calls have returned when it is sent. */
  lemma ResponseIsSequential<S(!new)>(sys: C.System, w: Work<S>, schedule: seq<Actor>)
    requires Proper(sys, w) && After(sys, w, schedule).Some?
    requires After(sys, w, schedule).value.fan.response.Some?
    ensures var s := After(sys, w, schedule).value;
      && s.fan.response.value == F.Sequential(JobAt(w, s.cache.pcs))
      && forall c: nat | Owned(w, c) :: c < |s.cache.pcs| && s.cache.pcs[c].Done?
  {
    var s := After(sys, w, schedule).value;
    ReachableInvs(sys, w, schedule);
    ReachableLinked(sys, w, schedule);
    forall c: nat | Owned(w, c) ensures c < |s.cache.pcs| && s.cache.pcs[c].Done? {
      var i, d :| CallAt(w, i, d) == Some(c);
      assert CallOk(s.fan.gos[i], d, s.cache.pcs[c]);
      assert s.fan.gos[i].Finished?;
    }
  }

  /** At most five goroutines are between their send and their receive, those that wait for the
      mutex among them, and at most one call of all requests holds the mutex. */
  lemma Bounded<S(!new)>(sys: C.System, w: Work<S>, schedule: seq<Actor>, c: nat, c': nat)
    requires After(sys, w, schedule).Some?
    requires c < |sys.calls| && c' < |sys.calls|
    ensures var s := After(sys, w, schedule).value;
      && s.fan.sem == |F.Holders(s.fan.gos)| <= 5
      && s.fan.wg == |F.Outstanding(s.fan)| >= 0
      && (C.Critical(s.cache.pcs[c]) && C.Critical(s.cache.pcs[c']) ==> c == c')
  {
    var s := After(sys, w, schedule).value;
    FanRuns(sys, w, schedule, s.cache.pcs);
    F.BoundedConcurrency(JobNow(w, s), FanPart(sys, w, schedule));
    CacheRuns(sys, w, schedule);
    C.MutualExclusion(sys, CachePart(sys, w, schedule), c, c');
  }

  /** Whoever holds the mutex can move: another request, or a goroutine that holds a slot of
      the semaphore already and so waits for nobody. */
  lemma HolderMoves<S(!new)>(sys: C.System, w: Work<S>, s: State<S>, c: nat)
    requires Sized(sys, w, s) && Linked(w, s) && c < |s.cache.pcs|
    requires C.Enabled(sys, s.cache, c) && !s.cache.pcs[c].Start?
    ensures exists a :: Enabled(sys, w, s, a)
  {
    if Owned(w, c) {
      var i, d :| CallAt(w, i, d) == Some(c);
      assert CallOk(s.fan.gos[i], d, s.cache.pcs[c]);
      assert s.fan.gos[i] == F.Working(d);
      assert Pending(w, s, i) == Some(c);
      assert Enabled(sys, w, s, Go(i));
    } else {
      assert Enabled(sys, w, s, Other(c));
    }
  }

  lemma PendingMoves<S(!new)>(sys: C.System, w: Work<S>, s: State<S>, i: nat)
    requires Proper(sys, w) && Sized(sys, w, s) && Linked(w, s) && C.Inv(sys, s.cache)
    requires i < |s.fan.gos| && Pending(w, s, i).Some?
    ensures exists a :: Enabled(sys, w, s, a)
  {
    var c := Pending(w, s, i).value;
    if C.Enabled(sys, s.cache, c) {
      assert Enabled(sys, w, s, Go(i));
    } else {
      assert s.cache.pcs[c].Locking? && s.cache.lock.Some?;
      var h := s.cache.lock.value;
      assert C.Critical(s.cache.pcs[h]);
      HolderMoves(sys, w, s, h);
    }
  }

  /** Until the response is sent something can move: neither the semaphore, nor the WaitGroup,
      nor the mutex, nor the three together ever block the request for good. */
  lemma Progress<S(!new)>(sys: C.System, w: Work<S>, schedule: seq<Actor>)
    requires Proper(sys, w) && After(sys, w, schedule).Some?
    requires !After(sys, w, schedule).value.fan.main.Responded?
    ensures exists a :: Enabled(sys, w, After(sys, w, schedule).value, a)
  {
    var s := After(sys, w, schedule).value;
    ReachableInvs(sys, w, schedule);
    ReachableLinked(sys, w, schedule);
    F.Progress(JobNow(w, s), s.fan);
    var a :| F.Enabled(JobNow(w, s), s.fan, a);
    match a
    case Main => assert Enabled(sys, w, s, Main);
    case Go(i) =>
      if Pending(w, s, i).Some? {
        PendingMoves(sys, w, s, i);
      } else {
        assert Enabled(sys, w, s, Go(i));
      }
  }

  // ---- every run ends

  lemma {:induction false} PartsAddUp<S(!new)>(sys: C.System, w: Work<S>, schedule: seq<Actor>)
    requires After(sys, w, schedule).Some?
    ensures |schedule| == |FanPart(sys, w, schedule)| + |CachePart(sys, w, schedule)|
  {
    if schedule == [] {
    } else {
      PartsAddUp(sys, w, schedule[..|schedule| - 1]);
    }
  }

  /** The steps that the fan-out takes, whatever the calls return. */
  function FanSteps<S(!new)>(w: Work<S>): int {
    F.Measure(JobAt(w, []), F.Init(JobAt(w, [])))
  }

  lemma FanStepsFixed<S(!new)>(w: Work<S>, pcs: seq<C.Pc>)
    ensures F.Measure(JobAt(w, pcs), F.Init(JobAt(w, pcs))) == FanSteps(w)
  {
    assert F.Init(JobAt(w, pcs)) == F.Init(JobAt(w, []));
    F.MeasureOfSizes(JobAt(w, pcs), JobAt(w, []), F.Init(JobAt(w, [])));
  }

  lemma StuckIsDone<S(!new)>(sys: C.System, w: Work<S>, schedule: seq<Actor>)
    requires Proper(sys, w) && After(sys, w, schedule).Some?
    requires forall a :: !Enabled(sys, w, After(sys, w, schedule).value, a)
    ensures After(sys, w, schedule).value.fan.main.Responded?
    ensures forall c | 0 <= c < |sys.calls| :: After(sys, w, schedule).value.cache.pcs[c].Done?
  {
    var s := After(sys, w, schedule).value;
    if !s.fan.main.Responded? {
      Progress(sys, w, schedule);
    }
    ReachableInvs(sys, w, schedule);
    ResponseIsSequential(sys, w, schedule);
    CacheRuns(sys, w, schedule);
    C.NoDeadlock(sys, CachePart(sys, w, schedule));
    forall c: nat ensures !C.Enabled(sys, s.cache, c) {
      assert !Enabled(sys, w, s, Other(c));
    }
  }

  lemma DoneIsStuck<S(!new)>(sys: C.System, w: Work<S>, s: State<S>, a: Actor)
    requires Sized(sys, w, s) && s.fan.main.Responded? && F.Inv(JobNow(w, s), s.fan)
    requires forall c | 0 <= c < |s.cache.pcs| :: s.cache.pcs[c].Done?
    ensures !Enabled(sys, w, s, a)
  {
  }

  lemma StepsBounded<S(!new)>(sys: C.System, w: Work<S>, schedule: seq<Actor>)
    requires After(sys, w, schedule).Some?
    ensures |schedule| <= FanSteps(w) + 6 * |sys.calls|
  {
    var s := After(sys, w, schedule).value;
    PartsAddUp(sys, w, schedule);
    FanRuns(sys, w, schedule, s.cache.pcs);
    F.RunLength(JobNow(w, s), FanPart(sys, w, schedule));
    FanStepsFixed(w, s.cache.pcs);
    CacheRuns(sys, w, schedule);
    C.CallsReturn(sys, CachePart(sys, w, schedule));
  }

  /** No run goes on for ever: there is a bound on its steps that depends on the sizes of the
      work alone, and a run cannot go on exactly when the response is sent and every call, of
      this request or another, has returned. */
  lemma RunsEnd<S(!new)>(sys: C.System, w: Work<S>, schedule: seq<Actor>)
    requires Proper(sys, w) && After(sys, w, schedule).Some?
    ensures |schedule| <= FanSteps(w) + 6 * |sys.calls|
    ensures var s := After(sys, w, schedule).value;
      (forall a :: !Enabled(sys, w, s, a))
      <==> s.fan.main.Responded? && forall c | 0 <= c < |s.cache.pcs| :: s.cache.pcs[c].Done?
  {
    var s := After(sys, w, schedule).value;
    StepsBounded(sys, w, schedule);
    ReachableInvs(sys, w, schedule);
    if forall a :: !Enabled(sys, w, s, a) {
      StuckIsDone(sys, w, schedule);
    } else if s.fan.main.Responded? && forall c | 0 <= c < |s.cache.pcs| :: s.cache.pcs[c].Done? {
      var a :| Enabled(sys, w, s, a);
      DoneIsStuck(sys, w, s, a);
    }
  }
}
