/** The bounded fan-out that clustersListHandler and availableCapacityHandler share
    (pkg/server/handlers_clusters.go, pkg/server/handlers_available_capacity.go):
    one goroutine per cluster writes its own slot of the output slice, a channel of
    capacity 5 bounds how many run at once, and a WaitGroup joins them before the
    slice is sent.

    The model is an interleaved transition system. A goroutine's own work is a list of
    updates of its slot, so both handlers are instances; every scheduler decision is
    one actor in a schedule, and every statement that touches shared state is one step. */
module FanOut {
  import opened Prelude

  const CONCURRENCY: nat := 5

  /** Where a goroutine stands. The deferred calls run last-in first-out: cancel, then
      the receive that frees the semaphore, then wg.Done. */
  datatype GoPc =
    | Unspawned
    | Blocked                // about to send on the semaphore channel
    | Working(done: nat)     // holds a semaphore slot; done updates of its slot are made
    | Cancelled              // its context is cancelled, the slot is still held
    | Released               // the semaphore slot is given back, wg.Done is still to come
    | Finished

  datatype MainPc =
    | Adding(next: nat)      // at the top of the loop: about to wg.Add(1) for goroutine next
    | Spawning(next: nat)    // has called wg.Add(1), about to start goroutine next
    | Waiting                // in wg.Wait
    | Responded

  datatype State<S> = State(
    main: MainPc,
    gos: seq<GoPc>,
    sem: int,
    wg: int,
    out: seq<S>,
    response: Option<seq<S>>)

  /** The work to do: the slot value that make() leaves, and for every goroutine the
      updates that it makes to its slot. */
  datatype Job<!S> = Job(zero: S, bodies: seq<seq<S -> S>>)

  datatype Actor = Main | Go(index: nat)

  function Init<S(!new)>(job: Job<S>): State<S> {
    State(Adding(0), seq(|job.bodies|, _ => Unspawned), 0, 0, seq(|job.bodies|, _ => job.zero), None)
  }

  predicate WellSized<S(!new)>(job: Job<S>, s: State<S>) {
    |s.gos| == |s.out| == |job.bodies|
  }

  /** Whether the actor can take its next step; a send on a full channel and a wait on
      a non-zero counter block. */
  predicate Enabled<S(!new)>(job: Job<S>, s: State<S>, a: Actor)
    requires WellSized(job, s)
  {
    match a
    case Main => (
      match s.main
      case Adding(_) => true
      case Spawning(k) => k < |s.gos|
      case Waiting => s.wg == 0
      case Responded => false)
    case Go(i) =>
      i < |s.gos| &&
      match s.gos[i]
      case Unspawned => false
      case Blocked => s.sem < CONCURRENCY
      case Working(d) => true
      case Cancelled => true
      case Released => true
      case Finished => false
  }

  function Step<S(!new)>(job: Job<S>, s: State<S>, a: Actor): (t: State<S>)
    requires WellSized(job, s) && Enabled(job, s, a)
    ensures WellSized(job, t)
  {
    match a
    case Main => (
      match s.main
      case Adding(k) =>
        if k < |s.gos| then s.(main := Spawning(k), wg := s.wg + 1) else s.(main := Waiting)
      case Spawning(k) => s.(main := Adding(k + 1), gos := s.gos[k := Blocked])
      case Waiting => s.(main := Responded, response := Some(s.out))
      case Responded => s)
    case Go(i) =>
      match s.gos[i]
      case Blocked => s.(gos := s.gos[i := Working(0)], sem := s.sem + 1)
      case Working(d) =>
        if d < |job.bodies[i]|
        then s.(gos := s.gos[i := Working(d + 1)], out := s.out[i := job.bodies[i][d](s.out[i])])
        else s.(gos := s.gos[i := Cancelled])
      case Cancelled => s.(gos := s.gos[i := Released], sem := s.sem - 1)
      case Released => s.(gos := s.gos[i := Finished], wg := s.wg - 1)
      case Unspawned => s
      case Finished => s
  }

  /** The state that a schedule leads to, or None when one of its actors cannot move in turn. */
  function After<S(!new)>(job: Job<S>, schedule: seq<Actor>): (r: Option<State<S>>)
    ensures r.Some? ==> WellSized(job, r.value)
  {
    if schedule == [] then Some(Init(job))
    else
      var before := After(job, schedule[..|schedule| - 1]);
      var a := schedule[|schedule| - 1];
      if before.Some? && Enabled(job, before.value, a) then Some(Step(job, before.value, a)) else None
  }

  // ---- sums over the goroutines

  /** The sum of w over the goroutines from index k on. */
  function Sum(w: (int, GoPc) -> int, gos: seq<GoPc>, k: nat): int
    requires k <= |gos|
    decreases |gos| - k
  {
    if k == |gos| then 0 else w(k, gos[k]) + Sum(w, gos, k + 1)
  }

  lemma {:induction false} SumUpdate(w: (int, GoPc) -> int, gos: seq<GoPc>, k: nat, i: nat, pc: GoPc)
    requires k <= |gos| && i < |gos|
    ensures Sum(w, gos[i := pc], k) == Sum(w, gos, k) + (if k <= i then w(i, pc) - w(i, gos[i]) else 0)
    decreases |gos| - k
  {
    if k == |gos| {
    } else {
      SumUpdate(w, gos, k + 1, i, pc);
    }
  }

  lemma {:induction false} SumZero(w: (int, GoPc) -> int, gos: seq<GoPc>, k: nat)
    requires k <= |gos|
    requires forall i | k <= i < |gos| :: w(i, gos[i]) >= 0
    ensures Sum(w, gos, k) >= 0
    ensures Sum(w, gos, k) == 0 <==> forall i | k <= i < |gos| :: w(i, gos[i]) == 0
    decreases |gos| - k
  {
    if k == |gos| {
    } else {
      SumZero(w, gos, k + 1);
    }
  }

  function Holding(): (int, GoPc) -> int {
    (i: int, pc: GoPc) => if pc.Working? || pc.Cancelled? then 1 else 0
  }

  function Active(): (int, GoPc) -> int {
    (i: int, pc: GoPc) => if pc.Unspawned? || pc.Finished? then 0 else 1
  }

  // ---- the invariant

  /** The slot after the first d updates. */
  function Apply<S(!new)>(v: S, updates: seq<S -> S>, d: nat): S
    requires d <= |updates|
  {
    if d == 0 then v else updates[d - 1](Apply(v, updates, d - 1))
  }

  /** What one goroutine on its own makes of its slot. */
  function Alone<S(!new)>(job: Job<S>, i: nat): S
    requires i < |job.bodies|
  {
    Apply(job.zero, job.bodies[i], |job.bodies[i]|)
  }

  /** The sequential meaning of the fan-out: one slot after the other. */
  function Sequential<S(!new)>(job: Job<S>): seq<S> {
    seq(|job.bodies|, i requires 0 <= i < |job.bodies| => Alone(job, i))
  }

  /** How many goroutines main has started. */
  function Started<S(!new)>(s: State<S>): int {
    if s.main.Adding? || s.main.Spawning? then s.main.next else |s.gos|
  }

  predicate SlotOk<S(!new,==)>(job: Job<S>, i: nat, pc: GoPc, v: S)
    requires i < |job.bodies|
  {
    match pc
    case Unspawned => v == job.zero
    case Blocked => v == job.zero
    case Working(d) => d <= |job.bodies[i]| && v == Apply(job.zero, job.bodies[i], d)
    case Cancelled => v == Alone(job, i)
    case Released => v == Alone(job, i)
    case Finished => v == Alone(job, i)
  }

  ghost predicate Inv<S(!new)>(job: Job<S>, s: State<S>) {
    && WellSized(job, s)
    && 0 <= Started(s) <= |s.gos|
    && (s.main.Spawning? ==> s.main.next < |s.gos|)
    && (forall i | 0 <= i < |s.gos| :: s.gos[i].Unspawned? <==> Started(s) <= i)
    && (forall i | 0 <= i < |s.gos| :: SlotOk(job, i, s.gos[i], s.out[i]))
    && s.sem == Sum(Holding(), s.gos, 0) <= CONCURRENCY
    && s.wg == Sum(Active(), s.gos, 0) + (if s.main.Spawning? then 1 else 0)
    && (s.main.Responded? <==> s.response.Some?)
    && (s.main.Responded? ==> s.response.value == Sequential(job) && forall i | 0 <= i < |s.gos| :: s.gos[i].Finished?)
  }

  lemma InitInv<S(!new)>(job: Job<S>)
    ensures Inv(job, Init(job))
  {
    SumZero(Holding(), Init(job).gos, 0);
    SumZero(Active(), Init(job).gos, 0);
  }

  lemma MainStepInv<S(!new)>(job: Job<S>, s: State<S>)
    requires Inv(job, s) && Enabled(job, s, Main)
    ensures Inv(job, Step(job, s, Main))
  {
    match s.main {
      case Spawning(k) =>
        SumUpdate(Holding(), s.gos, 0, k, Blocked);
        SumUpdate(Active(), s.gos, 0, k, Blocked);
      case Waiting =>
        SumZero(Active(), s.gos, 0);
        assert s.out == Sequential(job);
      case _ =>
    }
  }

  lemma GoStepSlots<S(!new)>(job: Job<S>, s: State<S>, i: nat)
    requires Inv(job, s) && Enabled(job, s, Go(i))
    ensures var t := Step(job, s, Go(i));
      forall j | 0 <= j < |t.gos| :: SlotOk(job, j, t.gos[j], t.out[j])
  {
    assert SlotOk(job, i, s.gos[i], s.out[i]);
  }

  lemma GoStepInv<S(!new)>(job: Job<S>, s: State<S>, i: nat)
    requires Inv(job, s) && Enabled(job, s, Go(i))
    ensures Inv(job, Step(job, s, Go(i)))
  {
    var t := Step(job, s, Go(i));
    GoStepSlots(job, s, i);
    SumUpdate(Holding(), s.gos, 0, i, t.gos[i]);
    SumUpdate(Active(), s.gos, 0, i, t.gos[i]);
    assert t.gos == s.gos[i := t.gos[i]];
  }

  lemma StepInv<S(!new)>(job: Job<S>, s: State<S>, a: Actor)
    requires Inv(job, s) && Enabled(job, s, a)
    ensures Inv(job, Step(job, s, a))
  {
    match a
    case Main => MainStepInv(job, s);
    case Go(i) => GoStepInv(job, s, i);
  }

  /** Every state that any schedule can reach satisfies the invariant. */
  lemma {:induction false} ReachableInv<S(!new)>(job: Job<S>, schedule: seq<Actor>)
    requires After(job, schedule).Some?
    ensures Inv(job, After(job, schedule).value)
  {
    if schedule == [] {
      InitInv(job);
    } else {
      var init := schedule[..|schedule| - 1];
      ReachableInv(job, init);
      StepInv(job, After(job, init).value, schedule[|schedule| - 1]);
    }
  }

  // ---- what the invariant means for a reader

  /** The goroutines that hold a semaphore slot. */
  function Holders(gos: seq<GoPc>): set<int> {
    set i | 0 <= i < |gos| && (gos[i].Working? || gos[i].Cancelled?)
  }

  /** The goroutines that main has called wg.Add for and that have not called wg.Done. */
  function Outstanding<S(!new)>(s: State<S>): set<int> {
    set i | 0 <= i < |s.gos| && (i < Started(s) || s.main == Spawning(i)) && !s.gos[i].Finished?
  }

  lemma {:induction false} SumCounts(w: (int, GoPc) -> int, gos: seq<GoPc>, k: nat, ones: set<int>)
    requires k <= |gos|
    requires forall i | k <= i < |gos| :: w(i, gos[i]) == if i in ones then 1 else 0
    requires forall i | i in ones :: k <= i < |gos|
    ensures Sum(w, gos, k) == |ones|
    decreases |gos| - k
  {
    if k == |gos| {
      assert ones == {};
    } else {
      SumCounts(w, gos, k + 1, ones - {k});
    }
  }

  /** In every reachable state the channel holds one token per goroutine between its
      send and its receive, so at most five clusters are read at once, and the WaitGroup
      counts the goroutines that were added and are not done. */
  lemma BoundedConcurrency<S(!new)>(job: Job<S>, schedule: seq<Actor>)
    requires After(job, schedule).Some?
    ensures var s := After(job, schedule).value;
      && s.sem == |Holders(s.gos)| <= 5
      && s.wg == |Outstanding(s)| >= 0
  {
    var s := After(job, schedule).value;
    ReachableInv(job, schedule);
    SumCounts(Holding(), s.gos, 0, Holders(s.gos));
    var active := set i | 0 <= i < |s.gos| && !s.gos[i].Unspawned? && !s.gos[i].Finished?;
    SumCounts(Active(), s.gos, 0, active);
    if s.main.Spawning? {
      assert Outstanding(s) == active + {s.main.next};
    } else {
      assert Outstanding(s) == active;
    }
  }

  /** Whatever the interleaving, the slice that is sent is the one a sequential loop
      over the clusters would have built, and it is sent only when every goroutine is done. */
  lemma ResponseIsSequential<S(!new)>(job: Job<S>, schedule: seq<Actor>)
    requires After(job, schedule).Some? && After(job, schedule).value.response.Some?
    ensures After(job, schedule).value.response.value == Sequential(job)
    ensures forall i | 0 <= i < |job.bodies| :: After(job, schedule).value.gos[i].Finished?
  {
    ReachableInv(job, schedule);
  }

  /** Two environments that differ in one cluster get responses that differ in its slot only. */
  lemma ErrorIsolation<S(!new)>(job: Job<S>, job': Job<S>, c: nat, schedule: seq<Actor>, schedule': seq<Actor>)
    requires job.zero == job'.zero && |job.bodies| == |job'.bodies|
    requires forall i | 0 <= i < |job.bodies| && i != c :: job.bodies[i] == job'.bodies[i]
    requires After(job, schedule).Some? && After(job, schedule).value.response.Some?
    requires After(job', schedule').Some? && After(job', schedule').value.response.Some?
    ensures var r, r' := After(job, schedule).value.response.value, After(job', schedule').value.response.value;
      |r| == |r'| == |job.bodies| && forall i | 0 <= i < |r| && i != c :: r[i] == r'[i]
  {
    ResponseIsSequential(job, schedule);
    ResponseIsSequential(job', schedule');
    forall i | 0 <= i < |job.bodies| && i != c ensures Sequential(job)[i] == Sequential(job')[i] {
      assert Sequential(job)[i] == Alone(job, i);
      assert Sequential(job')[i] == Alone(job', i);
    }
  }

  // ---- progress and termination

  /** No reachable state is stuck before the response is sent. */
  lemma Progress<S(!new)>(job: Job<S>, s: State<S>)
    requires Inv(job, s) && !s.main.Responded?
    ensures exists a :: Enabled(job, s, a)
  {
    if Enabled(job, s, Main) {
    } else {
      assert s.main.Waiting? && s.wg != 0;
      SumZero(Active(), s.gos, 0);
      var i :| 0 <= i < |s.gos| && Active()(i, s.gos[i]) != 0;
      if s.gos[i].Blocked? && !Enabled(job, s, Go(i)) {
        SumZero(Holding(), s.gos, 0);
        var j :| 0 <= j < |s.gos| && Holding()(j, s.gos[j]) != 0;
        assert Enabled(job, s, Go(j));
      } else {
        assert Enabled(job, s, Go(i));
      }
    }
  }

  /** The steps that goroutine i still has to take. */
  function Remaining<S(!new)>(job: Job<S>): (int, GoPc) -> int {
    (i: int, pc: GoPc) =>
      var n := if 0 <= i < |job.bodies| then |job.bodies[i]| else 0;
      match pc
      case Unspawned => n + 4
      case Blocked => n + 4
      case Working(d) => n - d + 3
      case Cancelled => 2
      case Released => 1
      case Finished => 0
  }

  function MainRemaining<S(!new)>(s: State<S>): int {
    match s.main
    case Adding(k) => 2 * (|s.gos| - k) + 2
    case Spawning(k) => 2 * (|s.gos| - k) + 1
    case Waiting => 1
    case Responded => 0
  }

  function Measure<S(!new)>(job: Job<S>, s: State<S>): int {
    MainRemaining(s) + Sum(Remaining(job), s.gos, 0)
  }

  lemma {:induction false} SumSame(v: (int, GoPc) -> int, w: (int, GoPc) -> int, gos: seq<GoPc>, k: nat)
    requires k <= |gos|
    requires forall i | k <= i < |gos| :: v(i, gos[i]) == w(i, gos[i])
    ensures Sum(v, gos, k) == Sum(w, gos, k)
    decreases |gos| - k
  {
    if k == |gos| {
    } else {
      SumSame(v, w, gos, k + 1);
    }
  }

  /** Only the numbers of updates count, not what they do. */
  lemma MeasureOfSizes<S(!new)>(job: Job<S>, job': Job<S>, s: State<S>)
    requires |s.gos| == |job.bodies| == |job'.bodies|
    requires forall i | 0 <= i < |job.bodies| :: |job.bodies[i]| == |job'.bodies[i]|
    ensures Measure(job, s) == Measure(job', s)
  {
    SumSame(Remaining(job), Remaining(job'), s.gos, 0);
  }

  lemma StepMeasure<S(!new)>(job: Job<S>, s: State<S>, a: Actor)
    requires Inv(job, s) && Enabled(job, s, a)
    ensures Measure(job, Step(job, s, a)) == Measure(job, s) - 1
  {
    var t := Step(job, s, a);
    match a
    case Main =>
      if s.main.Spawning? {
        SumUpdate(Remaining(job), s.gos, 0, s.main.next, Blocked);
      }
    case Go(i) =>
      SumUpdate(Remaining(job), s.gos, 0, i, t.gos[i]);
      assert t.gos == s.gos[i := t.gos[i]];
  }

  lemma MeasureZero<S(!new)>(job: Job<S>, s: State<S>)
    requires Inv(job, s)
    ensures Measure(job, s) >= 0
    ensures Measure(job, s) == 0 <==> s.main.Responded?
  {
    forall i | 0 <= i < |s.gos| ensures Remaining(job)(i, s.gos[i]) >= 0 {
      assert SlotOk(job, i, s.gos[i], s.out[i]);
    }
    SumZero(Remaining(job), s.gos, 0);
    if s.main.Responded? {
      assert forall i | 0 <= i < |s.gos| :: s.gos[i].Finished?;
    }
  }

  /** Every run takes the same number of steps to the response, and none takes more:
      no schedule can keep the handler from answering once all reads return. */
  lemma {:induction false} RunLength<S(!new)>(job: Job<S>, schedule: seq<Actor>)
    requires After(job, schedule).Some?
    ensures var s := After(job, schedule).value;
      && |schedule| == Measure(job, Init(job)) - Measure(job, s) <= Measure(job, Init(job))
      && (s.main.Responded? <==> |schedule| == Measure(job, Init(job)))
      && (s.main.Responded? <==> forall a :: !Enabled(job, s, a))
  {
    var s := After(job, schedule).value;
    ReachableInv(job, schedule);
    MeasureZero(job, s);
    if !s.main.Responded? {
      Progress(job, s);
    }
    if schedule == [] {
    } else {
      var init := schedule[..|schedule| - 1];
      RunLength(job, init);
      ReachableInv(job, init);
      StepMeasure(job, After(job, init).value, schedule[|schedule| - 1]);
    }
  }
}
