/** clientFor of pkg/kubeclient/kubeclient.go: one client per cluster, built on first use
    and kept in a map that a mutex guards. */
module ClientCache {
  import opened Prelude

  /** A client is told apart by the call that built it. */
  datatype Client = Client(builtBy: nat)

  type Cache = map<string, Client>

  /** The three errors of clientFor; the last one wraps what building the client reported. */
  datatype Error = NotConfigured | UnknownCluster(cluster: string) | BuildFailed(cluster: string, cause: string)

  type Outcome = Result<Client, Error>

  /** The section that the mutex guards, as one step: the cache it leaves and the result.
      build is what building a client would return if it came to that. */
  function Guarded(configs: set<string>, clients: Cache, cluster: string, build: Result<Client, string>)
    : (Cache, Outcome)
  {
    if cluster in clients then (clients, Ok(clients[cluster]))
    else if cluster !in configs then (clients, Err(UnknownCluster(cluster)))
    else if build.Err? then (clients, Err(BuildFailed(cluster, build.error)))
    else (clients[cluster := build.value], Ok(build.value))
  }

  class KubeClient {
    const configured: bool
    const configs: set<string>
    var clients: Cache

    constructor (configured: bool, configs: set<string>)
      ensures this.configured == configured && this.configs == configs && clients == map[]
    {
      this.configured := configured;
      this.configs := configs;
      clients := map[];
    }

    method ClientFor(cluster: string, build: Result<Client, string>) returns (r: Outcome)
      modifies this
      ensures !configured ==> r == Err(NotConfigured) && clients == old(clients)
      ensures configured ==> (clients, r) == Guarded(configs, old(clients), cluster, build)
      ensures forall c | c in old(clients) :: c in clients && clients[c] == old(clients)[c]
      ensures clients.Keys <= old(clients).Keys + configs
    {
      if !configured {
        return Err(NotConfigured);
      }
      if cluster in clients {
        return Ok(clients[cluster]);
      }
      if cluster !in configs {
        return Err(UnknownCluster(cluster));
      }
      if build.Err? {
        return Err(BuildFailed(cluster, build.error));
      }
      clients := clients[cluster := build.value];
      return Ok(build.value);
    }
  }

  // ---- concurrent calls

  /** One call: the cluster it asks for, and the error that building a client would meet. */
  datatype Call = Call(cluster: string, buildError: Option<string>)

  datatype System = System(configured: bool, configs: set<string>, calls: seq<Call>) {
    function Build(i: nat): Result<Client, string>
      requires i < |calls|
    {
      if calls[i].buildError.Some? then Err(calls[i].buildError.value) else Ok(Client(i))
    }
  }

  datatype Pc =
    | Start
    | Locking                     // in mu.Lock
    | Locked                      // about to look up the cache
    | Building                    // the cluster is configured and not cached
    | Storing(client: Client)     // built, about to store
    | Unlocking(r: Outcome)
    | Done(r: Outcome)

  /** order records in which order the calls took the mutex. */
  datatype State = State(pcs: seq<Pc>, lock: Option<nat>, clients: Cache, order: seq<nat>)

  function Init(sys: System): State {
    State(seq(|sys.calls|, _ => Start), None, map[], [])
  }

  predicate Enabled(sys: System, s: State, i: nat) {
    i < |s.pcs| && |s.pcs| == |sys.calls| && !s.pcs[i].Done? && (s.pcs[i].Locking? ==> s.lock.None?)
  }

  function Step(sys: System, s: State, i: nat): (t: State)
    requires Enabled(sys, s, i)
    ensures |t.pcs| == |s.pcs|
  {
    var cluster := sys.calls[i].cluster;
    match s.pcs[i]
    case Start =>
      s.(pcs := s.pcs[i := if sys.configured then Locking else Done(Err(NotConfigured))])
    case Locking =>
      s.(pcs := s.pcs[i := Locked], lock := Some(i), order := s.order + [i])
    case Locked =>
      s.(pcs := s.pcs[i :=
        if cluster in s.clients then Unlocking(Ok(s.clients[cluster]))
        else if cluster !in sys.configs then Unlocking(Err(UnknownCluster(cluster)))
        else Building])
    case Building =>
      s.(pcs := s.pcs[i :=
        if sys.Build(i).Err? then Unlocking(Err(BuildFailed(cluster, sys.Build(i).error)))
        else Storing(sys.Build(i).value)])
    case Storing(cl) =>
      s.(pcs := s.pcs[i := Unlocking(Ok(cl))], clients := s.clients[cluster := cl])
    case Unlocking(r) =>
      s.(pcs := s.pcs[i := Done(r)], lock := None)
    case Done(_) => s
  }

  /** The state that a schedule leads to, or None when one of its calls cannot move in turn. */
  function After(sys: System, schedule: seq<nat>): Option<State> {
    if schedule == [] then Some(Init(sys))
    else
      var before := After(sys, schedule[..|schedule| - 1]);
      var i := schedule[|schedule| - 1];
      if before.Some? && Enabled(sys, before.value, i) then Some(Step(sys, before.value, i)) else None
  }

  // ---- the sequential meaning

  predicate Calls(sys: System, order: seq<nat>) {
    forall k | 0 <= k < |order| :: order[k] < |sys.calls|
  }

  /** The cache after the calls have been made one after the other, in the given order. */
  function Serial(sys: System, order: seq<nat>): Cache
    requires Calls(sys, order)
  {
    if order == [] then map[]
    else
      var i := order[|order| - 1];
      Guarded(sys.configs, Serial(sys, order[..|order| - 1]), sys.calls[i].cluster, sys.Build(i)).0
  }

  /** What the k-th call of the order returns when the calls are made one after the other. */
  function SerialResult(sys: System, order: seq<nat>, k: nat): Outcome
    requires Calls(sys, order) && k < |order|
  {
    Guarded(sys.configs, Serial(sys, order[..k]), sys.calls[order[k]].cluster, sys.Build(order[k])).1
  }

  // ---- the invariant

  predicate Critical(pc: Pc) {
    pc.Locked? || pc.Building? || pc.Storing? || pc.Unlocking?
  }

  /** The call that took the mutex last, while it holds the mutex. */
  ghost predicate HolderOk(sys: System, s: State, i: nat)
    requires |s.pcs| == |sys.calls| && i < |s.pcs| && Calls(sys, s.order)
  {
    && s.order != [] && s.order[|s.order| - 1] == i
    && var before := Serial(sys, s.order[..|s.order| - 1]);
    var cluster := sys.calls[i].cluster;
    match s.pcs[i]
    case Locked => s.clients == before
    case Building => s.clients == before && cluster !in before && cluster in sys.configs
    case Storing(cl) =>
      s.clients == before && cluster !in before && cluster in sys.configs && sys.Build(i) == Ok(cl)
    case Unlocking(r) => s.clients == Serial(sys, s.order) && r == SerialResult(sys, s.order, |s.order| - 1)
    case _ => false
  }

  ghost predicate Inv(sys: System, s: State) {
    && |s.pcs| == |sys.calls|
    && Calls(sys, s.order) && NoDup(s.order)
    && (s.lock.Some? ==> s.lock.value < |s.pcs| && HolderOk(sys, s, s.lock.value))
    && (s.lock.None? ==> s.clients == Serial(sys, s.order))
    && (forall i | 0 <= i < |s.pcs| :: Critical(s.pcs[i]) <==> s.lock == Some(i))
    && (forall i | 0 <= i < |s.pcs| :: i in s.order <==> Critical(s.pcs[i]) || (s.pcs[i].Done? && sys.configured))
    && (!sys.configured ==> forall i | 0 <= i < |s.pcs| :: s.pcs[i] == Start || s.pcs[i] == Done(Err(NotConfigured)))
    && (forall k | 0 <= k < |s.order| && s.pcs[s.order[k]].Done? ::
          s.pcs[s.order[k]].r == SerialResult(sys, s.order, k))
  }

  lemma StepOutside(sys: System, s: State, i: nat)
    requires Inv(sys, s) && Enabled(sys, s, i) && s.pcs[i].Start?
    ensures Inv(sys, Step(sys, s, i))
  {
    var t := Step(sys, s, i);
    assert i !in s.order;
    forall k | 0 <= k < |t.order| && t.pcs[t.order[k]].Done?
      ensures t.pcs[t.order[k]].r == SerialResult(sys, t.order, k)
    {
      assert t.order[k] in s.order;
    }
    if s.lock.Some? {
      assert HolderOk(sys, t, t.lock.value);
    }
  }

  /** Calls that come later do not change what a call returned. */
  lemma ResultOfPrefix(sys: System, order: seq<nat>, i: nat, k: nat)
    requires Calls(sys, order) && i < |sys.calls| && k < |order|
    ensures Calls(sys, order + [i]) && SerialResult(sys, order + [i], k) == SerialResult(sys, order, k)
  {
    assert (order + [i])[..k] == order[..k];
  }

  lemma LockOrder(sys: System, s: State, i: nat)
    requires Inv(sys, s) && Enabled(sys, s, i) && s.pcs[i].Locking?
    ensures var t := Step(sys, s, i);
      && i !in s.order && NoDup(t.order)
      && forall j | 0 <= j < |t.pcs| :: j in t.order <==> Critical(t.pcs[j]) || (t.pcs[j].Done? && sys.configured)
  {
    var t := Step(sys, s, i);
    assert i !in s.order;
    assert forall j :: j in t.order <==> j in s.order || j == i;
  }

  lemma LockResults(sys: System, s: State, i: nat, k: nat)
    requires Inv(sys, s) && Enabled(sys, s, i) && s.pcs[i].Locking?
    ensures var t := Step(sys, s, i);
      && Calls(sys, t.order)
      && (k < |t.order| && t.pcs[t.order[k]].Done? ==> t.pcs[t.order[k]].r == SerialResult(sys, t.order, k))
  {
    if k < |s.order| {
      ResultOfPrefix(sys, s.order, i, k);
    }
  }

  lemma SerialBefore(sys: System, order: seq<nat>, i: nat)
    requires Calls(sys, order)
    ensures Calls(sys, (order + [i])[..|order|]) && Serial(sys, (order + [i])[..|order|]) == Serial(sys, order)
  {
    assert (order + [i])[..|order|] == order;
  }

  /** A call that has just taken a free mutex finds the cache that the earlier calls left. */
  lemma LockHolder(sys: System, s: State, i: nat)
    requires |s.pcs| == |sys.calls| && Enabled(sys, s, i) && s.pcs[i].Locking?
    requires Calls(sys, s.order) && s.clients == Serial(sys, s.order)
    ensures var t := Step(sys, s, i);
      |t.pcs| == |sys.calls| && Calls(sys, t.order) && HolderOk(sys, t, i)
  {
    SerialBefore(sys, s.order, i);
  }

  lemma LockCritical(sys: System, s: State, i: nat)
    requires Inv(sys, s) && Enabled(sys, s, i) && s.pcs[i].Locking?
    ensures var t := Step(sys, s, i);
      sys.configured && forall j | 0 <= j < |t.pcs| :: Critical(t.pcs[j]) <==> t.lock == Some(j)
  {
  }

  lemma StepLock(sys: System, s: State, i: nat)
    requires Inv(sys, s) && Enabled(sys, s, i) && s.pcs[i].Locking?
    ensures Inv(sys, Step(sys, s, i))
  {
    var t := Step(sys, s, i);
    LockOrder(sys, s, i);
    LockHolder(sys, s, i);
    LockCritical(sys, s, i);
    forall k | 0 <= k < |t.order| && t.pcs[t.order[k]].Done?
      ensures t.pcs[t.order[k]].r == SerialResult(sys, t.order, k)
    {
      LockResults(sys, s, i, k);
    }
  }

  /** The call that holds the mutex goes on. */
  lemma StepInside(sys: System, s: State, i: nat)
    requires Inv(sys, s) && Enabled(sys, s, i)
    requires s.pcs[i].Locked? || s.pcs[i].Building? || s.pcs[i].Storing?
    ensures Inv(sys, Step(sys, s, i))
  {
    var t := Step(sys, s, i);
    assert Critical(s.pcs[i]);
    assert s.lock == Some(i);
    HolderGoesOn(sys, s, i);
    forall k | 0 <= k < |t.order| && t.pcs[t.order[k]].Done?
      ensures t.pcs[t.order[k]].r == SerialResult(sys, t.order, k)
    {
      assert s.pcs[s.order[k]] == t.pcs[t.order[k]];
    }
  }

  lemma HolderGoesOn(sys: System, s: State, i: nat)
    requires |s.pcs| == |sys.calls| && i < |s.pcs| && Calls(sys, s.order)
    requires Enabled(sys, s, i) && HolderOk(sys, s, i)
    requires s.pcs[i].Locked? || s.pcs[i].Building? || s.pcs[i].Storing?
    ensures HolderOk(sys, Step(sys, s, i), i)
  {
  }

  lemma StepUnlock(sys: System, s: State, i: nat)
    requires Inv(sys, s) && Enabled(sys, s, i) && s.pcs[i].Unlocking?
    ensures Inv(sys, Step(sys, s, i))
  {
    var t := Step(sys, s, i);
    assert Critical(s.pcs[i]);
    assert s.lock == Some(i) && HolderOk(sys, s, i);
    var last := |s.order| - 1;
    assert i in s.order;
    assert sys.configured;
    forall k | 0 <= k < |t.order| && t.pcs[t.order[k]].Done?
      ensures t.pcs[t.order[k]].r == SerialResult(sys, t.order, k)
    {
      if k != last {
        assert s.order[k] != s.order[last];
        assert s.pcs[s.order[k]] == t.pcs[t.order[k]];
      }
    }
  }

  lemma StepInv(sys: System, s: State, i: nat)
    requires Inv(sys, s) && Enabled(sys, s, i)
    ensures Inv(sys, Step(sys, s, i))
  {
    match s.pcs[i]
    case Start => StepOutside(sys, s, i);
    case Locking => StepLock(sys, s, i);
    case Unlocking(_) => StepUnlock(sys, s, i);
    case _ => StepInside(sys, s, i);
  }

  lemma {:induction false} ReachableInv(sys: System, schedule: seq<nat>)
    requires After(sys, schedule).Some?
    ensures Inv(sys, After(sys, schedule).value)
  {
    if schedule == [] {
    } else {
      var init := schedule[..|schedule| - 1];
      ReachableInv(sys, init);
      StepInv(sys, After(sys, init).value, schedule[|schedule| - 1]);
    }
  }

  // ---- what callers may rely on

  /** Calls made one after the other: cached clusters are configured ones, entries stay,
      and every entry was built by a call for that very cluster. */
  lemma {:induction false} SerialKeeps(sys: System, order: seq<nat>)
    requires Calls(sys, order)
    ensures Serial(sys, order).Keys <= sys.configs
    ensures forall c | c in Serial(sys, order) :: BuiltFor(sys, c, Serial(sys, order)[c])
  {
    if order == [] {
    } else {
      SerialKeeps(sys, order[..|order| - 1]);
    }
  }

  ghost predicate BuiltFor(sys: System, cluster: string, cl: Client) {
    cl.builtBy < |sys.calls| && sys.calls[cl.builtBy].cluster == cluster && sys.Build(cl.builtBy) == Ok(cl)
  }

  lemma {:induction false} SerialGrows(sys: System, order: seq<nat>, k: nat)
    requires Calls(sys, order) && k <= |order|
    ensures forall c | c in Serial(sys, order[..k]) ::
      c in Serial(sys, order) && Serial(sys, order)[c] == Serial(sys, order[..k])[c]
  {
    if k == |order| {
      assert order[..k] == order;
    } else {
      var init := order[..|order| - 1];
      SerialGrows(sys, init, k);
      assert init[..k] == order[..k];
    }
  }

  /** A call that succeeds returns the entry that the final cache holds for its cluster;
      one that fails leaves the cache as it was. */
  lemma SerialReturnsEntry(sys: System, order: seq<nat>, k: nat)
    requires Calls(sys, order) && k < |order|
    ensures var c := sys.calls[order[k]].cluster;
      match SerialResult(sys, order, k)
      case Ok(cl) => c in Serial(sys, order) && Serial(sys, order)[c] == cl
      case Err(_) => Serial(sys, order[..k + 1]) == Serial(sys, order[..k])
  {
    assert order[..k + 1][..k] == order[..k];
    SerialGrows(sys, order, k + 1);
  }

  /** Under every interleaving the calls behave as if made one after the other, in the
      order in which they took the mutex: same results, same cache. */
  lemma Linearizable(sys: System, schedule: seq<nat>)
    requires sys.configured && After(sys, schedule).Some?
    requires forall i | 0 <= i < |sys.calls| ::
      i < |After(sys, schedule).value.pcs| && After(sys, schedule).value.pcs[i].Done?
    ensures var s := After(sys, schedule).value;
      && NoDup(s.order) && (forall i: nat :: i in s.order <==> i < |sys.calls|)
      && Calls(sys, s.order)
      && s.clients == Serial(sys, s.order)
      && forall k | 0 <= k < |s.order| :: s.pcs[s.order[k]] == Done(SerialResult(sys, s.order, k))
  {
    ReachableInv(sys, schedule);
    var s := After(sys, schedule).value;
    assert s.lock.None?;
    forall i: nat ensures i in s.order <==> i < |sys.calls| {
      if i in s.order {
        var k :| 0 <= k < |s.order| && s.order[k] == i;
      }
    }
  }

  /** At most one call is between Lock and Unlock. */
  lemma MutualExclusion(sys: System, schedule: seq<nat>, i: nat, j: nat)
    requires After(sys, schedule).Some?
    requires i < |sys.calls| && j < |sys.calls|
    ensures var s := After(sys, schedule).value;
      |s.pcs| == |sys.calls| && (Critical(s.pcs[i]) && Critical(s.pcs[j]) ==> i == j)
  {
    ReachableInv(sys, schedule);
  }

  lemma StepKeepsEntries(sys: System, s: State, i: nat)
    requires Inv(sys, s) && Enabled(sys, s, i)
    ensures forall c | c in s.clients :: c in Step(sys, s, i).clients && Step(sys, s, i).clients[c] == s.clients[c]
  {
    if s.pcs[i].Storing? {
      assert Critical(s.pcs[i]);
      assert HolderOk(sys, s, i);
    }
  }

  /** However the calls go on, an entry once stored is never replaced or dropped. */
  lemma {:induction false} EntriesStay(sys: System, schedule: seq<nat>, more: seq<nat>)
    requires After(sys, schedule + more).Some?
    ensures After(sys, schedule).Some?
    ensures forall c | c in After(sys, schedule).value.clients ::
      && c in After(sys, schedule + more).value.clients
      && After(sys, schedule + more).value.clients[c] == After(sys, schedule).value.clients[c]
  {
    var all := schedule + more;
    if more == [] {
      assert all == schedule;
    } else {
      var init := more[..|more| - 1];
      assert all[..|all| - 1] == schedule + init;
      EntriesStay(sys, schedule, init);
      ReachableInv(sys, schedule + init);
      StepKeepsEntries(sys, After(sys, schedule + init).value, all[|all| - 1]);
    }
  }

  /** The client that a call has built or been given, from the moment it has it. */
  function Held(pc: Pc): Option<Client> {
    match pc
    case Storing(cl) => Some(cl)
    case Unlocking(r) => if r.Ok? then Some(r.value) else None
    case Done(r) => if r.Ok? then Some(r.value) else None
    case _ => None
  }

  lemma HolderEntry(sys: System, s: State, i: nat)
    requires |s.pcs| == |sys.calls| && i < |s.pcs| && Calls(sys, s.order)
    requires HolderOk(sys, s, i) && Held(s.pcs[i]).Some?
    ensures var c := sys.calls[i].cluster;
      c in Serial(sys, s.order) && Serial(sys, s.order)[c] == Held(s.pcs[i]).value
  {
    if s.pcs[i].Unlocking? {
      SerialReturnsEntry(sys, s.order, |s.order| - 1);
    }
  }

  lemma EntryAt(sys: System, s: State, i: nat)
    requires Inv(sys, s) && i < |s.pcs| && Held(s.pcs[i]).Some?
    ensures var c := sys.calls[i].cluster;
      c in Serial(sys, s.order) && Serial(sys, s.order)[c] == Held(s.pcs[i]).value
  {
    if Critical(s.pcs[i]) {
      assert s.lock == Some(i);
      HolderEntry(sys, s, i);
    } else {
      assert sys.configured;
      assert i in s.order;
      var k :| 0 <= k < |s.order| && s.order[k] == i;
      SerialReturnsEntry(sys, s.order, k);
    }
  }

  /** All calls for one cluster that have a client, be they still under way or returned, have
      the same one, which was built for that cluster; so no cluster is successfully built twice. */
  lemma OneClientPerCluster(sys: System, schedule: seq<nat>, i: nat, j: nat)
    requires After(sys, schedule).Some?
    requires i < |sys.calls| && j < |sys.calls| && sys.calls[i].cluster == sys.calls[j].cluster
    ensures |After(sys, schedule).value.pcs| == |sys.calls|
    ensures var a, b := Held(After(sys, schedule).value.pcs[i]), Held(After(sys, schedule).value.pcs[j]);
      a.Some? && b.Some? ==>
        && a == b
        && sys.calls[i].cluster in sys.configs
        && BuiltFor(sys, sys.calls[i].cluster, a.value)
        && (a.value == Client(i) && b.value == Client(j) ==> i == j)
  {
    ReachableInv(sys, schedule);
    var s := After(sys, schedule).value;
    if Held(s.pcs[i]).Some? && Held(s.pcs[j]).Some? {
      EntryAt(sys, s, i);
      EntryAt(sys, s, j);
      SerialKeeps(sys, s.order);
    }
  }

  lemma StepKeepsHeld(sys: System, s: State, i: nat, j: nat)
    requires Enabled(sys, s, i) && j < |s.pcs| && Held(s.pcs[j]).Some?
    ensures Held(Step(sys, s, i).pcs[j]) == Held(s.pcs[j])
  {
  }

  /** However the calls go on, a call that has a client keeps it. */
  lemma {:induction false} HeldStays(sys: System, schedule: seq<nat>, more: seq<nat>, j: nat)
    requires After(sys, schedule + more).Some? && j < |sys.calls|
    ensures After(sys, schedule).Some?
    ensures |After(sys, schedule).value.pcs| == |After(sys, schedule + more).value.pcs| == |sys.calls|
    ensures var held := Held(After(sys, schedule).value.pcs[j]);
      held.Some? ==> Held(After(sys, schedule + more).value.pcs[j]) == held
  {
    var all := schedule + more;
    ReachableInv(sys, all);
    if more == [] {
      assert all == schedule;
    } else {
      var init := more[..|more| - 1];
      assert all[..|all| - 1] == schedule + init;
      HeldStays(sys, schedule, init, j);
      var s := After(sys, schedule + init).value;
      if Held(s.pcs[j]).Some? {
        StepKeepsHeld(sys, s, all[|all| - 1], j);
      }
    }
  }

  /** Two successful builds for one cluster, at any two moments of a run, are the same one. */
  lemma BuiltOnce(sys: System, schedule: seq<nat>, more: seq<nat>, i: nat, j: nat)
    requires After(sys, schedule + more).Some?
    requires i < |sys.calls| && j < |sys.calls| && sys.calls[i].cluster == sys.calls[j].cluster
    ensures After(sys, schedule).Some?
    ensures |After(sys, schedule).value.pcs| == |After(sys, schedule + more).value.pcs| == |sys.calls|
    ensures var early, late := After(sys, schedule).value, After(sys, schedule + more).value;
      Held(early.pcs[i]) == Some(Client(i)) && Held(late.pcs[j]) == Some(Client(j)) ==> i == j
  {
    HeldStays(sys, schedule, more, i);
    OneClientPerCluster(sys, schedule + more, i, j);
  }

  /** A call for a configured cluster fails only with what building its client reported. */
  lemma OutcomeKinds(sys: System, s: State, i: nat)
    requires Inv(sys, s) && sys.configured && i < |s.pcs| && s.pcs[i].Done?
    requires sys.calls[i].cluster in sys.configs
    ensures s.pcs[i].r.Err? ==> sys.calls[i].buildError.Some?
    ensures s.pcs[i].r.Err? ==>
      s.pcs[i].r.error == BuildFailed(sys.calls[i].cluster, sys.calls[i].buildError.value)
  {
    assert i in s.order;
    var k :| 0 <= k < |s.order| && s.order[k] == i;
    assert s.pcs[i].r == SerialResult(sys, s.order, k);
  }

  // ---- no deadlock, no livelock

  function Rank(pc: Pc): nat {
    match pc
    case Start => 6
    case Locking => 5
    case Locked => 4
    case Building => 3
    case Storing(_) => 2
    case Unlocking(_) => 1
    case Done(_) => 0
  }

  function Ranks(pcs: seq<Pc>): nat {
    if pcs == [] then 0 else Rank(pcs[0]) + Ranks(pcs[1..])
  }

  lemma {:induction false} RanksUpdate(pcs: seq<Pc>, i: nat, pc: Pc)
    requires i < |pcs|
    ensures Ranks(pcs[i := pc]) == Ranks(pcs) - Rank(pcs[i]) + Rank(pc)
  {
    if i > 0 {
      RanksUpdate(pcs[1..], i - 1, pc);
      assert pcs[i := pc][1..] == pcs[1..][i - 1 := pc];
    } else {
      assert pcs[i := pc][1..] == pcs[1..];
    }
  }

  lemma {:induction false} InitRanks(n: nat)
    ensures Ranks(seq(n, _ => Start)) == 6 * n
  {
    if n == 0 {
    } else {
      InitRanks(n - 1);
      assert seq(n, _ => Start)[1..] == seq(n - 1, _ => Start);
    }
  }

  /** While a call has not returned, some call can move. */
  lemma NoDeadlock(sys: System, schedule: seq<nat>)
    requires After(sys, schedule).Some?
    ensures var s := After(sys, schedule).value;
      && |s.pcs| == |sys.calls|
      && ((forall i | 0 <= i < |s.pcs| :: s.pcs[i].Done?) || exists i :: Enabled(sys, s, i))
  {
    var s := After(sys, schedule).value;
    ReachableInv(sys, schedule);
    if i :| 0 <= i < |s.pcs| && !s.pcs[i].Done? {
      if !Enabled(sys, s, i) {
        assert Enabled(sys, s, s.lock.value);
      }
    }
  }

  lemma StepRanks(sys: System, s: State, i: nat)
    requires Enabled(sys, s, i)
    ensures Ranks(Step(sys, s, i).pcs) < Ranks(s.pcs)
  {
    var t := Step(sys, s, i);
    RanksUpdate(s.pcs, i, t.pcs[i]);
    assert t.pcs == s.pcs[i := t.pcs[i]];
  }

  /** Every run is over after at most six steps per call. */
  lemma {:induction false} CallsReturn(sys: System, schedule: seq<nat>)
    requires After(sys, schedule).Some?
    ensures |schedule| <= 6 * |sys.calls| - Ranks(After(sys, schedule).value.pcs)
  {
    if schedule == [] {
      InitRanks(|sys.calls|);
      assert Init(sys).pcs == seq(|sys.calls|, _ => Start);
    } else {
      var init := schedule[..|schedule| - 1];
      CallsReturn(sys, init);
      StepRanks(sys, After(sys, init).value, schedule[|schedule| - 1]);
    }
  }
}
