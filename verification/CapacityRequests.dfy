/** Available capacity as a request that shares the client cache
    (pkg/server/handlers_available_capacity.go, pkg/kubeclient/kubeclient.go). */
module CapacityRequests {
  import opened Prelude
  import F = FanOut
  import C = ClientCache
  import R = Requests
  import H = ClusterHandlers
  import ClusterRequests

  type Read = Result<seq<H.CapacityItem>, string>

  /** The items that the API server answers with, which fix the number of updates. */
  function ItemsOf(read: Read): seq<H.CapacityItem> {
    if read.Ok? then read.value else []
  }

  function StartOp(name: string): R.Op<H.CapacityCluster> {
    R.Op(None, (r: Option<C.Outcome>, s: H.CapacityCluster) => H.CapacityCluster(name, None, None))
  }

  function ReadOp(read: Read, text: C.Error -> string, call: nat): R.Op<H.CapacityCluster> {
    R.Op(Some(call), (r: Option<C.Outcome>, s: H.CapacityCluster) =>
      match ClusterRequests.Through(r, read, text)
      case Err(e) => s.(error := Some(e))
      case Ok(_) => s.(items := Some([])))
  }

  /** An append, which the source does not reach after an error. */
  function AppendOp(it: H.CapacityItem): R.Op<H.CapacityCluster> {
    R.Op(None, (r: Option<C.Outcome>, s: H.CapacityCluster) => if s.items.Some? then H.AppendItem(it)(s) else s)
  }

  function AppendOps(items: seq<H.CapacityItem>): seq<R.Op<H.CapacityCluster>> {
    seq(|items|, k requires 0 <= k < |items| => AppendOp(items[k]))
  }

  function CapacityOps(name: string, read: Read, text: C.Error -> string, call: nat): seq<R.Op<H.CapacityCluster>> {
    [StartOp(name), ReadOp(read, text, call)] + AppendOps(ItemsOf(read))
  }

  function CapacityWork(names: seq<string>, env: string -> Read, text: C.Error -> string): R.Work<H.CapacityCluster> {
    R.Work(H.EMPTY_CLUSTER,
      seq(|names|, i requires 0 <= i < |names| => CapacityOps(names[i], env(names[i]), text, i)))
  }

  /** The request's calls come first in the system, one for each cluster. */
  predicate Asks(sys: C.System, names: seq<string>) {
    |names| <= |sys.calls| && forall i | 0 <= i < |names| :: sys.calls[i].cluster == names[i]
  }

  lemma CapacityProper(sys: C.System, names: seq<string>, env: string -> Read, text: C.Error -> string)
    requires Asks(sys, names)
    ensures R.Proper(sys, CapacityWork(names, env, text))
  {
    var w := CapacityWork(names, env, text);
    forall i, d ensures R.CallAt(w, i, d) == if 0 <= i < |names| && d == 1 then Some(i) else None {
      if 0 <= i < |names| {
        assert w.bodies[i] == CapacityOps(names[i], env(names[i]), text, i);
      }
    }
  }

  /** The slot when the first k items are appended, unless the read ended with an error. */
  function SlotAfter(name: string, read: Read, k: nat): H.CapacityCluster {
    match read
    case Err(e) => H.CapacityCluster(name, None, Some(e))
    case Ok(items) => H.CapacityCluster(name, Some(items[..Min(k, |items|)]), None)
  }

  lemma OneAppend(name: string, items: seq<H.CapacityItem>, through: Read, k: nat)
    requires 0 < k <= |items| && (through.Ok? ==> through.value == items)
    ensures AppendOp(items[k - 1]).update(None, SlotAfter(name, through, k - 1)) == SlotAfter(name, through, k)
  {
    var it := items[k - 1];
    assert items[..k] == items[..k - 1] + [it];
    assert it == H.CapacityItem(it.name, it.resources, it.availableCount, it.availability, it.cost, it.requirements);
    if through.Ok? {
      var s := H.CapacityCluster(name, Some(items[..k - 1]), None);
      assert SlotAfter(name, through, k - 1) == s;
      assert AppendOp(it).update(None, s) == H.AppendItem(it)(s);
    }
  }

  lemma {:induction false} CapacitySteps(name: string, read: Read, text: C.Error -> string, call: nat,
                                         pcs: seq<C.Pc>, k: nat)
    requires k <= |ItemsOf(read)|
    ensures F.Apply(H.EMPTY_CLUSTER, R.BoundAll(CapacityOps(name, read, text, call), pcs), k + 2)
         == SlotAfter(name, ClusterRequests.Through(R.ResultOf(pcs, Some(call)), read, text), k)
  {
    var ops := CapacityOps(name, read, text, call);
    var body := R.BoundAll(ops, pcs);
    var through := ClusterRequests.Through(R.ResultOf(pcs, Some(call)), read, text);
    if k == 0 {
      var s0 := F.Apply(H.EMPTY_CLUSTER, body, 0);
      ClusterRequests.BoundAt(ops, pcs, 0, s0);
      var s1 := F.Apply(H.EMPTY_CLUSTER, body, 1);
      assert s1 == H.CapacityCluster(name, None, None);
      ClusterRequests.BoundAt(ops, pcs, 1, s1);
      assert F.Apply(H.EMPTY_CLUSTER, body, 2) == body[1](s1);
    } else {
      CapacitySteps(name, read, text, call, pcs, k - 1);
      assert ops[k + 1] == AppendOp(ItemsOf(read)[k - 1]);
      ClusterRequests.BoundAt(ops, pcs, k + 1, F.Apply(H.EMPTY_CLUSTER, body, k + 1));
      OneAppend(name, ItemsOf(read), through, k);
    }
  }

  /** What a cluster answers with: its items in the order of the read, or an error and no items. */
  function Answer(name: string, read: Read): H.CapacityCluster {
    match read
    case Ok(items) => H.CapacityCluster(name, Some(items), None)
    case Err(e) => H.CapacityCluster(name, None, Some(e))
  }

  lemma CapacityAlone(names: seq<string>, env: string -> Read, text: C.Error -> string, pcs: seq<C.Pc>, i: nat)
    requires i < |names|
    ensures F.Alone(R.JobAt(CapacityWork(names, env, text), pcs), i)
         == Answer(names[i], ClusterRequests.Through(R.ResultOf(pcs, Some(i)), env(names[i]), text))
  {
    var w, read := CapacityWork(names, env, text), env(names[i]);
    assert R.JobAt(w, pcs).bodies[i] == R.BoundAll(CapacityOps(names[i], read, text, i), pcs);
    CapacitySteps(names[i], read, text, i, pcs, |ItemsOf(read)|);
    assert read.Ok? ==> read.value[..|read.value|] == read.value;
  }

  /** Under every interleaving with every other request, each cluster answers at its own place
      with its own items, or with its own error, be it of clientFor or of the read. */
  lemma CapacityRequest(sys: C.System, names: seq<string>, env: string -> Read, text: C.Error -> string,
                        schedule: seq<R.Actor>)
    requires Asks(sys, names)
    requires R.After(sys, CapacityWork(names, env, text), schedule).Some?
    requires R.After(sys, CapacityWork(names, env, text), schedule).value.fan.response.Some?
    ensures var s := R.After(sys, CapacityWork(names, env, text), schedule).value;
      && |s.fan.response.value| == |names|
      && forall i | 0 <= i < |names| ::
           s.fan.response.value[i]
           == Answer(names[i], ClusterRequests.Through(R.ResultOf(s.cache.pcs, Some(i)), env(names[i]), text))
  {
    var w := CapacityWork(names, env, text);
    var s := R.After(sys, w, schedule).value;
    CapacityProper(sys, names, env, text);
    R.ResponseIsSequential(sys, w, schedule);
    forall i | 0 <= i < |names|
      ensures s.fan.response.value[i]
           == Answer(names[i], ClusterRequests.Through(R.ResultOf(s.cache.pcs, Some(i)), env(names[i]), text))
    {
      CapacityAlone(names, env, text, s.cache.pcs, i);
    }
  }

  /** The answer of a cluster in terms of what clientFor and the API server returned. */
  lemma CapacityListed(sys: C.System, names: seq<string>, env: string -> Read, text: C.Error -> string,
                       schedule: seq<R.Actor>, i: nat)
    requires Asks(sys, names) && i < |names|
    requires R.After(sys, CapacityWork(names, env, text), schedule).Some?
    requires R.After(sys, CapacityWork(names, env, text), schedule).value.fan.response.Some?
    ensures var s := R.After(sys, CapacityWork(names, env, text), schedule).value;
      && |s.fan.response.value| == |names| && |s.cache.pcs| > i && s.cache.pcs[i].Done?
      && s.fan.response.value[i] == (
           if s.cache.pcs[i].r.Err? then H.CapacityCluster(names[i], None, Some(text(s.cache.pcs[i].r.error)))
           else if env(names[i]).Err? then H.CapacityCluster(names[i], None, Some(env(names[i]).error))
           else H.CapacityCluster(names[i], Some(env(names[i]).value), None))
  {
    var w := CapacityWork(names, env, text);
    CapacityProper(sys, names, env, text);
    assert w.bodies[i] == CapacityOps(names[i], env(names[i]), text, i);
    assert R.CallAt(w, i, 1) == Some(i);
    R.ResponseIsSequential(sys, w, schedule);
    CapacityRequest(sys, names, env, text, schedule);
  }
}
