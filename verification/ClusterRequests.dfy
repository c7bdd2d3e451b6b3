/** The clusters list as a request that shares the client cache: each of its reads begins with
    a call of clientFor (pkg/server/handlers_clusters.go, pkg/kubeclient/kubeclient.go). */
module ClusterRequests {
  import opened Prelude
  import F = FanOut
  import C = ClientCache
  import R = Requests
  import H = ClusterHandlers

  /** What a read returns: the error of clientFor as text, or what the API server answers. */
  function Through<T>(outcome: Option<C.Outcome>, read: Result<T, string>, text: C.Error -> string): Result<T, string> {
    if outcome.Some? && outcome.value.Err? then Err(text(outcome.value.error)) else read
  }

  function ReadsThrough(first: Option<C.Outcome>, second: Option<C.Outcome>, answers: H.Reads,
                        text: C.Error -> string): H.Reads {
    H.Reads(Through(first, answers.crs, text), Through(second, answers.uns, text))
  }

  /** The body of a goroutine whose two calls of clientFor are the calls first and first + 1. */
  ghost function SummaryOps(name: string, answers: H.Reads, text: C.Error -> string, first: nat)
    : seq<R.Op<H.ClusterSummary>>
  {
    [ R.Op(None, (r: Option<C.Outcome>, s: H.ClusterSummary) => H.SummaryBody(name, answers)[0](s)),
      R.Op(Some(first), (r: Option<C.Outcome>, s: H.ClusterSummary) =>
        H.SummaryBody(name, ReadsThrough(r, None, answers, text))[1](s)),
      R.Op(Some(first + 1), (r: Option<C.Outcome>, s: H.ClusterSummary) =>
        H.SummaryBody(name, ReadsThrough(None, r, answers, text))[2](s)) ]
  }

  ghost function ClustersWork(names: seq<string>, env: string -> H.Reads, text: C.Error -> string)
    : R.Work<H.ClusterSummary>
  {
    R.Work(H.EMPTY_SUMMARY,
      seq(|names|, i requires 0 <= i < |names| => SummaryOps(names[i], env(names[i]), text, 2 * i)))
  }

  /** The request's calls come first in the system; the others belong to other requests. */
  predicate Asks(sys: C.System, names: seq<string>) {
    && 2 * |names| <= |sys.calls|
    && forall i | 0 <= i < |names| :: sys.calls[2 * i].cluster == names[i] == sys.calls[2 * i + 1].cluster
  }

  lemma ClustersProper(sys: C.System, names: seq<string>, env: string -> H.Reads, text: C.Error -> string)
    requires Asks(sys, names)
    ensures R.Proper(sys, ClustersWork(names, env, text))
  {
    var w := ClustersWork(names, env, text);
    forall i, d ensures R.CallAt(w, i, d)
      == if 0 <= i < |names| && 1 <= d <= 2 then Some(2 * i + d - 1) else None
    {
      if 0 <= i < |names| {
        assert w.bodies[i] == SummaryOps(names[i], env(names[i]), text, 2 * i);
      }
    }
  }

  /** What the two reads of cluster i return, given what its calls of clientFor returned. */
  function ReadsOf(pcs: seq<C.Pc>, i: nat, answers: H.Reads, text: C.Error -> string): H.Reads {
    ReadsThrough(R.ResultOf(pcs, Some(2 * i)), R.ResultOf(pcs, Some(2 * i + 1)), answers, text)
  }

  lemma BoundAt<S(!new)>(ops: seq<R.Op<S>>, pcs: seq<C.Pc>, d: nat, v: S)
    requires d < |ops|
    ensures R.BoundAll(ops, pcs)[d](v) == ops[d].update(R.ResultOf(pcs, ops[d].call), v)
  {
  }

  /** The three updates of a goroutine's slot. */
  lemma ThreeSteps(name: string, answers: H.Reads, text: C.Error -> string, first: nat, pcs: seq<C.Pc>)
    ensures var a, b := R.ResultOf(pcs, Some(first)), R.ResultOf(pcs, Some(first + 1));
      H.Reports(name, ReadsThrough(a, b, answers, text),
                F.Apply(H.EMPTY_SUMMARY, R.BoundAll(SummaryOps(name, answers, text, first), pcs), 3))
  {
    var ops := SummaryOps(name, answers, text, first);
    var body := R.BoundAll(ops, pcs);
    var s0 := F.Apply(H.EMPTY_SUMMARY, body, 0);
    BoundAt(ops, pcs, 0, s0);
    var s1 := F.Apply(H.EMPTY_SUMMARY, body, 1);
    assert s1 == H.SummaryBody(name, answers)[0](s0) == H.ClusterSummary(name, 0, 0, 0, None);
    BoundAt(ops, pcs, 1, s1);
    var a := R.ResultOf(pcs, Some(first));
    var s2 := F.Apply(H.EMPTY_SUMMARY, body, 2);
    assert s2 == H.SummaryBody(name, ReadsThrough(a, None, answers, text))[1](s1);
    BoundAt(ops, pcs, 2, s2);
    var b := R.ResultOf(pcs, Some(first + 1));
    assert F.Apply(H.EMPTY_SUMMARY, body, 3) == H.SummaryBody(name, ReadsThrough(None, b, answers, text))[2](s2);
  }

  lemma SummaryAlone(names: seq<string>, env: string -> H.Reads, text: C.Error -> string, pcs: seq<C.Pc>, i: nat)
    requires i < |names|
    ensures H.Reports(names[i], ReadsOf(pcs, i, env(names[i]), text),
                      F.Alone(R.JobAt(ClustersWork(names, env, text), pcs), i))
  {
    var w := ClustersWork(names, env, text);
    assert R.JobAt(w, pcs).bodies[i] == R.BoundAll(SummaryOps(names[i], env(names[i]), text, 2 * i), pcs);
    ThreeSteps(names[i], env(names[i]), text, 2 * i, pcs);
  }

  /** Under every interleaving with every other request, the response reports each cluster at
      its own place, with what its reads make of the clients that the cache handed out. */
  lemma ClustersRequest(sys: C.System, names: seq<string>, env: string -> H.Reads, text: C.Error -> string,
                        schedule: seq<R.Actor>)
    requires Asks(sys, names)
    requires R.After(sys, ClustersWork(names, env, text), schedule).Some?
    requires R.After(sys, ClustersWork(names, env, text), schedule).value.fan.response.Some?
    ensures var s := R.After(sys, ClustersWork(names, env, text), schedule).value;
      && |s.fan.response.value| == |names|
      && forall i | 0 <= i < |names| ::
           H.Reports(names[i], ReadsOf(s.cache.pcs, i, env(names[i]), text), s.fan.response.value[i])
  {
    var w := ClustersWork(names, env, text);
    var s := R.After(sys, w, schedule).value;
    ClustersProper(sys, names, env, text);
    R.ResponseIsSequential(sys, w, schedule);
    forall i | 0 <= i < |names|
      ensures H.Reports(names[i], ReadsOf(s.cache.pcs, i, env(names[i]), text), s.fan.response.value[i])
    {
      SummaryAlone(names, env, text, s.cache.pcs, i);
    }
  }

  /** What the list says about a cluster whose calls of clientFor returned first and second. */
  ghost predicate ListsCluster(name: string, first: C.Outcome, second: C.Outcome, answers: H.Reads,
                               text: C.Error -> string, s: H.ClusterSummary) {
    && s.id == name
    && s.error == (
         if first.Err? then Some(text(first.error))
         else if answers.crs.Err? then Some(answers.crs.error)
         else if second.Err? then Some(text(second.error))
         else if answers.uns.Err? then Some(answers.uns.error)
         else None)
    && s.capacityRequests == (if first.Ok? && answers.crs.Ok? then H.Total(answers.crs.value) else 0)
    && s.capacityRequestsPending
       == (if first.Ok? && answers.crs.Ok? && "Pending" in answers.crs.value then answers.crs.value["Pending"] else 0)
    && s.upcomingNodes == (if second.Ok? && answers.uns.Ok? then H.Total(answers.uns.value) else 0)
  }

  lemma OwnCalls(sys: C.System, names: seq<string>, env: string -> H.Reads, text: C.Error -> string, i: nat)
    requires Asks(sys, names) && i < |names|
    ensures R.Owned(ClustersWork(names, env, text), 2 * i) && R.Owned(ClustersWork(names, env, text), 2 * i + 1)
  {
    var w := ClustersWork(names, env, text);
    assert w.bodies[i] == SummaryOps(names[i], env(names[i]), text, 2 * i);
    assert R.CallAt(w, i, 1) == Some(2 * i) && R.CallAt(w, i, 2) == Some(2 * i + 1);
  }

  /** The response in terms of what clientFor and the API server returned. */
  lemma ClustersListed(sys: C.System, names: seq<string>, env: string -> H.Reads, text: C.Error -> string,
                       schedule: seq<R.Actor>, i: nat)
    requires Asks(sys, names) && i < |names|
    requires R.After(sys, ClustersWork(names, env, text), schedule).Some?
    requires R.After(sys, ClustersWork(names, env, text), schedule).value.fan.response.Some?
    ensures var s := R.After(sys, ClustersWork(names, env, text), schedule).value;
      && |s.fan.response.value| == |names| && |s.cache.pcs| > 2 * i + 1
      && s.cache.pcs[2 * i].Done? && s.cache.pcs[2 * i + 1].Done?
      && ListsCluster(names[i], s.cache.pcs[2 * i].r, s.cache.pcs[2 * i + 1].r, env(names[i]), text,
                      s.fan.response.value[i])
  {
    ClustersProper(sys, names, env, text);
    OwnCalls(sys, names, env, text, i);
    R.ResponseIsSequential(sys, ClustersWork(names, env, text), schedule);
    ClustersRequest(sys, names, env, text, schedule);
  }

  /** When the clusters are those of the kubeconfig and none of their clients fails to be built,
      the response is the one of the reads alone: the shared cache cannot be told from private
      clients, whatever other requests do and however their own builds end. */
  lemma CacheIsInvisible(sys: C.System, names: seq<string>, env: string -> H.Reads, text: C.Error -> string,
                         schedule: seq<R.Actor>)
    requires Asks(sys, names) && sys.configured && forall i | 0 <= i < |names| :: names[i] in sys.configs
    requires forall c | 0 <= c < 2 * |names| :: sys.calls[c].buildError.None?
    requires R.After(sys, ClustersWork(names, env, text), schedule).Some?
    requires R.After(sys, ClustersWork(names, env, text), schedule).value.fan.response.Some?
    ensures var out := R.After(sys, ClustersWork(names, env, text), schedule).value.fan.response.value;
      |out| == |names| && forall i | 0 <= i < |names| :: H.Reports(names[i], env(names[i]), out[i])
  {
    var w := ClustersWork(names, env, text);
    var s := R.After(sys, w, schedule).value;
    ClustersRequest(sys, names, env, text, schedule);
    R.ReachableInvs(sys, w, schedule);
    forall i | 0 <= i < |names| ensures ReadsOf(s.cache.pcs, i, env(names[i]), text) == env(names[i]) {
      NoFailure(sys, s.cache, 2 * i);
      NoFailure(sys, s.cache, 2 * i + 1);
    }
  }

  lemma NoFailure(sys: C.System, s: C.State, c: nat)
    requires C.Inv(sys, s) && sys.configured && c < |sys.calls|
    requires sys.calls[c].cluster in sys.configs && sys.calls[c].buildError.None?
    ensures R.ResultOf(s.pcs, Some(c)).Some? ==> R.ResultOf(s.pcs, Some(c)).value.Ok?
  {
    if s.pcs[c].Done? {
      C.OutcomeKinds(sys, s, c);
    }
  }
}
