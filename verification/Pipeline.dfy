/** The tools in sequence: the queues of a finalized log are flushed to the database, the call query is
    run over it, its rows are loaded, and the graph of an ECall is drawn (logger/src/store.cpp,
    analyzer/src/calls.cpp, analyzer/src/graph.cpp). */
module Pipeline {
  import opened Forest
  import opened Options
  import opened CallCounters
  import opened EventLog
  import opened EventRuns
  import opened EndToEnd
  import opened LoadedGraph
  import G = CallGraph
  import L = CallLoader
  import Q = QueryOrders
  import S = Serialiser

  /** The forests the log describes, one for each thread. */
  ghost function Forests(log: Log, ids: seq<Option<nat>>): (r: seq<seq<Call>>)
    ensures |r| == |log.threads| && forall t :: 0 <= t < |r| ==> r[t] == ForestOf(log, ids, t)
  {
    seq(|log.threads|, t requires 0 <= t < |log.threads| => ForestOf(log, ids, t))
  }

  // ----- edges told from the forests

  predicate InTables(nEcalls: nat, nOcalls: nat, v: G.Node) { v.id < if v.E? then nEcalls else nOcalls }

  /** Some recorded call of `to` had a call of `from` as its parent, or as the call of the same kind
      before it under the same parent. */
  predicate Follows(fs: seq<seq<Call>>, nEcalls: nat, nOcalls: nat, e: G.Edge) {
    && InTables(nEcalls, nOcalls, e.from) && InTables(nEcalls, nOcalls, e.to)
    && Total(EdgeQuery(e.from, e.to), fs) > 0
  }

  /** Going back from start along recorded edges. */
  ghost predicate Back(fs: seq<seq<Call>>, nEcalls: nat, nOcalls: nat, start: G.Node, v: G.Node, path: seq<G.Node>)
    decreases |path|
  {
    if path == [] then v == start
    else
      var u := path[|path| - 1];
      && Follows(fs, nEcalls, nOcalls, G.Edge(v, u))
      && Back(fs, nEcalls, nOcalls, start, u, path[..|path| - 1])
  }

  ghost predicate LeadsTo(fs: seq<seq<Call>>, nEcalls: nat, nOcalls: nat, start: G.Node, v: G.Node) {
    exists path :: Back(fs, nEcalls, nOcalls, start, v, path)
  }

  lemma FollowsIsEdge(es: seq<CallData>, os: seq<CallData>, fs: seq<seq<Call>>, capacity: seq<nat>, e: G.Edge)
    requires L.AllOk(es, os, fs, capacity)
    ensures G.IsEdge(GraphOf(es, os), e) <==> Follows(fs, |es|, |os|, e)
  {
    if InTables(|es|, |os|, e.from) && InTables(|es|, |os|, e.to) { EdgeMeans(es, os, fs, capacity, e.from, e.to); }
  }

  lemma {:induction false} BackIsPath(es: seq<CallData>, os: seq<CallData>, fs: seq<seq<Call>>, capacity: seq<nat>,
                                      start: G.Node, v: G.Node, path: seq<G.Node>)
    requires L.AllOk(es, os, fs, capacity)
    ensures G.Path(GraphOf(es, os), start, v, path) <==> Back(fs, |es|, |os|, start, v, path)
    decreases |path|
  {
    if path != [] {
      var u := path[|path| - 1];
      FollowsIsEdge(es, os, fs, capacity, G.Edge(v, u));
      BackIsPath(es, os, fs, capacity, start, u, path[..|path| - 1]);
    }
  }

  lemma LeadsIsReaches(es: seq<CallData>, os: seq<CallData>, fs: seq<seq<Call>>, capacity: seq<nat>,
                       start: G.Node, v: G.Node)
    requires L.AllOk(es, os, fs, capacity)
    ensures G.Reaches(GraphOf(es, os), start, v) <==> LeadsTo(fs, |es|, |os|, start, v)
  {
    forall path: seq<G.Node>
      ensures G.Path(GraphOf(es, os), start, v, path) <==> Back(fs, |es|, |os|, start, v, path)
    {
      BackIsPath(es, os, fs, capacity, start, v, path);
    }
  }

  /** The drawing is exact: each recorded edge into what leads to the start is there once, and nothing
      else. */
  ghost predicate Drawn(fs: seq<seq<Call>>, nEcalls: nat, nOcalls: nat, startId: nat, out: seq<G.Edge>) {
    forall e :: multiset(out)[e] ==
      if Follows(fs, nEcalls, nOcalls, e) && LeadsTo(fs, nEcalls, nOcalls, G.E(startId), e.to) then 1 else 0
  }

  // ----- the tools

  /** The flush at the end of a run. */
  method Store(log: Log, order: seq<nat>, enclaves: seq<S.Enclave>) returns (ids: seq<Option<nat>>, rows: seq<S.Row>)
    requires Inv(log) && (forall k :: 0 <= k < |order| ==> order[k] < |log.threads|)
    requires forall t :: 0 <= t < |log.threads| ==> t in order
    ensures S.Complete(log.events, enclaves, ids, rows)
  {
    FlushReady(log, order);
    var db := new S.Database(log.events, enclaves);
    db.Flush(Queues(log, order));
    ids, rows := db.sqlId, db.rows;
  }

  /** The analyzer on a complete database, with the rows in any order the query may return. */
  method Analyze(log: Log, ghost enclaves: seq<S.Enclave>, ghost ids: seq<Option<nat>>, rows: seq<S.Row>,
                 perm: seq<nat>, nEcalls: nat, nOcalls: nat)
    returns (ecalls: seq<CallData>, ocalls: seq<CallData>, threads: seq<seq<Call>>)
    requires Readable(log, enclaves, ids, rows, perm, nEcalls, nOcalls)
    ensures threads == Forests(log, ids) && |ecalls| == nEcalls && |ocalls| == nOcalls
    ensures L.AllOk(ecalls, ocalls, threads, Allocation(log, rows))
  {
    Q.AllRecovered(log, enclaves, ids, rows, perm, nEcalls, nOcalls);
    var loader := new L.Loader(nEcalls, nOcalls, Allocation(log, rows));
    assert loader.threads == Empty(|log.threads|);
    loader.Load(Result(log.events, rows, perm));
    ecalls, ocalls, threads := loader.ecalls, loader.ocalls, loader.threads;
  }

  method Draw(ecalls: seq<CallData>, ocalls: seq<CallData>, ghost threads: seq<seq<Call>>, ghost capacity: seq<nat>,
              startId: nat) returns (out: seq<G.Edge>)
    requires L.AllOk(ecalls, ocalls, threads, capacity) && startId < |ecalls|
    ensures Drawn(threads, |ecalls|, |ocalls|, startId, out)
  {
    LoadedIsValid(ecalls, ocalls, threads, capacity);
    var doneE, doneO;
    doneE, doneO, out := G.DotEcallGraph(GraphOf(ecalls, ocalls), startId);
    forall e: G.Edge
      ensures G.IsEdge(GraphOf(ecalls, ocalls), e) <==> Follows(threads, |ecalls|, |ocalls|, e)
      ensures G.Reaches(GraphOf(ecalls, ocalls), G.E(startId), e.to)
              <==> LeadsTo(threads, |ecalls|, |ocalls|, G.E(startId), e.to)
    {
      FollowsIsEdge(ecalls, ocalls, threads, capacity, e);
      LeadsIsReaches(ecalls, ocalls, threads, capacity, G.E(startId), e.to);
    }
  }

  /** From a finalized log to the drawing. Whatever order the threads are flushed in: the loaded threads
      are the recorded forests, all counters are exact for them, and the drawing has exactly the
      recorded edges that lead to the ECall asked for. */
  method RecordToGraph(log: Log, order: seq<nat>, enclaves: seq<S.Enclave>, nEcalls: nat, nOcalls: nat, startId: nat)
    returns (ids: seq<Option<nat>>, rows: seq<S.Row>, ecalls: seq<CallData>, ocalls: seq<CallData>, out: seq<G.Edge>)
    requires Inv(log) && Quiet(log) && DistinctStarts(log.events) && KnownIds(log.events, nEcalls, nOcalls)
    requires (forall k :: 0 <= k < |order| ==> order[k] < |log.threads|)
    requires (forall t :: 0 <= t < |log.threads| ==> t in order) && startId < nEcalls
    ensures S.Complete(log.events, enclaves, ids, rows) && |ecalls| == nEcalls && |ocalls| == nOcalls
    ensures L.AllOk(ecalls, ocalls, Forests(log, ids), Allocation(log, rows))
    ensures Drawn(Forests(log, ids), nEcalls, nOcalls, startId, out)
  {
    ids, rows := Store(log, order, enclaves);
    var perm := Q.OrderBy(log.events, rows);
    Q.OrderByOk(log.events, rows);
    var threads;
    ecalls, ocalls, threads := Analyze(log, enclaves, ids, rows, perm, nEcalls, nOcalls);
    out := Draw(ecalls, ocalls, threads, Allocation(log, rows), startId);
  }
}
