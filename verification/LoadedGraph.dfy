/** The tables call_data_callback leaves are the graph dot_ecall_graph walks
    (analyzer/src/calls.cpp, analyzer/src/graph.cpp). */
module LoadedGraph {
  import opened Forest
  import opened CallCounters
  import opened CallLoader
  import G = CallGraph

  function Counts(ps: seq<Pair>): (r: seq<nat>)
    ensures |r| == |ps| && forall i :: 0 <= i < |ps| ==> r[i] == ps[i].count
  {
    seq(|ps|, i requires 0 <= i < |ps| => ps[i].count)
  }

  function DataOf(cd: CallData): G.Data { G.Data(cd.hasDirect, Counts(cd.direct), cd.hasIndirect, Counts(cd.indirect)) }

  function Table(cds: seq<CallData>): (r: seq<G.Data>)
    ensures |r| == |cds| && forall i :: 0 <= i < |cds| ==> r[i] == DataOf(cds[i])
  {
    seq(|cds|, i requires 0 <= i < |cds| => DataOf(cds[i]))
  }

  function GraphOf(ecalls: seq<CallData>, ocalls: seq<CallData>): G.Graph { G.Graph(Table(ecalls), Table(ocalls)) }

  lemma {:induction false} SumPositive(ps: seq<Pair>)
    ensures Sum(ps) > 0 <==> G.AnyPositive(Counts(ps))
  {
    if ps != [] {
      var n := |ps| - 1;
      SumPositive(ps[..n]);
      assert Counts(ps)[n] == ps[n].count;
      if i :| 0 <= i < n && Counts(ps[..n])[i] > 0 { assert Counts(ps)[i] > 0; }
      if i :| 0 <= i < n && Counts(ps)[i] > 0 { assert Counts(ps[..n])[i] > 0; }
    }
  }

  /** Whatever was loaded, a flag is set if and only if some count behind it is not zero, so the
      graph drawn from the tables has every edge that was counted. */
  lemma LoadedIsValid(ecalls: seq<CallData>, ocalls: seq<CallData>, threads: seq<seq<Call>>, capacity: seq<nat>)
    requires AllOk(ecalls, ocalls, threads, capacity)
    ensures G.Valid(GraphOf(ecalls, ocalls))
  {
    forall i | 0 <= i < |ecalls| ensures G.DataOk(Table(ecalls)[i], |ecalls|, |ocalls|) {
      assert EntryOk(ecalls, ECALL, |ocalls|, threads, i);
      SumPositive(ecalls[i].direct);
      SumPositive(ecalls[i].indirect);
    }
    forall i | 0 <= i < |ocalls| ensures G.DataOk(Table(ocalls)[i], |ocalls|, |ecalls|) {
      assert EntryOk(ocalls, OCALL, |ecalls|, threads, i);
      SumPositive(ocalls[i].direct);
      SumPositive(ocalls[i].indirect);
    }
  }

  function KindOf(v: G.Node): Kind { if v.E? then ECALL else OCALL }

  /** The calls of `to` that had a call of `from` as their parent, or as the call of the same kind
      before them on their level. */
  function EdgeQuery(from: G.Node, to: G.Node): Query {
    if from.E? == to.E? then LaterThan(KindOf(to), to.id, from.id) else NestedIn(KindOf(to), to.id, from.id)
  }

  /** What an edge means: there is such a call. */
  lemma EdgeMeans(ecalls: seq<CallData>, ocalls: seq<CallData>, threads: seq<seq<Call>>, capacity: seq<nat>,
                  from: G.Node, to: G.Node)
    requires AllOk(ecalls, ocalls, threads, capacity)
    requires var g := GraphOf(ecalls, ocalls); G.Exists(g, from) && G.Exists(g, to)
    ensures G.IsEdge(GraphOf(ecalls, ocalls), G.Edge(from, to)) <==> Total(EdgeQuery(from, to), threads) > 0
  {
    var cds, other := if to.E? then ecalls else ocalls, if to.E? then |ocalls| else |ecalls|;
    assert EntryOk(cds, KindOf(to), other, threads, to.id);
    if from.E? == to.E? {
      assert IndirectPairOk(cds[to.id].indirect[from.id], KindOf(to), to.id, from.id, threads);
    } else {
      assert DirectPairOk(cds[to.id].direct[from.id], KindOf(to), to.id, from.id, threads);
    }
  }
}
