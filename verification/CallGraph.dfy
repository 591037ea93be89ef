/** The backward closure that dot_ecall_graph draws (analyzer/src/graph.cpp). */
module CallGraph {

  /** An ECall or an OCall by its id. */
  datatype Node = E(id: nat) | O(id: nat)

  datatype Edge = Edge(from: Node, to: Node)

  /** Of a call id: how often each call of the other kind was its parent, and each of the same kind
      its predecessor. */
  datatype Data = Data(hasDirect: bool, direct: seq<nat>, hasIndirect: bool, indirect: seq<nat>)

  datatype Graph = Graph(ecalls: seq<Data>, ocalls: seq<Data>)

  predicate AnyPositive(counts: seq<nat>) { exists i :: 0 <= i < |counts| && counts[i] > 0 }

  predicate DataOk(d: Data, nSame: nat, nOther: nat) {
    && |d.direct| == nOther && |d.indirect| == nSame
    && (d.hasDirect <==> AnyPositive(d.direct)) && (d.hasIndirect <==> AnyPositive(d.indirect))
  }

  /** As the loader leaves it: square tables, and a flag is set iff some count is not zero. */
  ghost predicate Valid(g: Graph) {
    && (forall i :: 0 <= i < |g.ecalls| ==> DataOk(g.ecalls[i], |g.ecalls|, |g.ocalls|))
    && (forall i :: 0 <= i < |g.ocalls| ==> DataOk(g.ocalls[i], |g.ocalls|, |g.ecalls|))
  }

  predicate Exists(g: Graph, v: Node) { v.id < if v.E? then |g.ecalls| else |g.ocalls| }

  function At(g: Graph, v: Node): Data
    requires Exists(g, v)
  {
    if v.E? then g.ecalls[v.id] else g.ocalls[v.id]
  }

  /** The count on the edge from u to v. */
  predicate IsEdge(g: Graph, e: Edge) {
    && Exists(g, e.from) && Exists(g, e.to)
    && var counts := if e.from.E? == e.to.E? then At(g, e.to).indirect else At(g, e.to).direct;
       e.from.id < |counts| && counts[e.from.id] > 0
  }

  /** v can be reached from start by going backwards along `path`, a list of edges. */
  ghost predicate Path(g: Graph, start: Node, v: Node, path: seq<Node>)
    decreases |path|
  {
    if path == [] then v == start
    else
      var u := path[|path| - 1];
      IsEdge(g, Edge(v, u)) && Path(g, start, u, path[..|path| - 1])
  }

  ghost predicate Reaches(g: Graph, start: Node, v: Node) { exists path :: Path(g, start, v, path) }

  predicate In(v: Node, es: set<nat>, os: set<nat>) { if v.E? then v.id in es else v.id in os }

  lemma ReachStep(g: Graph, start: Node, u: Node, v: Node)
    requires Reaches(g, start, v) && IsEdge(g, Edge(u, v))
    ensures Reaches(g, start, u)
  {
    var path :| Path(g, start, v, path);
    assert (path + [v])[..|path|] == path;
    assert Path(g, start, u, path + [v]);
  }

  /** A set that holds start and is closed under predecessors holds everything reachable. */
  lemma {:induction false} ClosedHolds(g: Graph, start: Node, v: Node, path: seq<Node>, es: set<nat>, os: set<nat>)
    requires Path(g, start, v, path) && In(start, es, os)
    requires forall e :: IsEdge(g, e) && In(e.to, es, os) ==> In(e.from, es, os)
    ensures In(v, es, os)
    decreases |path|
  {
    if path != [] {
      ClosedHolds(g, start, path[|path| - 1], path[..|path| - 1], es, os);
      assert IsEdge(g, Edge(v, path[|path| - 1]));
    }
  }

  // ----- one scan over a vector of counts

  function Of(ecall: bool, i: nat): Node { if ecall then E(i) else O(i) }

  /** The edges the scan writes for the first n counts. */
  function Emit(ecall: bool, counts: seq<nat>, to: Node, n: nat): seq<Edge>
    requires n <= |counts|
  {
    if n == 0 then []
    else if counts[n - 1] == 0 then Emit(ecall, counts, to, n - 1)
    else Emit(ecall, counts, to, n - 1) + [Edge(Of(ecall, n - 1), to)]
  }

  predicate Emitted(ecall: bool, counts: seq<nat>, to: Node, n: nat, e: Edge)
    requires n <= |counts|
  {
    e.to == to && e.from.E? == ecall && e.from.id < n && counts[e.from.id] > 0
  }

  lemma {:induction false} EmitOnce(ecall: bool, counts: seq<nat>, to: Node, n: nat, e: Edge)
    requires n <= |counts|
    ensures multiset(Emit(ecall, counts, to, n))[e] == if Emitted(ecall, counts, to, n, e) then 1 else 0
  {
    if n > 0 {
      EmitOnce(ecall, counts, to, n - 1, e);
      if counts[n - 1] > 0 {
        CountSnoc(Emit(ecall, counts, to, n - 1), Edge(Of(ecall, n - 1), to), e);
      }
    }
  }

  lemma CountSnoc(s: seq<Edge>, x: Edge, e: Edge)
    ensures multiset(s + [x])[e] == multiset(s)[e] + if e == x then 1 else 0
  {
  }

  /** One of the four inner for loops: write the edges, and queue the parents not done yet. */
  method Scan(ecall: bool, counts: seq<nat>, to: Node, done: set<nat>, todo: set<nat>, out: seq<Edge>)
    returns (todo': set<nat>, out': seq<Edge>)
    ensures out' == out + Emit(ecall, counts, to, |counts|)
    ensures forall i: nat :: i in todo' <==> i in todo || (i < |counts| && counts[i] > 0 && i !in done)
  {
    todo', out' := todo, out;
    for i := 0 to |counts|
      invariant out' == out + Emit(ecall, counts, to, i)
      invariant forall k: nat :: k in todo' <==> k in todo || (k < i && counts[k] > 0 && k !in done)
    {
      if counts[i] == 0 { continue; }
      out' := out' + [Edge(Of(ecall, i), to)];
      if i !in done {
        todo' := todo' + {i};
      }
    }
  }

  // ----- the loops

  /** What the two loops keep. */
  ghost predicate Sets(g: Graph, start: Node, doneE: set<nat>, doneO: set<nat>, todoE: set<nat>, todoO: set<nat>) {
    && (In(start, doneE, doneO) || In(start, todoE, todoO))
    && (forall v :: In(v, doneE, doneO) || In(v, todoE, todoO) ==> Exists(g, v) && Reaches(g, start, v))
    && (forall v :: !(In(v, doneE, doneO) && In(v, todoE, todoO)))
    && (forall e :: IsEdge(g, e) && In(e.to, doneE, doneO) ==> In(e.from, doneE, doneO) || In(e.from, todoE, todoO))
  }

  /** Exactly the edges into done nodes are written, each once. */
  ghost predicate Written(g: Graph, doneE: set<nat>, doneO: set<nat>, out: seq<Edge>) {
    forall e :: multiset(out)[e] == if IsEdge(g, e) && In(e.to, doneE, doneO) then 1 else 0
  }

  /** The edges written when node v is processed. */
  function EdgesInto(g: Graph, v: Node): seq<Edge>
    requires Exists(g, v)
  {
    var d := At(g, v);
    Emit(v.E?, d.indirect, v, |d.indirect|) + Emit(!v.E?, d.direct, v, |d.direct|)
  }

  lemma EdgesIntoOnce(g: Graph, v: Node, e: Edge)
    requires Valid(g) && Exists(g, v)
    ensures multiset(EdgesInto(g, v))[e] == if IsEdge(g, e) && e.to == v then 1 else 0
  {
    var d := At(g, v);
    assert DataOk(d, if v.E? then |g.ecalls| else |g.ocalls|, if v.E? then |g.ocalls| else |g.ecalls|);
    var same, other := Emit(v.E?, d.indirect, v, |d.indirect|), Emit(!v.E?, d.direct, v, |d.direct|);
    EmitOnce(v.E?, d.indirect, v, |d.indirect|, e);
    EmitOnce(!v.E?, d.direct, v, |d.direct|, e);
    assert multiset(same + other) == multiset(same) + multiset(other);
  }

  lemma WrittenStep(g: Graph, v: Node, doneE: set<nat>, doneO: set<nat>, out: seq<Edge>, doneE': set<nat>,
                    doneO': set<nat>)
    requires Valid(g) && Exists(g, v) && !In(v, doneE, doneO) && Written(g, doneE, doneO, out)
    requires doneE' == (if v.E? then doneE + {v.id} else doneE) && doneO' == (if v.E? then doneO else doneO + {v.id})
    ensures Written(g, doneE', doneO', out + EdgesInto(g, v))
  {
    forall e
      ensures multiset(out + EdgesInto(g, v))[e] == if IsEdge(g, e) && In(e.to, doneE', doneO') then 1 else 0
    {
      EdgesIntoOnce(g, v, e);
      assert multiset(out + EdgesInto(g, v)) == multiset(out) + multiset(EdgesInto(g, v));
    }
  }

  /** A node without parents has no edges, so skipping it writes all there is. */
  lemma {:induction false} EmitNothing(ecall: bool, counts: seq<nat>, to: Node, n: nat)
    requires n <= |counts| && !AnyPositive(counts)
    ensures Emit(ecall, counts, to, n) == []
  {
    if n > 0 { EmitNothing(ecall, counts, to, n - 1); }
  }

  lemma NoEdges(g: Graph, v: Node)
    requires Valid(g) && Exists(g, v) && !At(g, v).hasDirect && !At(g, v).hasIndirect
    ensures EdgesInto(g, v) == []
  {
    var d := At(g, v);
    assert DataOk(d, |d.indirect|, |d.direct|);
    EmitNothing(v.E?, d.indirect, v, |d.indirect|);
    EmitNothing(!v.E?, d.direct, v, |d.direct|);
  }

  lemma NoParents(d: Data, nSame: nat, nOther: nat)
    requires DataOk(d, nSame, nOther) && !d.hasDirect && !d.hasIndirect
    ensures forall i :: 0 <= i < |d.direct| ==> d.direct[i] == 0
    ensures forall i :: 0 <= i < |d.indirect| ==> d.indirect[i] == 0
  {
  }

  lemma Concat3(a: seq<Edge>, b: seq<Edge>, c: seq<Edge>)
    ensures (a + b) + c == a + (b + c)
  {
  }

  /** Processing v: it moves from todo to done and its parents that are not done are queued. */
  lemma SetsStep(g: Graph, start: Node, v: Node, doneE: set<nat>, doneO: set<nat>, todoE: set<nat>, todoO: set<nat>,
                 doneE': set<nat>, doneO': set<nat>, todoE': set<nat>, todoO': set<nat>)
    requires Valid(g) && Sets(g, start, doneE, doneO, todoE, todoO) && In(v, todoE, todoO)
    requires forall w :: In(w, doneE', doneO') <==> In(w, doneE, doneO) || w == v
    requires forall w :: In(w, todoE', todoO') <==>
               w != v && (In(w, todoE, todoO) || (IsEdge(g, Edge(w, v)) && !In(w, doneE, doneO)))
    ensures Sets(g, start, doneE', doneO', todoE', todoO')
  {
    forall w | In(w, doneE', doneO') || In(w, todoE', todoO')
      ensures Exists(g, w) && Reaches(g, start, w)
    {
      if IsEdge(g, Edge(w, v)) { ReachStep(g, start, w, v); }
    }
    forall e | IsEdge(g, e) && In(e.to, doneE', doneO')
      ensures In(e.from, doneE', doneO') || In(e.from, todoE', todoO')
    {
      assert e == Edge(e.from, e.to);
    }
  }

  lemma {:induction false} Least(s: set<nat>) returns (m: nat)
    requires s != {}
    ensures m in s && forall x :: x in s ==> m <= x
    decreases s
  {
    m :| m in s;
    if s != {m} {
      var r := s - {m};
      var x := Least(r);
      assert forall y :: y in s ==> y == m || y in r;
      if x < m { m := x; }
    }
  }

  function Ids(n: nat): (s: set<nat>)
    ensures forall i: nat :: i in s <==> i < n
  {
    if n == 0 then {} else Ids(n - 1) + {n - 1}
  }

  lemma SetsStepE(g: Graph, start: Node, id: nat, doneE: set<nat>, doneO: set<nat>, todoE: set<nat>, todoO: set<nat>,
                  todoE': set<nat>, todoO': set<nat>)
    requires Valid(g) && Sets(g, start, doneE, doneO, todoE, todoO) && id in todoE && id < |g.ecalls|
    requires var d := g.ecalls[id];
             && (forall i: nat :: i in todoE' <==> i in todoE || (i < |d.indirect| && d.indirect[i] > 0 && i !in doneE))
             && (forall i: nat :: i in todoO' <==> i in todoO || (i < |d.direct| && d.direct[i] > 0 && i !in doneO))
    ensures Sets(g, start, doneE + {id}, doneO, todoE' - {id}, todoO')
  {
    assert Exists(g, E(id));
    SetsStep(g, start, E(id), doneE, doneO, todoE, todoO, doneE + {id}, doneO, todoE' - {id}, todoO');
  }

  lemma SetsStepO(g: Graph, start: Node, id: nat, doneE: set<nat>, doneO: set<nat>, todoE: set<nat>, todoO: set<nat>,
                  todoE': set<nat>, todoO': set<nat>)
    requires Valid(g) && Sets(g, start, doneE, doneO, todoE, todoO) && id in todoO && id < |g.ocalls|
    requires var d := g.ocalls[id];
             && (forall i: nat :: i in todoO' <==> i in todoO || (i < |d.indirect| && d.indirect[i] > 0 && i !in doneO))
             && (forall i: nat :: i in todoE' <==> i in todoE || (i < |d.direct| && d.direct[i] > 0 && i !in doneE))
    ensures Sets(g, start, doneE, doneO + {id}, todoE', todoO' - {id})
  {
    assert Exists(g, O(id));
    SetsStep(g, start, O(id), doneE, doneO, todoE, todoO, doneE, doneO + {id}, todoE', todoO' - {id});
  }

  /** When nothing is left to do, done is the backward closure. */
  lemma AllDone(g: Graph, start: Node, doneE: set<nat>, doneO: set<nat>)
    requires Sets(g, start, doneE, doneO, {}, {})
    ensures forall v :: In(v, doneE, doneO) <==> Reaches(g, start, v)
  {
    forall v | Reaches(g, start, v) ensures In(v, doneE, doneO) {
      var path :| Path(g, start, v, path);
      ClosedHolds(g, start, v, path, doneE, doneO);
    }
  }

  lemma InRange(g: Graph, start: Node, doneE: set<nat>, doneO: set<nat>, todoE: set<nat>, todoO: set<nat>)
    requires Sets(g, start, doneE, doneO, todoE, todoO)
    ensures forall i: nat :: i in todoE ==> i < |g.ecalls| && i !in doneE
    ensures forall i: nat :: i in todoO ==> i < |g.ocalls| && i !in doneO
  {
    forall i: nat | i in todoE ensures i < |g.ecalls| && i !in doneE { assert In(E(i), todoE, todoO); }
    forall i: nat | i in todoO ensures i < |g.ocalls| && i !in doneO { assert In(O(i), todoE, todoO); }
  }

  /** One pass of the inner loop: OCall id is worked off. */
  method VisitOcall(g: Graph, ghost start: Node, id: nat, doneE: set<nat>, doneO: set<nat>, todoE: set<nat>,
                    todoO: set<nat>, out: seq<Edge>)
    returns (todoE': set<nat>, todoO': set<nat>, out': seq<Edge>)
    requires Valid(g) && Sets(g, start, doneE, doneO, todoE, todoO) && id in todoO && id < |g.ocalls| && id !in doneO
    ensures Sets(g, start, doneE, doneO + {id}, todoE', todoO')
    ensures out' == out + EdgesInto(g, O(id))
  {
    var d := g.ocalls[id];
    todoE', todoO', out' := todoE, todoO, out;
    if !d.hasIndirect && !d.hasDirect {
      NoEdges(g, O(id));
      NoParents(d, |g.ocalls|, |g.ecalls|);
    } else {
      todoO', out' := Scan(false, d.indirect, O(id), doneO, todoO', out');
      todoE', out' := Scan(true, d.direct, O(id), doneE, todoE', out');
      Concat3(out, Emit(false, d.indirect, O(id), |d.indirect|), Emit(true, d.direct, O(id), |d.direct|));
    }
    SetsStepO(g, start, id, doneE, doneO, todoE, todoO, todoE', todoO');
    todoO' := todoO' - {id};
  }

  /** The first part of a pass of the outer loop: ECall id is worked off. */
  method VisitEcall(g: Graph, ghost start: Node, id: nat, doneE: set<nat>, doneO: set<nat>, todoE: set<nat>,
                    todoO: set<nat>, out: seq<Edge>)
    returns (todoE': set<nat>, todoO': set<nat>, out': seq<Edge>)
    requires Valid(g) && Sets(g, start, doneE, doneO, todoE, todoO) && id in todoE && id < |g.ecalls| && id !in doneE
    ensures Sets(g, start, doneE + {id}, doneO, todoE', todoO')
    ensures out' == out + EdgesInto(g, E(id))
  {
    var d := g.ecalls[id];
    todoE', todoO', out' := todoE, todoO, out;
    if !d.hasIndirect && !d.hasDirect {
      NoEdges(g, E(id));
      NoParents(d, |g.ecalls|, |g.ocalls|);
    } else {
      todoE', out' := Scan(true, d.indirect, E(id), doneE, todoE', out');
      todoO', out' := Scan(false, d.direct, E(id), doneO, todoO', out');
      Concat3(out, Emit(true, d.indirect, E(id), |d.indirect|), Emit(false, d.direct, E(id), |d.direct|));
    }
    SetsStepE(g, start, id, doneE, doneO, todoE, todoO, todoE', todoO');
    todoE' := todoE' - {id};
  }

  /** The inner loop: works off the queued OCalls, possibly queueing further ECalls. */
  method DrainOcalls(g: Graph, ghost start: Node, doneE: set<nat>, doneO: set<nat>, todoE: set<nat>, todoO: set<nat>,
                     out: seq<Edge>)
    returns (doneO': set<nat>, todoE': set<nat>, out': seq<Edge>)
    requires Valid(g) && Sets(g, start, doneE, doneO, todoE, todoO) && Written(g, doneE, doneO, out)
    ensures Sets(g, start, doneE, doneO', todoE', {}) && Written(g, doneE, doneO', out')
  {
    doneO', todoE', out' := doneO, todoE, out;
    var todo := todoO;
    ghost var all := Ids(|g.ocalls|);
    while todo != {}
      invariant Sets(g, start, doneE, doneO', todoE', todo) && Written(g, doneE, doneO', out')
      decreases all - doneO'
    {
      InRange(g, start, doneE, doneO', todoE', todo);
      ghost var m := Least(todo);
      var id :| id in todo && forall x :: x in todo ==> id <= x;
      WrittenStep(g, O(id), doneE, doneO', out', doneE, doneO' + {id});
      todoE', todo, out' := VisitOcall(g, start, id, doneE, doneO', todoE', todo, out');
      doneO' := doneO' + {id};
    }
  }

  /** dot_ecall_graph: it terminates, its done sets are exactly the calls backward-reachable from the
      start over non-zero counts, and each edge into a done node is written exactly once. */
  method DotEcallGraph(g: Graph, startId: nat) returns (doneE: set<nat>, doneO: set<nat>, out: seq<Edge>)
    requires Valid(g) && startId < |g.ecalls|
    ensures forall v :: In(v, doneE, doneO) <==> Reaches(g, E(startId), v)
    ensures forall e :: multiset(out)[e] == if IsEdge(g, e) && Reaches(g, E(startId), e.to) then 1 else 0
  {
    doneE, doneO, out := {}, {}, [];
    var todoE: set<nat> := {startId};
    ghost var start := E(startId);
    ghost var all := Ids(|g.ecalls|);
    assert Path(g, start, start, []);
    while todoE != {}
      invariant Sets(g, start, doneE, doneO, todoE, {}) && Written(g, doneE, doneO, out)
      decreases all - doneE
    {
      InRange(g, start, doneE, doneO, todoE, {});
      ghost var m := Least(todoE);
      var id :| id in todoE && forall x :: x in todoE ==> id <= x;
      WrittenStep(g, E(id), doneE, doneO, out, doneE + {id}, doneO);
      var todoO: set<nat>;
      todoE, todoO, out := VisitEcall(g, start, id, doneE, doneO, todoE, {}, out);
      doneE := doneE + {id};
      doneO, todoE, out := DrainOcalls(g, start, doneE, doneO, todoE, todoO, out);
    }
    AllDone(g, start, doneE, doneO);
  }
}
