/** From a recorded run to the forest the analyzer rebuilds: the database written by the logger,
    the analyzer's query over it, and the rows loaded in the query's order. */
module EndToEnd {
  import opened Forest
  import opened Options
  import opened EventLog
  import opened EventRuns
  import opened Recorded
  import A = CallTraces
  import T = EventTimes
  import C = CallCounters
  import S = Serialiser
  import L = CallLoader

  // ----- the call query (analyzer/src/calls.cpp:760)

  /** Row k is a return row that joins with the row its call_event column names. */
  predicate Joins(events: seq<Ev>, rows: seq<S.Row>, k: nat) {
    && k < |rows| && rows[k].ev < |events| && events[rows[k].ev].RetEv?
    && rows[k].callEvent.Some? && 1 <= rows[k].callEvent.value <= |rows|
    && rows[rows[k].callEvent.value - 1].ev < |events|
    && events[rows[rows[k].callEvent.value - 1].ev].CallEv?
  }

  /** The columns the query selects for return row k. */
  function Join(events: seq<Ev>, rows: seq<S.Row>, k: nat): L.Row
    requires Joins(events, rows, k)
  {
    var e := events[rows[k].ev];
    var id := rows[k].callEvent.value;
    var s := events[rows[id - 1].ev];
    L.Row(id, e.kind, s.thread, s.callId, rows[id - 1].callEvent, s.time, e.time)
  }

  predicate InOrder(a: L.Row, b: L.Row) { a.thread < b.thread || (a.thread == b.thread && a.start <= b.start) }

  /** `perm` lists the joining rows once each, in an order by thread and start time. */
  ghost predicate QueryOrder(events: seq<Ev>, rows: seq<S.Row>, perm: seq<nat>) {
    && (forall i :: 0 <= i < |perm| ==> Joins(events, rows, perm[i]))
    && (forall k :: 0 <= k < |rows| && Joins(events, rows, k) ==> k in perm)
    && (forall i, j :: 0 <= i < j < |perm| ==> perm[i] != perm[j])
    && (forall i, j :: 0 <= i < j < |perm| ==> InOrder(Join(events, rows, perm[i]), Join(events, rows, perm[j])))
  }

  function Result(events: seq<Ev>, rows: seq<S.Row>, perm: seq<nat>): (r: seq<L.Row>)
    requires forall i :: 0 <= i < |perm| ==> Joins(events, rows, perm[i])
    ensures |r| == |perm|
    ensures forall i :: 0 <= i < |perm| ==> r[i] == Join(events, rows, perm[i])
  {
    seq(|perm|, i requires 0 <= i < |perm| => Join(events, rows, perm[i]))
  }

  // ----- the rows stand for the calls

  function IdOf(ids: seq<Option<nat>>, c: nat): nat { if c < |ids| && ids[c].Some? then ids[c].value else 0 }

  /** The row the query should produce for call c. */
  function CallRow(log: Log, ids: seq<Option<nat>>, c: nat): L.Row
    requires c < |log.events| && log.events[c].CallEv?
  {
    var ev := log.events[c];
    L.Row(IdOf(ids, c), ev.kind, ev.thread, ev.callId, if ev.prev.Some? then Some(IdOf(ids, ev.prev.value)) else None,
          ev.time, EndOf(log.events, log.ret, c))
  }

  function Queues(log: Log, order: seq<nat>): (r: seq<seq<nat>>)
    requires forall k :: 0 <= k < |order| ==> order[k] < |log.threads|
    ensures |r| == |order| && forall k :: 0 <= k < |order| ==> r[k] == log.threads[order[k]].queue
  {
    seq(|order|, k requires 0 <= k < |order| => log.threads[order[k]].queue)
  }

  /** The threads' queues, in whatever order the threads are listed, are what the flush asks for:
      every event is in some queue. */
  lemma FlushReady(log: Log, order: seq<nat>)
    requires Inv(log) && (forall k :: 0 <= k < |order| ==> order[k] < |log.threads|)
    requires forall t :: 0 <= t < |log.threads| ==> t in order
    ensures AllRefsOk(log.events)
    ensures var q := Queues(log, order); forall t, k :: 0 <= t < |q| && 0 <= k < |q[t]| ==> q[t][k] < |log.events|
    ensures forall e :: 0 <= e < |log.events| ==> S.InSome(Queues(log, order), e)
  {
    var q := Queues(log, order);
    forall t, k | 0 <= t < |q| && 0 <= k < |q[t]| ensures q[t][k] < |log.events| { assert ThrOk(log, order[t]); }
    forall e | 0 <= e < |log.events| ensures S.InSome(q, e) {
      var t := log.events[e].thread;
      assert t in order;
      var k :| 0 <= k < |order| && order[k] == t;
      assert e in q[k];
    }
  }

  /** A finalized log and its complete database. */
  ghost predicate Stored(log: Log, enclaves: seq<S.Enclave>, ids: seq<Option<nat>>, rows: seq<S.Row>) {
    Inv(log) && Quiet(log) && S.Complete(log.events, enclaves, ids, rows)
  }

  lemma IdsInjective(log: Log, enclaves: seq<S.Enclave>, ids: seq<Option<nat>>, rows: seq<S.Row>, a: nat, b: nat)
    requires Stored(log, enclaves, ids, rows) && a < |log.events| && b < |log.events|
    requires log.events[a].CallEv? && log.events[b].CallEv? && IdOf(ids, a) == IdOf(ids, b)
    ensures a == b && ids[a] == Some(IdOf(ids, a))
  {
    IdRow(log.events, ids, rows, a);
    IdRow(log.events, ids, rows, b);
  }

  lemma IdRow(events: seq<Ev>, ids: seq<Option<nat>>, rows: seq<S.Row>, a: nat)
    requires S.DbOk(events, ids, rows) && a < |ids|
    ensures ids[a].Some? ==> 1 <= ids[a].value <= |rows| && rows[ids[a].value - 1].ev == a
  {
  }

  /** A return row joins with the row of its call, and yields that call's row. */
  lemma JoinIsCall(log: Log, enclaves: seq<S.Enclave>, ids: seq<Option<nat>>, rows: seq<S.Row>, k: nat)
    requires Stored(log, enclaves, ids, rows)
    requires k < |rows| && rows[k].ev < |log.events| && log.events[rows[k].ev].RetEv?
    ensures Joins(log.events, rows, k)
    ensures var c := log.events[rows[k].ev].call;
            c < |log.events| && log.events[c].CallEv? && log.ret[c] == Some(rows[k].ev)
            && Join(log.events, rows, k) == CallRow(log, ids, c)
  {
    var r := rows[k].ev;
    assert S.RowOk(log.events, ids, rows, k);
    assert RefsOk(log.events, r);
    var c := log.events[r].call;
    assert S.Refs(log.events[r])[0] == c;
    var j := ids[c].value - 1;
    assert S.RowOk(log.events, ids, rows, j);
    if log.events[c].prev.Some? { assert S.Refs(log.events[c])[0] == log.events[c].prev.value; }
  }

  function CallAt(events: seq<Ev>, rows: seq<S.Row>, k: nat): nat
    requires Joins(events, rows, k)
  {
    events[rows[k].ev].call
  }

  /** The calls in the order of the query's result. */
  function CallsOf(events: seq<Ev>, rows: seq<S.Row>, perm: seq<nat>): (d: seq<nat>)
    requires forall i :: 0 <= i < |perm| ==> Joins(events, rows, perm[i])
    ensures |d| == |perm|
    ensures forall i :: 0 <= i < |perm| ==> d[i] == CallAt(events, rows, perm[i])
  {
    seq(|perm|, i requires 0 <= i < |perm| => CallAt(events, rows, perm[i]))
  }

  predicate Before(events: seq<Ev>, a: nat, b: nat) { a < |events| && b < |events| && events[a].time < events[b].time }

  /** Calls of one thread start at different times. */
  ghost predicate DistinctStarts(events: seq<Ev>) {
    forall a, b :: 0 <= a < b < |events| && events[a].CallEv? && events[b].CallEv?
                   && events[a].thread == events[b].thread ==>
      events[a].time != events[b].time
  }

  /** Every call is there exactly once, and within a thread in the order of start times. */
  ghost predicate Listing(events: seq<Ev>, d: seq<nat>) {
    && (forall i :: 0 <= i < |d| ==> d[i] < |events| && events[d[i]].CallEv?)
    && (forall c :: 0 <= c < |events| && events[c].CallEv? ==> c in d)
    && (forall i, j :: 0 <= i < j < |d| && events[d[i]].thread == events[d[j]].thread ==> Before(events, d[i], d[j]))
  }

  lemma ListingPair(log: Log, enclaves: seq<S.Enclave>, ids: seq<Option<nat>>, rows: seq<S.Row>, perm: seq<nat>,
                    i: nat, j: nat)
    requires Stored(log, enclaves, ids, rows) && DistinctStarts(log.events) && QueryOrder(log.events, rows, perm)
    requires i < j < |perm|
    ensures var d := CallsOf(log.events, rows, perm);
            && d[i] < |log.events| && d[j] < |log.events| && d[i] != d[j]
            && (log.events[d[i]].thread == log.events[d[j]].thread ==> Before(log.events, d[i], d[j]))
  {
    JoinIsCall(log, enclaves, ids, rows, perm[i]);
    JoinIsCall(log, enclaves, ids, rows, perm[j]);
    assert S.RowOk(log.events, ids, rows, perm[i]) && S.RowOk(log.events, ids, rows, perm[j]);
    assert InOrder(Join(log.events, rows, perm[i]), Join(log.events, rows, perm[j]));
  }

  /** The row that joins with the row of call c. */
  lemma ReturnRow(log: Log, enclaves: seq<S.Enclave>, ids: seq<Option<nat>>, rows: seq<S.Row>, c: nat) returns (k: nat)
    requires Stored(log, enclaves, ids, rows) && c < |log.events| && log.events[c].CallEv?
    ensures Joins(log.events, rows, k) && CallAt(log.events, rows, k) == c
    ensures rows[k].callEvent.Some? && log.events[rows[k].ev].thread == log.events[c].thread
  {
    HasReturn(log, c);
    var r := log.ret[c].value;
    k := ids[r].value - 1;
    assert rows[k].ev == r;
    JoinIsCall(log, enclaves, ids, rows, k);
  }

  lemma ListingCall(log: Log, enclaves: seq<S.Enclave>, ids: seq<Option<nat>>, rows: seq<S.Row>, perm: seq<nat>, c: nat)
    requires Stored(log, enclaves, ids, rows) && QueryOrder(log.events, rows, perm)
    requires c < |log.events| && log.events[c].CallEv?
    ensures c in CallsOf(log.events, rows, perm)
  {
    var k := ReturnRow(log, enclaves, ids, rows, c);
    assert k in perm;
    var i :| 0 <= i < |perm| && perm[i] == k;
    assert CallsOf(log.events, rows, perm)[i] == c;
  }

  lemma IsListing(log: Log, enclaves: seq<S.Enclave>, ids: seq<Option<nat>>, rows: seq<S.Row>, perm: seq<nat>)
    requires Stored(log, enclaves, ids, rows) && DistinctStarts(log.events) && QueryOrder(log.events, rows, perm)
    ensures Listing(log.events, CallsOf(log.events, rows, perm))
  {
    var d := CallsOf(log.events, rows, perm);
    forall i | 0 <= i < |d| ensures d[i] < |log.events| && log.events[d[i]].CallEv? {
      JoinIsCall(log, enclaves, ids, rows, perm[i]);
    }
    forall c | 0 <= c < |log.events| && log.events[c].CallEv? ensures c in d {
      ListingCall(log, enclaves, ids, rows, perm, c);
    }
    forall i, j | 0 <= i < j < |d| && log.events[d[i]].thread == log.events[d[j]].thread
      ensures Before(log.events, d[i], d[j])
    {
      ListingPair(log, enclaves, ids, rows, perm, i, j);
    }
  }

  // ----- within a thread, start order is queue order

  /** The calls of thread t in the result, in order. */
  function Pick(events: seq<Ev>, d: seq<nat>, t: nat): (p: seq<nat>)
    ensures forall x :: x in p ==> x in d && x < |events| && events[x].thread == t
  {
    if d == [] then []
    else
      var n := |d| - 1;
      Pick(events, d[..n], t) + if d[n] < |events| && events[d[n]].thread == t then [d[n]] else []
  }

  predicate Sorted(events: seq<Ev>, s: seq<nat>) { forall i, j :: 0 <= i < j < |s| ==> Before(events, s[i], s[j]) }

  lemma {:induction false} PickAll(events: seq<Ev>, d: seq<nat>, t: nat, x: nat)
    requires x in d && x < |events| && events[x].thread == t
    ensures x in Pick(events, d, t)
  {
    var n := |d| - 1;
    if x in d[..n] { PickAll(events, d[..n], t, x); }
  }

  lemma {:induction false} PickSorted(events: seq<Ev>, d: seq<nat>, t: nat)
    requires forall i, j :: 0 <= i < j < |d| && d[i] < |events| && d[j] < |events|
                            && events[d[i]].thread == events[d[j]].thread ==>
               Before(events, d[i], d[j])
    ensures Sorted(events, Pick(events, d, t))
  {
    if d != [] {
      var n := |d| - 1;
      PickSorted(events, d[..n], t);
      if d[n] < |events| && events[d[n]].thread == t {
        var p := Pick(events, d[..n], t);
        forall i | 0 <= i < |p| ensures Before(events, p[i], d[n]) { assert p[i] in d[..n]; }
        SortedSnoc(events, p, d[n]);
      }
    }
  }

  lemma SortedSnoc(events: seq<Ev>, p: seq<nat>, x: nat)
    requires Sorted(events, p) && forall i :: 0 <= i < |p| ==> Before(events, p[i], x)
    ensures Sorted(events, p + [x])
  {
  }

  lemma {:induction false} PickPrefix(events: seq<Ev>, d: seq<nat>, t: nat, k: nat)
    requires k <= |d|
    ensures Pick(events, d[..k], t) <= Pick(events, d, t)
    decreases |d|
  {
    if k == |d| {
      assert d[..k] == d;
    } else {
      PickPrefix(events, d[..|d| - 1], t, k);
      assert d[..|d| - 1][..k] == d[..k];
    }
  }

  lemma LastEqual(events: seq<Ev>, a: seq<nat>, b: seq<nat>)
    requires Sorted(events, a) && Sorted(events, b) && a != []
    requires forall x :: x in a <==> x in b
    ensures b != [] && a[|a| - 1] == b[|b| - 1]
  {
    var x := a[|a| - 1];
    assert x in b;
    var j :| 0 <= j < |b| && b[j] == x;
    var y := b[|b| - 1];
    assert y in a;
    var i :| 0 <= i < |a| && a[i] == y;
  }

  /** Two sequences sorted strictly by start time with the same elements are the same. */
  lemma {:induction false} SortedUnique(events: seq<Ev>, a: seq<nat>, b: seq<nat>)
    requires Sorted(events, a) && Sorted(events, b)
    requires forall x :: x in a <==> x in b
    ensures a == b
  {
    if b != [] { LastEqual(events, b, a); }
    if a != [] {
      LastEqual(events, a, b);
      var a', b' := a[..|a| - 1], b[..|b| - 1];
      var x := a[|a| - 1];
      assert a == a' + [x] && b == b' + [x];
      assert x !in a' && x !in b';
      forall y ensures y in a' <==> y in b' {
        assert y in a' <==> y in a && y != x;
        assert y in b' <==> y in b && y != x;
      }
      SortedUnique(events, a', b');
    }
  }

  lemma PickIsCalls(log: Log, d: seq<nat>, t: nat)
    requires Inv(log) && DistinctStarts(log.events) && Listing(log.events, d) && t < |log.threads|
    ensures Pick(log.events, d, t) == Calls(log.events, log.threads[t].queue)
  {
    assert ThrOk(log, t);
    var q := log.threads[t].queue;
    var p, cs := Pick(log.events, d, t), Calls(log.events, q);
    PickSorted(log.events, d, t);
    CallsIncreasing(log.events, q);
    CallsSorted(log, t);
    forall x ensures x in p <==> x in cs {
      if x in cs { PickAll(log.events, d, t, x); }
      if x in p {
        assert x in q;
        CallsAll(log.events, q, x);
      }
    }
    SortedUnique(log.events, p, cs);
  }

  lemma CallsSorted(log: Log, t: nat)
    requires Inv(log) && DistinctStarts(log.events) && t < |log.threads|
    ensures Sorted(log.events, Calls(log.events, log.threads[t].queue))
  {
    assert ThrOk(log, t);
    var q := log.threads[t].queue;
    var cs := Calls(log.events, q);
    CallsIncreasing(log.events, q);
    forall i, j | 0 <= i < j < |cs| ensures Before(log.events, cs[i], cs[j]) {
      var a :| 0 <= a < |q| && q[a] == cs[i];
      var b :| 0 <= b < |q| && q[b] == cs[j];
      assert cs[i] < cs[j];
    }
  }

  // ----- loading

  /** The forest thread t recorded, with the ids of the database. */
  ghost function ForestOf(log: Log, ids: seq<Option<nat>>, t: nat): (f: seq<Call>)
    requires t < |log.threads|
  {
    TrueForest(log.events, log.ret, c => IdOf(ids, c), Calls(log.events, log.threads[t].queue))
  }

  /** The next row of a thread becomes the next call of its forest, with the right parent slot. */
  lemma NextCall(log: Log, enclaves: seq<S.Enclave>, ids: seq<Option<nat>>, rows: seq<S.Row>, t: nat, m: nat)
    requires Stored(log, enclaves, ids, rows) && t < |log.threads| && m < |Calls(log.events, log.threads[t].queue)|
    ensures var c := Calls(log.events, log.threads[t].queue)[m];
            var f := ForestOf(log, ids, t);
            L.ToCall(f[..m], CallRow(log, ids, c)) == f[m]
            && (log.events[c].prev.Some? ==> L.SlotOf(f[..m], IdOf(ids, log.events[c].prev.value)).Some?)
  {
    var cs := Calls(log.events, log.threads[t].queue);
    var f := ForestOf(log, ids, t);
    var c := cs[m];
    if log.events[c].prev.Some? {
      var p := log.events[c].prev.value;
      ParentSlot(log, t, m);
      var j := Find(cs, p);
      assert f[..m][j].eventId == IdOf(ids, p);
      var s := L.SlotOf(f[..m], IdOf(ids, p));
      IdsInjective(log, enclaves, ids, rows, cs[s.value], p);
      assert ThrOk(log, t);
      CallsIncreasing(log.events, log.threads[t].queue);
      assert s.value == j;
    }
  }

  lemma NextFits(log: Log, ids: seq<Option<nat>>, t: nat, m: nat)
    requires Inv(log) && t < |log.threads| && m < |Calls(log.events, log.threads[t].queue)|
    ensures var f := ForestOf(log, ids, t); Fits(f[..m], f[m].kind, f[m].parent)
  {
    ThreadForest(log, t, c => IdOf(ids, c));
    NestedFits(ForestOf(log, ids, t), m);
  }

  // ----- the allocation (analyzer/src/calls.cpp:754)

  /** The rows of a thread that name an existing call_event. */
  function Counted(events: seq<Ev>, rows: seq<S.Row>, t: nat): set<nat> {
    set k: nat | k < |rows| && rows[k].callEvent.Some? && rows[k].ev < |events| && events[rows[k].ev].thread == t
  }

  lemma {:induction false} DistinctInSet(s: seq<nat>, x: set<nat>)
    requires forall i, j :: 0 <= i < j < |s| ==> s[i] != s[j]
    requires forall i :: 0 <= i < |s| ==> s[i] in x
    ensures |s| <= |x|
  {
    if s != [] {
      DistinctInSet(s[..|s| - 1], x - {s[|s| - 1]});
    }
  }

  /** Row k is the return row of call c, and the allocation counts it. */
  ghost predicate SlotFor(events: seq<Ev>, rows: seq<S.Row>, t: nat, c: nat, k: nat) {
    Joins(events, rows, k) && CallAt(events, rows, k) == c && k in Counted(events, rows, t)
  }

  lemma SlotOf(log: Log, enclaves: seq<S.Enclave>, ids: seq<Option<nat>>, rows: seq<S.Row>, t: nat, c: nat)
    returns (k: nat)
    requires Stored(log, enclaves, ids, rows) && c < |log.events| && log.events[c].CallEv? && log.events[c].thread == t
    ensures SlotFor(log.events, rows, t, c, k)
  {
    k := ReturnRow(log, enclaves, ids, rows, c);
  }

  lemma {:induction false} SlotsOf(log: Log, enclaves: seq<S.Enclave>, ids: seq<Option<nat>>, rows: seq<S.Row>,
                                   t: nat, cs: seq<nat>)
    returns (ks: seq<nat>)
    requires Stored(log, enclaves, ids, rows)
    requires forall i :: 0 <= i < |cs| ==>
               cs[i] < |log.events| && log.events[cs[i]].CallEv? && log.events[cs[i]].thread == t
    ensures |ks| == |cs| && forall i :: 0 <= i < |ks| ==> SlotFor(log.events, rows, t, cs[i], ks[i])
  {
    ks := [];
    if cs != [] {
      var n := |cs| - 1;
      ks := SlotsOf(log, enclaves, ids, rows, t, cs[..n]);
      var k := SlotOf(log, enclaves, ids, rows, t, cs[n]);
      ks := ks + [k];
    }
  }

  lemma SlotsDistinct(events: seq<Ev>, rows: seq<S.Row>, t: nat, cs: seq<nat>, ks: seq<nat>)
    requires Increasing(cs) && |ks| == |cs| && forall i :: 0 <= i < |ks| ==> SlotFor(events, rows, t, cs[i], ks[i])
    ensures |cs| <= |Counted(events, rows, t)|
  {
    forall i, j | 0 <= i < j < |ks| ensures ks[i] != ks[j] {
      assert SlotFor(events, rows, t, cs[i], ks[i]) && SlotFor(events, rows, t, cs[j], ks[j]);
    }
    DistinctInSet(ks, Counted(events, rows, t));
  }

  /** thread_callback allocates at least as many slots as the thread has calls. */
  lemma EnoughSlots(log: Log, enclaves: seq<S.Enclave>, ids: seq<Option<nat>>, rows: seq<S.Row>, t: nat)
    requires Stored(log, enclaves, ids, rows) && t < |log.threads|
    ensures |Calls(log.events, log.threads[t].queue)| <= |Counted(log.events, rows, t)|
  {
    assert ThrOk(log, t);
    var q := log.threads[t].queue;
    CallsIncreasing(log.events, q);
    var ks := SlotsOf(log, enclaves, ids, rows, t, Calls(log.events, q));
    SlotsDistinct(log.events, rows, t, Calls(log.events, q), ks);
  }

  // ----- the theorem

  /** Call ids are within the tables the analyzer has loaded. */
  ghost predicate KnownIds(events: seq<Ev>, nEcalls: nat, nOcalls: nat) {
    forall c :: 0 <= c < |events| && events[c].CallEv? ==>
      events[c].callId < if events[c].kind == ECALL then nEcalls else nOcalls
  }

  function Empty(n: nat): seq<seq<Call>> { seq(n, _ => []) }

  /** Of thread t's forest, as much is loaded as the first k rows cover. */
  ghost predicate LoadedAt(log: Log, ids: seq<Option<nat>>, d: seq<nat>, k: nat, t: nat, cs: seq<Call>)
    requires k <= |d| && t < |log.threads|
  {
    var m := |Pick(log.events, d[..k], t)|;
    m <= |ForestOf(log, ids, t)| && cs == ForestOf(log, ids, t)[..m]
  }

  ghost predicate Loaded(log: Log, ids: seq<Option<nat>>, d: seq<nat>, k: nat, threads: seq<seq<Call>>) {
    && k <= |d| && |threads| == |log.threads|
    && forall t :: 0 <= t < |threads| ==> LoadedAt(log, ids, d, k, t, threads[t])
  }

  /** Row k belongs to the next call of its thread. */
  lemma NextInThread(log: Log, d: seq<nat>, k: nat)
    requires Inv(log) && DistinctStarts(log.events) && Listing(log.events, d) && k < |d|
    ensures var t := log.events[d[k]].thread;
            t < |log.threads|
            && var m := |Pick(log.events, d[..k], t)|;
               m < |Calls(log.events, log.threads[t].queue)| && Calls(log.events, log.threads[t].queue)[m] == d[k]
  {
    var t := log.events[d[k]].thread;
    PickIsCalls(log, d, t);
    PickPrefix(log.events, d, t, k + 1);
    assert d[..k + 1][..k] == d[..k];
    var m := |Pick(log.events, d[..k], t)|;
    assert Pick(log.events, d[..k + 1], t)[m] == d[k];
  }

  lemma PickNext(events: seq<Ev>, d: seq<nat>, k: nat)
    requires k < |d| && d[k] < |events|
    ensures var t := events[d[k]].thread; |Pick(events, d[..k + 1], t)| == |Pick(events, d[..k], t)| + 1
  {
    assert d[..k + 1][..k] == d[..k];
  }

  lemma NextLoadable(log: Log, enclaves: seq<S.Enclave>, ids: seq<Option<nat>>, rows: seq<S.Row>, t: nat, m: nat)
    requires Stored(log, enclaves, ids, rows) && t < |log.threads| && m < |Calls(log.events, log.threads[t].queue)|
    ensures var f := ForestOf(log, ids, t);
            var row := CallRow(log, ids, Calls(log.events, log.threads[t].queue)[m]);
            L.Loadable(f[..m], row) && L.ToCall(f[..m], row) == f[m]
  {
    NextCall(log, enclaves, ids, rows, t, m);
    NextFits(log, ids, t, m);
  }

  lemma PrefixSnoc(f: seq<Call>, m: nat)
    requires m < |f|
    ensures f[..m] + [f[m]] == f[..m + 1]
  {
  }

  lemma OwnRow(log: Log, ids: seq<Option<nat>>, d: seq<nat>, k: nat, cs: seq<Call>, row: L.Row)
    requires k < |d| && d[k] < |log.events|
    requires var t := log.events[d[k]].thread;
             && t < |log.threads| && LoadedAt(log, ids, d, k, t, cs)
             && |cs| < |ForestOf(log, ids, t)| && L.ToCall(cs, row) == ForestOf(log, ids, t)[|cs|]
    ensures LoadedAt(log, ids, d, k + 1, log.events[d[k]].thread, cs + [L.ToCall(cs, row)])
  {
    PickNext(log.events, d, k);
    PrefixSnoc(ForestOf(log, ids, log.events[d[k]].thread), |cs|);
  }

  lemma OtherRow(log: Log, ids: seq<Option<nat>>, d: seq<nat>, k: nat, t: nat, cs: seq<Call>)
    requires k < |d| && t < |log.threads| && d[k] < |log.events| && log.events[d[k]].thread != t
    requires LoadedAt(log, ids, d, k, t, cs)
    ensures LoadedAt(log, ids, d, k + 1, t, cs)
  {
    assert d[..k + 1][..k] == d[..k];
  }

  lemma LoadedStep(log: Log, ids: seq<Option<nat>>, d: seq<nat>, k: nat, threads: seq<seq<Call>>, row: L.Row)
    requires k < |d| && d[k] < |log.events| && row.thread == log.events[d[k]].thread < |log.threads|
    requires Loaded(log, ids, d, k, threads)
    requires var cs := threads[row.thread];
             |cs| < |ForestOf(log, ids, row.thread)| && L.ToCall(cs, row) == ForestOf(log, ids, row.thread)[|cs|]
    ensures Loaded(log, ids, d, k + 1, L.LoadRow(threads, row))
  {
    var threads' := L.LoadRow(threads, row);
    forall t | 0 <= t < |threads|
      ensures LoadedAt(log, ids, d, k + 1, t, threads'[t])
    {
      if t == row.thread { OwnRow(log, ids, d, k, threads[t], row); } else { OtherRow(log, ids, d, k, t, threads[t]); }
    }
  }

  function Allocation(log: Log, rows: seq<S.Row>): (c: seq<nat>)
    ensures |c| == |log.threads|
    ensures forall t :: 0 <= t < |c| ==> c[t] == |Counted(log.events, rows, t)|
  {
    seq(|log.threads|, t requires 0 <= t < |log.threads| => |Counted(log.events, rows, t)|)
  }

  /** What the analyzer reads from the database of a finished run. */
  ghost predicate Readable(log: Log, enclaves: seq<S.Enclave>, ids: seq<Option<nat>>, rows: seq<S.Row>,
                           perm: seq<nat>, nEcalls: nat, nOcalls: nat) {
    && Stored(log, enclaves, ids, rows) && DistinctStarts(log.events)
    && KnownIds(log.events, nEcalls, nOcalls) && QueryOrder(log.events, rows, perm)
  }

  /** The next row can be loaded and becomes the next call of its thread's forest. */
  lemma NextRow(log: Log, enclaves: seq<S.Enclave>, ids: seq<Option<nat>>, rows: seq<S.Row>,
                perm: seq<nat>, nEcalls: nat, nOcalls: nat, k: nat) returns (t: nat, m: nat)
    requires Readable(log, enclaves, ids, rows, perm, nEcalls, nOcalls) && k < |perm|
    ensures var d := CallsOf(log.events, rows, perm);
            var row := Result(log.events, rows, perm)[k];
            && d[k] < |log.events| && t == row.thread == log.events[d[k]].thread < |log.threads|
            && row.callId < (if row.kind == ECALL then nEcalls else nOcalls)
            && m == |Pick(log.events, d[..k], t)| < |ForestOf(log, ids, t)|
            && L.Loadable(ForestOf(log, ids, t)[..m], row)
            && L.ToCall(ForestOf(log, ids, t)[..m], row) == ForestOf(log, ids, t)[m]
  {
    var d := CallsOf(log.events, rows, perm);
    IsListing(log, enclaves, ids, rows, perm);
    JoinIsCall(log, enclaves, ids, rows, perm[k]);
    NextInThread(log, d, k);
    t := log.events[d[k]].thread;
    m := |Pick(log.events, d[..k], t)|;
    NextLoadable(log, enclaves, ids, rows, t, m);
  }

  lemma RecoverStep(log: Log, enclaves: seq<S.Enclave>, ids: seq<Option<nat>>, rows: seq<S.Row>,
                    perm: seq<nat>, nEcalls: nat, nOcalls: nat, k: nat, threads: seq<seq<Call>>)
    requires Readable(log, enclaves, ids, rows, perm, nEcalls, nOcalls) && k < |perm|
    requires Loaded(log, ids, CallsOf(log.events, rows, perm), k, threads)
    ensures var row := Result(log.events, rows, perm)[k];
            && L.RowOk(threads, Allocation(log, rows), nEcalls, nOcalls, row)
            && Loaded(log, ids, CallsOf(log.events, rows, perm), k + 1, L.LoadRow(threads, row))
  {
    var d := CallsOf(log.events, rows, perm);
    var row := Result(log.events, rows, perm)[k];
    var t, m := NextRow(log, enclaves, ids, rows, perm, nEcalls, nOcalls, k);
    assert LoadedAt(log, ids, d, k, t, threads[t]);
    LoadedStep(log, ids, d, k, threads, row);
    EnoughSlots(log, enclaves, ids, rows, t);
  }

  lemma {:induction false} RecoverPrefix(log: Log, enclaves: seq<S.Enclave>, ids: seq<Option<nat>>, rows: seq<S.Row>,
                                         perm: seq<nat>, nEcalls: nat, nOcalls: nat, k: nat)
    requires Readable(log, enclaves, ids, rows, perm, nEcalls, nOcalls) && k <= |perm|
    ensures var result := Result(log.events, rows, perm)[..k];
            && L.AllRowsOk(Empty(|log.threads|), Allocation(log, rows), nEcalls, nOcalls, result)
            && Loaded(log, ids, CallsOf(log.events, rows, perm), k, L.LoadRows(Empty(|log.threads|), result))
  {
    if k > 0 {
      var all := Result(log.events, rows, perm);
      RecoverPrefix(log, enclaves, ids, rows, perm, nEcalls, nOcalls, k - 1);
      var threads := L.LoadRows(Empty(|log.threads|), all[..k - 1]);
      RecoverStep(log, enclaves, ids, rows, perm, nEcalls, nOcalls, k - 1, threads);
      RowsSnoc(Empty(|log.threads|), Allocation(log, rows), nEcalls, nOcalls, all, k - 1);
    }
  }

  lemma RowsSnoc(threads: seq<seq<Call>>, capacity: seq<nat>, nEcalls: nat, nOcalls: nat, all: seq<L.Row>, k: nat)
    requires k < |all| && L.AllRowsOk(threads, capacity, nEcalls, nOcalls, all[..k])
    requires all[k].thread < |threads| && L.RowOk(L.LoadRows(threads, all[..k]), capacity, nEcalls, nOcalls, all[k])
    ensures L.AllRowsOk(threads, capacity, nEcalls, nOcalls, all[..k + 1])
    ensures L.LoadRows(threads, all[..k + 1]) == L.LoadRow(L.LoadRows(threads, all[..k]), all[k])
  {
    assert all[..k + 1][..k] == all[..k];
  }

  /** End to end. For every finalized log with distinct start times, stored completely, and for
      every order the query may return: each row can be loaded within the allocation, and the
      forest rebuilt for thread t is the nesting the logger recorded. */
  lemma ForestRecovered(log: Log, enclaves: seq<S.Enclave>, ids: seq<Option<nat>>, rows: seq<S.Row>,
                        perm: seq<nat>, nEcalls: nat, nOcalls: nat, t: nat)
    requires Readable(log, enclaves, ids, rows, perm, nEcalls, nOcalls) && t < |log.threads|
    ensures var result := Result(log.events, rows, perm);
            && L.AllRowsOk(Empty(|log.threads|), Allocation(log, rows), nEcalls, nOcalls, result)
            && L.LoadRows(Empty(|log.threads|), result)[t] == ForestOf(log, ids, t)
  {
    var all := Result(log.events, rows, perm);
    var d := CallsOf(log.events, rows, perm);
    RecoverPrefix(log, enclaves, ids, rows, perm, nEcalls, nOcalls, |perm|);
    assert all[..|perm|] == all;
    IsListing(log, enclaves, ids, rows, perm);
    LoadedAll(log, ids, d, L.LoadRows(Empty(|log.threads|), all), t);
  }

  /** When all rows are loaded a thread has its whole forest. */
  lemma LoadedAll(log: Log, ids: seq<Option<nat>>, d: seq<nat>, threads: seq<seq<Call>>, t: nat)
    requires Inv(log) && DistinctStarts(log.events) && Listing(log.events, d) && t < |log.threads|
    requires Loaded(log, ids, d, |d|, threads)
    ensures threads[t] == ForestOf(log, ids, t)
  {
    PickIsCalls(log, d, t);
    assert d[..|d|] == d;
    assert LoadedAt(log, ids, d, |d|, t, threads[t]);
  }

  /** Read off for one call: the loaded slot i of thread t stores the thread's i-th call, and its
      parent slot stores the call that enclosed it. */
  lemma ParentRecovered(log: Log, enclaves: seq<S.Enclave>, ids: seq<Option<nat>>, rows: seq<S.Row>,
                        perm: seq<nat>, nEcalls: nat, nOcalls: nat, t: nat, i: nat)
    requires Readable(log, enclaves, ids, rows, perm, nEcalls, nOcalls) && t < |log.threads|
    requires i < |Calls(log.events, log.threads[t].queue)|
    ensures forall k :: 0 <= k < |perm| ==> Join(log.events, rows, perm[k]).thread < |log.threads|
    ensures var f := L.LoadRows(Empty(|log.threads|), Result(log.events, rows, perm))[t];
            var cs := Calls(log.events, log.threads[t].queue);
            && |f| == |cs| && Some(f[i].eventId) == ids[cs[i]]
            && match log.events[cs[i]].prev
               case None => f[i].parent == None
               case Some(p) => f[i].parent.Some? && f[i].parent.value < i && cs[f[i].parent.value] == p
                               && Some(f[f[i].parent.value].eventId) == ids[p]
  {
    ForestRecovered(log, enclaves, ids, rows, perm, nEcalls, nOcalls, t);
    var cs := Calls(log.events, log.threads[t].queue);
    IdsInjective(log, enclaves, ids, rows, cs[i], cs[i]);
    if log.events[cs[i]].prev.Some? {
      ParentSlot(log, t, i);
      var p := log.events[cs[i]].prev.value;
      assert cs[Find(cs, p)] == p;
      IdsInjective(log, enclaves, ids, rows, p, p);
    }
  }

  /** The log is what some run of n threads left, with every open call closed at time `end`. */
  ghost predicate FinalLog(log: Log, n: nat, acts: seq<Act>, order: seq<nat>, end: nat) {
    && Run(n, acts).Some? && AllBefore(Run(n, acts).value, end)
    && Covers(Run(n, acts).value, order)
    && log == CloseAll(Run(n, acts).value, order, end)
  }

  lemma FinalFacts(log: Log, n: nat, acts: seq<Act>, order: seq<nat>, end: nat)
    requires FinalLog(log, n, acts, order, end)
    ensures Inv(log) && Quiet(log) && |log.threads| == n
    ensures T.SiblingsApart(log) && T.InnerFirst(log) && AllBefore(log, end)
  {
    AllClosed(Run(n, acts).value, order, end);
    var acts' := CloseAllIsRun(n, acts, order, end);
    T.RunApart(n, acts');
  }

  lemma LoadedNoWrap(log: Log, ids: seq<Option<nat>>, t: nat, end: nat)
    requires Inv(log) && Quiet(log) && T.InnerFirst(log) && T.SiblingsApart(log) && t < |log.threads|
    requires AllBefore(log, end) && end < C.U64
    ensures T.NoWrap(ForestOf(log, ids, t))
  {
    T.ForestNoWrap(log, t, c => IdOf(ids, c), end);
  }

  lemma FinalNoWrap(log: Log, n: nat, acts: seq<Act>, order: seq<nat>, end: nat, ids: seq<Option<nat>>, t: nat)
    requires FinalLog(log, n, acts, order, end) && end < C.U64 && t < n
    ensures Inv(log) && Quiet(log) && |log.threads| == n && T.NoWrap(ForestOf(log, ids, t))
  {
    FinalFacts(log, n, acts, order, end);
    LoadedNoWrap(log, ids, t, end);
  }

  /** The forest of the log is the nesting of the thread's own calls and returns. */
  lemma FinalTold(log: Log, n: nat, acts: seq<Act>, order: seq<nat>, end: nat, ids: seq<Option<nat>>, t: nat)
    requires FinalLog(log, n, acts, order, end) && t < n && |log.threads| == n
    ensures A.Unnamed(ForestOf(log, ids, t)) == A.Told(acts, t, end)
  {
    A.ForestTold(n, acts, order, end, t, c => IdOf(ids, c));
  }

  /** The whole chain. Whatever n threads did, and in whatever order finalize closed them: if calls
      of a thread start at different times and the clock fits 64 bits, then for every complete
      database and every order its query may return, loading succeeds, gives each thread exactly the
      forest that was recorded, which is the nesting of the calls and returns it made, and no time
      difference over it wraps. */
  lemma RunRecovered(log: Log, n: nat, acts: seq<Act>, order: seq<nat>, end: nat, enclaves: seq<S.Enclave>,
                     ids: seq<Option<nat>>, rows: seq<S.Row>, perm: seq<nat>, nEcalls: nat, nOcalls: nat, t: nat)
    requires FinalLog(log, n, acts, order, end) && end < C.U64 && t < n
    requires S.Complete(log.events, enclaves, ids, rows) && DistinctStarts(log.events)
    requires KnownIds(log.events, nEcalls, nOcalls) && QueryOrder(log.events, rows, perm)
    ensures var result := Result(log.events, rows, perm);
            && |log.threads| == n && L.AllRowsOk(Empty(n), Allocation(log, rows), nEcalls, nOcalls, result)
            && L.LoadRows(Empty(n), result)[t] == ForestOf(log, ids, t)
            && A.Unnamed(L.LoadRows(Empty(n), result)[t]) == A.Told(acts, t, end)
            && T.NoWrap(L.LoadRows(Empty(n), result)[t])
  {
    FinalNoWrap(log, n, acts, order, end, ids, t);
    ForestRecovered(log, enclaves, ids, rows, perm, nEcalls, nOcalls, t);
    FinalTold(log, n, acts, order, end, ids, t);
  }
}
