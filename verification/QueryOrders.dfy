/** The orders in which the call query may return its rows (analyzer/src/calls.cpp:760): there always is
    one, and all of them rebuild the recorded forest if and only if start times are distinct. */
module QueryOrders {
  import opened Forest
  import opened Options
  import opened EventLog
  import opened EndToEnd
  import S = Serialiser
  import L = CallLoader

  // ----- one such order

  /** The row joined at k, or a row of no call. */
  function RowAt(events: seq<Ev>, rows: seq<S.Row>, k: nat): L.Row {
    if Joins(events, rows, k) then Join(events, rows, k) else L.Row(0, ECALL, 0, 0, None, 0, 0)
  }

  predicate Sorted(rs: seq<L.Row>) { forall i, j :: 0 <= i < j < |rs| ==> InOrder(rs[i], rs[j]) }

  /** Where a row goes among sorted ones. */
  function Position(rs: seq<L.Row>, r: L.Row): (p: nat)
    ensures p <= |rs|
    ensures forall i :: 0 <= i < p ==> !InOrder(r, rs[i])
    ensures p < |rs| ==> InOrder(r, rs[p])
  {
    if rs == [] || InOrder(r, rs[0]) then 0 else 1 + Position(rs[1..], r)
  }

  function InsertAt<T>(s: seq<T>, p: nat, x: T): seq<T>
    requires p <= |s|
  {
    s[..p] + [x] + s[p..]
  }

  lemma SortedInsert(rs: seq<L.Row>, r: L.Row)
    requires Sorted(rs)
    ensures Sorted(InsertAt(rs, Position(rs, r), r))
  {
    var p := Position(rs, r);
    var s := InsertAt(rs, p, r);
    forall i, j | 0 <= i < j < |s| ensures InOrder(s[i], s[j]) {
      if i == p {
        assert s[j] == rs[j - 1] && InOrder(r, rs[p]);
        if j - 1 > p { assert InOrder(rs[p], rs[j - 1]); }
      } else if j == p {
        assert !InOrder(r, rs[i]);
      } else {
        var i', j' := if i < p then i else i - 1, if j < p then j else j - 1;
        assert s[i] == rs[i'] && s[j] == rs[j'];
      }
    }
  }

  function RowsAt(events: seq<Ev>, rows: seq<S.Row>, perm: seq<nat>): (rs: seq<L.Row>)
    ensures |rs| == |perm| && forall i :: 0 <= i < |perm| ==> rs[i] == RowAt(events, rows, perm[i])
  {
    seq(|perm|, i requires 0 <= i < |perm| => RowAt(events, rows, perm[i]))
  }

  /** The joining rows among the first n, by thread and start time. */
  function OrderFirst(events: seq<Ev>, rows: seq<S.Row>, n: nat): seq<nat>
    requires n <= |rows|
  {
    if n == 0 then []
    else
      var perm := OrderFirst(events, rows, n - 1);
      if Joins(events, rows, n - 1) then
        InsertAt(perm, Position(RowsAt(events, rows, perm), RowAt(events, rows, n - 1)), n - 1)
      else perm
  }

  function OrderBy(events: seq<Ev>, rows: seq<S.Row>): seq<nat> { OrderFirst(events, rows, |rows|) }

  lemma InInsert(s: seq<nat>, p: nat, x: nat, y: nat)
    requires p <= |s|
    ensures y in InsertAt(s, p, x) <==> y in s || y == x
  {
    assert s == s[..p] + s[p..];
  }

  lemma DistinctInsert(s: seq<nat>, p: nat, x: nat)
    requires p <= |s| && x !in s && forall i, j :: 0 <= i < j < |s| ==> s[i] != s[j]
    ensures var r := InsertAt(s, p, x); forall i, j :: 0 <= i < j < |r| ==> r[i] != r[j]
  {
  }

  lemma RowsInsert(events: seq<Ev>, rows: seq<S.Row>, perm: seq<nat>, p: nat, k: nat)
    requires p <= |perm|
    ensures RowsAt(events, rows, InsertAt(perm, p, k)) ==
            InsertAt(RowsAt(events, rows, perm), p, RowAt(events, rows, k))
  {
  }

  ghost predicate OrderedFirst(events: seq<Ev>, rows: seq<S.Row>, n: nat, perm: seq<nat>) {
    && (forall k: nat :: k in perm <==> k < n && Joins(events, rows, k))
    && (forall i, j :: 0 <= i < j < |perm| ==> perm[i] != perm[j])
    && Sorted(RowsAt(events, rows, perm))
  }

  lemma {:induction false} OrderFirstOk(events: seq<Ev>, rows: seq<S.Row>, n: nat)
    requires n <= |rows|
    ensures OrderedFirst(events, rows, n, OrderFirst(events, rows, n))
  {
    if n > 0 {
      OrderFirstOk(events, rows, n - 1);
      if Joins(events, rows, n - 1) { OrderNext(events, rows, n - 1, OrderFirst(events, rows, n - 1)); }
    }
  }

  lemma OrderNext(events: seq<Ev>, rows: seq<S.Row>, n: nat, perm: seq<nat>)
    requires OrderedFirst(events, rows, n, perm) && Joins(events, rows, n)
    ensures OrderedFirst(events, rows, n + 1,
                         InsertAt(perm, Position(RowsAt(events, rows, perm), RowAt(events, rows, n)), n))
  {
    var rs := RowsAt(events, rows, perm);
    var p := Position(rs, RowAt(events, rows, n));
    forall k: nat ensures k in InsertAt(perm, p, n) <==> k < n + 1 && Joins(events, rows, k) {
      InInsert(perm, p, n, k);
    }
    DistinctInsert(perm, p, n);
    SortedInsert(rs, RowAt(events, rows, n));
    RowsInsert(events, rows, perm, p, n);
  }

  /** The query always has an order to return. */
  lemma OrderByOk(events: seq<Ev>, rows: seq<S.Row>)
    ensures QueryOrder(events, rows, OrderBy(events, rows))
  {
    OrderFirstOk(events, rows, |rows|);
    var perm := OrderBy(events, rows);
    forall i | 0 <= i < |perm| ensures Joins(events, rows, perm[i]) { assert perm[i] in perm; }
    forall i, j | 0 <= i < j < |perm| ensures InOrder(Join(events, rows, perm[i]), Join(events, rows, perm[j])) {
      var rs := RowsAt(events, rows, perm);
      assert InOrder(rs[i], rs[j]);
    }
  }

  // ----- two calls that start together can be swapped

  function Swap(perm: seq<nat>, i: nat, j: nat): seq<nat>
    requires i < j < |perm|
  {
    perm[i := perm[j]][j := perm[i]]
  }

  predicate SameKey(a: L.Row, b: L.Row) { a.thread == b.thread && a.start == b.start }

  /** At each place the swapped order has a row with the same key as before. */
  lemma SwapKey(events: seq<Ev>, rows: seq<S.Row>, perm: seq<nat>, i: nat, j: nat, p: nat)
    requires i < j < |perm| && p < |perm| && forall k :: 0 <= k < |perm| ==> Joins(events, rows, perm[k])
    requires SameKey(Join(events, rows, perm[i]), Join(events, rows, perm[j]))
    ensures Joins(events, rows, Swap(perm, i, j)[p])
    ensures SameKey(Join(events, rows, Swap(perm, i, j)[p]), Join(events, rows, perm[p]))
  {
  }

  lemma SwapDistinct(perm: seq<nat>, i: nat, j: nat)
    requires i < j < |perm| && forall p, q :: 0 <= p < q < |perm| ==> perm[p] != perm[q]
    ensures forall p, q :: 0 <= p < q < |perm| ==> Swap(perm, i, j)[p] != Swap(perm, i, j)[q]
  {
  }

  lemma SwapOrder(events: seq<Ev>, rows: seq<S.Row>, perm: seq<nat>, i: nat, j: nat)
    requires QueryOrder(events, rows, perm) && i < j < |perm|
    requires SameKey(Join(events, rows, perm[i]), Join(events, rows, perm[j]))
    ensures QueryOrder(events, rows, Swap(perm, i, j))
  {
    var perm' := Swap(perm, i, j);
    SwapDistinct(perm, i, j);
    forall k | k in perm ensures k in perm' { SwapIn(perm, i, j, k); }
    forall p | 0 <= p < |perm'| ensures Joins(events, rows, perm'[p]) { SwapKey(events, rows, perm, i, j, p); }
    forall p, q | 0 <= p < q < |perm'| ensures InOrder(Join(events, rows, perm'[p]), Join(events, rows, perm'[q])) {
      SwapKey(events, rows, perm, i, j, p);
      SwapKey(events, rows, perm, i, j, q);
      assert InOrder(Join(events, rows, perm[p]), Join(events, rows, perm[q]));
    }
  }

  lemma SwapIn(perm: seq<nat>, i: nat, j: nat, k: nat)
    requires i < j < |perm| && k in perm
    ensures k in Swap(perm, i, j)
  {
    var p :| 0 <= p < |perm| && perm[p] == k;
    assert Swap(perm, i, j)[if p == i then j else if p == j then i else p] == k;
  }

  // ----- a row fills the next slot of its thread

  lemma {:induction false} LoadedSlot(threads: seq<seq<Call>>, rows: seq<L.Row>, i: nat)
    requires i < |rows| && forall k :: 0 <= k < |rows| ==> rows[k].thread < |threads|
    ensures var t := rows[i].thread;
            var m := |L.LoadRows(threads, rows[..i])[t]|;
            m < |L.LoadRows(threads, rows)[t]| && L.LoadRows(threads, rows)[t][m].eventId == rows[i].id
    decreases |rows|
  {
    var n := |rows| - 1;
    if i < n {
      LoadedSlot(threads, rows[..n], i);
      assert rows[..n][..i] == rows[..i];
    }
  }

  /** Every row loads, and each thread has its recorded forest. */
  ghost predicate Recovers(log: Log, ids: seq<Option<nat>>, rows: seq<S.Row>, perm: seq<nat>, nEcalls: nat,
                           nOcalls: nat)
    requires forall i :: 0 <= i < |perm| ==> Joins(log.events, rows, perm[i])
  {
    var result := Result(log.events, rows, perm);
    && L.AllRowsOk(Empty(|log.threads|), Allocation(log, rows), nEcalls, nOcalls, result)
    && forall t :: 0 <= t < |log.threads| ==> L.LoadRows(Empty(|log.threads|), result)[t] == ForestOf(log, ids, t)
  }

  /** Two orders that both recover the forest and agree on the first i rows agree on the next one, if
      it is of the same thread. */
  lemma SameNext(log: Log, ids: seq<Option<nat>>, rows: seq<S.Row>, a: seq<nat>, b: seq<nat>, i: nat, nEcalls: nat,
                 nOcalls: nat)
    requires |a| == |b| && i < |a| && a[..i] == b[..i]
    requires forall k :: 0 <= k < |a| ==> Joins(log.events, rows, a[k]) && Joins(log.events, rows, b[k])
    requires Recovers(log, ids, rows, a, nEcalls, nOcalls) && Recovers(log, ids, rows, b, nEcalls, nOcalls)
    requires Join(log.events, rows, a[i]).thread == Join(log.events, rows, b[i]).thread
    ensures Join(log.events, rows, a[i]).id == Join(log.events, rows, b[i]).id
  {
    var ra, rb := Result(log.events, rows, a), Result(log.events, rows, b);
    assert ra[..i] == rb[..i] by { SamePrefix(log.events, rows, a, b, i); }
    LoadedSlot(Empty(|log.threads|), ra, i);
    LoadedSlot(Empty(|log.threads|), rb, i);
  }

  lemma SamePrefix(events: seq<Ev>, rows: seq<S.Row>, a: seq<nat>, b: seq<nat>, i: nat)
    requires |a| == |b| && i <= |a| && a[..i] == b[..i]
    requires forall k :: 0 <= k < |a| ==> Joins(events, rows, a[k]) && Joins(events, rows, b[k])
    ensures Result(events, rows, a)[..i] == Result(events, rows, b)[..i]
  {
    forall k | 0 <= k < i ensures a[k] == b[k] { assert a[..i][k] == b[..i][k]; }
  }

  /** The position of a call in a result. */
  lemma CallPlace(log: Log, enclaves: seq<S.Enclave>, ids: seq<Option<nat>>, rows: seq<S.Row>, perm: seq<nat>, c: nat)
    returns (i: nat)
    requires Stored(log, enclaves, ids, rows) && QueryOrder(log.events, rows, perm)
    requires c < |log.events| && log.events[c].CallEv?
    ensures i < |perm| && Join(log.events, rows, perm[i]) == CallRow(log, ids, c)
  {
    var k := ReturnRow(log, enclaves, ids, rows, c);
    JoinIsCall(log, enclaves, ids, rows, k);
    assert k in perm;
    i :| 0 <= i < |perm| && perm[i] == k;
  }

  lemma SwapSameId(log: Log, ids: seq<Option<nat>>, rows: seq<S.Row>, perm: seq<nat>, i: nat, j: nat,
                   nEcalls: nat, nOcalls: nat)
    requires i < j < |perm| && forall k :: 0 <= k < |perm| ==> Joins(log.events, rows, perm[k])
    requires Join(log.events, rows, perm[i]).thread == Join(log.events, rows, perm[j]).thread
    requires Recovers(log, ids, rows, perm, nEcalls, nOcalls)
    requires forall k :: 0 <= k < |perm| ==> Joins(log.events, rows, Swap(perm, i, j)[k])
    requires Recovers(log, ids, rows, Swap(perm, i, j), nEcalls, nOcalls)
    ensures Join(log.events, rows, perm[i]).id == Join(log.events, rows, perm[j]).id
  {
    assert Swap(perm, i, j)[..i] == perm[..i];
    SameNext(log, ids, rows, perm, Swap(perm, i, j), i, nEcalls, nOcalls);
  }

  /** Of two calls that start together, an order and the swapped one cannot both recover the forest. */
  lemma NotBoth(log: Log, enclaves: seq<S.Enclave>, ids: seq<Option<nat>>, rows: seq<S.Row>,
                perm: seq<nat>, i: nat, j: nat, a: nat, b: nat, nEcalls: nat, nOcalls: nat)
    requires Stored(log, enclaves, ids, rows) && QueryOrder(log.events, rows, perm) && i < j < |perm|
    requires a < |log.events| && log.events[a].CallEv? && b < |log.events| && log.events[b].CallEv? && a != b
    requires Join(log.events, rows, perm[i]) == CallRow(log, ids, a)
    requires Join(log.events, rows, perm[j]) == CallRow(log, ids, b)
    requires log.events[a].thread == log.events[b].thread && log.events[a].time == log.events[b].time
    ensures QueryOrder(log.events, rows, Swap(perm, i, j))
    ensures Recovers(log, ids, rows, perm, nEcalls, nOcalls) ==>
            !Recovers(log, ids, rows, Swap(perm, i, j), nEcalls, nOcalls)
  {
    SwapOrder(log.events, rows, perm, i, j);
    if && Recovers(log, ids, rows, perm, nEcalls, nOcalls)
       && Recovers(log, ids, rows, Swap(perm, i, j), nEcalls, nOcalls)
    {
      SwapSameId(log, ids, rows, perm, i, j, nEcalls, nOcalls);
      IdsInjective(log, enclaves, ids, rows, a, b);
    }
  }

  /** With two calls of a thread that start together, some order the query may return loses the forest. */
  lemma SomeOrderFails(log: Log, enclaves: seq<S.Enclave>, ids: seq<Option<nat>>, rows: seq<S.Row>, nEcalls: nat,
                       nOcalls: nat)
    returns (perm: seq<nat>)
    requires Stored(log, enclaves, ids, rows) && !DistinctStarts(log.events)
    ensures QueryOrder(log.events, rows, perm) && !Recovers(log, ids, rows, perm, nEcalls, nOcalls)
  {
    var a, b :| 0 <= a < b < |log.events| && log.events[a].CallEv? && log.events[b].CallEv?
                && log.events[a].thread == log.events[b].thread && log.events[a].time == log.events[b].time;
    OrderByOk(log.events, rows);
    perm := OrderBy(log.events, rows);
    var i := CallPlace(log, enclaves, ids, rows, perm, a);
    var j := CallPlace(log, enclaves, ids, rows, perm, b);
    if i == j { IdsInjective(log, enclaves, ids, rows, a, b); }
    if Recovers(log, ids, rows, perm, nEcalls, nOcalls) {
      if i < j {
        NotBoth(log, enclaves, ids, rows, perm, i, j, a, b, nEcalls, nOcalls);
        perm := Swap(perm, i, j);
      } else {
        NotBoth(log, enclaves, ids, rows, perm, j, i, b, a, nEcalls, nOcalls);
        perm := Swap(perm, j, i);
      }
    }
  }

  /** Each row that loads has a known id. */
  lemma IdsNeeded(log: Log, enclaves: seq<S.Enclave>, ids: seq<Option<nat>>, rows: seq<S.Row>,
                  perm: seq<nat>, nEcalls: nat, nOcalls: nat)
    requires Stored(log, enclaves, ids, rows) && QueryOrder(log.events, rows, perm)
    requires Recovers(log, ids, rows, perm, nEcalls, nOcalls)
    ensures KnownIds(log.events, nEcalls, nOcalls)
  {
    var result := Result(log.events, rows, perm);
    forall c | 0 <= c < |log.events| && log.events[c].CallEv?
      ensures log.events[c].callId < if log.events[c].kind == ECALL then nEcalls else nOcalls
    {
      var i := CallPlace(log, enclaves, ids, rows, perm, c);
      RowLoads(Empty(|log.threads|), Allocation(log, rows), nEcalls, nOcalls, result, i);
    }
  }

  lemma RowLoads(threads: seq<seq<Call>>, capacity: seq<nat>, nEcalls: nat, nOcalls: nat, rows: seq<L.Row>, i: nat)
    requires L.AllRowsOk(threads, capacity, nEcalls, nOcalls, rows) && i < |rows|
    ensures rows[i].callId < if rows[i].kind == ECALL then nEcalls else nOcalls
  {
    L.RowsPrefix(threads, capacity, nEcalls, nOcalls, rows, i + 1);
  }

  /** Exactly when the analyzer can be relied on: every order the query may return rebuilds the recorded
      forest if and only if calls of a thread start at different times and the tables hold every id. */
  lemma RecoveredIffDistinct(log: Log, enclaves: seq<S.Enclave>, ids: seq<Option<nat>>, rows: seq<S.Row>,
                             nEcalls: nat, nOcalls: nat)
    requires Stored(log, enclaves, ids, rows)
    ensures DistinctStarts(log.events) && KnownIds(log.events, nEcalls, nOcalls) <==>
            forall perm :: QueryOrder(log.events, rows, perm) ==> Recovers(log, ids, rows, perm, nEcalls, nOcalls)
  {
    if DistinctStarts(log.events) && KnownIds(log.events, nEcalls, nOcalls) {
      forall perm | QueryOrder(log.events, rows, perm) ensures Recovers(log, ids, rows, perm, nEcalls, nOcalls) {
        AllRecovered(log, enclaves, ids, rows, perm, nEcalls, nOcalls);
      }
    }
    if forall perm :: QueryOrder(log.events, rows, perm) ==> Recovers(log, ids, rows, perm, nEcalls, nOcalls) {
      OrderByOk(log.events, rows);
      IdsNeeded(log, enclaves, ids, rows, OrderBy(log.events, rows), nEcalls, nOcalls);
      if !DistinctStarts(log.events) {
        var perm := SomeOrderFails(log, enclaves, ids, rows, nEcalls, nOcalls);
      }
    }
  }

  lemma AllRecovered(log: Log, enclaves: seq<S.Enclave>, ids: seq<Option<nat>>, rows: seq<S.Row>,
                     perm: seq<nat>, nEcalls: nat, nOcalls: nat)
    requires Readable(log, enclaves, ids, rows, perm, nEcalls, nOcalls)
    ensures Recovers(log, ids, rows, perm, nEcalls, nOcalls)
  {
    forall t | 0 <= t < |log.threads|
      ensures L.AllRowsOk(Empty(|log.threads|), Allocation(log, rows), nEcalls, nOcalls, Result(log.events, rows, perm))
      ensures L.LoadRows(Empty(|log.threads|), Result(log.events, rows, perm))[t] == ForestOf(log, ids, t)
    {
      ForestRecovered(log, enclaves, ids, rows, perm, nEcalls, nOcalls, t);
    }
    RecoverPrefix(log, enclaves, ids, rows, perm, nEcalls, nOcalls, |perm|);
    assert Result(log.events, rows, perm)[..|perm|] == Result(log.events, rows, perm);
  }
}
