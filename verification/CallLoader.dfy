/** Loading the joined call rows (analyzer/src/calls.cpp): thread_callback allocates, and
    call_data_callback appends one call per row and bumps the counters. */
module CallLoader {
  import opened Forest
  import opened Options
  import opened CallCounters

  /** One row of the call query: the columns that the loader uses. */
  datatype Row = Row(id: nat, kind: Kind, thread: nat, callId: nat, parent: Option<nat>, start: nat, end: nat)

  /** The last slot that holds the event. */
  function SlotOf(cs: seq<Call>, e: nat): (r: Option<nat>)
    ensures match r
            case None => forall k :: 0 <= k < |cs| ==> cs[k].eventId != e
            case Some(i) => i < |cs| && cs[i].eventId == e && forall k :: i < k < |cs| ==> cs[k].eventId != e
  {
    if cs == [] then None
    else if cs[|cs| - 1].eventId == e then Some(|cs| - 1)
    else SlotOf(cs[..|cs| - 1], e)
  }

  function ToCall(cs: seq<Call>, row: Row): Call {
    Call(row.id, row.callId, row.kind, row.start, row.end,
         if row.parent.None? then None else SlotOf(cs, row.parent.value))
  }

  /** The row's parent has been loaded, and the call nests where the rows so far leave off. */
  predicate Loadable(cs: seq<Call>, row: Row) {
    && (row.parent.Some? ==> SlotOf(cs, row.parent.value).Some?)
    && Fits(cs, row.kind, ToCall(cs, row).parent)
  }

  function LoadRow(threads: seq<seq<Call>>, row: Row): seq<seq<Call>>
    requires row.thread < |threads|
  {
    threads[row.thread := threads[row.thread] + [ToCall(threads[row.thread], row)]]
  }

  function LoadRows(threads: seq<seq<Call>>, rows: seq<Row>): (r: seq<seq<Call>>)
    requires forall k :: 0 <= k < |rows| ==> rows[k].thread < |threads|
    ensures |r| == |threads|
  {
    if rows == [] then threads else LoadRow(LoadRows(threads, rows[..|rows| - 1]), rows[|rows| - 1])
  }

  /** What the database guarantees of a row given what has been loaded. */
  predicate RowOk(threads: seq<seq<Call>>, capacity: seq<nat>, nEcalls: nat, nOcalls: nat, row: Row) {
    && row.thread < |threads| == |capacity|
    && row.callId < (if row.kind == ECALL then nEcalls else nOcalls)
    && |threads[row.thread]| < capacity[row.thread]
    && Loadable(threads[row.thread], row)
  }

  ghost predicate AllRowsOk(threads: seq<seq<Call>>, capacity: seq<nat>, nEcalls: nat, nOcalls: nat, rows: seq<Row>)
    ensures AllRowsOk(threads, capacity, nEcalls, nOcalls, rows) ==>
              forall k :: 0 <= k < |rows| ==> rows[k].thread < |threads|
  {
    rows == [] ||
    var n := |rows| - 1;
    && AllRowsOk(threads, capacity, nEcalls, nOcalls, rows[..n]) && rows[n].thread < |threads|
    && RowOk(LoadRows(threads, rows[..n]), capacity, nEcalls, nOcalls, rows[n])
  }

  lemma {:induction false} RowsPrefix(threads: seq<seq<Call>>, capacity: seq<nat>, nEcalls: nat, nOcalls: nat,
                                      rows: seq<Row>, k: nat)
    requires AllRowsOk(threads, capacity, nEcalls, nOcalls, rows) && k <= |rows|
    ensures AllRowsOk(threads, capacity, nEcalls, nOcalls, rows[..k])
    decreases |rows|
  {
    if k == |rows| {
      assert rows[..k] == rows;
    } else {
      RowsPrefix(threads, capacity, nEcalls, nOcalls, rows[..|rows| - 1], k);
      assert rows[..|rows| - 1][..k] == rows[..k];
    }
  }

  ghost predicate TableOk(cds: seq<CallData>, kind: Kind, nOther: nat, threads: seq<seq<Call>>) {
    forall id :: 0 <= id < |cds| ==> EntryOk(cds, kind, nOther, threads, id)
  }

  ghost predicate EntryOk(cds: seq<CallData>, kind: Kind, nOther: nat, threads: seq<seq<Call>>, id: nat)
    requires id < |cds|
  {
    && |cds[id].direct| == nOther && |cds[id].indirect| == |cds|
    && DirectOk(cds[id], kind, id, threads) && IndirectOk(cds[id], kind, id, threads)
  }

  ghost predicate CallsOk(cs: seq<Call>, nEcalls: nat, nOcalls: nat) {
    && WellNested(cs)
    && forall i :: 0 <= i < |cs| ==> cs[i].callId < if cs[i].kind == ECALL then nEcalls else nOcalls
  }

  /** Loading one more call leaves the counters of a table exact. */
  lemma TableStep(cds: seq<CallData>, kind: Kind, nOther: nat, threads: seq<seq<Call>>, t: nat, c: Call,
                  cds': seq<CallData>)
    requires TableOk(cds, kind, nOther, threads) && t < |threads|
    requires c.kind == kind ==>
               && c.callId < |cds| && |cds[c.callId].direct| == nOther && |cds[c.callId].indirect| == |cds|
               && (c.parent.Some? ==> c.parent.value < |threads[t]| && threads[t][c.parent.value].callId < nOther)
               && (var j := LastSibling(threads[t], c.kind, c.parent); j.Some? ==> threads[t][j.value].callId < |cds|)
               && cds' == cds[c.callId := AddIndirect(AddDirect(cds[c.callId], threads[t], c), threads[t], c)]
    requires c.kind != kind ==> cds' == cds
    ensures TableOk(cds', kind, nOther, threads[t := threads[t] + [c]])
  {
    var threads' := threads[t := threads[t] + [c]];
    forall id | 0 <= id < |cds'|
      ensures EntryOk(cds', kind, nOther, threads', id)
    {
      assert EntryOk(cds, kind, nOther, threads, id);
      if c.kind == kind && c.callId == id {
        DirectSelf(cds[id], threads, t, c);
        IndirectSelf(cds[id], threads, t, c);
      } else {
        DirectOther(cds[id], kind, id, threads, t, c);
        IndirectOther(cds[id], kind, id, threads, t, c);
      }
    }
  }

  lemma {:induction false} TotalNone(q: Query, threads: seq<seq<Call>>)
    requires forall t :: 0 <= t < |threads| ==> threads[t] == []
    ensures Total(q, threads) == 0
  {
    if threads != [] { TotalNone(q, threads[..|threads| - 1]); }
  }

  lemma {:induction false} SumNone(ps: seq<Pair>)
    requires forall i :: 0 <= i < |ps| ==> ps[i] == NEVER
    ensures Sum(ps) == 0
  {
    if ps != [] { SumNone(ps[..|ps| - 1]); }
  }

  function Fresh(nDirect: nat, nIndirect: nat): CallData {
    CallData(false, 0, seq(nDirect, _ => NEVER), false, seq(nIndirect, _ => NEVER))
  }

  lemma FreshOk(nDirect: nat, nIndirect: nat, kind: Kind, id: nat, threads: seq<seq<Call>>)
    requires forall t :: 0 <= t < |threads| ==> threads[t] == []
    ensures DirectOk(Fresh(nDirect, nIndirect), kind, id, threads)
    ensures IndirectOk(Fresh(nDirect, nIndirect), kind, id, threads)
  {
    var cd := Fresh(nDirect, nIndirect);
    SumNone(cd.direct);
    SumNone(cd.indirect);
    TotalNone(Nested(kind, id), threads);
    TotalNone(Later(kind, id), threads);
    forall pid: nat | pid < nDirect ensures DirectPairOk(NEVER, kind, id, pid, threads) {
      NeverDirect(kind, id, pid, threads);
    }
    forall pid: nat | pid < nIndirect ensures IndirectPairOk(NEVER, kind, id, pid, threads) {
      NeverIndirect(kind, id, pid, threads);
    }
  }

  lemma NeverDirect(kind: Kind, id: nat, pid: nat, threads: seq<seq<Call>>)
    requires forall t :: 0 <= t < |threads| ==> threads[t] == []
    ensures DirectPairOk(NEVER, kind, id, pid, threads)
  {
    TotalNone(NestedIn(kind, id, pid), threads);
    TotalNone(StartIn(kind, id, pid, 0, 10000), threads);
    TotalNone(StartIn(kind, id, pid, 10000, 20000), threads);
    TotalNone(EndIn(kind, id, pid, 0, 10000), threads);
    TotalNone(EndIn(kind, id, pid, 10000, 20000), threads);
  }

  lemma NeverIndirect(kind: Kind, id: nat, pid: nat, threads: seq<seq<Call>>)
    requires forall t :: 0 <= t < |threads| ==> threads[t] == []
    ensures IndirectPairOk(NEVER, kind, id, pid, threads)
  {
    TotalNone(LaterThan(kind, id, pid), threads);
    TotalNone(GapIn(kind, id, pid, 0, 1000), threads);
    TotalNone(GapIn(kind, id, pid, 1000, 5000), threads);
    TotalNone(GapIn(kind, id, pid, 5000, 10000), threads);
    TotalNone(GapIn(kind, id, pid, 10000, 20000), threads);
  }

  ghost predicate AllOk(ecalls: seq<CallData>, ocalls: seq<CallData>, threads: seq<seq<Call>>, capacity: seq<nat>) {
    && |threads| == |capacity|
    && (forall t :: 0 <= t < |threads| ==>
          |threads[t]| <= capacity[t] && CallsOk(threads[t], |ecalls|, |ocalls|))
    && TableOk(ecalls, ECALL, |ocalls|, threads) && TableOk(ocalls, OCALL, |ecalls|, threads)
  }

  lemma RowIds(cs: seq<Call>, row: Row, nEcalls: nat, nOcalls: nat)
    requires CallsOk(cs, nEcalls, nOcalls) && Loadable(cs, row)
    ensures var c := ToCall(cs, row);
            var mine := if row.kind == ECALL then nEcalls else nOcalls;
            var other := if row.kind == ECALL then nOcalls else nEcalls;
            && (c.parent.Some? ==> c.parent.value < |cs| && cs[c.parent.value].callId < other)
            && (var j := LastSibling(cs, c.kind, c.parent); j.Some? ==> cs[j.value].callId < mine)
  {
  }

  lemma RowCalls(cs: seq<Call>, row: Row, nEcalls: nat, nOcalls: nat)
    requires CallsOk(cs, nEcalls, nOcalls) && Loadable(cs, row)
    requires row.callId < if row.kind == ECALL then nEcalls else nOcalls
    ensures CallsOk(cs + [ToCall(cs, row)], nEcalls, nOcalls)
  {
    AppendNested(cs, ToCall(cs, row));
  }

  /** Loading a row keeps everything exact. */
  lemma RowStep(es: seq<CallData>, os: seq<CallData>, threads: seq<seq<Call>>, capacity: seq<nat>,
                row: Row, thiz: CallData,
                es': seq<CallData>, os': seq<CallData>)
    requires AllOk(es, os, threads, capacity) && RowOk(threads, capacity, |es|, |os|, row)
    requires var cs := threads[row.thread];
             var c := ToCall(cs, row);
             var cd := if row.kind == ECALL then es[row.callId] else os[row.callId];
             && (c.parent.Some? ==> c.parent.value < |cs| && cs[c.parent.value].callId < |cd.direct|)
             && (var j := LastSibling(cs, c.kind, c.parent); j.Some? ==> cs[j.value].callId < |cd.indirect|)
             && thiz == AddIndirect(AddDirect(cd, cs, c), cs, c)
    requires es' == if row.kind == ECALL then es[row.callId := thiz] else es
    requires os' == if row.kind == ECALL then os else os[row.callId := thiz]
    ensures AllOk(es', os', LoadRow(threads, row), capacity)
  {
    var cs := threads[row.thread];
    var c := ToCall(cs, row);
    assert if row.kind == ECALL then EntryOk(es, ECALL, |os|, threads, row.callId)
                                else EntryOk(os, OCALL, |es|, threads, row.callId);
    RowIds(cs, row, |es|, |os|);
    RowCalls(cs, row, |es|, |os|);
    TableStep(es, ECALL, |os|, threads, row.thread, c, es');
    TableStep(os, OCALL, |es|, threads, row.thread, c, os');
  }

  /** The first half of call_data_callback: find the parent and count it. */
  method CountDirect(cd: CallData, cs: seq<Call>, row: Row) returns (cd': CallData, scd: Call)
    requires Loadable(cs, row)
    requires row.parent.Some? ==> cs[SlotOf(cs, row.parent.value).value].callId < |cd.direct|
    ensures scd == ToCall(cs, row) && cd' == AddDirect(cd, cs, scd)
  {
    cd', scd := cd, Call(row.id, row.callId, row.kind, row.start, row.end, None);
    if row.parent.Some? {
      var i := FindParent(cs, row.parent.value);
      var p := cs[i];
      cd' := cd'.(hasDirect := true);
      if row.kind == ECALL { cd' := cd'.(fromOcalls := cd'.fromOcalls + 1); }
      var pair := BumpDirect(cd'.direct[p.callId], Sub64(scd.start, p.start), Sub64(p.end, scd.end));
      cd' := cd'.(direct := cd'.direct[p.callId := pair]);
      scd := scd.(parent := Some(i));
    }
  }

  /** The second half: find the predecessor on the same level by the pointer walk and count it; the
      effect is the one told with the naive scan. */
  method CountIndirect(cd: CallData, cs: seq<Call>, scd: Call) returns (cd': CallData)
    requires WellNested(cs) && Fits(cs, scd.kind, scd.parent)
    requires var j := LastSibling(cs, scd.kind, scd.parent); j.Some? ==> cs[j.value].callId < |cd.indirect|
    ensures cd' == AddIndirect(cd, cs, scd)
  {
    cd' := cd;
    var c := FindPredecessor(cs, scd.kind, scd.parent);
    if c.Some? {
      var s := cs[c.value];
      cd' := cd'.(hasIndirect := true);
      var pair := BumpIndirect(cd'.indirect[s.callId], Sub64(scd.start, s.end));
      cd' := cd'.(indirect := cd'.indirect[s.callId := pair]);
    }
  }

  class Loader {
    var ecalls: seq<CallData>
    var ocalls: seq<CallData>
    var threads: seq<seq<Call>>   // per thread, calls[..next_call_index]
    const capacity: seq<nat>      // per thread, the allocated slots

    ghost predicate Valid()
      reads this
    {
      AllOk(ecalls, ocalls, threads, capacity)
    }

    constructor (nEcalls: nat, nOcalls: nat, capacity: seq<nat>)
      ensures Valid() && |ecalls| == nEcalls && |ocalls| == nOcalls && this.capacity == capacity
      ensures threads == seq(|capacity|, _ => [])
    {
      ecalls := seq(nEcalls, _ => Fresh(nOcalls, nEcalls));
      ocalls := seq(nOcalls, _ => Fresh(nEcalls, nOcalls));
      threads := seq(|capacity|, _ => []);
      this.capacity := capacity;
      new;
      forall kind, id | 0 <= id
        ensures DirectOk(Fresh(nOcalls, nEcalls), kind, id, threads)
        ensures IndirectOk(Fresh(nOcalls, nEcalls), kind, id, threads)
        ensures DirectOk(Fresh(nEcalls, nOcalls), kind, id, threads)
        ensures IndirectOk(Fresh(nEcalls, nOcalls), kind, id, threads)
      {
        FreshOk(nOcalls, nEcalls, kind, id, threads);
        FreshOk(nEcalls, nOcalls, kind, id, threads);
      }
    }

    /** call_data_callback: the counters move as the naive scan says, although the code finds the
        predecessor by its pointer walk, and they keep counting exactly. */
    method CallDataCallback(row: Row)
      requires Valid() && RowOk(threads, capacity, |ecalls|, |ocalls|, row)
      modifies this
      ensures Valid() && |ecalls| == old(|ecalls|) && |ocalls| == old(|ocalls|)
      ensures threads == LoadRow(old(threads), row)
    {
      var cs := threads[row.thread];
      RowIds(cs, row, |ecalls|, |ocalls|);
      assert if row.kind == ECALL then EntryOk(ecalls, ECALL, |ocalls|, threads, row.callId)
                                  else EntryOk(ocalls, OCALL, |ecalls|, threads, row.callId);
      var thiz := if row.kind == ECALL then ecalls[row.callId] else ocalls[row.callId];
      var scd;
      thiz, scd := CountDirect(thiz, cs, row);
      thiz := CountIndirect(thiz, cs, scd);
      RowStep(ecalls, ocalls, threads, capacity, row, thiz,
              if row.kind == ECALL then ecalls[row.callId := thiz] else ecalls,
              if row.kind == ECALL then ocalls else ocalls[row.callId := thiz]);
      if row.kind == ECALL {
        ecalls := ecalls[row.callId := thiz];
      } else {
        ocalls := ocalls[row.callId := thiz];
      }
      threads := threads[row.thread := cs + [scd]];
    }

    /** The whole result set, row by row. */
    method Load(rows: seq<Row>)
      requires Valid() && AllRowsOk(threads, capacity, |ecalls|, |ocalls|, rows)
      modifies this
      ensures Valid() && |ecalls| == old(|ecalls|) && |ocalls| == old(|ocalls|)
      ensures threads == LoadRows(old(threads), rows)
    {
      assert rows[..0] == [];
      for k := 0 to |rows|
        invariant Valid() && |ecalls| == old(|ecalls|) && |ocalls| == old(|ocalls|)
        invariant threads == LoadRows(old(threads), rows[..k])
      {
        RowsPrefix(old(threads), capacity, |ecalls|, |ocalls|, rows, k + 1);
        assert rows[..k + 1][..k] == rows[..k];
        CallDataCallback(rows[k]);
      }
      assert rows[..|rows|] == rows;
    }
  }
}
