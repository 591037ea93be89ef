/** Writing the recorded events to the database (logger/src/events.h, the flush loop of
    logger/src/store.cpp). The database is a growing sequence of rows; the row at position k has
    id k + 1. An event without a row has no id (UINT64_MAX in the source). */
module Serialiser {
  import opened Options
  import opened EventLog

  /** A row: the event it stores and the two columns that name other rows. */
  datatype Row = Row(ev: nat, callEvent: Option<nat>, arg: Option<nat>)

  datatype Enclave = Enclave(first: nat, last: nat, created: nat, destroyed: nat)

  /** The events an event refers to, in the order pre_insert visits them: the call_event column
      names the first, a set event's arg column the second. */
  function Refs(ev: Ev): seq<nat> {
    match ev
    case CallEv(_, _, _, _, prev) => if prev.Some? then [prev.value] else []
    case RetEv(_, _, _, call, _) => [call]
    case WaitEv(_, _, ocall) => [ocall]
    case SetEv(_, _, ocall, wait) => [ocall, wait]
    case AexEv(_, _, ecall) => [ecall]
    case _ => []
  }

  /** References go to earlier events and never to a paging event. */
  lemma RefsEarlier(events: seq<Ev>, e: nat)
    requires e < |events| && RefsOk(events, e)
    ensures forall i :: 0 <= i < |Refs(events[e])| ==> Refs(events[e])[i] < e && !events[Refs(events[e])[i]].PagingEv?
  {
  }

  predicate InEnclave(encl: Enclave, ev: Ev)
    requires ev.PagingEv?
  {
    encl.first <= ev.address <= encl.last && encl.created <= ev.time <= encl.destroyed
  }

  /** A paging event that matches no enclave; these are ignored. */
  predicate Unmatched(enclaves: seq<Enclave>, ev: Ev) {
    ev.PagingEv? && forall i :: 0 <= i < |enclaves| ==> !InEnclave(enclaves[i], ev)
  }

  /** The id that column i of the references should hold. */
  function RefId(ids: seq<Option<nat>>, refs: seq<nat>, i: nat): Option<nat> {
    if i < |refs| && refs[i] < |ids| then ids[refs[i]] else None
  }

  /** Row k stores its event, its references resolve to rows with strictly smaller ids, and those
      rows store the events referred to. */
  ghost predicate RowOk(events: seq<Ev>, ids: seq<Option<nat>>, rows: seq<Row>, k: nat)
    requires k < |rows|
  {
    var row := rows[k];
    && row.ev < |events| == |ids| && ids[row.ev] == Some(k + 1)
    && var refs := Refs(events[row.ev]);
       && row.callEvent == RefId(ids, refs, 0)
       && row.arg == RefId(ids, refs, 1)
       && (forall i :: 0 <= i < |refs| ==> RefOk(ids, rows, refs[i], k))
  }

  /** The event r has one of the first k rows. */
  predicate RefOk(ids: seq<Option<nat>>, rows: seq<Row>, r: nat, k: nat)
    requires k <= |rows|
  {
    r < |ids| && ids[r].Some? && 1 <= ids[r].value <= k && rows[ids[r].value - 1].ev == r
  }

  ghost predicate DbOk(events: seq<Ev>, ids: seq<Option<nat>>, rows: seq<Row>) {
    && |ids| == |events|
    && (forall e :: 0 <= e < |ids| && ids[e].Some? ==> 1 <= ids[e].value <= |rows| && rows[ids[e].value - 1].ev == e)
    && (forall k :: 0 <= k < |rows| ==> RowOk(events, ids, rows, k))
  }

  /** Ids are never reassigned and rows never rewritten. */
  ghost predicate Grown(ids: seq<Option<nat>>, rows: seq<Row>, ids': seq<Option<nat>>, rows': seq<Row>) {
    && |ids'| == |ids| && rows <= rows'
    && (forall e :: 0 <= e < |ids| && ids[e].Some? ==> ids'[e] == ids[e])
  }

  lemma RefOkGrown(ids: seq<Option<nat>>, rows: seq<Row>, ids': seq<Option<nat>>, rows': seq<Row>, r: nat, k: nat)
    requires k <= |rows| && RefOk(ids, rows, r, k) && Grown(ids, rows, ids', rows')
    ensures RefOk(ids', rows', r, k)
  {
    assert rows'[ids[r].value - 1] == rows[ids[r].value - 1];
  }

  lemma RowOkGrown(events: seq<Ev>, ids: seq<Option<nat>>, rows: seq<Row>, ids': seq<Option<nat>>, rows': seq<Row>,
                   k: nat)
    requires k < |rows| && RowOk(events, ids, rows, k) && Grown(ids, rows, ids', rows')
    ensures RowOk(events, ids', rows', k)
  {
    assert rows'[k] == rows[k];
    var refs := Refs(events[rows[k].ev]);
    forall i | 0 <= i < |refs| ensures RefOk(ids', rows', refs[i], k) {
      RefOkGrown(ids, rows, ids', rows', refs[i], k);
    }
  }

  predicate Names(ids: seq<Option<nat>>, column: Option<nat>, r: nat) {
    r < |ids| && ids[r].Some? && column == ids[r]
  }

  /** The columns of an event's row, as add_binds fills them: a call names its previous call, if there is
      one; a set event names its OCall and, in the arg column, the wait it ends; all other events name the
      call they belong to or nothing. */
  predicate ColumnsOf(ev: Ev, ids: seq<Option<nat>>, row: Row) {
    match ev
    case CallEv(_, _, _, _, prev) =>
      row.arg == None && if prev.Some? then Names(ids, row.callEvent, prev.value) else row.callEvent == None
    case RetEv(_, _, _, call, _) => row.arg == None && Names(ids, row.callEvent, call)
    case WaitEv(_, _, ocall) => row.arg == None && Names(ids, row.callEvent, ocall)
    case SetEv(_, _, ocall, wait) => Names(ids, row.callEvent, ocall) && Names(ids, row.arg, wait)
    case AexEv(_, _, ecall) => row.arg == None && Names(ids, row.callEvent, ecall)
    case PagingEv(_, _, _) => row.callEvent == None && row.arg == None
    case PlainEv(_, _) => row.callEvent == None && row.arg == None
  }

  predicate InSome(queues: seq<seq<nat>>, e: nat) {
    exists t :: 0 <= t < |queues| && e in queues[t]
  }

  class Database {
    const events: seq<Ev>
    const enclaves: seq<Enclave>
    var sqlId: seq<Option<nat>>
    var rows: seq<Row>

    ghost predicate Valid()
      reads this
    {
      && AllRefsOk(events) && DbOk(events, sqlId, rows)
      && (forall e :: 0 <= e < |events| && Unmatched(enclaves, events[e]) ==> sqlId[e].None?)
    }

    constructor (events: seq<Ev>, enclaves: seq<Enclave>)
      requires AllRefsOk(events)
      ensures Valid() && this.events == events && this.enclaves == enclaves && rows == []
    {
      this.events, this.enclaves := events, enclaves;
      sqlId := seq(|events|, _ => None);
      rows := [];
    }

    /** sql_bind, sqlite3_step and set_sql_id on an event whose references have their ids. */
    method InsertRow(e: nat)
      requires Valid() && e < |events| && sqlId[e].None? && !Unmatched(enclaves, events[e])
      requires forall i :: 0 <= i < |Refs(events[e])| ==>
                 Refs(events[e])[i] < |sqlId| && sqlId[Refs(events[e])[i]].Some?
      modifies this
      ensures Valid() && Grown(old(sqlId), old(rows), sqlId, rows)
      ensures sqlId == old(sqlId)[e := Some(|rows|)]
      ensures |rows| == |old(rows)| + 1 && rows[|old(rows)|].ev == e
      ensures ColumnsOf(events[e], sqlId, rows[|old(rows)|])
    {
      ghost var ids, rs := sqlId, rows;
      var refs := Refs(events[e]);
      rows := rows + [Row(e, RefId(sqlId, refs, 0), RefId(sqlId, refs, 1))];
      sqlId := sqlId[e := Some(|rows|)];
      assert Grown(ids, rs, sqlId, rows);
      forall k | 0 <= k < |rows|
        ensures RowOk(events, sqlId, rows, k)
      {
        if k < |rs| { RowOkGrown(events, ids, rs, sqlId, rows, k); }
      }
    }

    /** pre_insert: whatever an event refers to is inserted first. The recursion follows references
        to earlier events, so it ends; it never gives the event itself a row. */
    method PreInsert(e: nat)
      requires Valid() && e < |events|
      modifies this
      ensures Valid() && Grown(old(sqlId), old(rows), sqlId, rows)
      ensures forall i :: 0 <= i < |Refs(events[e])| ==>
                Refs(events[e])[i] < |sqlId| && sqlId[Refs(events[e])[i]].Some?
      ensures forall x :: e <= x < |events| ==> sqlId[x] == old(sqlId)[x]
      decreases e
    {
      assert RefsOk(events, e);
      RefsEarlier(events, e);
      var refs := Refs(events[e]);
      for i := 0 to |refs|
        invariant Valid() && Grown(old(sqlId), old(rows), sqlId, rows)
        invariant forall j :: 0 <= j < i ==> refs[j] < |sqlId| && sqlId[refs[j]].Some?
        invariant forall x :: e <= x < |events| ==> sqlId[x] == old(sqlId)[x]
      {
        if sqlId[refs[i]].None? {
          PreInsert(refs[i]);
          InsertRow(refs[i]);
        }
      }
    }

    /** The body of the flush loop for one event. */
    method FlushEvent(e: nat)
      requires Valid() && e < |events|
      modifies this
      ensures Valid() && Grown(old(sqlId), old(rows), sqlId, rows)
      ensures sqlId[e].Some? <==> !Unmatched(enclaves, events[e])
    {
      PreInsert(e);
      if events[e].PagingEv? {
        var i := 0;
        while i < |enclaves| && !InEnclave(enclaves[i], events[e])
          invariant 0 <= i <= |enclaves|
          invariant forall j :: 0 <= j < i ==> !InEnclave(enclaves[j], events[e])
        {
          i := i + 1;
        }
        if i == |enclaves| {
          return;
        }
      }
      if sqlId[e].None? {
        InsertRow(e);
      }
    }

    /** Flushing one thread's queue. */
    method FlushQueue(queue: seq<nat>)
      requires Valid() && forall k :: 0 <= k < |queue| ==> queue[k] < |events|
      modifies this
      ensures Valid() && Grown(old(sqlId), old(rows), sqlId, rows)
      ensures forall k :: 0 <= k < |queue| ==> (sqlId[queue[k]].Some? <==> !Unmatched(enclaves, events[queue[k]]))
    {
      for k := 0 to |queue|
        invariant Valid() && Grown(old(sqlId), old(rows), sqlId, rows)
        invariant forall j :: 0 <= j < k ==> (sqlId[queue[j]].Some? <==> !Unmatched(enclaves, events[queue[j]]))
      {
        FlushEvent(queue[k]);
      }
    }

    /** Flushing all queues, in whatever order the finished threads are listed: every event except
        the unmatched paging events has its row. With Valid, it has exactly one. */
    method Flush(queues: seq<seq<nat>>)
      requires Valid()
      requires forall t, k :: 0 <= t < |queues| && 0 <= k < |queues[t]| ==> queues[t][k] < |events|
      requires forall e :: 0 <= e < |events| ==> InSome(queues, e)
      modifies this
      ensures Valid() && Grown(old(sqlId), old(rows), sqlId, rows)
      ensures Complete(events, enclaves, sqlId, rows)
    {
      for t := 0 to |queues|
        invariant Valid() && Grown(old(sqlId), old(rows), sqlId, rows)
        invariant forall u, k :: 0 <= u < t && 0 <= k < |queues[u]| && !Unmatched(enclaves, events[queues[u][k]]) ==>
                    sqlId[queues[u][k]].Some?
      {
        FlushQueue(queues[t]);
      }
      forall e | 0 <= e < |events| && !Unmatched(enclaves, events[e])
        ensures sqlId[e].Some?
      {
        assert InSome(queues, e);
        var t :| 0 <= t < |queues| && e in queues[t];
        var k :| 0 <= k < |queues[t]| && queues[t][k] == e;
      }
    }
  }

  /** The database of a flushed log: one row for each event that is kept, and every reference
      resolved to an earlier row of the right event. */
  ghost predicate Complete(events: seq<Ev>, enclaves: seq<Enclave>, ids: seq<Option<nat>>, rows: seq<Row>) {
    && DbOk(events, ids, rows)
    && (forall e :: 0 <= e < |events| ==> (ids[e].Some? <==> !Unmatched(enclaves, events[e])))
  }

  /** Exactly one row per kept event. */
  lemma ExactlyOneRow(events: seq<Ev>, enclaves: seq<Enclave>, ids: seq<Option<nat>>, rows: seq<Row>, e: nat)
    requires Complete(events, enclaves, ids, rows) && e < |events| && !Unmatched(enclaves, events[e])
    ensures 1 <= ids[e].value <= |rows|
    ensures forall k :: 0 <= k < |rows| ==> (rows[k].ev == e <==> k == ids[e].value - 1)
  {
    forall k | 0 <= k < |rows| && rows[k].ev == e ensures k == ids[e].value - 1 {
      assert RowOk(events, ids, rows, k);
    }
  }

  /** The two columns that name other rows, for every row of a complete database: they hold the ids of
      the events told by ColumnsOf, which have rows of their own before it. */
  lemma ColumnsExact(events: seq<Ev>, enclaves: seq<Enclave>, ids: seq<Option<nat>>, rows: seq<Row>, e: nat)
    requires Complete(events, enclaves, ids, rows) && e < |events| && !Unmatched(enclaves, events[e])
    ensures 1 <= ids[e].value <= |rows| && rows[ids[e].value - 1].ev == e
    ensures var row := rows[ids[e].value - 1];
            && ColumnsOf(events[e], ids, row)
            && (row.callEvent.Some? ==> 1 <= row.callEvent.value < ids[e].value)
            && (row.arg.Some? ==> 1 <= row.arg.value < ids[e].value)
    ensures forall x, y :: 0 <= x < y < |ids| && ids[x].Some? ==> ids[x] != ids[y]
  {
    var k := ids[e].value - 1;
    assert RowOk(events, ids, rows, k);
    var refs := Refs(events[e]);
    assert forall i :: 0 <= i < |refs| ==> RefOk(ids, rows, refs[i], k);
    if |refs| > 0 { assert RefOk(ids, rows, refs[0], k); }
    if |refs| > 1 { assert RefOk(ids, rows, refs[1], k); }
  }

  /** The events without a row: paging events whose page lies outside each enclave or whose time is
      before its creation or after its destruction. */
  lemma DroppedExact(events: seq<Ev>, enclaves: seq<Enclave>, ids: seq<Option<nat>>, rows: seq<Row>, e: nat)
    requires Complete(events, enclaves, ids, rows) && e < |events|
    ensures (forall k :: 0 <= k < |rows| ==> rows[k].ev != e) <==>
            events[e].PagingEv? && forall i :: 0 <= i < |enclaves| ==>
              || events[e].address < enclaves[i].first || enclaves[i].last < events[e].address
              || events[e].time < enclaves[i].created || enclaves[i].destroyed < events[e].time
  {
    if Unmatched(enclaves, events[e]) {
      forall k | 0 <= k < |rows| ensures rows[k].ev != e { assert RowOk(events, ids, rows, k); }
      forall i | 0 <= i < |enclaves| ensures !InEnclave(enclaves[i], events[e]) {}
    } else {
      ExactlyOneRow(events, enclaves, ids, rows, e);
      if events[e].PagingEv? {
        var i :| 0 <= i < |enclaves| && InEnclave(enclaves[i], events[e]);
      }
    }
  }
}
