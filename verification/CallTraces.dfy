/** The call forest of a thread told from its calls and returns alone
    (logger/src/urts_calls.cpp:416-435, 644-655), without events, ids or queues, and that it is the forest
    the log describes. */
module CallTraces {
  import opened Forest
  import opened Options
  import opened EventLog
  import opened EventRuns
  import opened Recorded

  /** The calls made so far, without event ids, and the slots of the open ones. */
  datatype Trace = Trace(calls: seq<Call>, stack: seq<nat>)

  /** The calls in these slots end now. */
  function Ends(calls: seq<Call>, slots: seq<nat>, now: nat): (r: seq<Call>)
    ensures |r| == |calls|
    ensures forall i :: 0 <= i < |r| ==> r[i] == if i in slots then calls[i].(end := now) else calls[i]
  {
    seq(|calls|, i requires 0 <= i < |calls| => if i in slots then calls[i].(end := now) else calls[i])
  }

  function TraceStep(tr: Trace, a: Act, t: nat): Trace {
    if a.t != t then tr
    else
      match a
      case Enter(_, kind, callId, now) =>
        Trace(tr.calls + [Call(0, callId, kind, now, 0, Top(tr.stack))], tr.stack + [|tr.calls|])
      case Leave(_, now) =>
        if tr.stack == [] then tr else Trace(Ends(tr.calls, [tr.stack[|tr.stack| - 1]], now), Pop(tr.stack))
      case _ => tr
  }

  function TraceOf(acts: seq<Act>, t: nat): Trace {
    if acts == [] then Trace([], []) else TraceStep(TraceOf(acts[..|acts| - 1], t), acts[|acts| - 1], t)
  }

  /** What thread t did, with the calls that are still open ended at `end`. */
  function Told(acts: seq<Act>, t: nat, end: nat): seq<Call> {
    var tr := TraceOf(acts, t);
    Ends(tr.calls, tr.stack, end)
  }

  // ----- the log agrees with the trace

  /** A call of the trace against event c. */
  predicate SlotIs(events: seq<Ev>, ret: seq<Option<nat>>, cs: seq<nat>, call: Call, c: nat) {
    && c < |events| && events[c].CallEv?
    && call == Call(0, events[c].callId, events[c].kind, events[c].time, EndOf(events, ret, c), call.parent)
    && call.parent.Some? == events[c].prev.Some?
    && (call.parent.Some? ==> call.parent.value < |cs| && Some(cs[call.parent.value]) == events[c].prev)
  }

  ghost predicate SlotsAre(events: seq<Ev>, ret: seq<Option<nat>>, cs: seq<nat>, calls: seq<Call>) {
    |calls| == |cs| && forall i :: 0 <= i < |cs| ==> SlotIs(events, ret, cs, calls[i], cs[i])
  }

  ghost predicate OpenAre(cs: seq<nat>, stack: seq<nat>, frames: seq<nat>) {
    |stack| == |frames| && forall i :: 0 <= i < |stack| ==> stack[i] < |cs| && cs[stack[i]] == frames[i]
  }

  ghost predicate Matches(log: Log, t: nat, tr: Trace)
    requires t < |log.threads|
  {
    var cs := Calls(log.events, log.threads[t].queue);
    SlotsAre(log.events, log.ret, cs, tr.calls) && OpenAre(cs, tr.stack, log.threads[t].frames)
  }

  lemma {:induction false} CallsExtend(events: seq<Ev>, ev: Ev, q: seq<nat>)
    requires forall k :: 0 <= k < |q| ==> q[k] < |events|
    ensures Calls(events + [ev], q) == Calls(events, q)
  {
    if q != [] { CallsExtend(events, ev, q[..|q| - 1]); }
  }

  /** The calls of thread t after any thread records an event. */
  lemma CallsInsert(log: Log, u: nat, ev: Ev, t: nat)
    requires Inv(log) && u < |log.threads| && t < |log.threads|
    ensures Calls(Insert(log, u, ev).events, Insert(log, u, ev).threads[t].queue) ==
            Calls(log.events, log.threads[t].queue) + if u == t && ev.CallEv? then [|log.events|] else []
  {
    assert ThrOk(log, t);
    var q := log.threads[t].queue;
    CallsExtend(log.events, ev, q);
    if u == t { assert (q + [|log.events|])[..|q|] == q; }
  }

  lemma SlotsKept(events: seq<Ev>, ret: seq<Option<nat>>, cs: seq<nat>, calls: seq<Call>,
                  events': seq<Ev>, ret': seq<Option<nat>>)
    requires SlotsAre(events, ret, cs, calls) && events <= events'
    requires forall i :: 0 <= i < |cs| ==> EndOf(events', ret', cs[i]) == EndOf(events, ret, cs[i])
    ensures SlotsAre(events', ret', cs, calls)
  {
    forall i | 0 <= i < |cs| ensures SlotIs(events', ret', cs, calls[i], cs[i]) {
      assert SlotIs(events, ret, cs, calls[i], cs[i]);
    }
  }

  lemma EndKept(log: Log, ev: Ev, c: nat)
    requires Inv(log) && c < |log.events|
    ensures EndOf(log.events + [ev], log.ret + [None], c) == EndOf(log.events, log.ret, c)
  {
  }

  /** A recorded event that is no call of thread t changes nothing for it. */
  lemma InsertMatches(log: Log, u: nat, ev: Ev, t: nat, tr: Trace)
    requires Inv(log) && u < |log.threads| && t < |log.threads| && Matches(log, t, tr)
    requires !(u == t && ev.CallEv?)
    ensures Matches(Insert(log, u, ev), t, tr)
  {
    var log' := Insert(log, u, ev);
    var cs := Calls(log.events, log.threads[t].queue);
    CallsInsert(log, u, ev, t);
    forall i | 0 <= i < |cs| ensures EndOf(log'.events, log'.ret, cs[i]) == EndOf(log.events, log.ret, cs[i]) {
      EndKept(log, ev, cs[i]);
    }
    SlotsKept(log.events, log.ret, cs, tr.calls, log'.events, log'.ret);
  }

  // ----- entering

  lemma SlotsSnoc(events: seq<Ev>, ret: seq<Option<nat>>, cs: seq<nat>, calls: seq<Call>, e: nat, call: Call)
    requires SlotsAre(events, ret, cs, calls) && SlotIs(events, ret, cs, call, e)
    ensures SlotsAre(events, ret, cs + [e], calls + [call])
  {
    forall i | 0 <= i < |cs| + 1 ensures SlotIs(events, ret, cs + [e], (calls + [call])[i], (cs + [e])[i]) {
      if i < |cs| { assert SlotIs(events, ret, cs, calls[i], cs[i]); }
    }
  }

  lemma OpenSnoc(cs: seq<nat>, stack: seq<nat>, frames: seq<nat>, e: nat)
    requires OpenAre(cs, stack, frames)
    ensures OpenAre(cs + [e], stack + [|cs|], frames + [e])
  {
  }

  /** The calls recorded before stay matched when thread t records its next one. */
  lemma EnterSlots(log: Log, t: nat, ev: Ev, calls: seq<Call>)
    requires Inv(log) && t < |log.threads| && ev.CallEv?
    requires SlotsAre(log.events, log.ret, Calls(log.events, log.threads[t].queue), calls)
    ensures SlotsAre(Insert(log, t, ev).events, Insert(log, t, ev).ret, Calls(log.events, log.threads[t].queue), calls)
  {
    var log', cs := Insert(log, t, ev), Calls(log.events, log.threads[t].queue);
    forall i | 0 <= i < |cs| ensures EndOf(log'.events, log'.ret, cs[i]) == EndOf(log.events, log.ret, cs[i]) {
      EndKept(log, ev, cs[i]);
    }
    SlotsKept(log.events, log.ret, cs, calls, log'.events, log'.ret);
  }

  lemma TopMatches(cs: seq<nat>, stack: seq<nat>, frames: seq<nat>)
    requires OpenAre(cs, stack, frames)
    ensures Top(stack).Some? == Top(frames).Some?
    ensures Top(stack).Some? ==> Top(stack).value < |cs| && cs[Top(stack).value] == Top(frames).value
  {
  }

  lemma EnterMatches(log: Log, t: nat, kind: Kind, callId: nat, now: nat, tr: Trace)
    requires Inv(log) && t < |log.threads| && Matches(log, t, tr)
    ensures Matches(StepEnter(log, t, kind, callId, now), t, TraceStep(tr, Enter(t, kind, callId, now), t))
  {
    assert ThrOk(log, t);
    EnterTop(log, t, CallEv(t, now, kind, callId, log.threads[t].current), tr);
  }

  lemma EnterTop(log: Log, t: nat, ev: Ev, tr: Trace)
    requires Inv(log) && t < |log.threads| && Matches(log, t, tr)
    requires ev.CallEv? && ev.thread == t && ev.prev == log.threads[t].current == Top(log.threads[t].frames)
    ensures Matches(StepEnter(log, t, ev.kind, ev.callId, ev.time), t,
                    TraceStep(tr, Enter(t, ev.kind, ev.callId, ev.time), t))
  {
    var cs, frames := Calls(log.events, log.threads[t].queue), log.threads[t].frames;
    var log' := Insert(log, t, ev);
    CallsInsert(log, t, ev, t);
    EnterSlots(log, t, ev, tr.calls);
    TopMatches(cs, tr.stack, frames);
    SlotsSnoc(log'.events, log'.ret, cs, tr.calls, |log.events|,
              Call(0, ev.callId, ev.kind, ev.time, 0, Top(tr.stack)));
    OpenSnoc(cs, tr.stack, frames, |log.events|);
  }

  // ----- leaving

  lemma SlotEnds(events: seq<Ev>, ret: seq<Option<nat>>, cs: seq<nat>, call: Call, c: nat, r: nat)
    requires SlotIs(events, ret, cs, call, c) && c < |ret| && r < |events|
    ensures SlotIs(events, ret[c := Some(r)], cs, call.(end := events[r].time), c)
  {
  }

  lemma SlotStays(events: seq<Ev>, ret: seq<Option<nat>>, cs: seq<nat>, call: Call, c: nat, d: nat, r: nat)
    requires SlotIs(events, ret, cs, call, c) && d < |ret| && c != d
    ensures SlotIs(events, ret[d := Some(r)], cs, call, c)
  {
  }

  /** Setting the return of one call changes the end of its slot alone. */
  lemma SlotsEnd(events: seq<Ev>, ret: seq<Option<nat>>, cs: seq<nat>, calls: seq<Call>, s: nat, r: nat)
    requires SlotsAre(events, ret, cs, calls) && Increasing(cs) && s < |cs| && cs[s] < |ret| && r < |events|
    ensures SlotsAre(events, ret[cs[s] := Some(r)], cs, Ends(calls, [s], events[r].time))
  {
    forall i | 0 <= i < |cs|
      ensures SlotIs(events, ret[cs[s] := Some(r)], cs, Ends(calls, [s], events[r].time)[i], cs[i])
    {
      if i == s {
        SlotEnds(events, ret, cs, calls[s], cs[s], r);
      } else {
        SlotStays(events, ret, cs, calls[i], cs[i], cs[s], r);
      }
    }
  }

  /** What a return changes, told without the counters. */
  lemma LeaveShape(log: Log, u: nat, now: nat) returns (ev: Ev, c: nat)
    requires Inv(log) && u < |log.threads| && log.threads[u].frames != []
    ensures ev.RetEv? && ev.time == now && c < |log.events| == |log.ret| && log.events[c].thread == u
    ensures Some(c) == Top(log.threads[u].frames)
    ensures Left(Insert(log, u, ev), StepLeave(log, u, now), u, c, |log.events|)
  {
    TopFacts(log, u);
    var th := log.threads[u];
    c := th.frames[|th.frames| - 1];
    ev := RetEv(u, now, log.events[c].kind, c, if log.events[c].kind == ECALL then log.aex[th.current.value] else 0);
  }

  ghost predicate Left(log: Log, log': Log, u: nat, c: nat, r: nat) {
    && c < |log.ret| && log'.events == log.events && log'.ret == log.ret[c := Some(r)]
    && |log'.threads| == |log.threads|
    && forall t :: 0 <= t < |log.threads| ==>
         && log'.threads[t].queue == log.threads[t].queue
         && log'.threads[t].frames == if t == u then Pop(log.threads[t].frames) else log.threads[t].frames
  }

  lemma OwnLeft(log: Log, log': Log, t: nat, c: nat, r: nat, tr: Trace)
    requires Left(log, log', t, c, r) && t < |log.threads| && r < |log.events| && Matches(log, t, tr)
    requires Top(log.threads[t].frames) == Some(c) && Increasing(Calls(log.events, log.threads[t].queue))
    ensures Matches(log', t, TraceStep(tr, Leave(t, log.events[r].time), t))
  {
    var cs := Calls(log.events, log.threads[t].queue);
    TopMatches(cs, tr.stack, log.threads[t].frames);
    SlotsEnd(log.events, log.ret, cs, tr.calls, Top(tr.stack).value, r);
  }

  lemma LeaveMatches(log: Log, t: nat, now: nat, tr: Trace)
    requires Inv(log) && t < |log.threads| && log.threads[t].frames != [] && Matches(log, t, tr)
    ensures |StepLeave(log, t, now).threads| == |log.threads|
    ensures Matches(StepLeave(log, t, now), t, TraceStep(tr, Leave(t, now), t))
  {
    var ev, c := LeaveShape(log, t, now);
    InsertMatches(log, t, ev, t, tr);
    CallsInsert(log, t, ev, t);
    assert ThrOk(log, t);
    CallsIncreasing(log.events, log.threads[t].queue);
    OwnLeft(Insert(log, t, ev), StepLeave(log, t, now), t, c, |log.events|, tr);
  }

  lemma OtherLeft(log: Log, log': Log, u: nat, c: nat, r: nat, t: nat, tr: Trace)
    requires Left(log, log', u, c, r) && t < |log.threads| && u != t && Matches(log, t, tr)
    requires c !in Calls(log.events, log.threads[t].queue)
    ensures Matches(log', t, tr)
  {
    SlotsKept(log.events, log.ret, Calls(log.events, log.threads[t].queue), tr.calls, log'.events, log'.ret);
  }

  lemma OtherLeave(log: Log, u: nat, now: nat, t: nat, tr: Trace)
    requires Inv(log) && u < |log.threads| && log.threads[u].frames != [] && t < |log.threads| && u != t
    requires Matches(log, t, tr)
    ensures |StepLeave(log, u, now).threads| == |log.threads| && Matches(StepLeave(log, u, now), t, tr)
  {
    var ev, c := LeaveShape(log, u, now);
    InsertMatches(log, u, ev, t, tr);
    CallsInsert(log, u, ev, t);
    NotMine(log, t, c);
    OtherLeft(Insert(log, u, ev), StepLeave(log, u, now), u, c, |log.events|, t, tr);
  }

  lemma NotMine(log: Log, t: nat, c: nat)
    requires Inv(log) && t < |log.threads| && c < |log.events| && log.events[c].thread != t
    ensures c !in Calls(log.events, log.threads[t].queue)
  {
    assert ThrOk(log, t);
  }

  // ----- every step, every run

  lemma AepMatches(log: Log, u: nat, trace: bool, now: nat, t: nat, tr: Trace)
    requires Inv(log) && u < |log.threads| && t < |log.threads| && Matches(log, t, tr)
    ensures |StepAep(log, u, trace, now).threads| == |log.threads| && Matches(StepAep(log, u, trace, now), t, tr)
  {
    var cur := log.threads[u].current;
    if cur.Some? && IsCall(log.events, cur.value, ECALL) {
      if trace { InsertMatches(log, u, AexEv(u, now, cur.value), t, tr); }
    }
  }

  lemma EnterAny(log: Log, u: nat, kind: Kind, callId: nat, now: nat, t: nat, tr: Trace)
    requires Inv(log) && u < |log.threads| && t < |log.threads| && Matches(log, t, tr)
    ensures Matches(StepEnter(log, u, kind, callId, now), t, TraceStep(tr, Enter(u, kind, callId, now), t))
  {
    if u == t {
      EnterMatches(log, t, kind, callId, now, tr);
    } else {
      InsertMatches(log, u, CallEv(u, now, kind, callId, log.threads[u].current), t, tr);
    }
  }

  lemma StepMatches(log: Log, a: Act, t: nat, tr: Trace)
    requires Inv(log) && Enabled(log, a) && t < |log.threads| && Matches(log, t, tr)
    ensures |Step(log, a).threads| == |log.threads| && Matches(Step(log, a), t, TraceStep(tr, a, t))
  {
    match a
    case Enter(u, kind, callId, now) => EnterAny(log, u, kind, callId, now, t, tr);
    case Leave(u, now) => if u == t { LeaveMatches(log, t, now, tr); } else { OtherLeave(log, u, now, t, tr); }
    case AepHit(u, trace, now) => AepMatches(log, u, trace, now, t, tr);
    case Wait(u, now) => InsertMatches(log, u, WaitEv(u, now, Top(log.threads[u].frames).value), t, tr);
    case Set(u, wait, now) => InsertMatches(log, u, SetEv(u, now, Top(log.threads[u].frames).value, wait), t, tr);
    case Paging(u, address, now) => InsertMatches(log, u, PagingEv(u, now, address), t, tr);
    case Plain(u, now) => InsertMatches(log, u, PlainEv(u, now), t, tr);
  }

  lemma {:induction false} RunMatches(n: nat, acts: seq<Act>, t: nat)
    requires Run(n, acts).Some? && t < n
    ensures Matches(Run(n, acts).value, t, TraceOf(acts, t))
    decreases |acts|
  {
    if acts != [] {
      var k := |acts| - 1;
      RunMatches(n, acts[..k], t);
      StepMatches(Run(n, acts[..k]).value, acts[k], t, TraceOf(acts[..k], t));
    }
  }

  // ----- finalize

  /** Returns at the end time that finalize adds change nothing that is told. */
  lemma {:induction false} ToldClosed(acts: seq<Act>, acts': seq<Act>, t: nat, end: nat)
    requires acts <= acts' && OnlyReturns(acts', |acts|, end)
    ensures Told(acts', t, end) == Told(acts, t, end)
    decreases |acts'|
  {
    if acts' == acts {
    } else {
      var k := |acts'| - 1;
      ToldClosed(acts, acts'[..k], t, end);
      LeaveTold(TraceOf(acts'[..k], t), acts'[k].t, t, end);
    }
  }

  lemma LeaveTold(tr: Trace, u: nat, t: nat, end: nat)
    ensures var tr' := TraceStep(tr, Leave(u, end), t); Ends(tr'.calls, tr'.stack, end) == Ends(tr.calls, tr.stack, end)
  {
    if u == t && tr.stack != [] { EndsTwice(tr.calls, tr.stack, end); }
  }

  lemma EndsTwice(calls: seq<Call>, stack: seq<nat>, end: nat)
    requires stack != []
    ensures Ends(Ends(calls, [stack[|stack| - 1]], end), Pop(stack), end) == Ends(calls, stack, end)
  {
    var once := Ends(calls, [stack[|stack| - 1]], end);
    var a, b := Ends(once, Pop(stack), end), Ends(calls, stack, end);
    forall i | 0 <= i < |calls| ensures a[i] == b[i] {
      InPop(stack, i);
      assert once[i] == if i == stack[|stack| - 1] then calls[i].(end := end) else calls[i];
    }
  }

  lemma InPop(stack: seq<nat>, i: nat)
    requires stack != []
    ensures i in stack <==> i in Pop(stack) || i == stack[|stack| - 1]
  {
  }

  /** A forest without the ids of the database. */
  function Unnamed(f: seq<Call>): (r: seq<Call>)
    ensures |r| == |f| && forall i :: 0 <= i < |f| ==> r[i] == f[i].(eventId := 0)
  {
    seq(|f|, i requires 0 <= i < |f| => f[i].(eventId := 0))
  }

  /** With nothing open, the matched trace is the forest of the log. */
  lemma MatchedForest(log: Log, t: nat, tr: Trace, id: nat -> nat)
    requires Inv(log) && t < |log.threads| && Matches(log, t, tr)
    ensures Unnamed(TrueForest(log.events, log.ret, id, Calls(log.events, log.threads[t].queue))) == tr.calls
  {
    assert ThrOk(log, t);
    var cs := Calls(log.events, log.threads[t].queue);
    CallsIncreasing(log.events, log.threads[t].queue);
    forall i | 0 <= i < |cs| ensures ToCall(log.events, log.ret, id, cs, cs[i]).(eventId := 0) == tr.calls[i] {
      assert SlotIs(log.events, log.ret, cs, tr.calls[i], cs[i]);
      if tr.calls[i].parent.Some? { FindAt(cs, tr.calls[i].parent.value); }
    }
  }

  /** Whatever n threads did and in whatever order finalize closed them: the forest the log has for
      thread t is the nesting of that thread's own calls and returns. */
  lemma ForestTold(n: nat, acts: seq<Act>, order: seq<nat>, end: nat, t: nat, id: nat -> nat)
    requires Run(n, acts).Some? && AllBefore(Run(n, acts).value, end) && Covers(Run(n, acts).value, order) && t < n
    ensures var log := CloseAll(Run(n, acts).value, order, end);
            Unnamed(TrueForest(log.events, log.ret, id, Calls(log.events, log.threads[t].queue))) == Told(acts, t, end)
  {
    var acts' := CloseAllIsRun(n, acts, order, end);
    var log := Run(n, acts').value;
    AllClosed(Run(n, acts).value, order, end);
    RunMatches(n, acts', t);
    MatchedForest(log, t, TraceOf(acts', t), id);
    ToldClosed(acts, acts', t, end);
    assert TraceOf(acts', t).stack == [];
    assert Told(acts', t, end) == TraceOf(acts', t).calls;
  }
}
