/** The logger's mutable state and the wrappers that change it, one method per stretch of code
    that touches it (logger/src/urts_calls.cpp, logger/src/store.cpp). */
module Recorder {
  import opened Forest
  import opened Options
  import opened EventLog
  import opened EventRuns

  /** current_call is set exactly while a call is open, and then it is the wrapper's local. */
  lemma OpenFrames(log: Log, t: nat)
    requires Inv(log) && t < |log.threads|
    ensures log.threads[t].current.None? <==> log.threads[t].frames == []
    ensures log.threads[t].frames != [] ==>
              var c := log.threads[t].frames[|log.threads[t].frames| - 1];
              log.threads[t].current == Some(c) && c < |log.events| && log.events[c].CallEv?
  {
    assert ThrOk(log, t);
    if log.threads[t].frames != [] { TopFacts(log, t); }
  }

  class EventStore {
    var events: seq<Ev>            // every event constructed so far
    var aexCounter: seq<nat>       // EnclaveECallEvent::aex_counter, by event
    var threads: seq<Thr>          // queue and current_call per thread; frames are the C stacks
    ghost var ret: seq<Option<nat>>

    ghost function View(): Log
      reads this
    {
      Log(events, aexCounter, ret, threads)
    }

    ghost predicate Valid()
      reads this
    {
      Inv(View())
    }

    constructor (n: nat)
      ensures Valid() && View() == EventLog.Init(n)
    {
      events, aexCounter, ret := [], [], [];
      threads := seq(n, _ => Thr(None, [], []));
      new;
      InitInv(n);
    }

    /** insert_event for a thread that already has its record: the event gets the thread's id. */
    method InsertEvent(t: nat, ev: Ev)
      requires t < |threads|
      modifies this
      ensures View() == Insert(old(View()), t, ev.(thread := t))
    {
      var e := |events|;
      events := events + [ev.(thread := t)];
      aexCounter := aexCounter + [0];
      ret := ret + [None];
      threads := threads[t := threads[t].(queue := threads[t].queue + [e])];
    }

    /** sgx_ecall and __ocall_bridge, up to the real call. */
    method PushCall(t: nat, kind: Kind, callId: nat, now: nat)
      requires t < |threads|
      modifies this
      ensures View() == StepEnter(old(View()), t, kind, callId, now)
    {
      var call := |events|;
      var stack := threads[t].frames;
      InsertEvent(t, CallEv(t, now, kind, callId, threads[t].current));
      threads := threads[t := threads[t].(current := Some(call))];
      threads := threads[t := threads[t].(frames := stack + [call])];
    }

    /** ... and after it, with the wrapper's local `call`. */
    method PopCall(t: nat, now: nat, call: nat, cur: nat)
      requires t < |threads| && |aexCounter| == |ret| == |events|
      requires call < |events| && events[call].CallEv? && cur < |events| && events[cur].CallEv?
      modifies this
      ensures View() == Return(old(View()), t, now, call, cur)
    {
      var r := |events|;
      var kind := events[call].kind;
      var prev := events[cur].prev;
      InsertEvent(t, RetEv(t, now, kind, call, if kind == ECALL then aexCounter[cur] else 0));
      threads := threads[t := threads[t].(current := prev)];
      threads := threads[t := threads[t].(frames := Pop(threads[t].frames))];
      ret := ret[call := Some(r)];
    }

    method EnterCall(t: nat, kind: Kind, callId: nat, now: nat)
      requires Valid() && Enabled(View(), Enter(t, kind, callId, now))
      modifies this
      ensures Valid() && View() == Step(old(View()), Enter(t, kind, callId, now))
    {
      StepInv(View(), Enter(t, kind, callId, now));
      PushCall(t, kind, callId, now);
    }

    method LeaveCall(t: nat, now: nat)
      requires Valid() && Enabled(View(), Leave(t, now))
      modifies this
      ensures Valid() && View() == Step(old(View()), Leave(t, now))
    {
      StepInv(View(), Leave(t, now));
      TopFacts(View(), t);
      var stack := threads[t].frames;
      PopCall(t, now, stack[|stack| - 1], threads[t].current.value);
    }

    /** __really_new_aep */
    method CountAex(t: nat, trace: bool, now: nat)
      requires Valid() && Enabled(View(), AepHit(t, trace, now))
      modifies this
      ensures Valid() && View() == Step(old(View()), AepHit(t, trace, now))
      ensures var cur := old(threads[t].current);
              if cur.Some? && IsCall(old(events), cur.value, ECALL) then
                && aexCounter[cur.value] == old(aexCounter[cur.value]) + 1
                && events == old(events) + if trace then [AexEv(t, now, cur.value)] else []
              else View() == old(View())
    {
      StepInv(View(), AepHit(t, trace, now));
      var cur := threads[t].current;
      if cur.Some? && IsCall(events, cur.value, ECALL) {
        aexCounter := aexCounter[cur.value := aexCounter[cur.value] + 1];
        if trace {
          InsertEvent(t, AexEv(t, now, cur.value));
        }
      }
    }

    /** The inner loop of finalize: follow current_call to the bottom, returning from each. */
    method CloseThread(t: nat, end: nat)
      requires Valid() && t < |threads| && AllBefore(View(), end)
      modifies this
      ensures Valid() && View() == Close(old(View()), t, end)
    {
      while threads[t].current.Some?
        invariant Valid() && t < |threads| && AllBefore(View(), end)
        invariant Close(View(), t, end) == Close(old(View()), t, end)
        decreases |threads[t].frames|
      {
        ghost var was := View();
        OpenFrames(was, t);
        CloseOneStep(was, t, end);
        CloseOneBefore(was, t, end);
        CloseOneShape(was, t, end);
        var cur := threads[t].current.value;
        PopCall(t, end, cur, cur);
      }
      OpenFrames(View(), t);
    }

    /** finalize: the threads of the live map are closed, the finished ones have no open call, and
        afterwards nothing is open. */
    method Finalize(order: seq<nat>, end: nat)
      requires Valid() && AllBefore(View(), end) && Covers(View(), order)
      modifies this
      ensures Valid() && View() == CloseAll(old(View()), order, end) && Quiet(View())
    {
      ghost var was := View();
      for k := 0 to |order|
        invariant Valid() && AllBefore(View(), end) && |threads| == |was.threads|
        invariant CloseAll(View(), order[k..], end) == CloseAll(was, order, end)
      {
        assert order[k..][1..] == order[k + 1..];
        CloseThread(order[k], end);
      }
      AllClosed(was, order, end);
    }
  }
}
