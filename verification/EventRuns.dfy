/** Whole runs of the logger: what is recorded whatever the threads do, and what finalize adds. */
module EventRuns {
  import opened Forest
  import opened Options
  import opened EventLog

  lemma InitInv(n: nat)
    ensures Inv(EventLog.Init(n))
  {
    var log := EventLog.Init(n);
    forall t | 0 <= t < n ensures ThrOk(log, t) { }
  }

  lemma StepThreads(log: Log, a: Act)
    requires Inv(log) && Enabled(log, a)
    ensures |Step(log, a).threads| == |log.threads|
  {
  }

  /** The state after a run of n threads, or None if some step was not enabled. */
  ghost function Run(n: nat, acts: seq<Act>): (r: Option<Log>)
    ensures r.Some? ==> Inv(r.value) && |r.value.threads| == n
    decreases |acts|
  {
    if acts == [] then
      InitInv(n);
      Some(EventLog.Init(n))
    else
      var k := |acts| - 1;
      match Run(n, acts[..k])
      case None => None
      case Some(log) =>
        if Enabled(log, acts[k]) then
          StepInv(log, acts[k]);
          StepThreads(log, acts[k]);
          Some(Step(log, acts[k]))
        else None
  }

  lemma OpenCall(log: Log, t: nat, i: nat)
    requires Inv(log) && t < |log.threads| && i < |log.threads[t].frames|
    ensures var f := log.threads[t].frames;
            && f[i] < |log.events| && log.events[f[i]].CallEv? && log.ret[f[i]].None?
            && log.events[f[i]].prev == if i == 0 then None else Some(f[i - 1])
  {
    var f := log.threads[t].frames;
    assert ThrOk(log, t);
    assert FrameOk(log.events, t, f, i);
    assert f[i] in f;
  }

  /** In every run: current_call is the innermost open call, each thread's queue is well bracketed
      (each call names the call enclosing it, returns come in LIFO order), and each open call's
      previous_call is the open call below it. */
  lemma WellBracketed(n: nat, acts: seq<Act>, t: nat, i: nat)
    requires Run(n, acts).Some? && t < n
    ensures var log := Run(n, acts).value;
            var th := log.threads[t];
            && Replay(log.events, th.queue) == Some(th.frames)
            && th.current == Top(th.frames)
            && (i < |th.frames| ==>
                  && th.frames[i] < |log.events| && log.events[th.frames[i]].CallEv?
                  && log.ret[th.frames[i]].None?
                  && log.events[th.frames[i]].prev == if i == 0 then None else Some(th.frames[i - 1]))
  {
    var log := Run(n, acts).value;
    assert ThrOk(log, t);
    if i < |log.threads[t].frames| { OpenCall(log, t, i); }
  }

  // ----- asynchronous exits

  /** The exit handler ran on a thread whose innermost wrapper is the one of call c. */
  ghost predicate HitAt(n: nat, acts: seq<Act>, k: nat, c: nat)
    requires k < |acts|
  {
    && acts[k].AepHit?
    && Run(n, acts[..k]).Some? && acts[k].t < n
    && Top(Run(n, acts[..k]).value.threads[acts[k].t].frames) == Some(c)
  }

  /** The asynchronous exits of a run that happened while call c was innermost. */
  ghost function Hits(n: nat, acts: seq<Act>, c: nat): nat
    decreases |acts|
  {
    if acts == [] then 0
    else Hits(n, acts[..|acts| - 1], c) + if HitAt(n, acts, |acts| - 1, c) then 1 else 0
  }

  /** The counter of an open call goes up exactly when the step is an exit inside that call. */
  lemma CounterStep(log: Log, a: Act, c: nat)
    requires Inv(log) && Enabled(log, a)
    ensures |Step(log, a).aex| >= |log.aex|
    ensures c < |log.aex| && IsCall(log.events, c, ECALL) ==>
              Step(log, a).aex[c] == log.aex[c] + if a.AepHit? && Top(log.threads[a.t].frames) == Some(c) then 1 else 0
    ensures |log.aex| <= c < |Step(log, a).aex| ==> Step(log, a).aex[c] == 0
  {
    assert ThrOk(log, a.t);
  }

  lemma TopIsOld(log: Log, t: nat)
    requires Inv(log) && t < |log.threads| && log.threads[t].frames != []
    ensures Top(log.threads[t].frames).value < |log.events|
  {
    TopFacts(log, t);
  }

  lemma StepEvents(log: Log, a: Act)
    requires Inv(log) && Enabled(log, a)
    ensures log.events <= Step(log, a).events
    ensures |Step(log, a).aex| == |Step(log, a).events|
  {
    StepInv(log, a);
  }

  lemma {:induction false} CountersExact(n: nat, acts: seq<Act>, c: nat)
    requires Run(n, acts).Some?
    ensures var log := Run(n, acts).value;
            && (c < |log.events| && IsCall(log.events, c, ECALL) ==> log.aex[c] == Hits(n, acts, c))
            && (c >= |log.events| ==> Hits(n, acts, c) == 0)
    decreases |acts|
  {
    if acts != [] {
      var k := |acts| - 1;
      var before := Run(n, acts[..k]).value;
      var log := Run(n, acts).value;
      CountersExact(n, acts[..k], c);
      CounterStep(before, acts[k], c);
      StepEvents(before, acts[k]);
      if before.threads[acts[k].t].frames != [] { TopIsOld(before, acts[k].t); }
      if c < |before.events| { assert log.events[c] == before.events[c]; }
    }
  }

  /** The aex_count stored in an ECall's return is the number of exits over the whole run that
      happened while that ECall was innermost. */
  lemma AexExact(n: nat, acts: seq<Act>, r: nat)
    requires Run(n, acts).Some?
    requires var log := Run(n, acts).value; r < |log.events| && log.events[r].RetEv? && log.events[r].kind == ECALL
    ensures var log := Run(n, acts).value; log.events[r].aex == Hits(n, acts, log.events[r].call)
  {
    var log := Run(n, acts).value;
    assert RefsOk(log.events, r);
    CountersExact(n, acts, log.events[r].call);
  }

  // ----- finalize

  ghost predicate Quiet(log: Log) {
    forall t :: 0 <= t < |log.threads| ==> log.threads[t].frames == []
  }

  ghost predicate AllBefore(log: Log, time: nat) {
    forall e :: 0 <= e < |log.events| ==> TimedBy(log.events, e, time)
  }

  lemma BeforeLater(log: Log, t: nat, time: nat)
    requires Inv(log) && AllBefore(log, time) && t < |log.threads|
    ensures Later(log, t, time)
  {
    assert ThrOk(log, t);
  }

  /** The return of the innermost open call, at the end time. */
  function CloseOne(log: Log, t: nat, end: nat): Log
    requires Inv(log) && t < |log.threads| && log.threads[t].frames != []
  {
    StepLeave(log, t, end)
  }

  lemma CloseOneBefore(log: Log, t: nat, end: nat)
    requires Inv(log) && t < |log.threads| && log.threads[t].frames != [] && AllBefore(log, end)
    ensures AllBefore(CloseOne(log, t, end), end)
  {
    var r := CloseOne(log, t, end);
    forall e | 0 <= e < |r.events| ensures TimedBy(r.events, e, end) {
      if e < |log.events| { assert TimedBy(log.events, e, end); }
    }
  }

  lemma CloseOneShape(log: Log, t: nat, end: nat)
    requires Inv(log) && t < |log.threads| && log.threads[t].frames != []
    ensures var r := CloseOne(log, t, end);
            && log.events <= r.events && |r.threads| == |log.threads|
            && r.threads[t].frames == Pop(log.threads[t].frames)
            && forall u :: 0 <= u < |log.threads| && u != t ==> r.threads[u] == log.threads[u]
  {
  }

  /** It is an ordinary step. */
  lemma CloseOneStep(log: Log, t: nat, end: nat)
    requires Inv(log) && t < |log.threads| && log.threads[t].frames != [] && AllBefore(log, end)
    ensures Enabled(log, Leave(t, end)) && Step(log, Leave(t, end)) == CloseOne(log, t, end)
    ensures Inv(CloseOne(log, t, end))
  {
    BeforeLater(log, t, end);
    StepInv(log, Leave(t, end));
  }

  /** Closing a thread's open calls is a sequence of returns at the end time. */
  ghost function Close(log: Log, t: nat, end: nat): (r: Log)
    requires Inv(log) && t < |log.threads| && AllBefore(log, end)
    ensures Inv(r) && AllBefore(r, end) && log.events <= r.events
    ensures |r.threads| == |log.threads| && r.threads[t].frames == []
    ensures forall u :: 0 <= u < |log.threads| && u != t ==> r.threads[u] == log.threads[u]
    decreases |log.threads[t].frames|
  {
    if log.threads[t].frames == [] then log
    else
      CloseOneStep(log, t, end);
      CloseOneBefore(log, t, end);
      CloseOneShape(log, t, end);
      Close(CloseOne(log, t, end), t, end)
  }

  /** finalize closes the threads of the live map one after the other, in whatever order the map
      yields them. */
  ghost function CloseAll(log: Log, order: seq<nat>, end: nat): (r: Log)
    requires Inv(log) && AllBefore(log, end) && forall k :: 0 <= k < |order| ==> order[k] < |log.threads|
    ensures Inv(r) && AllBefore(r, end) && log.events <= r.events && |r.threads| == |log.threads|
    decreases |order|
  {
    if order == [] then log
    else CloseAll(Close(log, order[0], end), order[1..], end)
  }

  lemma {:induction false} CloseAllFrames(log: Log, order: seq<nat>, end: nat, t: nat)
    requires Inv(log) && AllBefore(log, end) && forall k :: 0 <= k < |order| ==> order[k] < |log.threads|
    requires t < |log.threads| && (t in order || log.threads[t].frames == [])
    ensures CloseAll(log, order, end).threads[t].frames == []
    decreases |order|
  {
    if order != [] {
      var mid := Close(log, order[0], end);
      assert t in order ==> t == order[0] || t in order[1..];
      CloseAllFrames(mid, order[1..], end, t);
    }
  }

  /** The threads listed, or already without an open call, are all threads. */
  ghost predicate Covers(log: Log, order: seq<nat>) {
    && (forall k :: 0 <= k < |order| ==> order[k] < |log.threads|)
    && (forall t :: 0 <= t < |log.threads| ==> t in order || log.threads[t].frames == [])
  }

  lemma AllClosed(log: Log, order: seq<nat>, end: nat)
    requires Inv(log) && AllBefore(log, end) && Covers(log, order)
    ensures Quiet(CloseAll(log, order, end))
  {
    var r := CloseAll(log, order, end);
    forall t | 0 <= t < |r.threads| ensures r.threads[t].frames == [] {
      CloseAllFrames(log, order, end, t);
    }
  }

  lemma RunSnoc(n: nat, acts: seq<Act>, a: Act)
    requires Run(n, acts).Some? && Enabled(Run(n, acts).value, a)
    ensures Run(n, acts + [a]) == Some(Step(Run(n, acts).value, a))
  {
    assert (acts + [a])[..|acts|] == acts;
  }

  /** All steps from the given one on are returns at the end time. */
  predicate OnlyReturns(acts: seq<Act>, from: nat, end: nat) {
    forall k :: from <= k < |acts| ==> acts[k] == Leave(acts[k].t, end)
  }

  /** So a finalized log is itself the result of a run, and all that holds of runs holds of it. */
  lemma {:induction false} CloseIsRun(n: nat, acts: seq<Act>, t: nat, end: nat) returns (acts': seq<Act>)
    requires Run(n, acts).Some? && t < n && AllBefore(Run(n, acts).value, end)
    ensures acts <= acts' && Run(n, acts') == Some(Close(Run(n, acts).value, t, end))
    ensures OnlyReturns(acts', |acts|, end)
    decreases |Run(n, acts).value.threads[t].frames|
  {
    var log := Run(n, acts).value;
    if log.threads[t].frames == [] {
      acts' := acts;
    } else {
      CloseOneStep(log, t, end);
      CloseOneBefore(log, t, end);
      CloseOneShape(log, t, end);
      RunSnoc(n, acts, Leave(t, end));
      acts' := CloseIsRun(n, acts + [Leave(t, end)], t, end);
    }
  }

  lemma {:induction false} CloseAllIsRun(n: nat, acts: seq<Act>, order: seq<nat>, end: nat) returns (acts': seq<Act>)
    requires Run(n, acts).Some? && AllBefore(Run(n, acts).value, end)
    requires forall k :: 0 <= k < |order| ==> order[k] < n
    ensures acts <= acts' && Run(n, acts') == Some(CloseAll(Run(n, acts).value, order, end))
    ensures OnlyReturns(acts', |acts|, end)
    decreases |order|
  {
    if order == [] {
      acts' := acts;
    } else {
      var mid := CloseIsRun(n, acts, order[0], end);
      acts' := CloseAllIsRun(n, mid, order[1..], end);
    }
  }

  lemma HasReturn(log: Log, c: nat)
    requires Inv(log) && Quiet(log) && c < |log.events| && log.events[c].CallEv?
    ensures log.ret[c].Some? && log.ret[c].value < |log.events|
    ensures var r := log.events[log.ret[c].value]; r.RetEv? && r.call == c && r.thread == log.events[c].thread
  {
    assert log.events[c].thread < |log.threads| && c in log.threads[log.events[c].thread].queue;
    assert RefsOk(log.events, log.ret[c].value);
  }

  /** After finalize every queue is balanced and every call has exactly one return. */
  lemma Finalized(log: Log)
    requires Inv(log) && Quiet(log)
    ensures forall t :: 0 <= t < |log.threads| ==>
              Replay(log.events, log.threads[t].queue) == Some([]) && log.threads[t].current == None
    ensures forall c :: 0 <= c < |log.events| && log.events[c].CallEv? ==>
              && log.ret[c].Some?
              && (forall r :: 0 <= r < |log.events| ==>
                    (log.events[r].RetEv? && log.events[r].call == c <==> r == log.ret[c].value))
  {
    forall t | 0 <= t < |log.threads|
      ensures Replay(log.events, log.threads[t].queue) == Some([]) && log.threads[t].current == None
    {
      assert ThrOk(log, t);
    }
  }
}
