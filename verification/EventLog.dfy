/** What the logger's wrappers record (logger/src/urts_calls.cpp, logger/src/store.cpp).

    Events are identified by their position in `events`, the order of their construction, where
    the C++ code holds pointers. `frames` is the stack of wrapper invocations a thread is inside:
    each holds the local variable `ecall` or `ocall`. `ret` is history. */
module EventLog {
  import opened Forest
  import opened Options

  datatype Ev =
    | CallEv(thread: nat, time: nat, kind: Kind, callId: nat, prev: Option<nat>)
    | RetEv(thread: nat, time: nat, kind: Kind, call: nat, aex: nat)
    | WaitEv(thread: nat, time: nat, ocall: nat)
    | SetEv(thread: nat, time: nat, ocall: nat, wait: nat)
    | AexEv(thread: nat, time: nat, ecall: nat)
    | PagingEv(thread: nat, time: nat, address: nat)
    | PlainEv(thread: nat, time: nat)

  datatype Thr = Thr(current: Option<nat>, queue: seq<nat>, frames: seq<nat>)

  /** aex[e] is the counter in ECall event e; ret[e] the return event of call e, once there is one. */
  datatype Log = Log(events: seq<Ev>, aex: seq<nat>, ret: seq<Option<nat>>, threads: seq<Thr>)

  datatype Act =
    | Enter(t: nat, kind: Kind, callId: nat, now: nat)
    | Leave(t: nat, now: nat)
    | AepHit(t: nat, trace: bool, now: nat)
    | Wait(t: nat, now: nat)
    | Set(t: nat, wait: nat, now: nat)
    | Paging(t: nat, address: nat, now: nat)
    | Plain(t: nat, now: nat)

  function Init(n: nat): Log { Log([], [], [], seq(n, _ => Thr(None, [], []))) }

  function Top(s: seq<nat>): Option<nat> { if s == [] then None else Some(s[|s| - 1]) }

  function Pop(s: seq<nat>): seq<nat> { if s == [] then [] else s[..|s| - 1] }

  predicate IsCall(events: seq<Ev>, e: nat, kind: Kind) {
    e < |events| && events[e].CallEv? && events[e].kind == kind
  }

  // ----- well-formedness

  predicate FrameOk(events: seq<Ev>, t: nat, frames: seq<nat>, i: nat)
    requires i < |frames|
  {
    && IsCall(events, frames[i], if i % 2 == 0 then ECALL else OCALL)
    && events[frames[i]].thread == t
    && events[frames[i]].prev == if i == 0 then None else Some(frames[i - 1])
  }

  /** The stack links by previous_call and alternates ECall, OCall, ... from the bottom. */
  ghost predicate Chain(events: seq<Ev>, t: nat, frames: seq<nat>) {
    forall i :: 0 <= i < |frames| ==> FrameOk(events, t, frames, i)
  }

  /** Reading an event after the given open calls: a call must name the innermost open call as
      its previous one, everything else must refer to the innermost open call. */
  function Apply(events: seq<Ev>, e: nat, stack: seq<nat>): Option<seq<nat>>
    requires e < |events|
  {
    match events[e]
    case CallEv(_, _, _, _, prev) => if prev == Top(stack) then Some(stack + [e]) else None
    case RetEv(_, _, kind, call, _) =>
      if Some(call) == Top(stack) && IsCall(events, call, kind) then Some(Pop(stack)) else None
    case WaitEv(_, _, ocall) => if Some(ocall) == Top(stack) then Some(stack) else None
    case SetEv(_, _, ocall, _) => if Some(ocall) == Top(stack) then Some(stack) else None
    case AexEv(_, _, ecall) => if Some(ecall) == Top(stack) then Some(stack) else None
    case _ => Some(stack)
  }

  /** The calls open after a queue of events, or None if the queue is not well bracketed. */
  function Replay(events: seq<Ev>, q: seq<nat>): Option<seq<nat>> {
    if q == [] then Some([])
    else
      var n := |q| - 1;
      match Replay(events, q[..n])
      case None => None
      case Some(stack) => if q[n] < |events| then Apply(events, q[n], stack) else None
  }

  /** Only calls and returns take their time from the recording thread's clock when they are recorded:
      a paging event has the time of the kernel's trace, for instance. */
  predicate Timed(ev: Ev) { ev.CallEv? || ev.RetEv? }

  predicate InTime(events: seq<Ev>, a: nat, b: nat)
    requires a < |events| && b < |events|
  {
    Timed(events[a]) && Timed(events[b]) ==> events[a].time <= events[b].time
  }

  ghost predicate QueueOk(events: seq<Ev>, t: nat, q: seq<nat>) {
    && (forall k :: 0 <= k < |q| ==> q[k] < |events| && events[q[k]].thread == t)
    && (forall j, k :: 0 <= j < k < |q| ==> q[j] < q[k] && InTime(events, q[j], q[k]))
  }

  ghost predicate ThrOk(log: Log, t: nat)
    requires t < |log.threads|
  {
    var th := log.threads[t];
    && Chain(log.events, t, th.frames)
    && th.current == Top(th.frames)
    && QueueOk(log.events, t, th.queue)
    && Replay(log.events, th.queue) == Some(th.frames)
  }

  /** References point to earlier events of the right sort. */
  predicate RefsOk(events: seq<Ev>, e: nat)
    requires e < |events|
  {
    match events[e]
    case CallEv(t, _, kind, _, prev) =>
      (match prev
       case None => kind == ECALL
       case Some(p) => p < e && IsCall(events, p, Other(kind)) && events[p].thread == t)
    case RetEv(t, _, kind, call, _) => call < e && IsCall(events, call, kind) && events[call].thread == t
    case WaitEv(_, _, ocall) => ocall < e && IsCall(events, ocall, OCALL)
    case SetEv(_, _, ocall, wait) => ocall < e && IsCall(events, ocall, OCALL) && wait < e && events[wait].WaitEv?
    case AexEv(_, _, ecall) => ecall < e && IsCall(events, ecall, ECALL)
    case _ => true
  }

  ghost predicate AllRefsOk(events: seq<Ev>) {
    forall e :: 0 <= e < |events| ==> RefsOk(events, e)
  }

  /** Every event is in the queue of its thread. */
  ghost predicate Queued(log: Log) {
    forall e :: 0 <= e < |log.events| ==>
      log.events[e].thread < |log.threads| && e in log.threads[log.events[e].thread].queue
  }

  /** Returns and calls match one to one; exactly the calls without a return are open. */
  ghost predicate RetsOk(log: Log) {
    && |log.ret| == |log.events| == |log.aex|
    && (forall c :: 0 <= c < |log.events| ==> match log.ret[c]
          case Some(r) => r < |log.events| && log.events[r].RetEv? && log.events[r].call == c
          case None => true)
    && (forall r :: 0 <= r < |log.events| && log.events[r].RetEv? ==>
          && log.events[r].call < |log.events| && log.ret[log.events[r].call] == Some(r)
          && (log.events[r].kind == ECALL ==> log.events[r].aex == log.aex[log.events[r].call]))
    && (forall c :: 0 <= c < |log.events| && log.events[c].CallEv? && log.events[c].thread < |log.threads| ==>
          (log.ret[c].None? <==> c in log.threads[log.events[c].thread].frames))
  }

  ghost predicate Inv(log: Log) {
    && AllRefsOk(log.events) && Queued(log) && RetsOk(log)
    && forall t :: 0 <= t < |log.threads| ==> ThrOk(log, t)
  }

  // ----- the wrappers

  predicate TimedBy(events: seq<Ev>, e: nat, now: nat)
    requires e < |events|
  {
    Timed(events[e]) ==> events[e].time <= now
  }

  /** A thread sees its clock advance: no call or return of its is later than now. */
  predicate Later(log: Log, t: nat, now: nat)
    requires t < |log.threads|
  {
    var q := log.threads[t].queue;
    forall k :: 0 <= k < |q| ==> q[k] < |log.events| && TimedBy(log.events, q[k], now)
  }

  /** What the SGX runtime allows: an ECall from outside any enclave call or from an OCall, an OCall
      or an asynchronous exit only from inside an ECall, synchronisation only as an OCall, returns
      in the order of the C stack. */
  predicate Enabled(log: Log, a: Act) {
    && a.t < |log.threads|
    && (a.Enter? || a.Leave? ==> Later(log, a.t, a.now))
    && var top := Top(log.threads[a.t].frames);
       match a
       case Enter(_, ECALL, _, _) => top.None? || IsCall(log.events, top.value, OCALL)
       case Enter(_, OCALL, _, _) => top.Some? && IsCall(log.events, top.value, ECALL)
       case Leave(_, _) => top.Some?
       case Wait(_, _) => top.Some? && IsCall(log.events, top.value, OCALL)
       case Set(_, wait, _) =>
         top.Some? && IsCall(log.events, top.value, OCALL) && wait < |log.events| && log.events[wait].WaitEv?
       case _ => true
  }

  /** insert_event: construct the event and push it on the thread's queue. */
  function Insert(log: Log, t: nat, ev: Ev): Log
    requires t < |log.threads|
  {
    var th := log.threads[t];
    Log(log.events + [ev], log.aex + [0], log.ret + [None],
        log.threads[t := th.(queue := th.queue + [|log.events|])])
  }

  function SetThread(log: Log, t: nat, current: Option<nat>, frames: seq<nat>): Log
    requires t < |log.threads|
  {
    log.(threads := log.threads[t := log.threads[t].(current := current, frames := frames)])
  }

  /** sgx_ecall and __ocall_bridge before the real call: record, then make it the current call. */
  function StepEnter(log: Log, t: nat, kind: Kind, callId: nat, now: nat): Log
    requires t < |log.threads|
  {
    var th := log.threads[t];
    var e := |log.events|;
    SetThread(Insert(log, t, CallEv(t, now, kind, callId, th.current)), t, Some(e), th.frames + [e])
  }

  /** Recording the return of call c while cur is current: the counter and the call to go back to
      come from current_call. */
  function Return(log: Log, t: nat, now: nat, c: nat, cur: nat): Log
    requires t < |log.threads| && |log.aex| == |log.ret| == |log.events|
    requires c < |log.events| && log.events[c].CallEv? && cur < |log.events| && log.events[cur].CallEv?
  {
    var kind := log.events[c].kind;
    var log' := SetThread(Insert(log, t, RetEv(t, now, kind, c, if kind == ECALL then log.aex[cur] else 0)),
                          t, log.events[cur].prev, Pop(log.threads[t].frames));
    log'.(ret := log'.ret[c := Some(|log.events|)])
  }

  /** sgx_ecall and __ocall_bridge after the real call: the return refers to the wrapper's local. */
  function StepLeave(log: Log, t: nat, now: nat): Log
    requires Inv(log) && t < |log.threads| && log.threads[t].frames != []
  {
    var th := log.threads[t];
    TopFacts(log, t);
    Return(log, t, now, th.frames[|th.frames| - 1], th.current.value)
  }

  /** __really_new_aep */
  function StepAep(log: Log, t: nat, trace: bool, now: nat): Log
    requires t < |log.threads| && |log.aex| == |log.events|
  {
    var cur := log.threads[t].current;
    if cur.Some? && IsCall(log.events, cur.value, ECALL) then
      var log' := log.(aex := log.aex[cur.value := log.aex[cur.value] + 1]);
      if trace then Insert(log', t, AexEv(t, now, cur.value)) else log'
    else
      log
  }

  function Step(log: Log, a: Act): Log
    requires Inv(log) && Enabled(log, a)
  {
    match a
    case Enter(t, kind, callId, now) => StepEnter(log, t, kind, callId, now)
    case Leave(t, now) => StepLeave(log, t, now)
    case AepHit(t, trace, now) => StepAep(log, t, trace, now)
    case Wait(t, now) => Insert(log, t, WaitEv(t, now, Top(log.threads[t].frames).value))
    case Set(t, wait, now) => Insert(log, t, SetEv(t, now, Top(log.threads[t].frames).value, wait))
    case Paging(t, address, now) => Insert(log, t, PagingEv(t, now, address))
    case Plain(t, now) => Insert(log, t, PlainEv(t, now))
  }

  // ----- every step keeps the invariant

  lemma {:induction false} ReplayExtend(events: seq<Ev>, ev: Ev, q: seq<nat>)
    requires AllRefsOk(events) && forall k :: 0 <= k < |q| ==> q[k] < |events|
    ensures Replay(events + [ev], q) == Replay(events, q)
  {
    if q != [] {
      var n := |q| - 1;
      ReplayExtend(events, ev, q[..n]);
      assert RefsOk(events, q[n]);
      assert (events + [ev])[q[n]] == events[q[n]];
    }
  }

  lemma RefsExtend(events: seq<Ev>, ev: Ev)
    requires AllRefsOk(events) && RefsOk(events + [ev], |events|)
    ensures AllRefsOk(events + [ev])
  {
    forall e | 0 <= e < |events|
      ensures RefsOk(events + [ev], e)
    {
      assert RefsOk(events, e);
    }
  }

  /** Threads other than the acting one are untouched. */
  lemma OtherThread(log: Log, log': Log, ev: Ev, t: nat)
    requires AllRefsOk(log.events) && t < |log.threads| && ThrOk(log, t)
    requires log'.events == log.events + [ev] && |log'.threads| == |log.threads| && log'.threads[t] == log.threads[t]
    ensures ThrOk(log', t)
  {
    ChainExtend(log.events, ev, t, log.threads[t].frames);
    ReplayExtend(log.events, ev, log.threads[t].queue);
  }

  /** The acting thread: its new event is accepted on top of the open calls. */
  lemma OwnThread(log: Log, log': Log, ev: Ev, t: nat)
    requires AllRefsOk(log.events) && t < |log.threads| && ThrOk(log, t)
    requires ev.thread == t && (Timed(ev) ==> Later(log, t, ev.time))
    requires log'.events == log.events + [ev] && |log'.threads| == |log.threads|
    requires log'.threads[t].queue == log.threads[t].queue + [|log.events|]
    requires Apply(log'.events, |log.events|, log.threads[t].frames) == Some(log'.threads[t].frames)
    requires Chain(log'.events, t, log'.threads[t].frames)
    requires log'.threads[t].current == Top(log'.threads[t].frames)
    ensures ThrOk(log', t)
  {
    var q := log.threads[t].queue;
    QueueSnoc(log.events, ev, t, q);
    ReplaySnoc(log.events, ev, q);
  }

  lemma QueueSnoc(events: seq<Ev>, ev: Ev, t: nat, q: seq<nat>)
    requires QueueOk(events, t, q) && ev.thread == t
    requires Timed(ev) ==> forall k :: 0 <= k < |q| ==> TimedBy(events, q[k], ev.time)
    ensures QueueOk(events + [ev], t, q + [|events|])
  {
    var q' := q + [|events|];
    var events' := events + [ev];
    forall j, k | 0 <= j < k < |q'| ensures q'[j] < q'[k] && InTime(events', q'[j], q'[k]) {
      if k < |q| { assert InTime(events, q[j], q[k]); } else if Timed(ev) { assert TimedBy(events, q[j], ev.time); }
    }
  }

  lemma ReplaySnoc(events: seq<Ev>, ev: Ev, q: seq<nat>)
    requires AllRefsOk(events) && (forall k :: 0 <= k < |q| ==> q[k] < |events|) && Replay(events, q).Some?
    ensures Replay(events + [ev], q + [|events|]) == Apply(events + [ev], |events|, Replay(events, q).value)
  {
    ReplayExtend(events, ev, q);
    assert (q + [|events|])[..|q|] == q;
  }

  lemma ChainExtend(events: seq<Ev>, ev: Ev, t: nat, frames: seq<nat>)
    requires Chain(events, t, frames)
    ensures Chain(events + [ev], t, frames)
  {
    forall i | 0 <= i < |frames| ensures FrameOk(events + [ev], t, frames, i) {
      assert FrameOk(events, t, frames, i);
    }
  }

  /** A step that pushes one event and leaves the open calls alone. */
  lemma InsertInv(log: Log, t: nat, ev: Ev)
    requires Inv(log) && t < |log.threads| && ev.thread == t
    requires !ev.CallEv? && !ev.RetEv?
    requires RefsOk(log.events + [ev], |log.events|)
    requires Apply(log.events + [ev], |log.events|, log.threads[t].frames) == Some(log.threads[t].frames)
    ensures Inv(Insert(log, t, ev))
  {
    var log' := Insert(log, t, ev);
    RefsExtend(log.events, ev);
    forall u | 0 <= u < |log'.threads|
      ensures ThrOk(log', u)
    {
      assert ThrOk(log, u);
      if u == t {
        ChainExtend(log.events, ev, t, log.threads[t].frames);
        OwnThread(log, log', ev, t);
      } else {
        OtherThread(log, log', ev, u);
      }
    }
    InsertQueued(log, log', t);
    InsertRets(log, t, ev);
  }

  lemma InsertQueued(log: Log, log': Log, t: nat)
    requires Queued(log) && t < |log.threads| == |log'.threads|
    requires |log'.events| == |log.events| + 1 && log.events <= log'.events && log'.events[|log.events|].thread == t
    requires log'.threads[t].queue == log.threads[t].queue + [|log.events|]
    requires forall u :: 0 <= u < |log.threads| && u != t ==> log'.threads[u].queue == log.threads[u].queue
    ensures Queued(log')
  {
    forall e | 0 <= e < |log'.events|
      ensures log'.events[e].thread < |log'.threads| && e in log'.threads[log'.events[e].thread].queue
    {
      if e == |log.events| {
        assert log'.threads[t].queue[|log.threads[t].queue|] == e;
      } else {
        assert log'.events[e] == log.events[e];
      }
    }
  }

  lemma InsertRets(log: Log, t: nat, ev: Ev)
    requires RetsOk(log) && AllRefsOk(log.events) && t < |log.threads| && !ev.CallEv? && !ev.RetEv?
    ensures RetsOk(Insert(log, t, ev))
  {
  }

  /** A step on the counters alone. */
  lemma AexInv(log: Log, e: nat)
    requires Inv(log) && e < |log.events| && log.events[e].CallEv? && log.ret[e].None?
    ensures Inv(log.(aex := log.aex[e := log.aex[e] + 1]))
  {
    var log' := log.(aex := log.aex[e := log.aex[e] + 1]);
    forall t | 0 <= t < |log'.threads|
      ensures ThrOk(log', t)
    {
      assert ThrOk(log, t);
    }
  }

  lemma ChainTop(events: seq<Ev>, t: nat, f: seq<nat>)
    requires AllRefsOk(events) && Chain(events, t, f) && f != []
    ensures var c := f[|f| - 1];
            && IsCall(events, c, if |f| % 2 == 1 then ECALL else OCALL) && events[c].thread == t
            && events[c].prev == Top(Pop(f))
            && c !in Pop(f)
  {
    assert FrameOk(events, t, f, |f| - 1);
    ChainIncreasing(events, t, f, |f| - 1);
    assert forall x :: x in Pop(f) ==> exists j :: 0 <= j < |f| - 1 && f[j] == x;
  }

  lemma TopFacts(log: Log, t: nat)
    requires Inv(log) && t < |log.threads| && log.threads[t].frames != []
    ensures var c := log.threads[t].frames[|log.threads[t].frames| - 1];
            && c < |log.events| && log.events[c].CallEv? && log.events[c].thread == t
            && log.threads[t].current == Some(c) && log.ret[c].None?
            && log.events[c].prev == Top(Pop(log.threads[t].frames))
            && log.events[c].kind == (if |log.threads[t].frames| % 2 == 1 then ECALL else OCALL)
            && c !in Pop(log.threads[t].frames)
  {
    assert ThrOk(log, t);
    var f := log.threads[t].frames;
    ChainTop(log.events, t, f);
    assert f[|f| - 1] in f;
  }

  lemma {:induction false} ChainIncreasing(events: seq<Ev>, t: nat, frames: seq<nat>, i: nat)
    requires AllRefsOk(events) && Chain(events, t, frames) && i < |frames|
    ensures forall j :: 0 <= j < i ==> frames[j] < frames[i]
  {
    if i > 0 {
      ChainIncreasing(events, t, frames, i - 1);
      assert FrameOk(events, t, frames, i);
      assert RefsOk(events, frames[i]);
    }
  }

  /** Depth parity decides which kind of call may come next. */
  lemma NextKind(log: Log, a: Act)
    requires Inv(log) && Enabled(log, a) && a.Enter?
    ensures a.kind == if |log.threads[a.t].frames| % 2 == 0 then ECALL else OCALL
  {
    if log.threads[a.t].frames != [] { TopFacts(log, a.t); }
  }

  lemma ChainSnoc(events: seq<Ev>, ev: Ev, t: nat, f: seq<nat>)
    requires Chain(events, t, f) && ev.CallEv? && ev.thread == t && ev.prev == Top(f)
    requires ev.kind == if |f| % 2 == 0 then ECALL else OCALL
    ensures Chain(events + [ev], t, f + [|events|])
  {
    forall i | 0 <= i < |f| + 1 ensures FrameOk(events + [ev], t, f + [|events|], i) {
      assert i < |f| ==> FrameOk(events, t, f, i);
    }
  }

  lemma ChainPop(events: seq<Ev>, ev: Ev, t: nat, f: seq<nat>)
    requires Chain(events, t, f)
    ensures Chain(events + [ev], t, Pop(f))
  {
    forall i | 0 <= i < |Pop(f)| ensures FrameOk(events + [ev], t, Pop(f), i) {
      assert FrameOk(events, t, f, i);
    }
  }

  lemma EnterInv(log: Log, a: Act)
    requires Inv(log) && Enabled(log, a) && a.Enter?
    ensures Inv(Step(log, a))
  {
    var t := a.t;
    assert ThrOk(log, t);
    var ev := CallEv(t, a.now, a.kind, a.callId, log.threads[t].current);
    var log' := Step(log, a);
    assert log'.events == log.events + [ev];
    NextKind(log, a);
    ChainSnoc(log.events, ev, t, log.threads[t].frames);
    assert RefsOk(log'.events, |log.events|) by {
      if log.threads[t].frames != [] { TopFacts(log, t); }
    }
    RefsExtend(log.events, ev);
    forall u | 0 <= u < |log'.threads|
      ensures ThrOk(log', u)
    {
      assert ThrOk(log, u);
      if u == t { OwnThread(log, log', ev, t); } else { OtherThread(log, log', ev, u); }
    }
    InsertQueued(log, log', t);
    EnterRets(log, a);
  }

  lemma EnterRets(log: Log, a: Act)
    requires Inv(log) && Enabled(log, a) && a.Enter?
    ensures RetsOk(Step(log, a))
  {
    var log' := Step(log, a);
    var f := log.threads[a.t].frames;
    assert ThrOk(log, a.t);
    forall c | 0 <= c < |log'.events| && log'.events[c].CallEv? && log'.events[c].thread < |log'.threads|
      ensures log'.ret[c].None? <==> c in log'.threads[log'.events[c].thread].frames
    {
      if c == |log.events| {
        assert log'.threads[a.t].frames[|f|] == c;
      } else {
        assert log'.events[c] == log.events[c];
      }
    }
  }

  lemma LeaveInv(log: Log, a: Act)
    requires Inv(log) && Enabled(log, a) && a.Leave?
    ensures Inv(Step(log, a))
  {
    var t := a.t;
    TopFacts(log, t);
    var f := log.threads[t].frames;
    var c := f[|f| - 1];
    var log' := Step(log, a);
    var ev := log'.events[|log.events|];
    assert log'.events == log.events + [ev];
    RefsExtend(log.events, ev);
    assert ThrOk(log, t);
    ChainPop(log.events, ev, t, f);
    forall u | 0 <= u < |log'.threads|
      ensures ThrOk(log', u)
    {
      assert ThrOk(log, u);
      if u == t { OwnThread(log, log', ev, t); } else { OtherThread(log, log', ev, u); }
    }
    InsertQueued(log, log', t);
    LeaveRets(log, a);
  }

  lemma LeaveRets(log: Log, a: Act)
    requires Inv(log) && Enabled(log, a) && a.Leave?
    ensures RetsOk(Step(log, a))
  {
    TopFacts(log, a.t);
    var log' := Step(log, a);
    forall c | 0 <= c < |log'.events| && log'.events[c].CallEv? && log'.events[c].thread < |log'.threads|
      ensures log'.ret[c].None? <==> c in log'.threads[log'.events[c].thread].frames
    {
      LeaveOpen(log, a, c);
    }
    forall r | 0 <= r < |log'.events| && log'.events[r].RetEv?
      ensures log'.events[r].call < |log'.events| && log'.ret[log'.events[r].call] == Some(r)
      ensures log'.events[r].kind == ECALL ==> log'.events[r].aex == log'.aex[log'.events[r].call]
    {
      LeaveMatched(log, a, r);
    }
  }

  lemma LeaveOpen(log: Log, a: Act, c: nat)
    requires Inv(log) && Enabled(log, a) && a.Leave?
    requires c < |log.events| && log.events[c].CallEv?
    ensures var log' := Step(log, a);
            |log'.ret| == |log.events| + 1 && |log'.threads| == |log.threads| && log.events[c].thread < |log.threads|
            && (log'.ret[c].None? <==> c in log'.threads[log.events[c].thread].frames)
  {
    TopFacts(log, a.t);
    PopMember(log.threads[a.t].frames, c);
    OpenIffFramed(log, c);
  }

  /** Without the innermost call, the same other calls are open. */
  lemma PopMember(f: seq<nat>, c: nat)
    requires f != []
    ensures c in f <==> c in Pop(f) || c == f[|f| - 1]
  {
    assert f == Pop(f) + [f[|f| - 1]];
  }

  lemma OpenIffFramed(log: Log, c: nat)
    requires Inv(log) && c < |log.events| && log.events[c].CallEv?
    ensures log.events[c].thread < |log.threads|
    ensures log.ret[c].None? <==> c in log.threads[log.events[c].thread].frames
  {
  }

  lemma LeaveMatched(log: Log, a: Act, r: nat)
    requires Inv(log) && Enabled(log, a) && a.Leave?
    requires var log' := Step(log, a); r < |log'.events| && log'.events[r].RetEv?
    ensures var log' := Step(log, a);
            var ev := log'.events[r];
            && |log'.ret| == |log'.aex| == |log'.events|
            && ev.call < |log'.events| && log'.ret[ev.call] == Some(r)
            && (ev.kind == ECALL ==> ev.aex == log'.aex[ev.call])
  {
    TopFacts(log, a.t);
    if r < |log.events| { assert Step(log, a).events[r] == log.events[r]; }
  }

  lemma AepCount(log: Log, log': Log, t: nat, e: nat)
    requires Inv(log) && t < |log.threads| && log.threads[t].current == Some(e) && IsCall(log.events, e, ECALL)
    requires log' == log.(aex := log.aex[e := log.aex[e] + 1])
    ensures Inv(log') && Top(log'.threads[t].frames) == Some(e)
  {
    assert ThrOk(log, t);
    TopFacts(log, t);
    AexInv(log, e);
  }

  lemma AepInv(log: Log, t: nat, trace: bool, now: nat)
    requires Inv(log) && t < |log.threads|
    ensures Inv(StepAep(log, t, trace, now))
  {
    var cur := log.threads[t].current;
    if cur.Some? && IsCall(log.events, cur.value, ECALL) { AepInside(log, t, cur.value, trace, now); }
  }

  lemma AepInside(log: Log, t: nat, e: nat, trace: bool, now: nat)
    requires Inv(log) && t < |log.threads| && log.threads[t].current == Some(e) && IsCall(log.events, e, ECALL)
    ensures Inv(StepAep(log, t, trace, now))
  {
    var log' := log.(aex := log.aex[e := log.aex[e] + 1]);
    AepCount(log, log', t, e);
    if trace { AepTrace(log', t, e, now); }
  }

  lemma AepTrace(log: Log, t: nat, e: nat, now: nat)
    requires Inv(log) && t < |log.threads| && Top(log.threads[t].frames) == Some(e) && IsCall(log.events, e, ECALL)
    ensures Inv(Insert(log, t, AexEv(t, now, e)))
  {
    InsertInv(log, t, AexEv(t, now, e));
  }

  lemma StepInv(log: Log, a: Act)
    requires Inv(log) && Enabled(log, a)
    ensures Inv(Step(log, a))
  {
    match a
    case Enter(_, _, _, _) => EnterInv(log, a);
    case Leave(_, _) => LeaveInv(log, a);
    case AepHit(t, trace, now) => AepInv(log, t, trace, now);
    case Wait(t, now) => InsertInv(log, t, WaitEv(t, now, Top(log.threads[t].frames).value));
    case Set(t, wait, now) => InsertInv(log, t, SetEv(t, now, Top(log.threads[t].frames).value, wait));
    case Paging(t, address, now) => InsertInv(log, t, PagingEv(t, now, address));
    case Plain(t, now) => InsertInv(log, t, PlainEv(t, now));
  }
}
