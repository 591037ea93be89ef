/** The whole log told from what the threads did (logger/src/urts_calls.cpp): a step is known by its
    position in the run, a call by the step that entered it. No state of the logger is used. */
module LogStory {
  import opened Forest
  import opened Options
  import opened EventLog
  import opened EventRuns

  /** The steps whose calls thread t is inside, outermost first. */
  function Inside(acts: seq<Act>, t: nat): (r: seq<nat>)
    ensures forall i :: 0 <= i < |r| ==> r[i] < |acts| && acts[r[i]].Enter? && acts[r[i]].t == t
  {
    if acts == [] then []
    else
      var k := |acts| - 1;
      var before := Inside(acts[..k], t);
      if acts[k].t != t then before
      else if acts[k].Enter? then before + [k]
      else if acts[k].Leave? then Pop(before)
      else before
  }

  /** Thread t has just entered the call of step s, or is back in it. */
  predicate Innermost(acts: seq<Act>, t: nat, s: nat) { Top(Inside(acts, t)) == Some(s) }

  predicate InEcall(acts: seq<Act>, t: nat) {
    Inside(acts, t) != [] && acts[Top(Inside(acts, t)).value].kind == ECALL
  }

  /** The asynchronous exits of a thread while the call of step s was its innermost one. */
  function ExitsIn(acts: seq<Act>, t: nat, s: nat): nat {
    if acts == [] then 0
    else
      var k := |acts| - 1;
      ExitsIn(acts[..k], t, s) + if acts[k].AepHit? && acts[k].t == t && Innermost(acts[..k], t, s) then 1 else 0
  }

  /** Those of them that were traced and happened at the given time. */
  function TracedIn(acts: seq<Act>, t: nat, s: nat, now: nat): nat {
    if acts == [] then 0
    else
      var k := |acts| - 1;
      TracedIn(acts[..k], t, s, now) + if acts[k] == AepHit(t, true, now) && Innermost(acts[..k], t, s) then 1 else 0
  }

  /** What is recorded in step a after the steps before: one event, or none for an exit that is not
      traced or happens outside of an ECall. */
  function Written(before: seq<Act>, a: Act): seq<Ev>
    decreases |before|, 1
  {
    var inside := Inside(before, a.t);
    match a
    case Enter(t, kind, callId, now) =>
      [CallEv(t, now, kind, callId, if inside == [] then None else Some(CallOf(before, Top(inside).value)))]
    case Leave(t, now) =>
      if inside == [] then []
      else
        var s := Top(inside).value;
        [RetEv(t, now, before[s].kind, CallOf(before, s), if before[s].kind == ECALL then ExitsIn(before, t, s) else 0)]
    case AepHit(t, trace, now) =>
      if trace && InEcall(before, t) then [AexEv(t, now, CallOf(before, Top(inside).value))] else []
    case Wait(t, now) => if inside == [] then [] else [WaitEv(t, now, CallOf(before, Top(inside).value))]
    case Set(t, wait, now) => if inside == [] then [] else [SetEv(t, now, CallOf(before, Top(inside).value), wait)]
    case Paging(t, address, now) => [PagingEv(t, now, address)]
    case Plain(t, now) => [PlainEv(t, now)]
  }

  function Story(acts: seq<Act>): seq<Ev>
    decreases |acts|, 0
  {
    if acts == [] then [] else Story(acts[..|acts| - 1]) + Written(acts[..|acts| - 1], acts[|acts| - 1])
  }

  /** The event of the call that step s enters. */
  function CallOf(acts: seq<Act>, s: nat): nat
    requires s < |acts|
    decreases |acts|, 0
  {
    |Story(acts[..s])|
  }

  lemma CallOfPrefix(acts: seq<Act>, k: nat, s: nat)
    requires s < k <= |acts|
    ensures CallOf(acts[..k], s) == CallOf(acts, s)
  {
    assert acts[..k][..s] == acts[..s];
  }

  // ----- the log is its story

  /** The open calls of thread t are those it is inside. */
  ghost predicate FramesTold(acts: seq<Act>, log: Log, t: nat)
    requires t < |log.threads|
  {
    var inside, frames := Inside(acts, t), log.threads[t].frames;
    |inside| == |frames| && forall i :: 0 <= i < |inside| ==> CallOf(acts, inside[i]) == frames[i]
  }

  /** The counter of the ECall that step s enters. */
  ghost predicate CounterTold(acts: seq<Act>, log: Log, s: nat)
    requires s < |acts| && acts[s].Enter?
  {
    acts[s].kind == ECALL ==>
      CallOf(acts, s) < |log.aex| && log.aex[CallOf(acts, s)] == ExitsIn(acts, acts[s].t, s)
  }

  ghost predicate LogTold(acts: seq<Act>, log: Log) {
    && log.events == Story(acts)
    && (forall t :: 0 <= t < |log.threads| ==> FramesTold(acts, log, t))
    && (forall s :: 0 <= s < |acts| && acts[s].Enter? ==> CounterTold(acts, log, s))
  }

  lemma {:induction false} StoryPrefix(acts: seq<Act>, k: nat)
    requires k <= |acts|
    ensures Story(acts[..k]) <= Story(acts)
  {
    if k < |acts| {
      StoryPrefix(acts[..|acts| - 1], k);
      assert acts[..|acts| - 1][..k] == acts[..k];
    } else {
      assert acts[..k] == acts;
    }
  }

  /** The event of step k stands where the story before it ends. */
  lemma StoryAt(acts: seq<Act>, k: nat)
    requires k < |acts|
    ensures Story(acts[..k]) + Written(acts[..k], acts[k]) <= Story(acts)
  {
    var now := acts[..k + 1];
    StoryPrefix(acts, k + 1);
    assert now[..k] == acts[..k] && now[k] == acts[k];
  }

  lemma CallAt(acts: seq<Act>, s: nat)
    requires s < |acts| && acts[s].Enter?
    ensures CallOf(acts, s) < |Story(acts)|
    ensures var ev := Story(acts)[CallOf(acts, s)]; ev.CallEv? && ev.kind == acts[s].kind && ev.thread == acts[s].t
  {
    StoryAt(acts, s);
    var before := Story(acts[..s]);
    assert (before + Written(acts[..s], acts[s]))[|before|] == Written(acts[..s], acts[s])[0];
  }

  /** Different calls have different events. */
  lemma CallsDiffer(acts: seq<Act>, s: nat, s': nat)
    requires s < |acts| && s' < |acts| && acts[s].Enter? && acts[s'].Enter? && CallOf(acts, s) == CallOf(acts, s')
    ensures s == s'
  {
    var lo, hi := if s < s' then s else s', if s < s' then s' else s;
    if lo < hi {
      CallAt(acts[..hi], lo);
      CallOfPrefix(acts, hi, lo);
    }
  }

  lemma SnocStep(acts: seq<Act>, a: Act)
    ensures Story(acts + [a]) == Story(acts) + Written(acts, a)
    ensures CallOf(acts + [a], |acts|) == |Story(acts)|
    ensures forall s :: 0 <= s < |acts| ==> CallOf(acts + [a], s) == CallOf(acts, s)
  {
    var acts' := acts + [a];
    assert acts'[..|acts|] == acts;
    forall s | 0 <= s < |acts| ensures CallOf(acts', s) == CallOf(acts, s) { CallOfPrefix(acts', |acts|, s); }
  }

  lemma InsideSnoc(acts: seq<Act>, a: Act, t: nat)
    ensures Inside(acts + [a], t) == if a.t != t then Inside(acts, t) else match a
              case Enter(_, _, _, _) => Inside(acts, t) + [|acts|]
              case Leave(_, _) => Pop(Inside(acts, t))
              case _ => Inside(acts, t)
  {
    assert (acts + [a])[..|acts|] == acts;
  }

  lemma ExitsSnoc(acts: seq<Act>, a: Act, t: nat, s: nat)
    ensures ExitsIn(acts + [a], t, s) ==
            ExitsIn(acts, t, s) + if a.AepHit? && a.t == t && Innermost(acts, t, s) then 1 else 0
  {
    assert (acts + [a])[..|acts|] == acts;
  }

  lemma {:induction false} NoExitsYet(acts: seq<Act>, t: nat, s: nat)
    requires |acts| <= s
    ensures ExitsIn(acts, t, s) == 0
  {
    if acts != [] { NoExitsYet(acts[..|acts| - 1], t, s); }
  }

  /** What thread t is inside, against its open calls. */
  lemma TopTold(acts: seq<Act>, log: Log, t: nat)
    requires Inv(log) && LogTold(acts, log) && t < |log.threads|
    ensures var inside, th := Inside(acts, t), log.threads[t];
            && th.current == Top(th.frames)
            && (inside == [] <==> th.frames == [])
            && (inside != [] ==>
                  var s := Top(inside).value;
                  && s < |acts| && acts[s].Enter? && acts[s].t == t
                  && Top(th.frames) == Some(CallOf(acts, s)) && CallOf(acts, s) < |log.events|
                  && log.events[CallOf(acts, s)].CallEv? && log.events[CallOf(acts, s)].kind == acts[s].kind)
  {
    assert ThrOk(log, t) && FramesTold(acts, log, t);
    if Inside(acts, t) != [] { CallAt(acts, Top(Inside(acts, t)).value); }
  }

  lemma InnermostTold(acts: seq<Act>, log: Log, t: nat, s: nat)
    requires Inv(log) && LogTold(acts, log) && t < |log.threads| && s < |acts| && acts[s].Enter?
    ensures Innermost(acts, t, s) <==> Top(log.threads[t].frames) == Some(CallOf(acts, s))
    ensures Innermost(acts, t, s) ==> acts[s].t == t
  {
    TopTold(acts, log, t);
    var inside := Inside(acts, t);
    if inside != [] && CallOf(acts, Top(inside).value) == CallOf(acts, s) { CallsDiffer(acts, Top(inside).value, s); }
  }

  lemma EventsTold(acts: seq<Act>, log: Log, a: Act)
    requires Inv(log) && LogTold(acts, log) && Enabled(log, a)
    ensures Step(log, a).events == log.events + Written(acts, a)
  {
    TopTold(acts, log, a.t);
    if a.Leave? {
      TopFacts(log, a.t);
      assert CounterTold(acts, log, Top(Inside(acts, a.t)).value);
    }
  }

  /** What a step does to the open calls of a thread. */
  lemma StepFrames(log: Log, a: Act, t: nat)
    requires Inv(log) && Enabled(log, a) && t < |log.threads|
    ensures |Step(log, a).threads| == |log.threads|
    ensures Step(log, a).threads[t].frames ==
            var f := log.threads[t].frames;
            if a.t != t then f else if a.Enter? then f + [|log.events|] else if a.Leave? then Pop(f) else f
  {
  }

  lemma FramesStep(acts: seq<Act>, log: Log, a: Act, t: nat)
    requires Inv(log) && LogTold(acts, log) && Enabled(log, a) && t < |log.threads|
    ensures |Step(log, a).threads| == |log.threads| && FramesTold(acts + [a], Step(log, a), t)
  {
    assert FramesTold(acts, log, t);
    SnocStep(acts, a);
    InsideSnoc(acts, a, t);
    StepFrames(log, a, t);
  }

  lemma CounterTellsOld(acts: seq<Act>, log: Log, a: Act, s: nat)
    requires Inv(log) && LogTold(acts, log) && Enabled(log, a) && s < |acts| && acts[s].Enter? && acts[s].kind == ECALL
    ensures CounterTold(acts + [a], Step(log, a), s)
  {
    assert CounterTold(acts, log, s);
    SnocStep(acts, a);
    CallAt(acts, s);
    ExitsSnoc(acts, a, acts[s].t, s);
    InnermostTold(acts, log, a.t, s);
    CounterStep(log, a, CallOf(acts, s));
  }

  lemma CounterTellsNew(acts: seq<Act>, log: Log, a: Act)
    requires Inv(log) && LogTold(acts, log) && Enabled(log, a) && a.Enter?
    ensures CounterTold(acts + [a], Step(log, a), |acts|)
  {
    SnocStep(acts, a);
    ExitsSnoc(acts, a, a.t, |acts|);
    NoExitsYet(acts, a.t, |acts|);
    CounterStep(log, a, |log.events|);
  }

  lemma StepTold(acts: seq<Act>, log: Log, a: Act)
    requires Inv(log) && LogTold(acts, log) && Enabled(log, a)
    ensures LogTold(acts + [a], Step(log, a))
  {
    var acts', log' := acts + [a], Step(log, a);
    EventsTold(acts, log, a);
    SnocStep(acts, a);
    StepThreads(log, a);
    forall t | 0 <= t < |log'.threads| ensures FramesTold(acts', log', t) { FramesStep(acts, log, a, t); }
    forall s | 0 <= s < |acts'| && acts'[s].Enter? ensures CounterTold(acts', log', s) {
      if s == |acts| { CounterTellsNew(acts, log, a); }
      else if acts[s].kind == ECALL { CounterTellsOld(acts, log, a, s); }
    }
  }

  lemma LastTold(acts: seq<Act>, log: Log)
    requires acts != [] && Inv(log) && LogTold(acts[..|acts| - 1], log) && Enabled(log, acts[|acts| - 1])
    ensures LogTold(acts, Step(log, acts[|acts| - 1]))
  {
    StepTold(acts[..|acts| - 1], log, acts[|acts| - 1]);
    assert acts[..|acts| - 1] + [acts[|acts| - 1]] == acts;
  }

  lemma {:induction false} RunTold(n: nat, acts: seq<Act>)
    requires Run(n, acts).Some?
    ensures LogTold(acts, Run(n, acts).value)
    decreases |acts|
  {
    if acts != [] {
      var k := |acts| - 1;
      RunTold(n, acts[..k]);
      LastTold(acts, Run(n, acts[..k]).value);
    }
  }

  // ----- each thread's queue

  /** The positions of a thread's events. */
  function Mine(events: seq<Ev>, t: nat): seq<nat> {
    if events == [] then []
    else
      var k := |events| - 1;
      Mine(events[..k], t) + if events[k].thread == t then [k] else []
  }

  /** A step adds at most one event, which goes to the end of its thread's queue. */
  lemma StepQueue(log: Log, a: Act, t: nat)
    requires Inv(log) && Enabled(log, a) && t < |log.threads|
    ensures |Step(log, a).threads| == |log.threads|
    ensures var log', q := Step(log, a), log.threads[t].queue;
            || (log'.events == log.events && log'.threads[t].queue == q)
            || (|log'.events| == |log.events| + 1 && log'.events[..|log.events|] == log.events
                && log'.threads[t].queue == q + if log'.events[|log.events|].thread == t then [|log.events|] else [])
  {
  }

  lemma QueueStep(log: Log, a: Act, t: nat)
    requires Inv(log) && Enabled(log, a) && t < |log.threads| && log.threads[t].queue == Mine(log.events, t)
    ensures |Step(log, a).threads| == |log.threads| && Step(log, a).threads[t].queue == Mine(Step(log, a).events, t)
  {
    StepQueue(log, a, t);
  }

  /** The events of every run of n threads, and the queue of every thread. */
  lemma {:induction false} StoryExact(n: nat, acts: seq<Act>, t: nat)
    requires Run(n, acts).Some? && t < n
    ensures Run(n, acts).value.events == Story(acts)
    ensures Run(n, acts).value.threads[t].queue == Mine(Story(acts), t)
    decreases |acts|
  {
    RunTold(n, acts);
    if acts != [] {
      var k := |acts| - 1;
      StoryExact(n, acts[..k], t);
      RunTold(n, acts[..k]);
      QueueStep(Run(n, acts[..k]).value, acts[k], t);
    }
  }

  // ----- traced asynchronous exits

  lemma {:induction false} NoneTracedYet(acts: seq<Act>, t: nat, s: nat, now: nat)
    requires |acts| <= s
    ensures TracedIn(acts, t, s, now) == 0
  {
    if acts != [] { NoneTracedYet(acts[..|acts| - 1], t, s, now); }
  }

  /** No event refers to one that is not there yet. */
  lemma NotYetNamed(n: nat, acts: seq<Act>, t: nat, now: nat, c: nat)
    requires Run(n, acts).Some? && |Story(acts)| <= c
    ensures AexEv(t, now, c) !in Story(acts)
  {
    RunTold(n, acts);
    var events := Run(n, acts).value.events;
    forall e | 0 <= e < |events| ensures events[e] != AexEv(t, now, c) { assert RefsOk(events, e); }
  }

  lemma TracedStep(acts: seq<Act>, a: Act, s: nat, now: nat)
    requires s < |acts| && acts[s].Enter? && acts[s].kind == ECALL
    ensures multiset(Written(acts, a))[AexEv(acts[s].t, now, CallOf(acts, s))] ==
            if a == AepHit(acts[s].t, true, now) && Innermost(acts, a.t, s) then 1 else 0
  {
    var inside := Inside(acts, a.t);
    if a.AepHit? && inside != [] && CallOf(acts, Top(inside).value) == CallOf(acts, s) {
      CallsDiffer(acts, Top(inside).value, s);
    }
  }

  function TracedEv(acts: seq<Act>, s: nat, now: nat): Ev
    requires s < |acts|
  {
    AexEv(acts[s].t, now, CallOf(acts, s))
  }

  lemma {:induction false} TracedEnter(acts: seq<Act>, s: nat, now: nat)
    requires s == |acts| - 1 && acts[s].Enter? && TracedEv(acts, s, now) !in Story(acts[..s])
    ensures multiset(Story(acts))[TracedEv(acts, s, now)] == 0 == TracedIn(acts, acts[s].t, s, now)
  {
    NoneTracedYet(acts[..s], acts[s].t, s, now);
  }

  lemma {:induction false} TracedLater(acts: seq<Act>, s: nat, now: nat)
    requires s < |acts| - 1 && acts[s].Enter? && acts[s].kind == ECALL
    requires var before := acts[..|acts| - 1];
             multiset(Story(before))[TracedEv(before, s, now)] == TracedIn(before, acts[s].t, s, now)
    ensures multiset(Story(acts))[TracedEv(acts, s, now)] == TracedIn(acts, acts[s].t, s, now)
  {
    var k := |acts| - 1;
    CallOfPrefix(acts, k, s);
    TracedStep(acts[..k], acts[k], s, now);
  }

  lemma {:induction false} TracedStory(acts: seq<Act>, s: nat, now: nat)
    requires s < |acts| && acts[s].Enter? && acts[s].kind == ECALL && TracedEv(acts, s, now) !in Story(acts[..s])
    ensures multiset(Story(acts))[TracedEv(acts, s, now)] == TracedIn(acts, acts[s].t, s, now)
    decreases |acts|
  {
    var k := |acts| - 1;
    if k == s {
      TracedEnter(acts, s, now);
    } else {
      CallOfPrefix(acts, k, s);
      assert acts[..k][..s] == acts[..s];
      TracedStory(acts[..k], s, now);
      TracedLater(acts, s, now);
    }
  }

  lemma {:induction false} RunPrefix(n: nat, acts: seq<Act>, k: nat)
    requires Run(n, acts).Some? && k <= |acts|
    ensures Run(n, acts[..k]).Some?
    decreases |acts|
  {
    if k < |acts| {
      RunPrefix(n, acts[..|acts| - 1], k);
      assert acts[..|acts| - 1][..k] == acts[..k];
    } else {
      assert acts[..k] == acts;
    }
  }

  /** Over every run: the events that record an asynchronous exit of an ECall, with its thread and a
      given time, are as many as there were traced exits of that thread at that time while the ECall
      was innermost. */
  lemma TracedExact(n: nat, acts: seq<Act>, s: nat, now: nat)
    requires Run(n, acts).Some? && s < |acts| && acts[s].Enter? && acts[s].kind == ECALL
    ensures multiset(Run(n, acts).value.events)[AexEv(acts[s].t, now, CallOf(acts, s))] ==
            TracedIn(acts, acts[s].t, s, now)
  {
    RunPrefix(n, acts, s);
    NotYetNamed(n, acts[..s], acts[s].t, now, CallOf(acts, s));
    TracedStory(acts, s, now);
    RunTold(n, acts);
  }

  /** Step k is a traced exit of thread t at the given time, inside the ECall of step s. */
  predicate TracedAt(acts: seq<Act>, k: nat, s: nat, t: nat, now: nat) {
    k < |acts| && acts[k] == AepHit(t, true, now) && Innermost(acts[..k], t, s) && InEcall(acts[..k], t)
  }

  lemma {:induction false} OnlyStory(acts: seq<Act>, e: nat) returns (k: nat, s: nat)
    requires e < |Story(acts)| && Story(acts)[e].AexEv?
    ensures var ev := Story(acts)[e];
            TracedAt(acts, k, s, ev.thread, ev.time) && s < |acts| && ev.ecall == CallOf(acts, s)
    decreases |acts|
  {
    var m := |acts| - 1;
    if e < |Story(acts[..m])| {
      k, s := OnlyStory(acts[..m], e);
      assert acts[..m][..k] == acts[..k];
    } else {
      k, s := m, Top(Inside(acts[..m], acts[m].t)).value;
    }
    CallOfPrefix(acts, m, s);
  }

  /** And there are no others: every such event was recorded by a traced exit of the thread and at the
      time it has, inside the ECall it names. */
  lemma TracedOnly(n: nat, acts: seq<Act>, e: nat) returns (k: nat, s: nat)
    requires Run(n, acts).Some?
    requires e < |Run(n, acts).value.events| && Run(n, acts).value.events[e].AexEv?
    ensures var ev := Run(n, acts).value.events[e];
            TracedAt(acts, k, s, ev.thread, ev.time) && s < |acts| && ev.ecall == CallOf(acts, s)
  {
    RunTold(n, acts);
    k, s := OnlyStory(acts, e);
  }
}
