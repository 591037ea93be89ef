/** The four synchronisation wrappers as they run (logger/src/urts_calls.cpp:440-526). Between the
    locked access to the map and the recording of the event, and between two single operations, other
    threads may do anything: each method takes what they try to do there as an argument. */
module SyncWrappers {
  import opened Options
  import opened SyncEvents
  import opened SyncRuns

  const SUCCESS := 0
  const INVALID_PARAMETER := 2

  /** The steps of thread t in a run. */
  function Own(acts: seq<Act>, t: nat): seq<Act> {
    if acts == [] then [] else Own(acts[..|acts| - 1], t) + if acts[|acts| - 1].t == t then [acts[|acts| - 1]] else []
  }

  lemma OwnSnoc(acts: seq<Act>, a: Act, t: nat)
    ensures Own(acts + [a], t) == Own(acts, t) + if a.t == t then [a] else []
  {
    assert (acts + [a])[..|acts|] == acts;
  }

  /** What a single set, or a single wait, does. */
  function SetSteps(t: nat, waiter: nat): seq<Act> { if waiter == 0 then [] else [SetMap(t, waiter), SetPush(t)] }
  function WaitSteps(t: nat, self: nat): seq<Act> { if self == 0 then [] else [WaitMap(t, self), WaitPush(t)] }

  function SetEach(t: nat, waiters: seq<nat>): seq<Act> {
    if waiters == [] then [] else SetEach(t, waiters[..|waiters| - 1]) + SetSteps(t, waiters[|waiters| - 1])
  }

  lemma SetEachNext(t: nat, waiters: seq<nat>, i: nat)
    requires i < |waiters|
    ensures SetEach(t, waiters[..i + 1]) == SetEach(t, waiters[..i]) + SetSteps(t, waiters[i])
  {
    assert waiters[..i + 1][..i] == waiters[..i];
  }

  lemma SetEachNone(t: nat, waiters: seq<nat>, before: seq<Act>)
    ensures before == before + SetEach(t, waiters[..0])
  {
  }

  lemma Concat3(a: seq<Act>, b: seq<Act>, c: seq<Act>)
    ensures (a + b) + c == a + (b + c)
  {
  }

  predicate Fails(waiter: nat, rc: int) { waiter == 0 || rc != SUCCESS }

  predicate NoneFails(waiters: seq<nat>, rcs: seq<int>, n: nat)
    requires n <= |waiters| == |rcs|
  {
    forall k :: 0 <= k < n ==> !Fails(waiters[k], rcs[k])
  }

  /** The first `done` single sets are performed: all of them, or those up to the first that fails,
      whose code is returned. */
  predicate StopsAt(waiters: seq<nat>, rcs: seq<int>, total: nat, done: nat, code: int)
    requires done <= total <= |waiters| == |rcs|
  {
    if code == SUCCESS then done == total && NoneFails(waiters, rcs, done)
    else done > 0 && NoneFails(waiters, rcs, done - 1) && Fails(waiters[done - 1], rcs[done - 1])
         && code == if waiters[done - 1] == 0 then INVALID_PARAMETER else rcs[done - 1]
  }

  class Wrappers {
    var sync: Sync
    ghost var trace: seq<Act>
    ghost const n: nat

    /** The state is that of the run so far, so all that holds of runs holds of it. */
    ghost predicate Valid() reads this { Run(n, trace) == Some(sync) }

    ghost predicate Ready(t: nat) reads this { Valid() && t < |sync.threads| && sync.threads[t].Idle? }

    constructor (n: nat)
      ensures Valid() && trace == [] && sync == Init(n)
    {
      sync := Init(n);
      trace := [];
      this.n := n;
    }

    /** One step of the run. */
    method Perform(a: Act)
      requires Valid() && Enabled(sync, a)
      modifies this
      ensures Valid() && sync == Step(old(sync), a) && trace == old(trace) + [a]
    {
      RunPush(n, trace, a, sync);
      sync := Step(sync, a);
      trace := trace + [a];
    }

    /** What the other threads do meanwhile: any steps that they can take. */
    method Others(t: nat, env: seq<Act>)
      requires Valid() && t < |sync.threads|
      modifies this
      ensures Valid() && Own(trace, t) == old(Own(trace, t))
      ensures |sync.threads| == old(|sync.threads|) && sync.threads[t] == old(sync.threads[t])
    {
      for i := 0 to |env|
        invariant Valid() && Own(trace, t) == old(Own(trace, t))
        invariant |sync.threads| == old(|sync.threads|) && sync.threads[t] == old(sync.threads[t])
      {
        if env[i].t != t && Enabled(sync, env[i]) {
          OwnSnoc(trace, env[i], t);
          Perform(env[i]);
        }
      }
    }

    /** The locked section of a set: look the waiter up and take its entry out. */
    method TakeEntry(t: nat, waiter: nat) returns (found: Option<nat>)
      requires Ready(t) && waiter != 0
      modifies this
      ensures Valid() && trace == old(trace) + [SetMap(t, waiter)]
      ensures |sync.threads| == old(|sync.threads|) && sync.threads[t] == Setting(waiter, found)
    {
      RunPush(n, trace, SetMap(t, waiter), sync);
      ghost var s := Step(sync, SetMap(t, waiter));
      found := None;
      if waiter in sync.tcs {
        found := Some(sync.tcs[waiter]);
        sync := sync.(tcs := sync.tcs - {waiter});
      }
      sync := sync.(threads := sync.threads[t := Setting(waiter, found)]);
      trace := trace + [SetMap(t, waiter)];
      assert sync == s;
    }

    /** Recording a set event if an entry was found. */
    method RecordSet(t: nat, waiter: nat, found: Option<nat>)
      requires Valid() && t < |sync.threads| && sync.threads[t] == Setting(waiter, found)
      modifies this
      ensures Ready(t) && trace == old(trace) + [SetPush(t)] && |sync.threads| == old(|sync.threads|)
    {
      RunPush(n, trace, SetPush(t), sync);
      ghost var s := Step(sync, SetPush(t));
      if found.Some? { sync := sync.(sets := sync.sets + [SetEvent(waiter, found.value)]); }
      sync := sync.(threads := sync.threads[t := Idle]);
      trace := trace + [SetPush(t)];
      assert sync == s;
    }

    /** sgx_thread_set_untrusted_event_ocall; rc is what the real call returns. */
    method Set(t: nat, waiter: nat, rc: int, env: seq<Act>) returns (code: int)
      requires Ready(t)
      modifies this
      ensures Ready(t) && |sync.threads| == old(|sync.threads|)
      ensures Own(trace, t) == old(Own(trace, t)) + SetSteps(t, waiter)
      ensures code == if waiter == 0 then INVALID_PARAMETER else rc
    {
      if waiter == 0 {
        return INVALID_PARAMETER;
      }
      OwnSnoc(trace, SetMap(t, waiter), t);
      var found := TakeEntry(t, waiter);
      Others(t, env);
      OwnSnoc(trace, SetPush(t), t);
      RecordSet(t, waiter, found);
      code := rc;
    }

    /** The locked section of a wait: enter it unless the key has an entry. */
    method EnterWait(t: nat, self: nat) returns (event: nat)
      requires Ready(t) && self != 0
      modifies this
      ensures Valid() && trace == old(trace) + [WaitMap(t, self)]
      ensures |sync.threads| == old(|sync.threads|) && sync.threads[t] == Waiting(event)
    {
      RunPush(n, trace, WaitMap(t, self), sync);
      ghost var s := Step(sync, WaitMap(t, self));
      event := |sync.waits|;
      sync := sync.(waits := sync.waits + [self]);
      if self !in sync.tcs { sync := sync.(tcs := sync.tcs[self := event]); }
      sync := sync.(threads := sync.threads[t := Waiting(event)]);
      trace := trace + [WaitMap(t, self)];
      assert sync == s;
    }

    method RecordWait(t: nat, event: nat)
      requires Valid() && t < |sync.threads| && sync.threads[t] == Waiting(event)
      modifies this
      ensures Ready(t) && trace == old(trace) + [WaitPush(t)] && |sync.threads| == old(|sync.threads|)
    {
      RunPush(n, trace, WaitPush(t), sync);
      ghost var s := Step(sync, WaitPush(t));
      sync := sync.(recorded := sync.recorded + [event]);
      sync := sync.(threads := sync.threads[t := Idle]);
      trace := trace + [WaitPush(t)];
      assert sync == s;
    }

    /** sgx_thread_wait_untrusted_event_ocall */
    method Wait(t: nat, self: nat, rc: int, env: seq<Act>) returns (code: int)
      requires Ready(t)
      modifies this
      ensures Ready(t) && |sync.threads| == old(|sync.threads|)
      ensures Own(trace, t) == old(Own(trace, t)) + WaitSteps(t, self)
      ensures code == if self == 0 then INVALID_PARAMETER else rc
    {
      if self == 0 {
        return INVALID_PARAMETER;
      }
      OwnSnoc(trace, WaitMap(t, self), t);
      var event := EnterWait(t, self);
      Others(t, env);
      OwnSnoc(trace, WaitPush(t), t);
      RecordWait(t, event);
      code := rc;
    }

    /** The i-th single set after the first i, and what the others do before the next. */
    method SetNext(t: nat, waiters: seq<nat>, i: nat, rc: int, during: seq<Act>, after: seq<Act>,
                   ghost before: seq<Act>)
      returns (code: int)
      requires Ready(t) && i < |waiters| && Own(trace, t) == before + SetEach(t, waiters[..i])
      modifies this
      ensures Ready(t) && |sync.threads| == old(|sync.threads|)
      ensures Own(trace, t) == before + SetEach(t, waiters[..i + 1])
      ensures code == if waiters[i] == 0 then INVALID_PARAMETER else rc
    {
      SetEachNext(t, waiters, i);
      Concat3(before, SetEach(t, waiters[..i]), SetSteps(t, waiters[i]));
      code := Set(t, waiters[i], rc, during);
      if code == SUCCESS { Others(t, after); }
    }

    /** The loop of sgx_thread_set_multiple_untrusted_events_ocall. */
    method SetLoop(t: nat, waiters: seq<nat>, total: nat, rcs: seq<int>, during: seq<seq<Act>>, after: seq<seq<Act>>,
                   ghost before: seq<Act>)
      returns (code: int, ghost done: nat)
      requires Ready(t) && total <= |waiters| == |rcs| == |during| == |after|
      requires Own(trace, t) == before + SetEach(t, waiters[..0])
      modifies this
      ensures Ready(t) && |sync.threads| == old(|sync.threads|) && done <= total
      ensures Own(trace, t) == before + SetEach(t, waiters[..done])
      ensures StopsAt(waiters, rcs, total, done, code)
    {
      for i := 0 to total
        invariant Ready(t) && |sync.threads| == old(|sync.threads|)
        invariant Own(trace, t) == before + SetEach(t, waiters[..i])
        invariant NoneFails(waiters, rcs, i)
      {
        code := SetNext(t, waiters, i, rcs[i], during[i], after[i], before);
        if code != SUCCESS { return code, i + 1; }
      }
      return SUCCESS, total;
    }

    /** sgx_thread_set_multiple_untrusted_events_ocall: whatever the others do in between, the thread
        performs the single sets in order up to and including the first that fails, and no more; rcs
        are the results of the real calls. */
    method SetMultiple(t: nat, waiters: seq<nat>, total: nat, rcs: seq<int>, during: seq<seq<Act>>,
                       after: seq<seq<Act>>)
      returns (code: int, ghost done: nat)
      requires Ready(t) && total <= |waiters| == |rcs| == |during| == |after| && |waiters| > 0
      modifies this
      ensures Ready(t) && |sync.threads| == old(|sync.threads|)
      ensures done <= total && Own(trace, t) == old(Own(trace, t)) + SetEach(t, waiters[..done])
      ensures if waiters[0] == 0 then done == 0 && code == INVALID_PARAMETER
              else StopsAt(waiters, rcs, total, done, code)
    {
      SetEachNone(t, waiters, Own(trace, t));
      if waiters[0] == 0 {
        return INVALID_PARAMETER, 0;
      }
      code, done := SetLoop(t, waiters, total, rcs, during, after, Own(trace, t));
    }

    /** sgx_thread_setwait_untrusted_events_ocall: the wait happens only after a successful set. */
    method SetWait(t: nat, waiter: nat, self: nat, rcSet: int, rcWait: int, inSet: seq<Act>, between: seq<Act>,
                   inWait: seq<Act>)
      returns (code: int)
      requires Ready(t)
      modifies this
      ensures Ready(t) && |sync.threads| == old(|sync.threads|)
      ensures Own(trace, t) ==
              old(Own(trace, t)) + (SetSteps(t, waiter) + if Fails(waiter, rcSet) then [] else WaitSteps(t, self))
      ensures code == if waiter == 0 then INVALID_PARAMETER else if rcSet != SUCCESS then rcSet
                      else if self == 0 then INVALID_PARAMETER else rcWait
    {
      code := Set(t, waiter, rcSet, inSet);
      if code != SUCCESS {
        return;
      }
      Others(t, between);
      Concat3(old(Own(trace, t)), SetSteps(t, waiter), WaitSteps(t, self));
      code := Wait(t, self, rcWait, inWait);
    }
  }
}
