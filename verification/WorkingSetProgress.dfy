/** The working-set tracker gets its work done (workingset/src/main.cpp): nobody is ever stuck, and once
    no new request comes every fair schedule ends with each request in the history. */
module WorkingSetProgress {
  import opened Enclaves
  import opened FaultHistory
  import opened RwLock
  import RwLockTheorems
  import opened WorkingSet
  import opened WorkingSetRuns

  /** The thread is at nothing: it can take a request. */
  predicate Free(s: State, i: nat)
    requires Wf(s) && i < |s.jobs|
  {
    s.lock.q.threads[i].Idle? && !s.jobs[i].Create?
  }

  ghost predicate AllFree(s: State)
    requires Wf(s)
  {
    forall i :: 0 <= i < |s.jobs| ==> Free(s, i)
  }

  // ----- the work left

  /** Steps a reset takes for one enclave: its pages, the end of its array, the protection. */
  function Span(e: Encl): nat { |e.status| + 2 }

  function SpanFrom(es: seq<Encl>, k: nat): nat
    decreases |es| - k
  {
    if k >= |es| then 0 else Span(es[k]) + SpanFrom(es, k + 1)
  }

  function Due(job: Job): nat { if job.Create? then Span(job.encl) else 0 }

  /** The enclaves to come: a reset that still waits may meet them. */
  function Coming(jobs: seq<Job>): nat {
    if jobs == [] then 0 else Coming(jobs[..|jobs| - 1]) + Due(jobs[|jobs| - 1])
  }

  /** Steps left inside the section, when `coming` more steps may be added to a reset. */
  function SectionLeft(es: seq<Encl>, coming: nat, job: Job): nat {
    match job
    case Finished => 0
    case Fault(_) => 2
    case Clear(k, q) => 1 + coming + SpanFrom(es, k) - if k < |es| && q <= |es[k].status| then q else 0
    case Protect(k) => 2 + coming + SpanFrom(es, k + 1)
    case _ => 1
  }

  /** Steps left in the lock's protocol; a creation has yet to start it. */
  function LockLeft(pc: Pc, job: Job): nat { if pc.Idle? && job.Create? then 4 else RwLockTheorems.Rank(pc) }

  function Left(s: State, i: nat): nat
    requires Wf(s) && i < |s.jobs|
  {
    LockLeft(s.lock.q.threads[i], s.jobs[i]) + SectionLeft(s.m.encls, Coming(s.jobs), s.jobs[i])
  }

  function Sum(xs: seq<nat>): nat { if xs == [] then 0 else Sum(xs[..|xs| - 1]) + xs[|xs| - 1] }

  function AllLeft(s: State): seq<nat>
    requires Wf(s)
  {
    seq(|s.jobs|, i requires 0 <= i < |s.jobs| => Left(s, i))
  }

  function Todo(s: State): nat
    requires Wf(s)
  {
    Sum(AllLeft(s))
  }

  lemma {:induction false} SumLess(xs: seq<nat>, ys: seq<nat>, i: nat)
    requires |xs| == |ys| && (forall j :: 0 <= j < |xs| ==> xs[j] <= ys[j])
    requires i < |xs| ==> xs[i] < ys[i]
    ensures Sum(xs) <= Sum(ys) && (i < |xs| ==> Sum(xs) < Sum(ys))
  {
    if xs != [] { SumLess(xs[..|xs| - 1], ys[..|xs| - 1], i); }
  }

  /** A step that brings one thread on and takes no other back. */
  lemma TodoLess(s: State, s': State, i: nat)
    requires Wf(s) && Wf(s') && |s.jobs| == |s'.jobs| && i < |s.jobs| && Left(s', i) < Left(s, i)
    requires forall j :: 0 <= j < |s.jobs| && j != i ==> Left(s', j) <= Left(s, j)
    ensures Todo(s') < Todo(s)
  {
    SumLess(AllLeft(s'), AllLeft(s), i);
  }

  // ----- steps of the lock

  lemma PollOrRank(lock: Sys, i: nat)
    requires i < |lock.q.threads| && !lock.q.threads[i].Idle?
    ensures |Step(lock, i, WriteLock).q.threads| == |lock.q.threads|
    ensures (Step(lock, i, WriteLock) == lock && Waiting(lock.q.threads[i]))
            || RwLockTheorems.Rank(Step(lock, i, WriteLock).q.threads[i]) < RwLockTheorems.Rank(lock.q.threads[i])
  {
  }

  lemma LockTurn(s: State, i: nat)
    requires WsInv(s) && i < |s.jobs| && !Free(s, i) && !(Holds(s.lock.q.threads[i]) && !s.jobs[i].Finished?)
    ensures var s' := s.(lock := Step(s.lock, i, WriteLock));
            (s' == s && Waiting(s.lock.q.threads[i])) || (Wf(s') && Todo(s') < Todo(s))
  {
    var s' := s.(lock := Step(s.lock, i, WriteLock));
    assert ThreadOk(s, i);
    if !s.lock.q.threads[i].Idle? { PollOrRank(s.lock, i); }
    if s' != s {
      forall j | 0 <= j < |s.jobs| && j != i ensures Left(s', j) == Left(s, j) { StepFrame(s.lock, i, WriteLock, j); }
      StepFrame(s.lock, i, WriteLock, i);
      LockLeftLess(s.lock, i, s.jobs[i]);
      TodoLess(s, s', i);
    }
  }

  lemma LockLeftLess(lock: Sys, i: nat, job: Job)
    requires i < |lock.q.threads| && Step(lock, i, WriteLock) != lock && JobPc(lock.q.threads[i], job)
    requires lock.q.threads[i].Idle? ==> job.Create?
    ensures |Step(lock, i, WriteLock).q.threads| == |lock.q.threads|
    ensures LockLeft(Step(lock, i, WriteLock).q.threads[i], job) < LockLeft(lock.q.threads[i], job)
  {
    if !lock.q.threads[i].Idle? { PollOrRank(lock, i); }
  }

  // ----- steps inside a section

  lemma {:induction false} ComingNext(jobs: seq<Job>, i: nat, job: Job)
    requires i < |jobs|
    ensures Coming(jobs[i := job]) == Coming(jobs) - Due(jobs[i]) + Due(job)
  {
    var n := |jobs| - 1;
    if i == n {
      assert jobs[i := job][..n] == jobs[..n];
    } else {
      assert jobs[i := job][..n] == jobs[..n][i := job];
      ComingNext(jobs[..n], i, job);
    }
  }

  /** Every enclave keeps its number of pages. */
  predicate SameSpans(a: seq<Encl>, b: seq<Encl>) {
    |a| == |b| && forall k :: 0 <= k < |a| ==> |a[k].status| == |b[k].status|
  }

  lemma {:induction false} SpansKept(a: seq<Encl>, b: seq<Encl>, k: nat)
    requires SameSpans(a, b)
    ensures SpanFrom(a, k) == SpanFrom(b, k)
    decreases |a| - k
  {
    if k < |a| { SpansKept(a, b, k + 1); }
  }

  lemma {:induction false} SpansAppend(es: seq<Encl>, e: Encl, k: nat)
    requires k <= |es|
    ensures SpanFrom(es + [e], k) == SpanFrom(es, k) + Span(e)
    decreases |es| - k
  {
    if k < |es| {
      SpansAppend(es, e, k + 1);
    } else {
      assert SpanFrom(es + [e], k + 1) == 0;
    }
  }

  /** Beside a thread inside a section, only waiting resets. */
  lemma OthersWait(s: State, i: nat, j: nat)
    requires WsInv(s) && i < |s.jobs| && j < |s.jobs| && i != j && Holds(s.lock.q.threads[i])
    ensures !s.jobs[j].Protect? && (s.jobs[j].Clear? ==> s.jobs[j] == Clear(0, 0))
  {
    assert ThreadOk(s, j);
    if s.lock.q.threads[i].WriteHold? {
      AloneInside(s, i, j);
    } else {
      NoSweep(s, i);
      assert !Sweeping(s.lock.q.threads[j], s.jobs[j]);
    }
  }

  lemma SectionSpans(m: Mem, job: Job)
    ensures !SectionStep(m, job).1.Create?
    ensures !job.Create? ==> SameSpans(SectionStep(m, job).0.encls, m.encls)
  {
  }

  /** What all the enclaves and those to come cost a reset stays the same. */
  lemma SectionTotal(s: State, i: nat)
    requires i < |s.jobs|
    ensures var s' := InSection(s, i);
            SpanFrom(s'.m.encls, 0) + Coming(s'.jobs) == SpanFrom(s.m.encls, 0) + Coming(s.jobs)
    ensures !s.jobs[i].Create? ==>
              SameSpans(InSection(s, i).m.encls, s.m.encls) && Coming(InSection(s, i).jobs) == Coming(s.jobs)
  {
    var s' := InSection(s, i);
    SectionSpans(s.m, s.jobs[i]);
    ComingNext(s.jobs, i, s'.jobs[i]);
    if s.jobs[i].Create? {
      SpansAppend(s.m.encls, s.jobs[i].encl, 0);
    } else {
      SpansKept(s'.m.encls, s.m.encls, 0);
    }
  }

  lemma SectionLess(m: Mem, job: Job, coming: nat, later: nat)
    requires !job.Finished? && (job.Create? || later == coming)
    requires job.Clear? && job.k < |m.encls| ==> job.q <= |m.encls[job.k].status|
    ensures SectionLeft(SectionStep(m, job).0.encls, later, SectionStep(m, job).1) < SectionLeft(m.encls, coming, job)
  {
    if job.Clear? || job.Protect? {
      SectionSpans(m, job);
      SpansKept(SectionStep(m, job).0.encls, m.encls, job.k);
      SpansKept(SectionStep(m, job).0.encls, m.encls, job.k + 1);
    }
  }

  lemma SectionSelf(s: State, i: nat)
    requires WsInv(s) && i < |s.jobs| && Holds(s.lock.q.threads[i]) && !s.jobs[i].Finished?
    ensures Wf(InSection(s, i)) && |InSection(s, i).jobs| == |s.jobs|
    ensures Left(InSection(s, i), i) < Left(s, i)
  {
    assert ThreadOk(s, i);
    SectionTotal(s, i);
    SectionLess(s.m, s.jobs[i], Coming(s.jobs), Coming(InSection(s, i).jobs));
  }

  lemma SectionOther(s: State, i: nat, j: nat)
    requires WsInv(s) && i < |s.jobs| && Holds(s.lock.q.threads[i]) && j < |s.jobs| && j != i
    ensures Wf(InSection(s, i)) && |InSection(s, i).jobs| == |s.jobs|
    ensures Left(InSection(s, i), j) == Left(s, j)
  {
    OthersWait(s, i, j);
    SectionTotal(s, i);
  }

  lemma SectionTurn(s: State, i: nat)
    requires WsInv(s) && i < |s.jobs| && Holds(s.lock.q.threads[i]) && !s.jobs[i].Finished?
    ensures Wf(InSection(s, i)) && Todo(InSection(s, i)) < Todo(s)
  {
    SectionSelf(s, i);
    forall j | 0 <= j < |s.jobs| && j != i ensures Left(InSection(s, i), j) == Left(s, j) { SectionOther(s, i, j); }
    TodoLess(s, InSection(s, i), i);
  }

  // ----- nobody is stuck

  /** Every step of a thread that is at something is a poll that changes nothing, or reduces the work left. */
  lemma TurnReducesTodo(s: State, i: nat, r: Request)
    requires WsInv(s) && i < |s.jobs| && !Free(s, i)
    ensures WsInv(WsStep(s, i, r)) && |WsStep(s, i, r).jobs| == |s.jobs|
    ensures (WsStep(s, i, r) == s && Waiting(s.lock.q.threads[i])) || Todo(WsStep(s, i, r)) < Todo(s)
  {
    WsStepInv(s, i, r);
    WsStepSize(s, i, r);
    if Holds(s.lock.q.threads[i]) && !s.jobs[i].Finished? { SectionTurn(s, i); } else { LockTurn(s, i); }
  }

  /** In every reachable state where some thread is at something, some such thread can move. */
  lemma SomeoneWorks(s: State, r: Request) returns (i: nat)
    requires WsInv(s) && !AllFree(s)
    ensures i < |s.jobs| && !Free(s, i) && Todo(WsStep(s, i, r)) < Todo(s)
  {
    if k :| 0 <= k < |s.jobs| && !Free(s, k) && !Waiting(s.lock.q.threads[k]) {
      i := k;
    } else {
      var k :| 0 <= k < |s.jobs| && !Free(s, k);
      RwLockTheorems.LowestEnabled(s.lock, WriteLock);
      i := s.lock.q.owner[s.lock.q.admitted];
    }
    TurnReducesTodo(s, i, r);
  }

  /** A thread's turn while no new request comes: a free thread passes. */
  ghost function TakeTurn(s: State, i: nat): (r: State)
    requires WsInv(s) && i < |s.jobs|
    ensures WsInv(r) && |r.jobs| == |s.jobs|
  {
    if Free(s, i) then s
    else
      WsStepInv(s, i, ResetAll);
      WsStepSize(s, i, ResetAll);
      WsStep(s, i, ResetAll)
  }

  ghost function Turns(s: State, order: seq<nat>): (r: State)
    requires WsInv(s) && forall k :: 0 <= k < |order| ==> order[k] < |s.jobs|
    ensures WsInv(r) && |r.jobs| == |s.jobs|
    decreases |order|
  {
    if order == [] then s else Turns(TakeTurn(s, order[0]), order[1..])
  }

  lemma TurnTodo(s: State, i: nat)
    requires WsInv(s) && i < |s.jobs|
    ensures TakeTurn(s, i) == s || Todo(TakeTurn(s, i)) < Todo(s)
  {
    if !Free(s, i) { TurnReducesTodo(s, i, ResetAll); }
  }

  /** Turns change nothing or reduce the work left. */
  lemma {:induction false} TurnsTodo(s: State, order: seq<nat>)
    requires WsInv(s) && forall k :: 0 <= k < |order| ==> order[k] < |s.jobs|
    ensures Turns(s, order) == s || Todo(Turns(s, order)) < Todo(s)
    decreases |order|
  {
    if order != [] {
      TurnTodo(s, order[0]);
      TurnsTodo(TakeTurn(s, order[0]), order[1..]);
    }
  }

  /** Turns among which is one of a thread that can move reduce the work left. */
  lemma {:induction false} TurnsMove(s: State, order: seq<nat>, i: nat)
    requires WsInv(s) && forall k :: 0 <= k < |order| ==> order[k] < |s.jobs|
    requires i in order && TakeTurn(s, i) != s
    ensures Todo(Turns(s, order)) < Todo(s)
    decreases |order|
  {
    if TakeTurn(s, order[0]) == s {
      TurnsMove(s, order[1..], i);
    } else {
      TurnTodo(s, order[0]);
      TurnsTodo(TakeTurn(s, order[0]), order[1..]);
    }
  }

  lemma RoundReducesTodo(s: State, order: seq<nat>)
    requires WsInv(s) && RwLockTheorems.Round(|s.jobs|, order) && !AllFree(s)
    ensures Todo(Turns(s, order)) < Todo(s)
  {
    var i := SomeoneWorks(s, ResetAll);
    assert i in order;
    TurnsMove(s, order, i);
  }

  ghost function Rounds(s: State, rounds: seq<seq<nat>>): (r: State)
    requires WsInv(s) && forall k :: 0 <= k < |rounds| ==> RwLockTheorems.Round(|s.jobs|, rounds[k])
    ensures WsInv(r) && |r.jobs| == |s.jobs|
    decreases |rounds|
  {
    if rounds == [] then s
    else
      assert RwLockTheorems.Round(|s.jobs|, rounds[0]);
      Rounds(Turns(s, rounds[0]), rounds[1..])
  }

  lemma {:induction false} FreeStays(s: State, order: seq<nat>)
    requires WsInv(s) && AllFree(s) && forall k :: 0 <= k < |order| ==> order[k] < |s.jobs|
    ensures Turns(s, order) == s
    decreases |order|
  {
    if order != [] { FreeStays(s, order[1..]); }
  }

  lemma {:induction false} FreeRounds(s: State, rounds: seq<seq<nat>>)
    requires WsInv(s) && AllFree(s) && forall k :: 0 <= k < |rounds| ==> RwLockTheorems.Round(|s.jobs|, rounds[k])
    ensures Rounds(s, rounds) == s
    decreases |rounds|
  {
    if rounds != [] {
      assert RwLockTheorems.Round(|s.jobs|, rounds[0]);
      FreeStays(s, rounds[0]);
      FreeRounds(s, rounds[1..]);
    }
  }

  /** Every fair schedule ends all the work: from every reachable state, once no new request comes, as many
      rounds as there is work left leave every thread free, whatever the order inside each round. */
  lemma {:induction false} FairlyDone(s: State, rounds: seq<seq<nat>>)
    requires WsInv(s) && (forall k :: 0 <= k < |rounds| ==> RwLockTheorems.Round(|s.jobs|, rounds[k]))
    requires Todo(s) <= |rounds|
    ensures AllFree(Rounds(s, rounds))
    decreases |rounds|
  {
    if AllFree(s) {
      FreeRounds(s, rounds);
    } else {
      var i := SomeoneWorks(s, ResetAll);
      assert RwLockTheorems.Round(|s.jobs|, rounds[0]);
      RoundReducesTodo(s, rounds[0]);
      FairlyDone(Turns(s, rounds[0]), rounds[1..]);
    }
  }

  // ----- every request ends in the history

  lemma MetTurn(s: State, i: nat, x: Entry)
    requires WsInv(s) && i < |s.jobs|
    ensures Met(TakeTurn(s, i), x) == Met(s, x)
  {
    if !Free(s, i) { MetStep(s, Turn(i, ResetAll), x); }
  }

  lemma {:induction false} MetTurns(s: State, order: seq<nat>, x: Entry)
    requires WsInv(s) && forall k :: 0 <= k < |order| ==> order[k] < |s.jobs|
    ensures Met(Turns(s, order), x) == Met(s, x)
    decreases |order|
  {
    if order != [] {
      MetTurn(s, order[0], x);
      MetTurns(TakeTurn(s, order[0]), order[1..], x);
    }
  }

  lemma {:induction false} MetRounds(s: State, rounds: seq<seq<nat>>, x: Entry)
    requires WsInv(s) && forall k :: 0 <= k < |rounds| ==> RwLockTheorems.Round(|s.jobs|, rounds[k])
    ensures Met(Rounds(s, rounds), x) == Met(s, x)
    decreases |rounds|
  {
    if rounds != [] {
      assert RwLockTheorems.Round(|s.jobs|, rounds[0]);
      MetTurns(s, rounds[0], x);
      MetRounds(Turns(s, rounds[0]), rounds[1..], x);
    }
  }

  lemma FreeNotWorking(s: State, x: Entry)
    requires WsInv(s) && AllFree(s)
    ensures Working(s.jobs, x) == 0
  {
    forall i | 0 <= i < |s.jobs| ensures s.jobs[i] == Finished {
      assert Free(s, i);
      IdleJob(s, i);
    }
    assert s.jobs == seq(|s.jobs|, _ => Finished);
    NoneWorking(|s.jobs|, x);
  }

  lemma FreeHistory(s: State, x: Entry)
    requires WsInv(s) && AllFree(s)
    ensures RwLockTheorems.AllIdle(s.lock) && multiset(s.m.log)[x] == Met(s, x)
  {
    FreeNotWorking(s, x);
    forall i | 0 <= i < |s.jobs| ensures s.lock.q.threads[i].Idle? { assert Free(s, i); }
  }

  /** After every run and any fair schedule of what is left, nobody holds or waits for the lock, and the
      history has each fault, reset, registration and destruction exactly as often as threads took it on. */
  lemma EverythingServed(n: nat, accessible: set<nat>, turns: seq<Turn>, rounds: seq<seq<nat>>, x: Entry)
    requires n <= 256 && forall k :: 0 <= k < |turns| ==> turns[k].thread < n
    requires forall k :: 0 <= k < |rounds| ==> RwLockTheorems.Round(n, rounds[k])
    requires Todo(WsRun(n, accessible, turns)) <= |rounds|
    ensures var s := Rounds(WsRun(n, accessible, turns), rounds);
            AllFree(s) && RwLockTheorems.AllIdle(s.lock) && multiset(s.m.log)[x] == Asked(n, accessible, turns, x)
  {
    EverythingNoted(n, accessible, turns, x);
    Served(WsRun(n, accessible, turns), rounds, x);
  }

  lemma Served(s: State, rounds: seq<seq<nat>>, x: Entry)
    requires WsInv(s) && forall k :: 0 <= k < |rounds| ==> RwLockTheorems.Round(|s.jobs|, rounds[k])
    requires Todo(s) <= |rounds|
    ensures var r := Rounds(s, rounds);
            AllFree(r) && RwLockTheorems.AllIdle(r.lock) && multiset(r.m.log)[x] == Met(s, x)
  {
    FairlyDone(s, rounds);
    MetRounds(s, rounds, x);
    FreeHistory(Rounds(s, rounds), x);
  }
}
