/** What the lock of common/rwlock.cpp guarantees over every interleaving. */
module RwLockTheorems {
  import opened LockWord
  import opened RwLock

  // ----- mutual exclusion, and the exact thread bound

  ghost predicate Exclusive(s: Sys) {
    forall i, j :: 0 <= i < |s.q.threads| && 0 <= j < |s.q.threads| && i != j && Writing(s.q.threads[i]) ==>
      !Writing(s.q.threads[j]) && !Reading(s.q.threads[j])
  }

  lemma InvExclusive(s: Sys)
    requires Inv(s)
    ensures Exclusive(s)
  {
    forall i, j | 0 <= i < |s.q.threads| && 0 <= j < |s.q.threads| && i != j && Writing(s.q.threads[i])
      ensures !Writing(s.q.threads[j]) && !Reading(s.q.threads[j])
    {
      assert LocalOk(s, s.q.threads[i]) && LocalOk(s, s.q.threads[j]);
      Window(s, j);
    }
  }

  /** With at most 256 threads, no interleaving of the six operations lets a writer share. */
  lemma MutualExclusion(n: nat, sched: Schedule)
    requires n <= 256 && Legal(n, sched)
    ensures Exclusive(RunFrom(Init(n), sched))
  {
    InitInv(n);
    RunInv(Init(n), sched);
    InvExclusive(RunFrom(Init(n), sched));
  }

  function Takes(k: nat): Schedule { seq(k, t requires 0 <= t < k => Event(t, WriteLock)) }

  lemma RunSnoc(s: Sys, sched: Schedule, e: Event)
    requires Legal(|s.q.threads|, sched + [e])
    ensures Legal(|s.q.threads|, sched) && e.thread < |s.q.threads|
    ensures RunFrom(s, sched + [e]) == Step(RunFrom(s, sched), e.thread, e.start)
  {
    assert e == (sched + [e])[|sched|];
    assert forall k :: 0 <= k < |sched| ==> sched[k] == (sched + [e])[k];
    assert (sched + [e])[..|sched|] == sched;
  }

  /** The first k threads have each taken a write ticket and nothing else has happened. */
  predicate Taken(s: Sys, k: nat) {
    && k <= |s.q.threads| && s.word.write == 0 && s.word.users == k % 256 && s.q.Issued() == k
    && (forall t :: 0 <= t < k ==> s.q.threads[t] == WriteWait(t % 256, t))
    && (forall t :: k <= t < |s.q.threads| ==> s.q.threads[t] == Idle)
  }

  lemma TakeOne(s: Sys, k: nat)
    requires Taken(s, k) && k < |s.q.threads|
    ensures Taken(Step(s, k, WriteLock), k + 1)
  {
    FetchAddBytes(s.word);
    SuccMod(k);
  }

  lemma {:induction false} AfterTakes(n: nat, k: nat)
    requires k <= n
    ensures Legal(n, Takes(k)) && Taken(RunFrom(Init(n), Takes(k)), k)
  {
    if k > 0 {
      AfterTakes(n, k - 1);
      assert Takes(k) == Takes(k - 1) + [Event(k - 1, WriteLock)];
      RunSnoc(Init(n), Takes(k - 1), Event(k - 1, WriteLock));
      TakeOne(RunFrom(Init(n), Takes(k - 1)), k - 1);
    }
  }

  /** Two tickets a multiple of 256 apart look alike: once both are issued, both writers enter. */
  lemma TwoWriters(n: nat, k: nat) returns (sched: Schedule)
    requires 0 < k < n && k % 256 == 0
    ensures Legal(n, sched) && !Exclusive(RunFrom(Init(n), sched))
  {
    AfterTakes(n, k + 1);
    var a := Takes(k + 1) + [Event(0, WriteLock)];
    sched := a + [Event(k, WriteLock)];
    RunSnoc(Init(n), Takes(k + 1), Event(0, WriteLock));
    RunSnoc(Init(n), a, Event(k, WriteLock));
    var s := RunFrom(Init(n), sched);
    assert Writing(s.q.threads[0]) && Writing(s.q.threads[k]);
  }

  /** The lock is correct for n threads if and only if n is at most 256. */
  lemma ExclusiveIffBounded(n: nat)
    ensures (forall sched :: Legal(n, sched) ==> Exclusive(RunFrom(Init(n), sched))) <==> n <= 256
  {
    if n <= 256 {
      forall sched | Legal(n, sched)
        ensures Exclusive(RunFrom(Init(n), sched))
      {
        MutualExclusion(n, sched);
      }
    } else {
      var sched := TwoWriters(n, 256);
    }
  }

  /** No update is lost: whatever the interleaving, each byte counts its operations modulo 256. */
  lemma NoLostUpdates(n: nat, sched: Schedule)
    requires n <= 256 && Legal(n, sched)
    ensures var s := RunFrom(Init(n), sched);
            && BytesAgree(s)
            && s.q.Issued() - s.q.released == Count(s.q.threads, Outstanding)
            && s.q.admitted - s.q.released == Count(s.q.threads, Reading)
  {
    InitInv(n);
    RunInv(Init(n), sched);
  }

  // ----- first come, first served

  /** Whoever is inside holds a smaller ticket than whoever still waits. */
  ghost predicate InOrder(s: Sys) {
    forall i, j :: 0 <= i < |s.q.threads| && 0 <= j < |s.q.threads| && Waiting(s.q.threads[j])
                   && (Writing(s.q.threads[i]) || Reading(s.q.threads[i])) ==>
      s.q.threads[i].ticket < s.q.threads[j].ticket
  }

  lemma Fifo(n: nat, sched: Schedule)
    requires n <= 256 && Legal(n, sched)
    ensures InOrder(RunFrom(Init(n), sched))
    ensures Contiguous(RunFrom(Init(n), sched).q)
  {
    InitInv(n);
    RunInv(Init(n), sched);
    var s := RunFrom(Init(n), sched);
    forall i, j | 0 <= i < |s.q.threads| && 0 <= j < |s.q.threads| && Waiting(s.q.threads[j])
                  && (Writing(s.q.threads[i]) || Reading(s.q.threads[i]))
      ensures s.q.threads[i].ticket < s.q.threads[j].ticket
    {
      assert LocalOk(s, s.q.threads[i]);
    }
  }

  /** Tickets are numbered by arrival and never reassigned, and a waiter keeps its ticket while
      `admitted` only grows: its distance to admission never grows. */
  lemma DistanceNeverGrows(s: Sys, i: nat, start: Start, j: nat)
    requires Inv(s) && i < |s.q.threads| && j < |s.q.threads|
    ensures var s' := Step(s, i, start);
            && |s'.q.threads| == |s.q.threads|
            && s.q.owner <= s'.q.owner
            && s.q.admitted <= s'.q.admitted
            && (Waiting(s.q.threads[j]) ==>
                  Outstanding(s'.q.threads[j]) && s'.q.threads[j].ticket == s.q.threads[j].ticket)
  {
    StepFrame(s, i, start, j);
  }

  /** A trylock that succeeds overtakes nobody. */
  lemma TryOvertakesNobody(s: Sys, i: nat, start: Start, j: nat)
    requires Inv(s) && i < |s.q.threads| && j < |s.q.threads|
    requires s.q.threads[i].WTryCas? || s.q.threads[i].RTryCas?
    requires |Step(s, i, start).q.threads| == |s.q.threads| && Outstanding(Step(s, i, start).q.threads[i])
    ensures !Waiting(s.q.threads[j]) && !Writing(s.q.threads[j])
    ensures s.q.threads[i].WTryCas? ==> !Reading(s.q.threads[j])
  {
    Window(s, j);
    if s.q.threads[i].WTryCas? { WriteTryExact(s, i); } else { ReadTryExact(s, i); }
  }

  // ----- no stuck state

  /** When nobody is inside or entering, the lowest waiting ticket is enabled. */
  lemma LowestEnabled(s: Sys, start: Start)
    requires Inv(s) && s.q.admitted < s.q.Issued()
    requires forall i :: 0 <= i < |s.q.threads| && Outstanding(s.q.threads[i]) ==> Waiting(s.q.threads[i])
    ensures var i := s.q.owner[s.q.admitted];
            && i < |s.q.threads| && Waiting(s.q.threads[i])
            && (forall j :: 0 <= j < |s.q.threads| && Waiting(s.q.threads[j]) ==>
                  s.q.threads[i].ticket <= s.q.threads[j].ticket)
            && Step(s, i, start).q.threads[i] ==
               if s.q.threads[i].WriteWait? then WriteHold(s.q.admitted) else ReadLoad(s.q.admitted)
  {
    CountNone(s.q.threads, Reading);
    PollsExact(s, s.q.owner[s.q.admitted]);
  }

  /** Steps left before the thread is idle again. */
  function Rank(pc: Pc): nat {
    match pc
    case Idle => 0
    case WriteWait(_, _) => 3
    case WriteHold(_) => 2
    case WriteStore(_, _) => 1
    case ReadWait(_, _) => 4
    case ReadLoad(_) => 3
    case ReadStore(_, _) => 2
    case ReadHold(_) => 1
    case WTryUsers(_) => 4
    case WTryCas(_, _) => 3
    case RTryUsers(_) => 3
    case RTryCas(_, _) => 2
  }

  function Work(ts: seq<Pc>): nat {
    if ts == [] then 0 else Work(ts[..|ts| - 1]) + Rank(ts[|ts| - 1])
  }

  lemma {:induction false} WorkUpdate(ts: seq<Pc>, i: nat, pc: Pc)
    requires i < |ts|
    ensures Work(ts[i := pc]) == Work(ts) - Rank(ts[i]) + Rank(pc)
  {
    var k := |ts| - 1;
    if i == k {
      assert ts[i := pc][..k] == ts[..k];
    } else {
      assert ts[i := pc][..k] == ts[..k][i := pc];
      WorkUpdate(ts[..k], i, pc);
    }
  }

  /** Once no new operation starts, every step is a spin that changes nothing or reduces the
      work left: there is no livelock. */
  lemma StepReducesWork(s: Sys, i: nat, start: Start)
    requires i < |s.q.threads| && !s.q.threads[i].Idle?
    ensures (Step(s, i, start) == s && Waiting(s.q.threads[i]))
            || Work(Step(s, i, start).q.threads) < Work(s.q.threads)
  {
    WorkUpdate(s.q.threads, i, Step(s, i, start).q.threads[i]);
    if s.q.threads[i].WriteStore? {
      assert Step(s, i, start).q.threads == s.q.threads[i := Idle];
    } else if s.q.threads[i].RTryCas? && Reading(Step(s, i, start).q.threads[i]) {
      assert Step(s, i, start).q.threads == s.q.threads[i := Step(s, i, start).q.threads[i]];
    }
  }

  /** In every reachable state where some thread is not idle, some such thread can move. */
  lemma SomeoneMoves(s: Sys, start: Start) returns (i: nat)
    requires Inv(s)
    requires exists k :: 0 <= k < |s.q.threads| && !s.q.threads[k].Idle?
    ensures i < |s.q.threads| && !s.q.threads[i].Idle? && Step(s, i, start) != s
  {
    if k :| 0 <= k < |s.q.threads| && !s.q.threads[k].Idle? && !Waiting(s.q.threads[k]) {
      i := k;
      StepReducesWork(s, i, start);
    } else {
      var k :| 0 <= k < |s.q.threads| && !s.q.threads[k].Idle?;
      LowestEnabled(s, start);
      i := s.q.owner[s.q.admitted];
    }
  }

  ghost predicate AllIdle(s: Sys) {
    forall k :: 0 <= k < |s.q.threads| ==> s.q.threads[k].Idle?
  }

  lemma RunLast(s: Sys, sched: Schedule, before: Schedule, last: Event)
    requires Legal(|s.q.threads|, before) && last.thread < |s.q.threads| && sched == before + [last]
    ensures Legal(|s.q.threads|, sched) && RunFrom(s, sched) == Step(RunFrom(s, before), last.thread, last.start)
  {
    assert sched[..|sched| - 1] == before;
  }

  lemma {:induction false} RunConcat(s: Sys, a: Schedule, b: Schedule)
    requires Legal(|s.q.threads|, a) && Legal(|s.q.threads|, b)
    ensures Legal(|s.q.threads|, a + b)
    ensures RunFrom(s, a + b) == RunFrom(RunFrom(s, a), b)
    decreases |b|
  {
    if b == [] {
      assert a + b == a;
    } else {
      var k := |b| - 1;
      RunConcat(s, a, b[..k]);
      RunLast(s, a + b, a + b[..k], b[k]);
    }
  }

  /** From every reachable state the lock can be drained to quiescence without starting anything
      new, in at most Work steps. */
  lemma {:induction false} Drains(s: Sys) returns (sched: Schedule)
    requires Inv(s)
    ensures Legal(|s.q.threads|, sched) && |sched| <= Work(s.q.threads)
    ensures AllIdle(RunFrom(s, sched))
    decreases Work(s.q.threads)
  {
    if AllIdle(s) {
      sched := [];
    } else {
      var i := SomeoneMoves(s, WriteLock);
      StepReducesWork(s, i, WriteLock);
      StepInv(s, i, WriteLock);
      StepFrame(s, i, WriteLock, i);
      var first := [Event(i, WriteLock)];
      assert first[..0] == [];
      assert RunFrom(s, first) == Step(s, i, WriteLock);
      var rest := Drains(Step(s, i, WriteLock));
      sched := first + rest;
      RunConcat(s, first, rest);
    }
  }

  /** A thread's turn while nothing new is started: an idle thread passes. */
  function TakeTurn(s: Sys, i: nat): Sys
    requires i < |s.q.threads|
  {
    if s.q.threads[i].Idle? then s else Step(s, i, WriteLock)
  }

  lemma TurnInv(s: Sys, i: nat)
    requires Inv(s) && i < |s.q.threads|
    ensures Inv(TakeTurn(s, i)) && |TakeTurn(s, i).q.threads| == |s.q.threads|
    ensures TakeTurn(s, i) == s || Work(TakeTurn(s, i).q.threads) < Work(s.q.threads)
  {
    if !s.q.threads[i].Idle? {
      StepInv(s, i, WriteLock);
      StepFrame(s, i, WriteLock, i);
      StepReducesWork(s, i, WriteLock);
    }
  }

  /** Turns of threads in any order, any number of times. */
  ghost function Turns(s: Sys, order: seq<nat>): (r: Sys)
    requires Inv(s) && forall k :: 0 <= k < |order| ==> order[k] < |s.q.threads|
    ensures Inv(r) && |r.q.threads| == |s.q.threads| && Work(r.q.threads) <= Work(s.q.threads)
    decreases |order|
  {
    if order == [] then s
    else
      var k := |order| - 1;
      var t := Turns(s, order[..k]);
      TurnInv(t, order[k]);
      TakeTurn(t, order[k])
  }

  /** If turns leave the work as it was, none of them did anything. */
  lemma {:induction false} NoProgress(s: Sys, order: seq<nat>)
    requires Inv(s) && forall k :: 0 <= k < |order| ==> order[k] < |s.q.threads|
    requires Work(Turns(s, order).q.threads) == Work(s.q.threads)
    ensures Turns(s, order) == s && forall i :: i in order ==> TakeTurn(s, i) == s
    decreases |order|
  {
    if order != [] {
      var k := |order| - 1;
      TurnInv(Turns(s, order[..k]), order[k]);
      NoProgress(s, order[..k]);
      assert forall i :: i in order ==> i in order[..k] || i == order[k];
    }
  }

  /** A round gives every thread at least one turn. */
  ghost predicate Round(n: nat, order: seq<nat>) {
    && (forall k :: 0 <= k < |order| ==> order[k] < n)
    && (forall i :: 0 <= i < n ==> i in order)
  }

  lemma RoundReducesWork(s: Sys, order: seq<nat>)
    requires Inv(s) && Round(|s.q.threads|, order) && !AllIdle(s)
    ensures Work(Turns(s, order).q.threads) < Work(s.q.threads)
  {
    var i := SomeoneMoves(s, WriteLock);
    assert i in order;
    if Work(Turns(s, order).q.threads) == Work(s.q.threads) { NoProgress(s, order); }
  }

  ghost function Rounds(s: Sys, rounds: seq<seq<nat>>): (r: Sys)
    requires Inv(s) && forall k :: 0 <= k < |rounds| ==> Round(|s.q.threads|, rounds[k])
    ensures Inv(r) && |r.q.threads| == |s.q.threads|
    decreases |rounds|
  {
    if rounds == [] then s
    else
      assert Round(|s.q.threads|, rounds[0]);
      Rounds(Turns(s, rounds[0]), rounds[1..])
  }

  lemma {:induction false} IdleStays(s: Sys, order: seq<nat>)
    requires Inv(s) && AllIdle(s) && forall k :: 0 <= k < |order| ==> order[k] < |s.q.threads|
    ensures Turns(s, order) == s
    decreases |order|
  {
    if order != [] { IdleStays(s, order[..|order| - 1]); }
  }

  /** Every fair schedule drains the lock: from every reachable state, once nothing new is started, as
      many rounds as there is work leave every thread idle, whatever the order inside each round. */
  lemma {:induction false} FairDrains(s: Sys, rounds: seq<seq<nat>>)
    requires Inv(s) && (forall k :: 0 <= k < |rounds| ==> Round(|s.q.threads|, rounds[k]))
    requires Work(s.q.threads) <= |rounds|
    ensures AllIdle(Rounds(s, rounds))
    decreases |rounds|
  {
    if rounds == [] {
      if !AllIdle(s) {
        var i := SomeoneMoves(s, WriteLock);
        StepReducesWork(s, i, WriteLock);
      }
    } else {
      assert Round(|s.q.threads|, rounds[0]);
      if AllIdle(s) {
        IdleStays(s, rounds[0]);
        IdleNoWork(s.q.threads);
      } else {
        RoundReducesWork(s, rounds[0]);
      }
      FairDrains(Turns(s, rounds[0]), rounds[1..]);
    }
  }

  lemma {:induction false} IdleNoWork(ts: seq<Pc>)
    requires forall k :: 0 <= k < |ts| ==> ts[k].Idle?
    ensures Work(ts) == 0
  {
    if ts != [] { IdleNoWork(ts[..|ts| - 1]); }
  }

  // ----- the lock is not reentrant

  ghost predicate Avoids(sched: Schedule, i: nat) {
    forall k :: 0 <= k < |sched| ==> sched[k].thread != i
  }

  lemma BlockedStep(s: Sys, i: nat, k: nat, start: Start, j: nat)
    requires Inv(s) && i < |s.q.threads| && s.q.threads[i].WriteHold?
    requires k < |s.q.threads| && k != i && j < |s.q.threads|
    ensures var s' := Step(s, k, start);
            && |s'.q.threads| == |s.q.threads| && s'.q.threads[i] == s.q.threads[i]
            && (Waiting(s.q.threads[j]) ==> s'.q.threads[j] == s.q.threads[j])
  {
    StepFrame(s, k, start, i);
    StepFrame(s, k, start, j);
    assert LocalOk(s, s.q.threads[i]) && LocalOk(s, s.q.threads[j]);
    PollsExact(s, j);
  }

  /** While a writer stays inside, no waiting ticket is ever admitted, whatever the others do.
      So a thread that takes a read ticket while it holds the write lock waits for itself
      forever, as reset_handler does through print_summary. */
  lemma {:induction false} WriterBlocksAll(s: Sys, i: nat, sched: Schedule, j: nat)
    requires Inv(s) && Legal(|s.q.threads|, sched) && Avoids(sched, i)
    requires i < |s.q.threads| && s.q.threads[i].WriteHold?
    requires j < |s.q.threads| && Waiting(s.q.threads[j])
    ensures RunFrom(s, sched).q.threads[j] == s.q.threads[j]
    ensures RunFrom(s, sched).q.threads[i] == s.q.threads[i]
    decreases |sched|
  {
    if sched != [] {
      var k := |sched| - 1;
      WriterBlocksAll(s, i, sched[..k], j);
      RunInv(s, sched[..k]);
      BlockedStep(RunFrom(s, sched[..k]), i, sched[k].thread, sched[k].start, j);
    }
  }
}
