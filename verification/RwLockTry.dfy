/** The two trylocks of common/rwlock.cpp on a lock that nobody uses: what the unused fourth byte
    counts, and what it does to them. */
module RwLockTry {
  import opened LockWord
  import opened RwLock
  import opened RwLockTheorems

  // ----- what the unused byte counts

  /** The step takes a ticket by write_lock or read_lock and `users` wraps. */
  predicate Carries(s: Sys, i: nat, start: Start)
    requires i < |s.q.threads|
  {
    s.q.threads[i].Idle? && (start.WriteLock? || start.ReadLock?) && s.word.users == 255
  }

  lemma PadStep(s: Sys, i: nat, start: Start)
    requires Inv(s) && i < |s.q.threads|
    ensures Step(s, i, start).word.pad == if Carries(s, i, start) then Succ(s.word.pad) else s.word.pad
  {
    if s.q.threads[i].WTryCas? {
      WriteTryExact(s, i);
    } else if s.q.threads[i].RTryCas? {
      ReadTryExact(s, i);
    } else {
      FetchAddBytes(s.word);
    }
  }

  /** The steps of a schedule that carry. */
  ghost function Wraps(s: Sys, sched: Schedule): nat
    requires Legal(|s.q.threads|, sched)
    decreases |sched|
  {
    if sched == [] then 0
    else
      var k := |sched| - 1;
      Wraps(s, sched[..k]) + if Carries(RunFrom(s, sched[..k]), sched[k].thread, sched[k].start) then 1 else 0
  }

  /** Over every schedule the unused byte is the number of times a lock operation wrapped `users`,
      modulo 256; nothing else changes it. */
  lemma {:induction false} PadCounts(n: nat, sched: Schedule)
    requires n <= 256 && Legal(n, sched)
    ensures RunFrom(Init(n), sched).word.pad == Wraps(Init(n), sched) % 256
    decreases |sched|
  {
    if sched != [] {
      var k := |sched| - 1;
      PadCounts(n, sched[..k]);
      InitInv(n);
      RunInv(Init(n), sched[..k]);
      PadStep(RunFrom(Init(n), sched[..k]), sched[k].thread, sched[k].start);
      SuccMod(Wraps(Init(n), sched[..k]));
    }
  }

  // ----- an uninterrupted trylock on a lock nobody holds or waits for

  predicate Free(s: Sys) { s.q.released == s.q.Issued() }

  /** Thread i alone takes k steps; whenever idle it starts the given operation. */
  ghost function Solo(s: Sys, i: nat, start: Start, k: nat): (r: Sys)
    requires i < |s.q.threads|
    ensures |r.q.threads| == |s.q.threads|
  {
    if k == 0 then s else Step(Solo(s, i, start, k - 1), i, start)
  }

  lemma SoloThree(s: Sys, i: nat, start: Start, s1: Sys, s2: Sys)
    requires i < |s.q.threads| == |s1.q.threads| == |s2.q.threads|
    requires s1 == Step(s, i, start) && s2 == Step(s1, i, start)
    ensures Solo(s, i, start, 3) == Step(s2, i, start)
  {
    assert Solo(s, i, start, 1) == s1;
    assert Solo(s, i, start, 2) == s2;
  }

  /** The state of the compare-and-swap. */
  lemma BeforeWriteCas(s: Sys, i: nat) returns (s2: Sys)
    requires Inv(s) && i < |s.q.threads| && s.q.threads[i].Idle?
    ensures s2 == s.(q := Goto(s.q, i, WTryCas(s.word.users, s.word.read))) && Inv(s2)
    ensures Solo(s, i, WriteTryLock, 3) == Step(s2, i, WriteTryLock)
  {
    var s1 := Step(s, i, WriteTryLock);
    StepInv(s, i, WriteTryLock);
    s2 := Step(s1, i, WriteTryLock);
    StepInv(s1, i, WriteTryLock);
    assert s.q.threads[i := WTryUsers(s.word.users)][i := WTryCas(s.word.users, s.word.read)]
        == s.q.threads[i := WTryCas(s.word.users, s.word.read)];
    SoloThree(s, i, WriteTryLock, s1, s2);
  }

  lemma BeforeReadCas(s: Sys, i: nat) returns (s2: Sys)
    requires Inv(s) && i < |s.q.threads| && s.q.threads[i].Idle?
    ensures s2 == s.(q := Goto(s.q, i, RTryCas(s.word.users, s.word.write))) && Inv(s2)
    ensures Solo(s, i, ReadTryLock, 3) == Step(s2, i, ReadTryLock)
  {
    var s1 := Step(s, i, ReadTryLock);
    StepInv(s, i, ReadTryLock);
    s2 := Step(s1, i, ReadTryLock);
    StepInv(s1, i, ReadTryLock);
    assert s.q.threads[i := RTryUsers(s.word.users)][i := RTryCas(s.word.users, s.word.write)]
        == s.q.threads[i := RTryCas(s.word.users, s.word.write)];
    SoloThree(s, i, ReadTryLock, s1, s2);
  }

  lemma BackToIdle(q: Tickets, i: nat, pc: Pc)
    requires i < |q.threads| && q.threads[i].Idle?
    ensures Goto(Goto(q, i, pc), i, Idle) == q
  {
    assert q.threads[i := pc][i := Idle] == q.threads;
  }

  /** On a free lock, with at most 256 threads about, write_trylock gets the lock if and only if the
      unused byte is zero; otherwise it leaves everything as it was. */
  lemma WriteTryOnFree(s: Sys, i: nat)
    requires Inv(s) && i < |s.q.threads| && s.q.threads[i].Idle? && Free(s)
    ensures var r := Solo(s, i, WriteTryLock, 3);
            && (r.q.threads[i] == WriteHold(s.q.Issued()) <==> s.word.pad == 0)
            && (s.word.pad != 0 ==> r == s)
  {
    var s2 := BeforeWriteCas(s, i);
    WriteTryExact(s2, i);
    BackToIdle(s.q, i, WTryCas(s.word.users, s.word.read));
  }

  lemma ReadTryOnFree(s: Sys, i: nat)
    requires Inv(s) && i < |s.q.threads| && s.q.threads[i].Idle? && Free(s)
    ensures var r := Solo(s, i, ReadTryLock, 3);
            && (r.q.threads[i] == ReadHold(s.q.Issued()) <==> s.word.pad == 0)
            && (s.word.pad != 0 ==> r == s)
  {
    var s2 := BeforeReadCas(s, i);
    ReadTryExact(s2, i);
    BackToIdle(s.q, i, RTryCas(s.word.users, s.word.write));
  }

  // ----- such a lock exists

  lemma SoloEvents(i: nat, start: Start, k: nat)
    requires k > 0
    ensures seq(k, _ => Event(i, start)) == seq(k - 1, _ => Event(i, start)) + [Event(i, start)]
  {
  }

  lemma {:induction false} SoloIsRun(s: Sys, i: nat, start: Start, k: nat)
    requires i < |s.q.threads|
    ensures var sched := seq(k, _ => Event(i, start));
            Legal(|s.q.threads|, sched) && RunFrom(s, sched) == Solo(s, i, start, k)
  {
    if k > 0 {
      SoloIsRun(s, i, start, k - 1);
      SoloEvents(i, start, k);
      RunSnoc(s, seq(k - 1, _ => Event(i, start)), Event(i, start));
    }
  }

  lemma SoloInv(n: nat, start: Start, k: nat)
    requires 0 < n <= 256
    ensures Inv(Solo(Init(n), 0, start, k))
  {
    InitInv(n);
    SoloIsRun(Init(n), 0, start, k);
    RunInv(Init(n), seq(k, _ => Event(0, start)));
  }

  /** Where a lone thread that only locks and unlocks for writing is, p steps into its pair k. */
  predicate Phase(t: Sys, k: nat, p: nat) {
    && |t.q.threads| == 1 && t.q.Issued() == k + (if p > 0 then 1 else 0)
    && t.word.pad == (if t.q.Issued() == 256 then 1 else 0)
    && (p == 0 ==> t.q.threads[0].Idle?)
    && (p == 1 ==> t.q.threads[0].WriteWait?)
    && (p == 2 ==> t.q.threads[0].WriteHold?)
    && (p == 3 ==> t.q.threads[0].WriteStore?)
  }

  lemma SmallMod(k: nat)
    requires k < 256
    ensures k % 256 == k && (k == 255 <==> k + 1 == 256)
  {
  }

  /** Taking a ticket, told without the modulus. */
  lemma TakePhase(t: Sys, k: nat)
    requires |t.q.threads| == 1 && t.q.threads[0].Idle? && t.q.Issued() == k < 256
    requires t.word.users == k && t.word.pad == 0
    ensures Phase(Step(t, 0, WriteLock), k, 1)
  {
    FetchAddBytes(t.word);
  }

  lemma PhaseTake(t: Sys, k: nat)
    requires BytesAgree(t) && Phase(t, k, 0) && k < 256
    ensures Phase(Step(t, 0, WriteLock), k, 1)
  {
    SmallMod(k);
    TakePhase(t, k);
  }

  lemma PhaseStep(t: Sys, k: nat, p: nat)
    requires Inv(t) && Phase(t, k, p) && k < 256 && p < 4
    ensures p < 3 ==> Phase(Step(t, 0, WriteLock), k, p + 1)
    ensures p == 3 ==> Phase(Step(t, 0, WriteLock), k + 1, 0)
  {
    if p == 0 {
      PhaseTake(t, k);
    } else if p == 1 {
      PollsExact(t, 0);
      CountBounds(t.q.threads, Outstanding);
      assert t.q.threads[0].ticket == t.q.released;
    }
  }

  lemma {:induction false} SoloPhase(m: nat)
    requires m <= 1024
    ensures Phase(Solo(Init(1), 0, WriteLock, m), m / 4, m % 4)
  {
    if m > 0 {
      SoloPhase(m - 1);
      SoloInv(1, WriteLock, m - 1);
      PhaseStep(Solo(Init(1), 0, WriteLock, m - 1), (m - 1) / 4, (m - 1) % 4);
    }
  }

  /** The lock is free, yet both trylocks of its only thread report busy. */
  ghost predicate SpuriouslyBusy(s: Sys) {
    && |s.q.threads| == 1 && AllIdle(s) && Free(s)
    && Solo(s, 0, WriteTryLock, 3) == s && Solo(s, 0, ReadTryLock, 3) == s
  }

  lemma PadMakesBusy(s: Sys)
    requires Inv(s) && s.q.threads == [Idle] && s.word.pad != 0
    ensures SpuriouslyBusy(s)
  {
    CountNone(s.q.threads, Outstanding);
    WriteTryOnFree(s, 0);
    ReadTryOnFree(s, 0);
  }

  /** After 256 lock/unlock pairs the carry sits in the unused byte and the trylocks fail on a free
      lock. */
  lemma FreeButBusy()
    ensures exists k :: SpuriouslyBusy(Solo(Init(1), 0, WriteLock, k))
  {
    var k := 1024;
    SoloPhase(k);
    SoloInv(1, WriteLock, k);
    PadMakesBusy(Solo(Init(1), 0, WriteLock, k));
  }
}
