/** The working-set tracker keeps page status and page protection in step
    (workingset/src/main.cpp). */
module WorkingSetRuns {
  import opened Enclaves
  import opened FaultHistory
  import opened RwLock
  import opened RwLockTheorems
  import opened WorkingSet

  // ----- the lock keeps sections apart

  /** While a thread holds the write lock no other thread sweeps or grants. */
  lemma AloneInside(s: State, i: nat, j: nat)
    requires WsInv(s) && i < |s.jobs| && j < |s.jobs| && i != j && s.lock.q.threads[i].WriteHold?
    ensures !Sweeping(s.lock.q.threads[j], s.jobs[j]) && !s.jobs[j].Grant?
  {
    InvExclusive(s.lock);
    assert ThreadOk(s, j);
    assert Writing(s.lock.q.threads[i]);
  }

  /** While a thread holds the read lock nobody sweeps. */
  lemma NoSweep(s: State, i: nat)
    requires WsInv(s) && i < |s.jobs| && s.lock.q.threads[i].ReadHold?
    ensures !Busy(s) && PagesOk(s.jobs, s.m)
  {
    forall j | 0 <= j < |s.jobs| ensures !Sweeping(s.lock.q.threads[j], s.jobs[j]) {
      if Sweeping(s.lock.q.threads[j], s.jobs[j]) {
        InvExclusive(s.lock);
        assert Writing(s.lock.q.threads[j]) && Reading(s.lock.q.threads[i]);
      }
    }
  }

  // ----- steps of the lock

  lemma PcAfter(lock: Sys, i: nat, start: Start, job: Job)
    requires i < |lock.q.threads| && JobPc(lock.q.threads[i], job)
    requires !(Holds(lock.q.threads[i]) && !job.Finished?)
    requires lock.q.threads[i].Idle? ==> start == WriteLock && job.Create?
    ensures |Step(lock, i, start).q.threads| == |lock.q.threads|
    ensures JobPc(Step(lock, i, start).q.threads[i], job)
    ensures Sweeping(Step(lock, i, start).q.threads[i], job) ==> job == Clear(0, 0)
  {
  }

  lemma EnterPc(lock: Sys, i: nat, start: Start)
    requires i < |lock.q.threads| && lock.q.threads[i].Idle? && (start == ReadLock || start == WriteLock)
    ensures |Step(lock, i, start).q.threads| == |lock.q.threads|
    ensures var pc := Step(lock, i, start).q.threads[i]; if start == ReadLock then pc.ReadWait? else pc.WriteWait?
  {
  }

  lemma SweptNone(m: Mem)
    ensures Swept(m, 0, 0)
  {
  }

  lemma GrantingKept(jobs: seq<Job>, i: nat, job: Job, e: nat, p: nat)
    requires i < |jobs| && Granting(jobs, e, p) && (jobs[i].Grant? ==> job == jobs[i])
    ensures Granting(jobs[i := job], e, p)
  {
    var k :| 0 <= k < |jobs| && jobs[k] == Grant(e, p);
    assert jobs[i := job][k] == Grant(e, p);
  }

  /** Page agreement needs only the memory and who is granting. */
  lemma PagesKept(jobs: seq<Job>, i: nat, job: Job, m: Mem)
    requires i < |jobs| && PagesOk(jobs, m) && (jobs[i].Grant? ==> job == jobs[i])
    ensures PagesOk(jobs[i := job], m)
  {
    var jobs' := jobs[i := job];
    forall e: nat, p: nat | e < |m.encls| && p < |m.encls[e].status| ensures PageOk(jobs', m, e, p) {
      assert PageOk(jobs, m, e, p);
      if Granting(jobs, e, p) { GrantingKept(jobs, i, job, e, p); }
    }
  }

  lemma CreatesKept(jobs: seq<Job>, i: nat, job: Job)
    requires i < |jobs| && CreatesApart(jobs) && (job.Create? ==> job == jobs[i])
    ensures CreatesApart(jobs[i := job])
  {
  }

  lemma BusyKept(s: State, i: nat, s': State)
    requires Wf(s) && Wf(s') && |s.jobs| == |s'.jobs| && i < |s.jobs| && Busy(s)
    requires !Sweeping(s.lock.q.threads[i], s.jobs[i])
    requires forall j :: 0 <= j < |s.jobs| && j != i ==>
               s'.lock.q.threads[j] == s.lock.q.threads[j] && s'.jobs[j] == s.jobs[j]
    ensures Busy(s')
  {
    var k :| 0 <= k < |s.jobs| && Sweeping(s.lock.q.threads[k], s.jobs[k]);
    assert Sweeping(s'.lock.q.threads[k], s'.jobs[k]);
  }

  /** A step of the lock, perhaps taking on a job. */
  lemma LockMove(s: State, i: nat, start: Start, job: Job, s': State)
    requires WsInv(s) && i < |s.jobs| && |Step(s.lock, i, start).q.threads| == |s.jobs|
    requires s' == State(Step(s.lock, i, start), s.jobs[i := job], s.m)
    requires !Sweeping(s.lock.q.threads[i], s.jobs[i])
    requires JobPc(s'.lock.q.threads[i], job) && JobOk(s.m, job)
    requires Sweeping(s'.lock.q.threads[i], job) ==> job == Clear(0, 0)
    requires (s.jobs[i].Grant? || job.Create?) ==> job == s.jobs[i]
    ensures WsInv(s')
  {
    StepInv(s.lock, i, start);
    CreatesKept(s.jobs, i, job);
    SweptNone(s.m);
    forall j | 0 <= j < |s.jobs| ensures ThreadOk(s', j) && (j != i ==> s'.lock.q.threads[j] == s.lock.q.threads[j]) {
      StepFrame(s.lock, i, start, j);
      assert ThreadOk(s, j);
    }
    if Busy(s) { BusyKept(s, i, s'); } else { PagesKept(s.jobs, i, job, s.m); }
  }

  lemma LockStep(s: State, i: nat)
    requires WsInv(s) && i < |s.jobs|
    requires var pc, job := s.lock.q.threads[i], s.jobs[i];
             !(pc.Idle? && !job.Create?) && !(Holds(pc) && !job.Finished?)
    ensures WsInv(s.(lock := Step(s.lock, i, WriteLock)))
  {
    var job := s.jobs[i];
    assert ThreadOk(s, i);
    PcAfter(s.lock, i, WriteLock, job);
    assert s.jobs[i := job] == s.jobs;
    LockMove(s, i, WriteLock, job, s.(lock := Step(s.lock, i, WriteLock)));
  }

  lemma EnterStep(s: State, i: nat, start: Start, job: Job)
    requires WsInv(s) && i < |s.jobs| && s.lock.q.threads[i].Idle? && !s.jobs[i].Create?
    requires (start == ReadLock && job.Fault?) || (start == WriteLock && (job == Clear(0, 0) || job.Destroy?))
    ensures WsInv(Enter(s, i, start, job))
  {
    assert ThreadOk(s, i);
    EnterPc(s.lock, i, start);
    LockMove(s, i, start, job, Enter(s, i, start, job));
  }

  // ----- protecting the pages of an enclave to come

  lemma RevokePage(jobs: seq<Job>, m: Mem, encl: Encl, e: nat, p: nat)
    requires MemOk(m) && e < |m.encls| && p < |m.encls[e].status| && PageOk(jobs, m, e, p)
    requires m.encls[e].alive ==> Apart(m.encls[e], encl)
    ensures PageOk(jobs, m.(accessible := Revoke(m.accessible, encl)), e, p)
  {
    var x := m.encls[e];
    assert EnclOk(x);
    assert Has(x, PageNo(x, p));
    if x.alive { assert !Has(encl, PageNo(x, p)); }
  }

  lemma RevokeSwept(m: Mem, encl: Encl, k: nat, q: nat)
    requires Swept(m, k, q)
    ensures Swept(m.(accessible := Revoke(m.accessible, encl)), k, q)
  {
    var m' := m.(accessible := Revoke(m.accessible, encl));
    forall e: nat, p: nat | e < k && p < |m'.encls[e].status| ensures Blank(m', e, p) { assert Blank(m, e, p); }
  }

  lemma RevokeThread(s: State, encl: Encl, j: nat, s': State, i: nat)
    requires WsInv(s) && j < |s.jobs| && i < |s.jobs| && j != i
    requires s' == s.(m := s.m.(accessible := Revoke(s.m.accessible, encl)), jobs := s.jobs[i := Create(encl)])
    ensures ThreadOk(s', j)
  {
    assert ThreadOk(s, j);
    if s.jobs[j].Clear? && Swept(s.m, s.jobs[j].k, s.jobs[j].q) { RevokeSwept(s.m, encl, s.jobs[j].k, s.jobs[j].q); }
    if s.jobs[j].Protect? && s.jobs[j].k < |s.m.encls| && Swept(s.m, s.jobs[j].k, |s.m.encls[s.jobs[j].k].status|) {
      RevokeSwept(s.m, encl, s.jobs[j].k, |s.m.encls[s.jobs[j].k].status|);
    }
  }

  lemma ApartSym(a: Encl, b: Encl)
    requires Apart(a, b)
    ensures Apart(b, a)
  {
  }

  lemma CreatesAdd(jobs: seq<Job>, i: nat, encl: Encl)
    requires i < |jobs| && CreatesApart(jobs)
    requires forall j :: 0 <= j < |jobs| && jobs[j].Create? ==> Apart(jobs[j].encl, encl)
    ensures CreatesApart(jobs[i := Create(encl)])
  {
    forall j | 0 <= j < |jobs| && jobs[j].Create? ensures Apart(encl, jobs[j].encl) { ApartSym(jobs[j].encl, encl); }
  }

  lemma RevokePages(jobs: seq<Job>, m: Mem, encl: Encl)
    requires MemOk(m) && PagesOk(jobs, m)
    requires forall k :: 0 <= k < |m.encls| && m.encls[k].alive ==> Apart(m.encls[k], encl)
    ensures PagesOk(jobs, m.(accessible := Revoke(m.accessible, encl)))
  {
    var m' := m.(accessible := Revoke(m.accessible, encl));
    forall e: nat, p: nat | e < |m'.encls| && p < |m'.encls[e].status| ensures PageOk(jobs, m', e, p) {
      assert PageOk(jobs, m, e, p);
      RevokePage(jobs, m, encl, e, p);
    }
  }

  lemma CreateStep(s: State, i: nat, encl: Encl)
    requires WsInv(s) && i < |s.jobs| && s.lock.q.threads[i].Idle? && !s.jobs[i].Create?
    requires Fresh(s, encl) && EnclOk(encl) && encl.alive && forall p :: 0 <= p < |encl.status| ==> !encl.status[p]
    ensures WsInv(s.(m := s.m.(accessible := Revoke(s.m.accessible, encl)), jobs := s.jobs[i := Create(encl)]))
  {
    var s' := s.(m := s.m.(accessible := Revoke(s.m.accessible, encl)), jobs := s.jobs[i := Create(encl)]);
    assert ThreadOk(s, i);
    CreatesAdd(s.jobs, i, encl);
    forall j | 0 <= j < |s.jobs| ensures ThreadOk(s', j) {
      if j != i { RevokeThread(s, encl, j, s', i); }
    }
    if Busy(s) {
      BusyKept(s, i, s');
    } else {
      RevokePages(s.jobs, s.m, encl);
      PagesKept(s.jobs, i, Create(encl), s'.m);
    }
  }

  // ----- steps inside a section

  /** Work done under the lock: the memory changes, the lock does not. */
  lemma WorkMove(s: State, i: nat, m': Mem, job: Job)
    requires WsInv(s) && i < |s.jobs| && MemOk(m')
    requires JobPc(s.lock.q.threads[i], job) && JobOk(m', job) && (job.Create? ==> job == s.jobs[i])
    requires forall j :: 0 <= j < |s.jobs| && j != i ==> JobOk(m', s.jobs[j])
    requires forall j :: 0 <= j < |s.jobs| && j != i ==> !Sweeping(s.lock.q.threads[j], s.jobs[j])
    requires if Sweeping(s.lock.q.threads[i], job) then SweepOk(m', job) else PagesOk(s.jobs[i := job], m')
    ensures WsInv(s.(m := m', jobs := s.jobs[i := job]))
  {
    var s' := s.(m := m', jobs := s.jobs[i := job]);
    CreatesKept(s.jobs, i, job);
    forall j | 0 <= j < |s.jobs| ensures ThreadOk(s', j) { assert ThreadOk(s, j); }
    if Sweeping(s.lock.q.threads[i], job) { assert Sweeping(s'.lock.q.threads[i], s'.jobs[i]); }
  }

  /** Only status bytes differ. */
  predicate SameShape(a: Mem, b: Mem) {
    |a.encls| == |b.encls| && forall e :: 0 <= e < |a.encls| ==> SameRange(a.encls[e], b.encls[e])
  }

  predicate SameRange(a: Encl, b: Encl) {
    SameEncl(a, b) && |a.status| == |b.status|
  }

  lemma ShapeTable(m: Mem, m': Mem)
    requires TableOk(m.encls) && SameShape(m, m')
    ensures TableOk(m'.encls)
  {
    forall e | 0 <= e < |m'.encls| ensures EnclOk(m'.encls[e]) {
      assert EnclOk(m.encls[e]) && SameRange(m.encls[e], m'.encls[e]);
    }
    forall e, f | 0 <= e < |m'.encls| && 0 <= f < |m'.encls| && e != f && m'.encls[e].alive && m'.encls[f].alive
      ensures Apart(m'.encls[e], m'.encls[f])
    {
      assert SameRange(m.encls[e], m'.encls[e]) && SameRange(m.encls[f], m'.encls[f]);
      ApartSame(m.encls[e], m.encls[f], m'.encls[e], m'.encls[f]);
    }
  }

  lemma ShapeHist(m: Mem, m': Mem)
    requires HistOk(m) && SameShape(m, m') && TableOf(m'.log) == TableOf(m.log)
    requires forall e: nat, p: nat :: p in Since(m'.log, e) ==> e < |m.encls| && p < |m.encls[e].status|
    ensures HistOk(m')
  {
    forall e | 0 <= e < |m'.encls|
      ensures SameEncl(TableOf(m'.log)[e], m'.encls[e]) && |m.encls[e].status| == |m'.encls[e].status|
    {
      assert SameEncl(TableOf(m.log)[e], m.encls[e]) && SameRange(m.encls[e], m'.encls[e]);
    }
  }

  lemma ShapeMem(m: Mem, m': Mem)
    requires MemOk(m) && SameShape(m, m') && m'.log == m.log
    ensures MemOk(m')
  {
    ShapeTable(m, m');
    ShapeHist(m, m');
  }

  lemma ApartSame(a: Encl, b: Encl, a': Encl, b': Encl)
    requires Apart(a, b) && a'.start == a.start && a'.size == a.size && b'.start == b.start && b'.size == b.size
    ensures Apart(a', b')
  {
    forall page: nat | Has(a', page) ensures !Has(b', page) { assert Has(a, page); }
  }

  lemma ShapeCreate(m: Mem, m': Mem, job: Job)
    requires SameShape(m, m') && job.Create? && JobOk(m, job)
    requires forall page: nat :: Has(job.encl, page) ==> page !in m'.accessible
    ensures JobOk(m', job)
  {
    forall k | 0 <= k < |m'.encls| && m'.encls[k].alive ensures Apart(m'.encls[k], job.encl) {
      assert SameRange(m.encls[k], m'.encls[k]);
      ApartSame(m.encls[k], job.encl, m'.encls[k], job.encl);
    }
  }

  // ----- the fault handler's test-and-set

  /** Counting depends on where the enclaves are and which of them live. */
  lemma CountsSame(a: seq<Encl>, b: seq<Encl>, e: nat, addr: nat)
    requires |a| == |b| && forall k :: 0 <= k < |a| ==> SameEncl(a[k], b[k])
    ensures CountsFor(a, e, addr) == CountsFor(b, e, addr)
  {
    assert forall k :: 0 <= k < |a| ==> (EndsAt(a[k], addr) <==> EndsAt(b[k], addr)) by {
      forall k | 0 <= k < |a| ensures EndsAt(a[k], addr) <==> EndsAt(b[k], addr) { assert SameEncl(a[k], b[k]); }
    }
  }

  /** A fault adds its page to the enclave that the handler finds, and to no other. */
  lemma FaultSince(m: Mem, addr: nat, e: nat)
    requires MemOk(m)
    ensures TableOf(m.log + [Faulted(addr)]) == TableOf(m.log)
    ensures Since(m.log + [Faulted(addr)], e) ==
            Since(m.log, e) + if Finds(m.encls, addr, e) then {Offset(m.encls[e], addr)} else {}
  {
    LogSnoc(m.log, Faulted(addr), e);
    FindsExact(m.encls, addr, e);
    CountsSame(TableOf(m.log), m.encls, e, addr);
    if Finds(m.encls, addr, e) {
      FindsCounts(m.encls, addr, e);
      assert SameEncl(TableOf(m.log)[e], m.encls[e]);
    }
  }

  /** The byte the handler sets, and the fault that it handles. */
  function Marked(m: Mem, f: nat, q: nat, addr: nat): Mem
    requires f < |m.encls| && q < |m.encls[f].status|
  {
    WithStatus(m, f, m.encls[f].status[q := true]).(log := m.log + [Faulted(addr)])
  }

  predicate Handles(m: Mem, f: nat, q: nat, addr: nat) { Finds(m.encls, addr, f) && q == Offset(m.encls[f], addr) }

  lemma MarkedMem(m: Mem, f: nat, q: nat, addr: nat)
    requires MemOk(m) && Handles(m, f, q, addr)
    ensures MemOk(Marked(m, f, q, addr)) && SameShape(m, Marked(m, f, q, addr))
  {
    var m' := Marked(m, f, q, addr);
    forall e: nat, p: nat | p in Since(m'.log, e) ensures e < |m.encls| && p < |m.encls[e].status| {
      FaultSince(m, addr, e);
    }
    FaultSince(m, addr, f);
    ShapeTable(m, m');
    ShapeHist(m, m');
  }

  lemma MarkedJob(m: Mem, f: nat, q: nat, addr: nat, job: Job)
    requires MemOk(m) && Handles(m, f, q, addr) && JobOk(m, job)
    ensures JobOk(Marked(m, f, q, addr), job)
  {
    MarkedMem(m, f, q, addr);
    if job.Create? { ShapeCreate(m, Marked(m, f, q, addr), job); }
  }

  lemma MarkedPage(jobs: seq<Job>, jobs': seq<Job>, m: Mem, f: nat, q: nat, addr: nat, e: nat, p: nat)
    requires MemOk(m) && Handles(m, f, q, addr)
    requires e < |m.encls| && p < |m.encls[e].status| && PageOk(jobs, m, e, p)
    requires Granting(jobs, e, p) ==> Granting(jobs', e, p)
    requires !m.encls[f].status[q] ==> Granting(jobs', f, q)
    ensures PageOk(jobs', Marked(m, f, q, addr), e, p)
  {
    FaultSince(m, addr, e);
  }

  lemma MarkedPages(jobs: seq<Job>, i: nat, m: Mem, f: nat, q: nat, addr: nat, job: Job)
    requires MemOk(m) && Handles(m, f, q, addr) && i < |jobs| && PagesOk(jobs, m) && !jobs[i].Grant?
    requires job == if m.encls[f].status[q] then Finished else Grant(f, q)
    ensures PagesOk(jobs[i := job], Marked(m, f, q, addr))
  {
    var jobs', m' := jobs[i := job], Marked(m, f, q, addr);
    assert jobs'[i] == job;
    forall e: nat, p: nat | e < |m'.encls| && p < |m'.encls[e].status| ensures PageOk(jobs', m', e, p) {
      assert PageOk(jobs, m, e, p);
      if Granting(jobs, e, p) { GrantingKept(jobs, i, job, e, p); }
      MarkedPage(jobs, jobs', m, f, q, addr, e, p);
    }
  }

  lemma MarkStep(s: State, i: nat, f: nat, q: nat, addr: nat, job: Job)
    requires WsInv(s) && i < |s.jobs| && s.lock.q.threads[i].ReadHold? && s.jobs[i].Fault?
    requires Handles(s.m, f, q, addr) && job == if s.m.encls[f].status[q] then Finished else Grant(f, q)
    ensures WsInv(s.(m := Marked(s.m, f, q, addr), jobs := s.jobs[i := job]))
  {
    NoSweep(s, i);
    MarkedMem(s.m, f, q, addr);
    MarkedPages(s.jobs, i, s.m, f, q, addr, job);
    forall j | 0 <= j < |s.jobs| ensures JobOk(Marked(s.m, f, q, addr), s.jobs[j]) {
      assert ThreadOk(s, j);
      MarkedJob(s.m, f, q, addr, s.jobs[j]);
    }
    WorkMove(s, i, Marked(s.m, f, q, addr), job);
  }

  /** A fault that counts for no enclave changes no page and no set of faulted pages. */
  lemma IgnoredFault(jobs: seq<Job>, m: Mem, addr: nat)
    requires MemOk(m) && PagesOk(jobs, m) && forall e :: !Finds(m.encls, addr, e)
    ensures MemOk(m.(log := m.log + [Faulted(addr)])) && PagesOk(jobs, m.(log := m.log + [Faulted(addr)]))
  {
    var m' := m.(log := m.log + [Faulted(addr)]);
    forall e: nat ensures Since(m'.log, e) == Since(m.log, e) && TableOf(m'.log) == TableOf(m.log) {
      FaultSince(m, addr, e);
    }
    FaultSince(m, addr, 0);
    ShapeHist(m, m');
    forall e: nat, p: nat | e < |m'.encls| && p < |m'.encls[e].status| ensures PageOk(jobs, m', e, p) {
      assert PageOk(jobs, m, e, p);
    }
  }

  lemma QuitStep(s: State, i: nat, addr: nat)
    requires WsInv(s) && i < |s.jobs| && s.lock.q.threads[i].ReadHold? && s.jobs[i].Fault?
    requires forall e :: !Finds(s.m.encls, addr, e)
    ensures WsInv(s.(m := s.m.(log := s.m.log + [Faulted(addr)]), jobs := s.jobs[i := Finished]))
  {
    var m' := s.m.(log := s.m.log + [Faulted(addr)]);
    NoSweep(s, i);
    PagesKept(s.jobs, i, Finished, s.m);
    IgnoredFault(s.jobs[i := Finished], s.m, addr);
    forall j | 0 <= j < |s.jobs| ensures JobOk(m', s.jobs[j]) { assert ThreadOk(s, j); }
    WorkMove(s, i, m', Finished);
  }

  lemma FaultStep(s: State, i: nat)
    requires WsInv(s) && i < |s.jobs| && Holds(s.lock.q.threads[i]) && s.jobs[i].Fault?
    ensures WsInv(InSection(s, i))
  {
    assert ThreadOk(s, i);
    var addr := s.jobs[i].addr;
    var f := Lookup(s.m.encls, addr, 0);
    if Finds(s.m.encls, addr, f) {
      var q := Offset(s.m.encls[f], addr);
      MarkStep(s, i, f, q, addr, if s.m.encls[f].status[q] then Finished else Grant(f, q));
    } else {
      QuitStep(s, i, addr);
    }
  }

  // ----- the fault handler's mprotect

  lemma GrantPage(jobs: seq<Job>, i: nat, m: Mem, f: nat, q: nat, e: nat, p: nat)
    requires MemOk(m) && i < |jobs| && jobs[i] == Grant(f, q) && JobOk(m, jobs[i])
    requires e < |m.encls| && p < |m.encls[e].status| && PageOk(jobs, m, e, p)
    ensures PageOk(jobs[i := Finished], m.(accessible := m.accessible + {PageNo(m.encls[f], q)}), e, p)
  {
    assert EnclOk(m.encls[e]) && EnclOk(m.encls[f]);
    var x := m.encls[e];
    if x.alive && PageNo(x, p) == PageNo(m.encls[f], q) {
      assert Has(x, PageNo(x, p)) && Has(m.encls[f], PageNo(x, p));
    }
    if Granting(jobs, e, p) && !(e == f && p == q) {
      var k :| 0 <= k < |jobs| && jobs[k] == Grant(e, p);
      assert jobs[i := Finished][k] == Grant(e, p);
    }
  }

  lemma GrantPages(jobs: seq<Job>, i: nat, m: Mem, f: nat, q: nat, m': Mem)
    requires MemOk(m) && i < |jobs| && jobs[i] == Grant(f, q) && JobOk(m, jobs[i]) && PagesOk(jobs, m)
    requires m' == m.(accessible := m.accessible + {PageNo(m.encls[f], q)})
    ensures PagesOk(jobs[i := Finished], m')
  {
    var jobs' := jobs[i := Finished];
    forall e: nat, p: nat | e < |m'.encls| && p < |m'.encls[e].status| ensures PageOk(jobs', m', e, p) {
      assert PageOk(jobs, m, e, p);
      GrantPage(jobs, i, m, f, q, e, p);
    }
  }

  lemma GrantJob(m: Mem, f: nat, q: nat, job: Job, m': Mem)
    requires MemOk(m) && f < |m.encls| && m.encls[f].alive && q < |m.encls[f].status| && JobOk(m, job)
    requires m' == m.(accessible := m.accessible + {PageNo(m.encls[f], q)})
    ensures JobOk(m', job)
  {
    assert EnclOk(m.encls[f]);
    assert Has(m.encls[f], PageNo(m.encls[f], q));
  }

  lemma GrantStep(s: State, i: nat)
    requires WsInv(s) && i < |s.jobs| && Holds(s.lock.q.threads[i]) && s.jobs[i].Grant?
    ensures WsInv(InSection(s, i))
  {
    assert ThreadOk(s, i);
    var f, q := s.jobs[i].e, s.jobs[i].p;
    var m' := s.m.(accessible := s.m.accessible + {PageNo(s.m.encls[f], q)});
    NoSweep(s, i);
    GrantPages(s.jobs, i, s.m, f, q, m');
    forall j | 0 <= j < |s.jobs| ensures JobOk(m', s.jobs[j]) {
      assert ThreadOk(s, j);
      GrantJob(s.m, f, q, s.jobs[j], m');
    }
    assert s.m.log + [] == s.m.log;
    WorkMove(s, i, m', Finished);
  }

  // ----- the reset

  lemma ClearedSwept(m: Mem, k: nat, q: nat)
    requires Swept(m, k, q) && k < |m.encls| && q < |m.encls[k].status|
    ensures Swept(WithStatus(m, k, m.encls[k].status[q := false]), k, q + 1)
  {
    var m' := WithStatus(m, k, m.encls[k].status[q := false]);
    forall e: nat, p: nat | e < k && p < |m'.encls[e].status| ensures Blank(m', e, p) { assert Blank(m, e, p); }
  }

  lemma ProtectedSwept(m: Mem, k: nat)
    requires MemOk(m) && k < |m.encls| && Swept(m, k, |m.encls[k].status|)
    ensures Swept(m.(accessible := Revoke(m.accessible, m.encls[k])), k + 1, 0)
  {
    var m' := m.(accessible := Revoke(m.accessible, m.encls[k]));
    forall e: nat, p: nat | e < k + 1 && p < |m'.encls[e].status| ensures Blank(m', e, p) {
      assert EnclOk(m.encls[e]);
      if e < k { assert Blank(m, e, p); } else { assert Has(m.encls[k], PageNo(m.encls[k], p)); }
    }
  }

  lemma SinceReset(log: seq<Entry>, e: nat)
    ensures Since(log + [Reset], e) == {} && TableOf(log + [Reset]) == TableOf(log)
  {
    LogSnoc(log, Reset, e);
  }

  lemma ResetMem(m: Mem)
    requires MemOk(m)
    ensures MemOk(m.(log := m.log + [Reset]))
  {
    var m' := m.(log := m.log + [Reset]);
    forall e: nat ensures Since(m'.log, e) == {} { SinceReset(m.log, e); }
    SinceReset(m.log, 0);
    ShapeHist(m, m');
  }

  lemma ResetPages(jobs: seq<Job>, m: Mem)
    requires Swept(m, |m.encls|, 0)
    ensures PagesOk(jobs, m.(log := m.log + [Reset]))
  {
    var m' := m.(log := m.log + [Reset]);
    forall e: nat, p: nat | e < |m'.encls| && p < |m'.encls[e].status| ensures PageOk(jobs, m', e, p) {
      assert Blank(m, e, p);
      SinceReset(m.log, e);
    }
  }

  lemma ClearShape(m: Mem, k: nat, q: nat)
    requires MemOk(m) && k < |m.encls| && q < |m.encls[k].status|
    ensures var m' := WithStatus(m, k, m.encls[k].status[q := false]); SameShape(m, m') && MemOk(m')
  {
    ShapeMem(m, WithStatus(m, k, m.encls[k].status[q := false]));
  }

  /** What the reset does to the jobs of the others, none of whom is granting. */
  lemma SweepJob(m: Mem, m': Mem, job: Job)
    requires SameShape(m, m') && m'.accessible <= m.accessible && JobOk(m, job) && !job.Grant?
    ensures JobOk(m', job)
  {
    if job.Create? { ShapeCreate(m, m', job); }
  }

  lemma SweepMove(s: State, i: nat, m': Mem, job: Job)
    requires WsInv(s) && i < |s.jobs| && Sweeping(s.lock.q.threads[i], s.jobs[i])
    requires MemOk(m') && SameShape(s.m, m') && m'.accessible <= s.m.accessible
    requires job.Clear? || job.Protect? || job.Finished?
    requires if job.Finished? then PagesOk(s.jobs[i := job], m') else SweepOk(m', job)
    ensures WsInv(s.(m := m', jobs := s.jobs[i := job]))
  {
    forall j | 0 <= j < |s.jobs| && j != i ensures JobOk(m', s.jobs[j]) && !Sweeping(s.lock.q.threads[j], s.jobs[j]) {
      assert ThreadOk(s, j);
      AloneInside(s, i, j);
      SweepJob(s.m, m', s.jobs[j]);
    }
    WorkMove(s, i, m', job);
  }

  lemma ClearStep(s: State, i: nat)
    requires WsInv(s) && i < |s.jobs| && Holds(s.lock.q.threads[i]) && s.jobs[i].Clear?
    ensures WsInv(InSection(s, i))
  {
    assert ThreadOk(s, i);
    var k, q := s.jobs[i].k, s.jobs[i].q;
    var (m', job) := ClearNext(s.m, k, q);
    if k >= |s.m.encls| {
      ResetMem(s.m);
      assert Swept(s.m, |s.m.encls|, 0);
      ResetPages(s.jobs[i := job], s.m);
      SweepMove(s, i, s.m.(log := s.m.log + [Reset]), job);
    } else {
      if q < |s.m.encls[k].status| {
        ClearShape(s.m, k, q);
        ClearedSwept(s.m, k, q);
      }
      assert s.m.log + [] == s.m.log;
      SweepMove(s, i, m', job);
    }
  }

  lemma ProtectStep(s: State, i: nat)
    requires WsInv(s) && i < |s.jobs| && Holds(s.lock.q.threads[i]) && s.jobs[i].Protect?
    ensures WsInv(InSection(s, i))
  {
    assert ThreadOk(s, i);
    var k := s.jobs[i].k;
    var m' := s.m.(accessible := Revoke(s.m.accessible, s.m.encls[k]));
    ProtectedSwept(s.m, k);
    ShapeMem(s.m, m');
    assert s.m.log + [] == s.m.log;
    SweepMove(s, i, m', Clear(k + 1, 0));
  }

  // ----- creation and destruction

  /** The memory with the enclave registered. */
  function Appended(m: Mem, encl: Encl): Mem { m.(encls := m.encls + [encl], log := m.log + [Added(encl)]) }

  lemma AppendTable(m: Mem, encl: Encl)
    requires TableOk(m.encls) && JobOk(m, Create(encl))
    ensures TableOk(m.encls + [encl])
  {
    var es := m.encls + [encl];
    forall e | 0 <= e < |es| ensures EnclOk(es[e]) { if e < |m.encls| { assert EnclOk(m.encls[e]); } }
    forall e, f | 0 <= e < |es| && 0 <= f < |es| && e != f && es[e].alive && es[f].alive ensures Apart(es[e], es[f]) {
      if e == |m.encls| { ApartSym(es[f], encl); }
    }
  }

  lemma AppendMem(m: Mem, encl: Encl)
    requires MemOk(m) && JobOk(m, Create(encl))
    ensures MemOk(Appended(m, encl))
  {
    var m' := Appended(m, encl);
    AppendTable(m, encl);
    forall e: nat ensures Since(m'.log, e) == Since(m.log, e) { LogSnoc(m.log, Added(encl), e); }
    LogSnoc(m.log, Added(encl), 0);
    forall e | 0 <= e < |m'.encls| ensures SameEncl(TableOf(m'.log)[e], m'.encls[e]) {
      if e < |m.encls| { assert SameEncl(TableOf(m.log)[e], m.encls[e]); }
    }
  }

  lemma AppendPages(jobs: seq<Job>, i: nat, m: Mem, encl: Encl)
    requires MemOk(m) && i < |jobs| && jobs[i] == Create(encl) && JobOk(m, jobs[i])
    requires PagesOk(jobs, m)
    ensures PagesOk(jobs[i := Finished], Appended(m, encl))
  {
    var jobs', m' := jobs[i := Finished], Appended(m, encl);
    PagesKept(jobs, i, Finished, m);
    forall e: nat, p: nat | e < |m'.encls| && p < |m'.encls[e].status| ensures PageOk(jobs', m', e, p) {
      LogSnoc(m.log, Added(encl), e);
      if e < |m.encls| { assert PageOk(jobs', m, e, p); } else { assert Has(encl, PageNo(encl, p)); }
    }
  }

  lemma AppendJob(m: Mem, encl: Encl, job: Job)
    requires JobOk(m, job) && !job.Grant? && (job.Create? ==> Apart(encl, job.encl))
    ensures JobOk(Appended(m, encl), job)
  {
  }

  /** While a thread holds the write lock and does not sweep, pages agree. */
  lemma WriterPages(s: State, i: nat)
    requires WsInv(s) && i < |s.jobs| && s.lock.q.threads[i].WriteHold? && !Sweeping(s.lock.q.threads[i], s.jobs[i])
    ensures PagesOk(s.jobs, s.m)
  {
    forall j | 0 <= j < |s.jobs| ensures !Sweeping(s.lock.q.threads[j], s.jobs[j]) {
      if j != i { AloneInside(s, i, j); }
    }
  }

  lemma AppendStep(s: State, i: nat)
    requires WsInv(s) && i < |s.jobs| && Holds(s.lock.q.threads[i]) && s.jobs[i].Create?
    ensures WsInv(InSection(s, i))
  {
    assert ThreadOk(s, i);
    var encl := s.jobs[i].encl;
    var m' := Appended(s.m, encl);
    AppendMem(s.m, encl);
    WriterPages(s, i);
    AppendPages(s.jobs, i, s.m, encl);
    forall j | 0 <= j < |s.jobs| && j != i ensures JobOk(m', s.jobs[j]) && !Sweeping(s.lock.q.threads[j], s.jobs[j]) {
      assert ThreadOk(s, j);
      AloneInside(s, i, j);
      AppendJob(s.m, encl, s.jobs[j]);
    }
    WorkMove(s, i, m', Finished);
  }

  /** The memory with the destruction recorded. */
  function Removal(m: Mem, eid: nat): Mem { Kill(m, eid).(log := m.log + [Removed(eid)]) }

  lemma {:induction false} VictimIsFirst(es: seq<Encl>, eid: nat, k: nat)
    requires k <= |es| && forall j :: 0 <= j < k ==> !(es[j].eid == eid && es[j].alive)
    ensures var v := Victim(es, eid, k); forall e :: 0 <= e < |es| ==> (FirstLive(es, eid, e) <==> e == v)
    decreases |es| - k
  {
    if k < |es| && !(es[k].eid == eid && es[k].alive) { VictimIsFirst(es, eid, k + 1); }
  }

  lemma FirstLiveSame(a: seq<Encl>, b: seq<Encl>, eid: nat, e: nat)
    requires |a| == |b| && (forall k :: 0 <= k < |a| ==> SameEncl(a[k], b[k])) && e < |a|
    ensures FirstLive(a, eid, e) == FirstLive(b, eid, e)
  {
    assert SameEncl(a[e], b[e]);
    forall k | 0 <= k < e ensures (a[k].eid == eid && a[k].alive) == (b[k].eid == eid && b[k].alive) {
      assert SameEncl(a[k], b[k]);
    }
  }

  /** Destroying takes the first live enclave with the id, as the history says. */
  lemma RemovalEncl(m: Mem, eid: nat, e: nat)
    requires HistOk(m) && e < |m.encls|
    ensures |Removal(m, eid).encls| == |m.encls| == |TableOf(Removal(m, eid).log)|
    ensures SameEncl(TableOf(Removal(m, eid).log)[e], Removal(m, eid).encls[e])
    ensures Removal(m, eid).encls[e] == m.encls[e].(alive := Removal(m, eid).encls[e].alive)
    ensures Removal(m, eid).encls[e].alive ==> m.encls[e].alive
  {
    LogSnoc(m.log, Removed(eid), e);
    VictimIsFirst(m.encls, eid, 0);
    FirstLiveSame(TableOf(m.log), m.encls, eid, e);
    assert SameEncl(TableOf(m.log)[e], m.encls[e]);
  }

  lemma RemovalSize(m: Mem, eid: nat)
    ensures |Removal(m, eid).encls| == |m.encls| && |TableOf(Removal(m, eid).log)| == |TableOf(m.log)|
    ensures forall e: nat :: Since(Removal(m, eid).log, e) == Since(m.log, e)
  {
    LogSnoc(m.log, Removed(eid), 0);
    forall e: nat ensures Since(Removal(m, eid).log, e) == Since(m.log, e) { LogSnoc(m.log, Removed(eid), e); }
  }

  lemma RemovalTable(m: Mem, eid: nat)
    requires MemOk(m)
    ensures TableOk(Removal(m, eid).encls)
  {
    var m' := Removal(m, eid);
    RemovalSize(m, eid);
    forall e | 0 <= e < |m'.encls|
      ensures EnclOk(m'.encls[e]) && m'.encls[e] == m.encls[e].(alive := m'.encls[e].alive)
      ensures m'.encls[e].alive ==> m.encls[e].alive
    {
      assert EnclOk(m.encls[e]);
      RemovalEncl(m, eid, e);
    }
  }

  lemma RemovalMem(m: Mem, eid: nat)
    requires MemOk(m)
    ensures MemOk(Removal(m, eid))
  {
    var m' := Removal(m, eid);
    RemovalSize(m, eid);
    RemovalTable(m, eid);
    forall e | 0 <= e < |m'.encls|
      ensures SameEncl(TableOf(m'.log)[e], m'.encls[e]) && |m'.encls[e].status| == |m.encls[e].status|
    {
      RemovalEncl(m, eid, e);
    }
  }

  lemma RemovalPages(jobs: seq<Job>, m: Mem, eid: nat)
    requires MemOk(m) && PagesOk(jobs, m)
    ensures PagesOk(jobs, Removal(m, eid))
  {
    var m' := Removal(m, eid);
    RemovalSize(m, eid);
    forall e: nat, p: nat | e < |m'.encls| && p < |m'.encls[e].status| ensures PageOk(jobs, m', e, p) {
      RemovalEncl(m, eid, e);
      assert PageOk(jobs, m, e, p);
    }
  }

  lemma RemovalJob(m: Mem, eid: nat, job: Job)
    requires MemOk(m) && JobOk(m, job) && !job.Grant?
    ensures JobOk(Removal(m, eid), job)
  {
    var m' := Removal(m, eid);
    RemovalSize(m, eid);
    if job.Create? {
      forall k | 0 <= k < |m'.encls| && m'.encls[k].alive ensures Apart(m'.encls[k], job.encl) {
        RemovalEncl(m, eid, k);
        ApartSame(m.encls[k], job.encl, m'.encls[k], job.encl);
      }
    }
  }

  lemma DestroyStep(s: State, i: nat)
    requires WsInv(s) && i < |s.jobs| && Holds(s.lock.q.threads[i]) && s.jobs[i].Destroy?
    ensures WsInv(InSection(s, i))
  {
    assert ThreadOk(s, i);
    var eid := s.jobs[i].eid;
    WriterPages(s, i);
    PagesKept(s.jobs, i, Finished, s.m);
    RemovalMem(s.m, eid);
    RemovalPages(s.jobs[i := Finished], s.m, eid);
    forall j | 0 <= j < |s.jobs| && j != i
      ensures JobOk(Removal(s.m, eid), s.jobs[j]) && !Sweeping(s.lock.q.threads[j], s.jobs[j])
    {
      assert ThreadOk(s, j);
      AloneInside(s, i, j);
      RemovalJob(s.m, eid, s.jobs[j]);
    }
    WorkMove(s, i, Removal(s.m, eid), Finished);
  }

  // ----- every step, every run

  lemma AcceptInv(s: State, i: nat, r: Request)
    requires WsInv(s) && i < |s.jobs| && s.lock.q.threads[i].Idle? && !s.jobs[i].Create?
    ensures WsInv(Accept(s, i, r))
  {
    match r
    case FaultAt(addr) => EnterStep(s, i, ReadLock, Fault(addr));
    case ResetAll => EnterStep(s, i, WriteLock, Clear(0, 0));
    case DestroyOf(eid) => EnterStep(s, i, WriteLock, Destroy(eid));
    case CreateAt(eid, start, size) =>
      var e := Created(eid, start, size);
      if Fresh(s, e) { CreateStep(s, i, e); }
  }

  lemma SectionInv(s: State, i: nat)
    requires WsInv(s) && i < |s.jobs| && Holds(s.lock.q.threads[i]) && !s.jobs[i].Finished?
    ensures WsInv(InSection(s, i))
  {
    match s.jobs[i]
    case Fault(_) => FaultStep(s, i);
    case Grant(_, _) => GrantStep(s, i);
    case Clear(_, _) => ClearStep(s, i);
    case Protect(_) => ProtectStep(s, i);
    case Create(_) => AppendStep(s, i);
    case Destroy(_) => DestroyStep(s, i);
  }

  lemma WsStepInv(s: State, i: nat, r: Request)
    requires WsInv(s) && i < |s.jobs|
    ensures WsInv(WsStep(s, i, r))
  {
    var pc, job := s.lock.q.threads[i], s.jobs[i];
    if pc.Idle? && !job.Create? {
      AcceptInv(s, i, r);
    } else if Holds(pc) && !job.Finished? {
      SectionInv(s, i);
    } else {
      LockStep(s, i);
    }
  }

  /** No enclave yet; any pages of the process may be accessible. */
  function WsInit(n: nat, accessible: set<nat>): State {
    State(RwLock.Init(n), seq(n, _ => Finished), Mem([], accessible, []))
  }

  datatype Turn = Turn(thread: nat, request: Request)

  ghost function WsRun(n: nat, accessible: set<nat>, turns: seq<Turn>): (r: State)
    requires n <= 256 && forall k :: 0 <= k < |turns| ==> turns[k].thread < n
    ensures WsInv(r) && |r.jobs| == n
    decreases |turns|
  {
    if turns == [] then
      WsInitInv(n, accessible);
      WsInit(n, accessible)
    else
      var k := |turns| - 1;
      var s := WsRun(n, accessible, turns[..k]);
      WsStepInv(s, turns[k].thread, turns[k].request);
      WsStepSize(s, turns[k].thread, turns[k].request);
      WsStep(s, turns[k].thread, turns[k].request)
  }

  lemma WsInitInv(n: nat, accessible: set<nat>)
    requires n <= 256
    ensures WsInv(WsInit(n, accessible)) && |WsInit(n, accessible).jobs| == n
  {
    RwLock.InitInv(n);
    var s := WsInit(n, accessible);
    forall i | 0 <= i < n ensures ThreadOk(s, i) {}
  }

  lemma WsStepSize(s: State, i: nat, r: Request)
    requires Wf(s) && i < |s.jobs|
    ensures |WsStep(s, i, r).jobs| == |s.jobs|
  {
  }

  // ----- what the tracker promises

  /** Nobody is in the middle of a section. */
  predicate Quiet(s: State)
    requires Wf(s)
  {
    forall i :: 0 <= i < |s.jobs| ==> Holds(s.lock.q.threads[i]) ==> s.jobs[i].Finished?
  }

  /** Over every interleaving: when nobody is mid-section, a live enclave's page is accessible if and
      only if its status byte is set, and a status byte is set if and only if the history has a fault
      that counts for that page with no reset after it. */
  lemma Agreement(n: nat, accessible: set<nat>, turns: seq<Turn>, e: nat, p: nat)
    requires n <= 256 && forall k :: 0 <= k < |turns| ==> turns[k].thread < n
    requires Quiet(WsRun(n, accessible, turns))
    requires var m := WsRun(n, accessible, turns).m; e < |m.encls| && p < |m.encls[e].status|
    ensures var m := WsRun(n, accessible, turns).m;
            && (m.encls[e].status[p] <==> exists i: nat :: FaultFor(m.log, e, p, i))
            && (m.encls[e].alive ==> (PageNo(m.encls[e], p) in m.accessible <==> m.encls[e].status[p]))
  {
    var s := WsRun(n, accessible, turns);
    QuietPages(s, e, p);
    SinceMeans(s.m.log, e, p);
  }

  // ----- the history leaves nothing out

  /** An idle thread took a request that this entry will stand for; enclaves that are not Fresh are not
      created in the model. */
  ghost function Takes(s: State, turn: Turn, x: Entry): nat
    requires Wf(s) && turn.thread < |s.jobs|
  {
    var pc, job := s.lock.q.threads[turn.thread], s.jobs[turn.thread];
    if pc.Idle? && !job.Create? && Starts(s, turn.request, x) then 1 else 0
  }

  ghost predicate Starts(s: State, r: Request, x: Entry) {
    match r
    case FaultAt(addr) => x == Faulted(addr)
    case ResetAll => x == Reset
    case CreateAt(eid, start, size) => x == Added(Created(eid, start, size)) && Fresh(s, Created(eid, start, size))
    case DestroyOf(eid) => x == Removed(eid)
  }

  /** How often such a request was taken in a run. */
  ghost function Asked(n: nat, accessible: set<nat>, turns: seq<Turn>, x: Entry): nat
    requires n <= 256 && forall k :: 0 <= k < |turns| ==> turns[k].thread < n
    decreases |turns|
  {
    if turns == [] then 0
    else
      var k := |turns| - 1;
      Asked(n, accessible, turns[..k], x) + Takes(WsRun(n, accessible, turns[..k]), turns[k], x)
  }

  /** The thread still waits for the lock with it, or is at it. */
  predicate AtWork(job: Job, x: Entry) {
    match x
    case Faulted(addr) => job == Fault(addr)
    case Reset => job.Clear? || job.Protect?
    case Added(encl) => job == Create(encl)
    case Removed(eid) => job == Destroy(eid)
  }

  function Working(jobs: seq<Job>, x: Entry): nat {
    if jobs == [] then 0 else Working(jobs[..|jobs| - 1], x) + if AtWork(jobs[|jobs| - 1], x) then 1 else 0
  }

  /** Entries in the history, and requests that are not there yet. */
  function Met(s: State, x: Entry): nat { multiset(s.m.log)[x] + Working(s.jobs, x) }

  lemma {:induction false} WorkingNext(jobs: seq<Job>, i: nat, job: Job, x: Entry)
    requires i < |jobs|
    ensures Working(jobs[i := job], x) ==
            Working(jobs, x) - (if AtWork(jobs[i], x) then 1 else 0) + if AtWork(job, x) then 1 else 0
  {
    var n := |jobs| - 1;
    if i == n {
      assert jobs[i := job][..n] == jobs[..n];
    } else {
      assert jobs[i := job][..n] == jobs[..n][i := job];
      WorkingNext(jobs[..n], i, job, x);
    }
  }

  lemma {:induction false} NoneWorking(n: nat, x: Entry)
    ensures Working(seq(n, _ => Finished), x) == 0
  {
    if n > 0 {
      assert seq(n, _ => Finished)[..n - 1] == seq(n - 1, _ => Finished);
      NoneWorking(n - 1, x);
    }
  }

  function NotedAs(job: Job, next: Job, x: Entry): nat { multiset(Noted(job, next))[x] }

  function One(b: bool): nat { if b then 1 else 0 }

  /** A step inside a section goes on with its work or notes that it is done. */
  lemma WorkNoted(m: Mem, job: Job, x: Entry)
    requires job.Protect? ==> job.k < |m.encls|
    ensures NotedAs(job, SectionStep(m, job).1, x) + One(AtWork(SectionStep(m, job).1, x)) == One(AtWork(job, x))
  {
    var next := SectionStep(m, job).1;
    match job
    case Finished => NotedNone(job, next, x);
    case Fault(addr) => NotedOne(job, next, Faulted(addr), x);
    case Grant(_, _) => NotedNone(job, next, x);
    case Clear(_, _) => if next.Finished? { NotedOne(job, next, Reset, x); } else { NotedNone(job, next, x); }
    case Protect(_) => NotedNone(job, next, x);
    case Create(encl) => NotedOne(job, next, Added(encl), x);
    case Destroy(eid) => NotedOne(job, next, Removed(eid), x);
  }

  lemma NotedNone(job: Job, next: Job, x: Entry)
    requires Noted(job, next) == []
    ensures NotedAs(job, next, x) == 0
  {
  }

  lemma NotedOne(job: Job, next: Job, a: Entry, x: Entry)
    requires Noted(job, next) == [a]
    ensures NotedAs(job, next, x) == One(a == x)
  {
  }

  lemma MetSection(s: State, i: nat, x: Entry)
    requires i < |s.jobs| && (s.jobs[i].Protect? ==> s.jobs[i].k < |s.m.encls|)
    ensures Met(InSection(s, i), x) == Met(s, x)
  {
    var next := SectionStep(s.m, s.jobs[i]).1;
    WorkNoted(s.m, s.jobs[i], x);
    SectionShape(s, i);
    WorkingNext(s.jobs, i, next, x);
  }

  lemma SectionShape(s: State, i: nat)
    requires i < |s.jobs|
    ensures var next := SectionStep(s.m, s.jobs[i]).1;
            && InSection(s, i).m.log == s.m.log + Noted(s.jobs[i], next)
            && InSection(s, i).jobs == s.jobs[i := next]
  {
  }

  lemma MetAccept(s: State, i: nat, r: Request, x: Entry)
    requires Wf(s) && i < |s.jobs| && s.jobs[i].Finished?
    ensures Met(Accept(s, i, r), x) == Met(s, x) + if Starts(s, r, x) then 1 else 0
  {
    WorkingNext(s.jobs, i, Accept(s, i, r).jobs[i], x);
  }

  lemma IdleJob(s: State, i: nat)
    requires WsInv(s) && i < |s.jobs| && s.lock.q.threads[i].Idle? && !s.jobs[i].Create?
    ensures s.jobs[i].Finished?
  {
    assert ThreadOk(s, i);
  }

  lemma MetStep(s: State, turn: Turn, x: Entry)
    requires WsInv(s) && turn.thread < |s.jobs|
    ensures Met(WsStep(s, turn.thread, turn.request), x) == Met(s, x) + Takes(s, turn, x)
  {
    var i := turn.thread;
    var pc, job := s.lock.q.threads[i], s.jobs[i];
    if pc.Idle? && !job.Create? {
      IdleJob(s, i);
      MetAccept(s, i, turn.request, x);
    } else if Holds(pc) && !job.Finished? {
      assert ThreadOk(s, i);
      MetSection(s, i, x);
    }
  }

  /** Over every interleaving the history has each fault, reset, registration and destruction as often as
      threads took it on, but for those that are still at it or wait for the lock. */
  lemma {:induction false} EverythingNoted(n: nat, accessible: set<nat>, turns: seq<Turn>, x: Entry)
    requires n <= 256 && forall k :: 0 <= k < |turns| ==> turns[k].thread < n
    ensures Met(WsRun(n, accessible, turns), x) == Asked(n, accessible, turns, x)
    decreases |turns|
  {
    if turns == [] {
      NoneWorking(n, x);
    } else {
      var k := |turns| - 1;
      EverythingNoted(n, accessible, turns[..k], x);
      MetStep(WsRun(n, accessible, turns[..k]), turns[k], x);
    }
  }

  lemma QuietPages(s: State, e: nat, p: nat)
    requires WsInv(s) && Quiet(s) && e < |s.m.encls| && p < |s.m.encls[e].status|
    ensures PageOk(s.jobs, s.m, e, p) && !Granting(s.jobs, e, p)
  {
    forall i | 0 <= i < |s.jobs| ensures !Sweeping(s.lock.q.threads[i], s.jobs[i]) && !s.jobs[i].Grant? {
      assert ThreadOk(s, i);
    }
    assert PageOk(s.jobs, s.m, e, p);
  }

  /** For a fault that counts for an enclave the handler marks the page of that address and no other, of
      that enclave and no other; it changes no protection then, and its next step, unless the page was
      marked already, opens that page and nothing else. Any other fault changes nothing. */
  lemma OwnPage(m: Mem, addr: nat)
    requires MemOk(m)
    ensures var (m', job) := TestAndSet(m, addr);
            && (forall e: nat :: CountsFor(m.encls, e, addr) ==> Serves(m, m', job, e, PageIn(m.encls[e], addr), addr))
            && ((forall e: nat :: !CountsFor(m.encls, e, addr)) ==> m' == m && job.Finished?)
  {
    var (m', job) := TestAndSet(m, addr);
    forall e: nat | CountsFor(m.encls, e, addr)
      ensures Serves(m, m', job, e, PageIn(m.encls[e], addr), addr)
    {
      HandlerServes(m, addr, e);
    }
    var f := Lookup(m.encls, addr, 0);
    FindsExact(m.encls, addr, f);
  }

  lemma HandlerServes(m: Mem, addr: nat, e: nat)
    requires MemOk(m) && CountsFor(m.encls, e, addr)
    ensures var (m', job) := TestAndSet(m, addr); Serves(m, m', job, e, PageIn(m.encls[e], addr), addr)
  {
    FindsExact(m.encls, addr, e);
    FindsCounts(m.encls, addr, e);
    assert EnclOk(m.encls[e]);
    OffsetInside(m.encls[e], addr);
  }

  predicate Serves(m: Mem, m': Mem, job: Job, e: nat, p: nat, addr: nat)
    requires e < |m.encls|
  {
    && Hit(m.encls[e], addr) && PageNo(m.encls[e], p) == addr / PAGE
    && |m'.encls| == |m.encls| && m'.log == m.log && m'.accessible == m.accessible
    && (forall f :: 0 <= f < |m.encls| && f != e ==> m'.encls[f] == m.encls[f])
    && m'.encls[e] == m.encls[e].(status := m'.encls[e].status)
    && SetPages(m'.encls[e].status) == SetPages(m.encls[e].status) + {p}
    && (if p in SetPages(m.encls[e].status) then job.Finished?
        else SectionStep(m', job) == (m'.(accessible := m.accessible + {addr / PAGE}), Finished))
  }

  /** A recomputed page counter is the number of distinct pages that a fault of the history counts for,
      since the enclave was registered or last reset, whatever handlers and resets ran in between. */
  lemma CounterMeans(n: nat, accessible: set<nat>, turns: seq<Turn>, e: nat)
    requires n <= 256 && forall k :: 0 <= k < |turns| ==> turns[k].thread < n
    requires Quiet(WsRun(n, accessible, turns))
    requires e < |WsRun(n, accessible, turns).m.encls|
    ensures var m := WsRun(n, accessible, turns).m; CountSet(m.encls[e].status) == |Since(m.log, e)|
  {
    var s := WsRun(n, accessible, turns);
    SincePages(s, e);
    CountIsCard(s.m.encls[e].status);
  }

  lemma SincePages(s: State, e: nat)
    requires WsInv(s) && Quiet(s) && e < |s.m.encls|
    ensures SetPages(s.m.encls[e].status) == Since(s.m.log, e)
  {
    var status := s.m.encls[e].status;
    forall p: nat | p < |status| ensures status[p] <==> p in Since(s.m.log, e) { QuietPages(s, e, p); }
  }
}
