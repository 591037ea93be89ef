/** The working-set tracker (workingset/src/main.cpp) as a step system on top of the ticket lock of
    common/rwlock.cpp: any number of fault handlers, resets, enclave creations and destructions, run by
    at most 256 threads and interleaved at every shared access.

    Page protection belongs to the memory, not to an enclave: `accessible` is the set of accessible page
    numbers. The log is history: each step that is part of a section adds what it was for, whatever the
    section then does. */
module WorkingSet {
  import opened Enclaves
  import opened FaultHistory
  import opened RwLock

  datatype Mem = Mem(encls: seq<Encl>, accessible: set<nat>, log: seq<Entry>)

  /** What a thread does inside (or is waiting to do inside) its critical section. */
  datatype Job =
    | Finished
    | Fault(addr: nat)               // handler: test-and-set to come
    | Grant(e: nat, p: nat)          // the byte was clear: mprotect to come
    | Clear(k: nat, q: nat)          // reset: page q of enclave k is to be cleared next
    | Protect(k: nat)                // reset: enclave k is cleared, mprotect to come
    | Create(encl: Encl)             // protected, to be appended
    | Destroy(eid: nat)

  datatype State = State(lock: Sys, jobs: seq<Job>, m: Mem)

  /** What an idle thread is asked to do. */
  datatype Request = FaultAt(addr: nat) | ResetAll | CreateAt(eid: nat, start: nat, size: nat) | DestroyOf(eid: nat)

  // ----- steps

  function WithStatus(m: Mem, e: nat, status: seq<bool>): Mem
    requires e < |m.encls|
  {
    m.(encls := m.encls[e := m.encls[e].(status := status)])
  }

  function Revoke(accessible: set<nat>, e: Encl): set<nat> { set x | x in accessible && !Has(e, x) }

  /** The handler's search and test-and-set. A fault for which the index leaves the status array is
      not modelled. */
  function TestAndSet(m: Mem, addr: nat): (Mem, Job) {
    var e := Lookup(m.encls, addr, 0);
    if e == |m.encls| || m.encls[e].start % PAGE != 0 then (m, Finished)
    else
      var p := Offset(m.encls[e], addr);
      if p >= |m.encls[e].status| then (m, Finished)
      else
        (WithStatus(m, e, m.encls[e].status[p := true]),
         if m.encls[e].status[p] then Finished else Grant(e, p))
  }

  function ClearNext(m: Mem, k: nat, q: nat): (Mem, Job) {
    if k >= |m.encls| then (m, Finished)
    else if q >= |m.encls[k].status| then (m, Protect(k))
    else (WithStatus(m, k, m.encls[k].status[q := false]), Clear(k, q + 1))
  }

  /** The first live enclave with this id, from index k. */
  function Victim(es: seq<Encl>, eid: nat, k: nat): (r: nat)
    requires k <= |es|
    ensures k <= r <= |es|
    decreases |es| - k
  {
    if k == |es| || (es[k].eid == eid && es[k].alive) then k else Victim(es, eid, k + 1)
  }

  function Kill(m: Mem, eid: nat): Mem {
    var k := Victim(m.encls, eid, 0);
    if k == |m.encls| then m else m.(encls := m.encls[k := m.encls[k].(alive := false)])
  }

  /** One step of the work inside a critical section. */
  function SectionStep(m: Mem, job: Job): (Mem, Job) {
    match job
    case Finished => (m, Finished)
    case Fault(addr) => TestAndSet(m, addr)
    case Grant(e, p) =>
      if e < |m.encls| then (m.(accessible := m.accessible + {PageNo(m.encls[e], p)}), Finished) else (m, Finished)
    case Clear(k, q) => ClearNext(m, k, q)
    case Protect(k) =>
      if k < |m.encls| then (m.(accessible := Revoke(m.accessible, m.encls[k])), Clear(k + 1, 0)) else (m, Finished)
    case Create(encl) => (m.(encls := m.encls + [encl]), Finished)
    case Destroy(eid) => (Kill(m, eid), Finished)
  }

  /** A new enclave lies on whole pages that no live enclave and no enclave being created has. */
  ghost predicate Fresh(s: State, e: Encl) {
    && e.start % PAGE == 0
    && (forall k :: 0 <= k < |s.m.encls| && s.m.encls[k].alive ==> Apart(s.m.encls[k], e))
    && (forall i :: 0 <= i < |s.jobs| && s.jobs[i].Create? ==> Apart(s.jobs[i].encl, e))
  }

  predicate Wf(s: State) { |s.jobs| == |s.lock.q.threads| }

  function Enter(s: State, i: nat, start: Start, job: Job): State
    requires Wf(s) && i < |s.jobs|
  {
    s.(lock := Step(s.lock, i, start), jobs := s.jobs[i := job])
  }

  /** An idle thread takes a request. A creation first protects the pages, outside the lock. */
  ghost function Accept(s: State, i: nat, r: Request): State
    requires Wf(s) && i < |s.jobs|
  {
    match r
    case FaultAt(addr) => Enter(s, i, ReadLock, Fault(addr))
    case ResetAll => Enter(s, i, WriteLock, Clear(0, 0))
    case DestroyOf(eid) => Enter(s, i, WriteLock, Destroy(eid))
    case CreateAt(eid, start, size) =>
      var e := Created(eid, start, size);
      if Fresh(s, e) then s.(m := s.m.(accessible := Revoke(s.m.accessible, e)), jobs := s.jobs[i := Create(e)]) else s
  }

  predicate Holds(pc: Pc) { pc.ReadHold? || pc.WriteHold? }

  /** What a step inside a section adds to the history: a fault when the handler looks at its address,
      whether or not it finds an enclave; a reset when it ends; a registration; a destruction. */
  function Noted(job: Job, after: Job): seq<Entry> {
    match job
    case Fault(addr) => [Faulted(addr)]
    case Clear(_, _) => if after.Finished? then [Reset] else []
    case Protect(_) => if after.Finished? then [Reset] else []
    case Create(encl) => [Added(encl)]
    case Destroy(eid) => [Removed(eid)]
    case _ => []
  }

  function InSection(s: State, i: nat): State
    requires i < |s.jobs|
  {
    var (m, job) := SectionStep(s.m, s.jobs[i]);
    s.(m := m.(log := s.m.log + Noted(s.jobs[i], job)), jobs := s.jobs[i := job])
  }

  ghost function WsStep(s: State, i: nat, r: Request): State
    requires Wf(s) && i < |s.jobs|
  {
    var pc, job := s.lock.q.threads[i], s.jobs[i];
    if pc.Idle? && !job.Create? then Accept(s, i, r)
    else if Holds(pc) && !job.Finished? then InSection(s, i)
    else s.(lock := Step(s.lock, i, WriteLock))
  }

  // ----- the invariant

  /** Which work goes with which place in the lock's protocol. */
  predicate JobPc(pc: Pc, job: Job) {
    match pc
    case Idle => job.Finished? || job.Create?
    case ReadWait(_, _) => job.Fault?
    case ReadLoad(_) => job.Fault?
    case ReadStore(_, _) => job.Fault?
    case ReadHold(_) => job.Fault? || job.Grant? || job.Finished?
    case WriteWait(_, _) => job == Clear(0, 0) || job.Create? || job.Destroy?
    case WriteHold(_) => job.Clear? || job.Protect? || job.Create? || job.Destroy? || job.Finished?
    case WriteStore(_, _) => job.Finished?
    case _ => false
  }

  ghost predicate Granting(jobs: seq<Job>, e: nat, p: nat) { exists i :: 0 <= i < |jobs| && jobs[i] == Grant(e, p) }

  /** A page's status says whether it faulted, and a live page is accessible if its status is set,
      but for a handler about to grant access. */
  ghost predicate PageOk(jobs: seq<Job>, m: Mem, e: nat, p: nat)
    requires e < |m.encls| && p < |m.encls[e].status|
  {
    var encl := m.encls[e];
    && (encl.status[p] <==> p in Since(m.log, e))
    && (encl.alive && PageNo(encl, p) in m.accessible ==> encl.status[p])
    && (encl.alive && encl.status[p] && PageNo(encl, p) !in m.accessible ==> Granting(jobs, e, p))
  }

  ghost predicate PagesOk(jobs: seq<Job>, m: Mem) {
    forall e: nat, p: nat :: e < |m.encls| && p < |m.encls[e].status| ==> PageOk(jobs, m, e, p)
  }

  predicate Blank(m: Mem, e: nat, p: nat)
    requires e < |m.encls| && p < |m.encls[e].status|
  {
    !m.encls[e].status[p] && PageNo(m.encls[e], p) !in m.accessible
  }

  /** How far a reset has come: enclaves before k are cleared and protected, and the first q pages
      of enclave k are cleared. */
  ghost predicate Swept(m: Mem, k: nat, q: nat) {
    && k <= |m.encls|
    && (forall e: nat, p: nat :: e < k && p < |m.encls[e].status| ==> Blank(m, e, p))
    && (k < |m.encls| ==> q <= |m.encls[k].status| && forall p :: 0 <= p < q ==> !m.encls[k].status[p])
  }

  ghost predicate JobOk(m: Mem, job: Job) {
    match job
    case Grant(e, p) => e < |m.encls| && m.encls[e].alive && p < |m.encls[e].status| && m.encls[e].status[p]
    case Create(encl) =>
      && EnclOk(encl) && encl.alive && (forall p :: 0 <= p < |encl.status| ==> !encl.status[p])
      && (forall page: nat :: Has(encl, page) ==> page !in m.accessible)
      && (forall k :: 0 <= k < |m.encls| && m.encls[k].alive ==> Apart(m.encls[k], encl))
    case _ => true
  }

  ghost predicate CreatesApart(jobs: seq<Job>) {
    forall i, j :: 0 <= i < |jobs| && 0 <= j < |jobs| && i != j && jobs[i].Create? && jobs[j].Create? ==>
      Apart(jobs[i].encl, jobs[j].encl)
  }

  predicate SameEncl(a: Encl, b: Encl) {
    a.eid == b.eid && a.start == b.start && a.size == b.size && a.alive == b.alive
  }

  /** The enclaves are those of the history, and only pages they have can have faulted. */
  ghost predicate HistOk(m: Mem) {
    && |TableOf(m.log)| == |m.encls|
    && (forall e :: 0 <= e < |m.encls| ==> SameEncl(TableOf(m.log)[e], m.encls[e]))
    && (forall e: nat, p: nat :: p in Since(m.log, e) ==> e < |m.encls| && p < |m.encls[e].status|)
  }

  ghost predicate MemOk(m: Mem) { TableOk(m.encls) && HistOk(m) }

  predicate Sweeping(pc: Pc, job: Job) { pc.WriteHold? && (job.Clear? || job.Protect?) }

  ghost predicate SweepOk(m: Mem, job: Job) {
    match job
    case Clear(k, q) => Swept(m, k, q)
    case Protect(k) => k < |m.encls| && Swept(m, k, |m.encls[k].status|)
    case _ => true
  }

  ghost predicate ThreadOk(s: State, i: nat)
    requires Wf(s) && i < |s.jobs|
  {
    var pc, job := s.lock.q.threads[i], s.jobs[i];
    JobPc(pc, job) && JobOk(s.m, job) && (Sweeping(pc, job) ==> SweepOk(s.m, job))
  }

  ghost predicate Busy(s: State)
    requires Wf(s)
  {
    exists i :: 0 <= i < |s.jobs| && Sweeping(s.lock.q.threads[i], s.jobs[i])
  }

  ghost predicate WsInv(s: State) {
    && Wf(s) && RwLock.Inv(s.lock) && MemOk(s.m) && CreatesApart(s.jobs)
    && (forall i :: 0 <= i < |s.jobs| ==> ThreadOk(s, i))
    && (Busy(s) || PagesOk(s.jobs, s.m))
  }
}
