/** The ticket read-write lock of common/rwlock.cpp as a step system over any number of threads.

    Every shared access of the C code is one step: the fetch-and-add, each poll of a spin loop,
    the load and the store of `read++`, the whole-word load and the 16-bit store of
    `write_unlock`, the byte loads and the compare-and-swap of the two trylocks. Decisions use
    only the byte values the C code holds. The `Tickets` part is history: it numbers tickets
    without wrap-around so that properties can be stated. */
module RwLock {
  import opened ByteType
  import opened LockWord

  /** Where a thread is. A thread has at most one acquisition outstanding. */
  datatype Pc =
    | Idle
    | WriteWait(val: Byte, ticket: nat)      // spinning on write
    | WriteHold(ticket: nat)                 // inside the write section
    | WriteStore(copy: Word, ticket: nat)    // write_unlock has loaded *l
    | ReadWait(val: Byte, ticket: nat)       // spinning on read
    | ReadLoad(ticket: nat)                  // poll succeeded, read++ not started
    | ReadStore(loaded: Byte, ticket: nat)   // read++ has loaded the byte
    | ReadHold(ticket: nat)                  // inside the read section
    | WTryUsers(me: Byte)                    // write_trylock has loaded users
    | WTryCas(me: Byte, read: Byte)          // ... and read
    | RTryUsers(me: Byte)                    // read_trylock has loaded users
    | RTryCas(me: Byte, write: Byte)         // ... and write

  /** Which operation an idle thread starts. */
  datatype Start = WriteLock | ReadLock | WriteTryLock | ReadTryLock

  /** owner[t] is the thread that took ticket t; tickets below `admitted` have been served. */
  datatype Tickets = Tickets(threads: seq<Pc>, owner: seq<nat>, admitted: nat, released: nat) {
    function Issued(): nat { |owner| }
  }

  datatype Sys = Sys(word: Word, q: Tickets)

  function Init(n: nat): Sys { Sys(ZERO, Tickets(seq(n, _ => Idle), [], 0, 0)) }

  function Goto(q: Tickets, i: nat, pc: Pc): Tickets
    requires i < |q.threads|
  {
    q.(threads := q.threads[i := pc])
  }

  function Issue(q: Tickets, i: nat, pc: Pc): Tickets
    requires i < |q.threads|
  {
    Goto(q, i, pc).(owner := q.owner + [i])
  }

  function Admit(q: Tickets, i: nat): Tickets
    requires i < |q.threads|
  {
    Goto(q, i, ReadHold(q.admitted)).(admitted := q.admitted + 1)
  }

  function Release(q: Tickets, i: nat): Tickets
    requires i < |q.threads|
  {
    Goto(q, i, Idle).(released := q.released + 1)
  }

  /** The compare and exchange operands of write_trylock (rwlock.cpp:41-44). */
  function WCmp(me: Byte, read: Byte): nat { TICKET * me + 0x100 * read + me }
  function WNew(me: Byte, read: Byte): nat { TICKET * Succ(me) + 0x100 * read + me }

  /** The compare and exchange operands of read_trylock (rwlock.cpp:69-71). */
  function RCmp(me: Byte, write: Byte): nat { TICKET * me + 0x100 * me + write }
  function RNew(me: Byte, write: Byte): nat { TICKET * Succ(me) + 0x100 * Succ(me) + write }

  function TryWrite(s: Sys, i: nat, me: Byte, read: Byte): Sys
    requires i < |s.q.threads|
  {
    var ok := s.word.U() == WCmp(me, read);
    Sys(CompareAndSwap(s.word, WCmp(me, read), WNew(me, read)),
        if ok then Issue(s.q, i, WriteHold(s.q.Issued())) else Goto(s.q, i, Idle))
  }

  /** A successful read_trylock takes a ticket and serves it in one step. */
  function TryRead(s: Sys, i: nat, me: Byte, write: Byte): Sys
    requires i < |s.q.threads|
  {
    var ok := s.word.U() == RCmp(me, write);
    Sys(CompareAndSwap(s.word, RCmp(me, write), RNew(me, write)),
        if ok then Admit(Issue(s.q, i, ReadLoad(s.q.Issued())), i) else Goto(s.q, i, Idle))
  }

  /** An idle thread starts an operation; `me >> 16` truncated to a byte is the old `users`. */
  function Begin(s: Sys, i: nat, start: Start): Sys
    requires i < |s.q.threads|
  {
    match start
    case WriteLock => Sys(FetchAddUsers(s.word), Issue(s.q, i, WriteWait(s.word.users, s.q.Issued())))
    case ReadLock => Sys(FetchAddUsers(s.word), Issue(s.q, i, ReadWait(s.word.users, s.q.Issued())))
    case WriteTryLock => s.(q := Goto(s.q, i, WTryUsers(s.word.users)))
    case ReadTryLock => s.(q := Goto(s.q, i, RTryUsers(s.word.users)))
  }

  /** One step of thread i; `start` matters only when the thread is idle. */
  function Step(s: Sys, i: nat, start: Start): Sys
    requires i < |s.q.threads|
  {
    match s.q.threads[i]
    case Idle => Begin(s, i, start)
    case WriteWait(val, ticket) => if val == s.word.write then s.(q := Goto(s.q, i, WriteHold(ticket))) else s
    case WriteHold(ticket) => s.(q := Goto(s.q, i, WriteStore(s.word, ticket)))
    case WriteStore(copy, _) =>
      Sys(StoreShort(s.word, copy.(write := Succ(copy.write), read := Succ(copy.read))), Release(Admit(s.q, i), i))
    case ReadWait(val, ticket) => if val == s.word.read then s.(q := Goto(s.q, i, ReadLoad(ticket))) else s
    case ReadLoad(ticket) => s.(q := Goto(s.q, i, ReadStore(s.word.read, ticket)))
    case ReadStore(loaded, _) => Sys(s.word.(read := Succ(loaded)), Admit(s.q, i))
    case ReadHold(_) => Sys(s.word.(write := Succ(s.word.write)), Release(s.q, i))
    case WTryUsers(me) => s.(q := Goto(s.q, i, WTryCas(me, s.word.read)))
    case WTryCas(me, read) => TryWrite(s, i, me, read)
    case RTryUsers(me) => s.(q := Goto(s.q, i, RTryCas(me, s.word.write)))
    case RTryCas(me, write) => TryRead(s, i, me, write)
  }

  datatype Event = Event(thread: nat, start: Start)
  type Schedule = seq<Event>

  ghost predicate Legal(n: nat, sched: Schedule) {
    forall k :: 0 <= k < |sched| ==> sched[k].thread < n
  }

  /** The state a schedule leads to from `s`. */
  ghost function RunFrom(s: Sys, sched: Schedule): (r: Sys)
    requires Legal(|s.q.threads|, sched)
    ensures |r.q.threads| == |s.q.threads|
    decreases |sched|
  {
    if sched == [] then s
    else
      var k := |sched| - 1;
      Step(RunFrom(s, sched[..k]), sched[k].thread, sched[k].start)
  }

  // ----- counting threads

  function Count(ts: seq<Pc>, f: Pc -> bool): nat {
    if ts == [] then 0 else Count(ts[..|ts| - 1], f) + if f(ts[|ts| - 1]) then 1 else 0
  }

  lemma {:induction false} CountUpdate(ts: seq<Pc>, i: nat, pc: Pc, f: Pc -> bool)
    requires i < |ts|
    ensures Count(ts[i := pc], f) == Count(ts, f) - (if f(ts[i]) then 1 else 0) + (if f(pc) then 1 else 0)
  {
    var k := |ts| - 1;
    if i == k {
      assert ts[i := pc][..k] == ts[..k];
    } else {
      assert ts[i := pc][..k] == ts[..k][i := pc];
      CountUpdate(ts[..k], i, pc, f);
    }
  }

  lemma {:induction false} CountBounds(ts: seq<Pc>, f: Pc -> bool)
    ensures Count(ts, f) <= |ts|
    ensures forall i :: 0 <= i < |ts| && f(ts[i]) ==> Count(ts, f) >= 1
    ensures forall i :: 0 <= i < |ts| && !f(ts[i]) ==> Count(ts, f) < |ts|
  {
    if ts != [] {
      CountBounds(ts[..|ts| - 1], f);
    }
  }

  lemma {:induction false} CountNone(ts: seq<Pc>, f: Pc -> bool)
    requires forall i :: 0 <= i < |ts| ==> !f(ts[i])
    ensures Count(ts, f) == 0
  {
    if ts != [] {
      CountNone(ts[..|ts| - 1], f);
    }
  }

  // ----- the invariant

  /** Holds a ticket that `read` has not yet passed: a waiter, or the one owner being served. */
  predicate Pending(pc: Pc) {
    pc.WriteWait? || pc.WriteHold? || pc.WriteStore? || pc.ReadWait? || pc.ReadLoad? || pc.ReadStore?
  }

  predicate Reading(pc: Pc) { pc.ReadHold? }

  predicate Writing(pc: Pc) { pc.WriteHold? || pc.WriteStore? }

  predicate Waiting(pc: Pc) { pc.WriteWait? || pc.ReadWait? }

  /** Holds a ticket that has not been released. */
  predicate Outstanding(pc: Pc) { Pending(pc) || Reading(pc) }

  /** The three byte counters are the three histories modulo 256. */
  predicate BytesAgree(s: Sys) {
    && s.word.write == s.q.released % 256
    && s.word.read == s.q.admitted % 256
    && s.word.users == s.q.Issued() % 256
  }

  ghost predicate Counts(q: Tickets) {
    && q.released <= q.admitted <= q.Issued()
    && q.Issued() - q.released == Count(q.threads, Outstanding)
    && q.admitted - q.released == Count(q.threads, Reading)
  }

  /** The tickets in [admitted, issued) are exactly those that pending threads hold. */
  ghost predicate Contiguous(q: Tickets) {
    && (forall t :: q.admitted <= t < q.Issued() ==>
          q.owner[t] < |q.threads| && Pending(q.threads[q.owner[t]]) && q.threads[q.owner[t]].ticket == t)
    && (forall i :: 0 <= i < |q.threads| && Pending(q.threads[i]) ==>
          q.admitted <= q.threads[i].ticket < q.Issued() && q.owner[q.threads[i].ticket] == i)
  }

  /** What each program point knows of its locals. */
  predicate LocalOk(s: Sys, pc: Pc) {
    match pc
    case WriteWait(val, ticket) => val == ticket % 256
    case ReadWait(val, ticket) => val == ticket % 256
    case WriteHold(ticket) => ticket == s.q.admitted == s.q.released
    case WriteStore(copy, ticket) =>
      ticket == s.q.admitted == s.q.released && copy.write == s.word.write && copy.read == s.word.read
    case ReadLoad(ticket) => ticket == s.q.admitted
    case ReadHold(ticket) => ticket < s.q.admitted
    case ReadStore(loaded, ticket) => ticket == s.q.admitted && loaded == s.word.read
    case _ => true
  }

  ghost predicate Locals(s: Sys) {
    forall i :: 0 <= i < |s.q.threads| ==> LocalOk(s, s.q.threads[i])
  }

  ghost predicate Inv(s: Sys) {
    && |s.q.threads| <= 256
    && BytesAgree(s) && Counts(s.q) && Contiguous(s.q) && Locals(s)
  }

  lemma InitInv(n: nat)
    requires n <= 256
    ensures Inv(Init(n))
  {
    CountNone(Init(n).q.threads, Outstanding);
    CountNone(Init(n).q.threads, Reading);
  }

  // ----- byte comparisons decide the unbounded ones

  /** Two numbers less than 256 apart are equal when their low bytes are. */
  lemma ByteEq(a: nat, b: nat)
    requires a <= b < a + 256 && a % 256 == b % 256
    ensures a == b
  {
  }

  lemma Window(s: Sys, i: nat)
    requires Inv(s) && i < |s.q.threads|
    ensures s.q.Issued() - s.q.released <= 256
    ensures !Outstanding(s.q.threads[i]) ==> s.q.Issued() - s.q.released < 256
    ensures Reading(s.q.threads[i]) ==> s.q.released < s.q.admitted
  {
    CountBounds(s.q.threads, Outstanding);
    CountBounds(s.q.threads, Reading);
  }

  /** The spin tests of write_lock and read_lock, made on bytes, answer exactly the questions
      they stand for on unbounded ticket numbers. */
  lemma PollsExact(s: Sys, i: nat)
    requires Inv(s) && i < |s.q.threads|
    ensures var pc := s.q.threads[i];
            && (pc.WriteWait? ==> (pc.val == s.word.write <==> pc.ticket == s.q.released))
            && (pc.ReadWait? ==> (pc.val == s.word.read <==> pc.ticket == s.q.admitted))
  {
    Window(s, i);
    var pc := s.q.threads[i];
    assert LocalOk(s, pc);
    if pc.WriteWait? && pc.val == s.word.write { ByteEq(s.q.released, pc.ticket); }
    if pc.ReadWait? && pc.val == s.word.read { ByteEq(s.q.admitted, pc.ticket); }
  }

  /** write_trylock succeeds exactly when its two loads are still current, the lock is free and
      the unused byte is zero; it then changes `users` alone. */
  lemma WriteTryExact(s: Sys, i: nat)
    requires Inv(s) && i < |s.q.threads| && s.q.threads[i].WTryCas?
    ensures var pc := s.q.threads[i];
            s.word.U() == WCmp(pc.me, pc.read) <==>
            (s.word.users == pc.me && s.word.read == pc.read && s.q.released == s.q.Issued() && s.word.pad == 0)
    ensures var pc := s.q.threads[i];
            CompareAndSwap(s.word, WCmp(pc.me, pc.read), WNew(pc.me, pc.read)) ==
            if s.word.U() == WCmp(pc.me, pc.read) then s.word.(users := Succ(s.word.users)) else s.word
  {
    Window(s, i);
    var me, read := s.q.threads[i].me, s.q.threads[i].read;
    if s.word.U() == WCmp(me, read) {
      UInjective(s.word, Word(me, read, me, 0));
      ByteEq(s.q.released, s.q.Issued());
      UInjective(FromU(WNew(me, read)), Word(me, read, Succ(me), 0));
    }
  }

  /** read_trylock succeeds exactly when its two loads are still current, nobody is waiting or
      writing and the unused byte is zero; it then changes `users` and `read` alone. */
  lemma ReadTryExact(s: Sys, i: nat)
    requires Inv(s) && i < |s.q.threads| && s.q.threads[i].RTryCas?
    ensures var pc := s.q.threads[i];
            s.word.U() == RCmp(pc.me, pc.write) <==>
            (s.word.users == pc.me && s.word.write == pc.write && s.q.admitted == s.q.Issued() && s.word.pad == 0)
    ensures var pc := s.q.threads[i];
            CompareAndSwap(s.word, RCmp(pc.me, pc.write), RNew(pc.me, pc.write)) ==
            if s.word.U() == RCmp(pc.me, pc.write)
            then s.word.(users := Succ(s.word.users), read := Succ(s.word.read)) else s.word
  {
    Window(s, i);
    var me, write := s.q.threads[i].me, s.q.threads[i].write;
    if s.word.U() == RCmp(me, write) {
      UInjective(s.word, Word(write, me, me, 0));
      ByteEq(s.q.admitted, s.q.Issued());
      UInjective(FromU(RNew(me, write)), Word(write, Succ(me), Succ(me), 0));
    }
  }

  // ----- every step keeps the invariant: first the histories, then the word and the locals

  ghost predicate Queue(q: Tickets) { Counts(q) && Contiguous(q) }

  lemma GotoQueue(q: Tickets, i: nat, pc: Pc)
    requires Queue(q) && i < |q.threads|
    requires Pending(pc) == Pending(q.threads[i]) && Reading(pc) == Reading(q.threads[i])
    requires Pending(pc) ==> pc.ticket == q.threads[i].ticket
    ensures Queue(Goto(q, i, pc))
  {
    CountUpdate(q.threads, i, pc, Outstanding);
    CountUpdate(q.threads, i, pc, Reading);
  }

  lemma IssueQueue(q: Tickets, i: nat, pc: Pc)
    requires Queue(q) && i < |q.threads| && !Outstanding(q.threads[i])
    requires Pending(pc) && pc.ticket == q.Issued()
    ensures Queue(Issue(q, i, pc))
  {
    CountUpdate(q.threads, i, pc, Outstanding);
    CountUpdate(q.threads, i, pc, Reading);
  }

  lemma AdmitQueue(q: Tickets, i: nat)
    requires Queue(q) && i < |q.threads| && Pending(q.threads[i]) && q.threads[i].ticket == q.admitted
    ensures Queue(Admit(q, i))
  {
    CountUpdate(q.threads, i, ReadHold(q.admitted), Outstanding);
    CountUpdate(q.threads, i, ReadHold(q.admitted), Reading);
  }

  lemma ReleaseQueue(q: Tickets, i: nat)
    requires Queue(q) && i < |q.threads| && Reading(q.threads[i])
    ensures Queue(Release(q, i))
  {
    CountBounds(q.threads, Reading);
    CountUpdate(q.threads, i, Idle, Outstanding);
    CountUpdate(q.threads, i, Idle, Reading);
  }

  lemma TryWriteQueue(s: Sys, i: nat, me: Byte, read: Byte)
    requires Queue(s.q) && i < |s.q.threads| && !Outstanding(s.q.threads[i])
    ensures Queue(TryWrite(s, i, me, read).q)
  {
    IssueQueue(s.q, i, WriteHold(s.q.Issued()));
    GotoQueue(s.q, i, Idle);
  }

  lemma TryReadQueue(s: Sys, i: nat, me: Byte, write: Byte)
    requires Queue(s.q) && i < |s.q.threads| && !Outstanding(s.q.threads[i])
    requires s.word.U() == RCmp(me, write) ==> s.q.admitted == s.q.Issued()
    ensures Queue(TryRead(s, i, me, write).q)
  {
    var q := Issue(s.q, i, ReadLoad(s.q.Issued()));
    IssueQueue(s.q, i, ReadLoad(s.q.Issued()));
    if s.q.admitted == s.q.Issued() { AdmitQueue(q, i); }
    GotoQueue(s.q, i, Idle);
  }

  lemma StepQueue(s: Sys, i: nat, start: Start)
    requires Inv(s) && i < |s.q.threads|
    ensures Queue(Step(s, i, start).q)
  {
    var q := s.q;
    assert LocalOk(s, q.threads[i]);
    match q.threads[i]
    case Idle =>
      var pc := Step(s, i, start).q.threads[i];
      if start.WriteLock? || start.ReadLock? { IssueQueue(q, i, pc); } else { GotoQueue(q, i, pc); }
    case WriteStore(_, _) =>
      AdmitQueue(q, i);
      ReleaseQueue(Admit(q, i), i);
    case ReadStore(_, _) => AdmitQueue(q, i);
    case ReadHold(_) => ReleaseQueue(q, i);
    case WTryCas(me, read) => TryWriteQueue(s, i, me, read);
    case RTryCas(me, write) =>
      ReadTryExact(s, i);
      TryReadQueue(s, i, me, write);
    case WriteWait(_, ticket) => GotoQueue(q, i, WriteHold(ticket));
    case ReadWait(_, ticket) => GotoQueue(q, i, ReadLoad(ticket));
    case WriteHold(ticket) => GotoQueue(q, i, WriteStore(s.word, ticket));
    case ReadLoad(ticket) => GotoQueue(q, i, ReadStore(s.word.read, ticket));
    case WTryUsers(me) => GotoQueue(q, i, WTryCas(me, s.word.read));
    case RTryUsers(me) => GotoQueue(q, i, RTryCas(me, s.word.write));
  }

  lemma SuccMod(n: nat)
    ensures (n + 1) % 256 == Succ(n % 256)
  {
  }

  lemma TryWriteBytes(s: Sys, i: nat, me: Byte, read: Byte)
    requires i < |s.q.threads| && BytesAgree(s)
    requires CompareAndSwap(s.word, WCmp(me, read), WNew(me, read)) ==
             if s.word.U() == WCmp(me, read) then s.word.(users := Succ(s.word.users)) else s.word
    ensures BytesAgree(TryWrite(s, i, me, read))
  {
    SuccMod(s.q.Issued());
  }

  lemma TryReadBytes(s: Sys, i: nat, me: Byte, write: Byte)
    requires i < |s.q.threads| && BytesAgree(s)
    requires CompareAndSwap(s.word, RCmp(me, write), RNew(me, write)) ==
             if s.word.U() == RCmp(me, write)
             then s.word.(users := Succ(s.word.users), read := Succ(s.word.read)) else s.word
    ensures BytesAgree(TryRead(s, i, me, write))
  {
    SuccMod(s.q.Issued());
    SuccMod(s.q.admitted);
  }

  lemma WriteTryBytes(s: Sys, i: nat, start: Start)
    requires Inv(s) && i < |s.q.threads| && s.q.threads[i].WTryCas?
    ensures BytesAgree(Step(s, i, start))
  {
    WriteTryExact(s, i);
    TryWriteBytes(s, i, s.q.threads[i].me, s.q.threads[i].read);
  }

  lemma ReadTryBytes(s: Sys, i: nat, start: Start)
    requires Inv(s) && i < |s.q.threads| && s.q.threads[i].RTryCas?
    ensures BytesAgree(Step(s, i, start))
  {
    ReadTryExact(s, i);
    TryReadBytes(s, i, s.q.threads[i].me, s.q.threads[i].write);
  }

  lemma StepBytes(s: Sys, i: nat, start: Start)
    requires Inv(s) && i < |s.q.threads|
    ensures BytesAgree(Step(s, i, start))
  {
    if s.q.threads[i].WTryCas? {
      WriteTryBytes(s, i, start);
    } else if s.q.threads[i].RTryCas? {
      ReadTryBytes(s, i, start);
    } else {
      assert LocalOk(s, s.q.threads[i]);
      SuccMod(s.q.Issued());
      SuccMod(s.q.admitted);
      SuccMod(s.q.released);
      FetchAddBytes(s.word);
    }
  }

  /** What the thread that moved knows. */
  lemma StepLocalSelf(s: Sys, i: nat, start: Start)
    requires Inv(s) && i < |s.q.threads|
    ensures LocalOk(Step(s, i, start), Step(s, i, start).q.threads[i])
  {
    assert LocalOk(s, s.q.threads[i]);
    PollsExact(s, i);
    if s.q.threads[i].WTryCas? { WriteTryExact(s, i); }
  }

  /** What another thread knows is not disturbed: the plain stores clobber nothing. */
  lemma StepLocalOther(s: Sys, i: nat, start: Start, j: nat)
    requires Inv(s) && i < |s.q.threads| && j < |s.q.threads| && i != j
    ensures LocalOk(Step(s, i, start), s.q.threads[j])
  {
    assert LocalOk(s, s.q.threads[i]) && LocalOk(s, s.q.threads[j]);
    Window(s, i);
    FetchAddBytes(s.word);
    if s.q.threads[i].WTryCas? { WriteTryExact(s, i); }
    if s.q.threads[i].RTryCas? { ReadTryExact(s, i); }
  }

  /** A step moves one thread only. */
  lemma StepFrame(s: Sys, i: nat, start: Start, j: nat)
    requires i < |s.q.threads| && j < |s.q.threads|
    ensures |Step(s, i, start).q.threads| == |s.q.threads|
    ensures j != i ==> Step(s, i, start).q.threads[j] == s.q.threads[j]
  {
  }

  lemma StepLocal(s: Sys, i: nat, start: Start, j: nat)
    requires Inv(s) && i < |s.q.threads| && j < |s.q.threads|
    ensures |Step(s, i, start).q.threads| == |s.q.threads|
    ensures LocalOk(Step(s, i, start), Step(s, i, start).q.threads[j])
  {
    StepFrame(s, i, start, j);
    if i == j { StepLocalSelf(s, i, start); } else { StepLocalOther(s, i, start, j); }
  }

  lemma StepLocals(s: Sys, i: nat, start: Start, s': Sys)
    requires Inv(s) && i < |s.q.threads| && s' == Step(s, i, start)
    ensures |s'.q.threads| == |s.q.threads| && Locals(s')
  {
    StepFrame(s, i, start, i);
    forall j | 0 <= j < |s.q.threads|
      ensures LocalOk(s', s'.q.threads[j])
    {
      StepLocal(s, i, start, j);
    }
  }

  lemma StepInv(s: Sys, i: nat, start: Start)
    requires Inv(s) && i < |s.q.threads|
    ensures Inv(Step(s, i, start))
  {
    StepQueue(s, i, start);
    StepBytes(s, i, start);
    StepLocals(s, i, start, Step(s, i, start));
  }

  lemma {:induction false} RunInv(s: Sys, sched: Schedule)
    requires Inv(s) && Legal(|s.q.threads|, sched)
    ensures Inv(RunFrom(s, sched))
    decreases |sched|
  {
    if sched != [] {
      var k := |sched| - 1;
      RunInv(s, sched[..k]);
      StepInv(RunFrom(s, sched[..k]), sched[k].thread, sched[k].start);
    }
  }
}
