/** The shared accesses of common/rwlock.cpp, each an atomic method on the lock word. The real
    state is the word and the locals passed in and out; `q` records, for the proof only, which
    thread is where. Each method refines one step of the step system and keeps its invariant. */
module RwLockMemory {
  import opened ByteType
  import opened LockWord
  import opened RwLock

  class Lock {
    var word: Word
    ghost var q: Tickets

    ghost function View(): Sys
      reads this
    {
      Sys(word, q)
    }

    /** Thread i is at a known point of the C code. */
    ghost predicate At(i: nat, pc: Pc)
      reads this
    {
      Inv(View()) && i < |q.threads| && q.threads[i] == pc
    }

    constructor (ghost n: nat)
      requires n <= 256
      ensures View() == Init(n) && Inv(View())
    {
      word := ZERO;
      q := Init(n).q;
      new;
      InitInv(n);
    }

    /** write_lock and read_lock, up to the spin loop. */
    method TakeTicket(i: nat, start: Start) returns (val: Byte)
      requires At(i, Idle) && (start.WriteLock? || start.ReadLock?)
      modifies this
      ensures View() == Step(old(View()), i, start) && Inv(View())
      ensures At(i, if start.WriteLock? then WriteWait(val, old(q.Issued())) else ReadWait(val, old(q.Issued())))
    {
      StepInv(View(), i, start);
      ghost var s := Step(View(), i, start);
      var me := word.U();
      TicketByte(word);
      val := me / TICKET % 256;
      word := FetchAddUsers(word);
      q := s.q;
    }

    /** One poll of write_lock's loop: it lets the thread in exactly when its turn has come. */
    method PollWrite(i: nat, val: Byte, ghost ticket: nat) returns (enter: bool)
      requires At(i, WriteWait(val, ticket))
      modifies this
      ensures View() == Step(old(View()), i, WriteLock) && Inv(View())
      ensures enter <==> ticket == old(q.released)
      ensures At(i, if enter then WriteHold(ticket) else WriteWait(val, ticket))
    {
      StepInv(View(), i, WriteLock);
      PollsExact(View(), i);
      enter := val == word.write;
      q := Step(View(), i, WriteLock).q;
    }

    method UnlockLoad(i: nat, ghost ticket: nat) returns (t: Word)
      requires At(i, WriteHold(ticket))
      modifies this
      ensures View() == Step(old(View()), i, WriteLock) && Inv(View())
      ensures At(i, WriteStore(t, ticket))
    {
      StepInv(View(), i, WriteLock);
      t := word;
      q := Step(View(), i, WriteLock).q;
    }

    /** The 16-bit store of write_unlock: although the copy may be stale in its upper half, the
        ticket counter keeps every grab made since the load. */
    method UnlockStore(i: nat, copy: Word, ghost ticket: nat)
      requires At(i, WriteStore(copy, ticket))
      modifies this
      ensures View() == Step(old(View()), i, WriteLock) && At(i, Idle)
      ensures word == old(word).(write := Succ(old(word.write)), read := Succ(old(word.read)))
    {
      StepInv(View(), i, WriteLock);
      assert LocalOk(View(), q.threads[i]);
      ghost var s := Step(View(), i, WriteLock);
      var t := copy;
      t := t.(write := Succ(t.write));
      t := t.(read := Succ(t.read));
      word := StoreShort(word, t);
      q := s.q;
    }

    /** One poll of read_lock's loop. */
    method PollRead(i: nat, val: Byte, ghost ticket: nat) returns (enter: bool)
      requires At(i, ReadWait(val, ticket))
      modifies this
      ensures View() == Step(old(View()), i, ReadLock) && Inv(View())
      ensures enter <==> ticket == old(q.admitted)
      ensures At(i, if enter then ReadLoad(ticket) else ReadWait(val, ticket))
    {
      StepInv(View(), i, ReadLock);
      PollsExact(View(), i);
      enter := val == word.read;
      q := Step(View(), i, ReadLock).q;
    }

    method LoadRead(i: nat, ghost ticket: nat) returns (b: Byte)
      requires At(i, ReadLoad(ticket))
      modifies this
      ensures View() == Step(old(View()), i, ReadLock) && At(i, ReadStore(b, ticket))
    {
      StepInv(View(), i, ReadLock);
      b := word.read;
      q := Step(View(), i, ReadLock).q;
    }

    /** The plain store of read++ writes the successor of the current byte, not of a stale one. */
    method StoreRead(i: nat, b: Byte, ghost ticket: nat)
      requires At(i, ReadStore(b, ticket))
      modifies this
      ensures View() == Step(old(View()), i, ReadLock) && At(i, ReadHold(ticket))
      ensures word == old(word).(read := Succ(old(word.read)))
    {
      StepInv(View(), i, ReadLock);
      assert LocalOk(View(), q.threads[i]);
      ghost var s := Step(View(), i, ReadLock);
      word := word.(read := Succ(b));
      q := s.q;
    }

    method ReadUnlock(i: nat, ghost ticket: nat)
      requires At(i, ReadHold(ticket))
      modifies this
      ensures View() == Step(old(View()), i, ReadLock) && At(i, Idle)
    {
      StepInv(View(), i, ReadLock);
      ghost var s := Step(View(), i, ReadLock);
      word := word.(write := Succ(word.write));
      q := s.q;
    }

    method TryLoadUsers(i: nat, start: Start) returns (me: Byte)
      requires At(i, Idle) && (start.WriteTryLock? || start.ReadTryLock?)
      modifies this
      ensures View() == Step(old(View()), i, start)
      ensures At(i, if start.WriteTryLock? then WTryUsers(me) else RTryUsers(me))
    {
      StepInv(View(), i, start);
      me := word.users;
      q := Step(View(), i, start).q;
    }

    method TryLoadOther(i: nat, me: Byte, start: Start) returns (b: Byte)
      requires (start.WriteTryLock? && At(i, WTryUsers(me))) || (start.ReadTryLock? && At(i, RTryUsers(me)))
      modifies this
      ensures View() == Step(old(View()), i, start)
      ensures At(i, if start.WriteTryLock? then WTryCas(me, b) else RTryCas(me, b))
    {
      StepInv(View(), i, start);
      b := if start.WriteTryLock? then word.read else word.write;
      q := Step(View(), i, start).q;
    }

    /** The compare-and-swap of write_trylock: it fails without effect, and succeeds only on a
        free lock. */
    method TryWriteCas(i: nat, me: Byte, read: Byte) returns (ok: bool)
      requires At(i, WTryCas(me, read))
      modifies this
      ensures View() == Step(old(View()), i, WriteTryLock) && Inv(View())
      ensures ok <==> (old(word) == Word(me, read, me, 0) && old(q.released == q.Issued()))
      ensures ok ==> At(i, WriteHold(old(q.Issued())))
      ensures !ok ==> word == old(word) && At(i, Idle) && q == Goto(old(q), i, Idle)
    {
      StepInv(View(), i, WriteTryLock);
      WriteTryExact(View(), i);
      ghost var s := Step(View(), i, WriteTryLock);
      var cmp, cmpnew := WCmp(me, read), WNew(me, read);
      ok := word.U() == cmp;
      word := CompareAndSwap(word, cmp, cmpnew);
      q := s.q;
    }

    method TryReadCas(i: nat, me: Byte, write: Byte) returns (ok: bool)
      requires At(i, RTryCas(me, write))
      modifies this
      ensures View() == Step(old(View()), i, ReadTryLock) && Inv(View())
      ensures ok <==> (old(word) == Word(write, me, me, 0) && old(q.admitted == q.Issued()))
      ensures ok ==> At(i, ReadHold(old(q.Issued())))
      ensures !ok ==> word == old(word) && At(i, Idle) && q == Goto(old(q), i, Idle)
    {
      StepInv(View(), i, ReadTryLock);
      ReadTryExact(View(), i);
      ghost var s := Step(View(), i, ReadTryLock);
      var cmp, cmpnew := RCmp(me, write), RNew(me, write);
      ok := word.U() == cmp;
      word := CompareAndSwap(word, cmp, cmpnew);
      q := s.q;
    }
  }
}
