/** The lock word of common/rwlock.h: a union of three byte counters with one 32-bit view.

    The bytes are kept as memory holds them (little endian); the 32-bit view `U` is what
    fetch-and-add and compare-and-swap act on, so a carry out of `users` reaches the
    unused fourth byte `pad`. */
module LockWord {
  import opened ByteType

  const TICKET := 0x1_0000   // 1 << 16
  const WORDS := 0x1_0000_0000

  datatype Word = Word(write: Byte, read: Byte, users: Byte, pad: Byte) {
    /** The union's `u` member. */
    function U(): (u: nat)
      ensures u < WORDS
    {
      write + 0x100 * (read + 0x100 * (users + 0x100 * pad))
    }
  }

  const ZERO := Word(0, 0, 0, 0)

  /** The bytes a 32-bit store of `u` leaves in memory. */
  function FromU(u: nat): (w: Word)
    requires u < WORDS
    ensures w.U() == u
  {
    var u1 := u / 0x100;
    var u2 := u1 / 0x100;
    Word(u % 0x100, u1 % 0x100, u2 % 0x100, u2 / 0x100)
  }

  function Succ(b: Byte): Byte { (b + 1) % 256 }

  /** `atomic_xadd(&l->u, 1 << 16)`, as the new word. */
  function FetchAddUsers(w: Word): Word { FromU((w.U() + TICKET) % WORDS) }

  /** `cmpxchg(&l->u, cmp, new)`: the whole word is compared, `pad` included. */
  function CompareAndSwap(w: Word, cmp: nat, new_: nat): Word
    requires new_ < WORDS
  {
    if w.U() == cmp then FromU(new_) else w
  }

  /** `*(unsigned short *) l = t.us` */
  function StoreShort(w: Word, t: Word): Word { w.(write := t.write, read := t.read) }

  lemma LowDigit(x: Byte, y: nat, x': Byte, y': nat)
    requires x + 0x100 * y == x' + 0x100 * y'
    ensures x == x' && y == y'
  {
  }

  lemma UInjective(a: Word, b: Word)
    requires a.U() == b.U()
    ensures a == b
  {
    LowDigit(a.write, a.read + 0x100 * (a.users + 0x100 * a.pad), b.write, b.read + 0x100 * (b.users + 0x100 * b.pad));
    LowDigit(a.read, a.users + 0x100 * a.pad, b.read, b.users + 0x100 * b.pad);
    LowDigit(a.users, a.pad, b.users, b.pad);
  }

  /** A ticket grab bumps `users` modulo 256 and never touches the two low bytes; only the
      unused byte sees the carry. */
  lemma FetchAddBytes(w: Word)
    ensures FetchAddUsers(w) ==
            w.(users := Succ(w.users), pad := if w.users == 255 then Succ(w.pad) else w.pad)
  {
    var x := w.(users := Succ(w.users), pad := if w.users == 255 then Succ(w.pad) else w.pad);
    assert x.U() == (w.U() + TICKET) % WORDS by {
      if w.users < 255 {
        assert x.U() == w.U() + TICKET;
      } else if w.pad < 255 {
        assert x.U() == w.U() + TICKET;
      } else {
        assert x.U() == w.U() + TICKET - WORDS;
      }
    }
    UInjective(FetchAddUsers(w), x);
  }

  lemma HighPart(low: nat, high: nat)
    requires low < TICKET
    ensures (low + TICKET * high) / TICKET == high
  {
  }

  lemma LowByte(b: Byte, rest: nat)
    ensures (b + 0x100 * rest) % 256 == b
  {
  }

  /** `(unsigned char) (me >> 16)` of the fetched word is the `users` byte. */
  lemma TicketByte(w: Word)
    ensures w.U() / TICKET % 256 == w.users
  {
    HighPart(w.write + 0x100 * w.read, w.users + 0x100 * w.pad);
    LowByte(w.users, w.pad);
  }
}
