/** What happened to the working-set tracker (workingset/src/main.cpp), told from the outside: the
    addresses of the faults its handler was entered for, the resets that ended, and the enclaves that
    were registered and destroyed. From this alone it is defined which pages of an enclave faulted
    since it was registered or last reset. */
module FaultHistory {
  import opened Enclaves

  datatype Entry = Faulted(addr: nat) | Reset | Added(encl: Encl) | Removed(eid: nat)

  /** The first live enclave with this id. */
  predicate FirstLive(table: seq<Encl>, eid: nat, k: nat)
    requires k < |table|
  {
    && table[k].eid == eid && table[k].alive
    && forall j :: 0 <= j < k ==> !(table[j].eid == eid && table[j].alive)
  }

  function Without(table: seq<Encl>, eid: nat): (r: seq<Encl>)
    ensures |r| == |table|
    ensures forall k :: 0 <= k < |table| ==>
              r[k] == if FirstLive(table, eid, k) then table[k].(alive := false) else table[k]
  {
    seq(|table|, k requires 0 <= k < |table| =>
        if FirstLive(table, eid, k) then table[k].(alive := false) else table[k])
  }

  function TableNext(table: seq<Encl>, x: Entry): seq<Encl> {
    match x
    case Added(encl) => table + [encl]
    case Removed(eid) => Without(table, eid)
    case _ => table
  }

  /** The enclaves registered so far, in order, and which of them live. */
  function TableOf(log: seq<Entry>): seq<Encl> {
    if log == [] then [] else TableNext(TableOf(log[..|log| - 1]), log[|log| - 1])
  }

  predicate Inside(e: Encl, addr: nat) { e.start <= addr < e.start + e.size }

  predicate EndsAt(e: Encl, addr: nat) { e.alive && e.start + e.size == addr }

  /** A live enclave listed before e ends exactly at addr. */
  predicate Shadowed(table: seq<Encl>, e: nat, addr: nat)
    requires e <= |table|
  {
    exists f :: 0 <= f < e && EndsAt(table[f], addr)
  }

  /** A fault at addr counts for enclave e: the address is inside e, which lives, and no live enclave
      listed before it ends exactly there. The address after an enclave that ends inside a page
      counts too: it lies on the last page. */
  predicate CountsFor(table: seq<Encl>, e: nat, addr: nat) {
    && e < |table| && table[e].alive
    && ((Inside(table[e], addr) && !Shadowed(table, e, addr)) || (EndsAt(table[e], addr) && table[e].size % PAGE != 0))
  }

  function PageIn(e: Encl, addr: nat): nat
    requires e.start <= addr
  {
    addr / PAGE - e.start / PAGE
  }

  function PagesBy(table: seq<Encl>, e: nat, addr: nat): set<nat> {
    if CountsFor(table, e, addr) then {PageIn(table[e], addr)} else {}
  }

  function SinceNext(pages: set<nat>, table: seq<Encl>, e: nat, x: Entry): set<nat> {
    match x
    case Reset => {}
    case Faulted(addr) => pages + PagesBy(table, e, addr)
    case _ => pages
  }

  /** The pages of enclave e that faulted since it was registered or last reset. */
  function Since(log: seq<Entry>, e: nat): set<nat> {
    if log == [] then {}
    else
      var n := |log| - 1;
      SinceNext(Since(log[..n], e), TableOf(log[..n]), e, log[n])
  }

  /** Entry i is a fault on page p of enclave e with no reset after it. */
  predicate FaultFor(log: seq<Entry>, e: nat, p: nat, i: nat) {
    && i < |log| && log[i].Faulted? && (forall k :: i < k < |log| ==> !log[k].Reset?)
    && CountsFor(TableOf(log[..i]), e, log[i].addr) && PageIn(TableOf(log[..i])[e], log[i].addr) == p
  }

  lemma FaultForPrefix(log: seq<Entry>, e: nat, p: nat, i: nat)
    requires log != [] && i < |log| - 1
    ensures FaultFor(log, e, p, i) <==> FaultFor(log[..|log| - 1], e, p, i) && !log[|log| - 1].Reset?
  {
    var n := |log| - 1;
    assert log[..n][..i] == log[..i];
    if FaultFor(log[..n], e, p, i) && !log[n].Reset? {
      forall k | i < k < |log| ensures !log[k].Reset? { if k < n { assert log[..n][k] == log[k]; } }
    }
  }

  /** The set, told without recursion. */
  lemma {:induction false} SinceMeans(log: seq<Entry>, e: nat, p: nat)
    ensures p in Since(log, e) <==> exists i: nat :: FaultFor(log, e, p, i)
  {
    if log != [] {
      var n := |log| - 1;
      SinceMeans(log[..n], e, p);
      forall i: nat | i < n ensures FaultFor(log, e, p, i) <==> FaultFor(log[..n], e, p, i) && !log[n].Reset? {
        FaultForPrefix(log, e, p, i);
      }
      assert FaultFor(log, e, p, n) <==> log[n].Faulted? && p in PagesBy(TableOf(log[..n]), e, log[n].addr);
      if p in Since(log, e) {
        if p in Since(log[..n], e) {
          var i: nat :| FaultFor(log[..n], e, p, i);
          assert i < n;
        } else {
          assert FaultFor(log, e, p, n);
        }
      }
      if i: nat :| FaultFor(log, e, p, i) { assert i < n ==> FaultFor(log[..n], e, p, i); }
    }
  }

  /** A destruction ends the first live enclave that has the id, if there is one, and nothing else. */
  lemma RemovedExact(log: seq<Entry>, eid: nat)
    ensures var was, now := TableOf(log), TableOf(log + [Removed(eid)]);
            && |now| == |was|
            && (forall k :: 0 <= k < |was| ==>
                  && now[k] == was[k].(alive := now[k].alive)
                  && (was[k].alive && !now[k].alive <==>
                        was[k].alive && was[k].eid == eid
                        && !exists j :: 0 <= j < k && was[j].alive && was[j].eid == eid)
                  && (now[k].alive ==> was[k].alive))
  {
    assert (log + [Removed(eid)])[..|log|] == log;
  }

  // ----- one more entry

  lemma {:induction false} LogSnoc(log: seq<Entry>, x: Entry, e: nat)
    ensures TableOf(log + [x]) == TableNext(TableOf(log), x)
    ensures Since(log + [x], e) == SinceNext(Since(log, e), TableOf(log), e, x)
  {
    assert (log + [x])[..|log|] == log;
  }

  // ----- the handler's search finds the enclave a fault counts for

  lemma OnPage(e: Encl, addr: nat)
    requires EnclOk(e) && Within(e, addr) && !(addr == e.start + e.size && e.size % PAGE == 0)
    ensures Has(e, addr / PAGE) && PageIn(e, addr) == Offset(e, addr) < |e.status|
  {
    OffsetInside(e, addr);
  }

  lemma EndAligned(e: Encl)
    requires e.start % PAGE == 0
    ensures (e.start + e.size) % PAGE == e.size % PAGE
  {
  }

  /** Two live enclaves on different pages whose inclusive ranges share an address: one of them ends
      there on a page boundary. */
  lemma SharedAddress(a: Encl, b: Encl, addr: nat)
    requires EnclOk(a) && EnclOk(b) && Apart(a, b) && Within(a, addr) && Within(b, addr)
    ensures (addr == a.start + a.size && a.size % PAGE == 0) || (addr == b.start + b.size && b.size % PAGE == 0)
  {
    if !(addr == a.start + a.size && a.size % PAGE == 0) && !(addr == b.start + b.size && b.size % PAGE == 0) {
      OnPage(a, addr);
      OnPage(b, addr);
    }
  }

  ghost predicate TableOk(es: seq<Encl>) {
    && (forall e :: 0 <= e < |es| ==> EnclOk(es[e]))
    && (forall e, f :: 0 <= e < |es| && 0 <= f < |es| && e != f && es[e].alive && es[f].alive ==> Apart(es[e], es[f]))
  }

  /** The enclave found, unless its index leaves the array. */
  predicate Finds(es: seq<Encl>, addr: nat, e: nat) {
    && Lookup(es, addr, 0) == e < |es| && es[e].start % PAGE == 0
    && Offset(es[e], addr) < |es[e].status|
  }

  lemma FindsCounts(es: seq<Encl>, addr: nat, e: nat)
    requires TableOk(es) && Finds(es, addr, e)
    ensures CountsFor(es, e, addr) && PageIn(es[e], addr) == Offset(es[e], addr)
  {
    assert EnclOk(es[e]);
    OffsetInside(es[e], addr);
    OnPage(es[e], addr);
    if addr < es[e].start + es[e].size {
      forall f | 0 <= f < e ensures !EndsAt(es[f], addr) { assert !Hit(es[f], addr); }
    }
  }

  /** No live enclave before e is found instead. */
  lemma NotBefore(es: seq<Encl>, addr: nat, e: nat, f: nat)
    requires TableOk(es) && CountsFor(es, e, addr) && f < e
    ensures !Hit(es[f], addr)
  {
    assert EnclOk(es[e]) && EnclOk(es[f]);
    if Hit(es[f], addr) {
      SharedAddress(es[f], es[e], addr);
      EndAligned(es[e]);
      EndAligned(es[f]);
    }
  }

  lemma CountsFinds(es: seq<Encl>, addr: nat, e: nat)
    requires TableOk(es) && CountsFor(es, e, addr)
    ensures Finds(es, addr, e)
  {
    assert EnclOk(es[e]);
    var r := Lookup(es, addr, 0);
    assert Hit(es[e], addr);
    if r < e { NotBefore(es, addr, e, r); }
    OffsetInside(es[e], addr);
  }

  /** The handler finds enclave e with an index inside its array if and only if the fault counts for
      e: it is lost exactly when a live enclave listed before e ends where the fault is. */
  lemma FindsExact(es: seq<Encl>, addr: nat, e: nat)
    requires TableOk(es)
    ensures Finds(es, addr, e) <==> CountsFor(es, e, addr)
  {
    if Finds(es, addr, e) { FindsCounts(es, addr, e); }
    if CountsFor(es, e, addr) { CountsFinds(es, addr, e); }
  }

  /** Two live enclaves of two pages, the second right after the first. */
  const ADJACENT: seq<Encl> := [Created(1, 8192, 8192), Created(2, 16384, 8192)]

  lemma AdjacentOk()
    ensures TableOk(ADJACENT)
  {
    assert forall page: nat :: Has(ADJACENT[0], page) ==> !Has(ADJACENT[1], page);
  }

  /** A fault at the first address of the second one is taken for the first, whose array it leaves: it
      counts for neither. Listed the other way round, it counts for the one it is in. */
  lemma AdjacentLost()
    ensures TableOk(ADJACENT) && ADJACENT[1].alive && Inside(ADJACENT[1], 16384)
    ensures forall e :: !Finds(ADJACENT, 16384, e) && !CountsFor(ADJACENT, e, 16384)
    ensures CountsFor([ADJACENT[1], ADJACENT[0]], 0, 16384)
  {
    AdjacentOk();
    assert EndsAt(ADJACENT[0], 16384);
    forall e ensures !Finds(ADJACENT, 16384, e) && !CountsFor(ADJACENT, e, 16384) { FindsExact(ADJACENT, 16384, e); }
  }
}
