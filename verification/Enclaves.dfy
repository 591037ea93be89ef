/** The enclaves the working-set tracker watches (workingset/src/main.cpp, class Enclave): address
    arithmetic, the search of the fault handler, and what the reset and the summary compute. */
module Enclaves {
  const PAGE: nat := 4096

  /** One status byte per page; `alive` stands for an unset destruction time. */
  datatype Encl = Encl(eid: nat, start: nat, size: nat, alive: bool, status: seq<bool>)

  /** The least number of pages that hold `size` bytes. */
  function PageCount(size: nat): (n: nat)
    ensures size <= n * PAGE < size + PAGE
  {
    size / PAGE + if size % PAGE > 0 then 1 else 0
  }

  /** The page number of page p of an enclave. */
  function PageNo(e: Encl, p: nat): nat { e.start / PAGE + p }

  predicate Has(e: Encl, page: nat) { e.start / PAGE <= page < e.start / PAGE + PageCount(e.size) }

  predicate EnclOk(e: Encl) { e.start % PAGE == 0 && |e.status| == PageCount(e.size) }

  function Created(eid: nat, start: nat, size: nat): Encl {
    Encl(eid, start, size, true, seq(PageCount(size), _ => false))
  }

  predicate Within(e: Encl, addr: nat) { e.start <= addr <= e.start + e.size }

  /** The handler's page index. */
  function Offset(e: Encl, addr: nat): nat
    requires e.start % PAGE == 0 && e.start <= addr
  {
    (addr - addr % PAGE - e.start) / PAGE
  }

  /** The end of the range test is inclusive: the index is inside the status array except for a
      fault at the very end of an enclave of whole pages. */
  lemma OffsetInside(e: Encl, addr: nat)
    requires EnclOk(e) && Within(e, addr)
    ensures Offset(e, addr) < |e.status| <==> !(addr == e.start + e.size && e.size % PAGE == 0)
    ensures PageNo(e, Offset(e, addr)) == addr / PAGE
  {
  }

  /** The end of an enclave of two whole pages: it is found, and the index is one past the array. */
  lemma EndOutside()
    ensures var e := Created(1, 8192, 8192); EnclOk(e) && Hit(e, 16384) && Offset(e, 16384) == |e.status| == 2
  {
  }

  /** No page belongs to both. */
  ghost predicate Apart(a: Encl, b: Encl) { forall page: nat :: Has(a, page) ==> !Has(b, page) }

  // ----- the handler's search

  predicate Hit(e: Encl, addr: nat) { Within(e, addr) && e.alive }

  function Lookup(es: seq<Encl>, addr: nat, k: nat): (r: nat)
    requires k <= |es|
    ensures k <= r <= |es| && (r < |es| ==> Hit(es[r], addr))
    ensures forall j :: k <= j < r ==> !Hit(es[j], addr)
    decreases |es| - k
  {
    if k == |es| || Hit(es[k], addr) then k else Lookup(es, addr, k + 1)
  }

  // ----- counting

  function SetPages(status: seq<bool>): set<nat> { set p | 0 <= p < |status| && status[p] }

  function CountSet(status: seq<bool>): nat {
    if status == [] then 0 else CountSet(status[..|status| - 1]) + if status[|status| - 1] then 1 else 0
  }

  lemma {:induction false} CountIsCard(status: seq<bool>)
    ensures CountSet(status) == |SetPages(status)|
  {
    if status != [] {
      var k := |status| - 1;
      CountIsCard(status[..k]);
      assert SetPages(status) == SetPages(status[..k]) + if status[k] then {k} else {};
    }
  }

  /** The tracker's own object, updated in place. */
  class Enclave {
    const size: nat
    var pageCounter: nat
    const pageStatus: array<bool>

    ghost predicate Valid() { pageStatus.Length == PageCount(size) }

    constructor (size: nat)
      ensures Valid() && this.size == size && pageCounter == 0 && fresh(pageStatus)
      ensures pageStatus[..] == seq(PageCount(size), _ => false)
    {
      this.size := size;
      pageCounter := 0;
      pageStatus := new bool[PageCount(size)](_ => false);
    }

    /** reset_page_counter: every status byte is cleared, the counter stays. */
    method ResetPageCounter()
      requires Valid()
      modifies pageStatus
      ensures pageStatus[..] == seq(PageCount(size), _ => false)
      ensures SetPages(pageStatus[..]) == {}
    {
      for i := 0 to pageStatus.Length
        invariant forall j :: 0 <= j < i ==> !pageStatus[j]
      {
        pageStatus[i] := false;
      }
    }

    /** update_page_counter: the counter becomes the number of distinct pages whose byte is set. */
    method UpdatePageCounter()
      requires Valid()
      modifies this`pageCounter
      ensures pageCounter == |SetPages(pageStatus[..])|
    {
      pageCounter := 0;
      for i := 0 to pageStatus.Length
        invariant pageCounter == CountSet(pageStatus[..i])
      {
        assert pageStatus[..i + 1][..i] == pageStatus[..i];
        if pageStatus[i] { pageCounter := pageCounter + 1; }
      }
      assert pageStatus[..pageStatus.Length] == pageStatus[..];
      CountIsCard(pageStatus[..]);
    }

    /** The test-and-set of the fault handler. */
    method TestAndSet(p: nat) returns (was: bool)
      requires Valid() && p < pageStatus.Length
      modifies pageStatus
      ensures was == old(pageStatus[p]) && pageStatus[..] == old(pageStatus[..])[p := true]
      ensures SetPages(pageStatus[..]) == old(SetPages(pageStatus[..])) + {p}
    {
      was := pageStatus[p];
      pageStatus[p] := true;
    }
  }

  /** The search loop of the fault handler. */
  method Find(es: seq<Encl>, addr: nat) returns (k: nat)
    ensures k == Lookup(es, addr, 0)
  {
    k := 0;
    while k < |es| && !Hit(es[k], addr)
      invariant k <= |es| && Lookup(es, addr, 0) == Lookup(es, addr, k)
    {
      k := k + 1;
    }
  }
}
