/** Conservation over the whole load (analyzer/src/calls.cpp): summed over all call ids, the counters
    account for every call exactly once. */
module CallTotals {
  import opened Forest
  import opened Options
  import opened CallCounters
  import opened CallLoader

  /** The calls of one kind that have a parent, or that have a predecessor on their level. */
  datatype Link = ByParent | ByPredecessor

  function Ask(link: Link, kind: Kind, id: nat): Query {
    if link == ByParent then Nested(kind, id) else Later(kind, id)
  }

  predicate Linked(link: Link, cs: seq<Call>, c: Call) {
    if link == ByParent then c.parent.Some? else LastSibling(cs, c.kind, c.parent).Some?
  }

  function LinkedCount(link: Link, kind: Kind, cs: seq<Call>): nat {
    if cs == [] then 0
    else
      var n := |cs| - 1;
      LinkedCount(link, kind, cs[..n]) + if cs[n].kind == kind && Linked(link, cs[..n], cs[n]) then 1 else 0
  }

  function LinkedTotal(link: Link, kind: Kind, threads: seq<seq<Call>>): nat {
    if threads == [] then 0
    else LinkedTotal(link, kind, threads[..|threads| - 1]) + LinkedCount(link, kind, threads[|threads| - 1])
  }

  // ----- summing over ids

  function SumCount(link: Link, kind: Kind, n: nat, cs: seq<Call>): nat {
    if n == 0 then 0 else SumCount(link, kind, n - 1, cs) + Count(Ask(link, kind, n - 1), cs)
  }

  function SumTotal(link: Link, kind: Kind, n: nat, threads: seq<seq<Call>>): nat {
    if n == 0 then 0 else SumTotal(link, kind, n - 1, threads) + Total(Ask(link, kind, n - 1), threads)
  }

  lemma {:induction false} SumCountEmpty(link: Link, kind: Kind, n: nat)
    ensures SumCount(link, kind, n, []) == 0
  {
    if n > 0 { SumCountEmpty(link, kind, n - 1); }
  }

  /** One more call adds one to the sum, at its own id. */
  lemma {:induction false} SumCountSnoc(link: Link, kind: Kind, n: nat, cs: seq<Call>)
    requires cs != []
    ensures var k := |cs| - 1;
            SumCount(link, kind, n, cs) == SumCount(link, kind, n, cs[..k])
              + if cs[k].kind == kind && Linked(link, cs[..k], cs[k]) && cs[k].callId < n then 1 else 0
  {
    if n > 0 { SumCountSnoc(link, kind, n - 1, cs); }
  }

  lemma {:induction false} SumCountIs(link: Link, kind: Kind, n: nat, cs: seq<Call>)
    requires forall i :: 0 <= i < |cs| && cs[i].kind == kind ==> cs[i].callId < n
    ensures SumCount(link, kind, n, cs) == LinkedCount(link, kind, cs)
  {
    if cs == [] {
      SumCountEmpty(link, kind, n);
    } else {
      SumCountSnoc(link, kind, n, cs);
      SumCountIs(link, kind, n, cs[..|cs| - 1]);
    }
  }

  lemma {:induction false} SumTotalSnoc(link: Link, kind: Kind, n: nat, threads: seq<seq<Call>>)
    ensures SumTotal(link, kind, n, threads) ==
            if threads == [] then 0
            else SumTotal(link, kind, n, threads[..|threads| - 1]) + SumCount(link, kind, n, threads[|threads| - 1])
  {
    if n > 0 { SumTotalSnoc(link, kind, n - 1, threads); }
  }

  ghost predicate IdsBelow(kind: Kind, n: nat, cs: seq<Call>) {
    forall i :: 0 <= i < |cs| && cs[i].kind == kind ==> cs[i].callId < n
  }

  lemma {:induction false} SumTotalIs(link: Link, kind: Kind, n: nat, threads: seq<seq<Call>>)
    requires forall t :: 0 <= t < |threads| ==> IdsBelow(kind, n, threads[t])
    ensures SumTotal(link, kind, n, threads) == LinkedTotal(link, kind, threads)
  {
    SumTotalSnoc(link, kind, n, threads);
    if threads != [] {
      SumTotalIs(link, kind, n, threads[..|threads| - 1]);
      SumCountIs(link, kind, n, threads[|threads| - 1]);
    }
  }

  // ----- the first call of a kind under each parent

  function KindCount(kind: Kind, cs: seq<Call>): nat {
    if cs == [] then 0 else KindCount(kind, cs[..|cs| - 1]) + if cs[|cs| - 1].kind == kind then 1 else 0
  }

  /** The parents (or none) under which calls of this kind were made. */
  function Groups(kind: Kind, cs: seq<Call>): set<Option<nat>> {
    set i | 0 <= i < |cs| && cs[i].kind == kind :: cs[i].parent
  }

  lemma GroupKnown(kind: Kind, parent: Option<nat>, cs: seq<Call>)
    ensures parent in Groups(kind, cs) <==> LastSibling(cs, kind, parent).Some?
  {
  }

  lemma GroupsSnoc(kind: Kind, cs: seq<Call>)
    requires cs != []
    ensures var n := |cs| - 1;
            Groups(kind, cs) == Groups(kind, cs[..n]) + if cs[n].kind == kind then {cs[n].parent} else {}
  {
    var n := |cs| - 1;
    forall i | 0 <= i < n && cs[i].kind == kind ensures cs[i].parent in Groups(kind, cs[..n]) {
      assert cs[..n][i] == cs[i];
    }
  }

  /** All calls of a kind are the first ones under their parents and the ones with a predecessor. */
  lemma {:induction false} FirstOrLater(kind: Kind, cs: seq<Call>)
    ensures KindCount(kind, cs) == |Groups(kind, cs)| + LinkedCount(ByPredecessor, kind, cs)
  {
    if cs != [] {
      var n := |cs| - 1;
      FirstOrLater(kind, cs[..n]);
      GroupsSnoc(kind, cs);
      GroupKnown(kind, cs[n].parent, cs[..n]);
    }
  }

  function GroupTotal(kind: Kind, threads: seq<seq<Call>>): nat {
    if threads == [] then 0 else GroupTotal(kind, threads[..|threads| - 1]) + |Groups(kind, threads[|threads| - 1])|
  }

  function KindTotal(kind: Kind, threads: seq<seq<Call>>): nat {
    if threads == [] then 0 else KindTotal(kind, threads[..|threads| - 1]) + KindCount(kind, threads[|threads| - 1])
  }

  lemma {:induction false} FirstOrLaterTotal(kind: Kind, threads: seq<seq<Call>>)
    ensures KindTotal(kind, threads) == GroupTotal(kind, threads) + LinkedTotal(ByPredecessor, kind, threads)
  {
    if threads != [] {
      FirstOrLaterTotal(kind, threads[..|threads| - 1]);
      FirstOrLater(kind, threads[|threads| - 1]);
    }
  }

  // ----- what the tables add up to

  function DirectSum(cds: seq<CallData>): nat {
    if cds == [] then 0 else DirectSum(cds[..|cds| - 1]) + Sum(cds[|cds| - 1].direct)
  }

  function IndirectSum(cds: seq<CallData>): nat {
    if cds == [] then 0 else IndirectSum(cds[..|cds| - 1]) + Sum(cds[|cds| - 1].indirect)
  }

  function FromOcallsSum(cds: seq<CallData>): nat {
    if cds == [] then 0 else FromOcallsSum(cds[..|cds| - 1]) + cds[|cds| - 1].fromOcalls
  }

  lemma {:induction false} TableSums(cds: seq<CallData>, kind: Kind, threads: seq<seq<Call>>)
    requires forall id: nat :: id < |cds| ==>
               DirectOk(cds[id], kind, id, threads) && IndirectOk(cds[id], kind, id, threads)
    ensures DirectSum(cds) == SumTotal(ByParent, kind, |cds|, threads)
    ensures IndirectSum(cds) == SumTotal(ByPredecessor, kind, |cds|, threads)
    ensures FromOcallsSum(cds) == if kind == ECALL then DirectSum(cds) else 0
  {
    if cds != [] { TableSums(cds[..|cds| - 1], kind, threads); }
  }

  /** Over a whole load: the direct counts add up to the calls that have a parent, the indirect ones
      to all calls less one for each parent under which calls of the kind were made, and the ECalls
      counted as called from OCalls are those with a parent. */
  lemma Conservation(ecalls: seq<CallData>, ocalls: seq<CallData>, threads: seq<seq<Call>>, capacity: seq<nat>,
                     kind: Kind)
    requires AllOk(ecalls, ocalls, threads, capacity)
    ensures var cds := if kind == ECALL then ecalls else ocalls;
            && DirectSum(cds) == LinkedTotal(ByParent, kind, threads)
            && IndirectSum(cds) + GroupTotal(kind, threads) == KindTotal(kind, threads)
            && FromOcallsSum(cds) == if kind == ECALL then LinkedTotal(ByParent, ECALL, threads) else 0
  {
    var cds, other := if kind == ECALL then ecalls else ocalls, if kind == ECALL then |ocalls| else |ecalls|;
    forall id: nat | id < |cds| ensures DirectOk(cds[id], kind, id, threads) && IndirectOk(cds[id], kind, id, threads) {
      assert EntryOk(cds, kind, other, threads, id);
    }
    forall t | 0 <= t < |threads| ensures IdsBelow(kind, |cds|, threads[t]) {
      assert CallsOk(threads[t], |ecalls|, |ocalls|);
    }
    TableSums(cds, kind, threads);
    SumTotalIs(ByParent, kind, |cds|, threads);
    SumTotalIs(ByPredecessor, kind, |cds|, threads);
    FirstOrLaterTotal(kind, threads);
  }
}
