/** The per-pair counters of analyzer/src/calls.cpp and what they count. */
module CallCounters {
  import opened Forest

  const U64 := 0x1_0000_0000_0000_0000

  /** Subtraction of two uint64_t values. */
  function Sub64(a: nat, b: nat): (d: nat)
    ensures b <= a < U64 ==> d == a - b
  {
    (a - b) % U64
  }

  /** parent_call_data_t without its back pointer: the total, the buckets of a direct parent and
      those of an indirect one. */
  datatype Pair = Pair(count: nat, start10: nat, start20: nat, end10: nat, end20: nat,
                       less1: nat, less5: nat, less10: nat, less20: nat)

  const NEVER := Pair(0, 0, 0, 0, 0, 0, 0, 0, 0)

  datatype CallData = CallData(hasDirect: bool, fromOcalls: nat, direct: seq<Pair>,
                               hasIndirect: bool, indirect: seq<Pair>)

  function BumpDirect(p: Pair, fromStart: nat, fromEnd: nat): Pair {
    var p := p.(count := p.count + 1);
    var p := if fromStart < 10000 then p.(start10 := p.start10 + 1)
             else if fromStart < 20000 then p.(start20 := p.start20 + 1) else p;
    if fromEnd < 10000 then p.(end10 := p.end10 + 1)
    else if fromEnd < 20000 then p.(end20 := p.end20 + 1) else p
  }

  function BumpIndirect(p: Pair, diff: nat): Pair {
    var p := p.(count := p.count + 1);
    if diff < 1000 then p.(less1 := p.less1 + 1)
    else if diff < 5000 then p.(less5 := p.less5 + 1)
    else if diff < 10000 then p.(less10 := p.less10 + 1)
    else if diff < 20000 then p.(less20 := p.less20 + 1) else p
  }

  /** The effect of loading call c after the calls cs of its thread, told with the naive scan. */
  function AddDirect(cd: CallData, cs: seq<Call>, c: Call): CallData
    requires c.parent.Some? ==> c.parent.value < |cs| && cs[c.parent.value].callId < |cd.direct|
  {
    match c.parent
    case None => cd
    case Some(i) =>
      var p := cs[i];
      cd.(hasDirect := true,
          fromOcalls := cd.fromOcalls + (if c.kind == ECALL then 1 else 0),
          direct := cd.direct[p.callId := BumpDirect(cd.direct[p.callId], Sub64(c.start, p.start),
                                                 Sub64(p.end, c.end))])
  }

  function AddIndirect(cd: CallData, cs: seq<Call>, c: Call): CallData
    requires var j := LastSibling(cs, c.kind, c.parent); j.Some? ==> cs[j.value].callId < |cd.indirect|
  {
    match LastSibling(cs, c.kind, c.parent)
    case None => cd
    case Some(j) =>
      var s := cs[j];
      cd.(hasIndirect := true,
          indirect := cd.indirect[s.callId := BumpIndirect(cd.indirect[s.callId], Sub64(c.start, s.end))])
  }

  // ----- what is being counted

  datatype Query =
    | Nested(kind: Kind, id: nat)                // those with a parent
    | NestedIn(kind: Kind, id: nat, pid: nat)    // those whose parent is a call of pid
    | StartIn(kind: Kind, id: nat, pid: nat, lo: nat, hi: nat)   // of these, by time since the parent's start
    | EndIn(kind: Kind, id: nat, pid: nat, lo: nat, hi: nat)     // of these, by time until the parent's end
    | Later(kind: Kind, id: nat)                 // those not first of their kind under their parent
    | LaterThan(kind: Kind, id: nat, pid: nat)   // those whose predecessor on the same level is a call of pid
    | GapIn(kind: Kind, id: nat, pid: nat, lo: nat, hi: nat)     // of these, by time since its end

  predicate Under(cs: seq<Call>, c: Call, pid: nat) {
    c.parent.Some? && c.parent.value < |cs| && cs[c.parent.value].callId == pid
  }

  predicate After(cs: seq<Call>, c: Call, pid: nat) {
    var j := LastSibling(cs, c.kind, c.parent);
    j.Some? && cs[j.value].callId == pid
  }

  predicate Hit(q: Query, cs: seq<Call>, c: Call) {
    && c.kind == q.kind && c.callId == q.id
    && match q
       case Nested(_, _) => c.parent.Some?
       case NestedIn(_, _, pid) => Under(cs, c, pid)
       case StartIn(_, _, pid, lo, hi) => Under(cs, c, pid) && lo <= Sub64(c.start, cs[c.parent.value].start) < hi
       case EndIn(_, _, pid, lo, hi) => Under(cs, c, pid) && lo <= Sub64(cs[c.parent.value].end, c.end) < hi
       case Later(_, _) => LastSibling(cs, c.kind, c.parent).Some?
       case LaterThan(_, _, pid) => After(cs, c, pid)
       case GapIn(_, _, pid, lo, hi) =>
         After(cs, c, pid) && lo <= Sub64(c.start, cs[LastSibling(cs, c.kind, c.parent).value].end) < hi
  }

  function Count(q: Query, cs: seq<Call>): nat {
    if cs == [] then 0
    else
      var n := |cs| - 1;
      Count(q, cs[..n]) + if Hit(q, cs[..n], cs[n]) then 1 else 0
  }

  function Total(q: Query, threads: seq<seq<Call>>): nat {
    if threads == [] then 0 else Total(q, threads[..|threads| - 1]) + Count(q, threads[|threads| - 1])
  }

  lemma {:induction false} TotalAppend(q: Query, threads: seq<seq<Call>>, t: nat, c: Call)
    requires t < |threads|
    ensures Total(q, threads[t := threads[t] + [c]]) == Total(q, threads) + if Hit(q, threads[t], c) then 1 else 0
  {
    var n := |threads| - 1;
    var threads' := threads[t := threads[t] + [c]];
    if t == n {
      assert threads'[..n] == threads[..n];
      assert (threads[t] + [c])[..|threads[t]|] == threads[t];
    } else {
      assert threads'[..n] == threads[..n][t := threads[t] + [c]];
      TotalAppend(q, threads[..n], t, c);
    }
  }

  function Sum(ps: seq<Pair>): nat {
    if ps == [] then 0 else Sum(ps[..|ps| - 1]) + ps[|ps| - 1].count
  }

  lemma {:induction false} SumUpdate(ps: seq<Pair>, i: nat, p: Pair)
    requires i < |ps|
    ensures Sum(ps[i := p]) == Sum(ps) - ps[i].count + p.count
  {
    var n := |ps| - 1;
    if i == n {
      assert ps[i := p][..n] == ps[..n];
    } else {
      assert ps[i := p][..n] == ps[..n][i := p];
      SumUpdate(ps[..n], i, p);
    }
  }

  // ----- the invariant of one call id's counters

  /** The count and the exclusive time buckets of one pair, each of them exact. */
  ghost predicate DirectPairOk(p: Pair, kind: Kind, id: nat, pid: nat, threads: seq<seq<Call>>) {
    && p.count == Total(NestedIn(kind, id, pid), threads)
    && p.start10 == Total(StartIn(kind, id, pid, 0, 10000), threads)
    && p.start20 == Total(StartIn(kind, id, pid, 10000, 20000), threads)
    && p.end10 == Total(EndIn(kind, id, pid, 0, 10000), threads)
    && p.end20 == Total(EndIn(kind, id, pid, 10000, 20000), threads)
    && p.start10 + p.start20 <= p.count && p.end10 + p.end20 <= p.count
  }

  ghost predicate IndirectPairOk(p: Pair, kind: Kind, id: nat, pid: nat, threads: seq<seq<Call>>) {
    && p.count == Total(LaterThan(kind, id, pid), threads)
    && p.less1 == Total(GapIn(kind, id, pid, 0, 1000), threads)
    && p.less5 == Total(GapIn(kind, id, pid, 1000, 5000), threads)
    && p.less10 == Total(GapIn(kind, id, pid, 5000, 10000), threads)
    && p.less20 == Total(GapIn(kind, id, pid, 10000, 20000), threads)
    && p.less1 + p.less5 + p.less10 + p.less20 <= p.count
  }

  ghost predicate DirectOk(cd: CallData, kind: Kind, id: nat, threads: seq<seq<Call>>) {
    && (forall pid: nat :: pid < |cd.direct| ==> DirectPairOk(cd.direct[pid], kind, id, pid, threads))
    && Sum(cd.direct) == Total(Nested(kind, id), threads)
    && cd.fromOcalls == (if kind == ECALL then Sum(cd.direct) else 0)
    && (cd.hasDirect <==> Sum(cd.direct) > 0)
  }

  ghost predicate IndirectOk(cd: CallData, kind: Kind, id: nat, threads: seq<seq<Call>>) {
    && (forall pid: nat :: pid < |cd.indirect| ==> IndirectPairOk(cd.indirect[pid], kind, id, pid, threads))
    && Sum(cd.indirect) == Total(Later(kind, id), threads)
    && (cd.hasIndirect <==> Sum(cd.indirect) > 0)
  }

  /** Loading a call that is not of this pair. */
  lemma DirectPairSame(p: Pair, kind: Kind, id: nat, pid: nat, threads: seq<seq<Call>>, t: nat, c: Call)
    requires DirectPairOk(p, kind, id, pid, threads) && t < |threads|
    requires c.kind != kind || c.callId != id || !Under(threads[t], c, pid)
    ensures DirectPairOk(p, kind, id, pid, threads[t := threads[t] + [c]])
  {
    TotalAppend(NestedIn(kind, id, pid), threads, t, c);
    TotalAppend(StartIn(kind, id, pid, 0, 10000), threads, t, c);
    TotalAppend(StartIn(kind, id, pid, 10000, 20000), threads, t, c);
    TotalAppend(EndIn(kind, id, pid, 0, 10000), threads, t, c);
    TotalAppend(EndIn(kind, id, pid, 10000, 20000), threads, t, c);
  }

  /** Loading a call of this pair. */
  lemma DirectPairBump(p: Pair, pid: nat, threads: seq<seq<Call>>, t: nat, c: Call)
    requires DirectPairOk(p, c.kind, c.callId, pid, threads) && t < |threads| && Under(threads[t], c, pid)
    ensures var parent := threads[t][c.parent.value];
            DirectPairOk(BumpDirect(p, Sub64(c.start, parent.start), Sub64(parent.end, c.end)), c.kind, c.callId, pid,
              threads[t := threads[t] + [c]])
  {
    TotalAppend(NestedIn(c.kind, c.callId, pid), threads, t, c);
    TotalAppend(StartIn(c.kind, c.callId, pid, 0, 10000), threads, t, c);
    TotalAppend(StartIn(c.kind, c.callId, pid, 10000, 20000), threads, t, c);
    TotalAppend(EndIn(c.kind, c.callId, pid, 0, 10000), threads, t, c);
    TotalAppend(EndIn(c.kind, c.callId, pid, 10000, 20000), threads, t, c);
  }

  lemma IndirectPairSame(p: Pair, kind: Kind, id: nat, pid: nat, threads: seq<seq<Call>>, t: nat, c: Call)
    requires IndirectPairOk(p, kind, id, pid, threads) && t < |threads|
    requires c.kind != kind || c.callId != id || !After(threads[t], c, pid)
    ensures IndirectPairOk(p, kind, id, pid, threads[t := threads[t] + [c]])
  {
    TotalAppend(LaterThan(kind, id, pid), threads, t, c);
    TotalAppend(GapIn(kind, id, pid, 0, 1000), threads, t, c);
    TotalAppend(GapIn(kind, id, pid, 1000, 5000), threads, t, c);
    TotalAppend(GapIn(kind, id, pid, 5000, 10000), threads, t, c);
    TotalAppend(GapIn(kind, id, pid, 10000, 20000), threads, t, c);
  }

  lemma IndirectPairBump(p: Pair, pid: nat, threads: seq<seq<Call>>, t: nat, c: Call)
    requires IndirectPairOk(p, c.kind, c.callId, pid, threads) && t < |threads| && After(threads[t], c, pid)
    ensures var s := threads[t][LastSibling(threads[t], c.kind, c.parent).value];
            IndirectPairOk(BumpIndirect(p, Sub64(c.start, s.end)), c.kind, c.callId, pid,
                           threads[t := threads[t] + [c]])
  {
    TotalAppend(LaterThan(c.kind, c.callId, pid), threads, t, c);
    TotalAppend(GapIn(c.kind, c.callId, pid, 0, 1000), threads, t, c);
    TotalAppend(GapIn(c.kind, c.callId, pid, 1000, 5000), threads, t, c);
    TotalAppend(GapIn(c.kind, c.callId, pid, 5000, 10000), threads, t, c);
    TotalAppend(GapIn(c.kind, c.callId, pid, 10000, 20000), threads, t, c);
  }

  lemma DirectOther(cd: CallData, kind: Kind, id: nat, threads: seq<seq<Call>>, t: nat, c: Call)
    requires DirectOk(cd, kind, id, threads) && t < |threads| && (c.kind != kind || c.callId != id)
    ensures DirectOk(cd, kind, id, threads[t := threads[t] + [c]])
  {
    TotalAppend(Nested(kind, id), threads, t, c);
    var threads' := threads[t := threads[t] + [c]];
    forall pid: nat | pid < |cd.direct| ensures DirectPairOk(cd.direct[pid], kind, id, pid, threads') {
      DirectPairSame(cd.direct[pid], kind, id, pid, threads, t, c);
    }
  }

  lemma IndirectOther(cd: CallData, kind: Kind, id: nat, threads: seq<seq<Call>>, t: nat, c: Call)
    requires IndirectOk(cd, kind, id, threads) && t < |threads| && (c.kind != kind || c.callId != id)
    ensures IndirectOk(cd, kind, id, threads[t := threads[t] + [c]])
  {
    TotalAppend(Later(kind, id), threads, t, c);
    var threads' := threads[t := threads[t] + [c]];
    forall pid: nat | pid < |cd.indirect| ensures IndirectPairOk(cd.indirect[pid], kind, id, pid, threads') {
      IndirectPairSame(cd.indirect[pid], kind, id, pid, threads, t, c);
    }
  }

  lemma DirectSelf(cd: CallData, threads: seq<seq<Call>>, t: nat, c: Call)
    requires DirectOk(cd, c.kind, c.callId, threads) && t < |threads|
    requires c.parent.Some? ==> c.parent.value < |threads[t]| && threads[t][c.parent.value].callId < |cd.direct|
    ensures DirectOk(AddDirect(cd, threads[t], c), c.kind, c.callId, threads[t := threads[t] + [c]])
  {
    DirectSum(cd, threads[t], c);
    TotalAppend(Nested(c.kind, c.callId), threads, t, c);
    DirectPairs(cd, threads, t, c);
  }

  /** The sum, the flag and the ECall total move with the one pair that is bumped. */
  lemma DirectSum(cd: CallData, cs: seq<Call>, c: Call)
    requires c.parent.Some? ==> c.parent.value < |cs| && cs[c.parent.value].callId < |cd.direct|
    ensures var cd' := AddDirect(cd, cs, c);
            var one := if c.parent.Some? then 1 else 0;
            && Sum(cd'.direct) == Sum(cd.direct) + one
            && cd'.fromOcalls == cd.fromOcalls + (if c.kind == ECALL then one else 0)
            && cd'.hasDirect == (cd.hasDirect || c.parent.Some?)
  {
    if c.parent.Some? {
      var pid := cs[c.parent.value].callId;
      SumUpdate(cd.direct, pid, AddDirect(cd, cs, c).direct[pid]);
    }
  }

  lemma DirectPairs(cd: CallData, threads: seq<seq<Call>>, t: nat, c: Call)
    requires t < |threads|
    requires forall pid: nat :: pid < |cd.direct| ==> DirectPairOk(cd.direct[pid], c.kind, c.callId, pid, threads)
    requires c.parent.Some? ==> c.parent.value < |threads[t]| && threads[t][c.parent.value].callId < |cd.direct|
    ensures var cd', threads' := AddDirect(cd, threads[t], c), threads[t := threads[t] + [c]];
            forall pid: nat :: pid < |cd'.direct| ==> DirectPairOk(cd'.direct[pid], c.kind, c.callId, pid, threads')
  {
    var cd', threads' := AddDirect(cd, threads[t], c), threads[t := threads[t] + [c]];
    forall pid: nat | pid < |cd'.direct| ensures DirectPairOk(cd'.direct[pid], c.kind, c.callId, pid, threads') {
      if Under(threads[t], c, pid) {
        DirectPairBump(cd.direct[pid], pid, threads, t, c);
      } else {
        DirectPairSame(cd.direct[pid], c.kind, c.callId, pid, threads, t, c);
      }
    }
  }

  lemma IndirectSelf(cd: CallData, threads: seq<seq<Call>>, t: nat, c: Call)
    requires IndirectOk(cd, c.kind, c.callId, threads) && t < |threads|
    requires var j := LastSibling(threads[t], c.kind, c.parent);
             j.Some? ==> threads[t][j.value].callId < |cd.indirect|
    ensures IndirectOk(AddIndirect(cd, threads[t], c), c.kind, c.callId, threads[t := threads[t] + [c]])
  {
    IndirectSum(cd, threads[t], c);
    TotalAppend(Later(c.kind, c.callId), threads, t, c);
    IndirectPairs(cd, threads, t, c);
  }

  lemma IndirectSum(cd: CallData, cs: seq<Call>, c: Call)
    requires var j := LastSibling(cs, c.kind, c.parent); j.Some? ==> cs[j.value].callId < |cd.indirect|
    ensures var cd' := AddIndirect(cd, cs, c);
            var j := LastSibling(cs, c.kind, c.parent);
            && Sum(cd'.indirect) == Sum(cd.indirect) + (if j.Some? then 1 else 0)
            && cd'.hasIndirect == (cd.hasIndirect || j.Some?)
  {
    var j := LastSibling(cs, c.kind, c.parent);
    if j.Some? {
      var pid := cs[j.value].callId;
      SumUpdate(cd.indirect, pid, AddIndirect(cd, cs, c).indirect[pid]);
    }
  }

  lemma IndirectPairs(cd: CallData, threads: seq<seq<Call>>, t: nat, c: Call)
    requires t < |threads|
    requires forall pid: nat :: pid < |cd.indirect| ==> IndirectPairOk(cd.indirect[pid], c.kind, c.callId, pid, threads)
    requires var j := LastSibling(threads[t], c.kind, c.parent);
             j.Some? ==> threads[t][j.value].callId < |cd.indirect|
    ensures var cd', threads' := AddIndirect(cd, threads[t], c), threads[t := threads[t] + [c]];
            forall pid: nat :: pid < |cd'.indirect| ==>
              IndirectPairOk(cd'.indirect[pid], c.kind, c.callId, pid, threads')
  {
    var cd', threads' := AddIndirect(cd, threads[t], c), threads[t := threads[t] + [c]];
    forall pid: nat | pid < |cd'.indirect| ensures IndirectPairOk(cd'.indirect[pid], c.kind, c.callId, pid, threads') {
      if After(threads[t], c, pid) {
        IndirectPairBump(cd.indirect[pid], pid, threads, t, c);
      } else {
        IndirectPairSame(cd.indirect[pid], c.kind, c.callId, pid, threads, t, c);
      }
    }
  }
}
