/** The call forest a finalized log describes: for each thread its calls in queue order, each with
    the slot of the call that encloses it. */
module Recorded {
  import opened Forest
  import opened Options
  import opened EventLog

  /** The call events of a queue, in order. */
  function Calls(events: seq<Ev>, q: seq<nat>): (cs: seq<nat>)
    ensures forall i :: 0 <= i < |cs| ==> cs[i] in q && cs[i] < |events| && events[cs[i]].CallEv?
  {
    if q == [] then []
    else
      var n := |q| - 1;
      Calls(events, q[..n]) + if q[n] < |events| && events[q[n]].CallEv? then [q[n]] else []
  }

  /** The position of x in s, or |s|. */
  function Find(s: seq<nat>, x: nat): (i: nat)
    ensures i <= |s| && (i < |s| ==> s[i] == x) && (i == |s| ==> x !in s)
  {
    if s == [] then 0
    else if s[0] == x then 0
    else 1 + Find(s[1..], x)
  }

  predicate Increasing(s: seq<nat>) { forall i, j :: 0 <= i < j < |s| ==> s[i] < s[j] }

  lemma FindAt(s: seq<nat>, i: nat)
    requires Increasing(s) && i < |s|
    ensures Find(s, s[i]) == i
  {
  }

  lemma {:induction false} CallsIncreasing(events: seq<Ev>, q: seq<nat>)
    requires Increasing(q)
    ensures Increasing(Calls(events, q))
  {
    if q != [] {
      var n := |q| - 1;
      CallsIncreasing(events, q[..n]);
      assert forall x :: x in q[..n] ==> x < q[n];
    }
  }

  lemma {:induction false} CallsAll(events: seq<Ev>, q: seq<nat>, x: nat)
    requires x in q && x < |events| && events[x].CallEv?
    ensures x in Calls(events, q)
  {
    var n := |q| - 1;
    if x in q[..n] { CallsAll(events, q[..n], x); }
  }

  /** The time at which call c returned. */
  function EndOf(events: seq<Ev>, ret: seq<Option<nat>>, c: nat): nat {
    if c < |ret| && ret[c].Some? && ret[c].value < |events| then events[ret[c].value].time else 0
  }

  function ToCall(events: seq<Ev>, ret: seq<Option<nat>>, id: nat -> nat, cs: seq<nat>, c: nat): Call
    requires c < |events| && events[c].CallEv?
  {
    var ev := events[c];
    Call(id(c), ev.callId, ev.kind, ev.time, EndOf(events, ret, c),
         if ev.prev.Some? then Some(Find(cs, ev.prev.value)) else None)
  }

  /** The forest of a thread; `id` is the event id the database gives to a call. */
  function TrueForest(events: seq<Ev>, ret: seq<Option<nat>>, id: nat -> nat, cs: seq<nat>): (f: seq<Call>)
    requires forall i :: 0 <= i < |cs| ==> cs[i] < |events| && events[cs[i]].CallEv?
    ensures |f| == |cs|
    ensures forall i :: 0 <= i < |cs| ==> f[i] == ToCall(events, ret, id, cs, cs[i])
  {
    seq(|cs|, i requires 0 <= i < |cs| => ToCall(events, ret, id, cs, cs[i]))
  }

  // ----- a well bracketed queue is a preorder

  /** How a prefix's open calls sit in the forest: each is the parent of the next, and the top is
      an ancestor of the last call read. */
  ghost predicate StackOk(events: seq<Ev>, cs: seq<nat>, f: seq<Call>, n: nat, stack: seq<nat>) {
    && n <= |cs| == |f|
    && (forall i :: 0 <= i < |stack| ==> Find(cs, stack[i]) < n)
    && (forall i :: 1 <= i < |stack| ==> f[Find(cs, stack[i])].parent == Some(Find(cs, stack[i - 1])))
    && (stack != [] ==> Anc(f, Find(cs, stack[|stack| - 1]), n - 1))
  }

  /** The whole forest cs, f against the queue read so far. */
  ghost predicate Reading(events: seq<Ev>, q: seq<nat>, cs: seq<nat>, f: seq<Call>) {
    && Increasing(cs) && Calls(events, q) <= cs && |f| == |cs|
    && (forall i :: 0 <= i < |cs| ==>
          && cs[i] < |events| && events[cs[i]].CallEv?
          && f[i].kind == events[cs[i]].kind
          && f[i].parent == if events[cs[i]].prev.Some? then Some(Find(cs, events[cs[i]].prev.value)) else None)
  }

  lemma PushOk(events: seq<Ev>, cs: seq<nat>, f: seq<Call>, n: nat, stack: seq<nat>, e: nat)
    requires StackOk(events, cs, f, n, stack) && n < |cs| && cs[n] == e && Increasing(cs)
    requires f[n].parent == if stack == [] then None else Some(Find(cs, stack[|stack| - 1]))
    ensures StackOk(events, cs, f, n + 1, stack + [e])
  {
    FindAt(cs, n);
  }

  lemma PopOk(events: seq<Ev>, cs: seq<nat>, f: seq<Call>, n: nat, stack: seq<nat>)
    requires StackOk(events, cs, f, n, stack) && stack != []
    requires forall i :: 0 <= i < |f| && f[i].parent.Some? ==> f[i].parent.value < i
    ensures StackOk(events, cs, f, n, Pop(stack))
  {
    if |stack| > 1 {
      var top, below := Find(cs, stack[|stack| - 1]), Find(cs, stack[|stack| - 2]);
      assert Anc(f, below, top);
      AncTrans(f, below, top, n - 1);
    }
  }

  lemma ReadCall(events: seq<Ev>, q: seq<nat>, cs: seq<nat>, f: seq<Call>, stack: seq<nat>)
    requires Reading(events, q, cs, f) && q != [] && Replay(events, q).Some? && q[|q| - 1] < |events|
    requires events[q[|q| - 1]].CallEv? && Replay(events, q[..|q| - 1]) == Some(stack)
    requires StackOk(events, cs, f, |Calls(events, q[..|q| - 1])|, stack)
    ensures StackOk(events, cs, f, |Calls(events, q)|, Replay(events, q).value)
  {
    var e := q[|q| - 1];
    var n := |Calls(events, q[..|q| - 1])|;
    assert Calls(events, q)[n] == e;
    assert cs[n] == e;
    PushOk(events, cs, f, n, stack, e);
  }

  /** One more event read. */
  lemma StackStep(events: seq<Ev>, q: seq<nat>, cs: seq<nat>, f: seq<Call>, stack: seq<nat>)
    requires Reading(events, q, cs, f) && q != [] && Replay(events, q).Some?
    requires Replay(events, q[..|q| - 1]) == Some(stack)
    requires forall i :: 0 <= i < |f| && f[i].parent.Some? ==> f[i].parent.value < i
    requires StackOk(events, cs, f, |Calls(events, q[..|q| - 1])|, stack)
    ensures StackOk(events, cs, f, |Calls(events, q)|, Replay(events, q).value)
  {
    match events[q[|q| - 1]]
    case CallEv(_, _, _, _, _) => ReadCall(events, q, cs, f, stack);
    case RetEv(_, _, _, _, _) => PopOk(events, cs, f, |Calls(events, q[..|q| - 1])|, stack);
    case _ =>
  }

  lemma {:induction false} StackInForest(events: seq<Ev>, q: seq<nat>, cs: seq<nat>, f: seq<Call>)
    requires Reading(events, q, cs, f) && Replay(events, q).Some?
    requires forall i :: 0 <= i < |f| && f[i].parent.Some? ==> f[i].parent.value < i
    ensures StackOk(events, cs, f, |Calls(events, q)|, Replay(events, q).value)
    decreases |q|
  {
    if q != [] {
      var n := |q| - 1;
      assert Calls(events, q[..n]) <= Calls(events, q);
      StackInForest(events, q[..n], cs, f);
      StackStep(events, q, cs, f, Replay(events, q[..n]).value);
    }
  }

  lemma {:induction false} ReplayPrefix(events: seq<Ev>, q: seq<nat>, k: nat)
    requires Replay(events, q).Some? && k <= |q|
    ensures Replay(events, q[..k]).Some?
    decreases |q|
  {
    if k == |q| {
      assert q[..k] == q;
    } else {
      ReplayPrefix(events, q[..|q| - 1], k);
      assert q[..|q| - 1][..k] == q[..k];
    }
  }

  lemma {:induction false} CallsPrefix(events: seq<Ev>, q: seq<nat>, k: nat)
    requires k <= |q|
    ensures Calls(events, q[..k]) <= Calls(events, q)
    decreases |q|
  {
    if k == |q| {
      assert q[..k] == q;
    } else {
      CallsPrefix(events, q[..|q| - 1], k);
      assert q[..|q| - 1][..k] == q[..k];
    }
  }

  /** Slot i of the forest, read at its position k in the queue. */
  lemma SlotPosition(events: seq<Ev>, q: seq<nat>, i: nat) returns (k: nat)
    requires i < |Calls(events, q)| && Increasing(q)
    ensures k < |q| && q[k] == Calls(events, q)[i] && |Calls(events, q[..k])| == i
  {
    k :| 0 <= k < |q| && q[k] == Calls(events, q)[i];
    CallPosition(events, q, k);
    CallsIncreasing(events, q);
  }

  /** A call of the queue comes after the calls before it. */
  lemma CallPosition(events: seq<Ev>, q: seq<nat>, k: nat)
    requires k < |q| && q[k] < |events| && events[q[k]].CallEv?
    ensures var m := |Calls(events, q[..k])|; m < |Calls(events, q)| && Calls(events, q)[m] == q[k]
  {
    CallsPrefix(events, q, k + 1);
    assert q[..k + 1][..k] == q[..k];
    var m := |Calls(events, q[..k])|;
    assert Calls(events, q[..k + 1])[m] == q[k];
  }

  /** The stack when the i-th call is read. */
  lemma SlotStack(events: seq<Ev>, q: seq<nat>, cs: seq<nat>, f: seq<Call>, i: nat) returns (stack: seq<nat>)
    requires Increasing(q) && cs == Calls(events, q) && Reading(events, q, cs, f)
    requires Replay(events, q).Some? && i < |f|
    requires forall j :: 0 <= j < |f| && f[j].parent.Some? ==> f[j].parent.value < j
    ensures StackOk(events, cs, f, i, stack) && cs[i] < |events| && Apply(events, cs[i], stack).Some?
  {
    var k := SlotPosition(events, q, i);
    ReplayPrefix(events, q, k + 1);
    ReplayPrefix(events, q, k);
    assert q[..k + 1][..k] == q[..k];
    CallsPrefix(events, q, k);
    StackInForest(events, q[..k], cs, f);
    stack := Replay(events, q[..k]).value;
  }

  lemma SlotNested(events: seq<Ev>, q: seq<nat>, cs: seq<nat>, f: seq<Call>, i: nat)
    requires AllRefsOk(events) && Increasing(q) && cs == Calls(events, q) && Reading(events, q, cs, f)
    requires Replay(events, q).Some? && i < |f|
    requires forall j :: 0 <= j < |f| && f[j].parent.Some? ==> f[j].parent.value < j
    ensures NestedAt(f, i)
  {
    var stack := SlotStack(events, q, cs, f, i);
    var e := cs[i];
    assert RefsOk(events, e);
    if events[e].prev.Some? {
      assert Find(cs, events[e].prev.value) < i;
    }
  }

  /** Every thread of a finalized log: its calls in queue order form an alternating forest in
      preorder, in which each call's parent is the call that its previous_call names. */
  lemma ThreadForest(log: Log, t: nat, id: nat -> nat)
    requires Inv(log) && t < |log.threads|
    ensures WellNested(TrueForest(log.events, log.ret, id, Calls(log.events, log.threads[t].queue)))
  {
    assert ThrOk(log, t);
    var q := log.threads[t].queue;
    var cs := Calls(log.events, q);
    var f := TrueForest(log.events, log.ret, id, cs);
    CallsIncreasing(log.events, q);
    forall j | 0 <= j < |f| && f[j].parent.Some?
      ensures f[j].parent.value < j
    {
      ParentSlot(log, t, j);
    }
    forall i | 0 <= i < |f| ensures NestedAt(f, i) {
      SlotNested(log.events, q, cs, f, i);
    }
  }

  /** The enclosing call has an earlier slot of the same thread. */
  lemma FindBelow(cs: seq<nat>, p: nat, j: nat)
    requires Increasing(cs) && p in cs && j < |cs| && p < cs[j]
    ensures Find(cs, p) < j
  {
    assert cs[Find(cs, p)] == p;
  }

  lemma PrevRecorded(log: Log, t: nat, c: nat)
    requires Inv(log) && t < |log.threads| && c < |log.events| && log.events[c].CallEv? && log.events[c].prev.Some?
    requires log.events[c].thread == t
    ensures log.events[c].prev.value < c && log.events[c].prev.value in Calls(log.events, log.threads[t].queue)
  {
    var p := log.events[c].prev.value;
    assert RefsOk(log.events, c);
    assert p in log.threads[t].queue;
    CallsAll(log.events, log.threads[t].queue, p);
  }

  lemma ParentSlot(log: Log, t: nat, j: nat)
    requires Inv(log) && t < |log.threads|
    requires j < |Calls(log.events, log.threads[t].queue)|
    requires log.events[Calls(log.events, log.threads[t].queue)[j]].prev.Some?
    ensures var cs := Calls(log.events, log.threads[t].queue);
            Find(cs, log.events[cs[j]].prev.value) < j
  {
    assert ThrOk(log, t);
    var q := log.threads[t].queue;
    var cs := Calls(log.events, q);
    CallsIncreasing(log.events, q);
    var p := log.events[cs[j]].prev.value;
    PrevRecorded(log, t, cs[j]);
    FindBelow(cs, p, j);
  }
}
