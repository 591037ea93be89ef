/** When calls end relative to each other, over every run of the logger, and what that means for
    the analyzer's unsigned time differences. */
module EventTimes {
  import opened Forest
  import opened Options
  import opened CallCounters
  import opened EventLog
  import opened EventRuns
  import opened Recorded

  /** A call returns before the call enclosing it does. */
  ghost predicate InnerFirst(log: Log) {
    forall c :: 0 <= c < |log.events| == |log.ret| && log.events[c].CallEv? && log.events[c].prev.Some?
                && log.events[c].prev.value < |log.ret| && log.ret[log.events[c].prev.value].Some? ==>
      log.ret[c].Some? && log.ret[c].value < log.ret[log.events[c].prev.value].value
  }

  predicate Siblings(events: seq<Ev>, a: nat, b: nat) {
    && a < b < |events| && events[a].CallEv? && events[b].CallEv?
    && events[a].thread == events[b].thread && events[a].prev == events[b].prev
  }

  /** Of two calls under the same parent, the first has returned before the second starts. */
  ghost predicate SiblingsApart(log: Log) {
    forall a: nat, b: nat :: a < |log.ret| && Siblings(log.events, a, b) ==> log.ret[a].Some? && log.ret[a].value < b
  }

  /** No open call sits directly on the innermost open call. */
  lemma NothingAbove(log: Log, t: nat, x: nat)
    requires Inv(log) && t < |log.threads| && x < |log.events| && log.events[x].CallEv? && log.events[x].thread == t
    requires log.events[x].prev == Top(log.threads[t].frames)
    ensures log.ret[x].Some?
  {
    var f := log.threads[t].frames;
    assert ThrOk(log, t);
    if log.ret[x].None? {
      assert x in f;
      var i :| 0 <= i < |f| && f[i] == x;
      OpenCall(log, t, i);
      ChainIncreasing(log.events, t, f, |f| - 1);
      assert false;
    }
  }

  lemma RetEarlier(log: Log, c: nat)
    requires Inv(log) && c < |log.events| && log.ret[c].Some?
    ensures log.ret[c].value < |log.events|
  {
  }

  lemma EnterApart(log: Log, a: Act)
    requires Inv(log) && Enabled(log, a) && a.Enter? && SiblingsApart(log) && InnerFirst(log)
    ensures SiblingsApart(Step(log, a)) && InnerFirst(Step(log, a))
  {
    var log' := Step(log, a);
    forall x: nat, b: nat | x < |log'.ret| && Siblings(log'.events, x, b)
      ensures log'.ret[x].Some? && log'.ret[x].value < b
    {
      EnterSibling(log, a, x, b);
    }
    forall c | 0 <= c < |log'.events| && log'.events[c].CallEv? && log'.events[c].prev.Some?
               && log'.events[c].prev.value < |log'.ret| && log'.ret[log'.events[c].prev.value].Some?
      ensures log'.ret[c].Some? && log'.ret[c].value < log'.ret[log'.events[c].prev.value].value
    {
      EnterInner(log, a, c);
    }
  }

  lemma EnterSibling(log: Log, a: Act, x: nat, b: nat)
    requires Inv(log) && Enabled(log, a) && a.Enter? && SiblingsApart(log)
    requires Siblings(Step(log, a).events, x, b)
    ensures x < |log.events| && Step(log, a).ret[x].Some? && Step(log, a).ret[x].value < b
  {
    assert ThrOk(log, a.t);
    if b < |log.events| {
      assert Siblings(log.events, x, b);
    } else {
      NothingAbove(log, a.t, x);
      RetEarlier(log, x);
    }
  }

  lemma EnterInner(log: Log, a: Act, c: nat)
    requires Inv(log) && Enabled(log, a) && a.Enter? && InnerFirst(log)
    requires var log' := Step(log, a);
             c < |log'.events| && log'.events[c].CallEv? && log'.events[c].prev.Some?
             && log'.events[c].prev.value < |log'.ret| && log'.ret[log'.events[c].prev.value].Some?
    ensures var log' := Step(log, a);
            c < |log.events| && log'.ret[c].Some? && log'.ret[c].value < log'.ret[log'.events[c].prev.value].value
  {
    assert ThrOk(log, a.t);
    if log.threads[a.t].frames != [] { TopFacts(log, a.t); }
    if c < |log.events| {
      assert RefsOk(log.events, c);
      assert Step(log, a).events[c] == log.events[c];
    }
  }

  lemma LeaveApart(log: Log, a: Act)
    requires Inv(log) && Enabled(log, a) && a.Leave? && SiblingsApart(log) && InnerFirst(log)
    ensures SiblingsApart(Step(log, a)) && InnerFirst(Step(log, a))
  {
    var log' := Step(log, a);
    TopFacts(log, a.t);
    var f := log.threads[a.t].frames;
    var top := f[|f| - 1];
    var e := |log.events|;
    forall x: nat, b: nat | x < |log'.ret| && Siblings(log'.events, x, b)
      ensures log'.ret[x].Some? && log'.ret[x].value < b
    {
      assert Siblings(log.events, x, b);
    }
    forall c | 0 <= c < |log'.events| && log'.events[c].CallEv? && log'.events[c].prev.Some?
               && log'.events[c].prev.value < |log'.ret| && log'.ret[log'.events[c].prev.value].Some?
      ensures log'.ret[c].Some? && log'.ret[c].value < log'.ret[log'.events[c].prev.value].value
    {
      LeaveInner(log, a, c);
    }
  }

  lemma LeaveInner(log: Log, a: Act, c: nat)
    requires Inv(log) && Enabled(log, a) && a.Leave? && InnerFirst(log)
    requires c < |log.events| && log.events[c].CallEv? && log.events[c].prev.Some?
    requires var log' := Step(log, a);
             log.events[c].prev.value < |log'.ret| && log'.ret[log.events[c].prev.value].Some?
    ensures var log' := Step(log, a);
            && |log'.ret| > c && log'.ret[c].Some?
            && log'.ret[c].value < log'.ret[log.events[c].prev.value].value
  {
    TopFacts(log, a.t);
    assert RefsOk(log.events, c);
    var f := log.threads[a.t].frames;
    var top := f[|f| - 1];
    if log.events[c].prev.value == top {
      NothingAbove(log, a.t, c);
      RetEarlier(log, c);
    }
  }

  lemma OtherApart(log: Log, a: Act)
    requires Inv(log) && Enabled(log, a) && !a.Enter? && !a.Leave? && SiblingsApart(log) && InnerFirst(log)
    ensures SiblingsApart(Step(log, a)) && InnerFirst(Step(log, a))
  {
    var log' := Step(log, a);
    forall x: nat, b: nat | x < |log'.ret| && Siblings(log'.events, x, b)
      ensures log'.ret[x].Some? && log'.ret[x].value < b
    {
      assert Siblings(log.events, x, b);
    }
    forall c | 0 <= c < |log'.events| && log'.events[c].CallEv? && log'.events[c].prev.Some?
               && log'.events[c].prev.value < |log'.ret| && log'.ret[log'.events[c].prev.value].Some?
      ensures log'.ret[c].Some? && log'.ret[c].value < log'.ret[log'.events[c].prev.value].value
    {
      assert RefsOk(log.events, c);
    }
  }

  lemma {:induction false} RunApart(n: nat, acts: seq<Act>)
    requires Run(n, acts).Some?
    ensures SiblingsApart(Run(n, acts).value) && InnerFirst(Run(n, acts).value)
    decreases |acts|
  {
    if acts != [] {
      var k := |acts| - 1;
      RunApart(n, acts[..k]);
      var log := Run(n, acts[..k]).value;
      if acts[k].Enter? { EnterApart(log, acts[k]); }
      else if acts[k].Leave? { LeaveApart(log, acts[k]); }
      else { OtherApart(log, acts[k]); }
    }
  }

  // ----- times in the forest

  /** Of the calls and returns of a thread, the later one has the later time. */
  lemma OrderIsTime(log: Log, x: nat, y: nat)
    requires Inv(log) && x <= y < |log.events| && log.events[x].thread == log.events[y].thread
    requires Timed(log.events[x]) && Timed(log.events[y])
    ensures log.events[x].time <= log.events[y].time
  {
    var t := log.events[x].thread;
    assert x in log.threads[t].queue && y in log.threads[t].queue;
    var q := log.threads[t].queue;
    assert ThrOk(log, t);
    var i :| 0 <= i < |q| && q[i] == x;
    var j :| 0 <= j < |q| && q[j] == y;
  }

  lemma RetOfCall(log: Log, c: nat)
    requires Inv(log) && c < |log.events| && log.ret[c].Some?
    ensures var r := log.ret[c].value;
            c < r < |log.events| && log.events[r].RetEv? && log.events[r].call == c
            && log.events[c].CallEv? && log.events[r].thread == log.events[c].thread
            && log.events[r].kind == log.events[c].kind
  {
    assert RefsOk(log.events, log.ret[c].value);
  }

  /** Start and end of nested calls. */
  lemma NestedTimes(log: Log, p: nat, c: nat)
    requires Inv(log) && InnerFirst(log) && c < |log.events| && log.events[c].CallEv? && log.events[c].prev == Some(p)
    requires log.ret[c].Some? && p < |log.ret| && log.ret[p].Some?
    ensures log.events[p].time <= log.events[c].time
    ensures EndOf(log.events, log.ret, c) <= EndOf(log.events, log.ret, p)
  {
    assert RefsOk(log.events, c);
    RetOfCall(log, c);
    RetOfCall(log, p);
    OrderIsTime(log, p, c);
    OrderIsTime(log, log.ret[c].value, log.ret[p].value);
  }

  lemma SiblingTimes(log: Log, a: nat, b: nat)
    requires Inv(log) && SiblingsApart(log) && Siblings(log.events, a, b)
    ensures EndOf(log.events, log.ret, a) <= log.events[b].time
  {
    RetOfCall(log, a);
    OrderIsTime(log, log.ret[a].value, b);
  }

  /** None of the analyzer's three unsigned differences wraps on the forest of a finalized log. */
  ghost predicate NoWrap(f: seq<Call>) {
    forall i :: 0 <= i < |f| ==> NoWrapAt(f, i)
  }

  predicate NoWrapAt(f: seq<Call>, i: nat)
    requires i < |f|
  {
    && (f[i].parent.Some? ==>
          && f[i].parent.value < i
          && Sub64(f[i].start, f[f[i].parent.value].start) == f[i].start - f[f[i].parent.value].start
          && Sub64(f[f[i].parent.value].end, f[i].end) == f[f[i].parent.value].end - f[i].end)
    && (match LastSibling(f[..i], f[i].kind, f[i].parent)
        case None => true
        case Some(j) => Sub64(f[i].start, f[j].end) == f[i].start - f[j].end)
  }

  /** What the forest of a thread stores for its i-th call. */
  lemma ForestTimes(log: Log, t: nat, id: nat -> nat, i: nat)
    requires t < |log.threads| && i < |Calls(log.events, log.threads[t].queue)|
    ensures var cs := Calls(log.events, log.threads[t].queue);
            var f := TrueForest(log.events, log.ret, id, cs);
            && f[i].start == log.events[cs[i]].time && f[i].end == EndOf(log.events, log.ret, cs[i])
            && f[i].parent.Some? == log.events[cs[i]].prev.Some?
            && (f[i].parent.Some? ==> f[i].parent.value == Find(cs, log.events[cs[i]].prev.value))
  {
  }

  lemma EndBefore(log: Log, c: nat, end: nat)
    requires Inv(log) && AllBefore(log, end) && c < |log.events| && log.ret[c].Some?
    ensures EndOf(log.events, log.ret, c) <= end
  {
    RetOfCall(log, c);
    assert TimedBy(log.events, log.ret[c].value, end);
  }

  /** The times of a call and of the call that encloses it. */
  lemma ParentTimes(log: Log, c: nat, end: nat)
    requires Inv(log) && Quiet(log) && InnerFirst(log) && AllBefore(log, end)
    requires c < |log.events| && log.events[c].CallEv? && log.events[c].prev.Some?
    ensures var p := log.events[c].prev.value;
            && p < |log.events| && log.events[p].CallEv?
            && log.events[p].time <= log.events[c].time <= end
            && EndOf(log.events, log.ret, c) <= EndOf(log.events, log.ret, p) <= end
  {
    var p := log.events[c].prev.value;
    assert RefsOk(log.events, c);
    HasReturn(log, c);
    HasReturn(log, p);
    NestedTimes(log, p, c);
    EndBefore(log, p, end);
    assert TimedBy(log.events, c, end);
  }

  lemma DirectNoWrap(log: Log, t: nat, id: nat -> nat, i: nat, end: nat)
    requires Inv(log) && Quiet(log) && InnerFirst(log) && AllBefore(log, end) && end < U64 && t < |log.threads|
    requires i < |Calls(log.events, log.threads[t].queue)|
    ensures var f := TrueForest(log.events, log.ret, id, Calls(log.events, log.threads[t].queue));
            f[i].parent.Some? ==>
              && f[i].parent.value < i
              && Sub64(f[i].start, f[f[i].parent.value].start) == f[i].start - f[f[i].parent.value].start
              && Sub64(f[f[i].parent.value].end, f[i].end) == f[f[i].parent.value].end - f[i].end
  {
    var c := Calls(log.events, log.threads[t].queue)[i];
    ForestTimes(log, t, id, i);
    if log.events[c].prev.Some? {
      ParentSlot(log, t, i);
      ForestTimes(log, t, id, Find(Calls(log.events, log.threads[t].queue), log.events[c].prev.value));
      ParentTimes(log, c, end);
    }
  }

  lemma SameParent(log: Log, t: nat, id: nat -> nat, i: nat, j: nat)
    requires Inv(log) && t < |log.threads| && j < i < |Calls(log.events, log.threads[t].queue)|
    requires var f := TrueForest(log.events, log.ret, id, Calls(log.events, log.threads[t].queue));
             f[j].parent == f[i].parent
    ensures var cs := Calls(log.events, log.threads[t].queue); Siblings(log.events, cs[j], cs[i])
  {
    assert ThrOk(log, t);
    var cs := Calls(log.events, log.threads[t].queue);
    CallsIncreasing(log.events, log.threads[t].queue);
    ForestTimes(log, t, id, i);
    ForestTimes(log, t, id, j);
    if log.events[cs[i]].prev.Some? {
      ParentSlot(log, t, i);
      ParentSlot(log, t, j);
    }
  }

  lemma IndirectNoWrap(log: Log, t: nat, id: nat -> nat, i: nat, j: nat, end: nat)
    requires Inv(log) && SiblingsApart(log) && AllBefore(log, end) && end < U64 && t < |log.threads|
    requires j < i < |Calls(log.events, log.threads[t].queue)|
    requires var f := TrueForest(log.events, log.ret, id, Calls(log.events, log.threads[t].queue));
             f[j].parent == f[i].parent
    ensures var f := TrueForest(log.events, log.ret, id, Calls(log.events, log.threads[t].queue));
            Sub64(f[i].start, f[j].end) == f[i].start - f[j].end
  {
    var cs := Calls(log.events, log.threads[t].queue);
    SameParent(log, t, id, i, j);
    SiblingTimes(log, cs[j], cs[i]);
    ForestTimes(log, t, id, i);
    ForestTimes(log, t, id, j);
    assert TimedBy(log.events, cs[i], end);
  }

  lemma ForestNoWrap(log: Log, t: nat, id: nat -> nat, end: nat)
    requires Inv(log) && Quiet(log) && InnerFirst(log) && SiblingsApart(log) && t < |log.threads|
    requires AllBefore(log, end) && end < U64
    ensures NoWrap(TrueForest(log.events, log.ret, id, Calls(log.events, log.threads[t].queue)))
  {
    var f := TrueForest(log.events, log.ret, id, Calls(log.events, log.threads[t].queue));
    forall i | 0 <= i < |f| ensures NoWrapAt(f, i) {
      DirectNoWrap(log, t, id, i, end);
      var s := LastSibling(f[..i], f[i].kind, f[i].parent);
      if s.Some? { IndirectNoWrap(log, t, id, i, s.value, end); }
    }
  }
}
