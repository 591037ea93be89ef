/** What is recorded about waits and sets, told from the steps alone (logger/src/urts_calls.cpp:440-497):
    every push records exactly what its thread entered or took in its step before. */
module SyncStory {
  import opened Options
  import opened SyncEvents
  import opened SyncRuns

  /** How many waits were constructed: they are numbered in this order. */
  function Waits(acts: seq<Act>): nat {
    if acts == [] then 0 else Waits(acts[..|acts| - 1]) + if acts[|acts| - 1].WaitMap? then 1 else 0
  }

  /** The last step of thread t. */
  function LastStep(acts: seq<Act>, t: nat): (r: Option<nat>)
    ensures r.Some? ==> r.value < |acts| && acts[r.value].t == t
  {
    if acts == [] then None
    else if acts[|acts| - 1].t == t then Some(|acts| - 1)
    else LastStep(acts[..|acts| - 1], t)
  }

  /** The wait that a set of the key finds after these steps, if there is one. */
  ghost function Found(acts: seq<Act>, key: nat): Option<nat> {
    if HasOldest(acts, key) then
      var k: nat :| Oldest(acts, key, k);
      assert k < |acts| by { assert WaitAt(acts, k, key); }
      Some(Waits(acts[..k]))
    else None
  }

  /** The wait events pushed, in order: a push records the wait that its thread constructed in its step
      before. */
  function Recorded(acts: seq<Act>): seq<nat> {
    if acts == [] then []
    else
      var before, a := acts[..|acts| - 1], acts[|acts| - 1];
      Recorded(before) +
      if a.WaitPush? && LastStep(before, a.t).Some? then [Waits(before[..LastStep(before, a.t).value])] else []
  }

  /** The set events pushed: one for each set whose key had a wait when its thread looked it up. */
  ghost function SetsTold(acts: seq<Act>): seq<SetEvent> {
    if acts == [] then []
    else
      var before, a := acts[..|acts| - 1], acts[|acts| - 1];
      SetsTold(before) +
      if a.SetPush? && LastStep(before, a.t).Some? && before[LastStep(before, a.t).value].SetMap? then
        var m := LastStep(before, a.t).value;
        var found := Found(before[..m], before[m].key);
        if found.Some? then [SetEvent(before[m].key, found.value)] else []
      else []
  }

  /** Where a thread is, from its last step. */
  ghost function PcTold(acts: seq<Act>, t: nat): Pc {
    match LastStep(acts, t)
    case None => Idle
    case Some(m) =>
      match acts[m]
      case WaitMap(_, _) => Waiting(Waits(acts[..m]))
      case SetMap(_, key) => Setting(key, Found(acts[..m], key))
      case _ => Idle
  }

  ghost predicate ThreadsTold(acts: seq<Act>, threads: seq<Pc>) {
    forall t :: 0 <= t < |threads| ==> threads[t] == PcTold(acts, t)
  }

  ghost predicate Told(acts: seq<Act>, s: Sync) {
    |s.waits| == Waits(acts) && s.recorded == Recorded(acts) && s.sets == SetsTold(acts) && ThreadsTold(acts, s.threads)
  }

  lemma {:induction false} WaitsAre(n: nat, acts: seq<Act>)
    requires Run(n, acts).Some?
    ensures |Run(n, acts).value.waits| == Waits(acts)
    decreases |acts|
  {
    if acts != [] { WaitsAre(n, acts[..|acts| - 1]); }
  }

  /** What the map holds for a key is the wait found. */
  lemma FoundIs(n: nat, acts: seq<Act>, key: nat)
    requires Run(n, acts).Some?
    ensures var tcs := Run(n, acts).value.tcs; Found(acts, key) == if key in tcs then Some(tcs[key]) else None
  {
    MapExact(n, acts, key);
    if HasOldest(acts, key) {
      var k: nat :| Oldest(acts, key, k) && Found(acts, key) == Some(Waits(acts[..k]));
      assert WaitAt(acts, k, key);
      RunPrefix(n, acts, k);
      WaitsAre(n, acts[..k]);
    }
  }

  lemma PcOther(acts: seq<Act>, t: nat)
    requires acts != [] && acts[|acts| - 1].t != t
    ensures PcTold(acts, t) == PcTold(acts[..|acts| - 1], t)
  {
    var n := |acts| - 1;
    if LastStep(acts, t).Some? { assert acts[..n][..LastStep(acts, t).value] == acts[..LastStep(acts, t).value]; }
  }

  lemma {:induction false} PcSelf(n: nat, acts: seq<Act>, s: Sync)
    requires acts != [] && Run(n, acts[..|acts| - 1]) == Some(s) && Enabled(s, acts[|acts| - 1])
    ensures Step(s, acts[|acts| - 1]).threads[acts[|acts| - 1].t] == PcTold(acts, acts[|acts| - 1].t)
  {
    var before, a := acts[..|acts| - 1], acts[|acts| - 1];
    WaitsAre(n, before);
    if a.SetMap? { FoundIs(n, before, a.key); }
  }

  lemma {:induction false} ThreadsStep(n: nat, acts: seq<Act>, s: Sync)
    requires acts != [] && Run(n, acts[..|acts| - 1]) == Some(s) && Enabled(s, acts[|acts| - 1])
    requires ThreadsTold(acts[..|acts| - 1], s.threads)
    ensures ThreadsTold(acts, Step(s, acts[|acts| - 1]).threads)
  {
    var a := acts[|acts| - 1];
    var threads := Step(s, a).threads;
    forall t | 0 <= t < |threads| ensures threads[t] == PcTold(acts, t) {
      if t == a.t { PcSelf(n, acts, s); } else { PcOther(acts, t); }
    }
  }

  lemma {:induction false} PushedStep(acts: seq<Act>, s: Sync)
    requires acts != [] && Enabled(s, acts[|acts| - 1]) && Told(acts[..|acts| - 1], s)
    ensures Step(s, acts[|acts| - 1]).recorded == Recorded(acts)
    ensures Step(s, acts[|acts| - 1]).sets == SetsTold(acts)
  {
    var a := acts[|acts| - 1];
    assert s.threads[a.t] == PcTold(acts[..|acts| - 1], a.t);
  }

  /** In every run, whatever the interleaving: the wait and set events recorded are those told. */
  lemma {:induction false} StoryExact(n: nat, acts: seq<Act>)
    requires Run(n, acts).Some?
    ensures Told(acts, Run(n, acts).value)
    decreases |acts|
  {
    if acts != [] {
      var before := acts[..|acts| - 1];
      StoryExact(n, before);
      ThreadsStep(n, acts, Run(n, before).value);
      PushedStep(acts, Run(n, before).value);
      WaitsAre(n, acts);
    }
  }
}
