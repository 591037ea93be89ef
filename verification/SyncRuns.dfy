/** Which wait a set names, over every interleaving of the wrappers
    (logger/src/urts_calls.cpp:440-497). */
module SyncRuns {
  import opened Options
  import opened SyncEvents

  // ----- which wait the map holds, told from the run alone

  /** Step k enters a wait under the key. */
  predicate WaitAt(acts: seq<Act>, k: nat, key: nat) { k < |acts| && acts[k].WaitMap? && acts[k].key == key }

  predicate SetAt(acts: seq<Act>, k: nat, key: nat) { k < |acts| && acts[k].SetMap? && acts[k].key == key }

  /** No set under the key in steps lo to hi. */
  predicate NoSet(acts: seq<Act>, lo: nat, hi: nat, key: nat) { forall m: nat :: lo <= m < hi ==> !SetAt(acts, m, key) }

  /** Step k is the oldest wait under the key since the last set under it. */
  ghost predicate Oldest(acts: seq<Act>, key: nat, k: nat) {
    && WaitAt(acts, k, key) && NoSet(acts, k, |acts|, key)
    && forall j: nat :: j < k && WaitAt(acts, j, key) ==> !NoSet(acts, j, k, key)
  }

  /** The number of the wait event step k constructs. */
  ghost function WaitNo(n: nat, acts: seq<Act>, k: nat): nat
    requires k <= |acts|
  {
    match Run(n, acts[..k])
    case None => 0
    case Some(s) => |s.waits|
  }

  lemma {:induction false} RunPrefix(n: nat, acts: seq<Act>, k: nat)
    requires Run(n, acts).Some? && k <= |acts|
    ensures Run(n, acts[..k]).Some?
    decreases |acts|
  {
    if k == |acts| {
      assert acts[..k] == acts;
    } else {
      RunPrefix(n, acts[..|acts| - 1], k);
      assert acts[..|acts| - 1][..k] == acts[..k];
    }
  }

  lemma NoSetPrefix(acts: seq<Act>, lo: nat, hi: nat, key: nat, n: nat)
    requires hi <= n <= |acts|
    ensures NoSet(acts[..n], lo, hi, key) == NoSet(acts, lo, hi, key)
  {
    assert forall m: nat :: m < n ==> (SetAt(acts[..n], m, key) <==> SetAt(acts, m, key));
    if NoSet(acts[..n], lo, hi, key) {
      forall m: nat | lo <= m < hi ensures !SetAt(acts, m, key) { assert !SetAt(acts[..n], m, key); }
    }
  }

  /** How one more step moves the oldest wait. */
  lemma OldestStep(acts: seq<Act>, key: nat, k: nat)
    requires acts != []
    ensures var n := |acts| - 1;
            k < n ==> (Oldest(acts, key, k) <==> Oldest(acts[..n], key, k) && !SetAt(acts, n, key))
  {
    var n := |acts| - 1;
    if k < n {
      assert forall j: nat :: j < n ==> (WaitAt(acts[..n], j, key) <==> WaitAt(acts, j, key));
      forall j: nat | j < k ensures NoSet(acts[..n], j, k, key) == NoSet(acts, j, k, key) {
        NoSetPrefix(acts, j, k, key, n);
      }
      NoSetPrefix(acts, k, n, key, n);
      assert NoSet(acts, k, n + 1, key) <==> NoSet(acts, k, n, key) && !SetAt(acts, n, key) by {
        if NoSet(acts, k, n, key) && !SetAt(acts, n, key) {
          forall m: nat | k <= m < n + 1 ensures !SetAt(acts, m, key) { if m < n { assert !SetAt(acts, m, key); } }
        }
      }
    }
  }

  /** There is at most one oldest wait. */
  lemma OldestUnique(acts: seq<Act>, key: nat, j: nat, k: nat)
    requires j <= k && Oldest(acts, key, j) && Oldest(acts, key, k)
    ensures j == k
  {
  }

  ghost predicate HasOldest(acts: seq<Act>, key: nat) { exists k :: Oldest(acts, key, k) }

  /** A wait step is itself the oldest if and only if there was none before it. */
  lemma OldestLast(acts: seq<Act>, key: nat)
    requires acts != [] && WaitAt(acts, |acts| - 1, key)
    ensures Oldest(acts, key, |acts| - 1) <==> !HasOldest(acts[..|acts| - 1], key)
  {
    var n := |acts| - 1;
    if k :| Oldest(acts[..n], key, k) {
      NoSetPrefix(acts, k, n, key, n);
      assert WaitAt(acts, k, key) && NoSet(acts, k, n, key);
    }
    if !Oldest(acts, key, n) {
      var j: nat :| j < n && WaitAt(acts, j, key) && NoSet(acts, j, n, key);
      var k := FirstWait(acts, key, j, n);
    }
  }

  /** Going back to the oldest. */
  lemma {:induction false} FirstWait(acts: seq<Act>, key: nat, j: nat, n: nat) returns (k: nat)
    requires j < n <= |acts| && WaitAt(acts, j, key) && NoSet(acts, j, n, key)
    ensures k <= j && Oldest(acts[..n], key, k)
    decreases j
  {
    if i: nat :| i < j && WaitAt(acts, i, key) && NoSet(acts, i, j, key) {
      assert NoSet(acts, i, n, key) by {
        forall m: nat | i <= m < n ensures !SetAt(acts, m, key) { if m < j { assert !SetAt(acts, m, key); } }
      }
      k := FirstWait(acts, key, i, n);
    } else {
      k := j;
      NoSetPrefix(acts, j, n, key, n);
      forall i: nat | i < j && WaitAt(acts[..n], i, key) ensures !NoSet(acts[..n], i, j, key) {
        NoSetPrefix(acts, i, j, key, n);
        assert WaitAt(acts, i, key);
      }
      assert WaitAt(acts[..n], j, key);
    }
  }

  /** What the map says about a key is what the run says. */
  ghost predicate MapIs(n: nat, acts: seq<Act>, key: nat)
    requires Run(n, acts).Some?
  {
    var s := Run(n, acts).value;
    && (key in s.tcs <==> HasOldest(acts, key))
    && forall k :: Oldest(acts, key, k) ==> s.tcs[key] == WaitNo(n, acts, k)
  }

  lemma WaitNoPrefix(n: nat, acts: seq<Act>, k: nat, m: nat)
    requires k <= m <= |acts|
    ensures WaitNo(n, acts[..m], k) == WaitNo(n, acts, k)
  {
    assert acts[..m][..k] == acts[..k];
  }

  /** A step that is neither a wait nor a set under the key. */
  lemma MapOther(n: nat, acts: seq<Act>, key: nat)
    requires acts != [] && Run(n, acts).Some? && Run(n, acts[..|acts| - 1]).Some? && MapIs(n, acts[..|acts| - 1], key)
    requires !WaitAt(acts, |acts| - 1, key) && !SetAt(acts, |acts| - 1, key)
    ensures MapIs(n, acts, key)
  {
    var m := |acts| - 1;
    forall k ensures Oldest(acts, key, k) <==> Oldest(acts[..m], key, k) { OldestStep(acts, key, k); }
    forall k | Oldest(acts, key, k) ensures WaitNo(n, acts[..m], k) == WaitNo(n, acts, k) {
      WaitNoPrefix(n, acts, k, m);
    }
  }

  lemma MapSet(n: nat, acts: seq<Act>, key: nat)
    requires acts != [] && Run(n, acts).Some? && Run(n, acts[..|acts| - 1]).Some? && SetAt(acts, |acts| - 1, key)
    ensures MapIs(n, acts, key)
  {
    forall k ensures !Oldest(acts, key, k) { OldestStep(acts, key, k); }
  }

  /** A wait while the key has an entry: the oldest wait stays the same. */
  lemma MapRefused(n: nat, acts: seq<Act>, key: nat)
    requires acts != [] && Run(n, acts).Some? && Run(n, acts[..|acts| - 1]).Some? && MapIs(n, acts[..|acts| - 1], key)
    requires WaitAt(acts, |acts| - 1, key) && HasOldest(acts[..|acts| - 1], key)
    ensures MapIs(n, acts, key)
  {
    var m := |acts| - 1;
    OldestLast(acts, key);
    var i :| Oldest(acts[..m], key, i);
    OldestStep(acts, key, i);
    forall k | Oldest(acts, key, k) ensures k == i {
      if k < i { OldestUnique(acts, key, k, i); } else { OldestUnique(acts, key, i, k); }
    }
    WaitNoPrefix(n, acts, i, m);
  }

  lemma MapEntered(n: nat, acts: seq<Act>, key: nat)
    requires acts != [] && Run(n, acts).Some? && Run(n, acts[..|acts| - 1]).Some? && MapIs(n, acts[..|acts| - 1], key)
    requires WaitAt(acts, |acts| - 1, key) && !HasOldest(acts[..|acts| - 1], key)
    ensures MapIs(n, acts, key)
  {
    var m := |acts| - 1;
    OldestLast(acts, key);
    forall k | Oldest(acts, key, k) ensures k == m { OldestStep(acts, key, k); }
    assert WaitNo(n, acts, m) == |Run(n, acts[..m]).value.waits|;
  }

  /** In every run the map holds, for each key, exactly the oldest wait since the last set. */
  lemma {:induction false} MapExact(n: nat, acts: seq<Act>, key: nat)
    requires Run(n, acts).Some?
    ensures MapIs(n, acts, key)
    decreases |acts|
  {
    if acts != [] {
      var m := |acts| - 1;
      MapExact(n, acts[..m], key);
      if WaitAt(acts, m, key) {
        if HasOldest(acts[..m], key) { MapRefused(n, acts, key); } else { MapEntered(n, acts, key); }
      }
      else if SetAt(acts, m, key) { MapSet(n, acts, key); }
      else { MapOther(n, acts, key); }
    }
  }

  // ----- what a set event names

  /** Step m sets the key when step k is its oldest wait, the wait event w. */
  ghost predicate Takes(n: nat, acts: seq<Act>, key: nat, w: nat, m: nat, k: nat) {
    k < m < |acts| && SetAt(acts, m, key) && Oldest(acts[..m], key, k) && w == WaitNo(n, acts, k)
  }

  ghost predicate Taken(n: nat, acts: seq<Act>, key: nat, w: nat) {
    exists m: nat, k: nat :: Takes(n, acts, key, w, m, k)
  }

  lemma TakenExtend(n: nat, acts: seq<Act>, key: nat, w: nat)
    requires acts != [] && Taken(n, acts[..|acts| - 1], key, w)
    ensures Taken(n, acts, key, w)
  {
    var p := |acts| - 1;
    var m: nat, k: nat :| Takes(n, acts[..p], key, w, m, k);
    assert acts[..p][..m] == acts[..m];
    WaitNoPrefix(n, acts, k, p);
    assert Takes(n, acts, key, w, m, k);
  }

  /** The step that takes an entry out of the map. */
  lemma SetTakes(n: nat, acts: seq<Act>, key: nat)
    requires acts != [] && Run(n, acts[..|acts| - 1]).Some? && SetAt(acts, |acts| - 1, key)
    requires key in Run(n, acts[..|acts| - 1]).value.tcs
    ensures Taken(n, acts, key, Run(n, acts[..|acts| - 1]).value.tcs[key])
  {
    var m := |acts| - 1;
    MapExact(n, acts[..m], key);
    var k :| Oldest(acts[..m], key, k);
    WaitNoPrefix(n, acts, k, m);
    assert Takes(n, acts, key, Run(n, acts[..m]).value.tcs[key], m, k);
  }

  ghost predicate ThreadTook(n: nat, acts: seq<Act>, pc: Pc) {
    pc.Setting? && pc.found.Some? ==> Taken(n, acts, pc.key, pc.found.value)
  }

  ghost predicate AllTaken(n: nat, acts: seq<Act>, s: Sync) {
    && (forall t :: 0 <= t < |s.threads| ==> ThreadTook(n, acts, s.threads[t]))
    && (forall i :: 0 <= i < |s.sets| ==> Taken(n, acts, s.sets[i].key, s.sets[i].wait))
  }

  lemma {:induction false} RunTaken(n: nat, acts: seq<Act>)
    requires Run(n, acts).Some?
    ensures AllTaken(n, acts, Run(n, acts).value)
    decreases |acts|
  {
    if acts != [] {
      var m := |acts| - 1;
      RunTaken(n, acts[..m]);
      StepTaken(n, acts, Run(n, acts[..m]).value, Run(n, acts).value);
    }
  }

  lemma StepTaken(n: nat, acts: seq<Act>, s: Sync, s': Sync)
    requires acts != [] && Run(n, acts[..|acts| - 1]) == Some(s) && Run(n, acts) == Some(s')
    requires AllTaken(n, acts[..|acts| - 1], s)
    ensures AllTaken(n, acts, s')
  {
    var a := acts[|acts| - 1];
    forall t | 0 <= t < |s.threads| ensures ThreadTook(n, acts, s.threads[t]) {
      var pc := s.threads[t];
      assert ThreadTook(n, acts[..|acts| - 1], pc);
      if pc.Setting? && pc.found.Some? { TakenExtend(n, acts, pc.key, pc.found.value); }
    }
    forall i | 0 <= i < |s.sets| ensures Taken(n, acts, s.sets[i].key, s.sets[i].wait) {
      TakenExtend(n, acts, s.sets[i].key, s.sets[i].wait);
    }
    if a.SetMap? && a.key in s.tcs { SetTakes(n, acts, a.key); }
    assert ThreadTook(n, acts, s.threads[a.t]);
  }

  /** Over every interleaving: a set event names the wait that was, when its key was set, the oldest
      one entered under that key since the set before; and no wait is named by two set events. */
  lemma MatchedAtMostOnce(n: nat, acts: seq<Act>, i: nat, j: nat)
    requires Run(n, acts).Some? && i < |Run(n, acts).value.sets| && j < |Run(n, acts).value.sets|
    ensures var s := Run(n, acts).value;
            && Taken(n, acts, s.sets[i].key, s.sets[i].wait)
            && s.sets[i].wait < |s.waits| && s.waits[s.sets[i].wait] == s.sets[i].key
            && (i != j ==> s.sets[i].wait != s.sets[j].wait)
  {
    RunTaken(n, acts);
    RunInv(n, acts);
    assert SetOk(Run(n, acts).value, i);
  }

  lemma NoneBefore(acts: seq<Act>, key: nat, k: nat)
    requires Oldest(acts, key, k)
    ensures !HasOldest(acts[..k], key)
  {
    forall i ensures !Oldest(acts[..k], key, i) { NoSetPrefix(acts, i, k, key, k); }
  }

  /** The oldest wait was not refused by the map: nothing was there under its key. */
  lemma OldestEntered(n: nat, acts: seq<Act>, key: nat, k: nat)
    requires Run(n, acts).Some? && Oldest(acts, key, k)
    ensures Run(n, acts[..k]).Some? && key !in Run(n, acts[..k]).value.tcs
  {
    RunPrefix(n, acts, k);
    MapExact(n, acts[..k], key);
    NoneBefore(acts, key, k);
  }

  // ----- when a set names a given wait

  lemma RunLast(n: nat, acts: seq<Act>, a: Act)
    requires Run(n, acts + [a]).Some?
    ensures Run(n, acts).Some? && Enabled(Run(n, acts).value, a)
    ensures Run(n, acts + [a]).value == Step(Run(n, acts).value, a)
  {
    assert (acts + [a])[..|acts|] == acts;
  }

  /** An entry stays until its key is set. */
  lemma {:induction false} EntryStays(n: nat, acts: seq<Act>, mid: seq<Act>, key: nat)
    requires Run(n, acts + mid).Some? && NoSet(mid, 0, |mid|, key)
    ensures Run(n, acts).Some?
    ensures key in Run(n, acts).value.tcs ==>
              key in Run(n, acts + mid).value.tcs && Run(n, acts + mid).value.tcs[key] == Run(n, acts).value.tcs[key]
    decreases |mid|
  {
    if mid == [] {
      assert acts + mid == acts;
    } else {
      var m := |mid| - 1;
      assert acts + mid == (acts + mid[..m]) + [mid[m]];
      RunLast(n, acts + mid[..m], mid[m]);
      NoSetPrefix(mid, 0, m, key, m);
      EntryStays(n, acts, mid[..m], key);
      assert !SetAt(mid, m, key);
    }
  }

  /** A wait, then any steps of any threads without a set under its key, then such a set: the set
      finds this wait if and only if the map had no older entry when the wait was entered; otherwise
      it finds the older one. */
  lemma NextSetNames(n: nat, acts: seq<Act>, t: nat, key: nat, mid: seq<Act>, u: nat)
    requires NoSet(mid, 0, |mid|, key)
    requires Run(n, ((acts + [WaitMap(t, key)]) + mid) + [SetMap(u, key)]).Some?
    ensures Run(n, acts).Some? && u < n
    ensures var s := Run(n, acts).value;
            var s' := Run(n, ((acts + [WaitMap(t, key)]) + mid) + [SetMap(u, key)]).value;
            && u < |s'.threads|
            && s'.threads[u] == Setting(key, Some(if key in s.tcs then s.tcs[key] else |s.waits|))
            && (s'.threads[u] == Setting(key, Some(|s.waits|)) <==> key !in s.tcs)
  {
    var waited := acts + [WaitMap(t, key)];
    RunLast(n, waited + mid, SetMap(u, key));
    EntryStays(n, waited, mid, key);
    RunLast(n, acts, WaitMap(t, key));
    RunThreads(n, acts);
    RunThreads(n, waited + mid);
    RunInv(n, acts);
    if key in Run(n, acts).value.tcs { assert EntryOk(Run(n, acts).value, key); }
  }

  lemma {:induction false} RunThreads(n: nat, acts: seq<Act>)
    requires Run(n, acts).Some?
    ensures |Run(n, acts).value.threads| == n
    decreases |acts|
  {
    if acts != [] { RunThreads(n, acts[..|acts| - 1]); }
  }

  lemma RunPush(n: nat, acts: seq<Act>, a: Act, s: Sync)
    requires Run(n, acts) == Some(s) && Enabled(s, a)
    ensures Run(n, acts + [a]) == Some(Step(s, a))
  {
    assert (acts + [a])[..|acts|] == acts;
  }

  /** A whole wait of a thread, run after acts. */
  lemma WaitRuns(n: nat, acts: seq<Act>, t: nat, key: nat, s: Sync)
    requires Run(n, acts) == Some(s) && t < |s.threads| && s.threads[t].Idle? && key != 0
    ensures var w := |s.waits|;
            Run(n, acts + [WaitMap(t, key)] + [WaitPush(t)]) ==
            Some(s.(waits := s.waits + [key], tcs := if key in s.tcs then s.tcs else s.tcs[key := w],
                    recorded := s.recorded + [w]))
  {
    RunPush(n, acts, WaitMap(t, key), s);
    var s1 := Step(s, WaitMap(t, key));
    RunPush(n, acts + [WaitMap(t, key)], WaitPush(t), s1);
    assert s.threads[t := Waiting(|s.waits|)][t := Idle] == s.threads;
  }

  /** A whole set under a key that has an entry. */
  lemma SetRuns(n: nat, acts: seq<Act>, t: nat, key: nat, s: Sync)
    requires Run(n, acts) == Some(s) && t < |s.threads| && s.threads[t].Idle? && key != 0 && key in s.tcs
    ensures Run(n, acts + [SetMap(t, key)] + [SetPush(t)]) ==
            Some(s.(tcs := s.tcs - {key}, sets := s.sets + [SetEvent(key, s.tcs[key])]))
  {
    RunPush(n, acts, SetMap(t, key), s);
    var s1 := Step(s, SetMap(t, key));
    RunPush(n, acts + [SetMap(t, key)], SetPush(t), s1);
    assert s.threads[t := Setting(key, Some(s.tcs[key]))][t := Idle] == s.threads;
  }

  /** Thread 0 waits twice under one key with no set in between, then thread 1 sets the key. */
  function WaitsTwice(): seq<Act> {
    [] + [WaitMap(0, 7)] + [WaitPush(0)] + [WaitMap(0, 7)] + [WaitPush(0)] + [SetMap(1, 7)] + [SetPush(1)]
  }

  /** The set event names the older wait, number 0, and not the latest, number 1. */
  lemma OlderNamed()
    ensures Run(2, WaitsTwice()).Some?
    ensures var s := Run(2, WaitsTwice()).value; s.waits == [7, 7] && s.recorded == [0, 1] && s.sets == [SetEvent(7, 0)]
  {
    var s0 := Init(2);
    WaitRuns(2, [], 0, 7, s0);
    var s1 := s0.(waits := s0.waits + [7], tcs := s0.tcs[7 := 0], recorded := s0.recorded + [0]);
    var first := [] + [WaitMap(0, 7)] + [WaitPush(0)];
    WaitRuns(2, first, 0, 7, s1);
    var s2 := s1.(waits := s1.waits + [7], recorded := s1.recorded + [1]);
    SetRuns(2, first + [WaitMap(0, 7)] + [WaitPush(0)], 1, 7, s2);
  }
}
