/** Linking the thread that wakes to the thread that waited (logger/src/urts_calls.cpp:440-526).

    The map from waiter keys to wait events is guarded by a lock; recording the event happens
    outside it, so every wrapper is two steps and any number of threads interleave. */
module SyncEvents {
  import opened Options

  /** Between the locked section and the recording of the event. */
  datatype Pc = Idle | Waiting(wait: nat) | Setting(key: nat, found: Option<nat>)

  datatype SetEvent = SetEvent(key: nat, wait: nat)

  /** waits[w] is the key under which wait event w was constructed; `recorded` are the wait events
      pushed so far, `sets` the set events. */
  datatype Sync = Sync(waits: seq<nat>, tcs: map<nat, nat>, recorded: seq<nat>, sets: seq<SetEvent>, threads: seq<Pc>)

  datatype Act = WaitMap(t: nat, key: nat) | WaitPush(t: nat) | SetMap(t: nat, key: nat) | SetPush(t: nat)

  function Init(n: nat): Sync { Sync([], map[], [], [], seq(n, _ => Idle)) }

  predicate Enabled(s: Sync, a: Act) {
    && a.t < |s.threads|
    && match a
       case WaitMap(t, key) => s.threads[t].Idle? && key != 0
       case SetMap(t, key) => s.threads[t].Idle? && key != 0
       case WaitPush(t) => s.threads[t].Waiting?
       case SetPush(t) => s.threads[t].Setting?
  }

  function Step(s: Sync, a: Act): Sync
    requires Enabled(s, a)
  {
    match a
    case WaitMap(t, key) =>
      // std::map::insert keeps an entry that is already there
      var w := |s.waits|;
      s.(waits := s.waits + [key], tcs := if key in s.tcs then s.tcs else s.tcs[key := w],
         threads := s.threads[t := Waiting(w)])
    case WaitPush(t) => s.(recorded := s.recorded + [s.threads[t].wait], threads := s.threads[t := Idle])
    case SetMap(t, key) =>
      if key in s.tcs then s.(tcs := s.tcs - {key}, threads := s.threads[t := Setting(key, Some(s.tcs[key]))])
      else s.(threads := s.threads[t := Setting(key, None)])
    case SetPush(t) =>
      var pc := s.threads[t];
      var s' := s.(threads := s.threads[t := Idle]);
      if pc.found.Some? then s'.(sets := s.sets + [SetEvent(pc.key, pc.found.value)]) else s'
  }

  // ----- a wait event is in the map, or taken by one thread, or named by one set event

  predicate EntryOk(s: Sync, key: nat)
    requires key in s.tcs
  {
    s.tcs[key] < |s.waits| && s.waits[s.tcs[key]] == key
  }

  /** Thread t has taken wait w out of the map. */
  predicate Holds(s: Sync, t: nat, w: nat) {
    t < |s.threads| && s.threads[t].Setting? && s.threads[t].found == Some(w)
  }

  predicate TakenOk(s: Sync, t: nat)
    requires t < |s.threads|
  {
    s.threads[t].Setting? && s.threads[t].found.Some? ==>
      && s.threads[t].found.value < |s.waits| && s.waits[s.threads[t].found.value] == s.threads[t].key
      && !InMap(s, s.threads[t].found.value) && !Named(s, s.threads[t].found.value)
  }

  predicate SetOk(s: Sync, i: nat)
    requires i < |s.sets|
  {
    s.sets[i].wait < |s.waits| && s.waits[s.sets[i].wait] == s.sets[i].key && !InMap(s, s.sets[i].wait)
  }

  predicate InMap(s: Sync, w: nat) { w < |s.waits| && s.waits[w] in s.tcs && s.tcs[s.waits[w]] == w }

  predicate Named(s: Sync, w: nat) { exists i :: 0 <= i < |s.sets| && s.sets[i].wait == w }

  ghost predicate Inv(s: Sync) {
    && (forall key :: key in s.tcs ==> EntryOk(s, key))
    && (forall t :: 0 <= t < |s.threads| ==> TakenOk(s, t))
    && (forall t, u, w :: 0 <= t < u && Holds(s, t, w) ==> !Holds(s, u, w))
    && (forall i :: 0 <= i < |s.sets| ==> SetOk(s, i))
    && (forall i, j :: 0 <= i < j < |s.sets| ==> s.sets[i].wait != s.sets[j].wait)
  }

  lemma WaitMapInv(s: Sync, a: Act)
    requires Inv(s) && Enabled(s, a) && a.WaitMap?
    ensures Inv(Step(s, a))
  {
    var s' := Step(s, a);
    forall w: nat | w < |s.waits| ensures InMap(s', w) <==> InMap(s, w) { }
    forall w: nat ensures Named(s', w) <==> Named(s, w) { }
    forall key | key in s'.tcs ensures EntryOk(s', key) { assert key in s.tcs ==> EntryOk(s, key); }
    forall t | 0 <= t < |s'.threads| ensures TakenOk(s', t) { assert TakenOk(s, t); }
    forall i | 0 <= i < |s'.sets| ensures SetOk(s', i) { assert SetOk(s, i); }
    assert forall t: nat, w: nat :: Holds(s', t, w) ==> Holds(s, t, w);
  }

  lemma WaitPushInv(s: Sync, a: Act)
    requires Inv(s) && Enabled(s, a) && a.WaitPush?
    ensures Inv(Step(s, a))
  {
    var s' := Step(s, a);
    forall key | key in s'.tcs ensures EntryOk(s', key) { assert EntryOk(s, key); }
    forall t | 0 <= t < |s'.threads| ensures TakenOk(s', t) { assert TakenOk(s, t); }
    forall i | 0 <= i < |s'.sets| ensures SetOk(s', i) { assert SetOk(s, i); }
    assert forall t: nat, w: nat :: Holds(s', t, w) ==> Holds(s, t, w);
  }

  lemma SetMapInv(s: Sync, a: Act)
    requires Inv(s) && Enabled(s, a) && a.SetMap?
    ensures Inv(Step(s, a))
  {
    var s' := Step(s, a);
    if a.key in s.tcs {
      var w0 := s.tcs[a.key];
      assert EntryOk(s, a.key);
      assert InMap(s, w0);
      assert !Named(s, w0) by { forall i | 0 <= i < |s.sets| ensures s.sets[i].wait != w0 { assert SetOk(s, i); } }
      forall t: nat ensures !Holds(s, t, w0) { assert t < |s.threads| ==> TakenOk(s, t); }
    }
    forall w: nat ensures InMap(s', w) ==> InMap(s, w) { }
    forall w: nat ensures Named(s', w) <==> Named(s, w) { }
    forall key | key in s'.tcs ensures EntryOk(s', key) { assert EntryOk(s, key); }
    forall t | 0 <= t < |s'.threads| ensures TakenOk(s', t) { assert TakenOk(s, t); }
    forall i | 0 <= i < |s'.sets| ensures SetOk(s', i) { assert SetOk(s, i); }
    assert forall t: nat, w: nat :: Holds(s', t, w) && t != a.t ==> Holds(s, t, w);
  }

  lemma SetPushInv(s: Sync, a: Act)
    requires Inv(s) && Enabled(s, a) && a.SetPush?
    ensures Inv(Step(s, a))
  {
    var s' := Step(s, a);
    var pc := s.threads[a.t];
    assert TakenOk(s, a.t);
    forall key | key in s'.tcs ensures EntryOk(s', key) { assert EntryOk(s, key); }
    forall w: nat ensures Named(s', w) ==> Named(s, w) || pc.found == Some(w) { }
    forall t | 0 <= t < |s'.threads| ensures TakenOk(s', t) {
      assert TakenOk(s, t);
      if t != a.t && pc.found.Some? {
        assert Holds(s, a.t, pc.found.value);
        assert !Holds(s, t, pc.found.value);
      }
    }
    forall i | 0 <= i < |s'.sets| ensures SetOk(s', i) { assert i < |s.sets| ==> SetOk(s, i); }
    assert forall t: nat, w: nat :: Holds(s', t, w) ==> Holds(s, t, w);
  }

  lemma StepInv(s: Sync, a: Act)
    requires Inv(s) && Enabled(s, a)
    ensures Inv(Step(s, a))
  {
    match a
    case WaitMap(_, _) => WaitMapInv(s, a);
    case WaitPush(_) => WaitPushInv(s, a);
    case SetMap(_, _) => SetMapInv(s, a);
    case SetPush(_) => SetPushInv(s, a);
  }

  ghost function Run(n: nat, acts: seq<Act>): Option<Sync>
    decreases |acts|
  {
    if acts == [] then Some(Init(n))
    else
      match Run(n, acts[..|acts| - 1])
      case None => None
      case Some(s) => if Enabled(s, acts[|acts| - 1]) then Some(Step(s, acts[|acts| - 1])) else None
  }

  lemma {:induction false} RunInv(n: nat, acts: seq<Act>)
    requires Run(n, acts).Some?
    ensures Inv(Run(n, acts).value)
    decreases |acts|
  {
    if acts != [] {
      RunInv(n, acts[..|acts| - 1]);
      StepInv(Run(n, acts[..|acts| - 1]).value, acts[|acts| - 1]);
    } else {
      var s := Init(n);
      forall t | 0 <= t < |s.threads| ensures TakenOk(s, t) { }
      assert forall t: nat, w: nat :: !Holds(s, t, w);
    }
  }
}
