/** The thread registry of logger/src/store.cpp: which record a thread's events go to, and how
    records move from the live map to the finished list.

    Each lock-protected section is one step, so other threads may act between the read_unlock
    after a failed lookup and the write_lock that inserts. `home` is history: the record each
    event went to. */
module Registry {
  import opened Options

  /** A record (sgxperf::Thread): its id is its position; events are numbered by acceptance. */
  datatype Rec = Rec(pthread: nat, events: seq<nat>)

  datatype Pc =
    | Ready
    | SelfMissed               // the lookup of the own record failed
    | OtherMissed(other: nat)  // the lookup of a created thread's record failed
    | Gone                     // the thread has ended

  /** A running thread; tls is its thread-local pointer to its record. */
  datatype Actor = Actor(pthread: nat, tls: Option<nat>, destroyed: bool, pc: Pc)

  datatype Reg = Reg(live: map<nat, nat>, finished: seq<nat>, recs: seq<Rec>, actors: seq<Actor>, home: seq<nat>)

  datatype Act =
    | Start(pthread: nat)              // the system starts a thread under an id not in use
    | LookupSelf(a: nat)
    | InsertSelf(a: nat)
    | Push(a: nat)
    | LookupOther(a: nat, other: nat)  // a ThreadCreatorEvent names a new thread
    | InsertOther(a: nat)
    | Destroy(a: nat)                  // a ThreadDestructionEvent
    | End(a: nat)

  const EMPTY := Reg(map[], [], [], [], [])

  predicate Running(reg: Reg, a: nat) { a < |reg.actors| && !reg.actors[a].pc.Gone? }

  predicate Enabled(reg: Reg, act: Act) {
    match act
    case Start(p) => forall b :: 0 <= b < |reg.actors| && Running(reg, b) ==> reg.actors[b].pthread != p
    case LookupSelf(a) => a < |reg.actors| && reg.actors[a].pc.Ready? && reg.actors[a].tls.None?
    case InsertSelf(a) => a < |reg.actors| && reg.actors[a].pc.SelfMissed?
    case Push(a) => a < |reg.actors| && reg.actors[a].pc.Ready? && reg.actors[a].tls.Some?
                    && reg.actors[a].tls.value < |reg.recs|
    case LookupOther(a, _) => a < |reg.actors| && reg.actors[a].pc.Ready?
    case InsertOther(a) => a < |reg.actors| && reg.actors[a].pc.OtherMissed?
    case Destroy(a) => a < |reg.actors| && reg.actors[a].pc.Ready?
                       && reg.actors[a].tls.Some? && !reg.actors[a].destroyed
    case End(a) => a < |reg.actors| && reg.actors[a].pc.Ready?
  }

  function SetActor(reg: Reg, a: nat, actor: Actor): Reg
    requires a < |reg.actors|
  {
    reg.(actors := reg.actors[a := actor])
  }

  /** Under the write lock: a record is always constructed and numbered, but kept only if the map
      has none for this thread yet. */
  function Register(reg: Reg, p: nat): Reg {
    reg.(recs := reg.recs + [Rec(p, [])], live := if p in reg.live then reg.live else reg.live[p := |reg.recs|])
  }

  function Step(reg: Reg, act: Act): Reg
    requires Enabled(reg, act)
  {
    match act
    case Start(p) => reg.(actors := reg.actors + [Actor(p, None, false, Ready)])
    case LookupSelf(a) =>
      var me := reg.actors[a];
      SetActor(reg, a, if me.pthread in reg.live then me.(tls := Some(reg.live[me.pthread])) else me.(pc := SelfMissed))
    case InsertSelf(a) =>
      var me := reg.actors[a];
      var reg' := Register(reg, me.pthread);
      SetActor(reg', a, me.(tls := Some(reg'.live[me.pthread]), pc := Ready))
    case Push(a) =>
      var r := reg.actors[a].tls.value;
      reg.(recs := reg.recs[r := reg.recs[r].(events := reg.recs[r].events + [|reg.home|])], home := reg.home + [r])
    case LookupOther(a, p) => if p in reg.live then reg else SetActor(reg, a, reg.actors[a].(pc := OtherMissed(p)))
    case InsertOther(a) => SetActor(Register(reg, reg.actors[a].pc.other), a, reg.actors[a].(pc := Ready))
    case Destroy(a) =>
      var me := reg.actors[a];
      SetActor(reg, a, me.(destroyed := true)).(live := reg.live - {me.pthread},
                                               finished := reg.finished + [me.tls.value])
    case End(a) => SetActor(reg, a, reg.actors[a].(pc := Gone))
  }

  // ----- the invariant

  /** The live map files each record under its own pthread id, and not also as finished. */
  predicate LiveOk(reg: Reg, p: nat)
    requires p in reg.live
  {
    reg.live[p] < |reg.recs| && reg.recs[reg.live[p]].pthread == p && reg.live[p] !in reg.finished
  }

  predicate IsLive(reg: Reg, r: nat)
    requires r < |reg.recs|
  {
    reg.recs[r].pthread in reg.live && reg.live[reg.recs[r].pthread] == r
  }

  /** Record r is filed under this pthread id. */
  predicate Own(reg: Reg, r: nat, pthread: nat) { r < |reg.recs| && reg.recs[r].pthread == pthread }

  /** A running thread's record is the live one of its id until it is destroyed. */
  predicate ActorOk(reg: Reg, a: nat)
    requires a < |reg.actors|
  {
    var me := reg.actors[a];
    && (me.tls.None? ==> !me.destroyed) && (me.pc.SelfMissed? ==> me.tls.None?)
    && (me.tls.Some? ==> Own(reg, me.tls.value, me.pthread))
    && (me.tls.Some? && !me.pc.Gone? ==>
      if me.destroyed then me.tls.value in reg.finished
      else me.pthread in reg.live && reg.live[me.pthread] == me.tls.value)
  }

  /** The events with home r, in order. */
  function Homed(home: seq<nat>, r: nat): seq<nat> {
    if home == [] then []
    else Homed(home[..|home| - 1], r) + if home[|home| - 1] == r then [|home| - 1] else []
  }

  predicate RecOk(reg: Reg, r: nat)
    requires r < |reg.recs|
  {
    && reg.recs[r].events == Homed(reg.home, r)
    && (reg.recs[r].events != [] ==> r in reg.finished || IsLive(reg, r))
  }

  ghost predicate Inv(reg: Reg) {
    && (forall p :: p in reg.live ==> LiveOk(reg, p))
    && (forall i :: 0 <= i < |reg.finished| ==> reg.finished[i] < |reg.recs|)
    && (forall i, j :: 0 <= i < j < |reg.finished| ==> reg.finished[i] != reg.finished[j])
    && (forall a :: 0 <= a < |reg.actors| ==> ActorOk(reg, a))
    && (forall a, b :: 0 <= a < b < |reg.actors| && Running(reg, a) && Running(reg, b) ==>
          reg.actors[a].pthread != reg.actors[b].pthread)
    && (forall r :: 0 <= r < |reg.recs| ==> RecOk(reg, r))
    && (forall k :: 0 <= k < |reg.home| ==> reg.home[k] < |reg.recs|)
  }

  // ----- every step keeps it

  lemma HomedSnoc(home: seq<nat>, x: nat, r: nat)
    ensures Homed(home + [x], r) == Homed(home, r) + if x == r then [|home|] else []
  {
    assert (home + [x])[..|home|] == home;
  }

  /** A step that changes one thread's program point or pointer only. */
  lemma ActorStep(reg: Reg, a: nat, me: Actor)
    requires Inv(reg) && a < |reg.actors| && me.pthread == reg.actors[a].pthread
    requires reg.actors[a].pc.Gone? ==> me.pc.Gone?
    requires ActorOk(SetActor(reg, a, me), a)
    ensures Inv(SetActor(reg, a, me))
  {
    var reg' := SetActor(reg, a, me);
    forall p | p in reg'.live ensures LiveOk(reg', p) { assert LiveOk(reg, p); }
    forall b | 0 <= b < |reg'.actors| ensures ActorOk(reg', b) { assert ActorOk(reg, b); }
    forall r | 0 <= r < |reg'.recs| ensures RecOk(reg', r) { assert RecOk(reg, r); }
    assert forall b: nat :: Running(reg', b) ==> Running(reg, b) && reg'.actors[b].pthread == reg.actors[b].pthread;
  }

  lemma StartInv(reg: Reg, p: nat)
    requires Inv(reg) && Enabled(reg, Start(p))
    ensures Inv(Step(reg, Start(p)))
  {
    var reg' := Step(reg, Start(p));
    forall q | q in reg'.live ensures LiveOk(reg', q) { assert LiveOk(reg, q); }
    forall b | 0 <= b < |reg'.actors| ensures ActorOk(reg', b) { assert b < |reg.actors| ==> ActorOk(reg, b); }
    forall r | 0 <= r < |reg'.recs| ensures RecOk(reg', r) { assert RecOk(reg, r); }
    assert forall b :: 0 <= b < |reg.actors| ==> (Running(reg', b) <==> Running(reg, b));
  }

  /** The write-locked insertion, however much has happened since the lookup. */
  lemma RegisterInv(reg: Reg, p: nat)
    requires Inv(reg)
    ensures Inv(Register(reg, p)) && p in Register(reg, p).live
  {
    var reg' := Register(reg, p);
    forall q | q in reg'.live ensures LiveOk(reg', q) { assert q in reg.live ==> LiveOk(reg, q); }
    forall b | 0 <= b < |reg'.actors| ensures ActorOk(reg', b) { assert ActorOk(reg, b); }
    forall r | 0 <= r < |reg'.recs| ensures RecOk(reg', r) {
      if r < |reg.recs| { assert RecOk(reg, r); } else { NoHome(reg.home, r); }
    }
    assert forall b: nat :: Running(reg', b) <==> Running(reg, b);
  }

  lemma {:induction false} NoHome(home: seq<nat>, r: nat)
    requires forall k :: 0 <= k < |home| ==> home[k] < r
    ensures Homed(home, r) == []
  {
    if home != [] { NoHome(home[..|home| - 1], r); }
  }

  lemma PushInv(reg: Reg, a: nat)
    requires Inv(reg) && Enabled(reg, Push(a))
    ensures Inv(Step(reg, Push(a)))
  {
    var reg' := Step(reg, Push(a));
    var x := reg.actors[a].tls.value;
    assert ActorOk(reg, a);
    forall q | q in reg'.live ensures LiveOk(reg', q) { assert LiveOk(reg, q); }
    forall b | 0 <= b < |reg'.actors| ensures ActorOk(reg', b) { assert ActorOk(reg, b); }
    forall r | 0 <= r < |reg'.recs| ensures RecOk(reg', r) {
      assert RecOk(reg, r);
      HomedSnoc(reg.home, x, r);
      if r == x && x !in reg.finished { assert LiveOk(reg, reg.actors[a].pthread); }
    }
    assert forall b: nat :: Running(reg', b) <==> Running(reg, b);
  }

  lemma DestroyInv(reg: Reg, a: nat)
    requires Inv(reg) && Enabled(reg, Destroy(a))
    ensures Inv(Step(reg, Destroy(a)))
  {
    var reg' := Step(reg, Destroy(a));
    var me := reg.actors[a];
    assert ActorOk(reg, a);
    assert LiveOk(reg, me.pthread);
    assert reg'.finished[|reg.finished|] == me.tls.value;
    forall q | q in reg'.live ensures LiveOk(reg', q) { assert LiveOk(reg, q); }
    forall b | 0 <= b < |reg'.actors| ensures ActorOk(reg', b) { DestroyActor(reg, a, b); }
    forall r | 0 <= r < |reg'.recs| ensures RecOk(reg', r) {
      assert RecOk(reg, r);
      if IsLive(reg, r) && reg.recs[r].pthread == me.pthread { assert r in reg'.finished; }
    }
    assert forall b: nat :: Running(reg', b) <==> Running(reg, b);
  }

  lemma DestroyActor(reg: Reg, a: nat, b: nat)
    requires Inv(reg) && Enabled(reg, Destroy(a)) && b < |reg.actors|
    ensures ActorOk(Step(reg, Destroy(a)), b)
  {
    assert ActorOk(reg, a) && ActorOk(reg, b);
    var reg' := Step(reg, Destroy(a));
    assert reg'.finished[|reg.finished|] == reg.actors[a].tls.value;
    if b != a && Running(reg, b) {
      assert Running(reg, a);
      assert reg.actors[a].pthread != reg.actors[b].pthread;
    }
  }

  lemma StepInv(reg: Reg, act: Act)
    requires Inv(reg) && Enabled(reg, act)
    ensures Inv(Step(reg, act))
  {
    match act
    case Start(p) => StartInv(reg, p);
    case LookupSelf(a) =>
      assert ActorOk(reg, a);
      ActorStep(reg, a, Step(reg, act).actors[a]);
    case InsertSelf(a) =>
      var p := reg.actors[a].pthread;
      assert ActorOk(reg, a);
      RegisterInv(reg, p);
      ActorStep(Register(reg, p), a, Step(reg, act).actors[a]);
    case Push(a) => PushInv(reg, a);
    case LookupOther(a, p) =>
      assert ActorOk(reg, a);
      ActorStep(reg, a, Step(reg, act).actors[a]);
    case InsertOther(a) =>
      RegisterInv(reg, reg.actors[a].pc.other);
      var reg' := Register(reg, reg.actors[a].pc.other);
      assert ActorOk(reg', a);
      ActorStep(reg', a, Step(reg, act).actors[a]);
    case Destroy(a) => DestroyInv(reg, a);
    case End(a) =>
      assert ActorOk(reg, a);
      ActorStep(reg, a, Step(reg, act).actors[a]);
  }

  /** The registry after a run, or None if some step was not enabled. */
  ghost function Run(acts: seq<Act>): (r: Option<Reg>)
    decreases |acts|
  {
    if acts == [] then Some(EMPTY)
    else
      match Run(acts[..|acts| - 1])
      case None => None
      case Some(reg) => if Enabled(reg, acts[|acts| - 1]) then Some(Step(reg, acts[|acts| - 1])) else None
  }

  lemma {:induction false} RunInv(acts: seq<Act>)
    requires Run(acts).Some?
    ensures Inv(Run(acts).value)
    decreases |acts|
  {
    if acts != [] {
      RunInv(acts[..|acts| - 1]);
      StepInv(Run(acts[..|acts| - 1]).value, acts[|acts| - 1]);
    }
  }

  /** In every run: a record that received an event is either live, under its own pthread id, or
      finished, and not both; and it is finished at most once. */
  lemma OnePlace(reg: Reg, acts: seq<Act>, r: nat)
    requires Run(acts) == Some(reg) && r < |reg.recs| && reg.recs[r].events != []
    ensures (r in reg.finished) != IsLive(reg, r)
    ensures multiset(reg.finished)[r] <= 1
  {
    RunInv(acts);
    assert RecOk(reg, r);
    if IsLive(reg, r) { assert LiveOk(reg, reg.recs[r].pthread); }
    DistinctOnce(reg.finished, r);
  }

  lemma {:induction false} DistinctOnce(s: seq<nat>, x: nat)
    requires forall i, j :: 0 <= i < j < |s| ==> s[i] != s[j]
    ensures multiset(s)[x] == if x in s then 1 else 0
  {
    if s != [] {
      var n := |s| - 1;
      DistinctOnce(s[..n], x);
      assert s == s[..n] + [s[n]];
    }
  }

  // ----- finalize

  /** The live records in the order the map yields them. */
  ghost predicate Lists(order: seq<nat>, live: map<nat, nat>) {
    && (forall r :: r in order <==> r in live.Values)
    && (forall i, j :: 0 <= i < j < |order| ==> order[i] != order[j])
  }

  function Finalize(reg: Reg, order: seq<nat>): Reg {
    reg.(live := map[], finished := reg.finished + order)
  }

  /** All queues of the listed records, one after the other, as create_summary walks them. */
  function Flushed(recs: seq<Rec>, ids: seq<nat>): seq<nat>
    requires forall i :: 0 <= i < |ids| ==> ids[i] < |recs|
  {
    if ids == [] then [] else Flushed(recs, ids[..|ids| - 1]) + recs[ids[|ids| - 1]].events
  }

  lemma {:induction false} HomedOnce(home: seq<nat>, r: nat, k: nat)
    ensures multiset(Homed(home, r))[k] == if k < |home| && home[k] == r then 1 else 0
  {
    if home != [] {
      var n := |home| - 1;
      HomedOnce(home[..n], r, k);
      var before := Homed(home[..n], r);
      assert home[n] == r ==> Homed(home, r) == before + [n];
      assert home[n] != r ==> Homed(home, r) == before;
    }
  }

  lemma CountConcat(a: seq<nat>, b: seq<nat>, k: nat)
    ensures multiset(a + b)[k] == multiset(a)[k] + multiset(b)[k]
  {
  }

  predicate QueueIs(recs: seq<Rec>, home: seq<nat>, r: nat)
    requires r < |recs|
  {
    recs[r].events == Homed(home, r)
  }

  lemma InSnoc(ids: seq<nat>, x: nat)
    requires ids != []
    ensures x in ids <==> x in ids[..|ids| - 1] || x == ids[|ids| - 1]
  {
  }

  lemma {:induction false} FlushedOnce(recs: seq<Rec>, home: seq<nat>, ids: seq<nat>, k: nat)
    requires forall r :: 0 <= r < |recs| ==> QueueIs(recs, home, r)
    requires forall i :: 0 <= i < |ids| ==> ids[i] < |recs|
    requires forall i, j :: 0 <= i < j < |ids| ==> ids[i] != ids[j]
    ensures multiset(Flushed(recs, ids))[k] == if k < |home| && home[k] in ids then 1 else 0
  {
    if ids != [] {
      var n := |ids| - 1;
      var r := ids[n];
      FlushedOnce(recs, home, ids[..n], k);
      assert QueueIs(recs, home, r);
      HomedOnce(home, r, k);
      CountConcat(Flushed(recs, ids[..n]), recs[r].events, k);
      if k < |home| { InSnoc(ids, home[k]); }
    }
  }

  lemma FinalizedList(reg: Reg, order: seq<nat>)
    requires Inv(reg) && Lists(order, reg.live)
    ensures var f := Finalize(reg, order).finished;
            && (forall i :: 0 <= i < |f| ==> f[i] < |reg.recs|)
            && (forall i, j :: 0 <= i < j < |f| ==> f[i] != f[j])
  {
    forall r | r in order ensures r < |reg.recs| && r !in reg.finished {
      assert r in reg.live.Values;
      var p :| p in reg.live && reg.live[p] == r;
      assert LiveOk(reg, p);
    }
    assert forall i :: 0 <= i < |order| ==> order[i] in order;
  }

  /** How many events the threads pushed in a run. */
  function Pushes(acts: seq<Act>): nat {
    if acts == [] then 0 else Pushes(acts[..|acts| - 1]) + if acts[|acts| - 1].Push? then 1 else 0
  }

  lemma {:induction false} AllAccepted(acts: seq<Act>)
    requires Run(acts).Some?
    ensures |Run(acts).value.home| == Pushes(acts)
    decreases |acts|
  {
    if acts != [] { AllAccepted(acts[..|acts| - 1]); }
  }

  /** In every run, after finalize, in whatever order the map is walked: the events flushed are those
      that were pushed, each exactly once. */
  lemma NothingLost(reg: Reg, acts: seq<Act>, order: seq<nat>, k: nat)
    requires Run(acts) == Some(reg) && Lists(order, reg.live)
    ensures var f := Finalize(reg, order).finished;
            && (forall i :: 0 <= i < |f| ==> f[i] < |reg.recs|)
            && multiset(Flushed(reg.recs, f))[k] == if k < Pushes(acts) then 1 else 0
  {
    RunInv(acts);
    AllAccepted(acts);
    FinalizedList(reg, order);
    var f := Finalize(reg, order).finished;
    forall r | 0 <= r < |reg.recs| ensures QueueIs(reg.recs, reg.home, r) { assert RecOk(reg, r); }
    FlushedOnce(reg.recs, reg.home, f, k);
    if k < |reg.home| { HomeListed(reg, order, k); }
  }

  lemma EmptyOrHas(s: seq<nat>)
    ensures s == [] || exists r :: r in s
  {
    if s != [] { assert s[0] in s; }
  }

  /** After finalize no record is live: all that were are finished, and finalizing again changes nothing. */
  lemma FinalizedOnce(reg: Reg, order: seq<nat>, again: seq<nat>)
    requires Lists(order, reg.live) && Lists(again, Finalize(reg, order).live)
    ensures forall r :: r in reg.live.Values ==> r in Finalize(reg, order).finished
    ensures forall r :: 0 <= r < |reg.recs| ==> !IsLive(Finalize(reg, order), r)
    ensures Finalize(Finalize(reg, order), again) == Finalize(reg, order)
  {
    EmptyOrHas(again);
  }

  lemma HomeListed(reg: Reg, order: seq<nat>, k: nat)
    requires Inv(reg) && Lists(order, reg.live) && k < |reg.home|
    ensures reg.home[k] in reg.finished + order
  {
    var r := reg.home[k];
    assert RecOk(reg, r);
    HomedOnce(reg.home, r, k);
    if IsLive(reg, r) { assert r in reg.live.Values; }
  }

  // ----- each event is with the thread that pushed it

  /** Accepted events stay where they went, and records keep their thread. */
  ghost predicate Grows(reg: Reg, reg': Reg) {
    && |reg.home| <= |reg'.home| && reg'.home[..|reg.home|] == reg.home
    && (forall r: nat, p: nat :: Own(reg, r, p) ==> Own(reg', r, p))
  }

  lemma StepGrows(reg: Reg, act: Act)
    requires Enabled(reg, act)
    ensures Grows(reg, Step(reg, act))
  {
  }

  lemma {:induction false} RunGrows(acts: seq<Act>, j: nat)
    requires Run(acts).Some? && j <= |acts|
    ensures Run(acts[..j]).Some? && Grows(Run(acts[..j]).value, Run(acts).value)
    decreases |acts|
  {
    if j == |acts| {
      assert acts[..j] == acts;
    } else {
      var n := |acts| - 1;
      assert acts[..n][..j] == acts[..j];
      RunGrows(acts[..n], j);
      StepGrows(Run(acts[..n]).value, acts[n]);
      GrowsTrans(Run(acts[..j]).value, Run(acts[..n]).value, Run(acts).value);
    }
  }

  lemma GrowsTrans(a: Reg, b: Reg, c: Reg)
    requires Grows(a, b) && Grows(b, c)
    ensures Grows(a, c)
  {
    assert c.home[..|a.home|] == c.home[..|b.home|][..|a.home|];
  }

  /** In every run the event of each push is in the queue of a record of the thread that pushed it, and
      in no other. */
  lemma WithItsThread(reg: Reg, acts: seq<Act>, j: nat, r: nat)
    requires Run(acts) == Some(reg) && j < |acts| && acts[j].Push? && r < |reg.recs|
    requires Pushes(acts[..j]) in reg.recs[r].events
    ensures Run(acts[..j]).Some? && acts[j].a < |Run(acts[..j]).value.actors|
    ensures Own(reg, r, Run(acts[..j]).value.actors[acts[j].a].pthread)
  {
    RunGrows(acts, j);
    RunGrows(acts, j + 1);
    assert acts[..j + 1][..j] == acts[..j];
    var before, k := Run(acts[..j]).value, Pushes(acts[..j]);
    RunInv(acts[..j]);
    AllAccepted(acts[..j]);
    assert ActorOk(before, acts[j].a);
    assert reg.home[k] == reg.home[..k + 1][k] == before.actors[acts[j].a].tls.value;
    RunInv(acts);
    assert RecOk(reg, r);
    HomedOnce(reg.home, r, k);
  }
}
