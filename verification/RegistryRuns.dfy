/** What the steps of a run do to the registry of logger/src/store.cpp:154-231, told from the run: how many
    threads, records and finished records there are, and that every running thread gets its record. */
module RegistryRuns {
  import opened Options
  import opened Registry

  /** The threads started, by their pthread ids. */
  function Started(acts: seq<Act>): seq<nat> {
    if acts == [] then []
    else Started(acts[..|acts| - 1]) + if acts[|acts| - 1].Start? then [acts[|acts| - 1].pthread] else []
  }

  /** Records are constructed by insertions, and only by them. */
  function Inserts(acts: seq<Act>): nat {
    if acts == [] then 0
    else
      var last := acts[|acts| - 1];
      Inserts(acts[..|acts| - 1]) + if last.InsertSelf? || last.InsertOther? then 1 else 0
  }

  function Destroys(acts: seq<Act>): nat {
    if acts == [] then 0 else Destroys(acts[..|acts| - 1]) + if acts[|acts| - 1].Destroy? then 1 else 0
  }

  ghost predicate ActorTold(reg: Reg, acts: seq<Act>, a: nat)
    requires a < |reg.actors|
  {
    && a < |Started(acts)| && reg.actors[a].pthread == Started(acts)[a]
    && (reg.actors[a].pc.Gone? <==> End(a) in acts)
    && (reg.actors[a].destroyed <==> Destroy(a) in acts)
  }

  lemma NotYet(acts: seq<Act>, a: nat)
    requires Run(acts).Some? && a >= |Run(acts).value.actors|
    ensures End(a) !in acts && Destroy(a) !in acts
    decreases |acts|
  {
    if acts != [] {
      var n := |acts| - 1;
      NotYet(acts[..n], a);
      assert acts == acts[..n] + [acts[n]];
    }
  }

  lemma {:induction false} ActorsStep(reg: Reg, before: seq<Act>, x: Act)
    requires Run(before) == Some(reg) && Enabled(reg, x) && |reg.actors| == |Started(before)|
    requires forall a :: 0 <= a < |reg.actors| ==> ActorTold(reg, before, a)
    ensures |Step(reg, x).actors| == |Started(before + [x])|
    ensures forall a :: 0 <= a < |Step(reg, x).actors| ==> ActorTold(Step(reg, x), before + [x], a)
  {
    var reg', acts := Step(reg, x), before + [x];
    assert acts[..|before|] == before;
    forall a | 0 <= a < |reg'.actors| ensures ActorTold(reg', acts, a) {
      if a < |reg.actors| { assert ActorTold(reg, before, a); } else { NotYet(before, a); }
    }
  }

  /** In every run: the threads are those started, gone are those that ended and destroyed those whose
      destruction was recorded; there is a record for every insertion and a finished one for every
      destruction. */
  lemma {:induction false} Accounts(reg: Reg, acts: seq<Act>)
    requires Run(acts) == Some(reg)
    ensures |reg.actors| == |Started(acts)| && forall a :: 0 <= a < |reg.actors| ==> ActorTold(reg, acts, a)
    ensures |reg.recs| == Inserts(acts) && |reg.finished| == Destroys(acts)
    decreases |acts|
  {
    if acts != [] {
      var n := |acts| - 1;
      Accounts(Run(acts[..n]).value, acts[..n]);
      ActorsStep(Run(acts[..n]).value, acts[..n], acts[n]);
      assert acts[..n] + [acts[n]] == acts;
    }
  }

  // ----- every running thread can record

  lemma RunSnoc(acts: seq<Act>, x: Act, reg: Reg)
    requires Run(acts) == Some(reg) && Enabled(reg, x)
    ensures Run(acts + [x]) == Some(Step(reg, x))
  {
    assert (acts + [x])[..|acts|] == acts;
  }

  /** The thread can push, to a live record of its own id, or to the one that was finished when it was
      destroyed. */
  ghost predicate CanPush(r: Option<Reg>, a: nat) {
    && r.Some? && Enabled(r.value, Push(a))
    && var me := r.value.actors[a];
       && Own(r.value, me.tls.value, me.pthread)
       && if me.destroyed then me.tls.value in r.value.finished
          else me.pthread in r.value.live && r.value.live[me.pthread] == me.tls.value
  }

  lemma ReadyCanPush(acts: seq<Act>, a: nat)
    requires Run(acts).Some? && a < |Run(acts).value.actors|
    requires Run(acts).value.actors[a].pc.Ready? && Run(acts).value.actors[a].tls.Some?
    ensures CanPush(Run(acts), a)
  {
    RunInv(acts);
    assert ActorOk(Run(acts).value, a);
  }

  lemma FromMissed(acts: seq<Act>, a: nat)
    requires Run(acts).Some? && a < |Run(acts).value.actors| && Run(acts).value.actors[a].pc.SelfMissed?
    ensures CanPush(Run(acts + [InsertSelf(a)]), a)
  {
    RunSnoc(acts, InsertSelf(a), Run(acts).value);
    ReadyCanPush(acts + [InsertSelf(a)], a);
  }

  lemma FromReady(acts: seq<Act>, a: nat) returns (own: seq<Act>)
    requires Run(acts).Some? && a < |Run(acts).value.actors| && Run(acts).value.actors[a].pc.Ready?
    ensures |own| <= 2 && (forall x :: x in own ==> x in {LookupSelf(a), InsertSelf(a)})
    ensures CanPush(Run(acts + own), a)
  {
    var reg := Run(acts).value;
    if reg.actors[a].tls.Some? {
      own := [];
      assert acts + own == acts;
      ReadyCanPush(acts, a);
    } else {
      own := [LookupSelf(a)];
      RunSnoc(acts, LookupSelf(a), reg);
      if reg.actors[a].pthread in reg.live {
        ReadyCanPush(acts + own, a);
      } else {
        FromMissed(acts + own, a);
        assert acts + (own + [InsertSelf(a)]) == acts + own + [InsertSelf(a)];
        own := own + [InsertSelf(a)];
      }
    }
  }

  /** In every reachable state a running thread gets by at most three steps of its own to where it can
      push an event. */
  lemma GetsRecord(acts: seq<Act>, a: nat) returns (own: seq<Act>)
    requires Run(acts).Some? && Running(Run(acts).value, a)
    ensures |own| <= 3 && (forall x :: x in own ==> x in {LookupSelf(a), InsertSelf(a), InsertOther(a)})
    ensures CanPush(Run(acts + own), a)
  {
    var reg := Run(acts).value;
    match reg.actors[a].pc
    case Ready => own := FromReady(acts, a);
    case SelfMissed =>
      own := [InsertSelf(a)];
      FromMissed(acts, a);
    case OtherMissed(_) =>
      RunSnoc(acts, InsertOther(a), reg);
      var rest := FromReady(acts + [InsertOther(a)], a);
      own := [InsertOther(a)] + rest;
      assert acts + own == acts + [InsertOther(a)] + rest;
  }

  // ----- a thread that was named as created has a record

  predicate By(x: Act, a: nat) { !x.Start? && x.a == a }

  /** Steps of others leave a thread where it is. */
  lemma {:induction false} OthersKeep(acts: seq<Act>, mid: seq<Act>, a: nat)
    requires Run(acts).Some? && a < |Run(acts).value.actors| && Run(acts + mid).Some?
    requires forall k :: 0 <= k < |mid| ==> !By(mid[k], a)
    ensures a < |Run(acts + mid).value.actors| && Run(acts + mid).value.actors[a] == Run(acts).value.actors[a]
    decreases |mid|
  {
    if mid == [] {
      assert acts + mid == acts;
    } else {
      var n := |mid| - 1;
      assert (acts + mid)[..|acts + mid| - 1] == acts + mid[..n];
      OthersKeep(acts, mid[..n], a);
    }
  }

  /** Looking up the id of a created thread: if it has a record, nothing happens; if not, then whatever
      others do before the insertion, it has one afterwards, and not a second one. */
  lemma CreatedHasRecord(acts: seq<Act>, a: nat, p: nat, mid: seq<Act>)
    requires Run(acts).Some? && Enabled(Run(acts).value, LookupOther(a, p))
    requires forall k :: 0 <= k < |mid| ==> !By(mid[k], a)
    ensures p in Run(acts).value.live ==> Run(acts + [LookupOther(a, p)]) == Run(acts)
    ensures p !in Run(acts).value.live && Run(acts + [LookupOther(a, p)] + mid).Some? ==>
              var reg := Run(acts + [LookupOther(a, p)] + mid).value;
              && Enabled(reg, InsertOther(a)) && p in Step(reg, InsertOther(a)).live
              && Step(reg, InsertOther(a)).live == (if p in reg.live then reg.live else reg.live[p := |reg.recs|])
              && Enabled(Step(reg, InsertOther(a)), LookupOther(a, p))
  {
    var reg := Run(acts).value;
    var looked := acts + [LookupOther(a, p)];
    RunSnoc(acts, LookupOther(a, p), reg);
    if p !in reg.live && Run(looked + mid).Some? { OthersKeep(looked, mid, a); }
  }
}
