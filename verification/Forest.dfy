/** The call forest that analyzer/src/calls.cpp rebuilds for one thread: calls in start order,
    each pointing at its parent's slot. */
module Forest {
  import opened Options

  datatype Kind = ECALL | OCALL

  function Other(k: Kind): Kind { if k == ECALL then OCALL else ECALL }

  /** single_call_data_t; `parent` is the slot of the enclosing call. */
  datatype Call = Call(eventId: nat, callId: nat, kind: Kind, start: nat, end: nat, parent: Option<nat>)

  /** Slot a is slot i or one of its ancestors. */
  predicate Anc(cs: seq<Call>, a: nat, i: nat)
    requires i < |cs|
    decreases i
  {
    || a == i
    || (cs[i].parent.Some? && cs[i].parent.value < i && Anc(cs, a, cs[i].parent.value))
  }

  /** A call of this kind and parent may come next: it alternates with its parent, and the parent
      is still open, that is, encloses (or is) the call loaded last. */
  predicate Fits(cs: seq<Call>, kind: Kind, parent: Option<nat>) {
    match parent
    case None => kind == ECALL
    case Some(p) => p < |cs| && kind == Other(cs[p].kind) && Anc(cs, p, |cs| - 1)
  }

  predicate NestedAt(cs: seq<Call>, i: nat)
    requires i < |cs|
  {
    match cs[i].parent
    case None => cs[i].kind == ECALL
    case Some(p) => p < i && cs[i].kind == Other(cs[p].kind) && Anc(cs, p, i - 1)
  }

  /** Start order is a preorder of an alternating forest. */
  predicate WellNested(cs: seq<Call>) {
    forall i :: 0 <= i < |cs| ==> NestedAt(cs, i)
  }

  predicate Sibling(c: Call, kind: Kind, parent: Option<nat>) { c.kind == kind && c.parent == parent }

  /** The naive backward scan: the last loaded call of the same kind under the same parent. */
  function LastSibling(cs: seq<Call>, kind: Kind, parent: Option<nat>): (r: Option<nat>)
    ensures match r
            case None => forall j :: 0 <= j < |cs| ==> !Sibling(cs[j], kind, parent)
            case Some(k) => k < |cs| && Sibling(cs[k], kind, parent)
                            && forall j :: k < j < |cs| ==> !Sibling(cs[j], kind, parent)
  {
    if cs == [] then None
    else if Sibling(cs[|cs| - 1], kind, parent) then Some(|cs| - 1)
    else LastSibling(cs[..|cs| - 1], kind, parent)
  }

  // ----- ancestors

  lemma {:induction false} AncPrefix(cs: seq<Call>, n: nat, a: nat, i: nat)
    requires i < n <= |cs|
    ensures Anc(cs[..n], a, i) == Anc(cs, a, i)
    decreases i
  {
    if cs[i].parent.Some? && cs[i].parent.value < i {
      AncPrefix(cs, n, a, cs[i].parent.value);
    }
  }

  lemma {:induction false} AncBelow(cs: seq<Call>, a: nat, i: nat)
    requires i < |cs| && Anc(cs, a, i)
    ensures a <= i
    decreases i
  {
    if a != i { AncBelow(cs, a, cs[i].parent.value); }
  }

  lemma {:induction false} AncTrans(cs: seq<Call>, a: nat, b: nat, i: nat)
    requires i < |cs| && b < |cs| && Anc(cs, a, b) && Anc(cs, b, i)
    ensures Anc(cs, a, i)
    decreases i
  {
    if b != i { AncTrans(cs, a, b, cs[i].parent.value); }
  }

  lemma AppendNested(cs: seq<Call>, c: Call)
    requires WellNested(cs) && Fits(cs, c.kind, c.parent)
    ensures WellNested(cs + [c])
  {
    var cs' := cs + [c];
    assert cs'[..|cs|] == cs;
    forall i | 0 <= i < |cs'|
      ensures NestedAt(cs', i)
    {
      assert i < |cs| ==> NestedAt(cs, i);
      if cs'[i].parent.Some? && i > 0 { AncPrefix(cs', |cs|, cs'[i].parent.value, i - 1); }
    }
  }

  lemma NestedFits(f: seq<Call>, m: nat)
    requires WellNested(f) && m < |f|
    ensures Fits(f[..m], f[m].kind, f[m].parent)
  {
    assert NestedAt(f, m);
    if f[m].parent.Some? { AncPrefix(f, m, f[m].parent.value, m - 1); }
  }

  /** The descendants of a call are a contiguous run of slots. */
  lemma {:induction false} Contiguous(cs: seq<Call>, a: nat, j: nat, k: nat)
    requires WellNested(cs) && a <= j <= k < |cs| && Anc(cs, a, k)
    ensures Anc(cs, a, j)
    decreases k
  {
    if j < k {
      assert NestedAt(cs, k);
      AncTrans(cs, a, cs[k].parent.value, k - 1);
      Contiguous(cs, a, j, k - 1);
    }
  }

  /** The ancestor of i that is a child of the given parent. */
  lemma {:induction false} BranchOf(cs: seq<Call>, parent: Option<nat>, i: nat) returns (r: nat)
    requires WellNested(cs) && i < |cs|
    requires parent.Some? ==> parent.value != i && Anc(cs, parent.value, i)
    ensures r <= i && Anc(cs, r, i) && cs[r].parent == parent
    decreases i
  {
    assert NestedAt(cs, i);
    if cs[i].parent == parent {
      r := i;
    } else {
      r := BranchOf(cs, parent, cs[i].parent.value);
      AncTrans(cs, r, cs[i].parent.value, i);
    }
  }

  /** Below a branch nothing has the branch's own parent. */
  lemma NoSiblingBelow(cs: seq<Call>, r: nat, j: nat)
    requires WellNested(cs) && r < j < |cs| && Anc(cs, r, j)
    ensures cs[j].parent.Some? && cs[j].parent != cs[r].parent && Anc(cs, r, cs[j].parent.value)
  {
    AncBelow(cs, r, cs[j].parent.value);
    assert NestedAt(cs, r);
  }

  /** The slot the walk must find, or that it must find none. */
  lemma SiblingIsBranch(cs: seq<Call>, kind: Kind, parent: Option<nat>, r: nat)
    requires WellNested(cs) && Fits(cs, kind, parent)
    requires r < |cs| && Anc(cs, r, |cs| - 1) && cs[r].parent == parent
    ensures cs[r].kind == kind && LastSibling(cs, kind, parent) == Some(r)
  {
    assert NestedAt(cs, r);
    forall j | r < j < |cs|
      ensures !Sibling(cs[j], kind, parent)
    {
      Contiguous(cs, r, j, |cs| - 1);
      NoSiblingBelow(cs, r, j);
    }
  }

  lemma NoSibling(cs: seq<Call>, kind: Kind, parent: Option<nat>)
    requires WellNested(cs) && (cs == [] || parent == Some(|cs| - 1))
    ensures LastSibling(cs, kind, parent) == None
  {
    forall j | 0 <= j < |cs|
      ensures !Sibling(cs[j], kind, parent)
    {
      assert NestedAt(cs, j);
    }
  }

  /** One step of the walk from slot c to the next candidate stays inside the branch. */
  lemma WalkStep(cs: seq<Call>, kind: Kind, r: nat, c: nat)
    requires WellNested(cs) && r <= c < |cs| && Anc(cs, r, c) && cs[r].kind == kind && c != r
    ensures cs[c].parent.Some? && cs[c].parent.value < c && cs[c].parent != cs[r].parent
    ensures cs[c].kind != kind ==> r <= cs[c].parent.value && Anc(cs, r, cs[c].parent.value)
    ensures cs[c].kind == kind ==>
              1 <= cs[c].parent.value && r <= cs[c].parent.value - 1 && Anc(cs, r, cs[c].parent.value - 1)
  {
    assert NestedAt(cs, c);
    NoSiblingBelow(cs, r, c);
    var q := cs[c].parent.value;
    AncBelow(cs, r, q);
    if cs[c].kind == kind {
      assert NestedAt(cs, q);
      AncTrans(cs, r, cs[q].parent.value, q - 1);
      AncBelow(cs, r, q - 1);
    }
  }

  /** The pointer walk of call_data_callback (`parent` for the other kind, `parent - 1` for the
      same kind) ends at exactly the call the naive backward scan finds, or at none. A null
      pointer is -1. */
  method FindPredecessor(cs: seq<Call>, kind: Kind, parent: Option<nat>) returns (found: Option<nat>)
    requires WellNested(cs) && Fits(cs, kind, parent)
    ensures found == LastSibling(cs, kind, parent)
  {
    found := None;
    var p := if parent.Some? then parent.value else -1;
    if |cs| == 0 {
      NoSibling(cs, kind, parent);
      return;
    }
    var c := |cs| - 1;
    ghost var r := 0;
    if parent == Some(|cs| - 1) {
      NoSibling(cs, kind, parent);
    } else {
      r := BranchOf(cs, parent, |cs| - 1);
      SiblingIsBranch(cs, kind, parent, r);
      assert NestedAt(cs, r);
    }
    while c != -1 && c > p
      invariant -1 <= c < |cs|
      invariant parent == Some(|cs| - 1) ==> c == p
      invariant parent != Some(|cs| - 1) ==> p < r <= c && Anc(cs, r, c)
      decreases c
    {
      if cs[c].kind == kind {
        if cs[c].parent == parent {
          if c != r { WalkStep(cs, kind, r, c); }
          return Some(c);
        }
        WalkStep(cs, kind, r, c);
        c := if cs[c].parent.Some? then cs[c].parent.value - 1 else -1;
      } else {
        WalkStep(cs, kind, r, c);
        c := if cs[c].parent.Some? then cs[c].parent.value else -1;
      }
    }
  }

  /** The backward search for the slot that holds the parent's event; the source asserts that it
      is there. */
  method FindParent(cs: seq<Call>, eventId: nat) returns (i: nat)
    requires exists k :: 0 <= k < |cs| && cs[k].eventId == eventId
    ensures i < |cs| && cs[i].eventId == eventId
    ensures forall k :: i < k < |cs| ==> cs[k].eventId != eventId
  {
    i := |cs| - 1;
    while cs[i].eventId != eventId
      invariant i < |cs|
      invariant forall k :: i < k < |cs| ==> cs[k].eventId != eventId
      decreases i
    {
      i := i - 1;
    }
  }
}
