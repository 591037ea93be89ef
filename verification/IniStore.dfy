/** The INI structure of common/ini.h and the operations that change it. The two grown arrays are
    sequences; names and values are held whole, wherever the library keeps their characters. */
module IniStore {
  import opened IniText

  type Pair = (string, string)

  function One(p: Prop, s: nat): multiset<Pair> {
    if p.section == s then multiset{(p.name, p.value)} else multiset{}
  }

  /** The name/value pairs of section s. */
  function Bag(props: seq<Prop>, s: nat): multiset<Pair> {
    if props == [] then multiset{} else Bag(props[..|props| - 1], s) + One(props[|props| - 1], s)
  }

  // ----- swap with last

  lemma {:induction false} BagLast(props: seq<Prop>, s: nat, x: Pair)
    requires props != []
    ensures Bag(props, s)[x] == Bag(props[..|props| - 1], s)[x] + One(props[|props| - 1], s)[x]
  {
  }

  lemma {:induction false} BagUpdate(props: seq<Prop>, p: nat, q: Prop, s: nat, x: Pair)
    requires p < |props|
    ensures Bag(props[p := q], s)[x] + One(props[p], s)[x] == Bag(props, s)[x] + One(q, s)[x]
  {
    var n := |props| - 1;
    var changed := props[p := q];
    BagLast(props, s, x);
    BagLast(changed, s, x);
    if p < n {
      BagUpdate(props[..n], p, q, s, x);
      assert changed[..n] == props[..n][p := q];
    } else {
      assert changed[..n] == props[..n];
    }
  }

  /** The last property takes the place of property p. */
  function SwapOut(props: seq<Prop>, p: nat): (r: seq<Prop>)
    requires p < |props|
    ensures |r| == |props| - 1
  {
    props[p := props[|props| - 1]][..|props| - 1]
  }

  lemma SwapOutCount(props: seq<Prop>, p: nat, s: nat, x: Pair)
    requires p < |props|
    ensures Bag(SwapOut(props, p), s)[x] + One(props[p], s)[x] == Bag(props, s)[x]
  {
    var n := |props| - 1;
    var changed := props[p := props[n]];
    BagUpdate(props, p, props[n], s, x);
    BagLast(changed, s, x);
  }

  /** Exactly the pair of property p leaves. */
  lemma BagSwapOut(props: seq<Prop>, p: nat, s: nat)
    requires p < |props|
    ensures Bag(SwapOut(props, p), s) + One(props[p], s) == Bag(props, s)
  {
    forall x ensures Bag(SwapOut(props, p), s)[x] + One(props[p], s)[x] == Bag(props, s)[x] {
      SwapOutCount(props, p, s, x);
    }
  }

  lemma BagSwapOther(props: seq<Prop>, p: nat, s: nat)
    requires p < |props| && props[p].section != s
    ensures Bag(SwapOut(props, p), s) == Bag(props, s)
  {
    BagSwapOut(props, p, s);
  }

  // ----- relabelling

  function Relabel(p: Prop, last: nat, freed: nat): Prop {
    if p.section == last then p.(section := freed) else p
  }

  predicate Relabelled(old_: seq<Prop>, new_: seq<Prop>, last: nat, freed: nat) {
    |new_| == |old_| && forall i :: 0 <= i < |old_| ==> new_[i] == Relabel(old_[i], last, freed)
  }

  predicate Clear(props: seq<Prop>, s: nat) { forall i :: 0 <= i < |props| ==> props[i].section != s }

  /** The index section t has once section `freed` is gone and section `last` has taken its place. */
  function Moved(t: nat, last: nat, freed: nat): nat { if t == last then freed else t }

  lemma {:induction false} BagRelabel(a: seq<Prop>, b: seq<Prop>, last: nat, freed: nat, t: nat)
    requires Relabelled(a, b, last, freed) && Clear(a, freed) && t != freed
    ensures Bag(b, Moved(t, last, freed)) == Bag(a, t)
  {
    if a != [] {
      var n := |a| - 1;
      BagRelabel(a[..n], b[..n], last, freed, t);
      assert One(b[n], Moved(t, last, freed)) == One(a[n], t);
    }
  }

  predicate InRange(props: seq<Prop>, n: nat) { forall i :: 0 <= i < |props| ==> props[i].section < n }

  /** Section t keeps its pairs, under its new index. */
  predicate Kept(a: seq<Prop>, b: seq<Prop>, last: nat, freed: nat, t: nat) {
    Bag(b, Moved(t, last, freed)) == Bag(a, t)
  }

  lemma KeptAll(a: seq<Prop>, mid: seq<Prop>, b: seq<Prop>, last: nat, freed: nat)
    requires Relabelled(mid, b, last, freed) && Clear(mid, freed)
    requires forall t: nat :: t != freed ==> Bag(mid, t) == Bag(a, t)
    ensures forall t: nat :: t != freed ==> Kept(a, b, last, freed, t)
  {
    forall t: nat | t != freed ensures Kept(a, b, last, freed, t) { BagRelabel(mid, b, last, freed, t); }
  }

  // ----- counting and indexing

  lemma {:induction false} OfPrefix(props: seq<Prop>, i: nat, s: nat)
    requires i <= |props|
    ensures |Of(props[..i], s)| <= |Of(props, s)| && Of(props[..i], s) == Of(props, s)[..|Of(props[..i], s)|]
    decreases |props|
  {
    if i < |props| {
      var n := |props| - 1;
      OfPrefix(props[..n], i, s);
      assert props[..n][..i] == props[..i];
    } else {
      assert props[..i] == props;
    }
  }

  lemma OfNext(props: seq<Prop>, i: nat, s: nat)
    requires i < |props|
    ensures Of(props[..i + 1], s) == Of(props[..i], s) + if props[i].section == s then [props[i]] else []
  {
    assert props[..i + 1][..i] == props[..i];
  }

  /** The property found by its number in its section. */
  predicate IsIndex(props: seq<Prop>, s: nat, k: int, i: int) {
    && 0 <= i < |props| && 0 <= k < |Of(props, s)| && props[i].section == s
    && k == |Of(props[..i], s)| && Of(props, s)[k] == props[i]
  }

  lemma IndexFound(props: seq<Prop>, s: nat, i: nat)
    requires i < |props| && props[i].section == s
    ensures IsIndex(props, s, |Of(props[..i], s)|, i)
  {
    OfNext(props, i, s);
    OfPrefix(props, i + 1, s);
  }

  const NOT_FOUND: int := -1

  // ----- the structure

  class Store {
    var sections: seq<string>
    var props: seq<Prop>

    ghost predicate Valid() reads this { InRange(props, |sections|) }

    ghost function Value(): Ini reads this { Ini(sections, props) }

    /** ini_create */
    constructor ()
      ensures Valid() && Value() == CREATED
    {
      sections := [""];
      props := [];
    }

    /** ini_section_add; a length of zero or less stands for the whole of name. */
    method SectionAdd(name: string, length: int) returns (s: nat)
      requires Valid() && length <= |name|
      modifies this
      ensures Valid() && s == |old(sections)|
      ensures Value() == old(Value()).(sections := old(sections) + [Arg(name, length)])
    {
      s := |sections|;
      sections := sections + [if length <= 0 then name else name[..length]];
    }

    /** ini_property_add; nothing happens when there is no such section. */
    method PropertyAdd(section: int, name: string, nameLength: int, value: string, valueLength: int)
      requires Valid() && nameLength <= |name| && valueLength <= |value|
      modifies this
      ensures Valid() && sections == old(sections)
      ensures props == old(props) + if 0 <= section < |sections|
                                    then [Prop(section, Arg(name, nameLength), Arg(value, valueLength))] else []
    {
      if 0 <= section < |sections| {
        var n := if nameLength <= 0 then name else name[..nameLength];
        var v := if valueLength <= 0 then value else value[..valueLength];
        props := props + [Prop(section, n, v)];
      }
    }

    /** ini_property_count */
    method PropertyCount(section: int) returns (count: nat)
      requires Valid()
      ensures count == if 0 <= section then |Of(props, section)| else 0
    {
      count := 0;
      for i := 0 to |props|
        invariant count == if 0 <= section then |Of(props[..i], section)| else 0
      {
        if props[i].section == section { count := count + 1; }
        if 0 <= section { OfNext(props, i, section); }
      }
      assert props[..|props|] == props;
    }

    /** ini_internal_property_index: found exactly for the numbers below the section's count. */
    method PropertyIndex(section: int, property: int) returns (i: int)
      requires Valid()
      ensures i != NOT_FOUND <==> 0 <= section < |sections| && 0 <= property < |Of(props, section)|
      ensures i != NOT_FOUND ==> IsIndex(props, section, property, i)
    {
      if 0 <= section < |sections| {
        var p := 0;
        for j := 0 to |props|
          invariant p == |Of(props[..j], section)|
          invariant property < 0 || p <= property
        {
          OfNext(props, j, section);
          if props[j].section == section {
            if p == property {
              IndexFound(props, section, j);
              return j;
            }
            p := p + 1;
          }
        }
        assert props[..|props|] == props;
      }
      return NOT_FOUND;
    }

    /** ini_property_remove: the pair with that number leaves its section, every other section and
        every other pair stays. */
    method PropertyRemove(section: int, property: int)
      requires Valid()
      modifies this
      ensures Valid() && sections == old(sections)
      ensures 0 <= section < |sections| && 0 <= property < |Of(old(props), section)| ==>
        var gone := Of(old(props), section)[property];
        && Bag(props, section) + multiset{(gone.name, gone.value)} == Bag(old(props), section)
        && forall t: nat :: t != section ==> Bag(props, t) == Bag(old(props), t)
      ensures !(0 <= section < |sections| && 0 <= property < |Of(old(props), section)|) ==> props == old(props)
    {
      var p := PropertyIndex(section, property);
      if p != NOT_FOUND {
        props := SwapOut(props, p);
        BagSwapOut(old(props), p, section);
        forall t: nat | t != section ensures Bag(props, t) == Bag(old(props), t) { BagSwapOther(old(props), p, t); }
      }
    }

    /** The backward loop of ini_section_remove. */
    method DropProperties(section: nat)
      requires Valid()
      modifies this
      ensures sections == old(sections) && Valid() && Clear(props, section)
      ensures forall t: nat :: t != section ==> Bag(props, t) == Bag(old(props), t)
    {
      var p := |props|;
      while p > 0
        invariant 0 <= p <= |props| && sections == old(sections) && Valid()
        invariant forall i :: p <= i < |props| ==> props[i].section != section
        invariant forall t: nat :: t != section ==> Bag(props, t) == Bag(old(props), t)
      {
        p := p - 1;
        if props[p].section == section {
          ghost var before := props;
          props := SwapOut(props, p);
          forall t: nat | t != section ensures Bag(props, t) == Bag(before, t) { BagSwapOther(before, p, t); }
        }
      }
    }

    /** The forward loop of ini_section_remove. */
    method RelabelProperties(last: nat, freed: nat)
      modifies this`props
      ensures Relabelled(old(props), props, last, freed)
    {
      for p := 0 to |props|
        invariant |props| == |old(props)|
        invariant forall i :: 0 <= i < p ==> props[i] == Relabel(old(props)[i], last, freed)
        invariant forall i :: p <= i < |props| ==> props[i] == old(props)[i]
      {
        if props[p].section == last { props := props[p := props[p].(section := freed)]; }
      }
    }

    /** ini_section_remove: the last section takes the freed index, and every other section keeps
        its name and its pairs. Removing the only section leaves none. */
    method SectionRemove(section: int)
      requires Valid()
      modifies this
      ensures Valid()
      ensures !(0 <= section < |old(sections)|) ==> Value() == old(Value())
      ensures 0 <= section < |old(sections)| ==>
        var last := |old(sections)| - 1;
        && |sections| == last
        && (forall t: nat :: t <= last && t != section ==> sections[Moved(t, last, section)] == old(sections)[t])
        && (forall t: nat :: t != section ==> Kept(old(props), props, last, section, t))
    {
      if 0 <= section < |sections| {
        DropProperties(section);
        ghost var mid := props;
        var last := |sections| - 1;
        sections := sections[section := sections[last]][..last];
        RelabelProperties(last, section);
        KeptAll(old(props), mid, props, last, section);
      }
    }
  }
}
