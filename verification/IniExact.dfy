/** Exactly which structures survive saving and loading (common/ini.h). */
module IniExact {
  import opened IniText
  import opened IniRoundTrip
  import opened IniStore

  // ----- what the loader can produce

  /** A name that the loader read, or the rest of a text that starts where an empty name was. */
  predicate SectionShape(n: string) { SectionOk(n) || (n != "" && n[0] == ']') }

  predicate PropShape(p: Prop) {
    && (NameOk(p.name) || (p.name != "" && p.name[0] == '='))
    && (ValueOk(p.value) || p.value == "" || p.value[0] == '\n')
  }

  predicate ActionShape(a: Action) {
    match a
    case Section(name) => SectionShape(name)
    case Property(name, value) => PropShape(Prop(0, name, value))
    case _ => true
  }

  lemma {:induction false} SpanAll(r: string, p: char -> bool)
    ensures forall i :: 0 <= i < Span(r, p) ==> p(r[i])
    ensures Span(r, p) < |r| ==> !p(r[Span(r, p)])
  {
    if r != [] && p(r[0]) {
      SpanAll(r[1..], p);
      forall i | 0 <= i < Span(r, p) ensures p(r[i]) { if i > 0 { assert r[i] == r[1..][i - 1]; } }
      if Span(r, p) < |r| { assert r[Span(r, p)] == r[1..][Span(r[1..], p)]; }
    }
  }

  lemma {:induction false} TrimLast(t: string, e: nat)
    requires e <= |t|
    ensures TrimEnd(t, e) == 0 || !Blank(t[TrimEnd(t, e) - 1])
  {
    if e > 0 && Blank(t[e - 1]) { TrimLast(t, e - 1); }
  }

  lemma HeaderShape(t: string)
    requires t != [] && t[0] == '['
    ensures ActionShape(ReadHeader(t).1)
  {
    var k := Span(t[1..], InHeader);
    SpanAll(t[1..], InHeader);
    if k < |t| - 1 && t[1 + k] == ']' && k > 0 {
      var n := t[1..][..k];
      assert forall i :: 0 <= i < |n| ==> InHeader(n[i]);
    }
  }

  lemma NameShape(t: string, k: nat)
    requires t != [] && !Blank(t[0]) && t[0] != ';' && t[0] != '[' && k == Span(t, InName) && k < |t| && t[k] == '='
    ensures NameOk(Arg(t, k)) || (Arg(t, k) != "" && Arg(t, k)[0] == '=')
  {
    SpanAll(t, InName);
    if k > 0 {
      var n := t[..k];
      assert forall i :: 0 <= i < |n| ==> InName(n[i]);
    }
  }

  /** Where the value starts there is the end of the text, a newline or the first character of a
      value. */
  lemma ValueFirst(t: string, k: nat)
    requires k < |t|
    ensures var s := ValueStart(t, k); s == |t| || t[s] == '\n' || !Blank(t[s])
  {
    SpanAll(t[k + 1..], Indent);
    var n := Span(t[k + 1..], Indent);
    if n < |t[k + 1..]| { assert t[k + 1..][n] == t[k + 1 + n]; }
  }

  lemma ValueInline(t: string, s: nat, i: nat)
    requires s <= |t| && i < Span(t[s..], Inline)
    ensures s + i < |t| && t[s + i] != '\n'
  {
    SpanAll(t[s..], Inline);
    assert Inline(t[s..][i]);
  }

  lemma {:induction false} ValueTaken(t: string, s: nat, e: nat)
    requires s < e <= |t| && e <= s + Span(t[s..], Inline) && !Blank(t[s]) && !Blank(t[e - 1])
    ensures ValueOk(t[s..][..e - s])
  {
    var v := t[s..][..e - s];
    assert v[0] == t[s] && v[|v| - 1] == t[e - 1];
    forall i | 0 <= i < |v| ensures Inline(v[i]) { ValueInline(t, s, i); }
  }

  /** The line ends where the value would start. */
  lemma {:induction false} ValueMissing(t: string, s: nat)
    requires s < |t| && t[s] != '\n' && !Blank(t[s])
    ensures TrimEnd(t, s + Span(t[s..], Inline)) > s
  {
    SpanAll(t[s..], Inline);
    assert t[s..][0] == t[s];
    TrimStops(t, s + Span(t[s..], Inline), s);
  }

  lemma {:induction false} ArgShape(t: string, s: nat, end: nat, e: nat)
    requires s <= end <= |t| && end == s + Span(t[s..], Inline) && e == TrimEnd(t, end)
    requires s == |t| || t[s] == '\n' || !Blank(t[s])
    ensures var v := Arg(t[s..], e - s); ValueOk(v) || v == "" || v[0] == '\n'
  {
    TrimLast(t, end);
    if e > s {
      ValueInline(t, s, 0);
      ValueTaken(t, s, e);
    } else if s < |t| && t[s] != '\n' {
      ValueMissing(t, s);
    }
  }

  lemma {:induction false} ValueShape(t: string, k: nat)
    requires k < |t| && t[k] == '='
    ensures var s, e := ValueStart(t, k), ValueEnd(t, k);
            var v := Arg(t[s..], e - s);
            ValueOk(v) || v == "" || v[0] == '\n'
  {
    var s := ValueStart(t, k);
    ValueFirst(t, k);
    ArgShape(t, s, s + Span(t[s..], Inline), ValueEnd(t, k));
  }

  lemma PropertyShape(t: string)
    requires t != [] && !Blank(t[0]) && t[0] != ';' && t[0] != '['
    ensures ActionShape(ReadProperty(t).1)
  {
    var k := Span(t, InName);
    if k < |t| && t[k] == '=' {
      NameShape(t, k);
      ValueShape(t, k);
    }
  }

  lemma PassShape(r: string)
    ensures ActionShape(Pass(r).1)
  {
    var t := r[Span(r, Blank)..];
    if t != [] && !Blank(t[0]) && t[0] != ';' {
      if t[0] == '[' { HeaderShape(t); } else { PropertyShape(t); }
    }
  }

  predicate Shaped(ini: Ini) {
    && |ini.sections| > 0 && ini.sections[0] == ""
    && (forall s :: 1 <= s < |ini.sections| ==> SectionShape(ini.sections[s]))
    && (forall i :: 0 <= i < |ini.props| ==> PropShape(ini.props[i]))
  }

  lemma ApplyShape(ini: Ini, s: nat, a: Action)
    requires Shaped(ini) && ActionShape(a)
    ensures Shaped(Apply(ini, s, a).0)
  {
  }

  lemma {:induction false} LoadShape(r: string, s: nat, ini: Ini)
    requires Shaped(ini)
    ensures Shaped(LoadWith(Pass, r, s, ini))
    decreases |r|
  {
    var (n, a) := Pass(r);
    if r != [] {
      var (ini', s') := Apply(ini, s, a);
      PassShape(r);
      ApplyShape(ini, s, a);
      Turn(Pass, r, n, a, s, ini);
      LoadShape(r[n..], s', ini');
    }
  }

  // ----- the loader only adds

  predicate Extends(a: Ini, b: Ini) { a.sections <= b.sections && a.props <= b.props }

  lemma {:induction false} LoadExtends(pass: string -> (nat, Action), r: string, s: nat, ini: Ini)
    ensures Extends(ini, LoadWith(pass, r, s, ini))
    decreases |r|
  {
    var (n, a) := pass(r);
    if !(r == [] || n == 0 || n > |r|) {
      var (ini', s') := Apply(ini, s, a);
      LoadExtends(pass, r[n..], s', ini');
    }
  }

  /** So what one pass stores is there in the end. */
  lemma FirstStored(r: string, s: nat, ini: Ini)
    requires r != []
    ensures Extends(Apply(ini, s, Pass(r).1).0, LoadWith(Pass, r, s, ini))
  {
    var (n, a) := Pass(r);
    var (ini', s') := Apply(ini, s, a);
    Turn(Pass, r, n, a, s, ini);
    LoadExtends(Pass, r[n..], s', ini');
  }

  // ----- an item that is not legal does not come back

  /** An illegal section name of that shape: the loader takes the whole rest of the text. */
  lemma SectionLost(name: string, r: string, s: nat, ini: Ini)
    requires name != "" && name[0] == ']'
    ensures var back := LoadWith(Pass, Header(name) + r, s, ini);
            |back.sections| > |ini.sections| && |back.sections[|ini.sections|]| > |name|
  {
    var t := Header(name) + r;
    HeaderSplit(name, r);
    LostHeader(name, "\n" + r, t);
    ItemOver(ReadItem, t);
    FirstStored(t, s, ini);
  }

  lemma LostHeader(name: string, r: string, t: string)
    requires name != "" && name[0] == ']' && t == "[" + (name + ("]" + r))
    ensures t != [] && t[0] == '[' && ReadHeader(t).1 == Section(t[1..]) && |t[1..]| > |name|
  {
    assert t[1..][0] == ']';
  }

  /** A property whose name starts with '=', or whose value is empty or starts with a newline. */
  predicate Lost(p: Prop) {
    && p.name != "" && !Blank(p.name[0]) && p.name[0] != ';' && p.name[0] != '['
    && (p.name[0] == '=' || (NameOk(p.name) && (p.value == "" || p.value[0] == '\n')))
  }

  lemma LostName(p: Prop, r: string, t: string)
    requires p.name != "" && p.name[0] == '=' && t == p.name + ("=" + (p.value + ("\n" + r)))
    ensures t != [] && !Blank(t[0])
    ensures var a := ReadProperty(t).1; a.Property? && |a.name| > |p.name|
  {
    assert t[0] == '=';
    assert Span(t, InName) == 0;
  }

  lemma LostValue(p: Prop, r: string, t: string)
    requires NameOk(p.name) && (p.value == "" || p.value[0] == '\n') && t == p.name + ("=" + (p.value + ("\n" + r)))
    ensures t != [] && !Blank(t[0])
    ensures var a := ReadProperty(t).1; a.Property? && |a.value| > |p.value|
  {
    var k := |p.name|;
    SpanPrefix(p.name, "=" + (p.value + ("\n" + r)), InName);
    assert t[k] == '=' && t[k + 1..] == p.value + ("\n" + r);
    assert t[k + 1] == '\n';
    assert ValueStart(t, k) == k + 1;
    assert Span(t[k + 1..], Inline) == 0;
    assert TrimEnd(t, k + 1) == k + 1;
  }

  /** What is stored instead is longer. */
  lemma PropLost(p: Prop, r: string, s: nat, ini: Ini)
    requires Lost(p)
    ensures var back := LoadWith(Pass, Line(p) + r, s, ini);
            exists q: Prop :: ini.props + [q] <= back.props && q.section == s && q != p.(section := s)
  {
    var t := Line(p) + r;
    LineSplit(p, r);
    if p.name[0] == '=' { LostName(p, r, t); } else { LostValue(p, r, t); }
    assert t[0] == p.name[0];
    ItemOver(ReadItem, t);
    FirstStored(t, s, ini);
    var a := ReadProperty(t).1;
    var q := Prop(s, a.name, a.value);
    assert ini.props + [q] <= LoadWith(Pass, t, s, ini).props;
  }

  // ----- so what comes back is legal

  /** The next property of the section is the one that was stored next. */
  lemma NextIs(acc: seq<Prop>, q: Prop, back: seq<Prop>, s: nat, props: seq<Prop>)
    requires acc + [q] <= back && q.section == s && props != [] && Of(back, s) == Of(acc, s) + props
    ensures props[0] == q
  {
    OfPrefix(back, |acc| + 1, s);
    assert back[..|acc| + 1] == acc + [q];
    assert (acc + [q])[..|acc|] == acc;
    assert Of(acc + [q], s) == Of(acc, s) + [q];
    assert Of(back, s)[|Of(acc, s)|] == q;
  }

  lemma OfSnoc(acc: seq<Prop>, p: Prop, s: nat)
    requires p.section == s
    ensures Of(acc + [p], s) == Of(acc, s) + [p]
  {
    assert (acc + [p])[..|acc|] == acc;
  }

  lemma FirstLegal(props: seq<Prop>, s: nat, r: string, names: seq<string>, acc: seq<Prop>, back: Ini)
    requires props != [] && props[0].section == s && PropShape(props[0])
    requires LoadWith(Pass, Lines(props) + r, s, Ini(names, acc)) == back
    requires Of(back.props, s) == Of(acc, s) + props
    ensures PropOk(props[0])
  {
    LinesSplit(props, r);
    if !PropOk(props[0]) {
      PropLost(props[0], Lines(props[1..]) + r, s, Ini(names, acc));
      var q: Prop :| acc + [q] <= back.props && q.section == s && q != props[0].(section := s);
      NextIs(acc, q, back.props, s, props);
    }
  }

  predicate LinesShaped(props: seq<Prop>, s: nat) {
    forall i :: 0 <= i < |props| ==> PropShape(props[i]) && props[i].section == s
  }

  lemma {:induction false} LinesRest(props: seq<Prop>, s: nat, r: string, names: seq<string>, acc: seq<Prop>)
    requires props != [] && props[0].section == s && PropOk(props[0])
    ensures LoadWith(Pass, Lines(props) + r, s, Ini(names, acc)) ==
            LoadWith(Pass, Lines(props[1..]) + r, s, Ini(names, acc + [props[0]]))
  {
    LinesSplit(props, r);
    PropStep(props[0], Lines(props[1..]) + r, Ini(names, acc));
  }

  lemma {:induction false} OfMove(acc: seq<Prop>, props: seq<Prop>, s: nat)
    requires props != [] && props[0].section == s
    ensures Of(acc, s) + props == Of(acc + [props[0]], s) + props[1..]
  {
    OfSnoc(acc, props[0], s);
    assert Of(acc, s) + props == (Of(acc, s) + [props[0]]) + props[1..];
  }

  lemma {:induction false} LinesLegal(props: seq<Prop>, s: nat, r: string, names: seq<string>, acc: seq<Prop>,
                                      back: Ini)
    requires LinesShaped(props, s)
    requires LoadWith(Pass, Lines(props) + r, s, Ini(names, acc)) == back
    requires Of(back.props, s) == Of(acc, s) + props
    ensures AllOf(props, s)
    decreases |props|
  {
    if props != [] {
      FirstLegal(props, s, r, names, acc, back);
      LinesRest(props, s, r, names, acc);
      OfMove(acc, props, s);
      LinesLegal(props[1..], s, r, names, acc + [props[0]], back);
    }
  }

  predicate SectionLegal(ini: Ini, s: nat)
    requires s < |ini.sections|
  {
    SectionOk(ini.sections[s]) && AllOf(Of(ini.props, s), s)
  }

  ghost predicate Same(back: Ini, ini: Ini) {
    && back.sections == ini.sections
    && forall s: nat :: s < |ini.sections| ==> Of(back.props, s) == Of(ini.props, s)
  }

  predicate Below(props: seq<Prop>, s: nat) { forall i :: 0 <= i < |props| ==> props[i].section < s }

  lemma {:induction false} OfNone(props: seq<Prop>, s: nat)
    requires Below(props, s)
    ensures Of(props, s) == []
  {
    if props != [] { OfNone(props[..|props| - 1], s); }
  }

  lemma {:induction false} OfShaped(props: seq<Prop>, s: nat)
    requires forall i :: 0 <= i < |props| ==> PropShape(props[i])
    ensures LinesShaped(Of(props, s), s)
  {
    if props != [] { OfShaped(props[..|props| - 1], s); }
  }

  lemma HeaderLegal(ini: Ini, s: nat, started: bool, cur: nat, acc: seq<Prop>, back: Ini)
    requires s < |ini.sections| && SectionShape(ini.sections[s])
    requires LoadWith(Pass, TextFrom(ini, s, started), cur, Ini(ini.sections[..s], acc)) == back
    requires back.sections == ini.sections
    ensures SectionOk(ini.sections[s])
  {
    var name, rest := ini.sections[s], Lines(Of(ini.props, s)) + ("\n" + TextFrom(ini, s + 1, true));
    SectionSplit(ini, s, started);
    if !SectionOk(name) { SectionLost(name, rest, cur, Ini(ini.sections[..s], acc)); }
  }

  lemma OneLegal(ini: Ini, s: nat, started: bool, cur: nat, acc: seq<Prop>, back: Ini)
    requires s < |ini.sections| && SectionShape(ini.sections[s]) && LinesShaped(Of(ini.props, s), s)
    requires LoadWith(Pass, TextFrom(ini, s, started), cur, Ini(ini.sections[..s], acc)) == back
    requires Same(back, ini) && Below(acc, s)
    ensures SectionLegal(ini, s)
  {
    var name, mine := ini.sections[s], Of(ini.props, s);
    var tail := "\n" + TextFrom(ini, s + 1, true);
    HeaderLegal(ini, s, started, cur, acc, back);
    SectionSplit(ini, s, started);
    HeaderStep(name, Lines(mine) + tail, cur, Ini(ini.sections[..s], acc));
    OfNone(acc, s);
    assert Of(acc, s) + mine == mine;
    LinesLegal(mine, s, tail, ini.sections[..s] + [name], acc, back);
  }

  lemma SectionBelow(props: seq<Prop>, s: nat, acc: seq<Prop>)
    requires AllOf(Of(props, s), s) && Below(acc, s)
    ensures Below(acc + Of(props, s), s + 1)
  {
  }

  /** One section is legal, and what follows is loaded after it. */
  lemma {:induction false} SectionNext(ini: Ini, s: nat, started: bool, cur: nat, acc: seq<Prop>, back: Ini)
    requires Shaped(ini) && 1 <= s < |ini.sections|
    requires LoadWith(Pass, TextFrom(ini, s, started), cur, Ini(ini.sections[..s], acc)) == back
    requires Same(back, ini) && Below(acc, s)
    ensures SectionLegal(ini, s)
    ensures LoadWith(Pass, TextFrom(ini, s + 1, true), s, Ini(ini.sections[..s + 1], acc + Of(ini.props, s))) == back
    ensures Below(acc + Of(ini.props, s), s + 1)
  {
    OfShaped(ini.props, s);
    OneLegal(ini, s, started, cur, acc, back);
    SectionStep(ini, s, started, cur, acc);
    SectionBelow(ini.props, s, acc);
  }

  /** Loading has reached section s, and `back` is what it will give. */
  ghost predicate At(load: Loading, text: Texts, ini: Ini, s: nat, started: bool, cur: nat, acc: seq<Prop>, back: Ini)
    requires s <= |ini.sections|
  {
    load(text(s, started), cur, Ini(ini.sections[..s], acc)) == back && Below(acc, s)
  }

  ghost predicate NextOk(load: Loading, text: Texts, ini: Ini, s: nat, started: bool, cur: nat, acc: seq<Prop>,
                         back: Ini)
    requires s < |ini.sections|
  {
    At(load, text, ini, s, started, cur, acc, back) ==>
      SectionLegal(ini, s) && At(load, text, ini, s + 1, true, s, acc + Of(ini.props, s), back)
  }

  lemma {:induction false} SectionsFrom(load: Loading, text: Texts, ini: Ini, s: nat, started: bool, cur: nat,
                                        acc: seq<Prop>, back: Ini, k: nat)
    requires 1 <= s <= k < |ini.sections| && At(load, text, ini, s, started, cur, acc, back)
    requires forall s: nat, b, c: nat, acc :: 1 <= s < |ini.sections| ==> NextOk(load, text, ini, s, b, c, acc, back)
    ensures SectionLegal(ini, k)
    decreases k - s
  {
    assert NextOk(load, text, ini, s, started, cur, acc, back);
    if s < k { SectionsFrom(load, text, ini, s + 1, true, s, acc + Of(ini.props, s), back, k); }
  }

  lemma {:induction false} NextIsOk(load: Loading, text: Texts, ini: Ini, s: nat, started: bool, cur: nat,
                                    acc: seq<Prop>, back: Ini)
    requires Shaped(ini) && 1 <= s < |ini.sections| && Same(back, ini)
    requires Agrees(load, text, ini, s, started, cur, acc)
    requires Agrees(load, text, ini, s + 1, true, s, acc + Of(ini.props, s))
    ensures NextOk(load, text, ini, s, started, cur, acc, back)
  {
    if At(load, text, ini, s, started, cur, acc, back) { SectionNext(ini, s, started, cur, acc, back); }
  }

  lemma {:induction false} AllNextOk(load: Loading, text: Texts, ini: Ini, back: Ini)
    requires Shaped(ini) && Same(back, ini) && AgreesAll(load, text, ini)
    ensures forall s: nat, b, c: nat, acc :: 1 <= s < |ini.sections| ==> NextOk(load, text, ini, s, b, c, acc, back)
  {
    forall s: nat, b, c: nat, acc | 1 <= s < |ini.sections| ensures NextOk(load, text, ini, s, b, c, acc, back) {
      assert Agrees(load, text, ini, s, b, c, acc) && Agrees(load, text, ini, s + 1, true, s, acc + Of(ini.props, s));
      NextIsOk(load, text, ini, s, b, c, acc, back);
    }
  }

  lemma {:induction false} SectionsLegal(ini: Ini, started: bool, acc: seq<Prop>, back: Ini, k: nat)
    requires Shaped(ini) && 1 <= k < |ini.sections| && Same(back, ini)
    requires LoadWith(Pass, TextFrom(ini, 1, started), 0, Ini(ini.sections[..1], acc)) == back
    requires Below(acc, 1)
    ensures SectionLegal(ini, k)
  {
    var load, text := Loader(), TextsOf(ini);
    LoaderAgrees(ini);
    AllNextOk(load, text, ini, back);
    assert Agrees(load, text, ini, 1, started, 0, acc);
    SectionsFrom(load, text, ini, 1, started, 0, acc, back, k);
  }

  lemma GlobalLegal(ini: Ini)
    requires Shaped(ini) && Same(Load(Text(ini)), ini)
    ensures AllOf(Of(ini.props, 0), 0)
  {
    var mine := Of(ini.props, 0);
    var lines := Lines(mine);
    OfShaped(ini.props, 0);
    GlobalSplit(ini);
    LinesLegal(mine, 0, (if lines != "" then "\n" else "") + TextFrom(ini, 1, lines != ""), [""], [], Load(Text(ini)));
  }

  lemma {:induction false} OfMember(props: seq<Prop>, i: nat)
    requires i < |props|
    ensures props[i] in Of(props, props[i].section)
  {
    var n := |props| - 1;
    if i < n { OfMember(props[..n], i); }
  }

  lemma {:induction false} OfFrom(props: seq<Prop>, s: nat, p: Prop)
    requires p in Of(props, s)
    ensures p in props
  {
    if p in Of(props[..|props| - 1], s) { OfFrom(props[..|props| - 1], s, p); }
  }

  /** What comes back has the loader's shape. */
  lemma SameShaped(back: Ini, ini: Ini)
    requires Shaped(back) && Same(back, ini) && InRange(ini.props, |ini.sections|)
    ensures Shaped(ini)
  {
    forall i | 0 <= i < |ini.props| ensures PropShape(ini.props[i]) {
      OfMember(ini.props, i);
      OfFrom(back.props, ini.props[i].section, ini.props[i]);
    }
  }

  lemma AllLegal(ini: Ini)
    requires Shaped(ini) && InRange(ini.props, |ini.sections|)
    requires AllOf(Of(ini.props, 0), 0) && forall k :: 1 <= k < |ini.sections| ==> SectionLegal(ini, k)
    ensures Legal(ini)
  {
    forall i | 0 <= i < |ini.props| ensures PropOk(ini.props[i]) {
      OfMember(ini.props, i);
      var s := ini.props[i].section;
      assert s > 0 ==> SectionLegal(ini, s);
    }
    forall s | 1 <= s < |ini.sections| ensures SectionOk(ini.sections[s]) { assert SectionLegal(ini, s); }
  }

  lemma Necessary(ini: Ini)
    requires InRange(ini.props, |ini.sections|) && Same(Load(Text(ini)), ini)
    ensures Legal(ini)
  {
    var back := Load(Text(ini));
    LoadShape(Text(ini), 0, CREATED);
    SameShaped(back, ini);
    GlobalLegal(ini);
    GlobalStep(ini);
    assert ini.sections[..1] == [""];
    OfShaped(ini.props, 0);
    forall k | 1 <= k < |ini.sections| ensures SectionLegal(ini, k) {
      SectionsLegal(ini, Lines(Of(ini.props, 0)) != "", Of(ini.props, 0), back, k);
    }
    AllLegal(ini);
  }

  lemma GroupedIsSame(ini: Ini)
    ensures Same(Ini(ini.sections, Grouped(ini, 0)), ini)
  {
    forall s: nat | s < |ini.sections| ensures Of(Grouped(ini, 0), s) == Of(ini.props, s) { OfGrouped(ini, 0, s); }
  }

  /** The exact domain of the round trip. Loading what was saved gives the same sections, and in each
      the same sequence of properties, if and only if the structure is legal: the global section has
      no name, every other section has one without ']' and newline; property names are not empty, do
      not start with a blank, ';' or '[' and have no '=' or newline; values are not empty, neither
      start nor end with a blank and have no newline. Bytes of 128 and above count as blanks. Saving
      again then gives the same text. */
  lemma RoundTrip(ini: Ini)
    requires WellFormed(ini)
    ensures Same(Load(Text(ini)), ini) <==> Legal(ini)
    ensures Load(Text(ini)) == Ini(ini.sections, Grouped(ini, 0)) <==> Legal(ini)
    ensures Legal(ini) ==> Text(Load(Text(ini))) == Text(ini)
  {
    GroupedIsSame(ini);
    if Legal(ini) { LoadSaved(ini); }
    if Same(Load(Text(ini)), ini) {
      assert InRange(ini.props, |ini.sections|);
      Necessary(ini);
      SameText(Load(Text(ini)), ini, 0, false);
    }
  }

  /** One property of the global section with an empty value. */
  const EMPTY_VALUE := Ini([""], [Prop(0, "key", "")])

  lemma EmptyValueLost()
    ensures WellFormed(EMPTY_VALUE) && !Same(Load(Text(EMPTY_VALUE)), EMPTY_VALUE)
  {
    assert !PropOk(EMPTY_VALUE.props[0]);
    RoundTrip(EMPTY_VALUE);
  }
}
