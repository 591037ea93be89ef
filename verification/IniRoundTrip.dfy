/** Loading what was saved (common/ini.h). */
module IniRoundTrip {
  import opened IniText

  predicate NameOk(n: string) {
    n != "" && !Blank(n[0]) && n[0] != ';' && n[0] != '[' && forall i :: 0 <= i < |n| ==> InName(n[i])
  }

  predicate ValueOk(v: string) {
    v != "" && !Blank(v[0]) && !Blank(v[|v| - 1]) && forall i :: 0 <= i < |v| ==> Inline(v[i])
  }

  predicate SectionOk(n: string) { n != "" && forall i :: 0 <= i < |n| ==> InHeader(n[i]) }

  predicate PropOk(p: Prop) { NameOk(p.name) && ValueOk(p.value) }

  predicate Legal(ini: Ini) {
    && |ini.sections| > 0 && ini.sections[0] == ""
    && (forall s :: 1 <= s < |ini.sections| ==> SectionOk(ini.sections[s]))
    && (forall i :: 0 <= i < |ini.props| ==> PropOk(ini.props[i]) && ini.props[i].section < |ini.sections|)
  }

  // ----- scanning

  lemma {:induction false} SpanPrefix(a: string, b: string, p: char -> bool)
    requires forall i :: 0 <= i < |a| ==> p(a[i])
    ensures Span(a + b, p) == |a| + Span(b, p)
  {
    if a == [] {
      assert a + b == b;
    } else {
      SpanPrefix(a[1..], b, p);
      assert (a + b)[1..] == a[1..] + b;
    }
  }

  // ----- one pass over what the printer writes

  lemma BlankOver(item: string -> (nat, Action), r: string)
    ensures PassOver(item, "\n" + r) == (1 + PassOver(item, r).0, PassOver(item, r).1)
  {
    SpanPrefix("\n", r, Blank);
    var b := Span(r, Blank);
    assert ("\n" + r)[1 + b..] == r[b..];
  }

  lemma BlankPass(r: string)
    ensures Pass("\n" + r) == (1 + Pass(r).0, Pass(r).1)
  {
    BlankOver(ReadItem, r);
  }

  /** A text that does not start with a blank is read where it stands. */
  lemma ItemOver(item: string -> (nat, Action), t: string)
    requires t != [] && !Blank(t[0])
    ensures PassOver(item, t) == item(t)
  {
    assert t[0..] == t;
  }

  /** Where the name, the value and the line end. */
  lemma PropScan(name: string, value: string, r: string, t: string)
    requires NameOk(name) && ValueOk(value) && t == name + ("=" + (value + ("\n" + r)))
    ensures Span(t, InName) == |name| && |name| < |t| && t[|name|] == '=' && t[..|name|] == name
    ensures t[|name| + 1..] == value + ("\n" + r)
    ensures Span(t[|name| + 1..], Indent) == 0
    ensures Span(t[|name| + 1..], Inline) == |value|
    ensures t[|name| + 1..][..|value|] == value
  {
    SpanPrefix(name, "=" + (value + ("\n" + r)), InName);
    assert t[|name| + 1..] == value + ("\n" + r);
    SpanPrefix(value, "\n" + r, Inline);
  }

  lemma {:induction false} PropEnds(name: string, value: string, r: string, t: string)
    requires NameOk(name) && ValueOk(value) && t == name + ("=" + (value + ("\n" + r)))
    ensures |name| < |t| && t[|name|] == '='
    ensures ValueStart(t, |name|) == |name| + 1 && ValueEnd(t, |name|) == |name| + 1 + |value|
  {
    PropScan(name, value, r, t);
    var e := |name| + 1 + |value|;
    assert t[e - 1] == value[|value| - 1];
    assert TrimEnd(t, e) == e;
  }

  lemma {:induction false} PropRead(name: string, value: string, r: string, t: string)
    requires NameOk(name) && ValueOk(value) && t == name + ("=" + (value + ("\n" + r)))
    ensures t != [] && !Blank(t[0]) && ReadProperty(t) == (|name| + 1 + |value|, Property(name, value))
  {
    PropScan(name, value, r, t);
    PropEnds(name, value, r, t);
    PropertyRead(t, |name|);
  }

  lemma LineSplit(p: Prop, r: string)
    ensures Line(p) + r == p.name + ("=" + (p.value + ("\n" + r)))
  {
  }

  lemma PropPass(p: Prop, r: string)
    requires PropOk(p)
    ensures Pass(Line(p) + r) == (|p.name| + 1 + |p.value|, Property(p.name, p.value))
  {
    var t := Line(p) + r;
    LineSplit(p, r);
    PropRead(p.name, p.value, r, t);
    assert t[0] == p.name[0];
    ItemOver(ReadItem, t);
  }

  lemma HeaderRead(name: string, r: string, t: string)
    requires SectionOk(name) && t == "[" + (name + ("]" + r))
    ensures ReadHeader(t) == (|name| + 2, Section(name))
  {
    assert t[1..] == name + ("]" + r);
    SpanPrefix(name, "]" + r, InHeader);
    assert t[1..][..|name|] == name;
  }

  lemma HeaderSplit(name: string, r: string)
    requires name != ""
    ensures Header(name) + r == "[" + (name + ("]" + ("\n" + r)))
  {
  }

  lemma HeaderPass(name: string, r: string)
    requires SectionOk(name)
    ensures Pass(Header(name) + r) == (|name| + 2, Section(name))
  {
    var t := Header(name) + r;
    HeaderSplit(name, r);
    HeaderRead(name, "\n" + r, t);
    ItemOver(ReadItem, t);
  }

  // ----- the loop

  lemma BlankTurn(pass: string -> (nat, Action), r: string, s: nat, ini: Ini)
    requires pass("\n" + r) == (1 + pass(r).0, pass(r).1) && pass(r).0 <= |r| && (r != [] ==> 0 < pass(r).0)
    ensures LoadWith(pass, "\n" + r, s, ini) ==
            if r == [] then Apply(ini, s, pass(r).1).0 else LoadWith(pass, r, s, ini)
  {
    var n := pass(r).0;
    Turn(pass, "\n" + r, 1 + n, pass(r).1, s, ini);
    assert ("\n" + r)[1 + n..] == r[n..];
    if r != [] { Turn(pass, r, n, pass(r).1, s, ini); }
  }

  /** An empty line changes nothing. */
  lemma BlankStep(r: string, s: nat, ini: Ini)
    ensures LoadWith(Pass, "\n" + r, s, ini) == LoadWith(Pass, r, s, ini)
  {
    BlankPass(r);
    BlankTurn(Pass, r, s, ini);
  }

  lemma LineRest(p: Prop, r: string)
    ensures (Line(p) + r)[|p.name| + 1 + |p.value|..] == "\n" + r
  {
  }

  lemma {:induction false} StoreProp(pass: string -> (nat, Action), t: string, rest: string, n: nat, p: Prop, ini: Ini)
    requires 0 < n <= |t| && t[n..] == rest && pass(t) == (n, Property(p.name, p.value))
    ensures LoadWith(pass, t, p.section, ini) == LoadWith(pass, rest, p.section, ini.(props := ini.props + [p]))
  {
    Turn(pass, t, n, Property(p.name, p.value), p.section, ini);
  }

  lemma {:induction false} PropTurn(p: Prop, r: string, ini: Ini)
    requires PropOk(p)
    ensures LoadWith(Pass, Line(p) + r, p.section, ini) ==
            LoadWith(Pass, "\n" + r, p.section, ini.(props := ini.props + [p]))
  {
    PropPass(p, r);
    LineRest(p, r);
    StoreProp(Pass, Line(p) + r, "\n" + r, |p.name| + 1 + |p.value|, p, ini);
  }

  /** A printed property is read back. */
  lemma {:induction false} PropStep(p: Prop, r: string, ini: Ini)
    requires PropOk(p)
    ensures LoadWith(Pass, Line(p) + r, p.section, ini) == LoadWith(Pass, r, p.section, ini.(props := ini.props + [p]))
  {
    PropTurn(p, r, ini);
    BlankStep(r, p.section, ini.(props := ini.props + [p]));
  }

  lemma HeaderRest(name: string, r: string)
    requires name != ""
    ensures (Header(name) + r)[|name| + 2..] == "\n" + r
  {
  }

  lemma HeaderStep(name: string, r: string, s: nat, ini: Ini)
    requires SectionOk(name)
    ensures LoadWith(Pass, Header(name) + r, s, ini) ==
            LoadWith(Pass, r, |ini.sections|, ini.(sections := ini.sections + [name]))
  {
    var t := Header(name) + r;
    HeaderPass(name, r);
    Turn(Pass, t, |name| + 2, Section(name), s, ini);
    HeaderRest(name, r);
    BlankStep(r, |ini.sections|, ini.(sections := ini.sections + [name]));
  }

  predicate AllOf(props: seq<Prop>, s: nat) {
    forall i :: 0 <= i < |props| ==> PropOk(props[i]) && props[i].section == s
  }

  lemma {:induction false} LinesSplit(props: seq<Prop>, r: string)
    requires props != []
    ensures Lines(props) + r == Line(props[0]) + (Lines(props[1..]) + r)
  {
  }

  lemma AllOfTail(props: seq<Prop>, s: nat)
    requires props != [] && AllOf(props, s)
    ensures AllOf(props[1..], s) && PropOk(props[0]) && props[0].section == s
  {
  }

  lemma AppendFirst(acc: seq<Prop>, props: seq<Prop>)
    requires props != []
    ensures acc + [props[0]] + props[1..] == acc + props
  {
  }

  lemma {:induction false} LinesStep(props: seq<Prop>, s: nat, r: string, names: seq<string>, acc: seq<Prop>)
    requires AllOf(props, s)
    ensures LoadWith(Pass, Lines(props) + r, s, Ini(names, acc)) == LoadWith(Pass, r, s, Ini(names, acc + props))
    decreases |props|
  {
    if props == [] {
      assert Lines(props) + r == r;
      assert acc + props == acc;
    } else {
      AllOfTail(props, s);
      LinesStep(props[1..], s, r, names, acc + [props[0]]);
      AppendFirst(acc, props);
      PropStep(props[0], Lines(props[1..]) + r, Ini(names, acc));
      LinesSplit(props, r);
    }
  }

  // ----- whole structures

  lemma {:induction false} OfOk(props: seq<Prop>, s: nat)
    requires forall i :: 0 <= i < |props| ==> PropOk(props[i])
    ensures AllOf(Of(props, s), s)
  {
    if props != [] { OfOk(props[..|props| - 1], s); }
  }

  /** The properties of section s and later, section by section. */
  function Grouped(ini: Ini, s: nat): seq<Prop>
    requires s <= |ini.sections|
    decreases |ini.sections| - s
  {
    if s == |ini.sections| then [] else Of(ini.props, s) + Grouped(ini, s + 1)
  }

  /** The body of a section after its header: its properties, then perhaps an empty line. */
  lemma BodyStep(props: seq<Prop>, s: nat, sep: string, r: string, names: seq<string>, acc: seq<Prop>)
    requires AllOf(props, s) && (sep == "" || sep == "\n")
    ensures LoadWith(Pass, Lines(props) + (sep + r), s, Ini(names, acc)) ==
            LoadWith(Pass, r, s, Ini(names, acc + props))
  {
    LinesStep(props, s, sep + r, names, acc);
    if sep == "\n" { BlankStep(r, s, Ini(names, acc + props)); } else { assert sep + r == r; }
  }

  lemma {:induction false} SectionSplit(ini: Ini, s: nat, started: bool)
    requires s < |ini.sections| && ini.sections[s] != ""
    ensures TextFrom(ini, s, started) ==
            Header(ini.sections[s]) + (Lines(Of(ini.props, s)) + ("\n" + TextFrom(ini, s + 1, true)))
  {
    var h, l, rest := Header(ini.sections[s]), Lines(Of(ini.props, s)), TextFrom(ini, s + 1, true);
    assert h + l != "";
    assert (h + l) + "\n" + rest == h + (l + ("\n" + rest));
  }

  lemma PrefixSnoc(names: seq<string>, s: nat)
    requires s < |names|
    ensures names[..s] + [names[s]] == names[..s + 1]
  {
  }

  lemma GroupedSnoc(ini: Ini, s: nat, acc: seq<Prop>)
    requires s < |ini.sections|
    ensures acc + Of(ini.props, s) + Grouped(ini, s + 1) == acc + Grouped(ini, s)
  {
  }

  /** One printed section. */
  lemma SectionStep(ini: Ini, s: nat, started: bool, cur: nat, acc: seq<Prop>)
    requires s < |ini.sections| && SectionOk(ini.sections[s]) && AllOf(Of(ini.props, s), s)
    ensures LoadWith(Pass, TextFrom(ini, s, started), cur, Ini(ini.sections[..s], acc)) ==
            LoadWith(Pass, TextFrom(ini, s + 1, true), s, Ini(ini.sections[..s + 1], acc + Of(ini.props, s)))
  {
    var name, mine, rest := ini.sections[s], Of(ini.props, s), TextFrom(ini, s + 1, true);
    SectionSplit(ini, s, started);
    HeaderStep(name, Lines(mine) + ("\n" + rest), cur, Ini(ini.sections[..s], acc));
    BodyStep(mine, s, "\n", rest, ini.sections[..s] + [name], acc);
    PrefixSnoc(ini.sections, s);
  }

  lemma SectionsEnd(ini: Ini, started: bool, cur: nat, acc: seq<Prop>)
    ensures var n := |ini.sections|;
            LoadWith(Pass, TextFrom(ini, n, started), cur, Ini(ini.sections[..n], acc)) ==
            Ini(ini.sections, acc + Grouped(ini, n))
  {
    assert ini.sections[..|ini.sections|] == ini.sections;
    assert acc + Grouped(ini, |ini.sections|) == acc;
  }

  /** The text of sections s and later, by s and whether anything has been written. */
  type Texts = (nat, bool) -> string

  function TextsOf(ini: Ini): Texts {
    (s: nat, started: bool) => if s <= |ini.sections| then TextFrom(ini, s, started) else ""
  }

  predicate Steps(load: Loading, text: Texts, ini: Ini, s: nat, started: bool, cur: nat, acc: seq<Prop>)
    requires 1 <= s < |ini.sections|
  {
    load(text(s, started), cur, Ini(ini.sections[..s], acc)) ==
    load(text(s + 1, true), s, Ini(ini.sections[..s + 1], acc + Of(ini.props, s)))
  }

  predicate Ends(load: Loading, text: Texts, ini: Ini, started: bool, cur: nat, acc: seq<Prop>) {
    var n := |ini.sections|;
    load(text(n, started), cur, Ini(ini.sections[..n], acc)) == Ini(ini.sections, acc + Grouped(ini, n))
  }

  lemma {:induction false} SectionsWith(load: Loading, text: Texts, ini: Ini, s: nat, started: bool, cur: nat,
                                        acc: seq<Prop>)
    requires 1 <= s <= |ini.sections|
    requires forall s: nat, b, c: nat, acc :: 1 <= s < |ini.sections| ==> Steps(load, text, ini, s, b, c, acc)
    requires forall b, c: nat, acc :: Ends(load, text, ini, b, c, acc)
    ensures load(text(s, started), cur, Ini(ini.sections[..s], acc)) == Ini(ini.sections, acc + Grouped(ini, s))
    decreases |ini.sections| - s
  {
    if s == |ini.sections| {
      assert Ends(load, text, ini, started, cur, acc);
    } else {
      assert Steps(load, text, ini, s, started, cur, acc);
      SectionsWith(load, text, ini, s + 1, true, s, acc + Of(ini.props, s));
      GroupedSnoc(ini, s, acc);
    }
  }

  /** What load gives for section s is what the loader gives. */
  ghost predicate Agrees(load: Loading, text: Texts, ini: Ini, s: nat, started: bool, cur: nat, acc: seq<Prop>)
    requires s <= |ini.sections|
  {
    load(text(s, started), cur, Ini(ini.sections[..s], acc)) ==
    LoadWith(Pass, TextFrom(ini, s, started), cur, Ini(ini.sections[..s], acc))
  }

  lemma {:induction false} StepsOk(load: Loading, text: Texts, ini: Ini, s: nat, started: bool, cur: nat,
                                   acc: seq<Prop>)
    requires Legal(ini) && 1 <= s < |ini.sections|
    requires Agrees(load, text, ini, s, started, cur, acc)
    requires Agrees(load, text, ini, s + 1, true, s, acc + Of(ini.props, s))
    ensures Steps(load, text, ini, s, started, cur, acc)
  {
    assert SectionOk(ini.sections[s]);
    OfOk(ini.props, s);
    SectionStep(ini, s, started, cur, acc);
  }

  lemma {:induction false} EndsOk(load: Loading, text: Texts, ini: Ini, started: bool, cur: nat, acc: seq<Prop>)
    requires Agrees(load, text, ini, |ini.sections|, started, cur, acc)
    ensures Ends(load, text, ini, started, cur, acc)
  {
    SectionsEnd(ini, started, cur, acc);
  }

  ghost predicate AgreesAll(load: Loading, text: Texts, ini: Ini) {
    forall s: nat, b, c: nat, acc :: s <= |ini.sections| ==> Agrees(load, text, ini, s, b, c, acc)
  }

  function Loader(): Loading { (t: string, c: nat, i: Ini) => LoadWith(Pass, t, c, i) }

  lemma {:induction false} LoaderAgrees(ini: Ini)
    ensures AgreesAll(Loader(), TextsOf(ini), ini)
  {
  }

  lemma {:induction false} AllSteps(load: Loading, text: Texts, ini: Ini)
    requires Legal(ini) && AgreesAll(load, text, ini)
    ensures forall s: nat, b, c: nat, acc :: 1 <= s < |ini.sections| ==> Steps(load, text, ini, s, b, c, acc)
    ensures forall b, c: nat, acc :: Ends(load, text, ini, b, c, acc)
  {
    forall s: nat, b, c: nat, acc | 1 <= s < |ini.sections| ensures Steps(load, text, ini, s, b, c, acc) {
      assert Agrees(load, text, ini, s, b, c, acc) && Agrees(load, text, ini, s + 1, true, s, acc + Of(ini.props, s));
      StepsOk(load, text, ini, s, b, c, acc);
    }
    forall b, c: nat, acc ensures Ends(load, text, ini, b, c, acc) {
      assert Agrees(load, text, ini, |ini.sections|, b, c, acc);
      EndsOk(load, text, ini, b, c, acc);
    }
  }

  lemma {:induction false} SectionsStep(ini: Ini, s: nat, started: bool, cur: nat, acc: seq<Prop>)
    requires Legal(ini) && 1 <= s <= |ini.sections|
    ensures LoadWith(Pass, TextFrom(ini, s, started), cur, Ini(ini.sections[..s], acc)) ==
            Ini(ini.sections, acc + Grouped(ini, s))
  {
    LoaderAgrees(ini);
    AllSteps(Loader(), TextsOf(ini), ini);
    SectionsWith(Loader(), TextsOf(ini), ini, s, started, cur, acc);
    assert Agrees(Loader(), TextsOf(ini), ini, s, started, cur, acc);
  }

  lemma GlobalSplit(ini: Ini)
    requires |ini.sections| > 0 && ini.sections[0] == ""
    ensures var lines := Lines(Of(ini.props, 0));
            Text(ini) == lines + ((if lines != "" then "\n" else "") + TextFrom(ini, 1, lines != ""))
  {
    var lines := Lines(Of(ini.props, 0));
    assert Header("") + lines == lines;
  }

  /** The printed global section. */
  lemma GlobalStep(ini: Ini)
    requires |ini.sections| > 0 && ini.sections[0] == "" && AllOf(Of(ini.props, 0), 0)
    ensures var mine := Of(ini.props, 0);
            Load(Text(ini)) == LoadWith(Pass, TextFrom(ini, 1, Lines(mine) != ""), 0, Ini([""], mine))
  {
    var mine := Of(ini.props, 0);
    GlobalSplit(ini);
    BodyStep(mine, 0, if Lines(mine) != "" then "\n" else "", TextFrom(ini, 1, Lines(mine) != ""), [""], []);
    assert [] + mine == mine;
  }

  /** Loading the saved text gives the same sections, and the properties grouped by section. */
  lemma LoadSaved(ini: Ini)
    requires WellFormed(ini) && Legal(ini)
    ensures Load(Text(ini)) == Ini(ini.sections, Grouped(ini, 0))
  {
    OfOk(ini.props, 0);
    GlobalStep(ini);
    assert ini.sections[..1] == [""];
    SectionsStep(ini, 1, Lines(Of(ini.props, 0)) != "", 0, Of(ini.props, 0));
  }

  // ----- per section nothing changes

  lemma {:induction false} OfConcat(a: seq<Prop>, b: seq<Prop>, s: nat)
    ensures Of(a + b, s) == Of(a, s) + Of(b, s)
    decreases |b|
  {
    if b == [] {
      assert a + b == a;
    } else {
      var n := |b| - 1;
      OfConcat(a, b[..n], s);
      assert (a + b)[..|a + b| - 1] == a + b[..n];
    }
  }

  lemma {:induction false} OfOf(props: seq<Prop>, t: nat, s: nat)
    ensures Of(Of(props, t), s) == if s == t then Of(props, s) else []
  {
    if props != [] {
      var n := |props| - 1;
      OfOf(props[..n], t, s);
      OfConcat(Of(props[..n], t), if props[n].section == t then [props[n]] else [], s);
    }
  }

  lemma {:induction false} OfGrouped(ini: Ini, k: nat, s: nat)
    requires k <= |ini.sections|
    ensures Of(Grouped(ini, k), s) == if k <= s < |ini.sections| then Of(ini.props, s) else []
    decreases |ini.sections| - k
  {
    if k < |ini.sections| {
      OfConcat(Of(ini.props, k), Grouped(ini, k + 1), s);
      OfOf(ini.props, k, s);
      OfGrouped(ini, k + 1, s);
    }
  }

  lemma {:induction false} SameText(a: Ini, b: Ini, s: nat, started: bool)
    requires a.sections == b.sections && s <= |a.sections|
    requires forall k :: s <= k < |a.sections| ==> Of(a.props, k) == Of(b.props, k)
    ensures TextFrom(a, s, started) == TextFrom(b, s, started)
    decreases |a.sections| - s
  {
    if s < |a.sections| {
      var body := Header(a.sections[s]) + Lines(Of(a.props, s));
      SameText(a, b, s + 1, started || body != "");
    }
  }
}
