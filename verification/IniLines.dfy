/** What each kind of line means to the loader (common/ini.h:510-561), told with characters alone. A
    text is blanks and lines of these kinds, so together the laws fix what any text loads to. */
module IniLines {
  import opened IniText
  import opened IniRoundTrip

  predicate Blanks(w: string) { forall i :: 0 <= i < |w| ==> w[i] <= ' ' || w[i] >= 128 as char }

  /** Blanks on one line. */
  predicate Spaces(w: string) { Blanks(w) && '\n' !in w }

  predicate Visible(c: char) { ' ' < c < 128 as char }

  /** What may follow a line. */
  predicate LineEnd(r: string) { r == "" || r[0] == '\n' }

  lemma Take(a: string, b: string, p: char -> bool)
    requires (forall i :: 0 <= i < |a| ==> p(a[i])) && (b == "" || !p(b[0]))
    ensures Span(a + b, p) == |a| && (a + b)[..|a|] == a && (a + b)[|a|..] == b
  {
    SpanPrefix(a, b, p);
  }

  lemma ItemTurn(t: string, n: nat, a: Action, s: nat, ini: Ini)
    requires t != [] && !Blank(t[0]) && ReadItem(t) == (n, a) && 0 < n <= |t|
    ensures LoadWith(Pass, t, s, ini) == var (ini', s') := Apply(ini, s, a); LoadWith(Pass, t[n..], s', ini')
  {
    ItemOver(ReadItem, t);
    Turn(Pass, t, n, a, s, ini);
  }

  // ----- blanks

  lemma OneBlank(c: char, r: string)
    requires Blank(c)
    ensures Pass([c] + r) == (1 + Pass(r).0, Pass(r).1)
  {
    var t, b := [c] + r, Span(r, Blank);
    assert t[1..] == r;
    assert t[1 + b..] == r[b..];
  }

  lemma BlankChar(c: char, r: string, s: nat, ini: Ini)
    requires Blank(c)
    ensures LoadWith(Pass, [c] + r, s, ini) == LoadWith(Pass, r, s, ini)
  {
    OneBlank(c, r);
    var (n, a) := Pass(r);
    Turn(Pass, [c] + r, 1 + n, a, s, ini);
    assert ([c] + r)[1 + n..] == r[n..];
    if r != [] { Turn(Pass, r, n, a, s, ini); }
  }

  type Texts = string -> Ini

  predicate SkipsBlank(load: Texts, c: char, r: string) { load([c] + r) == load(r) }

  lemma {:induction false} BlanksWith(load: Texts, w: string, r: string)
    requires Blanks(w) && forall c, r :: Blank(c) ==> SkipsBlank(load, c, r)
    ensures load(w + r) == load(r)
  {
    if w == "" {
      assert w + r == r;
    } else {
      BlanksWith(load, w[1..], r);
      assert w + r == [w[0]] + (w[1..] + r);
      assert SkipsBlank(load, w[0], w[1..] + r);
    }
  }

  /** Blanks before anything, newlines among them, mean nothing. Bytes of 128 and above are blanks. */
  lemma {:induction false} BlanksSkipped(w: string, r: string, s: nat, ini: Ini)
    requires Blanks(w)
    ensures LoadWith(Pass, w + r, s, ini) == LoadWith(Pass, r, s, ini)
  {
    var load: Texts := r => LoadWith(Pass, r, s, ini);
    forall c, r | Blank(c) ensures SkipsBlank(load, c, r) { BlankChar(c, r, s, ini); }
    BlanksWith(load, w, r);
  }

  // ----- lines that store nothing

  /** A comment goes to the end of its line. */
  lemma CommentSkipped(c: string, r: string, s: nat, ini: Ini)
    requires '\n' !in c && LineEnd(r)
    ensures LoadWith(Pass, ";" + c + r, s, ini) == LoadWith(Pass, r, s, ini)
  {
    var t := ";" + c + r;
    Take(";" + c, r, Inline);
    ItemTurn(t, |c| + 1, Skip, s, ini);
  }

  /** So does a header that its line does not close. */
  lemma OpenHeaderSkipped(c: string, r: string, s: nat, ini: Ini)
    requires '\n' !in c && ']' !in c && LineEnd(r)
    ensures LoadWith(Pass, "[" + c + r, s, ini) == LoadWith(Pass, r, s, ini)
  {
    var t := "[" + c + r;
    assert t[1..] == c + r;
    Take(c, r, InHeader);
    assert |r| > 0 ==> t[1 + |c|] == r[0];
    assert ReadHeader(t) == (1 + |c|, Skip);
    ItemTurn(t, 1 + |c|, Skip, s, ini);
    assert t[1 + |c|..] == r;
  }

  /** And a line without '='. */
  lemma PlainLineSkipped(l: string, r: string, s: nat, ini: Ini)
    requires l != "" && Visible(l[0]) && l[0] != ';' && l[0] != '[' && '=' !in l && '\n' !in l && LineEnd(r)
    ensures LoadWith(Pass, l + r, s, ini) == LoadWith(Pass, r, s, ini)
  {
    var t := l + r;
    Take(l, r, InName);
    assert |r| > 0 ==> t[|l|] == r[0];
    PropertySkipped(t, |l|);
    ItemTurn(t, |l|, Skip, s, ini);
  }

  // ----- headers

  /** A closed header opens a section; what follows on its line is read on. An empty name stands for
      the rest of the text from the ']' on. */
  lemma HeaderOpens(name: string, r: string, s: nat, ini: Ini)
    requires ']' !in name && '\n' !in name
    ensures LoadWith(Pass, "[" + name + "]" + r, s, ini) ==
            LoadWith(Pass, r, |ini.sections|,
                     ini.(sections := ini.sections + [if name == "" then "]" + r else name]))
  {
    var t := "[" + name + "]" + r;
    assert t[1..] == name + ("]" + r);
    Take(name, "]" + r, InHeader);
    assert t[1 + |name|] == ']';
    ItemTurn(t, |name| + 2, Section(if name == "" then "]" + r else name), s, ini);
    assert t[|name| + 2..] == r;
  }

  // ----- properties

  /** The text of a property line and what follows it. */
  function PropText(name: string, w: string, v: string, z: string, r: string): string {
    name + "=" + w + v + z + r
  }

  predicate NameFits(name: string) {
    && (name != "" ==> Visible(name[0]) && name[0] != ';' && name[0] != '[')
    && '=' !in name && '\n' !in name
  }

  predicate ValueFits(v: string) { v != "" && Visible(v[0]) && Visible(v[|v| - 1]) && '\n' !in v }

  lemma PropName(name: string, rest: string, t: string)
    requires NameFits(name) && t == name + ("=" + rest)
    ensures Span(t, InName) == |name| && t[..|name|] == name && t[|name|..] == "=" + rest
    ensures |name| < |t| && t[|name|] == '=' && t[|name| + 1..] == rest && !Blank(t[0]) && t[0] != ';' && t[0] != '['
  {
    Take(name, "=" + rest, InName);
    assert t[|name|] == (t[|name|..])[0];
    assert name == "" ==> t[0] == '=';
  }

  lemma {:induction false} TrimBlanks(t: string, e: nat, z: nat)
    requires e + z <= |t| && Blanks(t[e..e + z]) && (e == 0 || !Blank(t[e - 1]))
    ensures TrimEnd(t, e + z) == e
    decreases z
  {
    if z > 0 {
      assert t[e..e + z][z - 1] == t[e + z - 1];
      assert t[e..e + z][..z - 1] == t[e..e + (z - 1)];
      TrimBlanks(t, e, z - 1);
    }
  }

  lemma {:induction false} ValueBegins(t: string, k: nat, w: string, r: string)
    requires k < |t| && t[k + 1..] == w + r && Spaces(w) && r != "" && Visible(r[0])
    ensures ValueStart(t, k) == k + 1 + |w| && t[k + 1 + |w|..] == r
  {
    Take(w, r, Indent);
    assert t[k + 1 + |w|..] == t[k + 1..][|w|..];
  }

  lemma ValueSplit(t: string, s: nat, v: string, z: string, r: string)
    requires s <= |t| && t[s..] == v + (z + r) && v != ""
    ensures s + |v| + |z| <= |t| && t[s + |v|..] == z + r && t[s + |v|..s + |v| + |z|] == z
    ensures t[s + |v| - 1] == v[|v| - 1] && t[s..][..|v|] == v && t[s..] == (v + z) + r
  {
    assert t[s + |v|..] == t[s..][|v|..];
    assert t[s + |v| - 1] == t[s..][|v| - 1];
    assert t[s + |v|..s + |v| + |z|] == t[s + |v|..][..|z|];
  }

  lemma {:induction false} LineSpan(x: string, v: string, z: string, r: string)
    requires x == v + (z + r) && '\n' !in v && '\n' !in z && LineEnd(r)
    ensures Span(x, Inline) == |v| + |z|
  {
    assert x == (v + z) + r;
    Take(v + z, r, Inline);
  }

  lemma {:induction false} EndAt(t: string, k: nat, b: nat, n: nat)
    requires k < |t| && t[k] == '=' && b == ValueStart(t, k) && n == Span(t[b..], Inline)
    ensures b + n <= |t| && ValueEnd(t, k) == TrimEnd(t, b + n)
  {
  }

  lemma {:induction false} ValueTrim(t: string, s: nat, v: string, z: string, r: string)
    requires s <= |t| && t[s..] == v + (z + r) && ValueFits(v) && Spaces(z)
    ensures s + |v| + |z| <= |t| && TrimEnd(t, s + |v| + |z|) == s + |v|
  {
    ValueSplit(t, s, v, z, r);
    TrimBlanks(t, s + |v|, |z|);
  }

  lemma {:induction false} ValueStops(t: string, k: nat, v: string, z: string, r: string)
    requires k < |t| && t[k] == '=' && t[ValueStart(t, k)..] == v + (z + r)
    requires ValueFits(v) && Spaces(z) && LineEnd(r)
    ensures ValueEnd(t, k) == ValueStart(t, k) + |v|
  {
    var s := ValueStart(t, k);
    LineSpan(t[s..], v, z, r);
    EndAt(t, k, s, |v| + |z|);
    ValueTrim(t, s, v, z, r);
  }

  lemma PropSplit(name: string, w: string, v: string, z: string, r: string)
    ensures PropText(name, w, v, z, r) == name + ("=" + (w + (v + (z + r))))
  {
  }

  lemma {:induction false} PropItem(t: string, k: nat, b: nat, e: nat, a: Action)
    requires t != [] && !Blank(t[0]) && t[0] != ';' && t[0] != '[' && Span(t, InName) == k < |t| && t[k] == '='
    requires b == ValueStart(t, k) && e == ValueEnd(t, k) && a == Property(Arg(t, k), Arg(t[b..], e - b))
    ensures ReadItem(t) == (e, a)
  {
    PropertyRead(t, k);
  }

  lemma {:induction false} PropTurn(t: string, k: nat, b: nat, e: nat, a: Action, left: string, s: nat, ini: Ini)
    requires t != [] && !Blank(t[0]) && t[0] != ';' && t[0] != '[' && Span(t, InName) == k < |t| && t[k] == '='
    requires b == ValueStart(t, k) && e == ValueEnd(t, k) && a == Property(Arg(t, k), Arg(t[b..], e - b))
    requires t[e..] == left
    ensures LoadWith(Pass, t, s, ini) == LoadWith(Pass, left, s, ini.(props := ini.props + [Prop(s, a.name, a.value)]))
  {
    PropItem(t, k, b, e, a);
    ItemTurn(t, e, a, s, ini);
  }

  /** A property line up to its value, which starts at b. */
  predicate Front(t: string, name: string, b: nat) {
    && t != [] && !Blank(t[0]) && t[0] != ';' && t[0] != '['
    && Span(t, InName) == |name| < |t| && t[..|name|] == name && t[|name|] == '=' && b == ValueStart(t, |name|)
  }

  lemma {:induction false} PropFront(name: string, w: string, tail: string, t: string)
    requires NameFits(name) && Spaces(w) && tail != "" && Visible(tail[0]) && t == name + ("=" + (w + tail))
    ensures var b := |name| + 1 + |w|; Front(t, name, b) && b <= |t| && t[b..] == tail
  {
    PropName(name, w + tail, t);
    ValueBegins(t, |name|, w, tail);
  }

  /** The value, and what is left. */
  predicate Back(t: string, name: string, b: nat, v: string, left: string)
    requires Front(t, name, b)
  {
    b + |v| <= |t| && ValueEnd(t, |name|) == b + |v| && t[b..][..|v|] == v && t[b + |v|..] == left
  }

  lemma {:induction false} PropBack(t: string, name: string, b: nat, v: string, z: string, r: string)
    requires Front(t, name, b) && b <= |t| && t[b..] == v + (z + r) && ValueFits(v) && Spaces(z) && LineEnd(r)
    ensures Back(t, name, b, v, z + r)
  {
    ValueStops(t, |name|, v, z, r);
    ValueSplit(t, b, v, z, r);
  }

  lemma {:induction false} PropTaken(t: string, name: string, b: nat, v: string, left: string, s: nat, ini: Ini)
    requires Front(t, name, b) && v != "" && Back(t, name, b, v, left)
    ensures LoadWith(Pass, t, s, ini) ==
            LoadWith(Pass, left, s, ini.(props := ini.props + [Prop(s, if name == "" then t else name, v)]))
  {
    PropTurn(t, |name|, b, b + |v|, Property(if name == "" then t else name, v), left, s, ini);
  }

  /** A property line stores the name up to the '=' and the value without the blanks around it. An
      empty name stands for the rest of the text from the '=' on. */
  lemma {:induction false} PropertyStored(name: string, w: string, v: string, z: string, r: string, s: nat, ini: Ini)
    requires NameFits(name) && Spaces(w) && ValueFits(v) && Spaces(z) && LineEnd(r)
    ensures var t := PropText(name, w, v, z, r);
            LoadWith(Pass, t, s, ini) ==
            LoadWith(Pass, r, s, ini.(props := ini.props + [Prop(s, if name == "" then t else name, v)]))
  {
    var t, b := PropText(name, w, v, z, r), |name| + 1 + |w|;
    PropSplit(name, w, v, z, r);
    PropFront(name, w, v + (z + r), t);
    PropBack(t, name, b, v, z, r);
    PropTaken(t, name, b, v, z + r, s, ini);
    BlanksSkipped(z, r, s, ini.(props := ini.props + [Prop(s, if name == "" then t else name, v)]));
  }

  lemma {:induction false} IndentEnds(t: string, k: nat, w: string, r: string)
    requires k < |t| && t[k + 1..] == w + r && Spaces(w) && LineEnd(r)
    ensures ValueStart(t, k) == k + 1 + |w| && t[k + 1 + |w|..] == r && t[k + 1..k + 1 + |w|] == w
  {
    Take(w, r, Indent);
    assert t[k + 1 + |w|..] == t[k + 1..][|w|..];
    assert t[k + 1..k + 1 + |w|] == t[k + 1..][..|w|];
  }

  lemma {:induction false} LineStops(t: string, k: nat, b: nat)
    requires k < |t| && t[k] == '=' && b == ValueStart(t, k) && LineEnd(t[b..])
    ensures ValueEnd(t, k) == TrimEnd(t, b)
  {
    SpanPrefix("", t[b..], Inline);
    assert "" + t[b..] == t[b..];
  }

  lemma {:induction false} NoValue(t: string, k: nat, w: string, r: string)
    requires k < |t| && t[k] == '=' && t[k + 1..] == w + r && Spaces(w) && LineEnd(r)
    ensures ValueStart(t, k) == k + 1 + |w| && ValueEnd(t, k) == k + 1 && t[k + 1 + |w|..] == r
  {
    IndentEnds(t, k, w, r);
    LineStops(t, k, k + 1 + |w|);
    TrimBlanks(t, k + 1, |w|);
  }

  lemma {:induction false} EmptyTaken(t: string, name: string, w: string, r: string, s: nat, ini: Ini)
    requires NameFits(name) && Spaces(w) && LineEnd(r) && t == name + ("=" + (w + r))
    ensures LoadWith(Pass, t, s, ini) ==
            LoadWith(Pass, w + r, s, ini.(props := ini.props + [Prop(s, if name == "" then t else name, r)]))
  {
    PropName(name, w + r, t);
    NoValue(t, |name|, w, r);
    PropTurn(t, |name|, |name| + 1 + |w|, |name| + 1, Property(if name == "" then t else name, r), w + r, s, ini);
  }

  /** A line without a value stores the rest of the text in its place. */
  lemma {:induction false} EmptyValueStored(name: string, w: string, r: string, s: nat, ini: Ini)
    requires NameFits(name) && Spaces(w) && LineEnd(r)
    ensures var t := name + "=" + w + r;
            LoadWith(Pass, t, s, ini) ==
            LoadWith(Pass, r, s, ini.(props := ini.props + [Prop(s, if name == "" then t else name, r)]))
  {
    var t, stored := name + "=" + w + r, if name == "" then name + "=" + w + r else name;
    assert t == name + ("=" + (w + r));
    EmptyTaken(t, name, w, r, s, ini);
    BlanksSkipped(w, r, s, ini.(props := ini.props + [Prop(s, stored, r)]));
  }
}
