/** The text format of common/ini.h: what ini_save prints and what one outer pass of ini_load
    reads. Texts are C strings without their terminator: characters are bytes from 1 to 255. */
module IniText {

  datatype Prop = Prop(section: nat, name: string, value: string)

  /** Section 0 is the global section. */
  datatype Ini = Ini(sections: seq<string>, props: seq<Prop>)

  const CREATED := Ini([""], [])

  predicate IsCString(s: string) { forall i :: 0 <= i < |s| ==> '\0' < s[i] < 256 as char }

  /** A structure as the library can hold it: C strings, and every property in a section. */
  predicate WellFormed(ini: Ini) {
    && (forall s :: 0 <= s < |ini.sections| ==> IsCString(ini.sections[s]))
    && (forall i :: 0 <= i < |ini.props| ==> PropFormed(ini.props[i], |ini.sections|))
  }

  predicate PropFormed(p: Prop, n: nat) { p.section < n && IsCString(p.name) && IsCString(p.value) }

  // ----- printing

  /** The properties of section s, in order. */
  function Of(props: seq<Prop>, s: nat): seq<Prop> {
    if props == [] then []
    else Of(props[..|props| - 1], s) + if props[|props| - 1].section == s then [props[|props| - 1]] else []
  }

  function Line(p: Prop): string { p.name + "=" + p.value + "\n" }

  function Lines(props: seq<Prop>): string {
    if props == [] then "" else Line(props[0]) + Lines(props[1..])
  }

  function Header(name: string): string { if name == "" then "" else "[" + name + "]" + "\n" }

  /** Sections s and later; an empty line follows a section once anything has been written. */
  function TextFrom(ini: Ini, s: nat, started: bool): string
    requires s <= |ini.sections|
    decreases |ini.sections| - s
  {
    if s == |ini.sections| then ""
    else
      var body := Header(ini.sections[s]) + Lines(Of(ini.props, s));
      var started' := started || body != "";
      body + (if started' then "\n" else "") + TextFrom(ini, s + 1, started')
  }

  function Text(ini: Ini): string { TextFrom(ini, 0, false) }

  // ----- reading

  /** `c <= ' '` on a signed char: bytes of 128 and above are negative. */
  predicate Blank(c: char) { c <= ' ' || c >= 128 as char }

  /** The length of the longest prefix whose characters all satisfy p. */
  function Span(r: string, p: char -> bool): (n: nat)
    ensures n <= |r|
  {
    if r == [] || !p(r[0]) then 0 else 1 + Span(r[1..], p)
  }

  predicate Inline(c: char) { c != '\n' }
  predicate InHeader(c: char) { c != ']' && c != '\n' }
  predicate InName(c: char) { c != '=' && c != '\n' }
  predicate Indent(c: char) { Blank(c) && c != '\n' }

  /** Stepping back over blanks from position e. */
  function TrimEnd(t: string, e: nat): (r: nat)
    requires e <= |t|
    ensures r <= e
  {
    if e == 0 || !Blank(t[e - 1]) then e else TrimEnd(t, e - 1)
  }

  lemma {:induction false} TrimStops(t: string, e: nat, k: nat)
    requires k < e <= |t| && !Blank(t[k])
    ensures k < TrimEnd(t, e)
    decreases e
  {
    if k < e - 1 { TrimStops(t, e - 1, k); }
  }

  /** A name or value argument: a length of zero or less stands for the rest of the text. */
  function Arg(r: string, n: int): string
    requires n <= |r|
  {
    if n <= 0 then r else r[..n]
  }

  datatype Action = Stop | Skip | Section(name: string) | Property(name: string, value: string)

  /** Where the value starts on a line whose '=' is at k. */
  function ValueStart(t: string, k: nat): (r: nat)
    requires k < |t|
    ensures k < r <= |t|
  {
    k + 1 + Span(t[k + 1..], Indent)
  }

  /** Where it ends: at the end of the line, back over blanks, which the '=' stops. */
  function ValueEnd(t: string, k: nat): (r: nat)
    requires k < |t| && t[k] == '='
    ensures k < r <= |t|
  {
    var start2 := ValueStart(t, k);
    var end := start2 + Span(t[start2..], Inline);
    TrimStops(t, end, k);
    TrimEnd(t, end)
  }

  /** What a property line starting at t means and how far the cursor gets. */
  function ReadProperty(t: string): (r: (nat, Action))
    requires t != [] && !Blank(t[0])
    ensures 0 < r.0 <= |t|
  {
    var k := Span(t, InName);
    if k == |t| || t[k] != '=' then (k, Skip)
    else
      var start2, e := ValueStart(t, k), ValueEnd(t, k);
      (e, Property(Arg(t, k), Arg(t[start2..], e - start2)))
  }

  lemma {:induction false} PropertyRead(t: string, l: nat)
    requires t != [] && !Blank(t[0]) && l == Span(t, InName) && l < |t| && t[l] == '='
    ensures var start2, e := ValueStart(t, l), ValueEnd(t, l);
            ReadProperty(t) == (e, Property(Arg(t, l), Arg(t[start2..], e - start2)))
  {
  }

  lemma {:induction false} PropertySkipped(t: string, l: nat)
    requires t != [] && !Blank(t[0]) && l == Span(t, InName) && (l < |t| ==> t[l] != '=')
    ensures ReadProperty(t) == (l, Skip)
  {
  }

  function ReadHeader(t: string): (r: (nat, Action))
    requires t != [] && t[0] == '['
    ensures 0 < r.0 <= |t|
  {
    var k := Span(t[1..], InHeader);
    if k == |t| - 1 || t[1 + k] != ']' then (1 + k, Skip) else (k + 2, Section(Arg(t[1..], k)))
  }

  /** A comment, a section header or a property, at its first character. */
  function ReadItem(t: string): (r: (nat, Action))
    ensures r.0 <= |t| && (t != [] && !Blank(t[0]) ==> 0 < r.0)
  {
    if t == [] || Blank(t[0]) then (0, Stop)
    else if t[0] == ';' then (Span(t, Inline), Skip)
    else if t[0] == '[' then ReadHeader(t)
    else ReadProperty(t)
  }

  function PassOver(item: string -> (nat, Action), r: string): (nat, Action) {
    var b := Span(r, Blank);
    var (n, a) := item(r[b..]);
    (b + n, a)
  }

  /** One outer pass of ini_load from the text r: how far the cursor moves, and what is stored. It
      always moves forward, although the last trim loop steps back. */
  function Pass(r: string): (p: (nat, Action))
    ensures p.0 <= |r| && (r != [] ==> 0 < p.0)
  {
    SpanBlank(r);
    PassOver(ReadItem, r)
  }

  /** After the blanks comes the end of the text or a character that is not blank. */
  lemma {:induction false} SpanBlank(r: string)
    ensures var b := Span(r, Blank); b == |r| || !Blank(r[b])
  {
    if r != [] && Blank(r[0]) { SpanBlank(r[1..]); }
  }

  function Apply(ini: Ini, s: nat, a: Action): (Ini, nat) {
    match a
    case Section(name) => (ini.(sections := ini.sections + [name]), |ini.sections|)
    case Property(name, value) => (ini.(props := ini.props + [Prop(s, name, value)]), s)
    case _ => (ini, s)
  }

  /** ini_load's loop around a pass, from the text r, with s the current section. */
  function LoadWith(pass: string -> (nat, Action), r: string, s: nat, ini: Ini): Ini
    decreases |r|
  {
    var (n, a) := pass(r);
    if r == [] || n == 0 || n > |r| then ini
    else
      var (ini', s') := Apply(ini, s, a);
      LoadWith(pass, r[n..], s', ini')
  }

  type Loading = (string, nat, Ini) -> Ini

  /** One turn of the loop. */
  lemma Turn(pass: string -> (nat, Action), r: string, n: nat, a: Action, s: nat, ini: Ini)
    requires r != [] && pass(r) == (n, a) && 0 < n <= |r|
    ensures LoadWith(pass, r, s, ini) == var (ini', s') := Apply(ini, s, a); LoadWith(pass, r[n..], s', ini')
  {
  }

  /** ini_load */
  function Load(text: string): Ini { LoadWith(Pass, text, 0, CREATED) }
}
