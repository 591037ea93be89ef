/** Saving to memory and loading from it, as the library's own description shows (common/ini.h). */
module IniReload {
  import opened IniText
  import opened IniRoundTrip
  import opened IniExact
  import opened IniFile

  // ----- what is printed is a C string

  lemma ConcatCString(a: string, b: string)
    requires IsCString(a) && IsCString(b)
    ensures IsCString(a + b)
  {
  }

  lemma LineCString(p: Prop)
    requires IsCString(p.name) && IsCString(p.value)
    ensures IsCString(Line(p))
  {
  }

  lemma {:induction false} LinesCString(props: seq<Prop>)
    requires forall i :: 0 <= i < |props| ==> IsCString(props[i].name) && IsCString(props[i].value)
    ensures IsCString(Lines(props))
  {
    if props != [] {
      LineCString(props[0]);
      LinesCString(props[1..]);
      ConcatCString(Line(props[0]), Lines(props[1..]));
    }
  }

  lemma {:induction false} OfCString(props: seq<Prop>, s: nat, n: nat)
    requires forall i :: 0 <= i < |props| ==> PropFormed(props[i], n)
    ensures forall i :: 0 <= i < |Of(props, s)| ==> IsCString(Of(props, s)[i].name) && IsCString(Of(props, s)[i].value)
  {
    if props != [] {
      assert PropFormed(props[|props| - 1], n);
      OfCString(props[..|props| - 1], s, n);
    }
  }

  lemma HeaderCString(name: string)
    requires IsCString(name)
    ensures IsCString(Header(name))
  {
  }

  lemma {:induction false} BodyCString(ini: Ini, s: nat, sep: string)
    requires WellFormed(ini) && s < |ini.sections| && IsCString(sep)
    ensures IsCString(Header(ini.sections[s]) + Lines(Of(ini.props, s)) + sep)
  {
    var head, lines := Header(ini.sections[s]), Lines(Of(ini.props, s));
    HeaderCString(ini.sections[s]);
    OfCString(ini.props, s, |ini.sections|);
    LinesCString(Of(ini.props, s));
    ConcatCString(head, lines);
    ConcatCString(head + lines, sep);
  }

  lemma {:induction false} TextCString(ini: Ini, s: nat, started: bool)
    requires WellFormed(ini) && s <= |ini.sections|
    ensures IsCString(TextFrom(ini, s, started))
    decreases |ini.sections| - s
  {
    if s < |ini.sections| {
      var body := Header(ini.sections[s]) + Lines(Of(ini.props, s));
      var started' := started || body != "";
      var sep := if started' then "\n" else "";
      BodyCString(ini, s, sep);
      TextCString(ini, s + 1, started');
      ConcatCString(body + sep, TextFrom(ini, s + 1, started'));
    }
  }

  /** Ask for the size, save into a buffer of that size, load the text in it: for every structure the
      result is what the format defines, and it has the same sections with the same properties if and
      only if the structure is legal. */
  method Reload(ini: Ini) returns (data: array<char>, reader: Reader)
    requires WellFormed(ini)
    ensures data.Length == |Text(ini)| + 1 && data[..data.Length - 1] == Text(ini) && data[data.Length - 1] == '\0'
    ensures reader.store.Valid() && reader.store.Value() == Load(Text(ini))
    ensures Same(reader.store.Value(), ini) <==> Legal(ini)
    ensures reader.store.Value() == Ini(ini.sections, Grouped(ini, 0)) <==> Legal(ini)
  {
    var size := Save(ini, null, 0);
    data := new char[size];
    ghost var was := data[..];
    var length := Save(ini, data, size);
    WholeText(data[..], was, size, Text(ini));
    TextCString(ini, 0, false);
    reader := new Reader();
    reader.Load(data[..length - 1]);
    RoundTrip(ini);
  }
}
