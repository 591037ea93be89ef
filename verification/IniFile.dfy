/** ini_save and ini_load (common/ini.h) as they run: a writer limited to a buffer's size, and a
    reader that moves a cursor through the text. */
module IniFile {
  import opened IniText
  import opened IniStore

  // ----- saving

  predicate CharOk(now: seq<char>, was: seq<char>, size: int, text: string, i: nat)
    requires i < |now| == |was|
  {
    now[i] == if i < size && i < |text| then text[i] else was[i]
  }

  /** What a buffer holds once text has been written to it through a size limit. */
  predicate Clipped(now: seq<char>, was: seq<char>, size: int, text: string) {
    |now| == |was| && forall i: nat :: i < |now| ==> CharOk(now, was, size, text, i)
  }

  lemma ClippedSnoc(now: seq<char>, next: seq<char>, was: seq<char>, size: int, text: string, c: char)
    requires Clipped(now, was, size, text) && |next| == |now| && size <= |now|
    requires forall i :: 0 <= i < |now| ==> next[i] == if i == |text| && i < size then c else now[i]
    ensures Clipped(next, was, size, text + [c])
  {
    forall i: nat | i < |next| ensures CharOk(next, was, size, text + [c], i) {
      assert CharOk(now, was, size, text, i);
    }
  }

  ghost function Content(data: array?<char>): seq<char> reads data { if data == null then [] else data[..] }

  predicate Fits(data: array?<char>, size: int) { data != null ==> size <= data.Length }

  /** Where the writer is: text is what has been written, `was` what the buffer held before. */
  ghost predicate At(data: array?<char>, size: int, was: seq<char>, pos: nat, text: string) reads data {
    Fits(data, size) && pos == |text| && (data != null ==> Clipped(data[..], was, size, text))
  }

  method Put(data: array?<char>, size: int, pos: nat, c: char, ghost was: seq<char>, ghost text: string)
    returns (r: nat)
    requires At(data, size, was, pos, text)
    modifies data
    ensures At(data, size, was, r, text + [c])
  {
    if data != null {
      ghost var before := data[..];
      if pos < size { data[pos] := c; }
      ClippedSnoc(before, data[..], was, size, text, c);
    }
    r := pos + 1;
  }

  method PutAll(data: array?<char>, size: int, pos: nat, s: string, ghost was: seq<char>, ghost text: string)
    returns (r: nat)
    requires At(data, size, was, pos, text)
    modifies data
    ensures At(data, size, was, r, text + s)
  {
    r := pos;
    assert text + s[..0] == text;
    for i := 0 to |s|
      invariant At(data, size, was, r, text + s[..i])
    {
      r := Put(data, size, r, s[i], was, text + s[..i]);
      assert text + s[..i] + [s[i]] == text + s[..i + 1];
    }
    assert s[..|s|] == s;
  }

  lemma HeaderParts(text: string, name: string)
    requires name != ""
    ensures ((text + ['[']) + name + [']']) + ['\n'] == text + Header(name)
  {
  }

  method PutHeader(data: array?<char>, size: int, pos: nat, name: string, ghost was: seq<char>, ghost text: string)
    returns (r: nat)
    requires At(data, size, was, pos, text)
    modifies data
    ensures At(data, size, was, r, text + Header(name))
  {
    r := pos;
    if |name| > 0 {
      r := Put(data, size, r, '[', was, text);
      r := PutAll(data, size, r, name, was, text + ['[']);
      r := Put(data, size, r, ']', was, text + ['['] + name);
      r := Put(data, size, r, '\n', was, text + ['['] + name + [']']);
      HeaderParts(text, name);
    } else {
      assert text + Header(name) == text;
    }
  }

  lemma LineParts(text: string, p: Prop)
    ensures ((text + p.name) + ['='] + p.value) + ['\n'] == text + Line(p)
  {
  }

  method PutLine(data: array?<char>, size: int, pos: nat, p: Prop, ghost was: seq<char>, ghost text: string)
    returns (r: nat)
    requires At(data, size, was, pos, text)
    modifies data
    ensures At(data, size, was, r, text + Line(p))
  {
    r := PutAll(data, size, pos, p.name, was, text);
    r := Put(data, size, r, '=', was, text + p.name);
    r := PutAll(data, size, r, p.value, was, text + p.name + ['=']);
    r := Put(data, size, r, '\n', was, text + p.name + ['='] + p.value);
    LineParts(text, p);
  }

  lemma {:induction false} LinesSnoc(props: seq<Prop>, p: Prop)
    ensures Lines(props + [p]) == Lines(props) + Line(p)
  {
    if props == [] {
      assert Lines([p]) == Line(p) + Lines([]);
    } else {
      LinesSnoc(props[1..], p);
      assert (props + [p])[1..] == props[1..] + [p];
    }
  }

  /** One more property looked at. */
  lemma LinesNext(text: string, props: seq<Prop>, p: nat, s: nat)
    requires p < |props|
    ensures var lines := text + Lines(Of(props[..p], s));
            text + Lines(Of(props[..p + 1], s)) == if props[p].section == s then lines + Line(props[p]) else lines
  {
    OfNext(props, p, s);
    if props[p].section == s {
      LinesSnoc(Of(props[..p], s), props[p]);
    } else {
      assert Of(props[..p], s) + [] == Of(props[..p], s);
    }
  }

  method PutLines(data: array?<char>, size: int, pos: nat, props: seq<Prop>, s: nat, ghost was: seq<char>,
                  ghost text: string)
    returns (r: nat)
    requires At(data, size, was, pos, text)
    modifies data
    ensures At(data, size, was, r, text + Lines(Of(props, s)))
  {
    r := pos;
    assert text + Lines(Of(props[..0], s)) == text;
    for p := 0 to |props|
      invariant At(data, size, was, r, text + Lines(Of(props[..p], s)))
    {
      LinesNext(text, props, p, s);
      if props[p].section == s { r := PutLine(data, size, r, props[p], was, text + Lines(Of(props[..p], s))); }
    }
    assert props[..|props|] == props;
  }

  function Part(ini: Ini, s: nat, started: bool): string
    requires s < |ini.sections|
  {
    var body := Header(ini.sections[s]) + Lines(Of(ini.props, s));
    body + if started || body != "" then "\n" else ""
  }

  type Parts = (nat, bool) -> string

  predicate PartIs(part: Parts, ini: Ini, s: nat, started: bool)
    requires s < |ini.sections|
  {
    part(s, started) == Part(ini, s, started)
  }

  ghost predicate PartsOf(part: Parts, ini: Ini) {
    forall s: nat, started :: s < |ini.sections| ==> PartIs(part, ini, s, started)
  }

  method PutSection(data: array?<char>, size: int, pos: nat, ini: Ini, s: nat, ghost part: Parts,
                    ghost was: seq<char>, ghost text: string)
    returns (r: nat)
    requires At(data, size, was, pos, text) && s < |ini.sections| && PartsOf(part, ini)
    modifies data
    ensures At(data, size, was, r, text + part(s, text != ""))
  {
    ghost var head, lines := Header(ini.sections[s]), Lines(Of(ini.props, s));
    r := PutHeader(data, size, pos, ini.sections[s], was, text);
    r := PutLines(data, size, r, ini.props, s, was, text + head);
    assert PartIs(part, ini, s, text != "");
    assert text + head + lines == text + (head + lines);
    if r > 0 {
      r := Put(data, size, r, '\n', was, text + (head + lines));
      assert text + (head + lines) + ['\n'] == text + Part(ini, s, text != "");
    } else {
      assert text + (head + lines) == text + Part(ini, s, text != "");
    }
  }

  /** What has been written when section s is reached. */
  ghost function Before(part: Parts, s: nat): string {
    if s == 0 then "" else var text := Before(part, s - 1); text + part(s - 1, text != "")
  }

  lemma {:induction false} TextFirst(ini: Ini, s: nat, started: bool)
    requires s < |ini.sections|
    ensures var part := Part(ini, s, started);
            TextFrom(ini, s, started) == part + TextFrom(ini, s + 1, part != "")
  {
  }

  lemma PartFirst(text: string, part: string, rest: string)
    ensures (text + part) + rest == text + (part + rest)
  {
  }

  lemma PartStarted(ini: Ini, s: nat, text: string)
    requires s < |ini.sections|
    ensures var part := Part(ini, s, text != ""); part != "" <==> text + part != ""
  {
  }

  /** The section at s moves from what is to come to what has been written. */
  predicate Passes(part: Parts, from: Parts, s: nat, text: string) {
    var next := text + part(s, text != "");
    text + from(s, text != "") == next + from(s + 1, next != "")
  }

  predicate FromIs(from: Parts, ini: Ini, s: nat, started: bool)
    requires s <= |ini.sections|
  {
    from(s, started) == TextFrom(ini, s, started)
  }

  ghost predicate FromsOf(from: Parts, ini: Ini) {
    forall s: nat, started :: s <= |ini.sections| ==> FromIs(from, ini, s, started)
  }

  lemma {:induction false} SectionPasses(ini: Ini, part: Parts, from: Parts, s: nat, text: string)
    requires s < |ini.sections| && PartsOf(part, ini) && FromsOf(from, ini)
    ensures Passes(part, from, s, text)
  {
    var p := Part(ini, s, text != "");
    assert PartIs(part, ini, s, text != "") && FromIs(from, ini, s, text != "") && FromIs(from, ini, s + 1, p != "");
    TextFirst(ini, s, text != "");
    PartStarted(ini, s, text);
    PartFirst(text, p, TextFrom(ini, s + 1, p != ""));
  }

  lemma {:induction false} BeforeRest(part: Parts, from: Parts, n: nat, s: nat)
    requires forall k: nat, text :: k < n ==> Passes(part, from, k, text)
    requires s <= n
    ensures Before(part, s) + from(s, Before(part, s) != "") == from(0, false)
  {
    if s > 0 {
      BeforeRest(part, from, n, s - 1);
      assert Passes(part, from, s - 1, Before(part, s - 1));
    }
  }

  lemma {:induction false} BeforeAll(ini: Ini, part: Parts, from: Parts)
    requires PartsOf(part, ini) && FromsOf(from, ini)
    ensures Before(part, |ini.sections|) == from(0, false)
  {
    var n := |ini.sections|;
    forall k: nat, text | k < n ensures Passes(part, from, k, text) { SectionPasses(ini, part, from, k, text); }
    BeforeRest(part, from, n, n);
    assert FromIs(from, ini, n, Before(part, n) != "");
  }

  lemma {:induction false} BeforeIsText(ini: Ini, part: Parts)
    requires PartsOf(part, ini)
    ensures Before(part, |ini.sections|) == Text(ini)
  {
    var n := |ini.sections|;
    var from: Parts := (s: nat, started: bool) => if s <= n then TextFrom(ini, s, started) else "";
    assert forall s: nat, started :: s <= n ==> FromIs(from, ini, s, started);
    BeforeAll(ini, part, from);
  }

  method PutSections(data: array?<char>, size: int, ini: Ini, ghost part: Parts, ghost was: seq<char>) returns (r: nat)
    requires At(data, size, was, 0, "") && PartsOf(part, ini)
    modifies data
    ensures At(data, size, was, r, Before(part, |ini.sections|))
  {
    r := 0;
    for s := 0 to |ini.sections|
      invariant At(data, size, was, r, Before(part, s))
    {
      r := PutSection(data, size, r, ini, s, part, was, Before(part, s));
    }
  }

  /** ini_save: the returned length counts the whole text and its terminator, whatever the buffer
      and its size; of these characters the buffer gets those below size, and keeps the rest of
      what it held. */
  method Save(ini: Ini, data: array?<char>, size: int) returns (length: nat)
    requires Fits(data, size) && WellFormed(ini)
    modifies data
    ensures length == |Text(ini)| + 1
    ensures data != null ==> Clipped(data[..], old(Content(data)), size, Text(ini) + ['\0'])
  {
    ghost var was := Content(data);
    ghost var part: Parts := (s: nat, started: bool) => if s < |ini.sections| then Part(ini, s, started) else "";
    assert forall s: nat, started :: s < |ini.sections| ==> PartIs(part, ini, s, started);
    length := PutSections(data, size, ini, part, was);
    BeforeIsText(ini, part);
    length := Put(data, size, length, '\0', was, Text(ini));
  }

  /** With room for all of it, the buffer starts with the whole text and its terminator. */
  lemma WholeText(now: seq<char>, was: seq<char>, size: int, text: string)
    requires Clipped(now, was, size, text + ['\0']) && |text| + 1 <= size <= |now|
    ensures now[..|text|] == text && now[|text|] == '\0'
    ensures now[|text| + 1..] == was[|text| + 1..]
  {
    forall i: nat | i < |now| ensures now[i] == if i < |text| then text[i] else if i == |text| then '\0' else was[i] {
      assert CharOk(now, was, size, text + ['\0'], i);
    }
  }

  // ----- loading

  /** A loop that moves the cursor while the characters satisfy p. */
  method MoveWhile(data: string, ptr: nat, p: char -> bool) returns (q: nat)
    requires ptr <= |data|
    ensures q == ptr + Span(data[ptr..], p)
  {
    q := ptr;
    while q < |data| && p(data[q])
      invariant ptr <= q <= |data|
      invariant ptr + Span(data[ptr..], p) == q + Span(data[q..], p)
    {
      assert data[q..][1..] == data[q + 1..];
      q := q + 1;
    }
  }

  lemma Tails(data: string, ptr: nat, k: nat)
    requires ptr + k <= |data|
    ensures data[ptr..][k..] == data[ptr + k..]
  {
  }

  /** The loop that steps back over blanks, which a character that is not blank always stops. */
  method StepBack(data: string, ptr: nat, ghost k: nat) returns (q: nat)
    requires k < ptr <= |data| && !Blank(data[k])
    ensures k < q <= ptr && q == TrimEnd(data, ptr)
  {
    q := ptr - 1;
    while Blank(data[q])
      invariant k <= q < ptr
      invariant TrimEnd(data, ptr) == TrimEnd(data, q + 1)
      decreases q
    {
      q := q - 1;
    }
    q := q + 1;
  }

  /** From the '=' at k: where the value starts, and where it ends. */
  method ScanValue(t: string, k: nat) returns (start2: nat, e: nat)
    requires k < |t| && t[k] == '='
    ensures start2 == ValueStart(t, k) && e == ValueEnd(t, k)
  {
    start2 := MoveWhile(t, k + 1, Indent);
    e := MoveWhile(t, start2, Inline);
    e := StepBack(t, e, k);
  }

  /** The positions on a property line: the length l of its name, where its value starts, and where
      the cursor ends; l is negative when the line has no '='. */
  method ScanProperty(t: string) returns (n: nat, l: int, start2: nat)
    requires t != [] && !Blank(t[0])
    ensures n <= |t| && l <= |t| && start2 <= |t|
    ensures ReadProperty(t) == (n, if l < 0 then Skip else Property(Arg(t, l), Arg(t[start2..], n - start2)))
  {
    assert t[0..] == t;
    n := MoveWhile(t, 0, InName);
    l, start2 := -1, 0;
    if n < |t| && t[n] == '=' {
      l := n;
      PropertyRead(t, l);
      start2, n := ScanValue(t, l);
    } else {
      PropertySkipped(t, n);
    }
  }

  lemma {:induction false} SkipBlanks(item: string -> (nat, Action), r: string, t: string)
    requires t == r[Span(r, Blank)..]
    ensures PassOver(item, r) == (Span(r, Blank) + item(t).0, item(t).1)
  {
  }

  /** A pass skips the blanks and reads what follows them. */
  lemma {:induction false} PassAt(data: string, ptr: nat, ptr': nat)
    requires ptr < |data| && ptr' == ptr + Span(data[ptr..], Blank)
    ensures data[ptr'..] != [] ==> !Blank(data[ptr'..][0])
    ensures Pass(data[ptr..]) == (ptr' - ptr + ReadItem(data[ptr'..]).0, ReadItem(data[ptr'..]).1)
  {
    SpanBlank(data[ptr..]);
    Tails(data, ptr, ptr' - ptr);
    SkipBlanks(ReadItem, data[ptr..], data[ptr'..]);
  }

  predicate LoadsAs(load: Loading, pass: string -> (nat, Action), r: string, s: nat, ini: Ini) {
    load(r, s, ini) == LoadWith(pass, r, s, ini)
  }

  ghost predicate IsLoad(load: Loading, pass: string -> (nat, Action)) {
    forall r, s: nat, ini :: LoadsAs(load, pass, r, s, ini)
  }

  lemma {:induction false} LoopTurn(load: Loading, pass: string -> (nat, Action), data: string, ptr: nat, s: nat,
                                    ini: Ini)
    requires ptr < |data| && IsLoad(load, pass)
    ensures var (n, a) := pass(data[ptr..]);
            var (ini', s') := Apply(ini, s, a);
            0 < n <= |data| - ptr ==> load(data[ptr..], s, ini) == load(data[ptr + n..], s', ini')
  {
    var (n, a) := pass(data[ptr..]);
    if 0 < n <= |data| - ptr {
      var (ini', s') := Apply(ini, s, a);
      Turn(pass, data[ptr..], n, a, s, ini);
      Tails(data, ptr, n);
      assert LoadsAs(load, pass, data[ptr..], s, ini) && LoadsAs(load, pass, data[ptr + n..], s', ini');
    }
  }

  lemma LoadEnd(load: Loading, pass: string -> (nat, Action), data: string, s: nat, ini: Ini)
    requires IsLoad(load, pass)
    ensures load(data[|data|..], s, ini) == ini
  {
    assert LoadsAs(load, pass, data[|data|..], s, ini);
  }

  class Reader {
    const store: Store

    constructor ()
      ensures fresh(store) && store.Valid() && store.Value() == CREATED
    {
      store := new Store();
    }

    /** A section header at the start of t; s is the section properties then go to. */
    method ReadSection(t: string, s: nat) returns (n: nat, s': nat)
      requires store.Valid() && s < |store.sections|
      requires t != [] && t[0] == '['
      modifies store
      ensures n == ReadHeader(t).0 && (store.Value(), s') == Apply(old(store.Value()), s, ReadHeader(t).1)
      ensures store.Valid() && s' < |store.sections|
    {
      n := MoveWhile(t, 1, InHeader);
      s' := s;
      if n < |t| && t[n] == ']' {
        s' := store.SectionAdd(t[1..], n - 1);
        n := n + 1;
      }
    }

    /** A property at the start of t, for section s. */
    method ReadProp(t: string, s: nat) returns (n: nat)
      requires store.Valid() && s < |store.sections|
      requires t != [] && !Blank(t[0])
      modifies store
      ensures n == ReadProperty(t).0 && (store.Value(), s) == Apply(old(store.Value()), s, ReadProperty(t).1)
      ensures store.Valid() && store.sections == old(store.sections)
    {
      var l, start2;
      n, l, start2 := ScanProperty(t);
      if l >= 0 { store.PropertyAdd(s, t, l, t[start2..], n - start2); }
    }

    /** A comment, a section header or a property at the start of t. */
    method ReadOne(t: string, s: nat) returns (n: nat, s': nat)
      requires store.Valid() && s < |store.sections|
      requires t != [] ==> !Blank(t[0])
      modifies store
      ensures n == ReadItem(t).0 && (store.Value(), s') == Apply(old(store.Value()), s, ReadItem(t).1)
      ensures store.Valid() && s' < |store.sections|
    {
      n, s' := 0, s;
      if t == [] {
      } else if t[0] == ';' {
        assert t[0..] == t;
        n := MoveWhile(t, 0, Inline);
      } else if t[0] == '[' {
        n, s' := ReadSection(t, s);
      } else {
        n := ReadProp(t, s);
      }
    }

    /** One outer pass. */
    method OnePass(data: string, ptr: nat, s: nat) returns (ptr': nat, s': nat)
      requires store.Valid() && s < |store.sections| && ptr < |data|
      modifies store
      ensures var (n, a) := Pass(data[ptr..]);
              ptr' == ptr + n && (store.Value(), s') == Apply(old(store.Value()), s, a)
      ensures ptr < ptr' <= |data|
      ensures store.Valid() && s' < |store.sections|
    {
      ptr' := MoveWhile(data, ptr, Blank);
      PassAt(data, ptr, ptr');
      var n;
      n, s' := ReadOne(data[ptr'..], s);
      ptr' := ptr' + n;
    }

    method NextPass(data: string, ptr: nat, s: nat, ghost load: Loading) returns (ptr': nat, s': nat)
      requires store.Valid() && s < |store.sections| && ptr < |data| && IsLoad(load, Pass)
      modifies store
      ensures ptr < ptr' <= |data| && store.Valid() && s' < |store.sections|
      ensures load(data[ptr..], s, old(store.Value())) == load(data[ptr'..], s', store.Value())
    {
      LoopTurn(load, Pass, data, ptr, s, store.Value());
      ptr', s' := OnePass(data, ptr, s);
    }

    method AllPasses(data: string, ghost load: Loading)
      requires store.Valid() && store.Value() == CREATED && IsLoad(load, Pass)
      modifies store
      ensures store.Valid() && store.Value() == load(data, 0, CREATED)
    {
      var ptr: nat, s: nat := 0, 0;
      assert data[0..] == data;
      while ptr < |data|
        invariant ptr <= |data| && store.Valid() && s < |store.sections|
        invariant load(data[ptr..], s, store.Value()) == load(data, 0, CREATED)
        decreases |data| - ptr
      {
        ptr, s := NextPass(data, ptr, s, load);
      }
      LoadEnd(load, Pass, data, s, store.Value());
    }

    /** ini_load; no text at all leaves the structure as created. */
    method Load(data: string)
      requires store.Valid() && store.Value() == CREATED && IsCString(data)
      modifies store
      ensures store.Valid() && store.Value() == IniText.Load(data)
    {
      ghost var load: Loading := (r: string, s: nat, ini: Ini) => LoadWith(Pass, r, s, ini);
      assert forall r, s: nat, ini :: LoadsAs(load, Pass, r, s, ini);
      AllPasses(data, load);
      assert LoadsAs(load, Pass, data, 0, CREATED);
    }
  }
}
