/** The CSV writer and reader of common/shell.c: output_csv with CRLF rows, csv_read_one_field with
    a newline as row separator (section 2 of RFC 4180). */
module Csv {
  import opened ByteType

  type Bytes = seq<Byte>

  const QUOTE: Byte := 34
  const CR: Byte := 13
  const LF: Byte := 10
  const CRLF: Bytes := [CR, LF]
  const EOF: int := -1

  /** One-byte separators a caller may choose. */
  predicate SepOk(sep: Byte) { sep != 0 && sep != QUOTE && sep != CR && sep != LF }

  /** The separator as the reader keeps it: a signed char widened to an int. */
  function Widened(sep: Byte): (c: int)
    ensures -128 <= c < 128 && (c == sep || c + 256 == sep)
  {
    if sep < 128 then sep else sep - 256
  }

  // ----- writing

  /** The table needCsvQuote. */
  predicate Needy(c: Byte) { c <= 32 || c == QUOTE || c == 39 || c >= 127 }

  predicate Plain(f: Bytes, sep: Byte) { f != [] && forall i :: 0 <= i < |f| ==> !Needy(f[i]) && f[i] != sep }

  function Doubled(c: Byte): Bytes { if c == QUOTE then [c, c] else [c] }

  function Escape(f: Bytes): Bytes { if f == [] then [] else Doubled(f[0]) + Escape(f[1..]) }

  function Term(f: Bytes, sep: Byte): Bytes {
    if Plain(f, sep) then f else [QUOTE] + (Escape(f) + [QUOTE])
  }

  function RowText(row: seq<Bytes>, sep: Byte): Bytes {
    if row == [] then []
    else if |row| == 1 then Term(row[0], sep) + CRLF
    else Term(row[0], sep) + ([sep] + RowText(row[1..], sep))
  }

  function Text(rows: seq<seq<Bytes>>, sep: Byte): Bytes {
    if rows == [] then [] else RowText(rows[0], sep) + Text(rows[1..], sep)
  }

  // ----- reading

  /** A field, the rest of the input, and the character that ended the field. */
  datatype Field = Field(value: Bytes, rest: Bytes, term: int)

  function Next(input: Bytes): int { if input == [] then EOF else input[0] }
  function Tail(input: Bytes): Bytes { if input == [] then [] else input[1..] }

  /** Cutting at the last quote. */
  function Strip(z: Bytes): Bytes {
    if z == [] || z[|z| - 1] == QUOTE then z[..if z == [] then 0 else |z| - 1] else Strip(z[..|z| - 1])
  }

  predicate Closes(c: int, pc: int, ppc: int, cSep: int) {
    (c == cSep && pc == QUOTE) || (c == LF && pc == QUOTE) ||
    (c == LF && pc == CR && ppc == QUOTE) || (c == EOF && pc == QUOTE)
  }

  /** The loop over a quoted field, with z read so far and pc, ppc the characters before. */
  function ReadQuoted(input: Bytes, z: Bytes, pc: int, ppc: int, cSep: int): (f: Field)
    ensures |f.rest| <= |input|
    decreases |input|
  {
    var c := Next(input);
    if c == QUOTE && pc == QUOTE then ReadQuoted(input[1..], z, 0, ppc, cSep)
    else if Closes(c, pc, ppc, cSep) then Field(Strip(z), Tail(input), c)
    else if c == EOF then Field(z, [], c)
    else ReadQuoted(input[1..], z + [input[0]], c, pc, cSep)
  }

  /** The loop over an unquoted field. */
  function ReadBare(input: Bytes, z: Bytes, cSep: int): (f: Field)
    ensures |f.rest| <= |input| && (input != [] ==> |f.rest| < |input|)
    decreases |input|
  {
    var c := Next(input);
    if c == EOF || c == cSep || c == LF then
      Field(if c == LF && z != [] && z[|z| - 1] == CR then z[..|z| - 1] else z, Tail(input), c)
    else ReadBare(input[1..], z + [input[0]], cSep)
  }

  datatype Read = End | Got(field: Field)

  /** csv_read_one_field; `first` while nothing has been read yet, when a byte order mark is skipped. */
  function ReadField(input: Bytes, first: bool, cSep: int): (r: Read)
    ensures r.Got? ==> |r.field.rest| < |input|
    decreases |input|
  {
    if input == [] then End
    else if input[0] == QUOTE then Got(ReadQuoted(input[1..], [], 0, 0, cSep))
    else if first && input[0] == 0xEF then
      var second := input[1..];
      if Next(second) == 0xBB then
        var third := second[1..];
        if Next(third) == 0xBF then ReadField(third[1..], false, cSep)
        else Got(ReadBare(third, [0xEF, 0xBB], cSep))
      else Got(ReadBare(second, [0xEF], cSep))
    else Got(ReadBare(input, [], cSep))
  }

  /** Fields are read until the input ends; a field that a separator does not end ends its row. */
  function ReadRows(input: Bytes, first: bool, row: seq<Bytes>, cSep: int): seq<seq<Bytes>>
    decreases |input|
  {
    match ReadField(input, first, cSep)
    case End => if row == [] then [] else [row]
    case Got(f) =>
      if f.term == cSep then ReadRows(f.rest, false, row + [f.value], cSep)
      else [row + [f.value]] + ReadRows(f.rest, false, [], cSep)
  }

  function ReadTable(input: Bytes, sep: Byte): seq<seq<Bytes>> { ReadRows(input, true, [], Widened(sep)) }

  // ----- a quoted field is read back

  /** Between two characters of the field nothing looks like its end. */
  predicate Open(pc: int, ppc: int) { pc != QUOTE && !(pc == CR && ppc == QUOTE) }

  lemma QuotedChar(x: Byte, r: Bytes, z: Bytes, pc: int, ppc: int, cSep: int)
    requires Open(pc, ppc) && cSep != QUOTE
    ensures x == QUOTE ==> ReadQuoted([x, x] + r, z, pc, ppc, cSep) == ReadQuoted(r, z + [x], 0, pc, cSep)
    ensures x != QUOTE ==> ReadQuoted([x] + r, z, pc, ppc, cSep) == ReadQuoted(r, z + [x], x, pc, cSep)
  {
    assert ([x] + r)[1..] == r;
    assert ([x, x] + r)[1..] == [x] + r;
  }

  lemma EscapeFirst(f: Bytes, r: Bytes)
    requires f != []
    ensures Escape(f) + r == Doubled(f[0]) + (Escape(f[1..]) + r)
  {
  }

  type Quoting = (Bytes, Bytes, int, int) -> Field

  type Escaping = Bytes -> Bytes

  predicate CharStep(read: Quoting, esc: Escaping, f: Bytes, r: Bytes, z: Bytes, pc: int, ppc: int)
    requires f != []
  {
    read(esc(f) + r, z, pc, ppc) == read(esc(f[1..]) + r, z + [f[0]], if f[0] == QUOTE then 0 else f[0], pc)
  }

  lemma {:induction false} QuotedWith(read: Quoting, esc: Escaping, f: Bytes, r: Bytes, z: Bytes, pc: int, ppc: int)
    returns (pc': int, ppc': int)
    requires Open(pc, ppc) && esc([]) == []
    requires forall f, r, z, pc, ppc :: f != [] && Open(pc, ppc) ==> CharStep(read, esc, f, r, z, pc, ppc)
    ensures Open(pc', ppc') && read(esc(f) + r, z, pc, ppc) == read(r, z + f, pc', ppc')
    decreases |f|
  {
    if f == [] {
      pc', ppc' := pc, ppc;
      assert esc(f) + r == r && z + f == z;
    } else {
      assert CharStep(read, esc, f, r, z, pc, ppc);
      pc', ppc' := QuotedWith(read, esc, f[1..], r, z + [f[0]], if f[0] == QUOTE then 0 else f[0], pc);
      assert z + [f[0]] + f[1..] == z + f;
    }
  }

  lemma QuotedStep(f: Bytes, r: Bytes, z: Bytes, pc: int, ppc: int, cSep: int)
    requires f != [] && Open(pc, ppc) && cSep != QUOTE
    ensures ReadQuoted(Escape(f) + r, z, pc, ppc, cSep) ==
            ReadQuoted(Escape(f[1..]) + r, z + [f[0]], if f[0] == QUOTE then 0 else f[0], pc, cSep)
  {
    EscapeFirst(f, r);
    QuotedChar(f[0], Escape(f[1..]) + r, z, pc, ppc, cSep);
  }

  lemma QuotedBody(f: Bytes, r: Bytes, z: Bytes, pc: int, ppc: int, cSep: int) returns (pc': int, ppc': int)
    requires Open(pc, ppc) && cSep != QUOTE
    ensures Open(pc', ppc') && ReadQuoted(Escape(f) + r, z, pc, ppc, cSep) == ReadQuoted(r, z + f, pc', ppc', cSep)
  {
    var read: Quoting := (i, z, pc, ppc) => ReadQuoted(i, z, pc, ppc, cSep);
    forall f, r, z, pc, ppc | f != [] && Open(pc, ppc) ensures CharStep(read, Escape, f, r, z, pc, ppc) {
      QuotedStep(f, r, z, pc, ppc, cSep);
    }
    pc', ppc' := QuotedWith(read, Escape, f, r, z, pc, ppc);
  }

  /** What may follow a field: the separator, as the reader knows it, or the end of the row. */
  predicate Follows(t: Bytes, cSep: int) { (|t| == 1 && t[0] == cSep && cSep != LF) || t == CRLF }

  lemma QuotedClose(t: Bytes, r: Bytes, z: Bytes, pc: int, ppc: int, cSep: int)
    requires Open(pc, ppc) && Follows(t, cSep) && cSep != QUOTE && cSep != CR
    ensures ReadQuoted([QUOTE] + (t + r), z, pc, ppc, cSep) == Field(z, r, if t == CRLF then LF else cSep)
  {
    var a := t + r;
    assert ([QUOTE] + a)[1..] == a;
    var zq := z + [QUOTE];
    assert Strip(zq) == z;
    if t == CRLF {
      assert a[1..][1..] == r && a[1..][0] == LF;
      assert Strip(zq + [CR]) == Strip(zq) by { assert (zq + [CR])[..|zq|] == zq; }
      assert ReadQuoted(a, zq, QUOTE, pc, cSep) == ReadQuoted(a[1..], zq + [CR], CR, QUOTE, cSep);
    } else {
      assert a[1..] == r;
    }
  }

  lemma QuotedField(f: Bytes, t: Bytes, r: Bytes, first: bool, cSep: int)
    requires Follows(t, cSep) && cSep != QUOTE && cSep != CR
    ensures ReadField([QUOTE] + (Escape(f) + ([QUOTE] + (t + r))), first, cSep) ==
            Got(Field(f, r, if t == CRLF then LF else cSep))
  {
    var rest := [QUOTE] + (t + r);
    assert ([QUOTE] + (Escape(f) + rest))[1..] == Escape(f) + rest;
    var pc, ppc := QuotedBody(f, rest, [], 0, 0, cSep);
    assert [] + f == f;
    QuotedClose(t, r, f, pc, ppc, cSep);
  }

  // ----- an unquoted field is read back

  lemma {:induction false} BareBody(f: Bytes, r: Bytes, z: Bytes, cSep: int)
    requires forall i :: 0 <= i < |f| ==> f[i] != cSep && f[i] != LF
    ensures ReadBare(f + r, z, cSep) == ReadBare(r, z + f, cSep)
    decreases |f|
  {
    if f == [] {
      assert f + r == r && z + f == z;
    } else {
      assert (f + r)[1..] == f[1..] + r;
      BareBody(f[1..], r, z + [f[0]], cSep);
      assert z + [f[0]] + f[1..] == z + f;
    }
  }

  lemma BareClose(t: Bytes, r: Bytes, z: Bytes, cSep: int)
    requires Follows(t, cSep) && cSep != CR
    ensures ReadBare(t + r, z, cSep) == Field(z, r, if t == CRLF then LF else cSep)
  {
    var a := t + r;
    if t == CRLF {
      assert a[1..][1..] == r && a[1..][0] == LF;
      assert ReadBare(a, z, cSep) == ReadBare(a[1..], z + [CR], cSep);
      assert (z + [CR])[..|z|] == z;
    } else {
      assert a[1..] == r;
    }
  }

  lemma BareField(f: Bytes, sep: Byte, t: Bytes, r: Bytes, first: bool)
    requires Plain(f, sep) && SepOk(sep) && Follows(t, Widened(sep))
    ensures ReadField(f + (t + r), first, Widened(sep)) == Got(Field(f, r, if t == CRLF then LF else Widened(sep)))
  {
    var a := f + (t + r);
    assert !Needy(f[0]) && a[0] == f[0];
    BareBody(f, t + r, [], Widened(sep));
    assert [] + f == f;
    BareClose(t, r, f, Widened(sep));
  }

  /** Any field, quoted or not, comes back whole, with what ended it. */
  lemma FieldBack(f: Bytes, sep: Byte, t: Bytes, r: Bytes, first: bool)
    requires SepOk(sep) && Follows(t, Widened(sep))
    ensures ReadField(Term(f, sep) + (t + r), first, Widened(sep)) ==
            Got(Field(f, r, if t == CRLF then LF else Widened(sep)))
  {
    if Plain(f, sep) {
      BareField(f, sep, t, r, first);
    } else {
      QuotedField(f, t, r, first, Widened(sep));
      TermSplit(f, t + r);
    }
  }

  lemma TermSplit(f: Bytes, a: Bytes)
    ensures [QUOTE] + (Escape(f) + [QUOTE]) + a == [QUOTE] + (Escape(f) + ([QUOTE] + a))
  {
  }

  // ----- tables

  /** A field is a C string. */
  predicate IsCString(f: Bytes) { 0 !in f }

  predicate RowFormed(row: seq<Bytes>) { forall j :: 0 <= j < |row| ==> IsCString(row[j]) }

  /** A separator is needed only if it is below 128. */
  predicate Readable(rows: seq<seq<Bytes>>, sep: Byte) {
    forall i :: 0 <= i < |rows| ==> sep < 128 || |rows[i]| == 1
  }

  lemma FieldStep(f: Bytes, sep: Byte, t: Bytes, r: Bytes, first: bool, row: seq<Bytes>)
    requires SepOk(sep) && Follows(t, Widened(sep))
    ensures ReadRows(Term(f, sep) + (t + r), first, row, Widened(sep)) ==
            if t == CRLF then [row + [f]] + ReadRows(r, false, [], Widened(sep))
            else ReadRows(r, false, row + [f], Widened(sep))
  {
    FieldBack(f, sep, t, r, first);
  }

  lemma RowOne(row: seq<Bytes>, sep: Byte, r: Bytes)
    requires |row| == 1
    ensures row == [row[0]] && RowText(row, sep) + r == Term(row[0], sep) + (CRLF + r)
  {
  }

  lemma RowMore(row: seq<Bytes>, sep: Byte, r: Bytes)
    requires |row| > 1
    ensures RowText(row, sep) + r == Term(row[0], sep) + ([sep] + (RowText(row[1..], sep) + r))
  {
  }

  lemma RowLast(row: seq<Bytes>, sep: Byte, r: Bytes, first: bool, before: seq<Bytes>)
    requires SepOk(sep) && |row| == 1
    ensures ReadRows(RowText(row, sep) + r, first, before, Widened(sep)) ==
            [before + row] + ReadRows(r, false, [], Widened(sep))
  {
    RowOne(row, sep, r);
    FieldStep(row[0], sep, CRLF, r, first, before);
  }

  lemma RowStep(row: seq<Bytes>, sep: Byte, r: Bytes, first: bool, before: seq<Bytes>)
    requires SepOk(sep) && |row| > 1 && sep < 128
    ensures ReadRows(RowText(row, sep) + r, first, before, Widened(sep)) ==
            ReadRows(RowText(row[1..], sep) + r, false, before + [row[0]], Widened(sep))
  {
    RowMore(row, sep, r);
    FieldStep(row[0], sep, [sep], RowText(row[1..], sep) + r, first, before);
  }

  type Reading = (Bytes, bool, seq<Bytes>) -> seq<seq<Bytes>>

  type Printing = seq<Bytes> -> Bytes

  predicate LastOk(read: Reading, text: Printing, row: seq<Bytes>, r: Bytes, first: bool, before: seq<Bytes>) {
    read(text(row) + r, first, before) == [before + row] + read(r, false, [])
  }

  predicate StepOk(read: Reading, text: Printing, row: seq<Bytes>, r: Bytes, first: bool, before: seq<Bytes>)
    requires row != []
  {
    read(text(row) + r, first, before) == read(text(row[1..]) + r, false, before + [row[0]])
  }

  lemma {:induction false} RowWith(read: Reading, text: Printing, row: seq<Bytes>, r: Bytes, first: bool,
                                   before: seq<Bytes>)
    requires row != []
    requires forall row, r, first, before :: |row| == 1 ==> LastOk(read, text, row, r, first, before)
    requires |row| > 1 ==> forall row, r, first, before :: |row| > 1 ==> StepOk(read, text, row, r, first, before)
    ensures read(text(row) + r, first, before) == [before + row] + read(r, false, [])
    decreases |row|
  {
    if |row| == 1 {
      assert LastOk(read, text, row, r, first, before);
    } else {
      assert StepOk(read, text, row, r, first, before);
      RowWith(read, text, row[1..], r, false, before + [row[0]]);
      assert before + [row[0]] + row[1..] == before + row;
    }
  }

  lemma RowBack(row: seq<Bytes>, sep: Byte, r: Bytes, first: bool, before: seq<Bytes>)
    requires SepOk(sep) && row != [] && (sep < 128 || |row| == 1)
    ensures ReadRows(RowText(row, sep) + r, first, before, Widened(sep)) ==
            [before + row] + ReadRows(r, false, [], Widened(sep))
  {
    var read: Reading := (i, first, row) => ReadRows(i, first, row, Widened(sep));
    var text: Printing := row => RowText(row, sep);
    forall row, r, first, before | |row| == 1 ensures LastOk(read, text, row, r, first, before) {
      RowLast(row, sep, r, first, before);
    }
    if |row| > 1 {
      forall row, r, first, before | |row| > 1 ensures StepOk(read, text, row, r, first, before) {
        RowStep(row, sep, r, first, before);
      }
    }
    RowWith(read, text, row, r, first, before);
  }

  lemma {:induction false} FirstRow(rows: seq<seq<Bytes>>, sep: Byte, first: bool)
    requires SepOk(sep) && rows != [] && rows[0] != [] && (sep < 128 || |rows[0]| == 1)
    ensures ReadRows(Text(rows, sep), first, [], Widened(sep)) ==
            [rows[0]] + ReadRows(Text(rows[1..], sep), false, [], Widened(sep))
  {
    RowBack(rows[0], sep, Text(rows[1..], sep), first, []);
    assert [] + rows[0] == rows[0];
  }

  type Tables = seq<seq<Bytes>> -> Bytes

  /** Reading a table starts with its first row. */
  predicate FirstOk(read: Reading, text: Tables, rows: seq<seq<Bytes>>, first: bool)
    requires rows != []
  {
    read(text(rows), first, []) == [rows[0]] + read(text(rows[1..]), false, [])
  }

  lemma {:induction false} TableWith(read: Reading, text: Tables, rows: seq<seq<Bytes>>, first: bool)
    requires forall k, first :: 0 <= k < |rows| ==> FirstOk(read, text, rows[k..], first)
    requires forall first :: read(text([]), first, []) == []
    ensures read(text(rows), first, []) == rows
    decreases |rows|
  {
    if rows != [] {
      assert rows[0..] == rows;
      assert FirstOk(read, text, rows, first);
      forall k, first | 0 <= k < |rows[1..]| ensures FirstOk(read, text, rows[1..][k..], first) {
        assert rows[1..][k..] == rows[k + 1..];
      }
      TableWith(read, text, rows[1..], false);
    }
  }

  lemma TableBack(rows: seq<seq<Bytes>>, sep: Byte, first: bool)
    requires SepOk(sep) && Readable(rows, sep) && forall i :: 0 <= i < |rows| ==> rows[i] != []
    ensures ReadRows(Text(rows, sep), first, [], Widened(sep)) == rows
  {
    var read: Reading := (i, first, row) => ReadRows(i, first, row, Widened(sep));
    var text: Tables := rows => Text(rows, sep);
    forall k, first | 0 <= k < |rows| ensures FirstOk(read, text, rows[k..], first) { FirstRow(rows[k..], sep, first); }
    TableWith(read, text, rows, first);
  }

  // ----- a separator of 128 or more is written but never recognised

  lemma StripLast(z: Bytes, k: nat)
    requires (k < |z| && z[|z| - 1] == QUOTE) || (k < |z| - 1 && z[|z| - 1] == CR && z[|z| - 2] == QUOTE)
    ensures |Strip(z)| >= k
  {
  }

  /** What has been read of a quoted field stays when the field is cut at a later quote. */
  lemma {:induction false} QuotedGrows(input: Bytes, z: Bytes, k: nat, pc: int, ppc: int, cSep: int)
    requires k <= |z|
    requires pc == QUOTE ==> k < |z| && z[|z| - 1] == QUOTE
    requires pc == CR && ppc == QUOTE ==> k < |z| - 1 && z[|z| - 1] == CR && z[|z| - 2] == QUOTE
    ensures |ReadQuoted(input, z, pc, ppc, cSep).value| >= k
    decreases |input|
  {
    var c := Next(input);
    if c == QUOTE && pc == QUOTE {
      QuotedGrows(input[1..], z, k, 0, ppc, cSep);
    } else if Closes(c, pc, ppc, cSep) {
      StripLast(z, k);
    } else if c != EOF {
      QuotedGrows(input[1..], z + [input[0]], k, c, pc, cSep);
    }
  }

  lemma {:induction false} BareGrows(input: Bytes, z: Bytes, k: nat, cSep: int)
    requires k <= |z| && (z != [] && z[|z| - 1] == CR ==> k < |z|)
    ensures |ReadBare(input, z, cSep).value| >= k
    decreases |input|
  {
    var c := Next(input);
    if c != EOF && c != cSep && c != LF { BareGrows(input[1..], z + [input[0]], k, cSep); }
  }

  lemma QuotedPast(sep: Byte, r: Bytes, z: Bytes, pc: int, ppc: int)
    requires SepOk(sep) && sep >= 128 && Open(pc, ppc)
    ensures |ReadQuoted([QUOTE] + ([sep] + r), z, pc, ppc, Widened(sep)).value| > |z|
  {
    var a, zq := [sep] + r, z + [QUOTE];
    assert ([QUOTE] + a)[1..] == a && a[1..] == r;
    assert ReadQuoted(a, zq, QUOTE, pc, Widened(sep)) == ReadQuoted(r, zq + [sep], sep, QUOTE, Widened(sep));
    QuotedGrows(r, zq + [sep], |zq + [sep]|, sep, QUOTE, Widened(sep));
  }

  /** The reader runs past the separator, into the next field. */
  lemma FieldLost(f: Bytes, sep: Byte, r: Bytes, first: bool)
    requires SepOk(sep) && sep >= 128
    ensures var read := ReadField(Term(f, sep) + ([sep] + r), first, Widened(sep));
            read.Got? && |read.field.value| > |f|
  {
    var a := [sep] + r;
    if Plain(f, sep) {
      assert !Needy(f[0]) && (f + a)[0] == f[0];
      assert f + a == (f + [sep]) + r;
      BareBody(f + [sep], r, [], Widened(sep));
      assert [] + (f + [sep]) == f + [sep];
      BareGrows(r, f + [sep], |f| + 1, Widened(sep));
    } else {
      TermSplit(f, a);
      var rest := [QUOTE] + a;
      assert ([QUOTE] + (Escape(f) + rest))[1..] == Escape(f) + rest;
      var pc, ppc := QuotedBody(f, rest, [], 0, 0, Widened(sep));
      assert [] + f == f;
      QuotedPast(sep, r, f, pc, ppc);
    }
  }

  /** Fields of an unfinished row stay at the front of the result. */
  lemma {:induction false} RowsKeep(input: Bytes, first: bool, row: seq<Bytes>, cSep: int)
    requires row != []
    ensures var rows := ReadRows(input, first, row, cSep); rows != [] && rows[0] != [] && rows[0][0] == row[0]
    decreases |input|
  {
    match ReadField(input, first, cSep)
    case End =>
    case Got(f) => if f.term == cSep { RowsKeep(f.rest, false, row + [f.value], cSep); }
  }

  lemma RowLost(row: seq<Bytes>, sep: Byte, r: Bytes, first: bool)
    requires SepOk(sep) && sep >= 128 && |row| > 1
    ensures var rows := ReadRows(RowText(row, sep) + r, first, [], Widened(sep));
            rows != [] && rows[0] != [] && |rows[0][0]| > |row[0]|
  {
    var rest := RowText(row[1..], sep) + r;
    RowMore(row, sep, r);
    FieldLost(row[0], sep, rest, first);
    var f := ReadField(RowText(row, sep) + r, first, Widened(sep)).field;
    assert [] + [f.value] == [f.value];
    if f.term == Widened(sep) { RowsKeep(f.rest, false, [f.value], Widened(sep)); }
  }

  lemma {:induction false} TableLost(rows: seq<seq<Bytes>>, sep: Byte, first: bool)
    requires SepOk(sep) && !Readable(rows, sep) && forall i :: 0 <= i < |rows| ==> rows[i] != []
    ensures ReadRows(Text(rows, sep), first, [], Widened(sep)) != rows
    decreases |rows|
  {
    var rest := Text(rows[1..], sep);
    if |rows[0]| > 1 {
      RowLost(rows[0], sep, rest, first);
    } else {
      TableLost(rows[1..], sep, false);
      FirstRow(rows, sep, first);
      var back := ReadRows(rest, false, [], Widened(sep));
      assert ([rows[0]] + back)[1..] == back;
    }
  }

  /** Every row that is read has a field. */
  lemma {:induction false} RowsHaveFields(input: Bytes, first: bool, row: seq<Bytes>, cSep: int)
    ensures forall i :: 0 <= i < |ReadRows(input, first, row, cSep)| ==> ReadRows(input, first, row, cSep)[i] != []
    decreases |input|
  {
    match ReadField(input, first, cSep)
    case End =>
    case Got(f) =>
      RowsHaveFields(f.rest, false, if f.term == cSep then row + [f.value] else [], cSep);
  }

  /** Writing a table and reading it field by field gives the same fields and row boundaries if and
      only if every row has a field and either the separator is below 128 or no row needs one: a row
      without fields writes nothing, and the reader keeps the separator as a signed character which
      it compares with bytes. */
  lemma RoundTrip(rows: seq<seq<Bytes>>, sep: Byte)
    requires SepOk(sep) && forall i :: 0 <= i < |rows| ==> RowFormed(rows[i])
    ensures ReadTable(Text(rows, sep), sep) == rows <==>
            (forall i :: 0 <= i < |rows| ==> rows[i] != []) && Readable(rows, sep)
  {
    RowsHaveFields(Text(rows, sep), true, [], Widened(sep));
    if forall i :: 0 <= i < |rows| ==> rows[i] != [] {
      if Readable(rows, sep) { TableBack(rows, sep, true); } else { TableLost(rows, sep, true); }
    }
  }

  /** Two empty columns with separator 200. */
  const TWO_COLUMNS: seq<seq<Bytes>> := [[[], []]]

  lemma HighSeparatorLost()
    ensures SepOk(200) && ReadTable(Text(TWO_COLUMNS, 200), 200) != TWO_COLUMNS
    ensures ReadTable(Text(TWO_COLUMNS, 100), 100) == TWO_COLUMNS
  {
    RoundTrip(TWO_COLUMNS, 200);
    RoundTrip(TWO_COLUMNS, 100);
  }
}
