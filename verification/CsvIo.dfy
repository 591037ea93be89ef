/** output_csv and csv_read_one_field of common/shell.c as they run: the writer appends to a stream,
    the reader consumes one and fills a buffer. */
module CsvIo {
  import opened ByteType
  import opened Csv
  import opened CsvLaws

  // ----- writing

  lemma {:induction false} EscapeSnoc(f: Bytes, c: Byte)
    ensures Escape(f + [c]) == Escape(f) + Doubled(c)
  {
    if f == [] {
      assert Escape([c]) == Doubled(c) + Escape([]);
    } else {
      EscapeSnoc(f[1..], c);
      assert (f + [c])[1..] == f[1..] + [c];
      assert Doubled(f[0]) + (Escape(f[1..]) + Doubled(c)) == (Doubled(f[0]) + Escape(f[1..])) + Doubled(c);
    }
  }

  class Writer {
    var out: Bytes
    const sep: Byte

    constructor (sep: Byte)
      ensures out == [] && this.sep == sep
    {
      this.sep := sep;
      out := [];
    }

    /** The first loop of output_csv; it leaves 0 for the empty field too. */
    method Scan(z: Bytes) returns (i: nat)
      requires IsCString(z)
      ensures i == 0 <==> !Plain(z, sep)
    {
      i := 0;
      while i < |z|
        invariant i <= |z| && forall j :: 0 <= j < i ==> !Needy(z[j]) && z[j] != sep
      {
        if Needy(z[i]) || z[i] == sep { return 0; }
        i := i + 1;
      }
    }

    method PutQuoted(z: Bytes)
      requires IsCString(z)
      modifies this
      ensures out == old(out) + ([QUOTE] + (Escape(z) + [QUOTE]))
    {
      out := out + [QUOTE];
      for i := 0 to |z|
        invariant out == old(out) + [QUOTE] + Escape(z[..i])
      {
        EscapeSnoc(z[..i], z[i]);
        assert z[..i + 1] == z[..i] + [z[i]];
        if z[i] == QUOTE { out := out + [QUOTE]; }
        out := out + [z[i]];
      }
      assert z[..|z|] == z;
      out := out + [QUOTE];
    }

    /** output_csv */
    method OutputCsv(z: Bytes, bSep: bool)
      requires IsCString(z)
      modifies this
      ensures out == old(out) + (Term(z, sep) + if bSep then [sep] else [])
      ensures |old(out)| < |out| && (out[|old(out)|] == 34 <==> MustQuote(z, sep))
      ensures !MustQuote(z, sep) ==> out == old(out) + (z + if bSep then [sep] else [])
    {
      QuotedExactly(z, sep);
      var i := Scan(z);
      if i == 0 { PutQuoted(z); } else { out := out + z; }
      if bSep { out := out + [sep]; }
    }

    /** The fields of a row and its end. */
    method OutputRow(row: seq<Bytes>)
      requires RowFormed(row)
      modifies this
      ensures out == old(out) + RowText(row, sep)
    {
      if |row| > 0 {
        ghost var whole := out + RowText(row, sep);
        assert row[0..] == row;
        for i := 0 to |row|
          invariant out + (if i < |row| then RowText(row[i..], sep) else CRLF) == whole
        {
          ghost var before := out;
          assert row[i..][1..] == row[i + 1..];
          OutputCsv(row[i], i < |row| - 1);
          RowPart(before, row[i..], sep);
        }
        out := out + CRLF;
      }
    }
  }

  lemma RowPart(before: Bytes, row: seq<Bytes>, sep: Byte)
    requires row != []
    ensures before + RowText(row, sep) ==
            before + (Term(row[0], sep) + if |row| > 1 then [sep] else []) +
            if |row| > 1 then RowText(row[1..], sep) else CRLF
  {
  }

  // ----- reading

  /** One turn of the loop over a quoted field. */
  lemma {:induction false} QuotedNext(input: Bytes, z: Bytes, pc: int, ppc: int, cSep: int)
    ensures var c, f := Next(input), ReadQuoted(input, z, pc, ppc, cSep);
            if c == QUOTE && pc == QUOTE then f == ReadQuoted(Tail(input), z, 0, ppc, cSep)
            else if Closes(c, pc, ppc, cSep) then f == Field(Strip(z), Tail(input), c)
            else if c == EOF then f == Field(z, Tail(input), c)
            else 0 <= c < 256 && f == ReadQuoted(Tail(input), z + [c], c, pc, cSep)
  {
  }

  /** ImportCtx, without its line counter. */
  class Reader {
    const input: Bytes
    var pos: nat
    var z: Bytes
    var cTerm: int
    var bNotFirst: bool
    const cSep: int

    constructor (input: Bytes, sep: Byte)
      ensures this.input == input && pos == 0 && !bNotFirst && cSep == Widened(sep)
    {
      this.input := input;
      pos, z, cTerm, bNotFirst := 0, [], EOF, false;
      cSep := Widened(sep);
    }

    ghost predicate Valid() reads this { pos <= |input| }

    ghost function Rest(): Bytes
      requires Valid()
      reads this
    {
      input[pos..]
    }

    /** fgetc */
    method Getc() returns (c: int)
      requires Valid()
      modifies this`pos
      ensures Valid() && c == Next(old(Rest())) && Rest() == Tail(old(Rest()))
    {
      if pos == |input| { c := EOF; } else {
        c := input[pos];
        pos := pos + 1;
      }
    }

    /** The do loop that cuts the buffer at its last quote. */
    method CutAtQuote()
      requires exists i :: 0 <= i < |z| && z[i] == QUOTE
      modifies this`z
      ensures z == Strip(old(z))
    {
      var n := |z| - 1;
      assert z[..n + 1] == z;
      while z[n] != QUOTE
        invariant 0 <= n < |z| && z == old(z) && Strip(z[..n + 1]) == Strip(z)
        invariant exists i :: 0 <= i <= n && z[i] == QUOTE
        decreases n
      {
        assert z[..n + 1][..n] == z[..n];
        n := n - 1;
      }
      assert z[..n + 1][..n] == z[..n];
      z := z[..n];
    }

    /** Reading on from a quote, which is already consumed. */
    method ReadQuotedField()
      requires Valid()
      modifies this
      ensures Valid() && bNotFirst == old(bNotFirst)
      ensures Field(z, Rest(), cTerm) == ReadQuoted(old(Rest()), [], 0, 0, cSep)
    {
      z := [];
      var pc, ppc := 0, 0;
      while true
        invariant Valid() && bNotFirst == old(bNotFirst)
        invariant ReadQuoted(Rest(), z, pc, ppc, cSep) == ReadQuoted(old(Rest()), [], 0, 0, cSep)
        invariant pc == QUOTE ==> z != [] && z[|z| - 1] == QUOTE
        invariant pc == CR && ppc == QUOTE ==> |z| > 1 && z[|z| - 2] == QUOTE
        decreases |input| - pos
      {
        QuotedNext(Rest(), z, pc, ppc, cSep);
        var c := Getc();
        if c == QUOTE && pc == QUOTE {
          pc := 0;
        } else if Closes(c, pc, ppc, cSep) {
          CutAtQuote();
          cTerm := c;
          return;
        } else if c == EOF {
          cTerm := c;
          return;
        } else {
          z := z + [c];
          ppc := pc;
          pc := c;
        }
      }
    }

    /** Reading on from an unquoted character c that is already consumed, with z read before it. */
    method ReadBareField(first: int, ghost from: Bytes)
      requires Valid() && first == Next(from) && Rest() == Tail(from)
      modifies this
      ensures Valid() && bNotFirst == old(bNotFirst)
      ensures Field(z, Rest(), cTerm) == ReadBare(from, old(z), cSep)
    {
      var c := first;
      ghost var left := from;
      while c != EOF && c != cSep && c != LF
        invariant Valid() && bNotFirst == old(bNotFirst)
        invariant c == Next(left) && Rest() == Tail(left)
        invariant ReadBare(left, z, cSep) == ReadBare(from, old(z), cSep)
        decreases |left|
      {
        z := z + [c];
        left := left[1..];
        c := Getc();
      }
      if c == LF && |z| > 0 && z[|z| - 1] == CR { z := z[..|z| - 1]; }
      cTerm := c;
    }

    /** The first character of the input is 0xEF: a byte order mark is skipped, anything else is the
        start of an unquoted field. */
    method ReadMarked(ghost from: Bytes) returns (ok: bool)
      requires Valid() && !bNotFirst && z == [0xEF] && from != [] && from[0] == 0xEF && Rest() == from[1..]
      modifies this
      ensures Valid()
      ensures var r := ReadField(from, true, cSep);
              ok == r.Got? && if ok then bNotFirst && Field(z, Rest(), cTerm) == r.field else cTerm == EOF
      decreases |input| - pos, 0
    {
      ghost var left := from[1..];
      var c := Getc();
      if c == 0xBB {
        z := z + [c];
        assert z == [0xEF, 0xBB];
        left := left[1..];
        c := Getc();
        if c == 0xBF {
          bNotFirst := true;
          ok := ReadOneField();
          return;
        }
      }
      ReadBareField(c, left);
      bNotFirst := true;
      return true;
    }

    /** csv_read_one_field: false at the end of the input. */
    method ReadOneField() returns (ok: bool)
      requires Valid()
      modifies this
      ensures Valid()
      ensures var r := ReadField(old(Rest()), !old(bNotFirst), cSep);
              ok == r.Got? && if ok then bNotFirst && Field(z, Rest(), cTerm) == r.field else cTerm == EOF
      decreases |input| - pos, 1
    {
      z := [];
      ghost var from := Rest();
      var c := Getc();
      if c == EOF {
        cTerm := EOF;
        return false;
      }
      if c == QUOTE {
        ReadQuotedField();
      } else if c == 0xEF && !bNotFirst {
        z := z + [c];
        assert z == [0xEF];
        ok := ReadMarked(from);
        return;
      } else {
        ReadBareField(c, from);
      }
      bNotFirst := true;
      return true;
    }
  }
}
