/** What the CSV pair of common/shell.c does with bytes the round trip does not reach: which fields are
    quoted, the byte order mark, other line ends, the end of the input and malformed quoting. Told with
    the characters alone. */
module CsvLaws {
  import opened ByteType
  import opened Csv

  // ----- writing

  /** The fields that must be quoted: the table needCsvQuote has a 1 for control characters and blanks, the
      quote, the apostrophe, DEL and everything from 128 up. */
  ghost predicate MustQuote(f: Bytes, sep: Byte) {
    f == [] || exists i :: 0 <= i < |f| && (f[i] == sep || f[i] <= 32 || f[i] == 34 || f[i] == 39 || f[i] >= 127)
  }

  lemma QuotedExactly(f: Bytes, sep: Byte)
    ensures Term(f, sep) != []
    ensures Term(f, sep)[0] == 34 <==> MustQuote(f, sep)
    ensures !MustQuote(f, sep) ==> Term(f, sep) == f
    ensures MustQuote(f, sep) ==> |Term(f, sep)| == |f| + multiset(f)[34] + 2
  {
    if f != [] { assert !Needy(f[0]) ==> f[0] != 34; }
    if MustQuote(f, sep) {
      assert !Plain(f, sep) by {
        if f != [] {
          var i :| 0 <= i < |f| && (f[i] == sep || f[i] <= 32 || f[i] == 34 || f[i] == 39 || f[i] >= 127);
        }
      }
      EscapeLength(f);
    }
  }

  lemma {:induction false} EscapeLength(f: Bytes)
    ensures |Escape(f)| == |f| + multiset(f)[34]
  {
    if f != [] {
      EscapeLength(f[1..]);
      assert f == [f[0]] + f[1..];
    }
  }

  // ----- the byte order mark

  const BOM: Bytes := [0xEF, 0xBB, 0xBF]

  /** Before the first field the mark is dropped. */
  lemma BomSkipped(input: Bytes, row: seq<Bytes>, cSep: int)
    ensures ReadRows(BOM + input, true, row, cSep) == ReadRows(input, false, row, cSep)
    ensures forall sep :: Widened(sep) == cSep ==> ReadTable(BOM + input, sep) == ReadRows(input, false, [], cSep)
  {
    assert (BOM + input)[1..][1..][1..] == input;
    assert ReadField(BOM + input, true, cSep) == ReadField(input, false, cSep);
  }

  /** Nothing else is, not even a part of the mark, with any separator the reader can have. */
  lemma OnlyBomSkipped(input: Bytes, row: seq<Bytes>, cSep: int)
    requires -128 <= cSep < 128 && !(BOM <= input)
    ensures ReadRows(input, true, row, cSep) == ReadRows(input, false, row, cSep)
  {
    if |input| > 0 && input[0] == 0xEF {
      assert ReadBare(input, [], cSep) == ReadBare(input[1..], [0xEF], cSep);
      if |input| > 1 && input[1] == 0xBB {
        assert [0xEF] + [0xBB] == [0xEF, 0xBB];
        assert ReadBare(input[1..], [0xEF], cSep) == ReadBare(input[2..], [0xEF, 0xBB], cSep);
      }
    }
  }

  // ----- what ends a field

  /** The separator, a newline, or the end of the input. */
  datatype Ending = Separator | Newline | Ended

  predicate EndsWith(e: Ending, t: Bytes, r: Bytes, cSep: int) {
    match e
    case Separator => |t| == 1 && t[0] == cSep
    case Newline => t == [10]
    case Ended => t == [] == r
  }

  function TermOf(e: Ending, cSep: int): int {
    match e
    case Separator => cSep
    case Newline => 10
    case Ended => -1
  }

  predicate SepFits(cSep: int) { cSep != 34 && cSep != 13 && cSep != 10 && cSep != -1 && cSep != 0 }

  /** Characters that do not end an unquoted field. */
  predicate Bare(f: Bytes, cSep: int) { forall i :: 0 <= i < |f| ==> f[i] != cSep && f[i] != 10 }

  lemma {:induction false} BareEnds(e: Ending, t: Bytes, r: Bytes, z: Bytes, cSep: int)
    requires EndsWith(e, t, r, cSep) && SepFits(cSep)
    ensures ReadBare(t + r, z, cSep) ==
            Field(if e.Newline? && z != [] && z[|z| - 1] == 13 then z[..|z| - 1] else z, r, TermOf(e, cSep))
  {
    if !e.Ended? { assert (t + r)[1..] == r; }
  }

  /** A field that does not start with a quote is taken as it is, quotes and blanks inside it too, less a
      carriage return before the newline. */
  lemma BareTaken(f: Bytes, e: Ending, t: Bytes, r: Bytes, cSep: int)
    requires Bare(f, cSep) && EndsWith(e, t, r, cSep) && SepFits(cSep)
    requires f + (t + r) != [] && (f != [] ==> f[0] != 34)
    ensures ReadField(f + (t + r), false, cSep) ==
            Got(Field(if e.Newline? && f != [] && f[|f| - 1] == 13 then f[..|f| - 1] else f, r, TermOf(e, cSep)))
  {
    BareBody(f, t + r, [], cSep);
    assert [] + f == f;
    BareEnds(e, t, r, f, cSep);
    if f == [] { assert f + (t + r) == t + r; }
  }

  lemma {:induction false} QuoteEnds(e: Ending, cr: bool, t: Bytes, r: Bytes, z: Bytes, pc: int, ppc: int, cSep: int)
    requires Open(pc, ppc) && EndsWith(e, t, r, cSep) && SepFits(cSep) && (cr ==> e.Newline?)
    ensures ReadQuoted([QUOTE] + ((if cr then [CR] else []) + (t + r)), z, pc, ppc, cSep) ==
            Field(z, r, TermOf(e, cSep))
  {
    var zq, a := z + [QUOTE], (if cr then [CR] else []) + (t + r);
    assert ([QUOTE] + a)[1..] == a;
    assert Strip(zq) == z;
    if cr {
      assert a[1..] == t + r && (t + r)[1..] == r;
      assert Strip(zq + [CR]) == Strip(zq) by { assert (zq + [CR])[..|zq|] == zq; }
      assert ReadQuoted(a, zq, QUOTE, pc, cSep) == ReadQuoted(a[1..], zq + [CR], CR, QUOTE, cSep);
    } else {
      assert a == t + r;
      if !e.Ended? { assert a[1..] == r; }
    }
  }

  /** A quoted field ends at a quote before the separator, the end of the line, with or without a carriage
      return, or the end of the input; a doubled quote stands for one. */
  lemma QuotedTaken(f: Bytes, e: Ending, cr: bool, t: Bytes, r: Bytes, first: bool, cSep: int)
    requires EndsWith(e, t, r, cSep) && SepFits(cSep) && (cr ==> e.Newline?)
    ensures ReadField([QUOTE] + (Escape(f) + ([QUOTE] + ((if cr then [CR] else []) + (t + r)))), first, cSep) ==
            Got(Field(f, r, TermOf(e, cSep)))
  {
    var rest := [QUOTE] + ((if cr then [CR] else []) + (t + r));
    assert ([QUOTE] + (Escape(f) + rest))[1..] == Escape(f) + rest;
    var pc, ppc := QuotedBody(f, rest, [], 0, 0, cSep);
    assert [] + f == f;
    QuoteEnds(e, cr, t, r, f, pc, ppc, cSep);
  }

  // ----- malformed quoting

  /** A quoted field that is never closed has everything up to the end. */
  lemma UnterminatedTaken(f: Bytes, first: bool, cSep: int)
    requires SepFits(cSep)
    ensures ReadField([QUOTE] + Escape(f), first, cSep) == Got(Field(f, [], -1))
  {
    assert ([QUOTE] + Escape(f))[1..] == Escape(f) + [];
    var pc, ppc := QuotedBody(f, [], [], 0, 0, cSep);
    assert [] + f == f;
  }

  lemma {:induction false} PastQuote(x: Bytes, r: Bytes, z: Bytes, pc: int, ppc: int, cSep: int)
    returns (pc': int, ppc': int)
    requires Open(pc, ppc) && Stray(x, cSep) && SepFits(cSep)
    ensures Open(pc', ppc')
    ensures ReadQuoted([QUOTE] + (x + r), z, pc, ppc, cSep) == ReadQuoted(r, z + ([QUOTE] + x), pc', ppc', cSep)
  {
    var zq := z + [QUOTE];
    assert ([QUOTE] + (x + r))[1..] == x + r;
    assert ReadQuoted([QUOTE] + (x + r), z, pc, ppc, cSep) == ReadQuoted(x + r, zq, QUOTE, pc, cSep);
    if x[0] == CR {
      assert (x + r)[1..] == [x[1]] + r && ([x[1]] + r)[1..] == r;
      assert zq + [CR] + [x[1]] == z + ([QUOTE] + x);
      assert ReadQuoted(x + r, zq, QUOTE, pc, cSep) == ReadQuoted([x[1]] + r, zq + [CR], CR, QUOTE, cSep);
      assert ReadQuoted([x[1]] + r, zq + [CR], CR, QUOTE, cSep) ==
             ReadQuoted(r, zq + [CR] + [x[1]], x[1], CR, cSep);
      pc', ppc' := x[1], CR;
    } else {
      assert (x + r)[1..] == r && zq + [x[0]] == z + ([QUOTE] + x);
      pc', ppc' := x[0], QUOTE;
    }
  }

  /** What shows that a quote did not close its field: another character, or a carriage return without a
      newline after it. */
  predicate Stray(x: Bytes, cSep: int) {
    || (|x| == 1 && x[0] != 34 && x[0] != 10 && x[0] != 13 && x[0] != cSep)
    || (|x| == 2 && x[0] == 13 && x[1] != 10 && x[1] != 34)
  }

  /** Such a quote is kept, and the field goes on to the quote that closes it. */
  lemma StrayKept(a: Bytes, x: Bytes, b: Bytes, e: Ending, t: Bytes, r: Bytes, first: bool, cSep: int)
    requires Stray(x, cSep) && EndsWith(e, t, r, cSep) && SepFits(cSep)
    ensures ReadField([QUOTE] + (Escape(a) + ([QUOTE] + (x + (Escape(b) + ([QUOTE] + (t + r)))))), first, cSep) ==
            Got(Field(a + ([QUOTE] + x) + b, r, TermOf(e, cSep)))
  {
    var close := [QUOTE] + (t + r);
    var rest := [QUOTE] + (x + (Escape(b) + close));
    assert ([QUOTE] + (Escape(a) + rest))[1..] == Escape(a) + rest;
    var p, pp := QuotedBody(a, rest, [], 0, 0, cSep);
    assert [] + a == a;
    var q, qq := PastQuote(x, Escape(b) + close, a, p, pp, cSep);
    var s, ss := QuotedBody(b, close, a + ([QUOTE] + x), q, qq, cSep);
    QuoteEnds(e, false, t, r, a + ([QUOTE] + x) + b, s, ss, cSep);
    assert [] + (t + r) == t + r;
  }
}
