/** The SHA-3 sponge of common/shell.c on a little-endian machine, with the Keccak permutation as a
    parameter: absorbing byte by byte, and absorbing block by block as in sections 4 and 6.1 of
    FIPS 202. */
module Sponge {
  /** A byte is the set of places of its one bits, 0 the least significant. */
  type Byte = s: set<nat> | forall i :: i in s ==> i < 8

  const B06: Byte := {1, 2}
  const B80: Byte := {7}
  const B86: Byte := {1, 2, 7}

  type Bytes = seq<Byte>
  type Perm = Bytes -> Bytes

  /** The bits that differ. */
  function Xor(a: Byte, b: Byte): Byte { (a - b) + (b - a) }

  const WIDTH: nat := 200

  ghost predicate PermOk(f: Perm) { forall s: Bytes :: |s| == WIDTH ==> |f(s)| == WIDTH }

  predicate RateOk(rate: nat) { 0 < rate < WIDTH && rate % 8 == 0 }

  /** SHA3Init: the number of bytes absorbed between two permutations. */
  function Rate(iSize: int): nat {
    if 128 <= iSize <= 512 then (1600 - (iSize + 31) / 32 * 32 * 2) / 8 else (1600 - 2 * 256) / 8
  }

  /** Between 128 and 512 bits what is not absorbed into is the least multiple of eight bytes of at
      least twice the size; any other size counts as 256. */
  lemma RateBytes(iSize: int)
    ensures RateOk(Rate(iSize)) && 2 * Rate(iSize) <= 1600
    ensures var c := 1600 - 8 * Rate(iSize);
            if 128 <= iSize <= 512 then c % 64 == 0 && 2 * iSize <= c < 2 * iSize + 64 else c == 512
    ensures Rate(224) == 144 && Rate(256) == 136 && Rate(384) == 104 && Rate(512) == 72 && Rate(0) == 136
  {
    var k := (iSize + 31) / 32;
    assert 128 <= iSize <= 512 ==> 4 <= k <= 16 && Rate(iSize) == 200 - 8 * k;
  }

  /** The state, and how many bytes of the current block it has taken. */
  datatype St = St(x: Bytes, loaded: nat)

  predicate StOk(st: St, rate: nat) { |st.x| == WIDTH && st.loaded < rate }

  function AbsorbByte(f: Perm, rate: nat, st: St, b: Byte): St
    requires st.loaded < |st.x|
  {
    var x := st.x[st.loaded := Xor(st.x[st.loaded], b)];
    if st.loaded + 1 == rate then St(f(x), 0) else St(x, st.loaded + 1)
  }

  /** Absorbing byte by byte. */
  ghost function Absorb(f: Perm, rate: nat, st: St, data: Bytes): (r: St)
    requires PermOk(f) && RateOk(rate) && StOk(st, rate)
    ensures StOk(r, rate)
    decreases |data|
  {
    if data == [] then st else Absorb(f, rate, AbsorbByte(f, rate, st, data[0]), data[1..])
  }

  lemma {:induction false} AbsorbConcat(f: Perm, rate: nat, st: St, a: Bytes, b: Bytes)
    requires PermOk(f) && RateOk(rate) && StOk(st, rate)
    ensures Absorb(f, rate, st, a + b) == Absorb(f, rate, Absorb(f, rate, st, a), b)
    decreases |a|
  {
    if a == [] {
      assert a + b == b;
    } else {
      assert (a + b)[1..] == a[1..] + b;
      AbsorbConcat(f, rate, AbsorbByte(f, rate, st, a[0]), a[1..], b);
    }
  }

  lemma AbsorbSnoc(f: Perm, rate: nat, st: St, a: Bytes, b: Byte)
    requires PermOk(f) && RateOk(rate) && StOk(st, rate)
    ensures Absorb(f, rate, st, a + [b]) == AbsorbByte(f, rate, Absorb(f, rate, st, a), b)
  {
    AbsorbConcat(f, rate, st, a, [b]);
    var st' := Absorb(f, rate, st, a);
    assert Absorb(f, rate, st', [b]) == Absorb(f, rate, AbsorbByte(f, rate, st', b), []);
  }

  // ----- several bytes at once

  function XorOf(x: Bytes, k: nat, d: Bytes, i: nat): Byte
    requires i < |x|
  {
    if k <= i < k + |d| then Xor(x[i], d[i - k]) else x[i]
  }

  /** x with the bytes d combined from position k on. */
  function XorFrom(x: Bytes, k: nat, d: Bytes): (r: Bytes)
    ensures |r| == |x| && forall i :: 0 <= i < |x| ==> r[i] == XorOf(x, k, d, i)
  {
    seq(|x|, i requires 0 <= i < |x| => XorOf(x, k, d, i))
  }

  /** Combining is exclusive or, bit by bit, at the places of d and nowhere else. */
  lemma XorBits(x: Bytes, k: nat, d: Bytes, i: nat, bit: nat)
    requires i < |x|
    ensures bit in XorFrom(x, k, d)[i] <==> (bit in x[i]) != (k <= i < k + |d| && bit in d[i - k])
  {
    assert XorFrom(x, k, d)[i] == XorOf(x, k, d, i);
  }

  /** So the same bytes combined again give back what was there. */
  lemma XorTwice(x: Bytes, k: nat, d: Bytes)
    ensures XorFrom(XorFrom(x, k, d), k, d) == x
  {
    var y := XorFrom(x, k, d);
    forall i | 0 <= i < |x| ensures XorFrom(y, k, d)[i] == x[i] {
      forall bit: nat ensures bit in XorFrom(y, k, d)[i] <==> bit in x[i] {
        XorBits(x, k, d, i, bit);
        XorBits(y, k, d, i, bit);
      }
    }
  }

  lemma XorFromStep(x: Bytes, k: nat, d: Bytes)
    requires d != [] && k + |d| <= |x|
    ensures XorFrom(x[k := Xor(x[k], d[0])], k + 1, d[1..]) == XorFrom(x, k, d)
  {
    var y := x[k := Xor(x[k], d[0])];
    forall i | 0 <= i < |x| ensures XorOf(y, k + 1, d[1..], i) == XorOf(x, k, d, i) {}
  }

  lemma XorFromNone(x: Bytes, k: nat)
    ensures XorFrom(x, k, []) == x
  {
  }

  function Chunk(f: Perm, rate: nat, st: St, d: Bytes): St {
    var x := XorFrom(st.x, st.loaded, d);
    if st.loaded + |d| == rate then St(f(x), 0) else St(x, st.loaded + |d|)
  }

  lemma ChunkStep(f: Perm, rate: nat, st: St, d: Bytes)
    requires d != [] && st.loaded + |d| <= |st.x| && st.loaded + 1 < rate
    ensures Chunk(f, rate, AbsorbByte(f, rate, st, d[0]), d[1..]) == Chunk(f, rate, st, d)
  {
    XorFromStep(st.x, st.loaded, d);
  }

  lemma ChunkLast(f: Perm, rate: nat, st: St, b: Byte)
    requires st.loaded < |st.x| && st.loaded + 1 == rate
    ensures Chunk(f, rate, st, [b]) == AbsorbByte(f, rate, st, b)
  {
    XorFromStep(st.x, st.loaded, [b]);
    assert [b][1..] == [];
    XorFromNone(st.x[st.loaded := Xor(st.x[st.loaded], b)], st.loaded + 1);
  }

  /** Bytes that fit the current block can be absorbed together. */
  lemma {:induction false} AbsorbChunk(f: Perm, rate: nat, st: St, d: Bytes)
    requires PermOk(f) && RateOk(rate) && StOk(st, rate) && st.loaded + |d| <= rate
    ensures Absorb(f, rate, st, d) == Chunk(f, rate, st, d)
    decreases |d|
  {
    if d == [] {
      XorFromNone(st.x, st.loaded);
    } else if st.loaded + 1 == rate {
      assert d == [d[0]];
      ChunkLast(f, rate, st, d[0]);
    } else {
      ChunkStep(f, rate, st, d);
      AbsorbChunk(f, rate, AbsorbByte(f, rate, st, d[0]), d[1..]);
    }
  }

  /** Absorbing whole blocks: S becomes f(S xor (P_i || 0^c)) for each block P_i. */
  ghost function Blocks(f: Perm, rate: nat, x: Bytes, data: Bytes): (r: Bytes)
    requires PermOk(f) && RateOk(rate) && |x| == WIDTH && |data| % rate == 0
    ensures |r| == WIDTH
    decreases |data|
  {
    if data == [] then x
    else
      BlockLeft(|data|, rate);
      Blocks(f, rate, f(XorFrom(x, 0, data[..rate])), data[rate..])
  }

  lemma BlockLeft(n: nat, rate: nat)
    requires rate > 0 && n > 0 && n % rate == 0
    ensures n >= rate && (n - rate) % rate == 0
  {
    if n >= rate { ModMinus(n, rate); } else { ModUnique(n, rate, 0, n); }
  }

  lemma ModMinus(n: nat, rate: nat)
    requires rate > 0 && n >= rate
    ensures (n - rate) % rate == n % rate
  {
    var q := n / rate;
    assert n == rate * q + n % rate;
    assert n - rate == rate * (q - 1) + n % rate;
    ModUnique(n - rate, rate, q - 1, n % rate);
  }

  lemma MulZero(d: int, k: int)
    requires d > 0 && -d < d * k < d
    ensures k == 0
  {
    assert k >= 1 ==> d * k >= d;
    assert k <= -1 ==> d * k <= -d;
  }

  lemma ModUnique(n: int, d: int, q: int, r: int)
    requires d > 0 && 0 <= r < d && n == d * q + r
    ensures n % d == r
  {
    var q' := n / d;
    assert n == d * q' + n % d;
    assert d * (q - q') == n % d - r;
    MulZero(d, q - q');
  }

  /** The byte-wise sponge is the block-wise sponge. */
  lemma {:induction false} AbsorbBlocks(f: Perm, rate: nat, x: Bytes, data: Bytes)
    requires PermOk(f) && RateOk(rate) && |x| == WIDTH && |data| % rate == 0
    ensures Absorb(f, rate, St(x, 0), data) == St(Blocks(f, rate, x, data), 0)
    decreases |data|
  {
    if data != [] {
      BlockLeft(|data|, rate);
      var a, b := data[..rate], data[rate..];
      assert data == a + b;
      AbsorbConcat(f, rate, St(x, 0), a, b);
      AbsorbChunk(f, rate, St(x, 0), a);
      AbsorbBlocks(f, rate, f(XorFrom(x, 0, a)), b);
    }
  }

  // ----- padding

  const ZERO: Bytes := seq(WIDTH, _ => {})

  function Zeros(k: nat): Bytes { seq(k, _ => {}) }

  /** What SHA3Final absorbs after n bytes. */
  function Pad(n: nat, rate: nat): (p: Bytes)
    requires rate > 0
    ensures |p| == rate - n % rate
  {
    var q := rate - n % rate;
    if q == 1 then [B86] else [B06] + Zeros(q - 2) + [B80]
  }

  function BitsOf(b: Byte): (r: seq<bool>)
    ensures |r| == 8 && forall i :: 0 <= i < 8 ==> r[i] == (i in b)
  {
    seq(8, i requires 0 <= i < 8 => i in b)
  }

  /** Bytes as bits, least significant first (section B.1 of FIPS 202). */
  function Bits(d: Bytes): (r: seq<bool>)
    ensures |r| == 8 * |d|
  {
    if d == [] then [] else BitsOf(d[0]) + Bits(d[1..])
  }

  function Falses(k: nat): seq<bool> { seq(k, _ => false) }

  /** pad10*1 of section 5.1 of FIPS 202. */
  function Pad101(x: int, m: int): seq<bool>
    requires x > 0
  {
    [true] + Falses((-m - 2) % x) + [true]
  }

  lemma {:induction false} BitsConcat(a: Bytes, b: Bytes)
    ensures Bits(a + b) == Bits(a) + Bits(b)
    decreases |a|
  {
    if a == [] {
      assert a + b == b;
    } else {
      assert (a + b)[1..] == a[1..] + b;
      BitsConcat(a[1..], b);
    }
  }

  lemma {:induction false} BitsZeros(k: nat)
    ensures Bits(Zeros(k)) == Falses(8 * k)
  {
    if k > 0 {
      assert Zeros(k)[1..] == Zeros(k - 1);
      BitsZeros(k - 1);
    }
  }

  lemma BitsOne(b: Byte)
    ensures Bits([b]) == BitsOf(b)
  {
    assert Bits([b]) == BitsOf(b) + Bits([]);
  }

  /** The number of zeros pad10*1 puts in. */
  lemma PadCount(n: nat, rate: nat)
    requires rate > 0
    ensures (-(8 * n + 2) - 2) % (8 * rate) == 8 * (rate - n % rate) - 4
  {
    var q := n / rate;
    assert n == rate * q + n % rate;
    var d := 8 * rate;
    assert d * (-q - 1) == -8 * (rate * q) - 8 * rate;
    ModUnique(-(8 * n + 2) - 2, d, -q - 1, 8 * (rate - n % rate) - 4);
  }

  lemma PadShape(n: nat, first: seq<bool>, last: seq<bool>)
    requires first == [false, true, true, false, false, false, false, false]
    requires last == [false, false, false, false, false, false, false, true]
    ensures first + Falses(n) + last == [false, true] + ([true] + Falses(n + 12) + [true])
  {
  }

  lemma PadEnds()
    ensures Bits([B06]) == [false, true, true, false, false, false, false, false]
    ensures Bits([B80]) == [false, false, false, false, false, false, false, true]
  {
    BitsOne(B06);
    BitsOne(B80);
  }

  lemma PadBits(q: nat)
    requires q > 1
    ensures Bits([B06] + Zeros(q - 2) + [B80]) == [false, true] + ([true] + Falses(8 * q - 4) + [true])
  {
    BitsConcat([B06] + Zeros(q - 2), [B80]);
    BitsConcat([B06], Zeros(q - 2));
    BitsZeros(q - 2);
    PadEnds();
    PadShape(8 * (q - 2), Bits([B06]), Bits([B80]));
  }

  lemma PadBitsOne()
    ensures Bits([B86]) == [false, true] + ([true] + Falses(4) + [true])
  {
    BitsOne(B86);
  }

  /** The padding is that of SHA-3: the suffix 01 and then pad10*1 (sections 5.1 and 6.1 of FIPS 202). */
  lemma PadIsFips(n: nat, rate: nat)
    requires rate > 0
    ensures Bits(Pad(n, rate)) == [false, true] + Pad101(8 * rate, 8 * n + 2)
  {
    PadCount(n, rate);
    var q := rate - n % rate;
    if q == 1 { PadBitsOne(); } else { PadBits(q); }
  }

  lemma {:induction false} Quotient(f: Perm, rate: nat, x: Bytes, data: Bytes) returns (q: nat)
    requires PermOk(f) && RateOk(rate) && |x| == WIDTH
    ensures |data| == rate * q + Absorb(f, rate, St(x, 0), data).loaded
    decreases |data|
  {
    if data == [] {
      q := 0;
    } else {
      var k := |data| - 1;
      q := Quotient(f, rate, x, data[..k]);
      AbsorbSnoc(f, rate, St(x, 0), data[..k], data[k]);
      assert data[..k] + [data[k]] == data;
      if Absorb(f, rate, St(x, 0), data[..k]).loaded + 1 == rate {
        Distribute(rate, q);
        q := q + 1;
      }
    }
  }

  lemma Distribute(a: nat, q: nat)
    ensures a * (q + 1) == a * q + a
  {
  }

  /** After n bytes from an empty state, n modulo the rate bytes are loaded. */
  lemma LoadedIs(f: Perm, rate: nat, x: Bytes, data: Bytes)
    requires PermOk(f) && RateOk(rate) && |x| == WIDTH
    ensures Absorb(f, rate, St(x, 0), data).loaded == |data| % rate
  {
    var q := Quotient(f, rate, x, data);
    ModUnique(|data|, rate, q, Absorb(f, rate, St(x, 0), data).loaded);
  }

  lemma XorZeros(x: Bytes, k: nat, n: nat)
    ensures XorFrom(x, k, Zeros(n)) == x
  {
    forall i | 0 <= i < |x| ensures XorOf(x, k, Zeros(n), i) == x[i] {}
  }

  /** Zeros only move the place of the next byte. */
  lemma AbsorbZeros(f: Perm, rate: nat, st: St, n: nat)
    requires PermOk(f) && RateOk(rate) && StOk(st, rate) && st.loaded + n < rate
    ensures Absorb(f, rate, st, Zeros(n)) == St(st.x, st.loaded + n)
  {
    AbsorbChunk(f, rate, st, Zeros(n));
    XorZeros(st.x, st.loaded, n);
  }

  /** What SHA3Final does to the state: one byte, or two with a jump between them. */
  function Finish(f: Perm, rate: nat, st: St): St
    requires 0 < rate <= |st.x| && st.loaded < rate
  {
    if st.loaded == rate - 1 then AbsorbByte(f, rate, st, B86)
    else
      AbsorbByte(f, rate, St(AbsorbByte(f, rate, st, B06).x, rate - 1), B80)
  }

  lemma FinishPads(f: Perm, rate: nat, st: St, p: Bytes)
    requires PermOk(f) && RateOk(rate) && StOk(st, rate) && st.loaded < rate - 1
    requires p == [B06] + Zeros(rate - st.loaded - 2) + [B80]
    ensures Absorb(f, rate, st, p) == Finish(f, rate, st)
  {
    var n := rate - st.loaded - 2;
    var one := AbsorbByte(f, rate, st, B06);
    AbsorbSnoc(f, rate, st, [B06] + Zeros(n), B80);
    AbsorbConcat(f, rate, st, [B06], Zeros(n));
    AbsorbSnoc(f, rate, st, [], B06);
    assert [] + [B06] == [B06];
    AbsorbZeros(f, rate, one, n);
  }

  lemma PadLength(n: nat, rate: nat)
    requires rate > 0
    ensures (n + (rate - n % rate)) % rate == 0
  {
    var q := n / rate;
    assert n == rate * q + n % rate;
    assert rate * (q + 1) == rate * q + rate;
    ModUnique(n + (rate - n % rate), rate, q + 1, 0);
  }

  /** Finishing absorbs the padding. */
  lemma FinishAbsorbs(f: Perm, rate: nat, st: St, n: nat)
    requires PermOk(f) && RateOk(rate) && StOk(st, rate) && st.loaded == n % rate
    ensures Absorb(f, rate, st, Pad(n, rate)) == Finish(f, rate, st)
  {
    var p := Pad(n, rate);
    if st.loaded == rate - 1 {
      AbsorbSnoc(f, rate, st, [], B86);
      assert [] + [B86] == p;
    } else {
      FinishPads(f, rate, st, p);
    }
  }

  lemma PaddedLength(msg: Bytes, rate: nat)
    requires rate > 0
    ensures |msg + Pad(|msg|, rate)| % rate == 0
  {
    PadLength(|msg|, rate);
  }

  /** The whole hash: finishing after any message is the block-wise sponge over the padded message. */
  lemma FinishIsSponge(f: Perm, rate: nat, msg: Bytes)
    requires PermOk(f) && RateOk(rate)
    ensures |msg + Pad(|msg|, rate)| % rate == 0
    ensures Finish(f, rate, Absorb(f, rate, St(ZERO, 0), msg)).x == Blocks(f, rate, ZERO, msg + Pad(|msg|, rate))
  {
    LoadedIs(f, rate, ZERO, msg);
    PaddedLength(msg, rate);
    AbsorbConcat(f, rate, St(ZERO, 0), msg, Pad(|msg|, rate));
    FinishAbsorbs(f, rate, Absorb(f, rate, St(ZERO, 0), msg), |msg|);
    AbsorbBlocks(f, rate, ZERO, msg + Pad(|msg|, rate));
  }
}
