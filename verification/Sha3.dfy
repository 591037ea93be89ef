/** SHA3Init, SHA3Update and SHA3Final of common/shell.c on a little-endian machine. The buffer is
    one array of bytes; the 64-bit path reads and writes eight of them as a lane. */
module Sha3 {
  import opened Sponge

  // ----- lanes

  function ByteOf(w: seq<bool>): Byte
    requires |w| == 8
  {
    set i: nat | i < 8 && w[i]
  }

  /** A 64-bit word on a little-endian machine is the bits of its eight bytes, in order. */
  function LaneBytes(w: seq<bool>): (d: Bytes)
    requires |w| % 8 == 0
    ensures |d| == |w| / 8
  {
    if w == [] then [] else [ByteOf(w[..8])] + LaneBytes(w[8..])
  }

  function XorWord(v: seq<bool>, w: seq<bool>): (r: seq<bool>)
    requires |v| == |w|
    ensures |r| == |v|
  {
    seq(|v|, i requires 0 <= i < |v| => v[i] != w[i])
  }

  /** Words are combined by exclusive or as well: the same word again gives back the first. */
  lemma XorWordTwice(v: seq<bool>, w: seq<bool>)
    requires |v| == |w|
    ensures forall i :: 0 <= i < |v| ==> (XorWord(v, w)[i] <==> (v[i] || w[i]) && !(v[i] && w[i]))
    ensures XorWord(XorWord(v, w), w) == v
  {
    var x := XorWord(v, w);
    forall i | 0 <= i < |v| ensures XorWord(x, w)[i] == v[i] {
      assert x[i] == (v[i] != w[i]);
    }
  }

  lemma {:induction false} LaneBack(d: Bytes)
    ensures LaneBytes(Bits(d)) == d
  {
    if d != [] {
      LaneBack(d[1..]);
      assert Bits(d)[..8] == BitsOf(d[0]) && Bits(d)[8..] == Bits(d[1..]);
      assert ByteOf(BitsOf(d[0])) == d[0];
    }
  }

  lemma XorTail(a: Bytes, b: Bytes)
    requires |a| == |b| > 0
    ensures XorFrom(a, 0, b) == [Xor(a[0], b[0])] + XorFrom(a[1..], 0, b[1..])
  {
    var x, y := XorFrom(a, 0, b), XorFrom(a[1..], 0, b[1..]);
    assert x[0] == XorOf(a, 0, b, 0);
    forall i | 0 <= i < |y| ensures x[i + 1] == y[i] {
      assert x[i + 1] == XorOf(a, 0, b, i + 1) && y[i] == XorOf(a[1..], 0, b[1..], i);
    }
  }

  lemma XorWordConcat(p: seq<bool>, q: seq<bool>, r: seq<bool>, s: seq<bool>)
    requires |p| == |r| && |q| == |s|
    ensures XorWord(p + q, r + s) == XorWord(p, r) + XorWord(q, s)
  {
  }

  lemma XorByteBits(a: Byte, b: Byte)
    ensures XorWord(BitsOf(a), BitsOf(b)) == BitsOf(Xor(a, b))
  {
  }

  lemma {:induction false} LaneCombine(a: Bytes, b: Bytes)
    requires |a| == |b|
    ensures XorWord(Bits(a), Bits(b)) == Bits(XorFrom(a, 0, b))
  {
    if a != [] {
      LaneCombine(a[1..], b[1..]);
      XorWordConcat(BitsOf(a[0]), Bits(a[1..]), BitsOf(b[0]), Bits(b[1..]));
      XorByteBits(a[0], b[0]);
      XorTail(a, b);
      BitsConcat([Xor(a[0], b[0])], XorFrom(a[1..], 0, b[1..]));
      BitsOne(Xor(a[0], b[0]));
    }
  }

  /** Combining words combines their bytes. */
  lemma LaneXor(a: Bytes, b: Bytes)
    requires |a| == |b| == 8
    ensures LaneBytes(XorWord(Bits(a), Bits(b))) == XorFrom(a, 0, b)
  {
    LaneCombine(a, b);
    LaneBack(XorFrom(a, 0, b));
  }

  /** Eight bytes combined in place, inside the state. */
  lemma LaneFrom(x: Bytes, k: nat, d: Bytes, y: Bytes)
    requires |d| == 8 && k + 8 <= |x| == |y|
    requires y[k..k + 8] == XorFrom(x[k..k + 8], 0, d)
    requires forall i :: 0 <= i < |x| && !(k <= i < k + 8) ==> y[i] == x[i]
    ensures y == XorFrom(x, k, d)
  {
    forall i | 0 <= i < |x| ensures y[i] == XorOf(x, k, d, i) {
      if k <= i < k + 8 { assert y[i] == y[k..k + 8][i - k]; }
    }
  }

  // ----- the context

  class Context {
    const f: Perm
    const x: array<Byte>
    const nRate: nat
    var nLoaded: nat
    ghost var absorbed: Bytes

    ghost predicate Shape() reads this {
      PermOk(f) && RateOk(nRate) && x.Length == 1600 && nLoaded < nRate
    }

    ghost function State(): St
      requires x.Length == 1600
      reads this, x
    {
      St(x[..WIDTH], nLoaded)
    }

    /** The state is that of absorbing everything so far byte by byte. */
    ghost predicate Valid() reads this, x {
      Shape() && State() == Absorb(f, nRate, St(ZERO, 0), absorbed)
    }

    /** SHA3Init */
    constructor (f: Perm, iSize: int)
      requires PermOk(f)
      ensures Valid() && absorbed == [] && this.f == f && nRate == Rate(iSize) && fresh(x)
    {
      RateBytes(iSize);
      this.f := f;
      nRate := Rate(iSize);
      nLoaded := 0;
      absorbed := [];
      x := new Byte[1600](_ => {});
      new;
      assert x[..WIDTH] == ZERO;
    }

    /** KeccakF1600Step */
    method Permute()
      requires PermOk(f) && x.Length == 1600
      modifies x
      ensures x[..WIDTH] == f(old(x[..WIDTH]))
    {
      var y := f(x[..WIDTH]);
      for i := 0 to WIDTH
        invariant x[..i] == y[..i]
      {
        x[i] := y[i];
      }
    }

    method XorByte(b: Byte)
      requires Shape()
      modifies x
      ensures x[..WIDTH] == old(x[..WIDTH])[nLoaded := Xor(old(x[..WIDTH])[nLoaded], b)]
    {
      x[nLoaded] := Xor(x[nLoaded], b);
    }

    /** The end of a turn: a full block is permuted. */
    method Advance(n: nat)
      requires Shape() && nLoaded + n <= nRate
      modifies this`nLoaded, x
      ensures Shape()
      ensures State() ==
              if old(nLoaded) + n == nRate then St(f(old(x[..WIDTH])), 0) else St(old(x[..WIDTH]), old(nLoaded) + n)
    {
      nLoaded := nLoaded + n;
      if nLoaded >= nRate {
        Permute();
        nLoaded := 0;
      }
    }

    /** One turn of the byte loop. */
    method OneByte(b: Byte)
      requires Shape()
      modifies this`nLoaded, x
      ensures Shape() && State() == AbsorbByte(f, nRate, old(State()), b)
    {
      XorByte(b);
      Advance(1);
    }

    method StoreAt(k: nat, w: Bytes)
      requires x.Length == 1600 && k + |w| <= WIDTH
      modifies x
      ensures x[..WIDTH][k..k + |w|] == w
      ensures forall j :: 0 <= j < WIDTH && !(k <= j < k + |w|) ==> x[j] == old(x[j])
    {
      for i := 0 to |w|
        invariant forall j :: 0 <= j < i ==> x[k + j] == w[j]
        invariant forall j :: 0 <= j < WIDTH && !(k <= j < k + i) ==> x[j] == old(x[j])
      {
        x[k + i] := w[i];
      }
    }

    /** The word update of the word loop. */
    method XorLane(d: Bytes)
      requires Shape() && |d| == 8 && nLoaded + 8 <= nRate
      modifies x
      ensures x[..WIDTH] == XorFrom(old(x[..WIDTH]), nLoaded, d)
    {
      ghost var was := x[..WIDTH];
      var k := nLoaded;
      var lane := x[k..k + 8];
      assert lane == was[k..k + 8];
      LaneXor(lane, d);
      StoreAt(k, LaneBytes(XorWord(Bits(lane), Bits(d))));
      LaneFrom(was, k, d, x[..WIDTH]);
    }

    /** One turn of the word loop. */
    method OneWord(d: Bytes)
      requires Shape() && |d| == 8 && nLoaded % 8 == 0
      modifies this`nLoaded, x
      ensures Shape() && nLoaded % 8 == 0 && State() == Absorb(f, nRate, old(State()), d)
    {
      assert nLoaded + 8 <= nRate;
      AbsorbChunk(f, nRate, State(), d);
      XorLane(d);
      Advance(8);
    }

    /** The word loop; its index does not overflow 32 bits. */
    method Words(aData: Bytes) returns (i: nat)
      requires Shape() && nLoaded % 8 == 0 && |aData| < 0x1_0000_0000
      modifies this`nLoaded, x
      ensures Shape() && i <= |aData| && State() == Absorb(f, nRate, old(State()), aData[..i])
    {
      ghost var start := State();
      i := 0;
      while i + 7 < |aData|
        invariant i <= |aData| && i % 8 == 0 && i + 7 < 0x1_0000_0000
        invariant Shape() && nLoaded % 8 == 0
        invariant State() == Absorb(f, nRate, start, aData[..i])
      {
        assert aData[..i + 8] == aData[..i] + aData[i..i + 8];
        AbsorbConcat(f, nRate, start, aData[..i], aData[i..i + 8]);
        OneWord(aData[i..i + 8]);
        i := i + 8;
      }
    }

    /** The byte loop, from index k. */
    method EachByte(aData: Bytes, k: nat, ghost start: St)
      requires Shape() && StOk(start, nRate) && k <= |aData| && State() == Absorb(f, nRate, start, aData[..k])
      modifies this`nLoaded, x
      ensures Shape() && State() == Absorb(f, nRate, start, aData)
    {
      var i := k;
      while i < |aData|
        invariant i <= |aData| && Shape()
        invariant State() == Absorb(f, nRate, start, aData[..i])
      {
        assert aData[..i + 1] == aData[..i] + [aData[i]];
        AbsorbSnoc(f, nRate, start, aData[..i], aData[i]);
        OneByte(aData[i]);
        i := i + 1;
      }
      assert aData[..i] == aData;
    }

    /** SHA3Update: whatever the alignment and however the input is split over calls, the state is
        that of absorbing all of it byte by byte. */
    method Update(aData: Bytes, aligned: bool)
      requires Valid() && |aData| < 0x1_0000_0000
      modifies this`nLoaded, this`absorbed, x
      ensures Valid() && absorbed == old(absorbed) + aData
    {
      ghost var start := State();
      var i := 0;
      if nLoaded % 8 == 0 && aligned { i := Words(aData); }
      EachByte(aData, i, start);
      AbsorbConcat(f, nRate, St(ZERO, 0), absorbed, aData);
      absorbed := absorbed + aData;
    }

    /** The padding bytes of SHA3Final. */
    method PadState()
      requires Shape()
      modifies this`nLoaded, x
      ensures Shape() && State() == Finish(f, nRate, old(State()))
    {
      if nLoaded == nRate - 1 {
        OneByte(B86);
      } else {
        OneByte(B06);
        nLoaded := nRate - 1;
        OneByte(B80);
      }
    }

    /** The last loop of SHA3Final. */
    method CopyOut()
      requires Shape() && 2 * nRate <= x.Length
      modifies x
      ensures x[nRate..2 * nRate] == old(x[..nRate])
    {
      ghost var hash := x[..nRate];
      for i := 0 to nRate
        invariant forall j :: 0 <= j < nRate ==> x[j] == hash[j]
        invariant forall j :: 0 <= j < i ==> x[nRate + j] == hash[j]
      {
        x[i + nRate] := x[i];
      }
    }

    /** SHA3Final: the bytes at the returned place are the first nRate bytes of the block-wise sponge
        over the padded input. */
    method Final() returns (at: nat)
      requires Valid()
      modifies this`nLoaded, x
      ensures at == nRate && at + nRate <= x.Length
      ensures |absorbed + Pad(|absorbed|, nRate)| % nRate == 0
      ensures x[at..at + nRate] == Blocks(f, nRate, ZERO, absorbed + Pad(|absorbed|, nRate))[..nRate]
    {
      FinishIsSponge(f, nRate, absorbed);
      PadState();
      assert x[..nRate] == x[..WIDTH][..nRate];
      CopyOut();
      at := nRate;
    }
  }
}
