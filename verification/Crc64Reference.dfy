/**
 The CRC-64 register as a linear feedback shift register, fed one message bit at a time.
 Everything the fast code computes is measured against `Crc`. The algebra that the fast
 forms rely on (linearity over exclusive or, byte-wise stepping) is proved here, mostly by
 instantiating `LinearRegister`.
 */
module Crc64Reference {
  import L = LinearRegister

  /* ECMA-182 polynomial, bit-reversed. */
  const POLY: bv64 := 0xc96c5795d7870f42

  // ----- Word operations, named so that the algebra below can stay above the bits.

  function Xor(a: bv64, b: bv64): bv64 { a ^ b }

  function Not(a: bv64): bv64 { !a }

  function Embed(b: bv8): bv64 { b as bv64 }

  function LowByte(c: bv64): bv8 { (c & 0xff) as bv8 }

  function Shr8(c: bv64): bv64 { c >> 8 }

  // ----- The reference: one message bit at a time, least significant bit first.

  function FeedBit(c: bv64, bit: bool): bv64 {
    if (c & 1 == 1) != bit then POLY ^ (c >> 1) else c >> 1
  }

  function FeedBits(c: bv64, b: bv8, n: nat): bv64
    decreases n
  {
    if n == 0 then c else FeedBits(FeedBit(c, b & 1 == 1), b >> 1, n - 1)
  }

  function Feed(c: bv64, s: seq<bv8>): bv64
    decreases |s|
  {
    if s == [] then c else Feed(FeedBits(c, s[0], 8), s[1..])
  }

  /* CRC-64 of `s` continued from `crc`, with one's complement before and after. */
  function Crc(crc: bv64, s: seq<bv8>): bv64 {
    Not(Feed(Not(crc), s))
  }

  // ----- The register stepped by zero bits: a linear operator and its powers.

  function BitStep(c: bv64): bv64 {
    if c & 1 == 1 then POLY ^ (c >> 1) else c >> 1
  }

  function ZeroBits(c: bv64, n: nat): bv64 {
    L.Steps(BitStep, c, n)
  }

  lemma TapsCancel(x: bv64, y: bv64, xy: bv64, sx: bv64, sy: bv64)
    requires x & 1 == 1 && y & 1 == 1 && xy == x ^ y && sx == POLY ^ (x >> 1) && sy == POLY ^ (y >> 1)
    ensures BitStep(xy) == Xor(sx, sy)
  {
  }

  lemma TapLeft(x: bv64, y: bv64, xy: bv64, sx: bv64, sy: bv64)
    requires x & 1 == 1 && y & 1 != 1 && xy == x ^ y && sx == POLY ^ (x >> 1) && sy == y >> 1
    ensures BitStep(xy) == Xor(sx, sy)
  {
  }

  lemma TapRight(x: bv64, y: bv64, xy: bv64, sx: bv64, sy: bv64)
    requires x & 1 != 1 && y & 1 == 1 && xy == x ^ y && sx == x >> 1 && sy == POLY ^ (y >> 1)
    ensures BitStep(xy) == Xor(sx, sy)
  {
  }

  lemma NoTap(x: bv64, y: bv64, xy: bv64, sx: bv64, sy: bv64)
    requires x & 1 != 1 && y & 1 != 1 && xy == x ^ y && sx == x >> 1 && sy == y >> 1
    ensures BitStep(xy) == Xor(sx, sy)
  {
  }

  lemma BitStepXor(x: bv64, y: bv64)
    ensures BitStep(Xor(x, y)) == Xor(BitStep(x), BitStep(y))
  {
    if x & 1 == 1 {
      if y & 1 == 1 {
        TapsCancel(x, y, Xor(x, y), BitStep(x), BitStep(y));
      } else {
        TapLeft(x, y, Xor(x, y), BitStep(x), BitStep(y));
      }
    } else {
      if y & 1 == 1 {
        TapRight(x, y, Xor(x, y), BitStep(x), BitStep(y));
      } else {
        NoTap(x, y, Xor(x, y), BitStep(x), BitStep(y));
      }
    }
  }

  lemma StepAdditive()
    ensures L.Additive(Xor, BitStep)
  {
    forall a: bv64, b: bv64 ensures BitStep(Xor(a, b)) == Xor(BitStep(a), BitStep(b)) {
      BitStepXor(a, b);
    }
  }

  lemma XorRegroup(a: bv64, b: bv64, c: bv64, ab: bv64, bc: bv64)
    requires ab == a ^ b && bc == b ^ c
    ensures Xor(ab, c) == Xor(a, bc)
  {
  }

  lemma XorAssociative(a: bv64, b: bv64, c: bv64)
    ensures Xor(Xor(a, b), c) == Xor(a, Xor(b, c))
  {
    XorRegroup(a, b, c, Xor(a, b), Xor(b, c));
  }

  lemma XorCommutes(a: bv64, b: bv64)
    ensures Xor(a, b) == Xor(b, a)
  {
  }

  lemma XorNeutral(a: bv64)
    ensures Xor(a, a) == 0 && Xor(0, a) == a
  {
  }

  lemma XorIsGroup()
    ensures L.XorGroup(Xor, 0)
  {
    forall a: bv64, b: bv64, c: bv64 ensures Xor(Xor(a, b), c) == Xor(a, Xor(b, c)) {
      XorAssociative(a, b, c);
    }
    forall a: bv64, b: bv64 ensures Xor(a, b) == Xor(b, a) { XorCommutes(a, b); }
    forall a: bv64 ensures Xor(a, a) == 0 { XorNeutral(a); }
    forall a: bv64 ensures Xor(0, a) == a { XorNeutral(a); }
  }

  lemma ZeroBitsLinear(x: bv64, y: bv64, n: nat)
    ensures ZeroBits(Xor(x, y), n) == Xor(ZeroBits(x, n), ZeroBits(y, n))
  {
    StepAdditive();
    L.StepsLinear(Xor, BitStep, x, y, n);
  }

  lemma ZeroBitsAdd(c: bv64, m: nat, n: nat)
    ensures ZeroBits(c, m + n) == ZeroBits(ZeroBits(c, m), n)
  {
    L.StepsAdd(BitStep, c, m, n);
  }

  lemma ZeroBitsOne(c: bv64, n: nat)
    requires n > 0
    ensures ZeroBits(c, n) == ZeroBits(BitStep(c), n - 1)
  {
  }

  /* While the low bits are clear, stepping only shifts. */
  lemma ShiftByte(c: bv64)
    requires c & 0xff == 0
    ensures ZeroBits(c, 8) == c >> 8
  {
    ShiftNibble(c);
    ShiftNibble(c >> 4);
    ZeroBitsAdd(c, 4, 4);
  }

  lemma ShiftPair(c: bv64)
    requires c & 0x3 == 0
    ensures ZeroBits(c, 2) == c >> 2
  {
    ZeroBitsOne(c, 2);
    ZeroBitsOne(c >> 1, 1);
  }

  lemma ShiftNibble(c: bv64)
    requires c & 0xf == 0
    ensures ZeroBits(c, 4) == c >> 4
  {
    ShiftPair(c);
    ShiftPair(c >> 2);
    ZeroBitsAdd(c, 2, 2);
  }

  function HighPart(c: bv64): bv64 { c & 0xffff_ffff_ffff_ff00 }

  lemma SplitByte(c: bv64)
    ensures c == Xor(Embed(LowByte(c)), HighPart(c))
    ensures HighPart(c) & 0xff == 0
    ensures HighPart(c) >> 8 == Shr8(c)
  {
    JoinByte(c, LowByte(c), HighPart(c));
  }

  lemma JoinByte(c: bv64, low: bv8, high: bv64)
    requires low == (c & 0xff) as bv8 && high == c & 0xffff_ffff_ffff_ff00
    ensures c == Xor(Embed(low), high)
    ensures high & 0xff == 0
    ensures high >> 8 == Shr8(c)
  {
  }

  /* The byte-at-a-time form: look up the low byte, shift the rest. */
  lemma ByteStep(c: bv64)
    ensures ZeroBits(c, 8) == Xor(ZeroBits(Embed(LowByte(c)), 8), Shr8(c))
  {
    SplitByte(c);
    ByteStepParts(c, Embed(LowByte(c)), HighPart(c), Shr8(c));
  }

  lemma ByteStepParts(c: bv64, low: bv64, high: bv64, rest: bv64)
    requires c == Xor(low, high) && high & 0xff == 0 && high >> 8 == rest
    ensures ZeroBits(c, 8) == Xor(ZeroBits(low, 8), rest)
  {
    ZeroBitsLinear(low, high, 8);
    ShiftByte(high);
  }

  // ----- Feeding message bits is stepping the register exclusive-ored with them.

  lemma FeedBitSplit(c: bv64, b: bv8)
    ensures BitStep(Xor(c, Embed(b))) == Xor(FeedBit(c, b & 1 == 1), Embed(b >> 1))
  {
    var low: bv64 := (b & 1) as bv64;
    var high: bv64 := (b & 0xfe) as bv64;
    SplitInput(c, b, Embed(b), low, high, Xor(c, low));
    StepLow(c, b, low, Xor(c, low));
    BitStepXor(Xor(c, low), high);
  }

  lemma SplitInput(c: bv64, b: bv8, e: bv64, low: bv64, high: bv64, cLow: bv64)
    requires low == (b & 1) as bv64 && high == (b & 0xfe) as bv64 && e == b as bv64 && cLow == c ^ low
    ensures Xor(c, e) == Xor(cLow, high)
    ensures BitStep(high) == Embed(b >> 1)
  {
  }

  lemma StepLow(c: bv64, b: bv8, low: bv64, cLow: bv64)
    requires low == (b & 1) as bv64 && cLow == c ^ low
    ensures BitStep(cLow) == FeedBit(c, b & 1 == 1)
  {
    if b & 1 == 1 {
      StepFlipped(c, cLow);
    } else {
      StepSame(c, cLow);
    }
  }

  lemma StepFlipped(c: bv64, flipped: bv64)
    requires flipped == c ^ 1
    ensures BitStep(flipped) == FeedBit(c, true)
  {
    assert flipped >> 1 == c >> 1;
    assert flipped & 1 == 1 <==> c & 1 != 1;
  }

  lemma StepSame(c: bv64, same: bv64)
    requires same == c ^ 0
    ensures BitStep(same) == FeedBit(c, false)
  {
    assert same == c;
  }

  lemma {:induction false} FeedBitsIsZeroBits(c: bv64, b: bv8, n: nat)
    requires n <= 8
    requires b >> n == 0
    ensures FeedBits(c, b, n) == ZeroBits(Xor(c, Embed(b)), n)
    decreases n
  {
    if n == 0 {
      assert Xor(c, Embed(b)) == c;
    } else {
      FeedBitSplit(c, b);
      HalfBound(b, n);
      FeedBitsIsZeroBits(FeedBit(c, b & 1 == 1), b >> 1, n - 1);
      ZeroBitsOne(Xor(c, Embed(b)), n);
    }
  }

  lemma HalfBound(b: bv8, n: nat)
    requires 0 < n <= 8
    requires b >> n == 0
    ensures (b >> 1) >> (n - 1) == 0
  {
  }

  lemma FeedByte(c: bv64, b: bv8)
    ensures FeedBits(c, b, 8) == ZeroBits(Xor(c, Embed(b)), 8)
  {
    FeedBitsIsZeroBits(c, b, 8);
  }

  lemma {:induction false} FeedIsRegisterFeed(c: bv64, s: seq<bv8>)
    ensures Feed(c, s) == L.Feed(Xor, BitStep, Embed, c, s)
    decreases |s|
  {
    if s != [] {
      FeedByte(c, s[0]);
      FeedIsRegisterFeed(FeedBits(c, s[0], 8), s[1..]);
    }
  }

  lemma FeedAppend(c: bv64, a: seq<bv8>, b: seq<bv8>)
    ensures Feed(c, a + b) == Feed(Feed(c, a), b)
  {
    FeedIsRegisterFeed(c, a + b);
    FeedIsRegisterFeed(c, a);
    FeedIsRegisterFeed(Feed(c, a), b);
    L.FeedAppend(Xor, BitStep, Embed, c, a, b);
  }

  /* Feeding a buffer in pieces equals feeding it whole. */
  lemma CrcIncremental(crc: bv64, a: seq<bv8>, b: seq<bv8>)
    ensures Crc(Crc(crc, a), b) == Crc(crc, a + b)
  {
    FeedAppend(Not(crc), a, b);
    DoubleComplement(Feed(Not(crc), a));
  }

  lemma DoubleComplement(c: bv64)
    ensures Not(Not(c)) == c
  {
  }

  lemma ComplementIsXor(c: bv64)
    ensures Not(c) == Xor(Not(0), c)
  {
  }

  /* The law behind `aos_crc64_combine`. */
  lemma CombineLaw(crc: bv64, a: seq<bv8>, b: seq<bv8>)
    ensures Xor(ZeroBits(Crc(crc, a), 8 * |b|), Crc(0, b)) == Crc(crc, a + b)
  {
    StepAdditive();
    XorIsGroup();
    L.CombineRule(Xor, 0, Not(0), BitStep, Embed, Not(crc), a, b);
    FeedIsRegisterFeed(Not(crc), a);
    FeedIsRegisterFeed(Not(crc), a + b);
    FeedIsRegisterFeed(Not(0), b);
    ComplementIsXor(Feed(Not(crc), a));
    ComplementIsXor(Feed(Not(crc), a + b));
    ComplementIsXor(Feed(Not(0), b));
  }
}
