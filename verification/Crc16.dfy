/**
 ext2fs_crc16: the 256-entry table of the reflected CRC-16 (polynomial 0x8005) and the byte
 loop over it, against a register fed one message bit at a time.
 */
module Crc16 {
  import L = LinearRegister

  /* 0x8005, bit-reversed. */
  const POLY: bv16 := 0xA001

  // ----- The reference: one message bit at a time, least significant bit first.

  function FeedBit(c: bv16, bit: bool): bv16 {
    if (c & 1 == 1) != bit then POLY ^ (c >> 1) else c >> 1
  }

  function FeedBits(c: bv16, b: bv8, n: nat): bv16
    decreases n
  {
    if n == 0 then c else FeedBits(FeedBit(c, b & 1 == 1), b >> 1, n - 1)
  }

  /* CRC-16 of `s` continued from `c`. */
  function Crc(c: bv16, s: seq<bv8>): bv16
    decreases |s|
  {
    if s == [] then c else Crc(FeedBits(c, s[0], 8), s[1..])
  }

  // ----- The register stepped by zero bits.

  function Xor(a: bv16, b: bv16): bv16 { a ^ b }

  function Embed(b: bv8): bv16 { b as bv16 }

  function LowByte(c: bv16): bv8 { (c & 0xff) as bv8 }

  function Shr8(c: bv16): bv16 { c >> 8 }

  function BitStep(c: bv16): bv16 {
    if c & 1 == 1 then POLY ^ (c >> 1) else c >> 1
  }

  function ZeroBits(c: bv16, n: nat): bv16 {
    L.Steps(BitStep, c, n)
  }

  lemma TapsCancel(x: bv16, y: bv16, xy: bv16, sx: bv16, sy: bv16)
    requires x & 1 == 1 && y & 1 == 1 && xy == x ^ y && sx == POLY ^ (x >> 1) && sy == POLY ^ (y >> 1)
    ensures BitStep(xy) == Xor(sx, sy)
  {
  }

  lemma TapLeft(x: bv16, y: bv16, xy: bv16, sx: bv16, sy: bv16)
    requires x & 1 == 1 && y & 1 != 1 && xy == x ^ y && sx == POLY ^ (x >> 1) && sy == y >> 1
    ensures BitStep(xy) == Xor(sx, sy)
  {
  }

  lemma TapRight(x: bv16, y: bv16, xy: bv16, sx: bv16, sy: bv16)
    requires x & 1 != 1 && y & 1 == 1 && xy == x ^ y && sx == x >> 1 && sy == POLY ^ (y >> 1)
    ensures BitStep(xy) == Xor(sx, sy)
  {
  }

  lemma NoTap(x: bv16, y: bv16, xy: bv16, sx: bv16, sy: bv16)
    requires x & 1 != 1 && y & 1 != 1 && xy == x ^ y && sx == x >> 1 && sy == y >> 1
    ensures BitStep(xy) == Xor(sx, sy)
  {
  }

  lemma BitStepXor(x: bv16, y: bv16)
    ensures BitStep(Xor(x, y)) == Xor(BitStep(x), BitStep(y))
  {
    if x & 1 == 1 {
      if y & 1 == 1 {
        TapsCancel(x, y, Xor(x, y), BitStep(x), BitStep(y));
      } else {
        TapLeft(x, y, Xor(x, y), BitStep(x), BitStep(y));
      }
    } else {
      if y & 1 == 1 {
        TapRight(x, y, Xor(x, y), BitStep(x), BitStep(y));
      } else {
        NoTap(x, y, Xor(x, y), BitStep(x), BitStep(y));
      }
    }
  }

  lemma StepAdditive()
    ensures L.Additive(Xor, BitStep)
  {
    forall a: bv16, b: bv16 ensures BitStep(Xor(a, b)) == Xor(BitStep(a), BitStep(b)) {
      BitStepXor(a, b);
    }
  }

  lemma ZeroBitsLinear(x: bv16, y: bv16, n: nat)
    ensures ZeroBits(Xor(x, y), n) == Xor(ZeroBits(x, n), ZeroBits(y, n))
  {
    StepAdditive();
    L.StepsLinear(Xor, BitStep, x, y, n);
  }

  lemma ZeroBitsOne(c: bv16, n: nat)
    requires n > 0
    ensures ZeroBits(c, n) == ZeroBits(BitStep(c), n - 1)
  {
  }

  lemma ShiftPair(c: bv16)
    requires c & 0x3 == 0
    ensures ZeroBits(c, 2) == c >> 2
  {
    ZeroBitsOne(c, 2);
    ZeroBitsOne(c >> 1, 1);
  }

  lemma ShiftByte(c: bv16)
    requires c & 0xff == 0
    ensures ZeroBits(c, 8) == c >> 8
  {
    ShiftPair(c);
    ShiftPair(c >> 2);
    ShiftPair(c >> 4);
    ShiftPair(c >> 6);
    L.StepsAdd(BitStep, c, 2, 6);
    L.StepsAdd(BitStep, c >> 2, 2, 4);
    L.StepsAdd(BitStep, c >> 4, 2, 2);
  }

  function HighPart(c: bv16): bv16 { c & 0xff00 }

  lemma JoinByte(c: bv16, low: bv8, high: bv16)
    requires low == (c & 0xff) as bv8 && high == c & 0xff00
    ensures c == Xor(Embed(low), high)
    ensures high & 0xff == 0 && high >> 8 == Shr8(c)
  {
  }

  lemma ByteStep(c: bv16)
    ensures ZeroBits(c, 8) == Xor(ZeroBits(Embed(LowByte(c)), 8), Shr8(c))
  {
    JoinByte(c, LowByte(c), HighPart(c));
    ZeroBitsLinear(Embed(LowByte(c)), HighPart(c), 8);
    ShiftByte(HighPart(c));
  }

  lemma FeedBitSplit(c: bv16, b: bv8, cb: bv16)
    requires cb == c ^ (b as bv16)
    ensures BitStep(cb) == Xor(FeedBit(c, b & 1 == 1), Embed(b >> 1))
  {
  }

  lemma {:induction false} FeedBitsIsZeroBits(c: bv16, b: bv8, n: nat)
    requires n <= 8
    requires b >> n == 0
    ensures FeedBits(c, b, n) == ZeroBits(Xor(c, Embed(b)), n)
    decreases n
  {
    if n == 0 {
      assert Xor(c, Embed(b)) == c;
    } else {
      FeedBitSplit(c, b, Xor(c, Embed(b)));
      HalfBound(b, n);
      FeedBitsIsZeroBits(FeedBit(c, b & 1 == 1), b >> 1, n - 1);
      ZeroBitsOne(Xor(c, Embed(b)), n);
    }
  }

  lemma HalfBound(b: bv8, n: nat)
    requires 0 < n <= 8
    requires b >> n == 0
    ensures (b >> 1) >> (n - 1) == 0
  {
  }

  lemma FeedByte(c: bv16, b: bv8)
    ensures FeedBits(c, b, 8) == ZeroBits(Xor(c, Embed(b)), 8)
  {
    FeedBitsIsZeroBits(c, b, 8);
  }

  /* Absorbing a byte: step the low byte, shift the rest. */
  lemma AbsorbByte(c: bv16, b: bv8)
    ensures FeedBits(c, b, 8) == Xor(ZeroBits(Embed(LowByte(Xor(c, Embed(b)))), 8), Shr8(c))
  {
    FeedByte(c, b);
    ByteStep(Xor(c, Embed(b)));
    ShiftDropsByte(c, b, Xor(c, Embed(b)));
  }

  lemma ShiftDropsByte(c: bv16, b: bv8, cb: bv16)
    requires cb == c ^ (b as bv16)
    ensures Shr8(cb) == Shr8(c)
  {
  }

  lemma XorCommutes(a: bv16, b: bv16)
    ensures Xor(a, b) == Xor(b, a)
  {
  }

  // ----- The table of the source, sixteen entries to a row.

  function Row0(i: bv8): bv16 {
    match i
    case 0 => 0x0000 case 1 => 0xC0C1 case 2 => 0xC181 case 3 => 0x0140
    case 4 => 0xC301 case 5 => 0x03C0 case 6 => 0x0280 case 7 => 0xC241
    case 8 => 0xC601 case 9 => 0x06C0 case 10 => 0x0780 case 11 => 0xC741
    case 12 => 0x0500 case 13 => 0xC5C1 case 14 => 0xC481 case _ => 0x0440
  }

  function Row1(i: bv8): bv16 {
    match i
    case 0 => 0xCC01 case 1 => 0x0CC0 case 2 => 0x0D80 case 3 => 0xCD41
    case 4 => 0x0F00 case 5 => 0xCFC1 case 6 => 0xCE81 case 7 => 0x0E40
    case 8 => 0x0A00 case 9 => 0xCAC1 case 10 => 0xCB81 case 11 => 0x0B40
    case 12 => 0xC901 case 13 => 0x09C0 case 14 => 0x0880 case _ => 0xC841
  }

  function Row2(i: bv8): bv16 {
    match i
    case 0 => 0xD801 case 1 => 0x18C0 case 2 => 0x1980 case 3 => 0xD941
    case 4 => 0x1B00 case 5 => 0xDBC1 case 6 => 0xDA81 case 7 => 0x1A40
    case 8 => 0x1E00 case 9 => 0xDEC1 case 10 => 0xDF81 case 11 => 0x1F40
    case 12 => 0xDD01 case 13 => 0x1DC0 case 14 => 0x1C80 case _ => 0xDC41
  }

  function Row3(i: bv8): bv16 {
    match i
    case 0 => 0x1400 case 1 => 0xD4C1 case 2 => 0xD581 case 3 => 0x1540
    case 4 => 0xD701 case 5 => 0x17C0 case 6 => 0x1680 case 7 => 0xD641
    case 8 => 0xD201 case 9 => 0x12C0 case 10 => 0x1380 case 11 => 0xD341
    case 12 => 0x1100 case 13 => 0xD1C1 case 14 => 0xD081 case _ => 0x1040
  }

  function Row4(i: bv8): bv16 {
    match i
    case 0 => 0xF001 case 1 => 0x30C0 case 2 => 0x3180 case 3 => 0xF141
    case 4 => 0x3300 case 5 => 0xF3C1 case 6 => 0xF281 case 7 => 0x3240
    case 8 => 0x3600 case 9 => 0xF6C1 case 10 => 0xF781 case 11 => 0x3740
    case 12 => 0xF501 case 13 => 0x35C0 case 14 => 0x3480 case _ => 0xF441
  }

  function Row5(i: bv8): bv16 {
    match i
    case 0 => 0x3C00 case 1 => 0xFCC1 case 2 => 0xFD81 case 3 => 0x3D40
    case 4 => 0xFF01 case 5 => 0x3FC0 case 6 => 0x3E80 case 7 => 0xFE41
    case 8 => 0xFA01 case 9 => 0x3AC0 case 10 => 0x3B80 case 11 => 0xFB41
    case 12 => 0x3900 case 13 => 0xF9C1 case 14 => 0xF881 case _ => 0x3840
  }

  function Row6(i: bv8): bv16 {
    match i
    case 0 => 0x2800 case 1 => 0xE8C1 case 2 => 0xE981 case 3 => 0x2940
    case 4 => 0xEB01 case 5 => 0x2BC0 case 6 => 0x2A80 case 7 => 0xEA41
    case 8 => 0xEE01 case 9 => 0x2EC0 case 10 => 0x2F80 case 11 => 0xEF41
    case 12 => 0x2D00 case 13 => 0xEDC1 case 14 => 0xEC81 case _ => 0x2C40
  }

  function Row7(i: bv8): bv16 {
    match i
    case 0 => 0xE401 case 1 => 0x24C0 case 2 => 0x2580 case 3 => 0xE541
    case 4 => 0x2700 case 5 => 0xE7C1 case 6 => 0xE681 case 7 => 0x2640
    case 8 => 0x2200 case 9 => 0xE2C1 case 10 => 0xE381 case 11 => 0x2340
    case 12 => 0xE101 case 13 => 0x21C0 case 14 => 0x2080 case _ => 0xE041
  }

  function Row8(i: bv8): bv16 {
    match i
    case 0 => 0xA001 case 1 => 0x60C0 case 2 => 0x6180 case 3 => 0xA141
    case 4 => 0x6300 case 5 => 0xA3C1 case 6 => 0xA281 case 7 => 0x6240
    case 8 => 0x6600 case 9 => 0xA6C1 case 10 => 0xA781 case 11 => 0x6740
    case 12 => 0xA501 case 13 => 0x65C0 case 14 => 0x6480 case _ => 0xA441
  }

  function Row9(i: bv8): bv16 {
    match i
    case 0 => 0x6C00 case 1 => 0xACC1 case 2 => 0xAD81 case 3 => 0x6D40
    case 4 => 0xAF01 case 5 => 0x6FC0 case 6 => 0x6E80 case 7 => 0xAE41
    case 8 => 0xAA01 case 9 => 0x6AC0 case 10 => 0x6B80 case 11 => 0xAB41
    case 12 => 0x6900 case 13 => 0xA9C1 case 14 => 0xA881 case _ => 0x6840
  }

  function Row10(i: bv8): bv16 {
    match i
    case 0 => 0x7800 case 1 => 0xB8C1 case 2 => 0xB981 case 3 => 0x7940
    case 4 => 0xBB01 case 5 => 0x7BC0 case 6 => 0x7A80 case 7 => 0xBA41
    case 8 => 0xBE01 case 9 => 0x7EC0 case 10 => 0x7F80 case 11 => 0xBF41
    case 12 => 0x7D00 case 13 => 0xBDC1 case 14 => 0xBC81 case _ => 0x7C40
  }

  function Row11(i: bv8): bv16 {
    match i
    case 0 => 0xB401 case 1 => 0x74C0 case 2 => 0x7580 case 3 => 0xB541
    case 4 => 0x7700 case 5 => 0xB7C1 case 6 => 0xB681 case 7 => 0x7640
    case 8 => 0x7200 case 9 => 0xB2C1 case 10 => 0xB381 case 11 => 0x7340
    case 12 => 0xB101 case 13 => 0x71C0 case 14 => 0x7080 case _ => 0xB041
  }

  function Row12(i: bv8): bv16 {
    match i
    case 0 => 0x5000 case 1 => 0x90C1 case 2 => 0x9181 case 3 => 0x5140
    case 4 => 0x9301 case 5 => 0x53C0 case 6 => 0x5280 case 7 => 0x9241
    case 8 => 0x9601 case 9 => 0x56C0 case 10 => 0x5780 case 11 => 0x9741
    case 12 => 0x5500 case 13 => 0x95C1 case 14 => 0x9481 case _ => 0x5440
  }

  function Row13(i: bv8): bv16 {
    match i
    case 0 => 0x9C01 case 1 => 0x5CC0 case 2 => 0x5D80 case 3 => 0x9D41
    case 4 => 0x5F00 case 5 => 0x9FC1 case 6 => 0x9E81 case 7 => 0x5E40
    case 8 => 0x5A00 case 9 => 0x9AC1 case 10 => 0x9B81 case 11 => 0x5B40
    case 12 => 0x9901 case 13 => 0x59C0 case 14 => 0x5880 case _ => 0x9841
  }

  function Row14(i: bv8): bv16 {
    match i
    case 0 => 0x8801 case 1 => 0x48C0 case 2 => 0x4980 case 3 => 0x8941
    case 4 => 0x4B00 case 5 => 0x8BC1 case 6 => 0x8A81 case 7 => 0x4A40
    case 8 => 0x4E00 case 9 => 0x8EC1 case 10 => 0x8F81 case 11 => 0x4F40
    case 12 => 0x8D01 case 13 => 0x4DC0 case 14 => 0x4C80 case _ => 0x8C41
  }

  function Row15(i: bv8): bv16 {
    match i
    case 0 => 0x4400 case 1 => 0x84C1 case 2 => 0x8581 case 3 => 0x4540
    case 4 => 0x8701 case 5 => 0x47C0 case 6 => 0x4680 case 7 => 0x8641
    case 8 => 0x8201 case 9 => 0x42C0 case 10 => 0x4380 case 11 => 0x8341
    case 12 => 0x4100 case 13 => 0x81C1 case 14 => 0x8081 case _ => 0x4040
  }

  /* crc16_table[16 * k + i] */
  function Cell(k: bv8, i: bv8): bv16 {
    match k
    case 0 => Row0(i) case 1 => Row1(i) case 2 => Row2(i) case 3 => Row3(i)
    case 4 => Row4(i) case 5 => Row5(i) case 6 => Row6(i) case 7 => Row7(i)
    case 8 => Row8(i) case 9 => Row9(i) case 10 => Row10(i) case 11 => Row11(i)
    case 12 => Row12(i) case 13 => Row13(i) case 14 => Row14(i) case _ => Row15(i)
  }

  /* crc16_table[n], n being 16 * (n >> 4) + (n & 15). */
  function Lookup(n: bv8): bv16 {
    Cell(n >> 4, n & 0xf)
  }

  /* Eight steps of a byte, spelled out so that constants evaluate. */
  function EightSteps(b: bv8): bv16 {
    BitStep(BitStep(BitStep(BitStep(BitStep(BitStep(BitStep(BitStep(b as bv16))))))))
  }

  lemma EightStepsAreZeroBits(b: bv8)
    ensures EightSteps(b) == ZeroBits(Embed(b), 8)
  {
    var c := Embed(b);
    var c4 := BitStep(BitStep(BitStep(BitStep(c))));
    L.StepsAdd(BitStep, c, 4, 4);
    assert ZeroBits(c, 4) == c4;
    assert ZeroBits(c4, 4) == BitStep(BitStep(BitStep(BitStep(c4))));
  }

  lemma EntryOf(n: bv8)
    ensures Lookup(n) == EightSteps(n)
  {
  }

  /* Every entry of the table is the register after eight zero bits on its index. */
  lemma LookupCorrect(n: bv8)
    ensures Lookup(n) == ZeroBits(Embed(n), 8)
  {
    EntryOf(n);
    EightStepsAreZeroBits(n);
  }

  // ----- The code and its laws.

  /* The code keeps the register in an unsigned int and uses its low 16 bits. */
  function Low16(c: bv32): bv16 { (c & 0xffff) as bv16 }

  function Widen(c: bv16): bv32 { c as bv32 }

  function Index(c: bv32, b: bv8): bv8 { ((c ^ (b as bv32)) & 0xff) as bv8 }

  function Mix(c: bv32, entry: bv16): bv32 { (((c >> 8) & 0xff) ^ (entry as bv32)) & 0x0000ffff }

  /* The loop body. */
  function TableStep(c: bv32, b: bv8): bv32 {
    Mix(c, Lookup(Index(c, b)))
  }

  lemma IndexParts(c: bv32, b: bv8, low: bv16, x: bv16)
    requires low == (c & 0xffff) as bv16 && x == low ^ (b as bv16)
    ensures Index(c, b) == LowByte(x)
  {
  }

  lemma MixParts(c: bv32, low: bv16, entry: bv16)
    requires low == (c & 0xffff) as bv16
    ensures Mix(c, entry) == Widen(Xor(entry, Shr8(low)))
  {
  }

  lemma MixFeeds(c: bv32, b: bv8, entry: bv16)
    requires entry == ZeroBits(Embed(Index(c, b)), 8)
    ensures Mix(c, entry) == Widen(FeedBits(Low16(c), b, 8))
  {
    IndexParts(c, b, Low16(c), Xor(Low16(c), Embed(b)));
    MixParts(c, Low16(c), entry);
    AbsorbByte(Low16(c), b);
  }

  lemma TableStepFeeds(c: bv32, b: bv8)
    ensures TableStep(c, b) == Widen(FeedBits(Low16(c), b, 8))
  {
    LookupCorrect(Index(c, b));
    MixFeeds(c, b, Lookup(Index(c, b)));
  }

  lemma Low16OfWiden(c: bv16)
    ensures Low16(Widen(c)) == c
  {
  }

  method ExtCrc16(crc: bv32, buffer: seq<bv8>) returns (c: bv32)
    ensures c == if buffer == [] then crc else Widen(Crc(Low16(crc), buffer))
  {
    c := crc;
    var i := 0;
    assert buffer[0..] == buffer;
    while i < |buffer|
      invariant 0 <= i <= |buffer|
      invariant Crc(Low16(c), buffer[i..]) == Crc(Low16(crc), buffer)
      invariant c == if i == 0 then crc else Widen(Low16(c))
    {
      TableStepFeeds(c, buffer[i]);
      Low16OfWiden(FeedBits(Low16(c), buffer[i], 8));
      assert buffer[i..][1..] == buffer[i + 1..];
      c := TableStep(c, buffer[i]);
      i := i + 1;
    }
  }

  /* Incremental over concatenation. */
  lemma {:induction false} CrcIncremental(c: bv16, a: seq<bv8>, b: seq<bv8>)
    ensures Crc(c, a + b) == Crc(Crc(c, a), b)
    decreases |a|
  {
    if a == [] {
      assert a + b == b;
    } else {
      assert (a + b)[1..] == a[1..] + b;
      CrcIncremental(FeedBits(c, a[0], 8), a[1..], b);
    }
  }

  function HighByte(c: bv16): bv8 { (c >> 8) as bv8 }

  /* Appending the CRC, low byte first, leaves a zero register. */
  lemma CrcOfCodewordIsZero(c: bv16, s: seq<bv8>)
    ensures var r := Crc(c, s); Crc(c, s + [LowByte(r), HighByte(r)]) == 0
  {
    var r := Crc(c, s);
    CrcIncremental(c, s, [LowByte(r), HighByte(r)]);
    Annihilates(r, LowByte(r), HighByte(r));
  }

  lemma Cancel(r: bv16, low: bv8, high: bv8, x: bv16, z: bv16, s: bv16)
    requires low == (r & 0xff) as bv8 && high == (r >> 8) as bv8
    requires x == r ^ (low as bv16) && s == r >> 8 && z == s ^ (high as bv16)
    ensures LowByte(x) == 0 && LowByte(z) == 0 && Shr8(s) == 0
  {
  }

  /* Absorbing a byte that clears the low byte of the register only shifts. */
  lemma AbsorbClearing(c: bv16, b: bv8)
    requires LowByte(Xor(c, Embed(b))) == 0
    ensures FeedBits(c, b, 8) == Shr8(c)
  {
    AbsorbByte(c, b);
    ZeroBitsOfZero();
    XorZero(Shr8(c));
  }

  lemma XorZero(c: bv16)
    ensures Xor(0, c) == c
  {
  }

  lemma Annihilates(r: bv16, low: bv8, high: bv8)
    requires low == LowByte(r) && high == HighByte(r)
    ensures Crc(r, [low, high]) == 0
  {
    Cancel(r, low, high, Xor(r, Embed(low)), Xor(Shr8(r), Embed(high)), Shr8(r));
    AbsorbClearing(r, low);
    AbsorbClearing(Shr8(r), high);
    TwoBytes(r, low, high);
  }

  lemma TwoBytes(c: bv16, a: bv8, b: bv8)
    ensures Crc(c, [a, b]) == FeedBits(FeedBits(c, a, 8), b, 8)
  {
    assert [a, b][1..] == [b] && [b][1..] == [];
    assert Crc(FeedBits(c, a, 8), [b]) == Crc(FeedBits(FeedBits(c, a, 8), b, 8), []);
  }

  lemma ZeroBitsOfZero()
    ensures ZeroBits(Embed(0), 8) == 0
  {
    ShiftByte(0);
  }
}
