/**
 Why eight table look-ups process eight message bytes: the table entries as powers of the
 zero-bit operator, the byte and word steps of the register, and the byte-reversed register
 that the big-endian code keeps.
 */
module Crc64Slices {
  import opened Crc64Reference
  import L = LinearRegister

  /* What row `k`, column `n` of the slicing table has to hold: byte `n` followed by k zero bytes. */
  function Entry(k: nat, n: bv8): bv64 {
    ZeroBits(Embed(n), 8 * (k + 1))
  }

  function Xor8(a0: bv64, a1: bv64, a2: bv64, a3: bv64, a4: bv64, a5: bv64, a6: bv64, a7: bv64): bv64 {
    L.Xor8(Xor, a0, a1, a2, a3, a4, a5, a6, a7)
  }

  // ----- One byte.

  lemma ShiftDropsByte(c: bv64, b: bv8, e: bv64, ce: bv64)
    requires e == b as bv64 && ce == c ^ e
    ensures Shr8(ce) == Shr8(c)
  {
  }

  /* crc64_little's byte step. */
  lemma LittleByteStep(c: bv64, b: bv8)
    ensures FeedBits(c, b, 8) == Xor(Entry(0, LowByte(Xor(c, Embed(b)))), Shr8(c))
  {
    FeedByte(c, b);
    ByteStep(Xor(c, Embed(b)));
    ShiftDropsByte(c, b, Embed(b), Xor(c, Embed(b)));
  }

  // ----- Eight bytes.

  /* Splitting off the low byte of a stepped word. */
  lemma PeelByte(c: bv64, m: nat)
    requires m > 0
    ensures ZeroBits(c, 8 * m) == Xor(ZeroBits(Embed(LowByte(c)), 8 * m), ZeroBits(Shr8(c), 8 * (m - 1)))
  {
    SplitByte(c);
    PeelParts(c, Embed(LowByte(c)), HighPart(c), Shr8(c), m);
  }

  lemma PeelParts(c: bv64, low: bv64, high: bv64, rest: bv64, m: nat)
    requires m > 0 && c == Xor(low, high) && high & 0xff == 0 && high >> 8 == rest
    ensures ZeroBits(c, 8 * m) == Xor(ZeroBits(low, 8 * m), ZeroBits(rest, 8 * (m - 1)))
  {
    ZeroBitsLinear(low, high, 8 * m);
    ZeroBitsAdd(high, 8, 8 * (m - 1));
    ShiftByte(high);
  }

  lemma AbsorbParts(c: bv64, low: bv64, high: bv64)
    requires high & 0xff == 0
    ensures ZeroBits(Xor(c, Xor(low, high)), 8) == Xor(ZeroBits(Xor(c, low), 8), high >> 8)
  {
    XorAssociative(c, low, high);
    ZeroBitsLinear(Xor(c, low), high, 8);
    ShiftByte(high);
  }

  lemma AbsorbByte(c: bv64, w: bv64)
    ensures ZeroBits(Xor(c, w), 8) == Xor(FeedBits(c, LowByte(w), 8), Shr8(w))
  {
    SplitByte(w);
    AbsorbParts(c, Embed(LowByte(w)), HighPart(w));
    FeedByte(c, LowByte(w));
  }

  /* Bytes of a word, least significant first. */
  function BytesOf(w: bv64, m: nat): seq<bv8> {
    L.BytesOf(LowByte, Shr8, w, m)
  }

  lemma {:induction false} AbsorbBytes(c: bv64, w: bv64, m: nat)
    ensures ZeroBits(Xor(c, w), 8 * m) == Xor(Feed(c, BytesOf(w, m)), L.Steps(Shr8, w, m))
    decreases m
  {
    if m > 0 {
      ZeroBitsAdd(Xor(c, w), 8, 8 * (m - 1));
      AbsorbByte(c, w);
      AbsorbBytes(FeedBits(c, LowByte(w), 8), Shr8(w), m - 1);
      FeedFirst(c, LowByte(w), BytesOf(Shr8(w), m - 1));
    }
  }

  lemma FeedFirst(c: bv64, b: bv8, s: seq<bv8>)
    ensures Feed(c, [b] + s) == Feed(FeedBits(c, b, 8), s)
  {
    assert ([b] + s)[0] == b && ([b] + s)[1..] == s;
  }

  lemma WordShifts(w: bv64)
    ensures Shr8(w) == w >> 8 && Shr8(w >> 8) == w >> 16 && Shr8(w >> 16) == w >> 24
    ensures Shr8(w >> 24) == w >> 32 && Shr8(w >> 32) == w >> 40 && Shr8(w >> 40) == w >> 48
    ensures Shr8(w >> 48) == w >> 56 && Shr8(w >> 56) == 0
  {
  }

  lemma WordShiftChain(w: bv64)
    ensures L.ShiftChain(Shr8, 0, w, w >> 8, w >> 16, w >> 24, w >> 32, w >> 40, w >> 48, w >> 56)
  {
    WordShifts(w);
  }

  lemma BytesOfWord(w: bv64)
    ensures L.Steps(Shr8, w, 8) == 0
    ensures BytesOf(w, 8) == [LowByte(w), LowByte(w >> 8), LowByte(w >> 16), LowByte(w >> 24),
                              LowByte(w >> 32), LowByte(w >> 40), LowByte(w >> 48), LowByte(w >> 56)]
  {
    WordShiftChain(w);
    L.BytesOfChain(LowByte, Shr8, 0, w, w >> 8, w >> 16, w >> 24, w >> 32, w >> 40, w >> 48, w >> 56);
  }

  /* The memory read `*(uint64_t *)next` on a little-endian machine. */
  function LoadLittle(s: seq<bv8>): bv64
    requires |s| == 8
  {
    Word(s[0], s[1], s[2], s[3], s[4], s[5], s[6], s[7])
  }

  /* The same read on a big-endian machine. */
  function LoadBig(s: seq<bv8>): bv64
    requires |s| == 8
  {
    Word(s[7], s[6], s[5], s[4], s[3], s[2], s[1], s[0])
  }

  /* The word with these bytes, least significant first. */
  function Word(b0: bv8, b1: bv8, b2: bv8, b3: bv8, b4: bv8, b5: bv8, b6: bv8, b7: bv8): bv64 {
    (b0 as bv64) | ((b1 as bv64) << 8) | ((b2 as bv64) << 16) | ((b3 as bv64) << 24) |
    ((b4 as bv64) << 32) | ((b5 as bv64) << 40) | ((b6 as bv64) << 48) | ((b7 as bv64) << 56)
  }

  lemma WordBytes(w: bv64, b0: bv8, b1: bv8, b2: bv8, b3: bv8, b4: bv8, b5: bv8, b6: bv8, b7: bv8)
    requires w == Word(b0, b1, b2, b3, b4, b5, b6, b7)
    ensures LowByte(w) == b0 && LowByte(w >> 8) == b1 && LowByte(w >> 16) == b2 && LowByte(w >> 24) == b3
    ensures LowByte(w >> 32) == b4 && LowByte(w >> 40) == b5 && LowByte(w >> 48) == b6 && LowByte(w >> 56) == b7
  {
  }

  lemma BytesAre(w: bv64, s: seq<bv8>)
    requires |s| == 8
    requires LowByte(w) == s[0] && LowByte(w >> 8) == s[1] && LowByte(w >> 16) == s[2] && LowByte(w >> 24) == s[3]
    requires LowByte(w >> 32) == s[4] && LowByte(w >> 40) == s[5] && LowByte(w >> 48) == s[6] && LowByte(w >> 56) == s[7]
    ensures BytesOf(w, 8) == s
  {
    BytesOfWord(w);
  }

  lemma BytesOfLoad(w: bv64, s: seq<bv8>)
    requires |s| == 8 && w == LoadLittle(s)
    ensures BytesOf(w, 8) == s
  {
    assert w == Word(s[0], s[1], s[2], s[3], s[4], s[5], s[6], s[7]);
    WordBytes(w, s[0], s[1], s[2], s[3], s[4], s[5], s[6], s[7]);
    BytesAre(w, s);
  }

  /* Eight message bytes at once: exclusive-or the word in, then step 64 times. */
  lemma WordStep(c: bv64, s: seq<bv8>)
    requires |s| >= 8
    ensures Feed(c, s) == Feed(ZeroBits(Xor(c, LoadLittle(s[..8])), 64), s[8..])
  {
    var w := LoadLittle(s[..8]);
    AbsorbBytes(c, w, 8);
    BytesOfLoad(w, s[..8]);
    BytesOfWord(w);
    XorCommutes(Feed(c, s[..8]), 0);
    XorNeutral(Feed(c, s[..8]));
    assert s == s[..8] + s[8..];
    FeedAppend(c, s[..8], s[8..]);
  }

  function SliceEntry(k: nat, c: bv64): bv64 { Entry(k, LowByte(c)) }

  function ZeroBytes(c: bv64, m: nat): bv64 { ZeroBits(c, 8 * m) }

  lemma ZeroBytesPeel()
    ensures L.Peels(Xor, Shr8, SliceEntry, ZeroBytes)
    ensures forall a: bv64 {:trigger Xor(a, 0)} :: Xor(a, 0) == a
    ensures forall a: bv64, b: bv64 {:trigger Xor(a, b)} :: Xor(a, b) == Xor(b, a)
    ensures ZeroBytes(0, 0) == 0
  {
    forall c: bv64, m: nat {:trigger ZeroBytes(c, m)} | m > 0
      ensures ZeroBytes(c, m) == Xor(SliceEntry(m - 1, c), ZeroBytes(Shr8(c), m - 1))
    {
      PeelByte(c, m);
    }
    forall a: bv64 ensures Xor(a, 0) == a { XorCommutes(a, 0); XorNeutral(a); }
    forall a: bv64, b: bv64 ensures Xor(a, b) == Xor(b, a) { XorCommutes(a, b); }
  }

  /* Eight look-ups are 64 steps, in crc64_little's order. */
  lemma SlicesAre64Steps(c: bv64)
    ensures Xor8(Entry(7, LowByte(c)), Entry(6, LowByte(c >> 8)), Entry(5, LowByte(c >> 16)),
                 Entry(4, LowByte(c >> 24)), Entry(3, LowByte(c >> 32)), Entry(2, LowByte(c >> 40)),
                 Entry(1, LowByte(c >> 48)), Entry(0, LowByte(c >> 56))) == ZeroBits(c, 64)
  {
    WordShiftChain(c);
    ZeroBytesPeel();
    XorIsGroup();
    L.PeelingAssociates(Xor, 0, Shr8, SliceEntry, ZeroBytes);
    L.SlicesAscending(Xor, 0, Shr8, SliceEntry, ZeroBytes,
                      c, c >> 8, c >> 16, c >> 24, c >> 32, c >> 40, c >> 48, c >> 56);
  }

  /* The same eight look-ups in crc64_big's order. */
  lemma ReversedSlicesAre64Steps(c: bv64)
    ensures Xor8(Entry(0, LowByte(c >> 56)), Entry(1, LowByte(c >> 48)), Entry(2, LowByte(c >> 40)),
                 Entry(3, LowByte(c >> 32)), Entry(4, LowByte(c >> 24)), Entry(5, LowByte(c >> 16)),
                 Entry(6, LowByte(c >> 8)), Entry(7, LowByte(c))) == ZeroBits(c, 64)
  {
    WordShiftChain(c);
    ZeroBytesPeel();
    L.SlicesDescending(Xor, 0, Shr8, SliceEntry, ZeroBytes,
                       c, c >> 8, c >> 16, c >> 24, c >> 32, c >> 40, c >> 48, c >> 56);
  }

  // ----- The byte-reversed register.

  /* Reverse the bytes in a word. */
  function Rev8(a: bv64): bv64 {
    var m: bv64 := 0x00ff_00ff_00ff_00ff;
    var b := ((a >> 8) & m) | ((a & m) << 8);
    var m': bv64 := 0x0000_ffff_0000_ffff;
    var c := ((b >> 16) & m') | ((b & m') << 16);
    (c >> 32) | (c << 32)
  }

  function Shl8(c: bv64): bv64 { c << 8 }

  lemma Rev8Involution(a: bv64)
    ensures Rev8(Rev8(a)) == a
  {
  }

  lemma Rev8Bytes(a: bv64, r: bv64)
    requires r == Rev8(a)
    ensures LowByte(r) == LowByte(a >> 56) && LowByte(r >> 8) == LowByte(a >> 48)
    ensures LowByte(r >> 16) == LowByte(a >> 40) && LowByte(r >> 24) == LowByte(a >> 32)
    ensures LowByte(r >> 32) == LowByte(a >> 24) && LowByte(r >> 40) == LowByte(a >> 16)
    ensures LowByte(r >> 48) == LowByte(a >> 8) && LowByte(r >> 56) == LowByte(a)
  {
  }

  lemma Rev8Not(a: bv64)
    ensures Rev8(Not(a)) == Not(Rev8(a))
  {
  }

  lemma Rev8Shift(a: bv64)
    ensures Rev8(Shl8(a)) == Shr8(Rev8(a))
  {
  }

  lemma Rev8OfXor(a: bv64, b: bv64, ab: bv64)
    requires ab == a ^ b
    ensures Rev8(ab) == Rev8(a) ^ Rev8(b)
  {
  }

  lemma Rev8Xor(a: bv64, b: bv64)
    ensures Rev8(Xor(a, b)) == Xor(Rev8(a), Rev8(b))
  {
    Rev8OfXor(a, b, Xor(a, b));
  }

  lemma Rev8Additive()
    ensures L.Additive(Xor, Rev8)
  {
    forall a: bv64, b: bv64 ensures Rev8(Xor(a, b)) == Xor(Rev8(a), Rev8(b)) {
      Rev8Xor(a, b);
    }
  }

  lemma Rev8OfWord(w: bv64, b0: bv8, b1: bv8, b2: bv8, b3: bv8, b4: bv8, b5: bv8, b6: bv8, b7: bv8)
    requires w == Word(b7, b6, b5, b4, b3, b2, b1, b0)
    ensures Rev8(w) == Word(b0, b1, b2, b3, b4, b5, b6, b7)
  {
  }

  /* crc64_big's byte step: the reversed register follows the plain one. */
  lemma BigByteStep(r: bv64, b: bv8)
    ensures FeedBits(Rev8(r), b, 8) == Rev8(Xor(Rev8(Entry(0, LowByte(r >> 56) ^ b)), Shl8(r)))
  {
    var c := Rev8(r);
    var e := Entry(0, LowByte(Xor(c, Embed(b))));
    LittleByteStep(c, b);
    TopByteIndex(r, c, b, Xor(c, Embed(b)));
    Rev8Shift(r);
    Rev8Involution(e);
    Rev8Xor(Rev8(e), Shl8(r));
  }

  lemma TopByteIndex(r: bv64, c: bv64, b: bv8, cb: bv64)
    requires c == Rev8(r) && cb == c ^ (b as bv64)
    ensures LowByte(cb) == LowByte(r >> 56) ^ b
  {
  }

  /* crc64_big's word step, once the loaded word has been exclusive-ored in. */
  lemma BigWordLookups(r: bv64, c: bv64)
    requires r == Rev8(c)
    ensures Xor8(Rev8(Entry(0, LowByte(r))), Rev8(Entry(1, LowByte(r >> 8))), Rev8(Entry(2, LowByte(r >> 16))),
                 Rev8(Entry(3, LowByte(r >> 24))), Rev8(Entry(4, LowByte(r >> 32))), Rev8(Entry(5, LowByte(r >> 40))),
                 Rev8(Entry(6, LowByte(r >> 48))), Rev8(Entry(7, LowByte(r >> 56)))) == Rev8(ZeroBits(c, 64))
  {
    Rev8Bytes(c, r);
    ReversedSlicesAre64Steps(c);
    Rev8Additive();
    L.AdditiveXor8(Xor, Rev8, Entry(0, LowByte(r)), Entry(1, LowByte(r >> 8)), Entry(2, LowByte(r >> 16)),
                   Entry(3, LowByte(r >> 24)), Entry(4, LowByte(r >> 32)), Entry(5, LowByte(r >> 40)),
                   Entry(6, LowByte(r >> 48)), Entry(7, LowByte(r >> 56)));
  }

  lemma BigLoad(r: bv64, s: seq<bv8>)
    requires |s| == 8
    ensures Rev8(Xor(r, LoadBig(s))) == Xor(Rev8(r), LoadLittle(s))
  {
    Rev8OfWord(LoadBig(s), s[0], s[1], s[2], s[3], s[4], s[5], s[6], s[7]);
    Rev8Xor(r, LoadBig(s));
  }
}
