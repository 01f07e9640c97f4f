/**
 Shift registers whose step is additive over exclusive or, for any register type.
 The CRC-64 and the CRC-16 of this repository are two instances; their linearity,
 affine and composition laws are proved once, here, over an abstract register.
 */
module LinearRegister {

  /* `xor` is an exclusive or with neutral element `zero`. */
  ghost predicate XorGroup<T(!new)>(xor: (T, T) -> T, zero: T) {
    && (forall a, b {:trigger xor(a, b)} :: xor(a, b) == xor(b, a))
    && (forall a, b, c {:trigger xor(xor(a, b), c)} :: xor(xor(a, b), c) == xor(a, xor(b, c)))
    && (forall a {:trigger xor(a, a)} :: xor(a, a) == zero)
    && (forall a {:trigger xor(zero, a)} :: xor(zero, a) == a)
  }

  ghost predicate Additive<T(!new)>(xor: (T, T) -> T, step: T -> T) {
    forall a, b {:trigger step(xor(a, b))} :: step(xor(a, b)) == xor(step(a), step(b))
  }

  /* The register after `n` steps with no input. */
  function Steps<T>(step: T -> T, c: T, n: nat): T
    decreases n
  {
    if n == 0 then c else Steps(step, step(c), n - 1)
  }

  lemma {:induction false} StepsLinear<T(!new)>(xor: (T, T) -> T, step: T -> T, x: T, y: T, n: nat)
    requires Additive(xor, step)
    ensures Steps(step, xor(x, y), n) == xor(Steps(step, x, n), Steps(step, y, n))
    decreases n
  {
    if n > 0 {
      StepsLinear(xor, step, step(x), step(y), n - 1);
    }
  }

  lemma {:induction false} StepsAdd<T>(step: T -> T, c: T, m: nat, n: nat)
    ensures Steps(step, c, m + n) == Steps(step, Steps(step, c, m), n)
    decreases m
  {
    if m > 0 {
      StepsAdd(step, step(c), m - 1, n);
    }
  }

  /* The register after absorbing each input byte and taking eight steps. */
  function Feed<T>(xor: (T, T) -> T, step: T -> T, embed: bv8 -> T, c: T, s: seq<bv8>): T
    decreases |s|
  {
    if s == [] then c
    else Feed(xor, step, embed, Steps(step, xor(c, embed(s[0])), 8), s[1..])
  }

  lemma {:induction false} FeedAppend<T>(xor: (T, T) -> T, step: T -> T, embed: bv8 -> T,
                                         c: T, a: seq<bv8>, b: seq<bv8>)
    ensures Feed(xor, step, embed, c, a + b)
         == Feed(xor, step, embed, Feed(xor, step, embed, c, a), b)
    decreases |a|
  {
    if a == [] {
      assert a + b == b;
    } else {
      assert (a + b)[1..] == a[1..] + b;
      FeedAppend(xor, step, embed, Steps(step, xor(c, embed(a[0])), 8), a[1..], b);
    }
  }

  /* Feeding is affine: a difference in the start value travels through |s| zero bytes. */
  lemma {:induction false} FeedAffine<T(!new)>(xor: (T, T) -> T, zero: T, step: T -> T, embed: bv8 -> T,
                                               c: T, d: T, s: seq<bv8>)
    requires XorGroup(xor, zero) && Additive(xor, step)
    ensures Feed(xor, step, embed, xor(c, d), s)
         == xor(Steps(step, c, 8 * |s|), Feed(xor, step, embed, d, s))
    decreases |s|
  {
    if s != [] {
      var b := embed(s[0]);
      StepsLinear(xor, step, c, xor(d, b), 8);
      FeedAffine(xor, zero, step, embed, Steps(step, c, 8), Steps(step, xor(d, b), 8), s[1..]);
      StepsAdd(step, c, 8, 8 * |s[1..]|);
    }
  }

  /* Two sequential blocks: the combination rule over complemented registers. */
  lemma CombineRule<T(!new)>(xor: (T, T) -> T, zero: T, ones: T, step: T -> T, embed: bv8 -> T,
                             c: T, a: seq<bv8>, b: seq<bv8>)
    requires XorGroup(xor, zero) && Additive(xor, step)
    ensures var crc1 := xor(ones, Feed(xor, step, embed, c, a));
      var crc2 := xor(ones, Feed(xor, step, embed, ones, b));
      xor(Steps(step, crc1, 8 * |b|), crc2) == xor(ones, Feed(xor, step, embed, c, a + b))
  {
    var fa := Feed(xor, step, embed, c, a);
    var fb := Feed(xor, step, embed, ones, b);
    var n := 8 * |b|;
    calc {
      xor(Steps(step, xor(ones, fa), n), xor(ones, fb));
      xor(ones, xor(Steps(step, xor(fa, ones), n), fb));
      { FeedAffine(xor, zero, step, embed, xor(fa, ones), ones, b); }
      xor(ones, Feed(xor, step, embed, xor(xor(fa, ones), ones), b));
      { assert xor(xor(fa, ones), ones) == fa; }
      xor(ones, Feed(xor, step, embed, fa, b));
      { FeedAppend(xor, step, embed, c, a, b); }
      xor(ones, Feed(xor, step, embed, c, a + b));
    }
  }

  // ----- Words seen as sequences of bytes, low byte first.

  /* The first `m` bytes of a word, given its low byte and its shift by one byte. */
  function BytesOf<T>(low: T -> bv8, shr: T -> T, w: T, m: nat): (s: seq<bv8>)
    ensures |s| == m
    decreases m
  {
    if m == 0 then [] else [low(w)] + BytesOf(low, shr, shr(w), m - 1)
  }

  /* Eight successive shifts of a word by one byte, ending in zero. */
  ghost predicate ShiftChain<T>(shr: T -> T, zero: T, w: T, w1: T, w2: T, w3: T, w4: T, w5: T, w6: T, w7: T) {
    && w1 == shr(w) && w2 == shr(w1) && w3 == shr(w2) && w4 == shr(w3)
    && w5 == shr(w4) && w6 == shr(w5) && w7 == shr(w6) && shr(w7) == zero
  }

  lemma BytesOfChain<T>(low: T -> bv8, shr: T -> T, zero: T,
                        w: T, w1: T, w2: T, w3: T, w4: T, w5: T, w6: T, w7: T)
    requires ShiftChain(shr, zero, w, w1, w2, w3, w4, w5, w6, w7)
    ensures Steps(shr, w, 8) == zero
    ensures BytesOf(low, shr, w, 8) == [low(w), low(w1), low(w2), low(w3), low(w4), low(w5), low(w6), low(w7)]
  {
    assert BytesOf(low, shr, w7, 1) == [low(w7)] && Steps(shr, w7, 1) == zero;
    assert BytesOf(low, shr, w6, 2) == [low(w6)] + BytesOf(low, shr, w7, 1) && Steps(shr, w6, 2) == zero;
    assert BytesOf(low, shr, w5, 3) == [low(w5)] + BytesOf(low, shr, w6, 2) && Steps(shr, w5, 3) == zero;
    assert BytesOf(low, shr, w4, 4) == [low(w4)] + BytesOf(low, shr, w5, 3) && Steps(shr, w4, 4) == zero;
    assert BytesOf(low, shr, w3, 5) == [low(w3)] + BytesOf(low, shr, w4, 4) && Steps(shr, w3, 5) == zero;
    assert BytesOf(low, shr, w2, 6) == [low(w2)] + BytesOf(low, shr, w3, 5) && Steps(shr, w2, 6) == zero;
    assert BytesOf(low, shr, w1, 7) == [low(w1)] + BytesOf(low, shr, w2, 6) && Steps(shr, w1, 7) == zero;
  }

  function Xor8<T>(xor: (T, T) -> T, a0: T, a1: T, a2: T, a3: T, a4: T, a5: T, a6: T, a7: T): T {
    xor(xor(xor(xor(xor(xor(xor(a0, a1), a2), a3), a4), a5), a6), a7)
  }

  lemma AdditiveXor8<T(!new)>(xor: (T, T) -> T, f: T -> T, a0: T, a1: T, a2: T, a3: T, a4: T, a5: T, a6: T, a7: T)
    requires Additive(xor, f)
    ensures f(Xor8(xor, a0, a1, a2, a3, a4, a5, a6, a7))
         == Xor8(xor, f(a0), f(a1), f(a2), f(a3), f(a4), f(a5), f(a6), f(a7))
  {
  }

  /* `value(c, m)` is the look-up of the low byte of `c` exclusive-ored with the value of the rest. */
  ghost predicate Peels<T(!new)>(xor: (T, T) -> T, shr: T -> T, entry: (nat, T) -> T, value: (T, nat) -> T) {
    forall c: T, m: nat {:trigger value(c, m)} :: m > 0 ==> value(c, m) == xor(entry(m - 1, c), value(shr(c), m - 1))
  }

  lemma PeelOnto<T(!new)>(xor: (T, T) -> T, zero: T, shr: T -> T, entry: (nat, T) -> T, value: (T, nat) -> T,
                          acc: T, c: T, m: nat)
    requires XorGroup(xor, zero) && Peels(xor, shr, entry, value) && m > 0
    ensures xor(acc, value(c, m)) == xor(xor(acc, entry(m - 1, c)), value(shr(c), m - 1))
  {
  }

  /* The same, with what was peeled before accumulated on the left. */
  ghost predicate PeelsLeft<T(!new)>(xor: (T, T) -> T, shr: T -> T, entry: (nat, T) -> T, value: (T, nat) -> T) {
    forall acc: T, c: T, m: nat {:trigger xor(acc, value(c, m))} ::
      m > 0 ==> xor(acc, value(c, m)) == xor(xor(acc, entry(m - 1, c)), value(shr(c), m - 1))
  }

  lemma PeelingAssociates<T(!new)>(xor: (T, T) -> T, zero: T, shr: T -> T,
                                   entry: (nat, T) -> T, value: (T, nat) -> T)
    requires XorGroup(xor, zero) && Peels(xor, shr, entry, value)
    ensures PeelsLeft(xor, shr, entry, value)
  {
    forall acc: T, c: T, m: nat {:trigger xor(acc, value(c, m))} | m > 0
      ensures xor(acc, value(c, m)) == xor(xor(acc, entry(m - 1, c)), value(shr(c), m - 1))
    {
      PeelOnto(xor, zero, shr, entry, value, acc, c, m);
    }
  }

  /* Look-ups taken from the low byte up. */
  lemma SlicesAscending<T(!new)>(xor: (T, T) -> T, zero: T, shr: T -> T, entry: (nat, T) -> T, value: (T, nat) -> T,
                                 c: T, c1: T, c2: T, c3: T, c4: T, c5: T, c6: T, c7: T)
    requires Peels(xor, shr, entry, value) && PeelsLeft(xor, shr, entry, value)
    requires value(zero, 0) == zero && forall a {:trigger xor(a, zero)} :: xor(a, zero) == a
    requires ShiftChain(shr, zero, c, c1, c2, c3, c4, c5, c6, c7)
    ensures Xor8(xor, entry(7, c), entry(6, c1), entry(5, c2), entry(4, c3),
                 entry(3, c4), entry(2, c5), entry(1, c6), entry(0, c7)) == value(c, 8)
  {
    var r6 := xor(entry(7, c), entry(6, c1));
    var r5 := xor(r6, entry(5, c2));
    var r4 := xor(r5, entry(4, c3));
    var r3 := xor(r4, entry(3, c4));
    var r2 := xor(r3, entry(2, c5));
    var r1 := xor(r2, entry(1, c6));
    var r0 := xor(r1, entry(0, c7));
    assert value(c, 8) == xor(r6, value(c2, 6));
    assert value(c, 8) == xor(r4, value(c4, 4));
    assert value(c, 8) == xor(r2, value(c6, 2));
    assert value(c, 8) == xor(r0, zero);
  }

  /* Look-ups taken from the high byte down. */
  lemma SlicesDescending<T(!new)>(xor: (T, T) -> T, zero: T, shr: T -> T, entry: (nat, T) -> T, value: (T, nat) -> T,
                                  c: T, c1: T, c2: T, c3: T, c4: T, c5: T, c6: T, c7: T)
    requires Peels(xor, shr, entry, value)
    requires forall a, b {:trigger xor(a, b)} :: xor(a, b) == xor(b, a)
    requires value(zero, 0) == zero && forall a {:trigger xor(a, zero)} :: xor(a, zero) == a
    requires ShiftChain(shr, zero, c, c1, c2, c3, c4, c5, c6, c7)
    ensures Xor8(xor, entry(0, c7), entry(1, c6), entry(2, c5), entry(3, c4),
                 entry(4, c3), entry(5, c2), entry(6, c1), entry(7, c)) == value(c, 8)
  {
    assert value(c7, 1) == entry(0, c7);
    assert value(c6, 2) == xor(entry(0, c7), entry(1, c6));
    assert value(c5, 3) == xor(value(c6, 2), entry(2, c5));
    assert value(c4, 4) == xor(value(c5, 3), entry(3, c4));
    assert value(c3, 5) == xor(value(c4, 4), entry(4, c3));
    assert value(c2, 6) == xor(value(c3, 5), entry(5, c2));
    assert value(c1, 7) == xor(value(c2, 6), entry(6, c1));
  }
}
