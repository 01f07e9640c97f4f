/**
 What the CRC-64 register computes: the remainder of the message's polynomial, times x to the
 power of 64, by the generator of ECMA-182. The generator is given by its exponents; the main
 results do not mention the word `POLY` or a shift of the register.
 */
module Crc64Polynomial {
  import opened Crc64Reference
  import L = LinearRegister

  /* The generator of ECMA-182: the exponents whose coefficient is one. */
  predicate HasTerm(e: nat) {
    || e == 64 || e == 62 || e == 57 || e == 55 || e == 54 || e == 53 || e == 52 || e == 47 || e == 46
    || e == 45 || e == 40 || e == 39 || e == 38 || e == 37 || e == 35 || e == 33 || e == 32 || e == 31
    || e == 29 || e == 27 || e == 24 || e == 23 || e == 22 || e == 21 || e == 19 || e == 17 || e == 13
    || e == 12 || e == 10 || e == 9 || e == 7 || e == 4 || e == 1 || e == 0
  }

  // ----- Polynomials over the field of two elements, the highest coefficient first.

  function Plus(p: seq<bool>, q: seq<bool>): (r: seq<bool>)
    requires |p| == |q|
    ensures |r| == |p| && forall i :: 0 <= i < |r| ==> r[i] == (p[i] != q[i])
    decreases |p|
  {
    if p == [] then [] else [p[0] != q[0]] + Plus(p[1..], q[1..])
  }

  function Zeros(n: nat): (r: seq<bool>)
    ensures |r| == n && forall i :: 0 <= i < n ==> !r[i]
  {
    if n == 0 then [] else [false] + Zeros(n - 1)
  }

  /* Multiplication by the school method, for a factor of degree 64. */
  function Times(q: seq<bool>, g: seq<bool>): (r: seq<bool>)
    requires |g| == 65
    ensures |r| == |q| + 64
    decreases |q|
  {
    if q == [] then Zeros(64)
    else Plus(if q[0] then g + Zeros(|q| - 1) else Zeros(|q| + 64), [false] + Times(q[1..], g))
  }

  /* The coefficients of x to the powers of n - 1 down to 0. */
  function Coefficients(term: nat -> bool, n: nat): (r: seq<bool>)
    ensures |r| == n
  {
    if n == 0 then [] else [term(n - 1)] + Coefficients(term, n - 1)
  }

  function Generator(): (g: seq<bool>)
    ensures |g| == 65
  {
    Coefficients(HasTerm, 65)
  }

  /* Leading zeros do not matter. */
  ghost predicate IsMultiple(m: seq<bool>) {
    exists q :: |q| == |m| && Zeros(64) + m == Times(q, Generator())
  }

  // ----- Feeding bits is linear.

  function FeedAll(c: bv64, m: seq<bool>): bv64
    decreases |m|
  {
    if m == [] then c else FeedAll(FeedBit(c, m[0]), m[1..])
  }

  function BitWord(b: bool): bv64 { if b then 1 else 0 }

  lemma FeedBitIsStep(c: bv64, b: bool)
    ensures FeedBit(c, b) == BitStep(Xor(c, BitWord(b)))
  {
    if b { StepFlipped(c, Xor(c, 1)); } else { StepSame(c, Xor(c, 0)); }
  }

  lemma BitWordXor(a: bool, b: bool)
    ensures Xor(BitWord(a), BitWord(b)) == BitWord(a != b)
  {
  }

  lemma XorSwap(a: bv64, b: bv64, x: bv64, y: bv64)
    ensures Xor(Xor(a, x), Xor(b, y)) == Xor(Xor(a, b), Xor(x, y))
  {
    XorIsGroup();
    XorAssociative(Xor(a, x), b, y);
    XorAssociative(a, x, b);
    XorCommutes(x, b);
    XorAssociative(a, b, x);
    XorAssociative(Xor(a, b), x, y);
  }

  lemma FeedBitLinear(a: bv64, b: bv64, x: bool, y: bool)
    ensures FeedBit(Xor(a, b), x != y) == Xor(FeedBit(a, x), FeedBit(b, y))
  {
    FeedBitIsStep(a, x);
    FeedBitIsStep(b, y);
    FeedBitIsStep(Xor(a, b), x != y);
    BitWordXor(x, y);
    XorSwap(a, b, BitWord(x), BitWord(y));
    BitStepXor(Xor(a, BitWord(x)), Xor(b, BitWord(y)));
  }

  lemma {:induction false} FeedAllLinear(a: bv64, b: bv64, m: seq<bool>, n: seq<bool>)
    requires |m| == |n|
    ensures FeedAll(Xor(a, b), Plus(m, n)) == Xor(FeedAll(a, m), FeedAll(b, n))
    decreases |m|
  {
    if m != [] {
      FeedBitLinear(a, b, m[0], n[0]);
      FeedAllLinear(FeedBit(a, m[0]), FeedBit(b, n[0]), m[1..], n[1..]);
    }
  }

  lemma ZerosAdd(a: bv64, b: bv64, m: seq<bool>, n: seq<bool>)
    requires |m| == |n| && a == 0 && b == 0 && FeedAll(a, m) == 0
    ensures FeedAll(0, Plus(m, n)) == FeedAll(0, n)
  {
    XorNeutral(0);
    FeedAllLinear(a, b, m, n);
    XorNeutral(FeedAll(0, n));
  }

  lemma {:induction false} FeedZeros(n: nat)
    ensures FeedAll(0, Zeros(n)) == 0
  {
    if n > 0 { FeedZeros(n - 1); }
  }

  lemma {:induction false} FeedAllAppend(c: bv64, m: seq<bool>, n: seq<bool>)
    ensures FeedAll(c, m + n) == FeedAll(FeedAll(c, m), n)
    decreases |m|
  {
    if m == [] {
      assert m + n == n;
    } else {
      assert (m + n)[1..] == m[1..] + n;
      FeedAllAppend(FeedBit(c, m[0]), m[1..], n);
    }
  }

  lemma FeedPadded(m: seq<bool>, n: nat)
    ensures FeedAll(0, Zeros(n) + m) == FeedAll(0, m)
  {
    FeedAllAppend(0, Zeros(n), m);
    FeedZeros(n);
  }

  // ----- Up to 64 bits end at zero only if they are the register's own.

  function Half(c: bv64): bv64 { c >> 1 }

  predicate Odd(c: bv64) { c & 1 == 1 }

  function Halves(c: bv64, n: nat): bv64 {
    L.Steps(Half, c, n)
  }

  /* `m` are the low bits of `c`, the lowest first, and there are no others. */
  predicate Matches(c: bv64, m: seq<bool>)
    decreases |m|
  {
    if m == [] then c == 0 else Odd(c) == m[0] && Matches(Half(c), m[1..])
  }

  lemma {:induction false} MatchesHalves(c: bv64, m: seq<bool>)
    requires Matches(c, m)
    ensures Halves(c, |m|) == 0
    decreases |m|
  {
    if m != [] { MatchesHalves(Half(c), m[1..]); }
  }

  lemma {:induction false} HalvesOfZero(n: nat)
    ensures Halves(0, n) == 0
  {
    if n > 0 { HalvesOfZero(n - 1); }
  }

  lemma HalvesOn(c: bv64, m: nat, n: nat)
    requires m <= n && Halves(c, m) == 0
    ensures Halves(c, n) == 0
  {
    L.StepsAdd(Half, c, m, n - m);
    HalvesOfZero(n - m);
  }

  lemma HalvesTwice(c: bv64, m: nat, n: nat)
    ensures Halves(c, m + n) == Halves(Halves(c, m), n)
  {
    L.StepsAdd(Half, c, m, n);
  }

  lemma HalvesOne(c: bv64)
    ensures Halves(c, 1) == Half(c)
  {
    assert Halves(Half(c), 0) == Half(c);
  }

  lemma Halves2(c: bv64)
    ensures Halves(c, 2) == c >> 2
  {
    HalvesOne(c);
    HalvesOne(Half(c));
    HalvesTwice(c, 1, 1);
    HalfTwice(c, Half(c));
  }

  lemma HalfTwice(c: bv64, d: bv64)
    requires d == c >> 1
    ensures Half(d) == c >> 2
  {
  }

  lemma Halves4(c: bv64)
    ensures Halves(c, 4) == c >> 4
  {
    Halves2(c);
    Halves2(c >> 2);
    HalvesTwice(c, 2, 2);
  }

  lemma Halves8(c: bv64)
    ensures Halves(c, 8) == Shr8(c)
  {
    Halves4(c);
    Halves4(c >> 4);
    HalvesTwice(c, 4, 4);
  }

  predicate AtMost(low: bv64, c: bv64) { low <= c }

  lemma {:induction false} StepsKeepOrder<T(!new)>(le: (T, T) -> bool, step: T -> T, low: T, c: T, n: nat)
    requires le(low, c) && forall a, b {:trigger le(a, b)} :: le(a, b) ==> le(step(a), step(b))
    ensures le(L.Steps(step, low, n), L.Steps(step, c, n))
  {
    if n > 0 { StepsKeepOrder(le, step, step(low), step(c), n - 1); }
  }

  lemma HalvesMonotone(low: bv64, c: bv64, n: nat)
    requires AtMost(low, c)
    ensures AtMost(Halves(low, n), Halves(c, n))
  {
    forall a, b | AtMost(a, b) ensures AtMost(Half(a), Half(b)) { HalfKeepsOrder(a, b); }
    StepsKeepOrder(AtMost, Half, low, c, n);
  }

  lemma HalfKeepsOrder(a: bv64, b: bv64)
    requires AtMost(a, b)
    ensures AtMost(Half(a), Half(b))
  {
  }

  const TOP: bv64 := 0x8000_0000_0000_0000
  const ALL: bv64 := 0xffff_ffff_ffff_ffff

  lemma Byte(c: bv64, n: nat, rest: bv64)
    requires rest == c >> 8
    ensures Halves(c, 8 + n) == Halves(rest, n)
  {
    Halves8(c);
    HalvesTwice(c, 8, n);
  }

  lemma SevenBytes(c: bv64, c1: bv64, c2: bv64, c3: bv64, c4: bv64, c5: bv64, c6: bv64, c7: bv64, n: nat)
    requires c1 == c >> 8 && c2 == c1 >> 8 && c3 == c2 >> 8 && c4 == c3 >> 8 && c5 == c4 >> 8 && c6 == c5 >> 8 && c7 == c6 >> 8
    ensures Halves(c, 56 + n) == Halves(c7, n)
  {
    Byte(c, 48 + n, c1);
    Byte(c1, 40 + n, c2);
    Byte(c2, 32 + n, c3);
    Byte(c3, 24 + n, c4);
    Byte(c4, 16 + n, c5);
    Byte(c5, 8 + n, c6);
    Byte(c6, n, c7);
  }

  lemma HalvesOfAll()
    ensures Halves(ALL, 64) == 0
  {
    SevenBytes(ALL, 0xff_ffff_ffff_ffff, 0xffff_ffff_ffff, 0xff_ffff_ffff, 0xffff_ffff, 0xff_ffff, 0xffff, 0xff, 8);
    Halves8(0xff);
  }

  lemma HalvesOfTop()
    ensures Halves(TOP, 63) == 1
  {
    SevenBytes(TOP, 0x80_0000_0000_0000, 0x8000_0000_0000, 0x80_0000_0000, 0x8000_0000, 0x80_0000, 0x8000, 0x80, 7);
    Halves7(0x80);
  }

  lemma Halves7(c: bv64)
    ensures Halves(c, 7) == Half((c >> 4) >> 2)
  {
    Halves4(c);
    Halves2(c >> 4);
    HalvesOne((c >> 4) >> 2);
    HalvesTwice(c, 4, 2);
    HalvesTwice(c, 6, 1);
  }

  /* A word has no more than 64 bits, and one of 63 or fewer has its top bit clear. */
  lemma HalvesAll(c: bv64)
    ensures Halves(c, 64) == 0
    ensures c >= TOP ==> Halves(c, 63) != 0
  {
    HalvesOfAll();
    HalvesMonotone(c, ALL, 64);
    HalvesOfTop();
    if c >= TOP { HalvesMonotone(TOP, c, 63); }
  }

  /* The generator has a coefficient at x to the power of 0, so a tap sets the top bit. */
  lemma NoTapIfSmall(c: bv64, b: bool, next: bv64)
    requires next == FeedBit(c, b) && next < TOP
    ensures next == Half(c) && Odd(c) == b
  {
  }

  lemma {:induction false} ZeroOnlyFromOwnBits(c: bv64, m: seq<bool>)
    requires |m| <= 64
    ensures FeedAll(c, m) == 0 <==> Matches(c, m)
    decreases |m|
  {
    if m != [] {
      var next := FeedBit(c, m[0]);
      ZeroOnlyFromOwnBits(next, m[1..]);
      if FeedAll(c, m) == 0 {
        SmallNext(next, m[1..]);
        NoTapIfSmall(c, m[0], next);
      } else if Matches(c, m) {
        OwnBitNoTap(c, m[0]);
      }
    }
  }

  lemma SmallNext(next: bv64, m: seq<bool>)
    requires Matches(next, m) && |m| <= 63
    ensures next < TOP
  {
    MatchesHalves(next, m);
    HalvesOn(next, |m|, 63);
    HalvesAll(next);
  }

  lemma OwnBitNoTap(c: bv64, b: bool)
    requires Odd(c) == b
    ensures FeedBit(c, b) == Half(c)
  {
  }

  lemma {:induction false} MatchesZero(m: seq<bool>)
    requires Matches(0, m)
    ensures m == Zeros(|m|)
    decreases |m|
  {
    if m != [] { MatchesZero(m[1..]); }
  }

  // ----- The generator feeds to zero.

  /* The bits of a word, the lowest first. */
  function WordBits(c: bv64, n: nat): (r: seq<bool>)
    ensures |r| == n
    decreases n
  {
    if n == 0 then [] else [Odd(c)] + WordBits(Half(c), n - 1)
  }

  lemma {:induction false} MatchesOn(c: bv64, n: nat, m: seq<bool>)
    requires Matches(Halves(c, n), m)
    ensures Matches(c, WordBits(c, n) + m)
    decreases n
  {
    if n == 0 {
      assert [] + m == m;
    } else {
      MatchesOn(Half(c), n - 1, m);
      assert (WordBits(c, n) + m)[1..] == WordBits(Half(c), n - 1) + m;
    }
  }

  /* Eight coefficients from x to the power of n - 1 down. */
  function Terms(term: nat -> bool, n: nat): seq<bool>
    requires n >= 8
  {
    [term(n - 1), term(n - 2), term(n - 3), term(n - 4),
     term(n - 5), term(n - 6), term(n - 7), term(n - 8)]
  }

  lemma CoefficientsByte(term: nat -> bool, n: nat)
    requires n >= 8
    ensures Coefficients(term, n) == Terms(term, n) + Coefficients(term, n - 8)
  {
    CoefficientsHalf(term, n);
    CoefficientsHalf(term, n - 4);
  }

  lemma CoefficientsHalf(term: nat -> bool, n: nat)
    requires n >= 4
    ensures Coefficients(term, n) == [term(n - 1), term(n - 2), term(n - 3), term(n - 4)] + Coefficients(term, n - 4)
  {
    CoefficientsPair(term, n);
    CoefficientsPair(term, n - 2);
  }

  lemma CoefficientsPair(term: nat -> bool, n: nat)
    requires n >= 2
    ensures Coefficients(term, n) == [term(n - 1), term(n - 2)] + Coefficients(term, n - 2)
  {
    assert Coefficients(term, n - 1) == [term(n - 2)] + Coefficients(term, n - 2);
  }

  lemma NextByte(term: nat -> bool, c: bv64, n: nat, rest: bv64)
    requires n >= 8 && WordBits(c, 8) == Terms(term, n) && rest == c >> 8 && Matches(rest, Coefficients(term, n - 8))
    ensures Matches(c, Coefficients(term, n))
  {
    Halves8(c);
    CoefficientsByte(term, n);
    MatchesOn(c, 8, Coefficients(term, n - 8));
  }

  lemma Byte0()
    ensures WordBits(0xc96c5795d7870f42, 8) == Terms(HasTerm, 64)
  {
  }

  lemma Byte1()
    ensures WordBits(0xc96c5795d7870f, 8) == Terms(HasTerm, 56)
  {
  }

  lemma Byte2()
    ensures WordBits(0xc96c5795d787, 8) == Terms(HasTerm, 48)
  {
  }

  lemma Byte3()
    ensures WordBits(0xc96c5795d7, 8) == Terms(HasTerm, 40)
  {
  }

  lemma Byte4()
    ensures WordBits(0xc96c5795, 8) == Terms(HasTerm, 32)
  {
  }

  lemma Byte5()
    ensures WordBits(0xc96c57, 8) == Terms(HasTerm, 24)
  {
  }

  lemma Byte6()
    ensures WordBits(0xc96c, 8) == Terms(HasTerm, 16)
  {
  }

  lemma Byte7()
    ensures WordBits(0xc9, 8) == Terms(HasTerm, 8)
  {
  }

  /* The bytes of a word, the lowest first, are the coefficients from n - 1 down. */
  ghost predicate BytesAre(term: nat -> bool, c: bv64, n: nat)
    decreases n
  {
    if n < 8 then n == 0 && c == 0 else WordBits(c, 8) == Terms(term, n) && BytesAre(term, Shr8(c), n - 8)
  }

  lemma {:induction false} BytesMatch(term: nat -> bool, c: bv64, n: nat)
    requires BytesAre(term, c, n)
    ensures Matches(c, Coefficients(term, n))
    decreases n
  {
    if n >= 8 {
      BytesMatch(term, Shr8(c), n - 8);
      NextByte(term, c, n, Shr8(c));
    }
  }

  lemma OneByte(term: nat -> bool, c: bv64, rest: bv64, n: nat)
    requires n >= 8 && rest == c >> 8 && WordBits(c, 8) == Terms(term, n) && BytesAre(term, rest, n - 8)
    ensures BytesAre(term, c, n)
  {
  }

  lemma GeneratorMatches()
    ensures Matches(POLY, Coefficients(HasTerm, 64))
  {
    Byte7();
    OneByte(HasTerm, 0xc9, 0x0, 8);
    Byte6();
    OneByte(HasTerm, 0xc96c, 0xc9, 16);
    Byte5();
    OneByte(HasTerm, 0xc96c57, 0xc96c, 24);
    Byte4();
    OneByte(HasTerm, 0xc96c5795, 0xc96c57, 32);
    Byte3();
    OneByte(HasTerm, 0xc96c5795d7, 0xc96c5795, 40);
    Byte2();
    OneByte(HasTerm, 0xc96c5795d787, 0xc96c5795d7, 48);
    Byte1();
    OneByte(HasTerm, 0xc96c5795d7870f, 0xc96c5795d787, 56);
    Byte0();
    OneByte(HasTerm, 0xc96c5795d7870f42, 0xc96c5795d7870f, 64);
    BytesMatch(HasTerm, POLY, 64);
  }

  /* Fed with the generator's own coefficients, the register returns to zero. */
  lemma GeneratorFeedsToZero()
    ensures FeedAll(0, Generator()) == 0
  {
    assert Generator()[0] && Generator()[1..] == Coefficients(HasTerm, 64);
    assert FeedBit(0, true) == POLY;
    GeneratorMatches();
    ZeroOnlyFromOwnBits(POLY, Coefficients(HasTerm, 64));
  }

  // ----- Zero exactly for the multiples.

  lemma GeneratorPadded(n: nat)
    ensures FeedAll(0, Generator() + Zeros(n)) == 0
  {
    GeneratorFeedsToZero();
    FeedAllAppend(0, Generator(), Zeros(n));
    FeedZeros(n);
  }

  /* The first summand of a product. */
  function Summand(b: bool, n: nat): (r: seq<bool>)
    ensures |r| == n + 65
  {
    if b then Generator() + Zeros(n) else Zeros(n + 65)
  }

  lemma SummandFeedsToZero(b: bool, n: nat)
    ensures FeedAll(0, Summand(b, n)) == 0 && Summand(b, n)[0] == b
  {
    GeneratorPadded(n);
    FeedZeros(n + 65);
  }

  lemma {:induction false} ProductFeedsToZero(q: seq<bool>)
    ensures FeedAll(0, Times(q, Generator())) == 0
    decreases |q|
  {
    if q == [] {
      FeedZeros(64);
    } else {
      var rest := Times(q[1..], Generator());
      ProductFeedsToZero(q[1..]);
      SummandFeedsToZero(q[0], |q| - 1);
      ZerosAdd(0, 0, Summand(q[0], |q| - 1), [false] + rest);
      assert [false] + rest == Zeros(1) + rest;
      FeedPadded(rest, 1);
    }
  }

  lemma PlusTwice(p: seq<bool>, m: seq<bool>)
    requires |p| == |m|
    ensures Plus(p, Plus(p, m)) == m
  {
  }

  /* Taking the generator away clears the highest coefficient, and what feeds to zero still does. */
  lemma Reduced(m: seq<bool>) returns (rest: seq<bool>)
    requires |m| > 64 && FeedAll(0, m) == 0
    ensures |rest| == |m| - 1 && FeedAll(0, rest) == 0
    ensures m == Plus(Summand(m[0], |m| - 65), [false] + rest)
  {
    var first := Summand(m[0], |m| - 65);
    SummandFeedsToZero(m[0], |m| - 65);
    ZerosAdd(0, 0, first, m);
    var sum := Plus(first, m);
    rest := sum[1..];
    assert sum == [false] + rest == Zeros(1) + rest;
    FeedPadded(rest, 1);
    PlusTwice(first, m);
  }

  /* Division by the generator: a message that feeds to zero has a quotient. */
  lemma {:induction false} Divided(m: seq<bool>) returns (q: seq<bool>)
    requires |m| >= 64 && FeedAll(0, m) == 0
    ensures |q| == |m| - 64 && m == Times(q, Generator())
    decreases |m|
  {
    if |m| == 64 {
      ZeroOnlyFromOwnBits(0, m);
      MatchesZero(m);
      q := [];
    } else {
      var rest := Reduced(m);
      var q' := Divided(rest);
      q := [m[0]] + q';
      assert q[1..] == q';
    }
  }

  /* The register is zero exactly for the multiples of the generator. */
  lemma ZeroExactlyForMultiples(m: seq<bool>)
    ensures FeedAll(0, m) == 0 <==> IsMultiple(m)
  {
    FeedPadded(m, 64);
    if FeedAll(0, m) == 0 {
      var q := Divided(Zeros(64) + m);
    } else if IsMultiple(m) {
      var q :| |q| == |m| && Zeros(64) + m == Times(q, Generator());
      ProductFeedsToZero(q);
    }
  }

  // ----- The remainder.

  lemma {:induction false} SameBits(c: bv64, d: bv64, m: seq<bool>)
    requires Matches(c, m) && Matches(d, m)
    ensures c == d
    decreases |m|
  {
    if m != [] {
      SameBits(Half(c), Half(d), m[1..]);
      FromHalves(c, d);
    }
  }

  lemma FromHalves(c: bv64, d: bv64)
    requires Half(c) == Half(d) && Odd(c) == Odd(d)
    ensures c == d
  {
  }

  lemma {:induction false} OwnBits(c: bv64, n: nat)
    requires Halves(c, n) == 0
    ensures Matches(c, WordBits(c, n))
    decreases n
  {
    if n > 0 { OwnBits(Half(c), n - 1); }
  }

  /* The register holds the remainder: it is the one word whose 64 bits, put after the message, make a multiple
     of the generator. */
  lemma RegisterIsRemainder(m: seq<bool>, c: bv64)
    ensures FeedAll(0, m) == c <==> IsMultiple(m + WordBits(c, 64))
  {
    var r := FeedAll(0, m);
    ZeroExactlyForMultiples(m + WordBits(c, 64));
    FeedAllAppend(0, m, WordBits(c, 64));
    ZeroOnlyFromOwnBits(r, WordBits(c, 64));
    HalvesAll(c);
    OwnBits(c, 64);
    if Matches(r, WordBits(c, 64)) { SameBits(r, c, WordBits(c, 64)); }
  }

  // ----- The same for bytes.

  /* The bits of each byte, the lowest first. */
  function ByteBits(b: bv8, n: nat): (r: seq<bool>)
    ensures |r| == n
    decreases n
  {
    if n == 0 then [] else [b & 1 == 1] + ByteBits(b >> 1, n - 1)
  }

  function Bits(s: seq<bv8>): (r: seq<bool>)
    ensures |r| == 8 * |s|
  {
    if s == [] then [] else ByteBits(s[0], 8) + Bits(s[1..])
  }

  lemma {:induction false} FeedBitsIsFeedAll(c: bv64, b: bv8, n: nat)
    ensures FeedBits(c, b, n) == FeedAll(c, ByteBits(b, n))
    decreases n
  {
    if n > 0 { FeedBitsIsFeedAll(FeedBit(c, b & 1 == 1), b >> 1, n - 1); }
  }

  lemma {:induction false} FeedIsFeedAll(c: bv64, s: seq<bv8>)
    ensures Feed(c, s) == FeedAll(c, Bits(s))
    decreases |s|
  {
    if s != [] {
      FeedBitsIsFeedAll(c, s[0], 8);
      FeedIsFeedAll(FeedBits(c, s[0], 8), s[1..]);
      FeedAllAppend(c, ByteBits(s[0], 8), Bits(s[1..]));
    }
  }

  /* For a message of bytes, from register zero. */
  lemma BytesRemainder(s: seq<bv8>, c: bv64)
    ensures Feed(0, s) == c <==> IsMultiple(Bits(s) + WordBits(c, 64))
  {
    FeedIsFeedAll(0, s);
    RegisterIsRemainder(Bits(s), c);
  }

  // ----- The check value.

  /* `cs` are the registers before and after each byte. */
  lemma {:induction false} FedThrough(cs: seq<bv64>, s: seq<bv8>)
    requires |cs| == |s| + 1 && forall k :: 0 <= k < |s| ==> FeedBits(cs[k], s[k], 8) == cs[k + 1]
    ensures Feed(cs[0], s) == cs[|s|]
    decreases |s|
  {
    if s != [] { FedThrough(cs[1..], s[1..]); }
  }

  lemma Check1()
    ensures FeedBits(0xffffffffffffffff, 0x31, 8) == 0xd5d0f17a6b6a3512
  {
  }

  lemma Check2()
    ensures FeedBits(0xd5d0f17a6b6a3512, 0x32, 8) == 0xfbe29281d80da6a7
  {
  }

  lemma Check3()
    ensures FeedBits(0xfbe29281d80da6a7, 0x33, 8) == 0xcfdcd7bbf8e33a9e
  {
  }

  lemma Check4()
    ensures FeedBits(0xcfdcd7bbf8e33a9e, 0x34, 8) == 0x31b1786c99473cd7
  {
  }

  lemma Check5()
    ensures FeedBits(0x31b1786c99473cd7, 0x35, 8) == 0xa258b9005afba316
  {
  }

  lemma Check6()
    ensures FeedBits(0xa258b9005afba316, 0x36, 8) == 0xfb951ac9a23c3731
  {
  }

  lemma Check7()
    ensures FeedBits(0xfb951ac9a23c3731, 0x37, 8) == 0x8faf60c99e6dc25f
  {
  }

  lemma Check8()
    ensures FeedBits(0x8faf60c99e6dc25f, 0x38, 8) == 0xa3747fb7d45387f6
  {
  }

  lemma Check9()
    ensures FeedBits(0xa3747fb7d45387f6, 0x39, 8) == 0x66a2364420e6c605
  {
  }

  /* The CRC of the digits 1 to 9, from zero, is the published check value. */
  lemma CheckValue(s: seq<bv8>)
    requires s == [0x31, 0x32, 0x33, 0x34, 0x35, 0x36, 0x37, 0x38, 0x39]
    ensures Crc(0, s) == 0x995dc9bbdf1939fa
  {
    var cs: seq<bv64> :=
      [0xffffffffffffffff, 0xd5d0f17a6b6a3512, 0xfbe29281d80da6a7, 0xcfdcd7bbf8e33a9e,
       0x31b1786c99473cd7, 0xa258b9005afba316, 0xfb951ac9a23c3731, 0x8faf60c99e6dc25f,
       0xa3747fb7d45387f6, 0x66a2364420e6c605];
    Check1();
    Check2();
    Check3();
    Check4();
    Check5();
    Check6();
    Check7();
    Check8();
    Check9();
    FedThrough(cs, s);
  }
}
