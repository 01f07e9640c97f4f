/**
 aos_crc64_combine: the CRC of two sequential blocks from their separate CRCs, by squaring
 the "one zero bit" matrix and applying the powers selected by the length of the second block.
 */
module Crc64Combine {
  import opened Crc64Reference
  import Crc64Slices
  import L = LinearRegister
  import M = Gf2Matrix

  const GF2_DIM: nat := 64

  function LowBit(v: bv64): bool { v & 1 == 1 }

  function Half(v: bv64): bv64 { v >> 1 }

  function Double(v: bv64): bv64 { v << 1 }

  /* Matrix times vector over GF(2). */
  function Times(mat: seq<bv64>, v: bv64): bv64 {
    M.Product(Xor, 0, LowBit, Half, mat, v)
  }

  function Squared(mat: seq<bv64>): seq<bv64> {
    seq(|mat|, i requires 0 <= i < |mat| => Times(mat, mat[i]))
  }

  /* `mat` advances a CRC register by `n` zero bits. */
  ghost predicate Advances(mat: seq<bv64>, n: nat) {
    forall v: bv64 {:trigger Times(mat, v)} :: Times(mat, v) == ZeroBits(v, n)
  }

  // ----- The bit laws of 64-bit words.

  lemma HalfOfXor(x: bv64, y: bv64, xy: bv64, hx: bv64, hy: bv64)
    requires xy == x ^ y && hx == x >> 1 && hy == y >> 1
    ensures Half(xy) == Xor(hx, hy)
  {
  }

  lemma DoubleOfXor(x: bv64, y: bv64, xy: bv64, dx: bv64, dy: bv64)
    requires xy == x ^ y && dx == x << 1 && dy == y << 1
    ensures Double(xy) == Xor(dx, dy)
  {
  }

  lemma LowBitOfXor(x: bv64, y: bv64, xy: bv64)
    requires xy == x ^ y
    ensures LowBit(xy) == (LowBit(x) != LowBit(y))
  {
  }

  lemma HalfAdditive()
    ensures L.Additive(Xor, Half)
  {
    forall x: bv64, y: bv64 ensures Half(Xor(x, y)) == Xor(Half(x), Half(y)) {
      HalfOfXor(x, y, Xor(x, y), Half(x), Half(y));
    }
  }

  lemma DoubleAdditive()
    ensures L.Additive(Xor, Double)
  {
    forall x: bv64, y: bv64 ensures Double(Xor(x, y)) == Xor(Double(x), Double(y)) {
      DoubleOfXor(x, y, Xor(x, y), Double(x), Double(y));
    }
  }

  lemma WordLaws()
    ensures M.BitLaws(Xor, 0, LowBit, Half)
  {
    XorIsGroup();
    HalfAdditive();
    forall x: bv64, y: bv64 ensures LowBit(Xor(x, y)) == (LowBit(x) != LowBit(y)) {
      LowBitOfXor(x, y, Xor(x, y));
    }
  }

  lemma SplitWord(x: bv64, low: bv64, rest: bv64)
    requires low == (if x & 1 == 1 then 1 else 0) && rest == (x >> 1) << 1
    ensures x == Xor(low, rest)
  {
  }

  lemma WordsSplit()
    ensures M.Splits(Xor, 0, LowBit, Half, Double, 1)
    ensures Double(0) == 0
  {
    forall x: bv64 ensures x == Xor(M.Column(0, LowBit(x), 1), Double(Half(x))) {
      SplitWord(x, M.Column(0, LowBit(x), 1), Double(Half(x)));
    }
  }

  lemma ShiftsDouble(v: bv64)
    ensures (v >> 1) >> 1 == v >> 2 && (v >> 2) >> 2 == v >> 4 && (v >> 4) >> 4 == v >> 8
  {
  }

  lemma TwoHalves(v: bv64)
    ensures L.Steps(Half, v, 2) == v >> 2
  {
    ShiftsDouble(v);
    L.StepsAdd(Half, v, 1, 1);
    OneHalf(v);
    OneHalf(v >> 1);
  }

  lemma OneHalf(v: bv64)
    ensures L.Steps(Half, v, 1) == v >> 1
  {
    assert L.Steps(Half, Half(v), 0) == Half(v);
  }

  lemma FourHalves(v: bv64)
    ensures L.Steps(Half, v, 4) == v >> 4
  {
    L.StepsAdd(Half, v, 2, 2);
    TwoHalves(v);
    TwoHalves(v >> 2);
    ShiftsDouble(v);
  }

  lemma HalvesAreShift(v: bv64)
    ensures L.Steps(Half, v, 8) == Shr8(v)
  {
    L.StepsAdd(Half, v, 4, 4);
    FourHalves(v);
    FourHalves(v >> 4);
    ShiftsDouble(v);
  }

  lemma {:induction false} HalvesAreShifts(v: bv64, m: nat)
    ensures L.Steps(Half, v, 8 * m) == L.Steps(Shr8, v, m)
    decreases m
  {
    if m > 0 {
      L.StepsAdd(Half, v, 8, 8 * (m - 1));
      HalvesAreShift(v);
      HalvesAreShifts(Shr8(v), m - 1);
    }
  }

  /* A word has 64 bits. */
  lemma SixtyFourHalves(v: bv64)
    ensures L.Steps(Half, v, 64) == 0
  {
    HalvesAreShifts(v, 8);
    Crc64Slices.BytesOfWord(v);
  }

  // ----- Squaring is composition.

  lemma TimesAdditive(mat: seq<bv64>)
    ensures L.Additive(Xor, v => Times(mat, v))
  {
    WordLaws();
    forall x: bv64, y: bv64 ensures Times(mat, Xor(x, y)) == Xor(Times(mat, x), Times(mat, y)) {
      M.ProductLinear(Xor, 0, LowBit, Half, mat, x, y);
    }
  }

  lemma SquareComposes(mat: seq<bv64>, v: bv64)
    ensures Times(Squared(mat), v) == Times(mat, Times(mat, v))
  {
    WordLaws();
    TimesAdditive(mat);
    M.ProductMapped(Xor, 0, LowBit, Half, w => Times(mat, w), mat, Squared(mat), v);
  }

  lemma SquareDoubles(mat: seq<bv64>, n: nat)
    requires Advances(mat, n)
    ensures Advances(Squared(mat), 2 * n)
  {
    forall v: bv64 ensures Times(Squared(mat), v) == ZeroBits(v, 2 * n) {
      SquareComposes(mat, v);
      ZeroBitsAdd(v, n, n);
    }
  }

  /* The starting matrix: the polynomial, then 1, 2, 4, ... */
  ghost predicate OneZeroBit(mat: seq<bv64>) {
    |mat| == GF2_DIM && mat[0] == POLY && M.Doubling(Double, 1, mat[1..])
  }

  lemma BitStepParts(v: bv64, tap: bv64, h: bv64)
    requires tap == (if v & 1 == 1 then POLY else 0) && h == v >> 1
    ensures BitStep(v) == Xor(tap, h)
  {
    if v & 1 == 1 {
      TappedStep(v, h);
    } else {
      UntappedStep(v, h);
    }
  }

  lemma TappedStep(v: bv64, h: bv64)
    requires v & 1 == 1 && h == v >> 1
    ensures BitStep(v) == Xor(POLY, h)
  {
  }

  lemma UntappedStep(v: bv64, h: bv64)
    requires v & 1 != 1 && h == v >> 1
    ensures BitStep(v) == Xor(0, h)
  {
    XorNeutral(h);
  }

  lemma OneZeroBitTimes(mat: seq<bv64>, v: bv64)
    requires OneZeroBit(mat)
    ensures Times(mat, v) == BitStep(v)
  {
    DoubleAdditive();
    WordsSplit();
    SixtyFourHalves(v);
    M.ProductOfDoubling(Xor, 0, LowBit, Half, Double, 1, mat[1..], Half(v), 0);
    BitStepParts(v, M.Column(0, LowBit(v), POLY), Half(v));
  }

  lemma OneZeroBitAdvances(mat: seq<bv64>)
    requires OneZeroBit(mat)
    ensures Advances(mat, 1)
  {
    forall v: bv64 ensures Times(mat, v) == ZeroBits(v, 1) {
      OneZeroBitTimes(mat, v);
    }
  }

  // ----- The code.

  method MatrixTimes(mat: array<bv64>, vec: bv64) returns (sum: bv64)
    requires mat.Length == GF2_DIM
    ensures sum == Times(mat[..], vec)
  {
    sum := 0;
    var v, i := vec, 0;
    SixtyFourHalves(vec);
    XorNeutral(Times(mat[..], vec));
    assert mat[0..] == mat[..];
    while v != 0
      invariant 0 <= i <= GF2_DIM && v == L.Steps(Half, vec, i)
      invariant Xor(sum, Times(mat[i..], v)) == Times(mat[..], vec)
      decreases GF2_DIM - i
    {
      L.StepsAdd(Half, vec, i, 1);
      TimesUnfold(mat[i..], v, sum);
      assert mat[i..][1..] == mat[i + 1..];
      if LowBit(v) {
        sum := Xor(sum, mat[i]);
      }
      v := Half(v);
      i := i + 1;
    }
    WordLaws();
    M.ProductOfZero(Xor, 0, LowBit, Half, mat[i..]);
    XorCommutes(sum, 0);
    XorNeutral(sum);
  }

  lemma TimesUnfold(mat: seq<bv64>, v: bv64, sum: bv64)
    requires mat != []
    ensures Xor(sum, Times(mat, v)) == Xor(if LowBit(v) then Xor(sum, mat[0]) else sum, Times(mat[1..], Half(v)))
  {
    var rest := Times(mat[1..], Half(v));
    XorAssociative(sum, mat[0], rest);
    XorNeutral(rest);
  }

  method MatrixSquare(square: array<bv64>, mat: array<bv64>)
    requires square.Length == GF2_DIM && mat.Length == GF2_DIM && square != mat
    modifies square
    ensures square[..] == Squared(mat[..])
  {
    for n := 0 to GF2_DIM
      invariant forall i :: 0 <= i < n ==> square[i] == Times(mat[..], mat[i])
    {
      square[n] := MatrixTimes(mat, mat[n]);
    }
  }

  method FillOneZeroBit(odd: array<bv64>)
    requires odd.Length == GF2_DIM
    modifies odd
    ensures OneZeroBit(odd[..])
  {
    odd[0] := POLY;
    var row: bv64 := 1;
    for n := 1 to GF2_DIM
      invariant odd[0] == POLY && row == L.Steps(Double, 1, n - 1)
      invariant forall i :: 1 <= i < n ==> odd[i] == L.Steps(Double, 1, i - 1)
    {
      L.StepsAdd(Double, 1, n - 1, 1);
      odd[n] := row;
      row := Double(row);
    }
  }

  lemma SpendBit(c: bv64, p: nat, n: nat)
    ensures ZeroBits(c, p * n) == ZeroBits(if n % 2 == 1 then ZeroBits(c, p) else c, (2 * p) * (n / 2))
  {
    if n % 2 == 1 {
      assert p * n == p + (2 * p) * (n / 2) by { assert n == 1 + 2 * (n / 2); }
      ZeroBitsAdd(c, p, (2 * p) * (n / 2));
    } else {
      assert p * n == (2 * p) * (n / 2) by { assert n == 2 * (n / 2); }
    }
  }

  /* One turn of the loop: square, then apply the square if the low bit of the length is set. */
  method SquareAndApply(next: array<bv64>, op: array<bv64>, crc: bv64, len: nat, ghost p: nat) returns (c: bv64)
    requires next.Length == GF2_DIM && op.Length == GF2_DIM && next != op
    requires Advances(op[..], p)
    modifies next
    ensures Advances(next[..], 2 * p)
    ensures ZeroBits(c, (4 * p) * (len / 2)) == ZeroBits(crc, (2 * p) * len)
  {
    MatrixSquare(next, op);
    SquareDoubles(op[..], p);
    SpendBit(crc, 2 * p, len);
    c := crc;
    if len % 2 == 1 {
      c := MatrixTimes(next, crc);
    }
  }

  /* Apply `len2` zero bytes to `crc1`, given the operator for four zero bits in `odd`. */
  method ApplyZeroBytes(even: array<bv64>, odd: array<bv64>, crc1: bv64, len2: nat) returns (crc: bv64)
    requires even.Length == GF2_DIM && odd.Length == GF2_DIM && even != odd
    requires Advances(odd[..], 4) && len2 > 0
    modifies even, odd
    ensures crc == ZeroBits(crc1, 8 * len2)
  {
    crc := crc1;
    ghost var p := 4;
    var len := len2;
    while true
      invariant len > 0 && Advances(odd[..], p)
      invariant ZeroBits(crc, (2 * p) * len) == ZeroBits(crc1, 8 * len2)
      decreases len
    {
      crc := SquareAndApply(even, odd, crc, len, p);
      len := len / 2;
      if len == 0 { break; }
      crc := SquareAndApply(odd, even, crc, len, 2 * p);
      len := len / 2;
      p := 4 * p;
      if len == 0 { break; }
    }
  }

  method Combine(crc1: bv64, crc2: bv64, len2: nat) returns (crc: bv64)
    ensures crc == if len2 == 0 then crc1 else Xor(ZeroBits(crc1, 8 * len2), crc2)
    ensures forall start: bv64, a: seq<bv8>, b: seq<bv8> {:trigger Crc(start, a), Crc(0, b)} ::
              crc1 == Crc(start, a) && crc2 == Crc(0, b) && len2 == |b| ==> crc == Crc(start, a + b)
  {
    crc := crc1;
    if len2 > 0 {
      var even := new bv64[GF2_DIM];
      var odd := new bv64[GF2_DIM];
      FillOneZeroBit(odd);
      OneZeroBitAdvances(odd[..]);
      MatrixSquare(even, odd);
      SquareDoubles(odd[..], 1);
      MatrixSquare(odd, even);
      SquareDoubles(even[..], 2);
      crc := ApplyZeroBytes(even, odd, crc1, len2);
      crc := Xor(crc, crc2);
    }
    CombineMeansConcatenation(crc1, crc2, len2, crc);
  }

  lemma CombineMeansConcatenation(crc1: bv64, crc2: bv64, len2: nat, crc: bv64)
    requires crc == if len2 == 0 then crc1 else Xor(ZeroBits(crc1, 8 * len2), crc2)
    ensures forall start: bv64, a: seq<bv8>, b: seq<bv8> {:trigger Crc(start, a), Crc(0, b)} ::
              crc1 == Crc(start, a) && crc2 == Crc(0, b) && len2 == |b| ==> crc == Crc(start, a + b)
  {
    forall start: bv64, a: seq<bv8>, b: seq<bv8> {:trigger Crc(start, a), Crc(0, b)}
      | crc1 == Crc(start, a) && crc2 == Crc(0, b) && len2 == |b|
      ensures crc == Crc(start, a + b)
    {
      if b == [] {
        assert a + b == a;
      } else {
        CombineLaw(start, a, b);
      }
    }
  }
}
