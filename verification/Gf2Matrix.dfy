/**
 Bit matrices acting on words, over any word type with exclusive or: a matrix is the
 sequence of its columns, column i being the image of bit i.
 */
module Gf2Matrix {
  import opened LinearRegister

  /* Exclusive or of the columns selected by the bits of `v`, low bit first. */
  function Product<T>(xor: (T, T) -> T, zero: T, bit: T -> bool, half: T -> T, mat: seq<T>, v: T): T
    decreases |mat|
  {
    if mat == [] then zero
    else xor(Column(zero, bit(v), mat[0]), Product(xor, zero, bit, half, mat[1..], half(v)))
  }

  function Column<T>(zero: T, selected: bool, c: T): T {
    if selected then c else zero
  }

  /* Taking the low bit and shifting it out both distribute over exclusive or. */
  ghost predicate BitLaws<T(!new)>(xor: (T, T) -> T, zero: T, bit: T -> bool, half: T -> T) {
    && XorGroup(xor, zero) && Additive(xor, half)
    && (forall x, y {:trigger bit(xor(x, y))} :: bit(xor(x, y)) == (bit(x) != bit(y)))
  }

  lemma XorSwap<T(!new)>(xor: (T, T) -> T, zero: T, a: T, b: T, c: T, d: T)
    requires XorGroup(xor, zero)
    ensures xor(xor(a, b), xor(c, d)) == xor(xor(a, c), xor(b, d))
  {
    calc {
      xor(xor(a, b), xor(c, d));
      xor(a, xor(b, xor(c, d)));
      xor(a, xor(xor(b, c), d));
      xor(a, xor(xor(c, b), d));
      xor(a, xor(c, xor(b, d)));
      xor(xor(a, c), xor(b, d));
    }
  }

  lemma ColumnLinear<T(!new)>(xor: (T, T) -> T, zero: T, p: bool, q: bool, c: T)
    requires XorGroup(xor, zero)
    ensures Column(zero, p != q, c) == xor(Column(zero, p, c), Column(zero, q, c))
  {
  }

  lemma {:induction false} ProductLinear<T(!new)>(xor: (T, T) -> T, zero: T, bit: T -> bool, half: T -> T,
                                                  mat: seq<T>, x: T, y: T)
    requires BitLaws(xor, zero, bit, half)
    ensures Product(xor, zero, bit, half, mat, xor(x, y))
         == xor(Product(xor, zero, bit, half, mat, x), Product(xor, zero, bit, half, mat, y))
    decreases |mat|
  {
    if mat != [] {
      ProductLinear(xor, zero, bit, half, mat[1..], half(x), half(y));
      ColumnLinear(xor, zero, bit(x), bit(y), mat[0]);
      XorSwap(xor, zero, Column(zero, bit(x), mat[0]), Column(zero, bit(y), mat[0]),
              Product(xor, zero, bit, half, mat[1..], half(x)), Product(xor, zero, bit, half, mat[1..], half(y)));
    }
  }

  lemma AdditiveZero<T(!new)>(xor: (T, T) -> T, zero: T, f: T -> T)
    requires XorGroup(xor, zero) && Additive(xor, f)
    ensures f(zero) == zero
  {
    assert f(xor(zero, zero)) == xor(f(zero), f(zero));
  }

  lemma {:induction false} ProductOfZero<T(!new)>(xor: (T, T) -> T, zero: T, bit: T -> bool, half: T -> T, mat: seq<T>)
    requires BitLaws(xor, zero, bit, half)
    ensures Product(xor, zero, bit, half, mat, zero) == zero
    decreases |mat|
  {
    AdditiveZero(xor, zero, half);
    assert bit(xor(zero, zero)) == (bit(zero) != bit(zero));
    if mat != [] {
      ProductOfZero(xor, zero, bit, half, mat[1..]);
    }
  }

  /* Applying an additive map to every column composes it with the matrix. */
  lemma {:induction false} ProductMapped<T(!new)>(xor: (T, T) -> T, zero: T, bit: T -> bool, half: T -> T,
                                                  f: T -> T, mat: seq<T>, mapped: seq<T>, v: T)
    requires BitLaws(xor, zero, bit, half) && Additive(xor, f)
    requires |mapped| == |mat| && forall i :: 0 <= i < |mat| ==> mapped[i] == f(mat[i])
    ensures Product(xor, zero, bit, half, mapped, v) == f(Product(xor, zero, bit, half, mat, v))
    decreases |mat|
  {
    AdditiveZero(xor, zero, f);
    if mat != [] {
      ProductMapped(xor, zero, bit, half, f, mat[1..], mapped[1..], half(v));
      var rest := Product(xor, zero, bit, half, mat[1..], half(v));
      assert f(xor(Column(zero, bit(v), mat[0]), rest)) == xor(f(Column(zero, bit(v), mat[0])), f(rest));
    }
  }

  /* Columns r, 2r, 4r, ...: the matrix that moves a word up to the place of r. */
  ghost predicate Doubling<T>(double: T -> T, r: T, mat: seq<T>) {
    forall i :: 0 <= i < |mat| ==> mat[i] == Steps(double, r, i)
  }

  lemma {:induction false} StepsOfZero<T>(step: T -> T, zero: T, n: nat)
    requires step(zero) == zero
    ensures Steps(step, zero, n) == zero
  {
    if n > 0 {
      StepsOfZero(step, zero, n - 1);
    }
  }

  lemma DoublingTail<T>(double: T -> T, r: T, mat: seq<T>)
    requires mat != [] && Doubling(double, r, mat)
    ensures Doubling(double, double(r), mat[1..])
  {
    forall i | 0 <= i < |mat[1..]| ensures mat[1..][i] == Steps(double, double(r), i) {
      assert mat[i + 1] == Steps(double, r, i + 1);
    }
  }

  /* Every word is its low bit plus twice its half. */
  ghost predicate Splits<T(!new)>(xor: (T, T) -> T, zero: T, bit: T -> bool, half: T -> T, double: T -> T, one: T) {
    forall x {:trigger half(x)} :: x == xor(Column(zero, bit(x), one), double(half(x)))
  }

  lemma DoublingStep<T(!new)>(xor: (T, T) -> T, zero: T, bit: T -> bool, half: T -> T, double: T -> T, one: T, w: T, k: nat)
    requires Additive(xor, double) && double(zero) == zero && Splits(xor, zero, bit, half, double, one)
    ensures xor(Column(zero, bit(w), Steps(double, one, k)), Steps(double, half(w), k + 1)) == Steps(double, w, k)
  {
    var low := Column(zero, bit(w), one);
    StepsLinear(xor, double, low, double(half(w)), k);
    StepsOfZero(double, zero, k);
  }

  lemma {:induction false} ProductOfDoubling<T(!new)>(
    xor: (T, T) -> T, zero: T, bit: T -> bool, half: T -> T, double: T -> T, one: T, mat: seq<T>, w: T, k: nat)
    requires Additive(xor, double) && double(zero) == zero && Splits(xor, zero, bit, half, double, one)
    requires Doubling(double, Steps(double, one, k), mat)
    requires Steps(half, w, |mat|) == zero
    ensures Product(xor, zero, bit, half, mat, w) == Steps(double, w, k)
    decreases |mat|
  {
    if mat == [] {
      StepsOfZero(double, zero, k);
    } else {
      DoublingTail(double, Steps(double, one, k), mat);
      StepsAdd(double, one, k, 1);
      assert mat[0] == Steps(double, one, k);
      ProductOfDoubling(xor, zero, bit, half, double, one, mat[1..], half(w), k + 1);
      DoublingStep(xor, zero, bit, half, double, one, w, k);
    }
  }
}
