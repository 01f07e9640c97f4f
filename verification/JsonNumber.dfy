/**
 Integers as text: valueToString for Int and UInt, and decodeNumber with its 32-bit
 accumulator and its fall-back to doubles.
 */
module JsonNumber {
  import opened Options
  import opened JsonValue
  import opened JsonLexer

  function DigitChar(d: nat): char
    requires d < 10
  {
    '0' + d as char
  }

  function DigitValue(c: char): nat
    requires IsDigit(c)
  {
    c as int - '0' as int
  }

  ghost predicate AllDigits(s: string) {
    forall c :: c in s ==> IsDigit(c)
  }

  // ----- Writing.

  /* The decimal digits of `n`, most significant first. */
  function Digits(n: nat): (s: string)
    ensures |s| > 0 && AllDigits(s)
  {
    if n < 10 then [DigitChar(n)] else Digits(n / 10) + [DigitChar(n % 10)]
  }

  function Abs(i: int): nat {
    if i < 0 then -i else i
  }

  function IntText(i: int32): string {
    if i < 0 then "-" + Digits(Abs(i)) else Digits(Abs(i))
  }

  lemma {:induction false} DigitsLength(n: nat, k: nat)
    requires k > 0 && n < PowerOfTen(k)
    ensures |Digits(n)| <= k
    decreases k
  {
    if n >= 10 {
      DigitsLength(n / 10, k - 1);
    }
  }

  function PowerOfTen(k: nat): nat {
    if k == 0 then 1 else 10 * PowerOfTen(k - 1)
  }

  lemma TenDigits(n: uint32)
    ensures |Digits(n)| <= 10
  {
    assert PowerOfTen(5) == 100000;
    assert PowerOfTen(10) == 10000000000;
    DigitsLength(n, 10);
  }

  /* uintToString: the NUL and the digits, written backwards from `end`. */
  method UintToString(value: uint32, buffer: array<char>, end: nat) returns (current: nat)
    requires 11 <= end <= buffer.Length
    modifies buffer
    ensures current < end && end - current <= 11
    ensures buffer[current..end] == Digits(value) + [NUL]
  {
    TenDigits(value);
    current := end - 1;
    buffer[current] := NUL;
    var rest: uint32 := value;
    while true
      invariant 0 <= rest && current < end
      invariant |Digits(rest)| <= 10 - (end - 1 - current)
      invariant Digits(rest) + buffer[current..end] == Digits(value) + [NUL]
      decreases rest
    {
      ghost var tail := buffer[current..end];
      current := current - 1;
      buffer[current] := DigitChar(rest % 10);
      assert buffer[current..end] == [DigitChar(rest % 10)] + tail;
      if rest < 10 {
        break;
      }
      assert Digits(rest) + tail == Digits(rest / 10) + buffer[current..end];
      rest := rest / 10;
    }
  }

  /* What is read back from a buffer as a C string. */
  method ReadCString(buffer: array<char>, start: nat, end: nat) returns (s: string)
    requires start < end <= buffer.Length
    requires NUL !in buffer[start..end - 1] && buffer[end - 1] == NUL
    ensures s == buffer[start..end - 1]
  {
    assert forall i :: start <= i < end - 1 ==> buffer[i] in buffer[start..end - 1];
    s := [];
    var i := start;
    while buffer[i] != NUL
      invariant start <= i <= end - 1 && s == buffer[start..i]
      decreases end - i
    {
      s := s + [buffer[i]];
      i := i + 1;
    }
  }

  method IntToString(value: int32) returns (s: string)
    ensures s == IntText(value)
  {
    var buffer := new char[32];
    var magnitude: uint32 := Abs(value);
    var current := UintToString(magnitude, buffer, 32);
    assert buffer[current..31] == Digits(magnitude) by {
      assert buffer[current..32][..32 - current - 1] == buffer[current..31];
    }
    if value < 0 {
      ghost var digits := buffer[current..31];
      current := current - 1;
      buffer[current] := '-';
      assert buffer[current..31] == "-" + digits;
    }
    s := ReadCString(buffer, current, 32);
  }

  method UIntToString(value: uint32) returns (s: string)
    ensures s == Digits(value)
  {
    var buffer := new char[32];
    var current := UintToString(value, buffer, 32);
    assert buffer[current..31] == Digits(value) by {
      assert buffer[current..32][..32 - current - 1] == buffer[current..31];
    }
    s := ReadCString(buffer, current, 32);
  }

  // ----- Reading.

  /* The number that `v` followed by the digits `ds` denotes. */
  function Horner(v: nat, ds: string): nat
    requires AllDigits(ds)
    decreases |ds|
  {
    if ds == [] then v else Horner(10 * v + DigitValue(ds[0]), ds[1..])
  }

  datatype Accumulated = Exact(value: nat) | TooBig | NotADigit

  /* decodeNumber's loop. */
  function Accumulate(ds: string, v: nat, threshold: nat): Accumulated
    decreases |ds|
  {
    if ds == [] then Exact(v)
    else if !IsDigit(ds[0]) then NotADigit
    else if v >= threshold then TooBig
    else Accumulate(ds[1..], 10 * v + DigitValue(ds[0]), threshold)
  }

  const MAX_INT: nat := 0x7fff_ffff
  const NEGATIVE_THRESHOLD: nat := 0x8000_0000 / 10
  const POSITIVE_THRESHOLD: nat := 0xffff_ffff / 10

  /* Does the token need a floating point conversion? */
  predicate LooksDouble(text: string) {
    exists k :: 0 <= k < |text| && DoubleAt(text, k)
  }

  predicate DoubleAt(text: string, k: nat)
    requires k < |text|
  {
    text[k] == '.' || text[k] == 'e' || text[k] == 'E' || text[k] == '+' || (text[k] == '-' && k > 0)
  }

  function IsNegative(text: string): bool {
    text != [] && text[0] == '-'
  }

  function Magnitude(text: string): string {
    if IsNegative(text) then text[1..] else text
  }

  function Threshold(text: string): nat {
    if IsNegative(text) then NEGATIVE_THRESHOLD else POSITIVE_THRESHOLD
  }

  /* decodeNumber; `scan` is sscanf("%lf") on the token. */
  function DecodeNumber(scan: string -> Option<real>, text: string): Option<Value> {
    if LooksDouble(text) then DecodeDouble(scan, text)
    else
      match Accumulate(Magnitude(text), 0, Threshold(text))
      case NotADigit => None
      case TooBig => DecodeDouble(scan, text)
      case Exact(n) =>
        AccumulateBound(Magnitude(text), 0, Threshold(text));
        if IsNegative(text) then Some(Int(0 - n))
        else if n <= MAX_INT then Some(Int(n))
        else Some(UInt(n))
  }

  function DecodeDouble(scan: string -> Option<real>, text: string): Option<Value> {
    match scan(text)
    case None => None
    case Some(r) => Some(Real(r))
  }

  /* The accumulator stays below ten times the threshold, so it never overflows 32 bits. */
  lemma {:induction false} AccumulateBound(ds: string, v: nat, threshold: nat)
    requires threshold > 0 && v < 10 * threshold
    ensures Accumulate(ds, v, threshold).Exact? ==> Accumulate(ds, v, threshold).value < 10 * threshold
    decreases |ds|
  {
    if ds != [] && IsDigit(ds[0]) && v < threshold {
      AccumulateBound(ds[1..], 10 * v + DigitValue(ds[0]), threshold);
    }
  }

  lemma {:induction false} HornerGrows(v: nat, ds: string)
    requires AllDigits(ds)
    ensures Horner(v, ds) >= v
    decreases |ds|
  {
    if ds != [] { HornerGrows(10 * v + DigitValue(ds[0]), ds[1..]); }
  }

  lemma {:induction false} HornerSnoc(v: nat, ds: string, c: char)
    requires AllDigits(ds) && IsDigit(c)
    ensures AllDigits(ds + [c])
    ensures Horner(v, ds + [c]) == 10 * Horner(v, ds) + DigitValue(c)
    decreases |ds|
  {
    if ds == [] {
      assert ds + [c] == [c];
      assert [c][1..] == [];
    } else {
      assert (ds + [c])[1..] == ds[1..] + [c];
      HornerSnoc(10 * v + DigitValue(ds[0]), ds[1..], c);
    }
  }

  /* On a digit string of any length, the result is exact just below ten times the threshold. */
  lemma {:induction false} AccumulateExactly(ds: string, v: nat, threshold: nat)
    requires AllDigits(ds)
    ensures Accumulate(ds, v, threshold) ==
      if ds == [] || Horner(v, ds) < 10 * threshold then Exact(Horner(v, ds)) else TooBig
    decreases |ds|
  {
    if ds != [] {
      var v' := 10 * v + DigitValue(ds[0]);
      HornerGrows(v', ds[1..]);
      if v < threshold {
        AccumulateExactly(ds[1..], v', threshold);
      }
    }
  }

  /* decodeNumber is exact on a signed digit string if and only if the number is in range; no digits count as zero. */
  lemma DecodeNumberExactly(scan: string -> Option<real>, ds: string, negative: bool)
    requires AllDigits(ds)
    ensures var n := Horner(0, ds);
            DecodeNumber(scan, if negative then "-" + ds else ds) ==
              if negative then
                (if n <= 2147483639 then Some(Int(0 - n)) else DecodeDouble(scan, "-" + ds))
              else if n <= 2147483647 then Some(Int(n))
              else if n <= 4294967289 then Some(UInt(n))
              else DecodeDouble(scan, ds)
  {
    var text := if negative then "-" + ds else ds;
    assert ds != [] ==> IsDigit(ds[0]) by {
      if ds != [] { assert ds[0] in ds; }
    }
    assert !LooksDouble(text) by {
      forall k | 0 <= k < |text| && (k > 0 || !negative) ensures IsDigit(text[k]) {
        assert text[k] in ds;
      }
    }
    assert Magnitude(text) == ds;
    AccumulateExactly(ds, 0, Threshold(text));
  }

  lemma {:induction false} HornerOfDigits(n: nat)
    ensures Horner(0, Digits(n)) == n
  {
    if n < 10 {
      assert Digits(n)[1..] == [];
    } else {
      HornerOfDigits(n / 10);
      HornerSnoc(0, Digits(n / 10), DigitChar(n % 10));
    }
  }

  /* A minus sign alone, which section 6 of RFC 8259 does not allow, is zero. */
  lemma LoneMinusIsZero(scan: string -> Option<real>)
    ensures DecodeNumber(scan, "-") == Some(Int(0))
  {
    DecodeNumberExactly(scan, [], true);
    assert "-" + [] == "-";
  }

  /* The integers of the last partial decade become doubles. */
  lemma LastDecadeIsDouble(scan: string -> Option<real>, u: uint32)
    ensures u > 4294967289 ==> DecodeNumber(scan, Digits(u)) == DecodeDouble(scan, Digits(u))
    ensures 2147483639 < u <= 2147483648 ==> DecodeNumber(scan, "-" + Digits(u)) == DecodeDouble(scan, "-" + Digits(u))
  {
    HornerOfDigits(u);
    DecodeNumberExactly(scan, Digits(u), false);
    DecodeNumberExactly(scan, Digits(u), true);
  }

  /* A token with a point, an exponent or a plus sign, or with a minus sign behind its beginning, is the real that
     sscanf reads. */
  lemma RealTokens(scan: string -> Option<real>, text: string)
    requires '.' in text || 'e' in text || 'E' in text || '+' in text || (text != [] && '-' in text[1..])
    ensures DecodeNumber(scan, text) == match scan(text) case Some(r) => Some(Real(r)) case None => None
  {
    if text != [] && '-' in text[1..] {
      var k :| 0 <= k < |text| - 1 && text[1..][k] == '-';
      assert DoubleAt(text, k + 1);
    } else {
      var k :| 0 <= k < |text| && (text[k] == '.' || text[k] == 'e' || text[k] == 'E' || text[k] == '+');
      assert DoubleAt(text, k);
    }
  }

  /* decodeNumber inverts valueToString on the range where it is exact. */
  lemma DecodeIntText(scan: string -> Option<real>, i: int32)
    requires i >= -2147483639
    ensures DecodeNumber(scan, IntText(i)) == Some(Int(i))
  {
    HornerOfDigits(Abs(i));
    DecodeNumberExactly(scan, Digits(Abs(i)), i < 0);
  }

  lemma DecodeUIntText(scan: string -> Option<real>, u: uint32)
    requires 2147483648 <= u <= 4294967289
    ensures DecodeNumber(scan, Digits(u)) == Some(UInt(u))
  {
    HornerOfDigits(u);
    DecodeNumberExactly(scan, Digits(u), false);
  }

  /* Every integer the reader decodes lies in that range. */
  lemma DecodedIntegersAreExact(scan: string -> Option<real>, text: string)
    ensures match DecodeNumber(scan, text)
            case Some(Int(i)) => i >= -2147483639
            case Some(UInt(u)) => 2147483648 <= u <= 4294967289
            case _ => true
  {
    AccumulateBound(Magnitude(text), 0, Threshold(text));
  }

  /* The token text of an integer. */
  lemma IntTextShape(i: int32)
    ensures IntText(i) != [] && (IsDigit(IntText(i)[0]) || IntText(i)[0] == '-')
    ensures forall c :: c in IntText(i) ==> IsNumberChar(c)
  {
    var ds := Digits(Abs(i));
    assert ds[0] in ds;
  }

  lemma DigitsShape(n: nat)
    ensures IsDigit(Digits(n)[0])
    ensures forall c :: c in Digits(n) ==> IsNumberChar(c)
  {
    assert Digits(n)[0] in Digits(n);
  }

  // ----- The code.

  /* decodeNumber's integer loop over 32-bit unsigned arithmetic; the types prove that nothing wraps. */
  method AccumulateLoop(ds: string, threshold: uint32) returns (r: Accumulated)
    requires threshold == NEGATIVE_THRESHOLD || threshold == POSITIVE_THRESHOLD
    ensures r == Accumulate(ds, 0, threshold)
  {
    var value: uint32 := 0;
    var i := 0;
    assert ds[0..] == ds;
    while i < |ds|
      invariant 0 <= i <= |ds| && value < 10 * threshold
      invariant Accumulate(ds[i..], value, threshold) == Accumulate(ds, 0, threshold)
    {
      var c := ds[i];
      assert ds[i..][1..] == ds[i + 1..];
      i := i + 1;
      if c < '0' || c > '9' {
        return NotADigit;
      }
      if value >= threshold {
        return TooBig;
      }
      value := value * 10 + DigitValue(c);
    }
    r := Exact(value);
  }
}
