/**
 sys/base64.c: the base 64 encoding of section 4 of RFC 4648, and a decoder that reads as many
 digits as there are.
 */
module Base64 {

  type byte = bv8

  const PAD: byte := 61
  const NUL: byte := 0

  /* basis_64: A-Z, a-z, 0-9, + and /. */
  function Basis(d: byte): byte {
    if d < 26 then d + 65
    else if d < 52 then d + 71
    else if d < 62 then d - 4
    else if d == 62 then 43
    else 47
  }

  /* pr2six: the digit, or 64. */
  function Six(c: byte): byte {
    if 65 <= c <= 90 then c - 65
    else if 97 <= c <= 122 then c - 71
    else if 48 <= c <= 57 then c + 4
    else if c == 43 then 62
    else if c == 47 then 63
    else 64
  }

  predicate IsDigit(c: byte) { Six(c) <= 63 }

  lemma SixOfBasis(d: byte)
    requires d <= 63
    ensures Six(Basis(d)) == d
  {
  }

  /* The digits of the encoding, in the order of their values (section 4 of RFC 4648). */
  const ALPHABET: string := UPPER + LOWER + OTHERS
  const UPPER: string := "ABCDEFGHIJKLMNOPQRSTUVWXYZ"
  const LOWER: string := "abcdefghijklmnopqrstuvwxyz"
  const OTHERS: string := "0123456789+/"

  function CodeOf(i: nat): nat {
    if i < 26 then 65 + i else if i < 52 then 71 + i else if i < 62 then i - 4 else if i == 62 then 43 else 47
  }

  lemma UpperCodes(s: string, i: nat)
    requires s == UPPER && i < 26
    ensures s[i] as int == 65 + i
  {
    assert s[0] == 'A' && s[1] == 'B' && s[2] == 'C' && s[3] == 'D' && s[4] == 'E' && s[5] == 'F' && s[6] == 'G' && s[7] == 'H' && s[8] == 'I';
    assert s[9] == 'J' && s[10] == 'K' && s[11] == 'L' && s[12] == 'M' && s[13] == 'N' && s[14] == 'O' && s[15] == 'P' && s[16] == 'Q' && s[17] == 'R';
    assert s[18] == 'S' && s[19] == 'T' && s[20] == 'U' && s[21] == 'V' && s[22] == 'W' && s[23] == 'X' && s[24] == 'Y' && s[25] == 'Z';
  }

  lemma LowerCodes(s: string, i: nat)
    requires s == LOWER && i < 26
    ensures s[i] as int == 97 + i
  {
    assert s[0] == 'a' && s[1] == 'b' && s[2] == 'c' && s[3] == 'd' && s[4] == 'e' && s[5] == 'f' && s[6] == 'g' && s[7] == 'h' && s[8] == 'i';
    assert s[9] == 'j' && s[10] == 'k' && s[11] == 'l' && s[12] == 'm' && s[13] == 'n' && s[14] == 'o' && s[15] == 'p' && s[16] == 'q' && s[17] == 'r';
    assert s[18] == 's' && s[19] == 't' && s[20] == 'u' && s[21] == 'v' && s[22] == 'w' && s[23] == 'x' && s[24] == 'y' && s[25] == 'z';
  }

  lemma OtherCodes(s: string, i: nat)
    requires s == OTHERS && i < 12
    ensures s[i] as int == if i < 10 then 48 + i else if i == 10 then 43 else 47
  {
    assert s[0] == '0' && s[1] == '1' && s[2] == '2' && s[3] == '3' && s[4] == '4' && s[5] == '5' && s[6] == '6' && s[7] == '7' && s[8] == '8';
    assert s[9] == '9' && s[10] == '+' && s[11] == '/';
  }

  lemma TextCodes(u: string, l: string, o: string, i: nat)
    requires u == UPPER && l == LOWER && o == OTHERS && i < 64 && |u| == 26 && |l| == 26 && |o| == 12
    ensures (u + l + o)[i] as int == CodeOf(i)
  {
    if i < 26 {
      UpperCodes(u, i);
    } else if i < 52 {
      LowerCodes(l, i - 26);
    } else {
      OtherCodes(o, i - 52);
    }
  }

  lemma BasisCodes(d: byte)
    requires d <= 63
    ensures Basis(d) as int == CodeOf(d as int)
  {
  }

  /* Each digit is written as the character of the alphabet at its place, and read so. */
  lemma AlphabetIs(d: byte)
    requires d <= 63
    ensures d as int < |ALPHABET| == 64 && Basis(d) as int == ALPHABET[d as int] as int && Six(Basis(d)) == d
  {
    BasisCodes(d);
    TextCodes(UPPER, LOWER, OTHERS, d as int);
    SixOfBasis(d);
  }

  // ----- One group: three bytes and four digits.

  function Digit0(a: byte): byte { (a >> 2) & 0x3F }
  function Digit1(a: byte, b: byte): byte { ((a & 0x3) << 4) | ((b & 0xF0) >> 4) }
  function Digit2(b: byte, c: byte): byte { ((b & 0xF) << 2) | ((c & 0xC0) >> 6) }
  function Digit3(c: byte): byte { c & 0x3F }

  function Byte0(p: byte, q: byte): byte { (p << 2) | (q >> 4) }
  function Byte1(q: byte, r: byte): byte { (q << 4) | (r >> 2) }
  function Byte2(r: byte, s: byte): byte { (r << 6) | s }

  lemma GroupInverse(a: byte, b: byte, c: byte)
    ensures Digit0(a) <= 63 && Digit1(a, b) <= 63 && Digit2(b, c) <= 63 && Digit3(c) <= 63
    ensures Byte0(Digit0(a), Digit1(a, b)) == a
    ensures Byte1(Digit1(a, b), Digit2(b, c)) == b
    ensures Byte2(Digit2(b, c), Digit3(c)) == c
  {
  }

  // ----- Encoding.

  function Encode(s: seq<byte>): seq<byte> {
    if |s| == 0 then []
    else if |s| == 1 then [Basis(Digit0(s[0])), Basis(Digit1(s[0], 0)), PAD, PAD]
    else if |s| == 2 then [Basis(Digit0(s[0])), Basis(Digit1(s[0], s[1])), Basis(Digit2(s[1], 0)), PAD]
    else Group(s[0], s[1], s[2]) + Encode(s[3..])
  }

  function Group(a: byte, b: byte, c: byte): seq<byte> {
    [Basis(Digit0(a)), Basis(Digit1(a, b)), Basis(Digit2(b, c)), Basis(Digit3(c))]
  }

  /* Test vectors of section 10 of RFC 4648, with one, two and no padding digits. */
  lemma TestVectors(foobar: seq<byte>)
    requires foobar == [102, 111, 111, 98, 97, 114]
    ensures Encode(foobar[..4]) == [90, 109, 57, 118, 89, 103, 61, 61]
    ensures Encode(foobar[..5]) == [90, 109, 57, 118, 89, 109, 69, 61]
    ensures Encode(foobar) == [90, 109, 57, 118, 89, 109, 70, 121]
  {
    assert Group(102, 111, 111) == [90, 109, 57, 118] && Group(98, 97, 114) == [89, 109, 70, 121];
    assert foobar[..4][3..] == [98] && foobar[..5][3..] == [98, 97] && foobar[3..] == [98, 97, 114];
    assert foobar[3..][3..] == [] && Encode([]) == [];
    assert Encode(foobar[3..]) == Group(98, 97, 114) + [];
  }

  /* The length with the final NUL. */
  function EncodeLen(len: nat): nat { (len + 2) / 3 * 4 + 1 }

  lemma {:induction false} EncodeLength(s: seq<byte>)
    ensures |Encode(s)| + 1 == EncodeLen(|s|)
  {
    if |s| >= 3 {
      EncodeLength(s[3..]);
    }
  }

  // ----- Decoding.

  /* The digits before the first other character. */
  function Digits(s: seq<byte>): (d: seq<byte>)
    ensures d <= s && (forall i :: 0 <= i < |d| ==> IsDigit(d[i]))
    ensures |d| < |s| ==> !IsDigit(s[|d|])
  {
    if s == [] || !IsDigit(s[0]) then [] else [s[0]] + Digits(s[1..])
  }

  /* The bytes of a run of digits; a last digit alone is ignored. */
  function Bytes(d: seq<byte>): seq<byte> {
    if |d| > 4 then FullGroup(d) + Bytes(d[4..]) else LastGroup(d)
  }

  function FullGroup(d: seq<byte>): seq<byte>
    requires |d| >= 4
  {
    [Byte0(Six(d[0]), Six(d[1])), Byte1(Six(d[1]), Six(d[2])), Byte2(Six(d[2]), Six(d[3]))]
  }

  function LastGroup(d: seq<byte>): seq<byte>
    requires |d| <= 4
  {
    (if |d| > 1 then [Byte0(Six(d[0]), Six(d[1]))] else []) +
    (if |d| > 2 then [Byte1(Six(d[1]), Six(d[2]))] else []) +
    (if |d| > 3 then [Byte2(Six(d[2]), Six(d[3]))] else [])
  }

  function Decode(s: seq<byte>): seq<byte> { Bytes(Digits(s)) }

  function DecodeLen(s: seq<byte>): nat { (|Digits(s)| + 3) / 4 * 3 + 1 }

  /* As many bytes as the digits have whole octets, for every run of digits. */
  lemma {:induction false} BytesLength(d: seq<byte>)
    ensures |Bytes(d)| == |d| * 6 / 8
    ensures |Bytes(d)| + 1 <= (|d| + 3) / 4 * 3 + 1
  {
    if |d| > 4 {
      BytesLength(d[4..]);
    }
  }

  // ----- Decoding inverts encoding.

  /* The digits of an encoding, without the padding. */
  function Unpadded(s: seq<byte>): seq<byte> {
    if |s| == 0 then []
    else if |s| == 1 then [Basis(Digit0(s[0])), Basis(Digit1(s[0], 0))]
    else if |s| == 2 then [Basis(Digit0(s[0])), Basis(Digit1(s[0], s[1])), Basis(Digit2(s[1], 0))]
    else Group(s[0], s[1], s[2]) + Unpadded(s[3..])
  }

  function Padding(s: seq<byte>): seq<byte> {
    if |s| % 3 == 0 then [] else if |s| % 3 == 1 then [PAD, PAD] else [PAD]
  }

  lemma {:induction false} EncodeIsPadded(s: seq<byte>)
    ensures Encode(s) == Unpadded(s) + Padding(s)
  {
    if |s| >= 3 {
      EncodeIsPadded(s[3..]);
      var g := EncodeFirst(s);
      Associate(g, Unpadded(s[3..]), Padding(s));
    } else if |s| == 0 {
      assert Unpadded(s) + Padding(s) == [];
    } else {
      LastIsPadded(s);
    }
  }

  lemma EncodeFirst(s: seq<byte>) returns (g: seq<byte>)
    requires |s| >= 3
    ensures Encode(s) == g + Encode(s[3..]) && Unpadded(s) == g + Unpadded(s[3..]) && Padding(s) == Padding(s[3..])
  {
    g := Group(s[0], s[1], s[2]);
    SamePadding(s, s[3..]);
  }

  lemma SamePadding(s: seq<byte>, t: seq<byte>)
    requires |s| == |t| + 3
    ensures Padding(s) == Padding(t)
  {
  }

  lemma LastIsPadded(s: seq<byte>)
    requires 1 <= |s| <= 2
    ensures Encode(s) == Unpadded(s) + Padding(s)
  {
    if |s| == 1 {
      var p, q := OneEncoded(s);
      TwoAndPad(p, q);
    } else {
      var p, q, r := TwoEncoded(s);
      ThreeAndPad(p, q, r);
    }
  }

  lemma OneEncoded(s: seq<byte>) returns (p: byte, q: byte)
    requires |s| == 1
    ensures Encode(s) == [p, q, PAD, PAD] && Unpadded(s) == [p, q] && Padding(s) == [PAD, PAD]
  {
    p, q := Basis(Digit0(s[0])), Basis(Digit1(s[0], 0));
  }

  lemma TwoEncoded(s: seq<byte>) returns (p: byte, q: byte, r: byte)
    requires |s| == 2
    ensures Encode(s) == [p, q, r, PAD] && Unpadded(s) == [p, q, r] && Padding(s) == [PAD]
  {
    p, q, r := Basis(Digit0(s[0])), Basis(Digit1(s[0], s[1])), Basis(Digit2(s[1], 0));
  }

  lemma TwoAndPad(p: byte, q: byte)
    ensures [p, q] + [PAD, PAD] == [p, q, PAD, PAD]
  {
  }

  lemma ThreeAndPad(p: byte, q: byte, r: byte)
    ensures [p, q, r] + [PAD] == [p, q, r, PAD]
  {
  }

  lemma BasisIsDigit(d: byte)
    requires d <= 63
    ensures IsDigit(Basis(d))
  {
    SixOfBasis(d);
  }

  lemma {:induction false} UnpaddedDigits(s: seq<byte>)
    ensures forall i :: 0 <= i < |Unpadded(s)| ==> IsDigit(Unpadded(s)[i])
  {
    if |s| > 0 {
      var b, c := if |s| > 1 then s[1] else 0, if |s| > 2 then s[2] else 0;
      GroupInverse(s[0], b, c);
      BasisIsDigit(Digit0(s[0]));
      BasisIsDigit(Digit1(s[0], b));
      BasisIsDigit(Digit2(b, c));
      BasisIsDigit(Digit3(c));
      if |s| >= 3 {
        UnpaddedDigits(s[3..]);
      }
    }
  }

  lemma {:induction false} DigitsOf(d: seq<byte>, rest: seq<byte>)
    requires (forall i :: 0 <= i < |d| ==> IsDigit(d[i])) && (rest == [] || !IsDigit(rest[0]))
    ensures Digits(d + rest) == d
  {
    if d != [] {
      assert (d + rest)[0] == d[0] && (d + rest)[1..] == d[1..] + rest;
      DigitsOf(d[1..], rest);
    } else {
      assert d + rest == rest;
    }
  }

  lemma GroupBytes(a: byte, b: byte, c: byte, d: seq<byte>)
    requires |d| >= 4 && d[..4] == Group(a, b, c)
    ensures FullGroup(d) == [a, b, c]
  {
    assert d[0] == d[..4][0] && d[1] == d[..4][1] && d[2] == d[..4][2] && d[3] == d[..4][3];
    GroupInverse(a, b, c);
    SixOfBasis(Digit0(a));
    SixOfBasis(Digit1(a, b));
    SixOfBasis(Digit2(b, c));
    SixOfBasis(Digit3(c));
  }

  lemma LastBytes(a: byte, b: byte)
    ensures LastGroup([Basis(Digit0(a)), Basis(Digit1(a, 0))]) == [a]
    ensures LastGroup([Basis(Digit0(a)), Basis(Digit1(a, b)), Basis(Digit2(b, 0))]) == [a, b]
  {
    GroupInverse(a, 0, 0);
    GroupInverse(a, b, 0);
    SixOfBasis(Digit0(a));
    SixOfBasis(Digit1(a, 0));
    SixOfBasis(Digit1(a, b));
    SixOfBasis(Digit2(b, 0));
  }

  lemma {:induction false} BytesOfUnpadded(s: seq<byte>)
    ensures Bytes(Unpadded(s)) == s
  {
    if |s| == 1 {
      LastBytes(s[0], 0);
    } else if |s| == 2 {
      LastBytes(s[0], s[1]);
    } else if |s| >= 3 {
      BytesOfUnpadded(s[3..]);
      GroupThenBytes(s, Unpadded(s));
    }
  }

  lemma GroupThenBytes(s: seq<byte>, d: seq<byte>)
    requires |s| >= 3 && d == Group(s[0], s[1], s[2]) + Unpadded(s[3..]) && Bytes(Unpadded(s[3..])) == s[3..]
    ensures Bytes(d) == s
  {
    SplitFour(Group(s[0], s[1], s[2]), Unpadded(s[3..]), d);
    GroupBytes(s[0], s[1], s[2], d);
    BytesFirst(d);
    SplitThree(s);
  }

  lemma SplitFour(g: seq<byte>, rest: seq<byte>, d: seq<byte>)
    requires |g| == 4 && d == g + rest
    ensures d[..4] == g && d[4..] == rest
  {
  }

  lemma BytesFirst(d: seq<byte>)
    requires |d| >= 4
    ensures Bytes(d) == FullGroup(d) + Bytes(d[4..])
  {
    if |d| == 4 {
      FourIsLast(d);
      NoGroup(d[4..]);
    }
  }

  lemma FourIsLast(d: seq<byte>)
    requires |d| == 4
    ensures LastGroup(d) == FullGroup(d)
  {
  }

  /* Every byte string, encoded, terminated and followed by anything, is decoded to itself. */
  lemma DecodeInvertsEncode(s: seq<byte>, rest: seq<byte>)
    ensures Decode(Encode(s) + [NUL] + rest) == s
  {
    EncodeIsPadded(s);
    UnpaddedDigits(s);
    var tail := Padding(s) + [NUL] + rest;
    assert Encode(s) + [NUL] + rest == Unpadded(s) + tail;
    DigitsOf(Unpadded(s), tail);
    BytesOfUnpadded(s);
  }

  // ----- The reference: both sides are one stream of bits.

  function Bit7(x: byte): byte { (x >> 7) & 1 }
  function Bit6(x: byte): byte { (x >> 6) & 1 }
  function Bit5(x: byte): byte { (x >> 5) & 1 }
  function Bit4(x: byte): byte { (x >> 4) & 1 }
  function Bit3(x: byte): byte { (x >> 3) & 1 }
  function Bit2(x: byte): byte { (x >> 2) & 1 }
  function Bit1(x: byte): byte { (x >> 1) & 1 }
  function Bit0(x: byte): byte { x & 1 }

  function Octet(x: byte): seq<byte> {
    [Bit7(x), Bit6(x), Bit5(x), Bit4(x), Bit3(x), Bit2(x), Bit1(x), Bit0(x)]
  }

  function Sextet(d: byte): seq<byte> {
    [Bit5(d), Bit4(d), Bit3(d), Bit2(d), Bit1(d), Bit0(d)]
  }

  function OctetBits(s: seq<byte>): seq<byte> {
    if s == [] then [] else Octet(s[0]) + OctetBits(s[1..])
  }

  function DigitBits(d: seq<byte>): seq<byte> {
    if d == [] then [] else Sextet(Six(d[0])) + DigitBits(d[1..])
  }

  lemma {:induction false} OctetBitsConcat(s: seq<byte>, t: seq<byte>)
    ensures OctetBits(s + t) == OctetBits(s) + OctetBits(t)
  {
    if s == [] {
      assert s + t == t;
    } else {
      assert (s + t)[1..] == s[1..] + t;
      OctetBitsConcat(s[1..], t);
    }
  }

  lemma {:induction false} DigitBitsConcat(s: seq<byte>, t: seq<byte>)
    ensures DigitBits(s + t) == DigitBits(s) + DigitBits(t)
  {
    if s == [] {
      assert s + t == t;
    } else {
      assert (s + t)[1..] == s[1..] + t;
      DigitBitsConcat(s[1..], t);
    }
  }

  lemma Byte0Masks(p: byte, q: byte, x: byte)
    requires p <= 63 && q <= 63 && x == Byte0(p, q)
    ensures Bit7(x) == Bit5(p) && Bit6(x) == Bit4(p) && Bit5(x) == Bit3(p)
    ensures Bit4(x) == Bit2(p) && Bit3(x) == Bit1(p) && Bit2(x) == Bit0(p)
    ensures Bit1(x) == Bit5(q) && Bit0(x) == Bit4(q)
  {
  }

  lemma Byte1Masks(q: byte, r: byte, x: byte)
    requires q <= 63 && r <= 63 && x == Byte1(q, r)
    ensures Bit7(x) == Bit3(q) && Bit6(x) == Bit2(q) && Bit5(x) == Bit1(q)
    ensures Bit4(x) == Bit0(q) && Bit3(x) == Bit5(r) && Bit2(x) == Bit4(r)
    ensures Bit1(x) == Bit3(r) && Bit0(x) == Bit2(r)
  {
  }

  lemma Byte2Masks(r: byte, s: byte, x: byte)
    requires r <= 63 && s <= 63 && x == Byte2(r, s)
    ensures Bit7(x) == Bit1(r) && Bit6(x) == Bit0(r) && Bit5(x) == Bit5(s)
    ensures Bit4(x) == Bit4(s) && Bit3(x) == Bit3(s) && Bit2(x) == Bit2(s)
    ensures Bit1(x) == Bit1(s) && Bit0(x) == Bit0(s)
  {
  }

  lemma Byte0Bits(p: byte, q: byte)
    requires p <= 63 && q <= 63
    ensures Octet(Byte0(p, q)) == Sextet(p) + Sextet(q)[..2]
  {
    var x := Byte0(p, q);
    Byte0Masks(p, q, x);
    SameBits(Octet(x), Sextet(p) + Sextet(q)[..2]);
  }

  lemma Byte1Bits(q: byte, r: byte)
    requires q <= 63 && r <= 63
    ensures Octet(Byte1(q, r)) == Sextet(q)[2..] + Sextet(r)[..4]
  {
    var x := Byte1(q, r);
    Byte1Masks(q, r, x);
    SameBits(Octet(x), Sextet(q)[2..] + Sextet(r)[..4]);
  }

  lemma Byte2Bits(r: byte, s: byte)
    requires r <= 63 && s <= 63
    ensures Octet(Byte2(r, s)) == Sextet(r)[4..] + Sextet(s)
  {
    var x := Byte2(r, s);
    Byte2Masks(r, s, x);
    SameBits(Octet(x), Sextet(r)[4..] + Sextet(s));
  }

  lemma SameBits(u: seq<byte>, v: seq<byte>)
    requires |u| == |v| == 8
    requires u[0] == v[0] && u[1] == v[1] && u[2] == v[2] && u[3] == v[3] && u[4] == v[4] && u[5] == v[5] && u[6] == v[6] && u[7] == v[7]
    ensures u == v
  {
  }

  lemma FourDigits(d: seq<byte>)
    requires |d| >= 4
    ensures DigitBits(d[..4]) == Sextet(Six(d[0])) + Sextet(Six(d[1])) + Sextet(Six(d[2])) + Sextet(Six(d[3]))
  {
    DigitBitsUnfold(d[..4]);
    DigitBitsUnfold(d[1..4]);
    DigitBitsUnfold(d[2..4]);
    DigitBitsUnfold(d[3..4]);
    assert d[..4][1..] == d[1..4] && d[1..4][1..] == d[2..4] && d[2..4][1..] == d[3..4] && d[3..4][1..] == [];
  }

  lemma DigitBitsUnfold(d: seq<byte>)
    requires d != []
    ensures DigitBits(d) == Sextet(Six(d[0])) + DigitBits(d[1..])
  {
  }

  lemma OctetBitsUnfold(s: seq<byte>)
    requires s != []
    ensures OctetBits(s) == Octet(s[0]) + OctetBits(s[1..])
  {
  }

  lemma ThreeOctets(a: byte, b: byte, c: byte)
    ensures OctetBits([a, b, c]) == Octet(a) + Octet(b) + Octet(c)
    ensures OctetBits([a, b]) == Octet(a) + Octet(b)
    ensures OctetBits([a]) == Octet(a)
  {
    OctetBitsUnfold([a, b, c]);
    OctetBitsUnfold([b, c]);
    OctetBitsUnfold([c]);
    OctetBitsUnfold([a, b]);
    OctetBitsUnfold([b]);
    OctetBitsUnfold([a]);
    assert [a, b, c][1..] == [b, c] && [b, c][1..] == [c] && [c][1..] == [] && [a, b][1..] == [b] && [b][1..] == [] && [a][1..] == [];
  }

  lemma FullGroupBits(d: seq<byte>)
    requires |d| >= 4 && IsDigit(d[0]) && IsDigit(d[1]) && IsDigit(d[2]) && IsDigit(d[3])
    ensures OctetBits(FullGroup(d)) == DigitBits(d[..4])
  {
    var p, q, r, s := Six(d[0]), Six(d[1]), Six(d[2]), Six(d[3]);
    Byte0Bits(p, q);
    Byte1Bits(q, r);
    Byte2Bits(r, s);
    ThreeOctets(Byte0(p, q), Byte1(q, r), Byte2(r, s));
    FourDigits(d);
    Regroup(Sextet(p), Sextet(q), Sextet(r), Sextet(s));
  }

  lemma Regroup(p: seq<byte>, q: seq<byte>, r: seq<byte>, s: seq<byte>)
    requires |q| >= 2 && |r| >= 4
    ensures (p + q[..2]) + (q[2..] + r[..4]) + (r[4..] + s) == p + q + r + s
  {
  }

  lemma TwoDigits(a: byte, b: byte)
    ensures DigitBits([a, b]) == Sextet(Six(a)) + Sextet(Six(b))
  {
    DigitBitsUnfold([a, b]);
    DigitBitsUnfold([b]);
    assert [a, b][1..] == [b] && [b][1..] == [];
  }

  lemma ThreeDigits(a: byte, b: byte, c: byte)
    ensures DigitBits([a, b, c]) == Sextet(Six(a)) + Sextet(Six(b)) + Sextet(Six(c))
  {
    DigitBitsUnfold([a, b, c]);
    TwoDigits(b, c);
    assert [a, b, c][1..] == [b, c];
  }

  lemma TwoDigitGroup(a: byte, b: byte)
    requires IsDigit(a) && IsDigit(b)
    ensures OctetBits(LastGroup([a, b])) == Sextet(Six(a)) + Sextet(Six(b))[..2]
  {
    Byte0Bits(Six(a), Six(b));
    ThreeOctets(Byte0(Six(a), Six(b)), 0, 0);
  }

  lemma ThreeDigitGroup(a: byte, b: byte, c: byte)
    requires IsDigit(a) && IsDigit(b) && IsDigit(c)
    ensures OctetBits(LastGroup([a, b, c])) == Sextet(Six(a)) + Sextet(Six(b)) + Sextet(Six(c))[..4]
  {
    Byte0Bits(Six(a), Six(b));
    Byte1Bits(Six(b), Six(c));
    ThreeOctets(Byte0(Six(a), Six(b)), Byte1(Six(b), Six(c)), 0);
    RegroupTwo(Sextet(Six(a)), Sextet(Six(b)), Sextet(Six(c)));
  }

  lemma RegroupTwo(p: seq<byte>, q: seq<byte>, r: seq<byte>)
    requires |q| >= 2 && |r| >= 4
    ensures (p + q[..2]) + (q[2..] + r[..4]) == p + q + r[..4]
  {
  }

  lemma PrefixOfSum(p: seq<byte>, q: seq<byte>, n: nat)
    requires n <= |q|
    ensures p + q[..n] <= p + q
  {
  }

  lemma TwoDigitsPrefix(a: byte, b: byte)
    requires IsDigit(a) && IsDigit(b)
    ensures OctetBits(LastGroup([a, b])) <= DigitBits([a, b])
  {
    TwoDigits(a, b);
    TwoDigitGroup(a, b);
    PrefixOfSum(Sextet(Six(a)), Sextet(Six(b)), 2);
  }

  lemma ThreeDigitsPrefix(a: byte, b: byte, c: byte)
    requires IsDigit(a) && IsDigit(b) && IsDigit(c)
    ensures OctetBits(LastGroup([a, b, c])) <= DigitBits([a, b, c])
  {
    ThreeDigits(a, b, c);
    ThreeDigitGroup(a, b, c);
    PrefixOfSum(Sextet(Six(a)) + Sextet(Six(b)), Sextet(Six(c)), 4);
  }

  lemma LastGroupBits(d: seq<byte>)
    requires |d| <= 3 && forall i :: 0 <= i < |d| ==> IsDigit(d[i])
    ensures OctetBits(LastGroup(d)) <= DigitBits(d)
  {
    if |d| == 2 {
      AsTwo(d, d[0], d[1]);
      TwoDigitsPrefix(d[0], d[1]);
    } else if |d| == 3 {
      AsThree(d, d[0], d[1], d[2]);
      ThreeDigitsPrefix(d[0], d[1], d[2]);
    } else {
      NoGroup(d);
    }
  }

  lemma AsTwo(d: seq<byte>, p: byte, q: byte)
    requires |d| == 2 && p == d[0] && q == d[1]
    ensures d == [p, q]
  {
  }

  lemma AsThree(d: seq<byte>, p: byte, q: byte, r: byte)
    requires |d| == 3 && p == d[0] && q == d[1] && r == d[2]
    ensures d == [p, q, r]
  {
  }

  lemma NoGroup(d: seq<byte>)
    requires |d| <= 1
    ensures LastGroup(d) == [] && OctetBits(LastGroup(d)) == []
  {
    assert LastGroup(d) == [];
  }

  /* Decoding any run of digits, well-formed or not, gives the whole octets of their bits. */
  lemma {:induction false} BytesAreBits(d: seq<byte>)
    requires forall i :: 0 <= i < |d| ==> IsDigit(d[i])
    ensures OctetBits(Bytes(d)) <= DigitBits(d) && |Bytes(d)| == |d| * 6 / 8
  {
    BytesLength(d);
    if |d| > 4 {
      BytesAreBits(d[4..]);
      FullGroupBits(d);
      OctetBitsConcat(FullGroup(d), Bytes(d[4..]));
      DigitBitsConcat(d[..4], d[4..]);
      assert d == d[..4] + d[4..];
    } else if |d| == 4 {
      FullGroupBits(d);
      assert LastGroup(d) == FullGroup(d);
      assert d[..4] == d;
    } else {
      LastGroupBits(d);
    }
  }

  function Zeros(n: nat): seq<byte> { seq(n, _ => 0) }

  lemma Digit1Pad(a: byte)
    ensures Sextet(Digit1(a, 0))[2..] == Zeros(4)
  {
    assert Digit1(a, 0) & 15 == 0;
  }

  lemma Digit2Pad(b: byte)
    ensures Sextet(Digit2(b, 0))[4..] == Zeros(2)
  {
    assert Digit2(b, 0) & 3 == 0;
  }

  /* The bits of an encoding's digits that no byte fills. */
  function Slack(s: seq<byte>): int {
    |Unpadded(s)| * 6 - |s| * 8
  }

  lemma {:induction false} SlackIsSmall(s: seq<byte>)
    ensures 0 <= Slack(s) < 6
  {
    if |s| >= 3 {
      SlackIsSmall(s[3..]);
      SameSlack(s);
    }
  }

  lemma SameSlack(s: seq<byte>)
    requires |s| >= 3
    ensures Slack(s) == Slack(s[3..])
  {
  }

  /* An encoding's digits are the bits of the bytes, filled up with zeros to the next digit. */
  lemma {:induction false} UnpaddedBits(s: seq<byte>)
    ensures 0 <= Slack(s) < 6 && DigitBits(Unpadded(s)) == OctetBits(s) + Zeros(Slack(s))
  {
    SlackIsSmall(s);
    if |s| == 0 {
      assert Zeros(0) == [];
    } else if |s| == 1 {
      assert s == [s[0]];
      OneByteBits(s[0]);
    } else if |s| == 2 {
      assert s == [s[0], s[1]];
      TwoByteBits(s[0], s[1]);
    } else {
      UnpaddedBits(s[3..]);
      SameSlack(s);
      GroupThenBits(s);
      MoreBits(OctetBits(s[..3]), OctetBits(s[3..]), DigitBits(Unpadded(s[3..])), Slack(s));
    }
  }

  lemma MoreBits(first: seq<byte>, octets: seq<byte>, digits: seq<byte>, pad: int)
    requires pad >= 0 && digits == octets + Zeros(pad)
    ensures first + digits == (first + octets) + Zeros(pad)
  {
  }

  lemma GroupThenBits(s: seq<byte>)
    requires |s| >= 3
    ensures DigitBits(Unpadded(s)) == OctetBits(s[..3]) + DigitBits(Unpadded(s[3..]))
    ensures OctetBits(s) == OctetBits(s[..3]) + OctetBits(s[3..])
  {
    var g := Group(s[0], s[1], s[2]);
    SplitThree(s);
    GroupBits(s[0], s[1], s[2]);
    SplitBits(g, Unpadded(s[3..]), s[..3], s[3..]);
  }

  lemma SplitThree(s: seq<byte>)
    requires |s| >= 3
    ensures s == s[..3] + s[3..] && s[..3] == [s[0], s[1], s[2]]
  {
  }

  lemma SplitBits(g: seq<byte>, u: seq<byte>, s: seq<byte>, t: seq<byte>)
    ensures DigitBits(g + u) == DigitBits(g) + DigitBits(u) && OctetBits(s + t) == OctetBits(s) + OctetBits(t)
  {
    DigitBitsConcat(g, u);
    OctetBitsConcat(s, t);
  }

  lemma GroupBits(a: byte, b: byte, c: byte)
    ensures DigitBits(Group(a, b, c)) == OctetBits([a, b, c])
  {
    var g := Group(a, b, c);
    assert g[..4] == g;
    GroupBytes(a, b, c, g);
    GroupInverse(a, b, c);
    BasisIsDigit(Digit0(a));
    BasisIsDigit(Digit1(a, b));
    BasisIsDigit(Digit2(b, c));
    BasisIsDigit(Digit3(c));
    FullGroupBits(g);
  }

  lemma OneByteBits(a: byte)
    ensures DigitBits([Basis(Digit0(a)), Basis(Digit1(a, 0))]) == OctetBits([a]) + Zeros(4)
  {
    var p, q := Basis(Digit0(a)), Basis(Digit1(a, 0));
    GroupInverse(a, 0, 0);
    BasisIsDigit(Digit0(a));
    BasisIsDigit(Digit1(a, 0));
    SixOfBasis(Digit1(a, 0));
    TwoDigits(p, q);
    TwoDigitGroup(p, q);
    LastBytes(a, 0);
    Digit1Pad(a);
    SplitLast(Sextet(Six(p)), Sextet(Six(q)), 2);
  }

  lemma TwoByteBits(a: byte, b: byte)
    ensures DigitBits([Basis(Digit0(a)), Basis(Digit1(a, b)), Basis(Digit2(b, 0))]) == OctetBits([a, b]) + Zeros(2)
  {
    var p, q, r := Basis(Digit0(a)), Basis(Digit1(a, b)), Basis(Digit2(b, 0));
    GroupInverse(a, b, 0);
    BasisIsDigit(Digit0(a));
    BasisIsDigit(Digit1(a, b));
    BasisIsDigit(Digit2(b, 0));
    SixOfBasis(Digit2(b, 0));
    ThreeDigits(p, q, r);
    ThreeDigitGroup(p, q, r);
    LastBytes(a, b);
    Digit2Pad(b);
    SplitLast(Sextet(Six(p)) + Sextet(Six(q)), Sextet(Six(r)), 4);
  }

  lemma SplitLast(p: seq<byte>, q: seq<byte>, n: nat)
    requires n <= |q|
    ensures p + q == (p + q[..n]) + q[n..]
  {
  }

  // ----- The code.

  /* The same from `p` on. */
  ghost predicate Same(s: seq<byte>, t: seq<byte>, p: nat) {
    |s| == |t| && forall j {:trigger s[j]} {:trigger t[j]} :: p <= j < |s| ==> s[j] == t[j]
  }

  /* Base64encode: the text, its final NUL, and nothing else. */
  method Base64Encode(encoded: array<byte>, input: seq<byte>) returns (written: nat)
    requires encoded.Length >= EncodeLen(|input|)
    modifies encoded
    ensures written == EncodeLen(|input|) && encoded[..written] == Encode(input) + [NUL]
    ensures Same(encoded[..], old(encoded[..]), written)
  {
    EncodeLength(input);
    var i, p := EncodeGroups(encoded, input);
    p := EncodeLast(encoded, p, input[i..]);
    encoded[p] := NUL;
    written := p + 1;
  }

  /* The loop over whole groups. */
  method EncodeGroups(encoded: array<byte>, input: seq<byte>) returns (i: nat, p: nat)
    requires encoded.Length > |Encode(input)|
    modifies encoded
    ensures i <= |input| <= i + 2
    ensures p + |Encode(input[i..])| == |Encode(input)| && encoded[..p] + Encode(input[i..]) == Encode(input)
    ensures Same(encoded[..], old(encoded[..]), p)
  {
    i, p := 0, 0;
    assert input[0..] == input;
    while i < |input| - 2
      invariant 0 <= i <= |input| && p + |Encode(input[i..])| == |Encode(input)|
      invariant encoded[..p] + Encode(input[i..]) == Encode(input)
      invariant Same(encoded[..], old(encoded[..]), p)
    {
      EncodeGroup(input, i);
      ghost var done := encoded[..p];
      var g := Group(input[i], input[i + 1], input[i + 2]);
      WriteFour(encoded, p, g);
      Associate(done, g, Encode(input[i + 3..]));
      p := p + 4;
      i := i + 3;
    }
  }

  lemma Associate(a: seq<byte>, b: seq<byte>, c: seq<byte>)
    ensures a + (b + c) == (a + b) + c
  {
  }

  /* What follows the loop: one byte, two, or none. */
  method EncodeLast(encoded: array<byte>, p: nat, rest: seq<byte>) returns (p': nat)
    requires |rest| <= 2 && p + |Encode(rest)| <= encoded.Length
    modifies encoded
    ensures p' == p + |Encode(rest)| && encoded[..p'] == old(encoded[..p]) + Encode(rest)
    ensures Same(encoded[..], old(encoded[..]), p')
  {
    p' := p;
    if |rest| > 0 {
      if |rest| == 1 {
        WriteFour(encoded, p, [Basis(Digit0(rest[0])), Basis(Digit1(rest[0], 0)), PAD, PAD]);
      } else {
        WriteFour(encoded, p, [Basis(Digit0(rest[0])), Basis(Digit1(rest[0], rest[1])), Basis(Digit2(rest[1], 0)), PAD]);
      }
      p' := p + 4;
    }
  }

  lemma EncodeGroup(s: seq<byte>, i: nat)
    requires i + 2 < |s|
    ensures Encode(s[i..]) == Group(s[i], s[i + 1], s[i + 2]) + Encode(s[i + 3..])
  {
    assert s[i..][3..] == s[i + 3..];
  }

  method WriteFour(a: array<byte>, p: nat, g: seq<byte>)
    requires |g| == 4 && p + 4 <= a.Length
    modifies a
    ensures a[..p + 4] == old(a[..p]) + g && Same(a[..], old(a[..]), p + 4)
  {
    a[p] := g[0];
    a[p + 1] := g[1];
    a[p + 2] := g[2];
    a[p + 3] := g[3];
  }

  /* The scan both decoding functions start with; the text ends with a NUL, or any non-digit. */
  method ScanDigits(coded: seq<byte>) returns (n: nat)
    requires NUL in coded
    ensures n == |Digits(coded)|
  {
    n := 0;
    while IsDigit(coded[n])
      invariant 0 <= n < |coded| && NUL in coded[n..]
      invariant forall j :: 0 <= j < n ==> IsDigit(coded[j])
      decreases |coded| - n
    {
      assert coded[n..] == [coded[n]] + coded[n + 1..];
      n := n + 1;
    }
    assert coded == coded[..n] + coded[n..];
    DigitsOf(coded[..n], coded[n..]);
  }

  method Base64DecodeLen(coded: seq<byte>) returns (len: nat)
    requires NUL in coded
    ensures len == DecodeLen(coded) && |Decode(coded)| + 1 <= len
  {
    var n := ScanDigits(coded);
    len := (n + 3) / 4 * 3 + 1;
    BytesLength(Digits(coded));
  }

  /* Base64decode: for every terminated text it writes the decoded bytes, a NUL and nothing else,
     within Base64decode_len, and returns the number of bytes before the NUL. */
  method Base64Decode(plain: array<byte>, coded: seq<byte>) returns (decoded: int)
    requires NUL in coded && plain.Length >= DecodeLen(coded)
    modifies plain
    ensures decoded == |Decode(coded)| < DecodeLen(coded)
    ensures plain[..decoded + 1] == Decode(coded) + [NUL]
    ensures Same(plain[..], old(plain[..]), decoded + 1)
  {
    var n := ScanDigits(coded);
    var d := coded[..n];
    assert d == Digits(coded);
    BytesLength(d);
    decoded := (n + 3) / 4 * 3;
    var i, p := DecodeGroups(plain, d);
    n := n - i;
    p := DecodeLast(plain, p, LastGroup(d[i..]));
    plain[p] := NUL;
    DecodedCount(|d|, i, n);
    decoded := decoded - (4 - n) % 4;
  }

  lemma DecodedCount(d: nat, i: nat, n: nat)
    requires i % 4 == 0 && d == i + n && n <= 4 && (n == 0 ==> i == 0)
    ensures (d + 3) / 4 * 3 - (4 - n) % 4 == d * 6 / 8
  {
    var q := i / 4;
    assert d == 4 * q + n;
    WholeGroups(q, n);
  }

  lemma WholeGroups(q: nat, n: nat)
    requires n <= 4
    ensures (4 * q + n + 3) / 4 == q + (n + 3) / 4 && (4 * q + n) * 6 / 8 == 3 * q + n * 6 / 8
    ensures n > 0 ==> (n + 3) / 4 * 3 - (4 - n) % 4 == n * 6 / 8
  {
  }

  /* The loop over groups that are not the last. */
  method DecodeGroups(plain: array<byte>, d: seq<byte>) returns (i: nat, p: nat)
    requires plain.Length > |Bytes(d)|
    modifies plain
    ensures i <= |d| <= i + 4 && i % 4 == 0 && (i == |d| ==> i == 0)
    ensures p + |Bytes(d[i..])| == |Bytes(d)| && plain[..p] + Bytes(d[i..]) == Bytes(d)
    ensures Same(plain[..], old(plain[..]), p)
  {
    i, p := 0, 0;
    assert d[0..] == d;
    while |d| - i > 4
      invariant 0 <= i <= |d| && i % 4 == 0 && (i == |d| ==> i == 0)
      invariant p <= plain.Length && Partly(plain[..p], d, i)
      invariant Same(plain[..], old(plain[..]), p)
    {
      DecodeStep(plain[..p], d, i);
      WriteThree(plain, p, FullGroup(d[i..]));
      i, p := i + 4, p + 3;
    }
  }

  /* The first i digits are decoded. */
  ghost predicate Partly(done: seq<byte>, d: seq<byte>, i: nat) {
    i <= |d| && done + Bytes(d[i..]) == Bytes(d)
  }

  lemma DecodeStep(done: seq<byte>, d: seq<byte>, i: nat)
    requires i + 4 < |d| && Partly(done, d, i)
    ensures Partly(done + FullGroup(d[i..]), d, i + 4) && |done| + 3 <= |Bytes(d)|
  {
    assert d[i..][4..] == d[i + 4..];
    Associate(done, FullGroup(d[i..]), Bytes(d[i + 4..]));
  }

  method WriteThree(a: array<byte>, p: nat, g: seq<byte>)
    requires |g| == 3 && p + 3 <= a.Length
    modifies a
    ensures a[..p + 3] == old(a[..p]) + g && Same(a[..], old(a[..]), p + 3)
  {
    a[p] := g[0];
    a[p + 1] := g[1];
    a[p + 2] := g[2];
  }

  /* The three tests after the loop. */
  method DecodeLast(a: array<byte>, p: nat, last: seq<byte>) returns (p': nat)
    requires |last| <= 3 && p + |last| <= a.Length
    modifies a
    ensures p' == p + |last| && a[..p'] == old(a[..p]) + last && Same(a[..], old(a[..]), p')
  {
    p' := p;
    if |last| > 0 {
      a[p'] := last[0];
      p' := p' + 1;
    }
    if |last| > 1 {
      a[p'] := last[1];
      p' := p' + 1;
    }
    if |last| > 2 {
      a[p'] := last[2];
      p' := p' + 1;
    }
  }
}
