/**
 String literals: valueToQuotedString's escaping, decodeString with its \u escapes and
 surrogate pairs, and codePointToUTF8.
 */
module JsonString {
  import opened Options
  import opened JsonLexer

  const BACKSPACE: char := 8 as char
  const FORM_FEED: char := 12 as char

  // ----- Hexadecimal digits.

  function HexDigit(d: nat): char
    requires d < 16
  {
    if d < 10 then '0' + d as char else 'A' + (d - 10) as char
  }

  predicate IsHexDigit(c: char) {
    '0' <= c <= '9' || 'a' <= c <= 'f' || 'A' <= c <= 'F'
  }

  function HexValue(c: char): (v: nat)
    requires IsHexDigit(c)
    ensures v < 16
  {
    if '0' <= c <= '9' then c as int - '0' as int
    else if 'a' <= c <= 'f' then c as int - 'a' as int + 10
    else c as int - 'A' as int + 10
  }

  function Hex4(n: nat): string
    requires n < 0x10000
  {
    [HexDigit(n / 4096), HexDigit(n / 256 % 16), HexDigit(n / 16 % 16), HexDigit(n % 16)]
  }

  /* A hexadecimal digit of either case. */
  predicate IsHexOf(c: char, d: nat) {
    d < 16 && (c == HexDigit(d) || (d >= 10 && c == 'a' + (d - 10) as char))
  }

  /* Four hexadecimal digits of this number, each in either case. */
  predicate SpellsHex(h: string, n: nat) {
    |h| == 4 && n < 0x10000 &&
    IsHexOf(h[0], n / 4096) && IsHexOf(h[1], n / 256 % 16) && IsHexOf(h[2], n / 16 % 16) && IsHexOf(h[3], n % 16)
  }

  // ----- UTF-8.

  function ByteChar(b: nat): char
    requires b < 256
  {
    b as char
  }

  /* codePointToUTF8: bytes as characters; nothing beyond U+10FFFF. */
  function Utf8(cp: nat): string {
    if cp <= 0x7f then [ByteChar(cp)]
    else if cp <= 0x7ff then [ByteChar(0xC0 + cp / 64 % 32), ByteChar(0x80 + cp % 64)]
    else if cp <= 0xffff then [ByteChar(0xE0 + cp / 4096 % 16), ByteChar(0x80 + cp / 64 % 64), ByteChar(0x80 + cp % 64)]
    else if cp <= 0x10ffff then
      [ByteChar(0xF0 + cp / 262144 % 8), ByteChar(0x80 + cp / 4096 % 64), ByteChar(0x80 + cp / 64 % 64), ByteChar(0x80 + cp % 64)]
    else []
  }

  /* Continuation byte. */
  predicate IsContinuation(c: char) { 0x80 <= c as int <= 0xBF }

  function Payload(c: char): int { c as int - 0x80 }

  /* The scalar value at the head of a text, by the byte ranges of section 4 of RFC 3629. */
  function DecodeUtf8(s: string): Option<(nat, nat)> {
    if s == [] then None
    else
      var b := s[0] as int;
      if b <= 0x7f then Some((b, 1))
      else if 0xC2 <= b <= 0xDF && |s| >= 2 && IsContinuation(s[1]) then Some(((b - 0xC0) * 64 + Payload(s[1]), 2))
      else if 0xE0 <= b <= 0xEF && |s| >= 3 && IsContinuation(s[1]) && IsContinuation(s[2])
           && (b == 0xE0 ==> s[1] as int >= 0xA0) && (b == 0xED ==> s[1] as int <= 0x9F) then
        Some(((b - 0xE0) * 4096 + Payload(s[1]) * 64 + Payload(s[2]), 3))
      else if 0xF0 <= b <= 0xF4 && |s| >= 4 && IsContinuation(s[1]) && IsContinuation(s[2]) && IsContinuation(s[3])
           && (b == 0xF0 ==> s[1] as int >= 0x90) && (b == 0xF4 ==> s[1] as int <= 0x8F) then
        Some(((b - 0xF0) * 262144 + Payload(s[1]) * 4096 + Payload(s[2]) * 64 + Payload(s[3]), 4))
      else None
  }

  /* A Unicode scalar value: a code point that is not a surrogate. */
  predicate IsScalar(cp: nat) {
    cp <= 0x10ffff && !(0xD800 <= cp <= 0xDFFF)
  }

  lemma Utf8Two(cp: nat, rest: string)
    requires 0x80 <= cp <= 0x7ff
    ensures DecodeUtf8(Utf8(cp) + rest) == Some((cp, 2))
  {
    var h, l := cp / 64, cp % 64;
    assert cp == 64 * h + l && 2 <= h < 32;
    var s := Utf8(cp) + rest;
    assert s[0] as int == 0xC0 + h && s[1] as int == 0x80 + l;
  }

  lemma Utf8Three(cp: nat, rest: string)
    requires 0x800 <= cp <= 0xffff && IsScalar(cp)
    ensures DecodeUtf8(Utf8(cp) + rest) == Some((cp, 3))
  {
    var h, m, l := cp / 4096, cp / 64 % 64, cp % 64;
    assert cp == 4096 * h + 64 * m + l by { assert cp / 64 == 64 * (cp / 64 / 64) + m; }
    assert h < 16;
    var s := Utf8(cp) + rest;
    assert s[0] as int == 0xE0 + h && s[1] as int == 0x80 + m && s[2] as int == 0x80 + l;
  }

  lemma Utf8Four(cp: nat, rest: string)
    requires 0x10000 <= cp <= 0x10ffff
    ensures DecodeUtf8(Utf8(cp) + rest) == Some((cp, 4))
  {
    var h, m, n, l := cp / 262144, cp / 4096 % 64, cp / 64 % 64, cp % 64;
    assert cp == 262144 * h + 4096 * m + 64 * n + l by {
      assert cp / 64 == 64 * (cp / 64 / 64) + n;
      assert cp / 4096 == 64 * (cp / 4096 / 64) + m;
    }
    assert h < 5;
    var s := Utf8(cp) + rest;
    assert s[0] as int == 0xF0 + h && s[1] as int == 0x80 + m && s[2] as int == 0x80 + n && s[3] as int == 0x80 + l;
  }

  /* codePointToUTF8 writes the one well-formed encoding of every scalar value. */
  lemma Utf8IsWellFormed(cp: nat, rest: string)
    requires IsScalar(cp)
    ensures DecodeUtf8(Utf8(cp) + rest) == Some((cp, |Utf8(cp)|))
  {
    if 0x80 <= cp <= 0x7ff {
      Utf8Two(cp, rest);
    } else if 0x800 <= cp <= 0xffff {
      Utf8Three(cp, rest);
    } else if 0x10000 <= cp {
      Utf8Four(cp, rest);
    }
  }

  // ----- Decoding.

  /* Four hexadecimal digits at the head of `b`. */
  function HexAt(b: string): Option<nat> {
    if |b| >= 4 && IsHexDigit(b[0]) && IsHexDigit(b[1]) && IsHexDigit(b[2]) && IsHexDigit(b[3])
    then Some(4096 * HexValue(b[0]) + 256 * HexValue(b[1]) + 16 * HexValue(b[2]) + HexValue(b[3]))
    else None
  }

  datatype CodePoint = BadCodePoint | CodePoint(cp: nat, length: nat)

  /* decodeUnicodeCodePoint, after the \u: the code point and the characters it takes. */
  function CodePointAt(b: string): (r: CodePoint)
    ensures r.CodePoint? ==> r.length <= |b|
  {
    match HexAt(b)
    case None => BadCodePoint
    case Some(u) =>
      if 0xD800 <= u <= 0xDBFF then
        (if |b| >= 10 && b[4] == '\\' && b[5] == 'u' then
           match HexAt(b[6..])
           case None => BadCodePoint
           case Some(w) => CodePoint(0x10000 + u % 1024 * 1024 + w % 1024, 10)
         else BadCodePoint)
      else CodePoint(u, 4)
  }

  /* The character that a one-letter escape stands for. */
  function SimpleEscape(e: char): Option<char> {
    match e
    case '"' => Some('"')
    case '/' => Some('/')
    case '\\' => Some('\\')
    case 'b' => Some(BACKSPACE)
    case 'f' => Some(FORM_FEED)
    case 'n' => Some('\n')
    case 'r' => Some('\r')
    case 't' => Some('\t')
    case _ => None
  }

  function Prepend(s: string, r: Option<string>): Option<string> {
    match r
    case None => None
    case Some(t) => Some(s + t)
  }

  /* decodeString on the text between the quotes. */
  function DecodeBody(b: string): Option<string>
    decreases |b|
  {
    if b == [] || b[0] == '"' then Some([])
    else if b[0] != '\\' then Prepend([b[0]], DecodeBody(b[1..]))
    else if |b| == 1 then None
    else if b[1] == 'u' then
      match CodePointAt(b[2..])
      case BadCodePoint => None
      case CodePoint(cp, length) => Prepend(Utf8(cp), DecodeBody(b[2 + length..]))
    else
      match SimpleEscape(b[1])
      case None => None
      case Some(c) => Prepend([c], DecodeBody(b[2..]))
  }

  /* decodeString on a whole token. */
  function DecodeString(text: string): Option<string> {
    if |text| < 2 then None else DecodeBody(text[1..|text| - 1])
  }

  // ----- Escaping.

  predicate IsControl(c: char) {
    0 < c as int <= 0x1f
  }

  function EscapeChar(c: char): string {
    if c == '"' then "\\\""
    else if c == '\\' then "\\\\"
    else if c == BACKSPACE then "\\b"
    else if c == FORM_FEED then "\\f"
    else if c == '\n' then "\\n"
    else if c == '\r' then "\\r"
    else if c == '\t' then "\\t"
    else if IsControl(c) then "\\u" + Hex4(c as int)
    else [c]
  }

  function Escape(s: string): string {
    if s == [] then [] else EscapeChar(s[0]) + Escape(s[1..])
  }

  lemma {:induction false} EscapeConcat(s: string, t: string)
    ensures Escape(s + t) == Escape(s) + Escape(t)
    decreases |s|
  {
    if s == [] {
      assert s + t == t;
    } else {
      assert (s + t)[1..] == s[1..] + t;
      EscapeConcat(s[1..], t);
    }
  }

  // ----- A quoted string is one token and decodes to itself.

  lemma ScanHex(n: nat, rest: string)
    requires n < 0x10000
    ensures ScanString(Hex4(n) + rest) == ScanString(rest)
  {
    var s := Hex4(n) + rest;
    assert s[1..][1..][1..][1..] == rest;
    assert ScanString(s) == ScanString(s[1..]);
    assert ScanString(s[1..]) == ScanString(s[1..][1..]);
    assert ScanString(s[1..][1..]) == ScanString(s[1..][1..][1..]);
  }

  lemma ScanEscapeChar(c: char, rest: string)
    ensures ScanString(EscapeChar(c) + rest) == ScanString(rest)
  {
    var s := EscapeChar(c) + rest;
    if |EscapeChar(c)| == 1 {
      assert s[1..] == rest;
    } else if |EscapeChar(c)| == 2 {
      assert s[2..] == rest;
    } else {
      assert s[2..] == Hex4(c as int) + rest;
      ScanHex(c as int, rest);
    }
  }

  lemma {:induction false} ScanEscape(s: string, rest: string)
    ensures ScanString(Escape(s) + rest) == ScanString(rest)
    decreases |s|
  {
    if s == [] {
      assert Escape(s) + rest == rest;
    } else {
      assert Escape(s) + rest == EscapeChar(s[0]) + (Escape(s[1..]) + rest);
      ScanEscapeChar(s[0], Escape(s[1..]) + rest);
      ScanEscape(s[1..], rest);
    }
  }

  /* Tokenised to exactly its own closing quote, whatever follows. */
  lemma QuotedStringEmits(s: string)
    ensures EmitsFirmly(Quoted(Escape(s)), [Token(StringToken, Quoted(Escape(s)))])
  {
    forall rest ensures ScanString(Escape(s) + rest) == ScanString(rest) {
      ScanEscape(s, rest);
    }
    QuotedEmits(Escape(s));
  }

  lemma HexDigitValue(c: char, d: nat)
    requires IsHexOf(c, d)
    ensures IsHexDigit(c) && HexValue(c) == d
  {
  }

  lemma HexOfSpelling(h: string, n: nat, rest: string)
    requires SpellsHex(h, n)
    ensures HexAt(h + rest) == Some(n)
  {
    HexDigitValue(h[0], n / 4096);
    HexDigitValue(h[1], n / 256 % 16);
    HexDigitValue(h[2], n / 16 % 16);
    HexDigitValue(h[3], n % 16);
    HexDigitsSum(n);
    var s := h + rest;
    assert s[0] == h[0] && s[1] == h[1] && s[2] == h[2] && s[3] == h[3];
  }

  lemma Hex4Spells(n: nat)
    requires n < 0x10000
    ensures SpellsHex(Hex4(n), n)
  {
  }

  lemma HexDigitsSum(n: nat)
    requires n < 0x10000
    ensures 4096 * (n / 4096) + 256 * (n / 256 % 16) + 16 * (n / 16 % 16) + n % 16 == n
  {
    assert n == 16 * (n / 16) + n % 16;
    assert n / 16 == 16 * (n / 256) + n / 16 % 16;
    assert n / 256 == 16 * (n / 4096) + n / 256 % 16;
  }

  lemma DecodeUnicodeEscape(h: string, n: nat, b: string)
    requires SpellsHex(h, n) && !(0xD800 <= n <= 0xDBFF)
    ensures DecodeBody("\\u" + h + b) == Prepend(Utf8(n), DecodeBody(b))
  {
    var s := "\\u" + h + b;
    assert s[2..] == h + b;
    HexOfSpelling(h, n, b);
    assert s[6..] == b;
  }

  lemma DecodePlain(c: char, b: string)
    requires c != '"' && c != '\\'
    ensures DecodeBody([c] + b) == Prepend([c], DecodeBody(b))
  {
    assert ([c] + b)[1..] == b;
  }

  lemma DecodeSimple(e: char, b: string)
    requires SimpleEscape(e).Some?
    ensures DecodeBody(['\\', e] + b) == Prepend([SimpleEscape(e).value], DecodeBody(b))
  {
    assert (['\\', e] + b)[2..] == b;
    DecodeSimpleAt(['\\', e] + b, SimpleEscape(e).value);
  }

  lemma DecodeSimpleAt(s: string, c: char)
    requires |s| >= 2 && s[0] == '\\' && SimpleEscape(s[1]) == Some(c)
    ensures DecodeBody(s) == Prepend([c], DecodeBody(s[2..]))
  {
  }

  lemma DecodeEscapeChar(c: char, b: string)
    requires c != '\0'
    ensures DecodeBody(EscapeChar(c) + b) == Prepend([c], DecodeBody(b))
  {
    if |EscapeChar(c)| == 1 {
      DecodePlain(c, b);
    } else if |EscapeChar(c)| == 2 {
      DecodeSimple(EscapeChar(c)[1], b);
    } else {
      assert EscapeChar(c) + b == "\\u" + Hex4(c as int) + b;
      Hex4Spells(c as int);
      DecodeUnicodeEscape(Hex4(c as int), c as int, b);
      assert Utf8(c as int) == [c];
    }
  }

  lemma {:induction false} DecodeEscape(s: string)
    requires '\0' !in s
    ensures DecodeBody(Escape(s)) == Some(s)
    decreases |s|
  {
    if s != [] {
      DecodeEscape(s[1..]);
      DecodeEscapeChar(s[0], Escape(s[1..]));
      assert s == [s[0]] + s[1..];
    }
  }

  /* decodeString inverts valueToQuotedString on every NUL-free string. */
  lemma DecodeQuoted(s: string)
    requires '\0' !in s
    ensures DecodeString(Quoted(Escape(s))) == Some(s)
  {
    DecodeEscape(s);
    var q := Quoted(Escape(s));
    assert q[1..|q| - 1] == Escape(s);
  }

  // ----- Scalar values written as \u escapes, with surrogate pairs (section 2.1 of RFC 2781).

  /* The text is a \u escape of this scalar value, or a pair of them. */
  ghost predicate EscapesScalar(e: string, cp: nat) {
    IsScalar(cp) &&
    if cp < 0x10000 then |e| == 6 && e[..2] == "\\u" && SpellsHex(e[2..], cp)
    else
      && |e| == 12 && e[..2] == "\\u" && SpellsHex(e[2..6], 0xD800 + (cp - 0x10000) / 1024)
      && e[6..8] == "\\u" && SpellsHex(e[8..], 0xDC00 + (cp - 0x10000) % 1024)
  }

  function Concat(es: seq<string>): string {
    if es == [] then [] else es[0] + Concat(es[1..])
  }

  function Utf8All(cps: seq<nat>): string {
    if cps == [] then [] else Utf8(cps[0]) + Utf8All(cps[1..])
  }

  lemma SurrogatePairAt(h: string, hi: nat, l: string, lo: nat, b: string)
    requires SpellsHex(h, hi) && SpellsHex(l, lo) && 0xD800 <= hi <= 0xDBFF
    ensures CodePointAt(h + "\\u" + l + b) == CodePoint(0x10000 + hi % 1024 * 1024 + lo % 1024, 10)
  {
    var t := "\\u" + l + b;
    var s := h + "\\u" + l + b;
    assert s == h + t;
    HexOfSpelling(h, hi, t);
    assert s[6..] == l + b;
    HexOfSpelling(l, lo, b);
    assert s[4] == '\\' && s[5] == 'u';
  }

  lemma DecodeCodePoint(s: string, cp: nat, length: nat)
    requires |s| >= 2 && s[0] == '\\' && s[1] == 'u'
    requires CodePointAt(s[2..]) == CodePoint(cp, length)
    ensures DecodeBody(s) == Prepend(Utf8(cp), DecodeBody(s[2 + length..]))
  {
  }

  lemma SurrogateSplit(v: nat)
    requires v < 0x100000
    ensures (0xD800 + v / 1024) % 1024 == v / 1024 && (0xDC00 + v % 1024) % 1024 == v % 1024
    ensures v / 1024 * 1024 + v % 1024 == v
    ensures 0xD800 + v / 1024 <= 0xDBFF
  {
  }

  lemma DecodePair(h: string, hi: nat, l: string, lo: nat, b: string, cp: nat)
    requires SpellsHex(h, hi) && SpellsHex(l, lo) && 0xD800 <= hi <= 0xDBFF && cp == 0x10000 + hi % 1024 * 1024 + lo % 1024
    ensures DecodeBody("\\u" + h + "\\u" + l + b) == Prepend(Utf8(cp), DecodeBody(b))
  {
    SurrogatePairAt(h, hi, l, lo, b);
    var s := "\\u" + h + "\\u" + l + b;
    assert s[2..] == h + "\\u" + l + b;
    DecodeCodePoint(s, cp, 10);
    assert s[12..] == b;
  }

  lemma DecodeScalar(e: string, cp: nat, b: string)
    requires EscapesScalar(e, cp)
    ensures DecodeBody(e + b) == Prepend(Utf8(cp), DecodeBody(b))
  {
    if cp < 0x10000 {
      assert e == "\\u" + e[2..];
      DecodeUnicodeEscape(e[2..], cp, b);
    } else {
      var v := cp - 0x10000;
      SurrogateSplit(v);
      TwoEscapes(e, b);
      DecodePair(e[2..6], 0xD800 + v / 1024, e[8..], 0xDC00 + v % 1024, b, cp);
    }
  }

  lemma TwoEscapes(e: string, b: string)
    requires |e| == 12 && e[..2] == "\\u" && e[6..8] == "\\u"
    ensures e + b == "\\u" + e[2..6] + "\\u" + e[8..] + b
  {
    assert e == e[..2] + e[2..6] + e[6..8] + e[8..];
  }

  /* Any sequence of scalar values, escaped with digits of either case, decodes to its UTF-8 form. */
  lemma {:induction false} DecodeUnicodeEscapes(es: seq<string>, cps: seq<nat>)
    requires |es| == |cps| && forall i :: 0 <= i < |es| ==> EscapesScalar(es[i], cps[i])
    ensures DecodeBody(Concat(es)) == Some(Utf8All(cps))
    decreases |cps|
  {
    if cps != [] {
      DecodeUnicodeEscapes(es[1..], cps[1..]);
      DecodeScalar(es[0], cps[0], Concat(es[1..]));
    }
  }

  /* Every scalar value has such an escape. */
  function UnicodeEscape(cp: nat): (e: string)
    requires IsScalar(cp)
    ensures EscapesScalar(e, cp)
  {
    if cp < 0x10000 then "\\u" + Hex4(cp)
    else "\\u" + Hex4(0xD800 + (cp - 0x10000) / 1024) + "\\u" + Hex4(0xDC00 + (cp - 0x10000) % 1024)
  }
}
