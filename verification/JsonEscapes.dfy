/**
 The spellings of a string in a document (section 7 of RFC 8259): exactly which texts between quotes
 the reader decodes, to what, and what the writers write for each character.
 */
module JsonEscapes {
  import opened Options
  import opened JsonLexer
  import opened JsonNumber
  import opened JsonString

  /* A character as it is, a short escape, a \u escape, or two of them of which the first is a high surrogate. */
  datatype Piece = Plain(c: char) | Short(e: char) | Unit(h: string, n: nat) | Pair(h: string, hi: nat, l: string, lo: nat)

  /* The code of a short escape: quotation mark, backslash, slash, backspace, form feed, line feed, carriage return, tab. */
  function ShortCode(e: char): Option<nat> {
    match e
    case '"' => Some(0x22)
    case '\\' => Some(0x5C)
    case '/' => Some(0x2F)
    case 'b' => Some(0x08)
    case 'f' => Some(0x0C)
    case 'n' => Some(0x0A)
    case 'r' => Some(0x0D)
    case 't' => Some(0x09)
    case _ => None
  }

  predicate IsPiece(p: Piece) {
    match p
    case Plain(c) => c != '"' && c != '\\'
    case Short(e) => ShortCode(e).Some?
    case Unit(h, n) => SpellsHex(h, n) && !(0xD800 <= n <= 0xDBFF)
    case Pair(h, hi, l, lo) => SpellsHex(h, hi) && SpellsHex(l, lo) && 0xD800 <= hi <= 0xDBFF
  }

  function TextOf(p: Piece): string {
    match p
    case Plain(c) => [c]
    case Short(e) => ['\\', e]
    case Unit(h, _) => "\\u" + h
    case Pair(h, _, l, _) => "\\u" + h + "\\u" + l
  }

  /* Ten bits of each half of a pair, from U+10000 on. */
  function MeaningOf(p: Piece): string
    requires IsPiece(p)
  {
    match p
    case Plain(c) => [c]
    case Short(e) => [ShortCode(e).value as char]
    case Unit(_, n) => Utf8(n)
    case Pair(_, hi, _, lo) => Utf8(0x10000 + hi % 1024 * 1024 + lo % 1024)
  }

  function Texts(ps: seq<Piece>): string {
    if ps == [] then [] else TextOf(ps[0]) + Texts(ps[1..])
  }

  function Meanings(ps: seq<Piece>): string
    requires forall p :: p in ps ==> IsPiece(p)
  {
    if ps == [] then [] else MeaningOf(ps[0]) + Meanings(ps[1..])
  }

  lemma ShortIsSimple(e: char)
    ensures SimpleEscape(e).Some? <==> ShortCode(e).Some?
    ensures ShortCode(e).Some? ==> SimpleEscape(e) == Some(ShortCode(e).value as char)
  {
  }

  lemma PieceDecodes(p: Piece, b: string)
    requires IsPiece(p)
    ensures DecodeBody(TextOf(p) + b) == Prepend(MeaningOf(p), DecodeBody(b))
  {
    if p.Plain? {
      DecodePlain(p.c, b);
    } else if p.Short? {
      ShortIsSimple(p.e);
      DecodeSimple(p.e, b);
    } else if p.Unit? {
      DecodeUnicodeEscape(p.h, p.n, b);
    } else {
      PairDecodes(p, b);
    }
  }

  lemma PairDecodes(p: Piece, b: string)
    requires IsPiece(p) && p.Pair?
    ensures DecodeBody(TextOf(p) + b) == Prepend(MeaningOf(p), DecodeBody(b))
  {
    DecodePair(p.h, p.hi, p.l, p.lo, b, 0x10000 + p.hi % 1024 * 1024 + p.lo % 1024);
  }

  /* The text ends, or there is a quotation mark that is not escaped, which a token does not have. */
  predicate Ends(rest: string) {
    rest == [] || rest[0] == '"'
  }

  lemma {:induction false} PiecesDecode(ps: seq<Piece>, rest: string)
    requires (forall p :: p in ps ==> IsPiece(p)) && Ends(rest)
    ensures DecodeBody(Texts(ps) + rest) == Some(Meanings(ps))
    decreases |ps|
  {
    if ps == [] {
      assert Texts(ps) + rest == rest;
    } else {
      var b := Texts(ps[1..]) + rest;
      PiecesDecode(ps[1..], rest);
      PieceDecodes(ps[0], b);
      assert Texts(ps) + rest == TextOf(ps[0]) + b;
    }
  }

  lemma HexIsSpelled(b: string)
    requires HexAt(b).Some?
    ensures SpellsHex(b[..4], HexAt(b).value)
  {
    var a, c, d, e := HexValue(b[0]), HexValue(b[1]), HexValue(b[2]), HexValue(b[3]);
    FourDigits(a, c, d, e);
    DigitIsSpelled(b[0]);
    DigitIsSpelled(b[1]);
    DigitIsSpelled(b[2]);
    DigitIsSpelled(b[3]);
  }

  lemma DigitIsSpelled(c: char)
    requires IsHexDigit(c)
    ensures IsHexOf(c, HexValue(c))
  {
  }

  lemma FourDigits(a: nat, b: nat, c: nat, d: nat)
    requires a < 16 && b < 16 && c < 16 && d < 16
    ensures var n := 4096 * a + 256 * b + 16 * c + d;
      n < 0x10000 && n / 4096 == a && n / 256 % 16 == b && n / 16 % 16 == c && n % 16 == d
  {
    var n := 4096 * a + 256 * b + 16 * c + d;
    assert n / 16 == 256 * a + 16 * b + c;
    assert n / 256 == 16 * a + b;
  }

  /* The piece at the head of what can be decoded. */
  lemma FirstPiece(b: string) returns (p: Piece, rest: string)
    requires DecodeBody(b).Some? && !Ends(b)
    ensures IsPiece(p) && b == TextOf(p) + rest && DecodeBody(rest).Some? && |rest| < |b|
  {
    if b[0] != '\\' {
      p, rest := Plain(b[0]), b[1..];
    } else if b[1] != 'u' {
      ShortIsSimple(b[1]);
      p, rest := Short(b[1]), b[2..];
    } else {
      p, rest := UnicodePiece(b);
    }
  }

  lemma UnicodePiece(b: string) returns (p: Piece, rest: string)
    requires DecodeBody(b).Some? && |b| >= 2 && b[0] == '\\' && b[1] == 'u'
    ensures IsPiece(p) && b == TextOf(p) + rest && DecodeBody(rest).Some? && |rest| < |b|
  {
    var s := b[2..];
    HexIsSpelled(s);
    var u := HexAt(s).value;
    assert b == ("\\u" + s[..4]) + s[4..];
    if 0xD800 <= u <= 0xDBFF {
      var t := s[6..];
      HexIsSpelled(t);
      p, rest := Pair(s[..4], u, t[..4], HexAt(t).value), t[4..];
      assert s[4..] == "\\u" + (t[..4] + t[4..]);
      assert b[12..] == rest;
    } else {
      p, rest := Unit(s[..4], u), s[4..];
      assert b[6..] == rest;
    }
  }

  lemma {:induction false} DecodedIsPieces(b: string) returns (ps: seq<Piece>, rest: string)
    requires DecodeBody(b).Some?
    ensures (forall p :: p in ps ==> IsPiece(p)) && Ends(rest) && b == Texts(ps) + rest
    decreases |b|
  {
    if Ends(b) {
      ps, rest := [], b;
    } else {
      var p, b' := FirstPiece(b);
      var ps', rest' := DecodedIsPieces(b');
      ps, rest := [p] + ps', rest';
      assert ps[1..] == ps';
      assert b == (TextOf(p) + Texts(ps')) + rest;
    }
  }

  /* The text between two quotes is decoded exactly if it is made of such pieces, and then to what they mean. */
  lemma DecodesExactly(b: string)
    requires '"' !in b
    ensures DecodeBody(b).Some? <==> exists ps :: (forall p :: p in ps ==> IsPiece(p)) && b == Texts(ps)
    ensures forall ps :: (forall p :: p in ps ==> IsPiece(p)) && b == Texts(ps) ==> DecodeBody(b) == Some(Meanings(ps))
  {
    forall ps | (forall p :: p in ps ==> IsPiece(p)) && b == Texts(ps) ensures DecodeBody(b) == Some(Meanings(ps)) {
      PiecesDecode(ps, []);
      assert Texts(ps) + [] == b;
    }
    if DecodeBody(b).Some? {
      var ps, rest := DecodedIsPieces(b);
      LastIsIn(Texts(ps), rest);
      assert b == Texts(ps);
    }
  }

  lemma LastIsIn(a: string, b: string)
    ensures b != [] ==> b[0] in a + b
  {
    assert b != [] ==> (a + b)[|a|] == b[0];
  }

  // ----- What the writers write.

  /* The digits by their texts. */
  lemma DigitTexts(d: nat)
    requires d < 16
    ensures HexDigit(d) == "0123456789ABCDEF"[d] && (d < 10 ==> DigitChar(d) == "0123456789"[d])
  {
  }

  /* Each character: the short escapes but the slash's, \u00 and two digits for the other control characters, and
     all others as they are. */
  lemma EscapesAre(c: char)
    ensures EscapeChar(c) ==
      if c as int == 0x22 then ['\\', '"']
      else if c as int == 0x5C then ['\\', '\\']
      else if c as int == 0x08 then ['\\', 'b']
      else if c as int == 0x0C then ['\\', 'f']
      else if c as int == 0x0A then ['\\', 'n']
      else if c as int == 0x0D then ['\\', 'r']
      else if c as int == 0x09 then ['\\', 't']
      else if 1 <= c as int <= 0x1F then ['\\', 'u', '0', '0', "01"[c as int / 16], "0123456789ABCDEF"[c as int % 16]]
      else [c]
  {
    DigitTexts(c as int / 16 % 16);
    DigitTexts(c as int % 16);
  }
}
