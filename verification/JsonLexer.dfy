/**
 Texts that read as given tokens in every context that follows them, for any way of reading.
 */
module Emission {

  /* Whatever acceptable text follows, `text` contributes exactly `ts`. */
  ghost predicate Emits<T>(lex: string -> seq<T>, accepts: string -> bool, text: string, ts: seq<T>) {
    forall rest {:trigger lex(text + rest)} :: accepts(rest) ==> lex(text + rest) == ts + lex(rest)
  }

  lemma EmitsThen<T>(lex: string -> seq<T>, acceptsA: string -> bool, a: string, ts: seq<T>,
                     acceptsB: string -> bool, b: string, us: seq<T>)
    requires Emits(lex, acceptsA, a, ts) && Emits(lex, acceptsB, b, us)
    requires forall rest {:trigger acceptsA(b + rest)} :: acceptsB(rest) ==> acceptsA(b + rest)
    ensures Emits(lex, acceptsB, a + b, ts + us)
  {
    forall rest {:trigger lex((a + b) + rest)} | acceptsB(rest) ensures lex((a + b) + rest) == (ts + us) + lex(rest) {
      var next := b + rest;
      assert (a + b) + rest == a + next;
      assert acceptsA(b + rest);
      assert lex(a + next) == ts + lex(next);
      assert lex(b + rest) == us + lex(rest);
      assert ts + (us + lex(rest)) == (ts + us) + lex(rest);
    }
  }

  lemma EmitsWeaker<T>(lex: string -> seq<T>, accepts: string -> bool, fewer: string -> bool, text: string, ts: seq<T>)
    requires Emits(lex, accepts, text, ts)
    requires forall rest {:trigger fewer(rest)} :: fewer(rest) ==> accepts(rest)
    ensures Emits(lex, fewer, text, ts)
  {
  }
}

/**
 The tokenizer of Json::Reader, as functions of the text that is left to read: each returns
 what it recognised and what is then left.
 */
module JsonLexer {
  import E = Emission

  datatype Kind =
    | ObjectBegin | ObjectEnd | ArrayBegin | ArrayEnd
    | StringToken | Number | TrueToken | FalseToken | NullToken
    | Comma | Colon | Comment | EndOfStream | Bad

  /* `text` is the token from its first to its last character. */
  datatype Token = Token(kind: Kind, text: string)

  datatype Read = Read(token: Token, rest: string)

  /* The outcome of scanning past an opening character: recognised or not, and what is left. */
  datatype Scan = Scan(ok: bool, rest: string)

  predicate IsSpace(c: char) {
    c == ' ' || c == '\t' || c == '\r' || c == '\n'
  }

  predicate IsDigit(c: char) {
    '0' <= c <= '9'
  }

  /* The characters readNumber runs over. */
  predicate IsNumberChar(c: char) {
    IsDigit(c) || c == '.' || c == 'e' || c == 'E' || c == '+' || c == '-'
  }

  function SkipSpaces(s: string): (r: string)
    ensures |r| <= |s|
    ensures r != [] ==> !IsSpace(r[0])
  {
    if s != [] && IsSpace(s[0]) then SkipSpaces(s[1..]) else s
  }

  function ScanString(s: string): (r: Scan)
    ensures |r.rest| <= |s|
  {
    if s == [] then Scan(false, [])
    else if s[0] == '"' then Scan(true, s[1..])
    else if s[0] == '\\' then (if |s| == 1 then Scan(false, []) else ScanString(s[2..]))
    else ScanString(s[1..])
  }

  function ScanNumber(s: string): (r: string)
    ensures |r| <= |s|
  {
    if s != [] && IsNumberChar(s[0]) then ScanNumber(s[1..]) else s
  }

  function ScanBlockComment(s: string): (r: Scan)
    ensures |r.rest| <= |s|
  {
    if s == [] then Scan(false, [])
    else if s[0] == '*' && |s| > 1 && s[1] == '/' then Scan(true, s[2..])
    else ScanBlockComment(s[1..])
  }

  function ScanLineComment(s: string): (r: string)
    ensures |r| <= |s|
  {
    if s == [] then []
    else if s[0] == '\r' || s[0] == '\n' then s[1..]
    else ScanLineComment(s[1..])
  }

  function ScanComment(s: string): (r: Scan)
    ensures |r.rest| <= |s|
  {
    if s == [] then Scan(false, [])
    else if s[0] == '*' then ScanBlockComment(s[1..])
    else if s[0] == '/' then Scan(true, ScanLineComment(s[1..]))
    else Scan(false, s[1..])
  }

  function Match(s: string, pattern: string): (r: Scan)
    ensures |r.rest| <= |s|
  {
    if pattern <= s then Scan(true, s[|pattern|..]) else Scan(false, s)
  }

  /* Kind of the token that starts with `c`, when nothing goes wrong, and where it ends. */
  function ScanToken(c: char, s: string): (r: (Kind, string))
    ensures |r.1| <= |s|
  {
    match c
    case '{' => (ObjectBegin, s)
    case '}' => (ObjectEnd, s)
    case '[' => (ArrayBegin, s)
    case ']' => (ArrayEnd, s)
    case ',' => (Comma, s)
    case ':' => (Colon, s)
    case '\0' => (EndOfStream, s)
    case '"' => Checked(StringToken, ScanString(s))
    case '/' => Checked(Comment, ScanComment(s))
    case 't' => Checked(TrueToken, Match(s, "rue"))
    case 'f' => Checked(FalseToken, Match(s, "alse"))
    case 'n' => Checked(NullToken, Match(s, "ull"))
    case _ => if IsDigit(c) || c == '-' then (Number, ScanNumber(s)) else (Bad, s)
  }

  function Checked(kind: Kind, scan: Scan): (Kind, string) {
    (if scan.ok then kind else Bad, scan.rest)
  }

  /* The token at the head of a text that does not start with white space. */
  function TokenAt(t: string): (r: Read)
    ensures |r.rest| <= |t|
    ensures t != [] ==> |r.rest| < |t|
    ensures t == [] ==> r.token.kind == EndOfStream
  {
    if t == [] then Read(Token(EndOfStream, []), [])
    else
      var (kind, rest) := ScanToken(t[0], t[1..]);
      Read(Token(kind, t[..|t| - |rest|]), rest)
  }

  function ReadToken(s: string): Read {
    TokenAt(SkipSpaces(s))
  }

  // ----- Texts as token sequences.

  /* All the tokens of a text; a NUL inside it is a token, its end is not. */
  function Lex(s: string): seq<Token>
    decreases |s|
  {
    var t := SkipSpaces(s);
    if t == [] then [] else [TokenAt(t).token] + Lex(TokenAt(t).rest)
  }

  /* A text after which a number has surely ended. */
  predicate Delimits(s: string) {
    s == [] || !IsNumberChar(s[0])
  }

  predicate Anything(s: string) {
    true
  }

  /* `text` reads as exactly the tokens `ts`, whatever delimiting text follows. */
  ghost predicate Emits(text: string, ts: seq<Token>) {
    E.Emits(Lex, Delimits, text, ts)
  }

  /* ... whatever follows at all. */
  ghost predicate EmitsFirmly(text: string, ts: seq<Token>) {
    E.Emits(Lex, Anything, text, ts)
  }

  lemma DelimitsOnward(b: string, rest: string)
    requires b != [] && Delimits(b)
    ensures Delimits(b + rest)
  {
    assert (b + rest)[0] == b[0];
  }

  lemma EmitsThen(a: string, ts: seq<Token>, b: string, us: seq<Token>)
    requires Emits(a, ts) && Emits(b, us)
    requires b != [] && Delimits(b)
    ensures Emits(a + b, ts + us)
  {
    forall rest | Delimits(rest) ensures Delimits(b + rest) { DelimitsOnward(b, rest); }
    E.EmitsThen(Lex, Delimits, a, ts, Delimits, b, us);
  }

  lemma EmitsThenFirmly(a: string, ts: seq<Token>, b: string, us: seq<Token>)
    requires Emits(a, ts) && EmitsFirmly(b, us)
    requires b != [] && Delimits(b)
    ensures EmitsFirmly(a + b, ts + us)
  {
    forall rest ensures Delimits(b + rest) { DelimitsOnward(b, rest); }
    E.EmitsThen(Lex, Delimits, a, ts, Anything, b, us);
  }

  lemma FirmlyThen(a: string, ts: seq<Token>, b: string, us: seq<Token>)
    requires EmitsFirmly(a, ts) && Emits(b, us)
    ensures Emits(a + b, ts + us)
  {
    E.EmitsThen(Lex, Anything, a, ts, Delimits, b, us);
  }

  lemma FirmlyThenFirmly(a: string, ts: seq<Token>, b: string, us: seq<Token>)
    requires EmitsFirmly(a, ts) && EmitsFirmly(b, us)
    ensures EmitsFirmly(a + b, ts + us)
  {
    E.EmitsThen(Lex, Anything, a, ts, Anything, b, us);
  }

  lemma FirmIsEmitted(text: string, ts: seq<Token>)
    requires EmitsFirmly(text, ts)
    ensures Emits(text, ts)
  {
    E.EmitsWeaker(Lex, Anything, Delimits, text, ts);
  }

  // ----- The tokens the writers produce.

  /* A text that ReadToken takes whole, whatever follows. */
  lemma OneToken(text: string, kind: Kind, rest: string)
    requires text != [] && !IsSpace(text[0])
    requires ScanToken(text[0], text[1..] + rest) == (kind, rest)
    ensures Lex(text + rest) == [Token(kind, text)] + Lex(rest)
  {
    var s := text + rest;
    assert SkipSpaces(s) == s;
    assert s[1..] == text[1..] + rest;
    assert s[..|s| - |rest|] == text;
  }

  predicate IsPunctuation(c: char) {
    c == '{' || c == '}' || c == '[' || c == ']' || c == ',' || c == ':'
  }

  function Punctuation(c: char): Token
    requires IsPunctuation(c)
  {
    Token(match c
          case '{' => ObjectBegin
          case '}' => ObjectEnd
          case '[' => ArrayBegin
          case ']' => ArrayEnd
          case ',' => Comma
          case _ => Colon, [c])
  }

  lemma PunctuationEmits(c: char)
    requires IsPunctuation(c)
    ensures EmitsFirmly([c], [Punctuation(c)])
  {
    forall rest ensures Lex([c] + rest) == [Punctuation(c)] + Lex(rest) {
      assert [c][1..] + rest == rest;
      OneToken([c], Punctuation(c).kind, rest);
    }
  }

  lemma WordEmits(word: string, kind: Kind)
    requires (word == "true" && kind == TrueToken) || (word == "false" && kind == FalseToken)
          || (word == "null" && kind == NullToken)
    ensures EmitsFirmly(word, [Token(kind, word)])
  {
    forall rest ensures Lex(word + rest) == [Token(kind, word)] + Lex(rest) {
      var tail := word[1..];
      assert tail <= tail + rest && (tail + rest)[|tail|..] == rest;
      assert tail == (if word == "true" then "rue" else if word == "false" then "alse" else "ull");
      OneToken(word, kind, rest);
    }
  }

  lemma {:induction false} NumberScanned(s: string, rest: string)
    requires forall c :: c in s ==> IsNumberChar(c)
    requires Delimits(rest)
    ensures ScanNumber(s + rest) == rest
    decreases |s|
  {
    if s == [] {
      assert s + rest == rest;
    } else {
      assert (s + rest)[1..] == s[1..] + rest;
      NumberScanned(s[1..], rest);
    }
  }

  lemma NumberEmits(text: string)
    requires text != [] && (IsDigit(text[0]) || text[0] == '-')
    requires forall c :: c in text ==> IsNumberChar(c)
    ensures Emits(text, [Token(Number, text)])
  {
    forall rest | Delimits(rest) ensures Lex(text + rest) == [Token(Number, text)] + Lex(rest) {
      NumberScanned(text[1..], rest);
      OneToken(text, Number, rest);
    }
  }

  function Quoted(body: string): string {
    ['"'] + body + ['"']
  }

  /* Scanning a string runs through `body` without meeting a closing quote. */
  ghost predicate ScansThrough(body: string) {
    forall rest {:trigger ScanString(body + rest)} :: ScanString(body + rest) == ScanString(rest)
  }

  lemma QuotedLexes(body: string, rest: string)
    requires ScanString(body + (['"'] + rest)) == Scan(true, rest)
    ensures Lex(Quoted(body) + rest) == [Token(StringToken, Quoted(body))] + Lex(rest)
  {
    assert Quoted(body)[1..] + rest == body + (['"'] + rest);
    OneToken(Quoted(body), StringToken, rest);
  }

  lemma ClosingQuote(rest: string)
    ensures ScanString(['"'] + rest) == Scan(true, rest)
  {
    assert (['"'] + rest)[1..] == rest;
  }

  /* A quoted string is one token, up to its own closing quote. */
  lemma QuotedEmits(body: string)
    requires ScansThrough(body)
    ensures EmitsFirmly(Quoted(body), [Token(StringToken, Quoted(body))])
  {
    forall rest ensures Lex(Quoted(body) + rest) == [Token(StringToken, Quoted(body))] + Lex(rest) {
      ClosingQuote(rest);
      assert ScanString(body + (['"'] + rest)) == ScanString(['"'] + rest);
      QuotedLexes(body, rest);
    }
  }

  lemma {:induction false} SkipLeadingSpaces(text: string, rest: string)
    requires forall c :: c in text ==> IsSpace(c)
    ensures SkipSpaces(text + rest) == SkipSpaces(rest)
    decreases |text|
  {
    if text == [] {
      assert text + rest == rest;
    } else {
      assert (text + rest)[1..] == text[1..] + rest;
      SkipLeadingSpaces(text[1..], rest);
    }
  }

  lemma SpacesEmit(text: string)
    requires forall c :: c in text ==> IsSpace(c)
    ensures EmitsFirmly(text, [])
  {
    forall rest ensures Lex(text + rest) == [] + Lex(rest) {
      SkipLeadingSpaces(text, rest);
      LexSkips(text + rest, rest);
    }
  }

  /* White space before a token does not matter. */
  lemma LexSkips(s: string, t: string)
    requires SkipSpaces(s) == SkipSpaces(t)
    ensures Lex(s) == Lex(t)
  {
  }

  // ----- White space and comments.

  /* Space, tab, line feed and carriage return, as in section 2 of RFC 8259. */
  lemma SpacesAre(c: char)
    ensures IsSpace(c) <==> c as int == 0x20 || c as int == 0x09 || c as int == 0x0A || c as int == 0x0D
  {
  }

  lemma {:induction false} BlockScanned(body: string, rest: string)
    requires forall i :: 0 <= i < |body| ==> body[i] != '*' || (body + "*")[i + 1] != '/'
    ensures ScanBlockComment(body + "*/" + rest) == Scan(true, rest)
    decreases |body|
  {
    var s := body + "*/" + rest;
    if body == [] {
      assert s[2..] == rest;
    } else {
      assert s[1..] == body[1..] + "*/" + rest;
      assert s[0] == body[0] && s[1] == (body + "*")[1];
      forall i | 0 <= i < |body| - 1 ensures body[1..][i] != '*' || (body[1..] + "*")[i + 1] != '/' {
        assert body[i + 1] == body[1..][i] && (body[1..] + "*")[i + 1] == (body + "*")[i + 2];
      }
      BlockScanned(body[1..], rest);
    }
  }

  lemma {:induction false} LineScanned(body: string, end: char, rest: string)
    requires '\r' !in body && '\n' !in body && (end == '\r' || end == '\n')
    ensures ScanLineComment(body + [end] + rest) == rest
    decreases |body|
  {
    var s := body + [end] + rest;
    if body == [] {
      assert s[1..] == rest;
    } else {
      assert s[1..] == body[1..] + [end] + rest;
      LineScanned(body[1..], end, rest);
    }
  }

  /* A comment is one token, up to the first end of its kind. */
  lemma BlockCommentEmits(body: string)
    requires forall i :: 0 <= i < |body| ==> body[i] != '*' || (body + "*")[i + 1] != '/'
    ensures EmitsFirmly("/*" + body + "*/", [Token(Comment, "/*" + body + "*/")])
  {
    var text := "/*" + body + "*/";
    forall rest ensures Lex(text + rest) == [Token(Comment, text)] + Lex(rest) {
      BlockScanned(body, rest);
      assert (text[1..] + rest)[1..] == body + "*/" + rest;
      OneToken(text, Comment, rest);
    }
  }

  lemma LineCommentEmits(body: string)
    requires '\r' !in body && '\n' !in body
    ensures EmitsFirmly("//" + body + "\n", [Token(Comment, "//" + body + "\n")])
  {
    var text := "//" + body + "\n";
    forall rest ensures Lex(text + rest) == [Token(Comment, text)] + Lex(rest) {
      LineScanned(body, '\n', rest);
      assert (text[1..] + rest)[1..] == body + ['\n'] + rest;
      OneToken(text, Comment, rest);
    }
  }
}
