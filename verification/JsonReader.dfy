/**
 Json::Reader as an object: the cursor, the stack of nodes under construction and the list of
 errors, updated by mutually recursive methods. Each method is proved to do what the
 specification functions of JsonLexer and JsonParser say.
 */
module JsonReader {
  import opened Options
  import opened JsonValue
  import L = JsonLexer
  import opened JsonNumber
  import S = JsonString
  import P = JsonParser

  type Token = L.Token

  lemma Drop(s: string, i: nat, j: nat)
    requires i + j <= |s|
    ensures s[i..][j..] == s[i + j..]
  {
  }

  lemma SkipSpace(s: string, i: nat)
    requires i < |s|
    ensures L.SkipSpaces(s[i..]) == if L.IsSpace(s[i]) then L.SkipSpaces(s[i + 1..]) else s[i..]
  {
    Drop(s, i, 1);
  }

  /* Reading one token is taking the head of the token sequence. */
  lemma LexStep(s: string)
    ensures L.ReadToken(s).token == P.Head(L.Lex(s))
    ensures L.Lex(L.ReadToken(s).rest) == P.Tail(L.Lex(s))
  {
    var t := L.SkipSpaces(s);
    if t != [] {
      assert L.Lex(s) == [L.TokenAt(t).token] + L.Lex(L.TokenAt(t).rest);
    }
  }

  lemma LexAfter(s: string, t: Token, rest: string, toks: seq<Token>)
    requires L.Read(t, rest) == L.ReadToken(s) && toks == L.Lex(s)
    ensures t == P.Head(toks) && L.Lex(rest) == P.Tail(toks)
  {
    LexStep(s);
  }

  /* The next token closes the array just when the next character does. */
  lemma ClosingBracket(s: string)
    ensures P.Head(L.Lex(s)).kind == L.ArrayEnd <==> L.SkipSpaces(s) != [] && L.SkipSpaces(s)[0] == ']'
  {
    LexStep(s);
    var t := L.SkipSpaces(s);
    if t != [] {
      ScansClosing(t[0], t[1..]);
      TokenAtIs(t, L.ScanToken(t[0], t[1..]).0, L.ScanToken(t[0], t[1..]).1);
    }
  }

  lemma ScansClosing(c: char, s: string)
    ensures L.ScanToken(c, s).0 == L.ArrayEnd <==> c == ']'
  {
  }

  lemma TokenAtIs(s: string, kind: L.Kind, rest: string)
    requires s != [] && (kind, rest) == L.ScanToken(s[0], s[1..])
    ensures L.TokenAt(s) == L.Read(L.Token(kind, s[..|s| - |rest|]), rest)
  {
  }

  // ----- decodeString and decodeNumber

  /* decodeUnicodeEscapeSequence: the loop over four digits. */
  method DecodeHex(b: string) returns (r: Option<nat>)
    ensures r == S.HexAt(b)
  {
    if |b| < 4 {
      return None;
    }
    var unicode := 0;
    var index := 0;
    while index < 4
      invariant 0 <= index <= 4 && forall j :: 0 <= j < index ==> S.IsHexDigit(b[j])
      invariant unicode == HexPrefix(b, index)
    {
      var c := b[index];
      unicode := unicode * 16;
      if '0' <= c <= '9' {
        unicode := unicode + (c as int - '0' as int);
      } else if 'a' <= c <= 'f' {
        unicode := unicode + (c as int - 'a' as int + 10);
      } else if 'A' <= c <= 'F' {
        unicode := unicode + (c as int - 'A' as int + 10);
      } else {
        assert !S.IsHexDigit(b[index]);
        return None;
      }
      index := index + 1;
    }
    HexPrefixFour(b);
    r := Some(unicode);
  }

  /* The value of the first n digits. */
  ghost function HexPrefix(b: string, n: nat): nat
    requires n <= |b| && forall j :: 0 <= j < n ==> S.IsHexDigit(b[j])
  {
    if n == 0 then 0 else HexPrefix(b, n - 1) * 16 + S.HexValue(b[n - 1])
  }

  lemma HexPrefixFour(b: string)
    requires |b| >= 4 && forall j :: 0 <= j < 4 ==> S.IsHexDigit(b[j])
    ensures S.HexAt(b) == Some(HexPrefix(b, 4))
  {
    assert HexPrefix(b, 2) == S.HexValue(b[0]) * 16 + S.HexValue(b[1]) by { assert HexPrefix(b, 1) == S.HexValue(b[0]); }
  }

  /* decodeUnicodeCodePoint: one escape, or a surrogate pair of them. */
  method DecodeCodePoint(b: string) returns (r: S.CodePoint)
    ensures r == S.CodePointAt(b)
  {
    var unicode := DecodeHex(b);
    if unicode == None {
      return S.BadCodePoint;
    }
    if 0xD800 <= unicode.value <= 0xDBFF {
      if |b| - 4 < 6 || b[4] != '\\' || b[5] != 'u' {
        return S.BadCodePoint;
      }
      var surrogatePair := DecodeHex(b[6..]);
      if surrogatePair == None {
        return S.BadCodePoint;
      }
      return S.CodePoint(0x10000 + unicode.value % 1024 * 1024 + surrogatePair.value % 1024, 10);
    }
    return S.CodePoint(unicode.value, 4);
  }

  method DecodeStringToken(text: string) returns (r: Option<string>)
    ensures r == S.DecodeString(text)
  {
    if |text| < 2 {
      return None;
    }
    var b := text[1..|text| - 1];
    var decoded := [];
    var i := 0;
    assert b[0..] == b;
    PrependNothing(S.DecodeBody(b));
    while i < |b|
      invariant 0 <= i <= |b|
      invariant S.Prepend(decoded, S.DecodeBody(b[i..])) == S.DecodeBody(b)
      decreases |b| - i
    {
      var c := b[i];
      if c == '"' {
        assert decoded + [] == decoded;
        return Some(decoded);
      }
      if c == '\\' {
        if i + 1 == |b| {
          return None;
        }
        var escape := b[i + 1];
        if escape == 'u' {
          assert b[i..][2..] == b[i + 2..];
          var point := DecodeCodePoint(b[i + 2..]);
          match point
          case BadCodePoint => return None;
          case CodePoint(cp, length) =>
            assert b[i..][2 + length..] == b[i + 2 + length..];
            DecodeOnward(decoded, S.Utf8(cp), S.DecodeBody(b[i + 2 + length..]));
            decoded := decoded + S.Utf8(cp);
            i := i + 2 + length;
        } else {
          match S.SimpleEscape(escape)
          case None => return None;
          case Some(e) =>
            assert b[i..][2..] == b[i + 2..];
            DecodeOnward(decoded, [e], S.DecodeBody(b[i + 2..]));
            decoded := decoded + [e];
            i := i + 2;
        }
      } else {
        assert b[i..][1..] == b[i + 1..];
        DecodeOnward(decoded, [c], S.DecodeBody(b[i + 1..]));
        decoded := decoded + [c];
        i := i + 1;
      }
    }
    assert decoded + [] == decoded;
    r := Some(decoded);
  }

  lemma PrependNothing(r: Option<string>)
    ensures S.Prepend([], r) == r
  {
    if r.Some? {
      assert [] + r.value == r.value;
    }
  }

  lemma DecodeOnward(decoded: string, piece: string, rest: Option<string>)
    ensures S.Prepend(decoded, S.Prepend(piece, rest)) == S.Prepend(decoded + piece, rest)
  {
    if rest.Some? {
      assert decoded + (piece + rest.value) == (decoded + piece) + rest.value;
    }
  }

  method ScanForDouble(text: string) returns (isDouble: bool)
    ensures isDouble == JsonNumber.LooksDouble(text)
  {
    isDouble := false;
    for k := 0 to |text|
      invariant isDouble <==> exists j :: 0 <= j < k && DoubleAt(text, j)
    {
      isDouble := isDouble || DoubleAt(text, k);
    }
  }

  method DecodeNumberToken(scan: string -> Option<real>, text: string) returns (r: Option<Value>)
    ensures r == JsonNumber.DecodeNumber(scan, text)
  {
    var isDouble := ScanForDouble(text);
    if isDouble {
      return DecodeDouble(scan, text);
    }
    var threshold: uint32 := Threshold(text);
    var n := AccumulateLoop(Magnitude(text), threshold);
    AccumulateBound(Magnitude(text), 0, threshold);
    match n
    case NotADigit => r := None;
    case TooBig => r := DecodeDouble(scan, text);
    case Exact(value) =>
      if IsNegative(text) {
        r := Some(Int(0 - value));
      } else if value <= MAX_INT {
        r := Some(Int(value));
      } else {
        r := Some(UInt(value));
      }
  }

  class Reader {
    const cfg: P.Config
    var doc: string
    var current: nat
    var nodes: seq<Value>
    var errors: seq<P.Error>

    constructor (cfg: P.Config)
      ensures Valid() && this.cfg == cfg && doc == [] && current == 0 && nodes == [] && errors == []
    {
      this.cfg := cfg;
      doc, current, nodes, errors, toks := [], 0, [], [], [];
    }

    /* The tokens still to be read. */
    ghost var toks: seq<Token>

    /* The cursor stays between the beginning and the end of the document. */
    ghost predicate InBounds()
      reads this`current, this`doc
    {
      current <= |doc|
    }

    ghost function Rest(): string
      requires InBounds()
      reads this`current, this`doc
    {
      doc[current..]
    }

    /* `toks` are the tokens of the rest; stated so that only who marks the rest sees them. */
    ghost predicate Valid()
      reads this`current, this`doc, this`toks
    {
      InBounds() && forall s {:trigger Marked(s)} :: Marked(s) && s == Rest() ==> toks == L.Lex(s)
    }

    static ghost predicate Marked(s: string) {
      true
    }

    // ----- Characters.

    method GetNextChar() returns (c: char)
      requires InBounds()
      modifies this`current
      ensures InBounds()
      ensures if old(Rest()) == [] then c == NUL && current == old(current)
              else c == old(Rest())[0] && current == old(current) + 1
      ensures old(Rest()) != [] ==> Rest() == old(Rest())[1..]
    {
      if current == |doc| {
        return NUL;
      }
      c := doc[current];
      current := current + 1;
    }

    method SkipSpaces()
      requires InBounds()
      modifies this`current
      ensures InBounds() && old(current) <= current && Rest() == L.SkipSpaces(old(Rest()))
    {
      while current != |doc|
        invariant InBounds() && old(current) <= current && L.SkipSpaces(Rest()) == L.SkipSpaces(old(Rest()))
        decreases |doc| - current
      {
        SkipSpace(doc, current);
        if L.IsSpace(doc[current]) {
          current := current + 1;
        } else {
          break;
        }
      }
    }

    method Match(pattern: string) returns (ok: bool)
      requires InBounds()
      modifies this`current
      ensures InBounds() && old(current) <= current && L.Scan(ok, Rest()) == L.Match(old(Rest()), pattern)
    {
      if |doc| - current < |pattern| {
        return false;
      }
      var index := |pattern|;
      while index > 0
        invariant 0 <= index <= |pattern|
        invariant forall k :: index <= k < |pattern| ==> doc[current + k] == pattern[k]
      {
        index := index - 1;
        if doc[current + index] != pattern[index] {
          assert Rest()[index] != pattern[index];
          return false;
        }
      }
      assert Rest()[..|pattern|] == pattern;
      Drop(doc, current, |pattern|);
      current := current + |pattern|;
      ok := true;
    }

    method ReadString() returns (ok: bool)
      requires InBounds()
      modifies this`current
      ensures InBounds() && old(current) <= current && L.Scan(ok, Rest()) == L.ScanString(old(Rest()))
    {
      var c := NUL;
      while current != |doc|
        invariant InBounds() && old(current) <= current && c != '"'
        invariant L.ScanString(Rest()) == L.ScanString(old(Rest()))
        decreases |doc| - current
      {
        ghost var before := Rest();
        c := GetNextChar();
        if c == '\\' {
          if current < |doc| { assert before[2..] == Rest()[1..]; }
          var skipped := GetNextChar();
        } else if c == '"' {
          break;
        }
      }
      ok := c == '"';
    }

    method ReadNumber()
      requires InBounds()
      modifies this`current
      ensures InBounds() && old(current) <= current && Rest() == L.ScanNumber(old(Rest()))
    {
      while current != |doc|
        invariant InBounds() && old(current) <= current && L.ScanNumber(Rest()) == L.ScanNumber(old(Rest()))
        decreases |doc| - current
      {
        Drop(doc, current, 1);
        if !L.IsNumberChar(doc[current]) {
          break;
        }
        current := current + 1;
      }
    }

    method ReadCStyleComment() returns (ok: bool)
      requires InBounds()
      modifies this`current
      ensures InBounds() && old(current) <= current && L.Scan(ok, Rest()) == L.ScanBlockComment(old(Rest()))
    {
      while current != |doc|
        invariant InBounds() && old(current) <= current
        invariant L.ScanBlockComment(Rest()) == L.ScanBlockComment(old(Rest()))
        decreases |doc| - current
      {
        ghost var before := Rest();
        var c := GetNextChar();
        if c == '*' && current < |doc| && doc[current] == '/' {
          assert before[1] == '/' && before[2..] == Rest()[1..];
          var slash := GetNextChar();
          return slash == '/';
        }
      }
      var c := GetNextChar();
      ok := c == '/';
    }

    method ReadCppStyleComment()
      requires InBounds()
      modifies this`current
      ensures InBounds() && old(current) <= current && Rest() == L.ScanLineComment(old(Rest()))
    {
      while current != |doc|
        invariant InBounds() && old(current) <= current && L.ScanLineComment(Rest()) == L.ScanLineComment(old(Rest()))
        decreases |doc| - current
      {
        var c := GetNextChar();
        if c == '\r' || c == '\n' {
          return;
        }
      }
    }

    method ReadComment() returns (ok: bool)
      requires InBounds()
      modifies this`current
      ensures InBounds() && old(current) <= current && L.Scan(ok, Rest()) == L.ScanComment(old(Rest()))
    {
      var c := GetNextChar();
      ok := false;
      if c == '*' {
        ok := ReadCStyleComment();
      } else if c == '/' {
        ReadCppStyleComment();
        ok := true;
      }
    }

    // ----- Tokens.

    /* The switch of readToken, after the first character. */
    method ReadTokenTail(c: char) returns (kind: L.Kind)
      requires InBounds()
      modifies this`current
      ensures InBounds() && old(current) <= current && (kind, Rest()) == L.ScanToken(c, old(Rest()))
    {
      var ok := true;
      match c {
      case '{' => kind := L.ObjectBegin;
      case '}' => kind := L.ObjectEnd;
      case '[' => kind := L.ArrayBegin;
      case ']' => kind := L.ArrayEnd;
      case ',' => kind := L.Comma;
      case ':' => kind := L.Colon;
      case '\0' => kind := L.EndOfStream;
      case '"' => kind := L.StringToken; ok := ReadString();
      case '/' => kind := L.Comment; ok := ReadComment();
      case 't' => kind := L.TrueToken; ok := Match("rue");
      case 'f' => kind := L.FalseToken; ok := Match("alse");
      case 'n' => kind := L.NullToken; ok := Match("ull");
      case _ =>
        if L.IsDigit(c) || c == '-' {
          kind := L.Number;
          ReadNumber();
        } else {
          kind := L.Bad;
        }
      }
      if !ok {
        kind := L.Bad;
      }
    }

    /* readToken, up to moving the token sequence along. */
    method ScanToken() returns (t: Token)
      requires InBounds()
      modifies this`current
      ensures InBounds() && old(current) <= current
      ensures L.Read(t, Rest()) == L.ReadToken(old(Rest()))
      ensures t.kind != L.EndOfStream ==> old(current) < current
    {
      SkipSpaces();
      var start := current;
      ghost var s := Rest();
      var c := GetNextChar();
      if start == |doc| {
        return L.Token(L.EndOfStream, []);
      }
      var kind := ReadTokenTail(c);
      TokenAtIs(s, kind, Rest());
      assert s[..|s| - |Rest()|] == doc[start..current];
      t := L.Token(kind, doc[start..current]);
    }

    method ReadToken() returns (t: Token)
      requires Valid()
      modifies this`current, this`toks
      ensures Valid() && old(current) <= current
      ensures t == P.Head(old(toks)) && toks == P.Tail(old(toks))
      ensures t.kind != L.EndOfStream ==> old(current) < current
    {
      assert Marked(Rest());
      ghost var s := Rest();
      t := ScanToken();
      LexAfter(s, t, Rest(), toks);
      toks := P.Tail(toks);
    }

    method ReadPastComments() returns (t: Token)
      requires Valid()
      modifies this`current, this`toks
      ensures Valid() && old(current) <= current
      ensures t == P.Head(P.SkipComments(old(toks))) && toks == P.Tail(P.SkipComments(old(toks)))
      ensures t.kind != L.EndOfStream ==> old(current) < current
    {
      t := ReadToken();
      while t.kind == L.Comment
        invariant Valid() && old(current) <= current
        invariant t.kind != L.EndOfStream ==> old(current) < current
        invariant t.kind == L.Comment ==> P.SkipComments(toks) == P.SkipComments(old(toks))
        invariant t.kind != L.Comment ==> t == P.Head(P.SkipComments(old(toks))) && toks == P.Tail(P.SkipComments(old(toks)))
        decreases |doc| - current, if t.kind == L.Comment then 1 else 0
      {
        t := ReadToken();
      }
    }

    method SkipCommentTokens() returns (t: Token)
      requires Valid()
      modifies this`current, this`toks
      ensures Valid() && old(current) <= current
      ensures var us := if cfg.allowComments then P.SkipComments(old(toks)) else old(toks);
              t == P.Head(us) && toks == P.Tail(us)
      ensures t.kind != L.EndOfStream ==> old(current) < current
    {
      if cfg.allowComments {
        t := ReadPastComments();
      } else {
        t := ReadToken();
      }
    }

    method RecoverFromError(kind: L.Kind)
      requires Valid()
      modifies this`current, this`toks
      ensures Valid() && old(current) <= current && toks == P.Recover(old(toks), kind)
    {
      while true
        invariant Valid() && old(current) <= current && P.Recover(toks, kind) == P.Recover(old(toks), kind)
        decreases |doc| - current
      {
        var skip := ReadToken();
        if skip.kind == kind || skip.kind == L.EndOfStream {
          break;
        }
      }
    }

    method AddError(message: P.Message, t: Token)
      modifies this`errors
      ensures errors == old(errors) + [P.Error(message, t)]
    {
      errors := errors + [P.Error(message, t)];
    }

    method AddErrorAndRecover(message: P.Message, t: Token, kind: L.Kind)
      requires Valid()
      modifies this`current, this`toks, this`errors
      ensures Valid() && old(current) <= current && toks == P.Recover(old(toks), kind)
      ensures errors == old(errors) + [P.Error(message, t)]
    {
      AddError(message, t);
      RecoverFromError(kind);
    }

    // ----- Values. The current value is the top of the stack of nodes.

    ghost function Top(): Value
      requires nodes != []
      reads this`nodes
    {
      nodes[|nodes| - 1]
    }

    method SetTop(v: Value)
      requires nodes != []
      modifies this`nodes
      ensures nodes == old(nodes)[..|old(nodes)| - 1] + [v]
    {
      nodes := nodes[..|nodes| - 1] + [v];
    }

    /* `r` is what the parser specification says happened since the old state. */
    twostate predicate Follows(ok: bool, r: P.Parse)
      requires old(nodes) != []
      reads this
    {
      && Valid() && old(current) <= current && doc == old(doc)
      && ok == r.ok && toks == r.rest && errors == old(errors) + r.errors
      && nodes == old(nodes)[..|old(nodes)| - 1] + [r.value]
    }

    method ReadValue() returns (ok: bool)
      requires Valid() && nodes != []
      modifies this`current, this`toks, this`nodes, this`errors
      ensures Follows(ok, P.ReadValue(cfg, old(toks), old(Top())))
      ensures ok ==> old(current) < current
      decreases |doc| - current, 1
    {
      assert nodes == nodes[..|nodes| - 1] + [Top()];
      var t := SkipCommentTokens();
      ok := true;
      match t.kind {
        case ObjectBegin => ok := ReadObject();
        case ArrayBegin => ok := ReadArray();
        case Number =>
          var n := DecodeNumberToken(cfg.scan, t.text);
          match n {
            case Some(v) => SetTop(v);
            case None => AddError(P.NotANumber, t); ok := false;
          }
        case StringToken =>
          var text := DecodeStringToken(t.text);
          match text {
            case Some(decoded) => SetTop(Str(CString(decoded)));
            case None => AddError(P.BadString, t); ok := false;
          }
        case TrueToken => SetTop(Bool(true));
        case FalseToken => SetTop(Bool(false));
        case NullToken => SetTop(Null);
        case _ => AddError(P.ValueExpected, t); ok := false;
      }
    }

    /* readObject, after the opening brace. */
    method ReadObject() returns (ok: bool)
      requires Valid() && nodes != []
      modifies this`current, this`toks, this`nodes, this`errors
      ensures Follows(ok, P.ReadMembers(cfg, old(toks), [], []))
      decreases |doc| - current, 5
    {
      SetTop(Object([]));
      var name := [];
      ghost var ms: seq<Member> := [];
      while true
        invariant Valid() && old(current) <= current && doc == old(doc) && errors == old(errors)
        invariant nodes == old(nodes)[..|old(nodes)| - 1] + [Object(ms)]
        invariant P.ReadMembers(cfg, toks, ms, name) == P.ReadMembers(cfg, old(toks), [], [])
        decreases |doc| - current
      {
        var more;
        ok, more, name := ReadName(name);
        if !more {
          return;
        }
        ghost var before := toks;
        ok, more := ReadMember(name);
        if !more {
          return;
        }
        ghost var child := P.ReadValue(cfg, before, Resolve(ms, CString(name)));
        ms := Put(ms, CString(name), child.value);
      }
    }

    /* The name of a member and its colon, or the end of the object. */
    method ReadName(name: string) returns (ok: bool, more: bool, name': string)
      requires Valid() && nodes != [] && Top().Object?
      modifies this`current, this`toks, this`nodes, this`errors
      ensures !more ==> Follows(ok, P.ReadMembers(cfg, old(toks), old(Top()).members, name))
      ensures more ==> Valid() && old(current) < current && doc == old(doc) && nodes == old(nodes) && errors == old(errors)
      ensures more ==> P.ReadMembers(cfg, old(toks), old(Top()).members, name) == P.ReadMember(cfg, toks, old(Top()).members, name')
    {
      name' := name;
      more := false;
      assert nodes == nodes[..|nodes| - 1] + [Object(Top().members)];
      var t := ReadPastComments();
      if t.kind == L.ObjectEnd && name == [] {
        ok := true;
        return;
      }
      ok := false;
      if t.kind != L.StringToken {
        AddErrorAndRecover(P.MissingBraceOrName, t, L.ObjectEnd);
        return;
      }
      var decoded := DecodeStringToken(t.text);
      match decoded {
        case None =>
          AddErrorAndRecover(P.BadString, t, L.ObjectEnd);
          return;
        case Some(n) => name' := n;
      }
      var colon := ReadToken();
      if colon.kind != L.Colon {
        AddErrorAndRecover(P.MissingColon, colon, L.ObjectEnd);
        return;
      }
      more := true;
    }

    /* The value of a member and the token after it: pushes the member, reads, pops. */
    method ReadMember(name: string) returns (ok: bool, more: bool)
      requires Valid() && nodes != [] && Top().Object?
      modifies this`current, this`toks, this`nodes, this`errors
      ensures Valid() && old(current) <= current && doc == old(doc)
      ensures !more ==> Follows(ok, P.ReadMember(cfg, old(toks), old(Top()).members, name))
      ensures more ==>
        var ms := old(Top()).members;
        var child := P.ReadValue(cfg, old(toks), Resolve(ms, CString(name)));
        var ms' := Put(ms, CString(name), child.value);
        && nodes == old(nodes)[..|old(nodes)| - 1] + [Object(ms')]
        && errors == old(errors) && old(current) < current
        && P.ReadMembers(cfg, toks, ms', name) == P.ReadMember(cfg, old(toks), ms, name)
      decreases |doc| - current, 4
    {
      ghost var ms := Top().members;
      P.ReadValueErrors(cfg, toks, Resolve(ms, CString(name)));
      ok := ReadChild(CString(name));
      more := false;
      if !ok {
        RecoverFromError(L.ObjectEnd);
        return;
      }
      var comma := ReadToken();
      if comma.kind != L.ObjectEnd && comma.kind != L.Comma && comma.kind != L.Comment {
        AddErrorAndRecover(P.MissingCommaOrBrace, comma, L.ObjectEnd);
        ok := false;
        return;
      }
      if comma.kind == L.Comment {
        comma := ReadPastComments();
      }
      more := comma.kind != L.ObjectEnd;
    }

    /* Push the member, read its value, pop it. */
    method ReadChild(key: CText) returns (ok: bool)
      requires Valid() && nodes != [] && Top().Object?
      modifies this`current, this`toks, this`nodes, this`errors
      ensures var ms := old(Top()).members;
              var child := P.ReadValue(cfg, old(toks), Resolve(ms, key));
              Follows(ok, child.(value := Object(Put(ms, key, child.value))))
      ensures ok ==> old(current) < current
      decreases |doc| - current, 2
    {
      var depth := |nodes|;
      var parent := nodes[depth - 1];
      nodes := nodes + [Resolve(parent.members, key)];
      ok := ReadValue();
      var value := nodes[depth];
      nodes := nodes[..depth - 1] + [Object(Put(parent.members, key, value))];
    }

    /* readArray, after the opening bracket. */
    method ReadArray() returns (ok: bool)
      requires Valid() && nodes != []
      modifies this`current, this`toks, this`nodes, this`errors
      ensures Follows(ok, P.ReadArray(cfg, old(toks)))
      decreases |doc| - current, 3
    {
      SetTop(Array([]));
      var empty := AtClosingBracket();
      if empty {
        var endArray := ReadToken();
        return true;
      }
      ghost var start := toks;
      ghost var xs: seq<Value> := [];
      while true
        invariant Valid() && old(current) <= current && doc == old(doc) && errors == old(errors)
        invariant nodes == old(nodes)[..|old(nodes)| - 1] + [Array(xs)]
        invariant P.ReadElems(cfg, toks, xs) == P.ReadElems(cfg, start, [])
        decreases |doc| - current
      {
        ghost var before := toks;
        var more;
        ok, more := ReadElem();
        if !more {
          return;
        }
        xs := xs + [P.ReadValue(cfg, before, Null).value];
      }
    }

    /* skipSpaces, then look at the next character. */
    method AtClosingBracket() returns (closing: bool)
      requires Valid()
      modifies this`current
      ensures Valid() && old(current) <= current
      ensures closing <==> P.Head(toks).kind == L.ArrayEnd
    {
      assert Marked(Rest());
      ghost var s := Rest();
      SkipSpaces();
      ClosingBracket(s);
      L.LexSkips(s, Rest());
      closing := current < |doc| && doc[current] == ']';
    }

    /* One element and the token after it. */
    method ReadElem() returns (ok: bool, more: bool)
      requires Valid() && nodes != [] && Top().Array?
      modifies this`current, this`toks, this`nodes, this`errors
      ensures Valid() && old(current) <= current && doc == old(doc)
      ensures !more ==> Follows(ok, P.ReadElems(cfg, old(toks), old(Top()).elems))
      ensures more ==>
        var xs := old(Top()).elems;
        var xs' := xs + [P.ReadValue(cfg, old(toks), Null).value];
        && nodes == old(nodes)[..|old(nodes)| - 1] + [Array(xs')]
        && errors == old(errors) && old(current) < current
        && P.ReadElems(cfg, toks, xs') == P.ReadElems(cfg, old(toks), xs)
      decreases |doc| - current, 2
    {
      var depth := |nodes|;
      var parent := nodes[depth - 1];
      nodes := nodes + [Null];
      ok := ReadValue();
      var value := nodes[depth];
      nodes := nodes[..depth - 1] + [Array(parent.elems + [value])];
      P.ReadValueErrors(cfg, old(toks), Null);
      more := false;
      if !ok {
        RecoverFromError(L.ArrayEnd);
        return;
      }
      var t := ReadPastComments();
      more := t.kind != L.ArrayEnd;
    }

    method Start(document: string, root: Value)
      modifies this
      ensures Valid() && doc == document && toks == L.Lex(document) && errors == [] && nodes == [root]
    {
      doc, current, errors, nodes := document, 0, [], [root];
      toks := L.Lex(doc);
      assert doc[0..] == doc;
    }

    /* Reader::parse, once the document is in place. */
    method ParseRoot() returns (ok: bool, value: Value)
      requires Valid() && |nodes| == 1
      modifies this`current, this`toks, this`nodes, this`errors
      ensures Valid()
      ensures var r := P.CheckRoot(cfg, P.ReadValue(cfg, old(toks), old(Top())), doc);
              ok == r.ok && value == r.value && errors == old(errors) + r.errors
    {
      ok := ReadValue();
      value := nodes[0];
      var t := SkipCommentTokens();
      if cfg.strictRoot && !P.IsContainer(value) {
        AddError(P.RootNotContainer, L.Token(L.Bad, doc));
        ok := false;
      }
    }

    /* Reader::parse */
    method Parse(document: string, root: Value) returns (ok: bool, value: Value)
      modifies this
      ensures Valid()
      ensures var r := P.ParseDocument(cfg, document, root);
              ok == r.ok && value == r.value && errors == r.errors
    {
      Start(document, root);
      ok, value := ParseRoot();
    }
  }
}
