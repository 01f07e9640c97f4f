/**
 Reading inverts writing: the theorems that join the writers, the tokenizer and the parser.
 */
module JsonRoundTrip {
  import opened JsonValue
  import L = JsonLexer
  import N = JsonNumber
  import P = JsonParser
  import T = JsonTokens
  import W = JsonWriter
  import SW = JsonStyledWriter
  import R = JsonReader
  import G = JsonGrammar

  /* A document with the tokens of a well-formed value without reals parses to that value. */
  lemma ParseOfTokens(cfg: P.Config, realText: real -> string, v: Value, doc: string, root: Value)
    requires T.WellFormed(v) && T.RealFree(v) && (cfg.strictRoot ==> P.IsContainer(v))
    requires L.Lex(doc) == T.Tokens(realText, v)
    ensures P.ParseDocument(cfg, doc, root) == P.Parse(true, v, [], [])
  {
    T.ReadTokens(cfg, realText, v, [], root);
    assert T.Tokens(realText, v) + [] == T.Tokens(realText, v);
  }

  /* Two integers with any punctuation but a closing bracket between them are read as an array, without an error. */
  lemma PairReads(cfg: P.Config, i: int32, c: char, j: int32, root: Value)
    requires i >= -2147483639 && j >= -2147483639 && L.IsPunctuation(c) && c != ']'
    ensures P.ParseDocument(cfg, PairText(N.IntText(i), c, N.IntText(j)), root) == P.Parse(true, Array([Int(i), Int(j)]), [], [])
  {
    N.IntTextShape(i);
    N.IntTextShape(j);
    PairLexes(N.IntText(i), c, N.IntText(j));
    PairTokensRead(cfg, i, L.Punctuation(c), j, root);
  }

  lemma PairTokensRead(cfg: P.Config, i: int32, sep: L.Token, j: int32, root: Value)
    requires i >= -2147483639 && j >= -2147483639 && T.Separates(sep)
    ensures P.ReadValue(cfg, PairTokens(N.IntText(i), sep, N.IntText(j)), root) == P.Parse(true, Array([Int(i), Int(j)]), [], [])
  {
    var noReal := (r: real) => "0";
    var xs := [Int(i), Int(j)];
    T.AnySeparatorReads(cfg, noReal, xs, [sep], [], root);
    var ti, tj := T.Tokens(noReal, Int(i)), T.Tokens(noReal, Int(j));
    assert T.Separated(noReal, xs, [sep]) == ti + [sep] + tj by { assert xs[1..] == [Int(j)] && [sep][1..] == []; }
    assert [L.Punctuation('[')] + ((ti + [sep] + tj) + ([L.Punctuation(']')] + [])) == PairTokens(N.IntText(i), sep, N.IntText(j));
  }

  function PairTokens(a: string, sep: L.Token, b: string): seq<L.Token> {
    [L.Punctuation('[')] + ([L.Token(L.Number, a)] + [sep]) + ([L.Token(L.Number, b)] + [L.Punctuation(']')])
  }

  function PairText(a: string, c: char, b: string): string {
    ['['] + (a + [c]) + (b + [']'])
  }

  lemma PairLexes(a: string, c: char, b: string)
    requires W.IsNumberText(a) && W.IsNumberText(b) && L.IsPunctuation(c)
    ensures L.Lex(PairText(a, c, b)) == PairTokens(a, L.Punctuation(c), b)
  {
    var ta, tb := [L.Token(L.Number, a)], [L.Token(L.Number, b)];
    L.NumberEmits(a);
    L.NumberEmits(b);
    L.PunctuationEmits(c);
    L.PunctuationEmits(']');
    L.PunctuationEmits('[');
    L.EmitsThenFirmly(a, ta, [c], [L.Punctuation(c)]);
    L.EmitsThenFirmly(b, tb, [']'], [L.Punctuation(']')]);
    L.FirmlyThenFirmly(['['], [L.Punctuation('[')], a + [c], ta + [L.Punctuation(c)]);
    L.FirmlyThenFirmly(['['] + (a + [c]), [L.Punctuation('[')] + (ta + [L.Punctuation(c)]), b + [']'], tb + [L.Punctuation(']')]);
    FirmTextLexes(PairText(a, c, b), [L.Punctuation('[')] + (ta + [L.Punctuation(c)]) + (tb + [L.Punctuation(']')]));
  }

  lemma FirmTextLexes(text: string, ts: seq<L.Token>)
    requires L.EmitsFirmly(text, ts)
    ensures L.Lex(text) == ts
  {
    assert text + [] == text && L.Lex([]) == [] && ts + [] == ts;
  }

  lemma ColonSeparates(cfg: P.Config, root: Value)
    ensures P.ParseDocument(cfg, "[1:2]", root) == P.Parse(true, Array([Int(1), Int(2)]), [], [])
  {
    PairReads(cfg, 1, ':', 2, root);
    assert PairText(N.IntText(1), ':', N.IntText(2)) == "[1:2]";
  }

  /* An object's text with a comma after the last member is an error, exactly unless that member has an empty name. */
  lemma TrailingComma(cfg: P.Config, realText: real -> string, ms: seq<Member>, root: Value)
    requires ms != [] && T.WellFormed(Object(ms)) && T.RealFree(Object(ms)) && W.WritesNumbers(realText)
    ensures P.ParseDocument(cfg, "{" + W.MembersText(false, realText, ms) + ",}", root) ==
      if ms[|ms| - 1].name == "" then P.Parse(true, Object(ms), [], [])
      else P.Parse(false, Object(ms), [], [P.Error(P.MissingBraceOrName, L.Punctuation('}'))])
  {
    var ts := T.MemberTokens(realText, ms);
    W.MembersEmit(false, realText, ms);
    TrailingCommaLexes(W.MembersText(false, realText, ms), ts);
    var close := L.Punctuation('}');
    G.NameExpected(cfg, realText, ms, close, [], root);
    assert [close] + [] == [close];
  }

  lemma TrailingCommaLexes(text: string, ts: seq<L.Token>)
    requires L.Emits(text, ts)
    ensures L.Lex("{" + text + ",}") == [L.Punctuation('{')] + (ts + ([L.Punctuation(',')] + [L.Punctuation('}')]))
  {
    L.PunctuationEmits('{');
    L.PunctuationEmits(',');
    L.PunctuationEmits('}');
    L.FirmlyThenFirmly(",", [L.Punctuation(',')], "}", [L.Punctuation('}')]);
    assert "," + "}" == ",}";
    L.EmitsThenFirmly(text, ts, ",}", [L.Punctuation(',')] + [L.Punctuation('}')]);
    L.FirmlyThenFirmly("{", [L.Punctuation('{')], text + ",}", ts + ([L.Punctuation(',')] + [L.Punctuation('}')]));
    assert "{" + text + ",}" == "{" + (text + ",}");
    FirmTextLexes("{" + (text + ",}"), [L.Punctuation('{')] + (ts + ([L.Punctuation(',')] + [L.Punctuation('}')])));
  }

  /* A helper that unfolds the strict test: it passes exactly arrays, objects and null ... */
  lemma StrictRootExactly(cfg: P.Config, doc: string, root: Value)
    requires cfg.strictRoot
    ensures var r := P.ReadValue(cfg, L.Lex(doc), root);
            P.ParseDocument(cfg, doc, root).ok <==> r.ok && (r.value.Array? || r.value.Object? || r.value.Null?)
  {
  }

  /* ... so the text "null" is. */
  lemma NullRootAccepted(cfg: P.Config, root: Value)
    ensures P.ParseDocument(cfg, "null", root) == P.Parse(true, Null, [], [])
  {
    L.WordEmits("null", L.NullToken);
    assert "null" + "" == "null";
    assert L.Lex("") == [];
    var t := L.Token(L.NullToken, "null");
    assert [t] + [] == [t];
    T.WordStep(cfg, t, [], root);
  }

  /* Parsing what FastWriter writes gives back the same tree. */
  lemma FastRoundTrip(cfg: P.Config, yaml: bool, realText: real -> string, v: Value, root: Value)
    requires T.WellFormed(v) && T.RealFree(v) && (cfg.strictRoot ==> P.IsContainer(v))
    requires W.WritesNumbers(realText)
    ensures P.ParseDocument(cfg, W.FastText(yaml, realText, v) + "\n", root) == P.Parse(true, v, [], [])
  {
    W.FastDocumentLexes(yaml, realText, v);
    ParseOfTokens(cfg, realText, v, W.FastText(yaml, realText, v) + "\n", root);
  }

  /* The range of the round trip is exact: a tree comes back if and only if the reader could have built it. */
  lemma RoundTripExactly(cfg: P.Config, yaml: bool, realText: real -> string, v: Value)
    requires T.RealFree(v) && W.WritesNumbers(realText) && (cfg.strictRoot ==> P.IsContainer(v))
    ensures P.ParseDocument(cfg, W.FastText(yaml, realText, v) + "\n", Null).value == v <==> T.WellFormed(v)
  {
    T.ReadValueWellFormed(cfg, L.Lex(W.FastText(yaml, realText, v) + "\n"), Null);
    if T.WellFormed(v) {
      FastRoundTrip(cfg, yaml, realText, v, Null);
    }
  }

  /* Whatever document was read, well-formed or not, the tree it left is written and read back unchanged. */
  lemma ReadingNormalises(cfg: P.Config, yaml: bool, realText: real -> string, doc: string, root: Value)
    requires W.WritesNumbers(realText)
    requires T.RealFree(P.ParseDocument(cfg, doc, Null).value)
    requires cfg.strictRoot ==> P.IsContainer(P.ParseDocument(cfg, doc, Null).value)
    ensures var v := P.ParseDocument(cfg, doc, Null).value;
            P.ParseDocument(cfg, W.FastText(yaml, realText, v) + "\n", root) == P.Parse(true, v, [], [])
  {
    T.ReadValueWellFormed(cfg, L.Lex(doc), Null);
    FastRoundTrip(cfg, yaml, realText, P.ParseDocument(cfg, doc, Null).value, root);
  }

  /* StyledWriter preserves meaning: its text has FastWriter's tokens, so both parse alike; and on
     well-formed values without reals, to the value itself. */
  method StyledThenRead(cfg: P.Config, realText: real -> string, v: Value, root: Value)
    returns (ok: bool, value: Value, ghost text: string)
    requires W.WritesNumbers(realText) && T.Printable(v)
    ensures L.Lex(text) == L.Lex(W.FastText(false, realText, v) + "\n")
    ensures P.Parse(ok, value, [], []) ==
            P.ParseDocument(cfg, W.FastText(false, realText, v) + "\n", root).(rest := [], errors := [])
    ensures T.WellFormed(v) && T.RealFree(v) && (cfg.strictRoot ==> P.IsContainer(v)) ==> ok && value == v
  {
    var writer := new SW.StyledWriter(realText);
    var styled := writer.Write(v);
    text := styled;
    W.FastDocumentLexes(false, realText, v);
    var reader := new R.Reader(cfg);
    ok, value := reader.Parse(styled, root);
    SameTokensParseAlike(cfg, styled, W.FastText(false, realText, v) + "\n", root);
    if T.WellFormed(v) && T.RealFree(v) && (cfg.strictRoot ==> P.IsContainer(v)) {
      ParseOfTokens(cfg, realText, v, styled, root);
    }
  }

  lemma SameTokensParseAlike(cfg: P.Config, a: string, b: string, root: Value)
    requires L.Lex(a) == L.Lex(b)
    ensures P.ParseDocument(cfg, a, root).ok == P.ParseDocument(cfg, b, root).ok
    ensures P.ParseDocument(cfg, a, root).value == P.ParseDocument(cfg, b, root).value
  {
  }
}
