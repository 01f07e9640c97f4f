/**
 The text of StyledWriter as a function of the value: which arrays stay on one line, and what
 stands on which line. It reads as the same tokens as FastWriter's.
 */
module JsonStyledText {
  import opened JsonValue
  import opened JsonLexer
  import opened JsonString
  import opened JsonTokens
  import opened JsonWriter

  const RIGHT_MARGIN: nat := 74
  const INDENT_SIZE: nat := 3

  /* A value that is written as one piece of text. */
  predicate IsLeaf(v: Value) {
    match v
    case Array(xs) => xs == []
    case Object(ms) => ms == []
    case _ => true
  }

  function LeafText(realText: real -> string, v: Value): string
    requires IsLeaf(v)
  {
    match v
    case Array(_) => "[]"
    case Object(_) => "{}"
    case _ => ScalarText(realText, v)
  }

  function Spaces(n: nat): (s: string)
    ensures |s| == n && forall c :: c in s ==> c == ' '
  {
    if n == 0 then [] else Spaces(n - 1) + [' ']
  }

  /* A new line at this depth. */
  function NewLine(depth: nat): string {
    "\n" + Spaces(INDENT_SIZE * depth)
  }

  predicate AllLeaves(xs: seq<Value>) {
    forall i :: 0 <= i < |xs| ==> IsLeaf(xs[i])
  }

  function LeafTexts(realText: real -> string, xs: seq<Value>): (texts: seq<string>)
    requires AllLeaves(xs)
    ensures |texts| == |xs| && forall i :: 0 <= i < |xs| ==> texts[i] == LeafText(realText, xs[i])
  {
    if xs == [] then [] else [LeafText(realText, xs[0])] + LeafTexts(realText, xs[1..])
  }

  /* The texts with ", " between them. */
  function WithCommas(texts: seq<string>): string {
    if texts == [] then []
    else if |texts| == 1 then texts[0]
    else texts[0] + ", " + WithCommas(texts[1..])
  }

  function OneLine(texts: seq<string>): string {
    "[ " + WithCommas(texts) + " ]"
  }

  function TotalLength(texts: seq<string>): nat {
    if texts == [] then 0 else |texts[0]| + TotalLength(texts[1..])
  }

  /* The length of the line, as it is added up. */
  lemma {:induction false} LineLength(texts: seq<string>)
    requires texts != []
    ensures |WithCommas(texts)| == TotalLength(texts) + 2 * (|texts| - 1)
    ensures |OneLine(texts)| == 4 + (|texts| - 1) * 2 + TotalLength(texts)
    decreases |texts|
  {
    if |texts| == 1 {
      assert TotalLength(texts[1..]) == 0;
    } else {
      LineLength(texts[1..]);
    }
  }

  /* The array stays on one line: leaves only, not too many, and a line shorter than the margin. */
  predicate FitsOnLine(realText: real -> string, xs: seq<Value>) {
    3 * |xs| < RIGHT_MARGIN && AllLeaves(xs) && |OneLine(LeafTexts(realText, xs))| < RIGHT_MARGIN
  }

  /* The text of a value whose line is at this depth. */
  function Styled(realText: real -> string, v: Value, depth: nat): string
    decreases v, 1
  {
    if IsLeaf(v) then LeafText(realText, v)
    else match v
      case Array(xs) =>
        if FitsOnLine(realText, xs) then OneLine(LeafTexts(realText, xs))
        else "[" + ElemLines(realText, xs, depth + 1) + (NewLine(depth) + "]")
      case Object(ms) => "{" + MemberLines(realText, ms, depth + 1) + (NewLine(depth) + "}")
      case _ => []
  }

  /* The elements, each on a line of its own. */
  function ElemLines(realText: real -> string, xs: seq<Value>, depth: nat): string
    decreases xs, 0
  {
    if xs == [] then []
    else
      var rest := if |xs| == 1 then [] else "," + ElemLines(realText, xs[1..], depth);
      NewLine(depth) + Styled(realText, xs[0], depth) + rest
  }

  function NamePart(name: CText): string {
    Quoted(Escape(name)) + " : "
  }

  function MemberLines(realText: real -> string, ms: seq<Member>, depth: nat): string
    decreases ms, 0
  {
    if ms == [] then []
    else
      var rest := if |ms| == 1 then [] else "," + MemberLines(realText, ms[1..], depth);
      NewLine(depth) + (NamePart(ms[0].name) + Styled(realText, ms[0].value, depth)) + rest
  }

  // ----- It reads as the tokens of the value.

  ghost predicate AllSpaces(s: string) {
    forall c :: c in s ==> IsSpace(c)
  }

  lemma SpacedText(ws: string, text: string, ts: seq<Token>)
    requires AllSpaces(ws) && Emits(text, ts)
    ensures Emits(ws + text, ts)
  {
    SpacesEmit(ws);
    FirmlyThen(ws, [], text, ts);
    assert [] + ts == ts;
  }

  lemma NewLineSpaces(depth: nat)
    ensures AllSpaces(NewLine(depth))
  {
  }

  /* The text between brackets, with white space before the closing one. */
  lemma BracketedSpaced(open: char, text: string, ts: seq<Token>, ws: string, close: char)
    requires IsPunctuation(open) && IsPunctuation(close) && Emits(text, ts) && AllSpaces(ws)
    ensures Emits([open] + text + (ws + [close]), [Punctuation(open)] + ts + [Punctuation(close)])
  {
    SpacesEmit(ws);
    PunctuationEmits(open);
    PunctuationEmits(close);
    FirmlyThenFirmly(ws, [], [close], [Punctuation(close)]);
    assert [] + [Punctuation(close)] == [Punctuation(close)];
    if ws != [] { assert (ws + [close])[0] == ws[0] && ws[0] in ws; }
    FirmlyThen([open], [Punctuation(open)], text, ts);
    EmitsThenFirmly([open] + text, [Punctuation(open)] + ts, ws + [close], [Punctuation(close)]);
    FirmIsEmitted([open] + text + (ws + [close]), [Punctuation(open)] + ts + [Punctuation(close)]);
  }

  lemma EmptyEmits(open: char, close: char)
    requires IsPunctuation(open) && IsPunctuation(close)
    ensures Emits([open, close], [Punctuation(open)] + [] + [Punctuation(close)])
  {
    SpacesEmit([]);
    FirmIsEmitted([], []);
    Bracketed(open, [], [], close);
    assert [open] + [] + [close] == [open, close];
  }

  lemma LeafEmits(realText: real -> string, v: Value)
    requires IsLeaf(v) && WritesNumbers(realText)
    ensures Emits(LeafText(realText, v), Tokens(realText, v))
  {
    match v
    case Array(_) => EmptyEmits('[', ']');
    case Object(_) => EmptyEmits('{', '}');
    case _ => ScalarEmits(realText, v);
  }

  lemma {:induction false} WithCommasEmits(realText: real -> string, xs: seq<Value>)
    requires AllLeaves(xs) && WritesNumbers(realText)
    ensures Emits(WithCommas(LeafTexts(realText, xs)), ElemTokens(realText, xs))
    decreases |xs|
  {
    if xs == [] {
      SpacesEmit([]);
      FirmIsEmitted([], []);
    } else {
      LeafEmits(realText, xs[0]);
      if |xs| > 1 {
        var texts := LeafTexts(realText, xs);
        assert texts[1..] == LeafTexts(realText, xs[1..]);
        WithCommasEmits(realText, xs[1..]);
        SpacedText(" ", WithCommas(texts[1..]), ElemTokens(realText, xs[1..]));
        CommaJoins(texts[0], Tokens(realText, xs[0]), " " + WithCommas(texts[1..]), ElemTokens(realText, xs[1..]));
        CommaSpace(texts[0], WithCommas(texts[1..]));
      }
    }
  }

  lemma CommaSpace(a: string, b: string)
    ensures a + "," + (" " + b) == a + ", " + b
  {
    assert "," + " " == ", ";
    assert a + "," + (" " + b) == a + ("," + " ") + b;
  }

  lemma OneLineEmits(realText: real -> string, xs: seq<Value>)
    requires xs != [] && AllLeaves(xs) && WritesNumbers(realText)
    ensures Emits(OneLine(LeafTexts(realText, xs)), Tokens(realText, Array(xs)))
  {
    WithCommasEmits(realText, xs);
    InBracketsEmits(WithCommas(LeafTexts(realText, xs)), ElemTokens(realText, xs));
  }

  lemma InBracketsEmits(text: string, ts: seq<Token>)
    requires Emits(text, ts)
    ensures Emits("[ " + text + " ]", [Punctuation('[')] + ts + [Punctuation(']')])
  {
    SpacedText(" ", text, ts);
    BracketedSpaced('[', " " + text, ts, " ", ']');
    OneLineParts(text);
  }

  lemma OneLineParts(text: string)
    ensures ['['] + (" " + text) + (" " + [']']) == "[ " + text + " ]"
  {
    assert ['['] + " " == "[ " && " " + [']'] == " ]";
    assert ['['] + (" " + text) == (['['] + " ") + text;
  }

  lemma {:induction false} StyledEmits(realText: real -> string, v: Value, depth: nat)
    requires WritesNumbers(realText)
    ensures Emits(Styled(realText, v, depth), Tokens(realText, v))
    decreases v, 1
  {
    if IsLeaf(v) {
      LeafEmits(realText, v);
    } else if v.Array? {
      if FitsOnLine(realText, v.elems) {
        OneLineEmits(realText, v.elems);
      } else {
        ElemLinesEmit(realText, v.elems, depth + 1);
        NewLineSpaces(depth);
        BracketedSpaced('[', ElemLines(realText, v.elems, depth + 1), ElemTokens(realText, v.elems), NewLine(depth), ']');
      }
    } else {
      MemberLinesEmit(realText, v.members, depth + 1);
      NewLineSpaces(depth);
      BracketedSpaced('{', MemberLines(realText, v.members, depth + 1), MemberTokens(realText, v.members), NewLine(depth), '}');
    }
  }

  lemma {:induction false} ElemLinesEmit(realText: real -> string, xs: seq<Value>, depth: nat)
    requires WritesNumbers(realText) && xs != []
    ensures Emits(ElemLines(realText, xs, depth), ElemTokens(realText, xs))
    decreases xs, 0
  {
    StyledEmits(realText, xs[0], depth);
    NewLineSpaces(depth);
    var first := NewLine(depth) + Styled(realText, xs[0], depth);
    SpacedText(NewLine(depth), Styled(realText, xs[0], depth), Tokens(realText, xs[0]));
    if |xs| == 1 {
      assert first + [] == first;
    } else {
      ElemLinesEmit(realText, xs[1..], depth);
      CommaJoins(first, Tokens(realText, xs[0]), ElemLines(realText, xs[1..], depth), ElemTokens(realText, xs[1..]));
      CommaBetween(first, ElemLines(realText, xs[1..], depth));
    }
  }

  lemma CommaBetween(a: string, b: string)
    ensures a + "," + b == a + ("," + b)
  {
  }

  lemma SpacedColon()
    ensures EmitsFirmly(" : ", [Punctuation(':')])
  {
    SpacesEmit(" ");
    PunctuationEmits(':');
    FirmlyThenFirmly([':'], [Punctuation(':')], " ", []);
    FirmlyThenFirmly(" ", [], [':'] + " ", [Punctuation(':')] + []);
    assert " " + ([':'] + " ") == " : " && [] + ([Punctuation(':')] + []) == [Punctuation(':')];
  }

  lemma NamePartEmits(name: CText)
    ensures EmitsFirmly(NamePart(name), NameTokens(name))
  {
    var q := Quoted(Escape(name));
    QuotedStringEmits(name);
    SpacedColon();
    FirmlyThenFirmly(q, [Token(StringToken, q)], " : ", [Punctuation(':')]);
    NameTokensSplit(name, q);
  }

  lemma {:induction false} MemberLinesEmit(realText: real -> string, ms: seq<Member>, depth: nat)
    requires WritesNumbers(realText) && ms != []
    ensures Emits(MemberLines(realText, ms, depth), MemberTokens(realText, ms))
    decreases ms, 0
  {
    var m := ms[0];
    StyledEmits(realText, m.value, depth);
    NamePartEmits(m.name);
    NewLineSpaces(depth);
    var text, ts := NamePart(m.name) + Styled(realText, m.value, depth), NameTokens(m.name) + Tokens(realText, m.value);
    var first := NewLine(depth) + text;
    FirmlyThen(NamePart(m.name), NameTokens(m.name), Styled(realText, m.value, depth), Tokens(realText, m.value));
    SpacedText(NewLine(depth), text, ts);
    if |ms| == 1 {
      assert first + [] == first;
    } else {
      MemberLinesEmit(realText, ms[1..], depth);
      CommaJoins(first, ts, MemberLines(realText, ms[1..], depth), MemberTokens(realText, ms[1..]));
      CommaBetween(first, MemberLines(realText, ms[1..], depth));
    }
  }

  /* The whole document. */
  lemma StyledDocumentLexes(realText: real -> string, v: Value)
    requires WritesNumbers(realText)
    ensures Lex(Styled(realText, v, 0) + "\n") == Tokens(realText, v)
  {
    StyledEmits(realText, v, 0);
    LexNewline();
    assert Delimits("\n");
    assert Tokens(realText, v) + [] == Tokens(realText, v);
  }
}
