/**
 FastWriter: a value appended to the document, and the proof that its text reads as exactly
 the tokens of the value.
 */
module JsonWriter {
  import opened JsonValue
  import opened JsonLexer
  import opened JsonNumber
  import opened JsonString
  import opened JsonTokens

  // ----- valueToQuotedString

  /* A character that valueToQuotedString has to escape. */
  predicate NeedsEscape(c: char) {
    c == '"' || c == '\\' || c == BACKSPACE || c == FORM_FEED || c == '\n' || c == '\r' || c == '\t' || IsControl(c)
  }

  lemma {:induction false} NothingToEscape(s: string)
    requires forall c :: c in s ==> !NeedsEscape(c)
    ensures Escape(s) == s
    decreases |s|
  {
    if s != [] {
      NothingToEscape(s[1..]);
      assert s[0] in s;
      assert s == [s[0]] + s[1..];
    }
  }

  lemma EscapeSnoc(s: string, i: nat)
    requires i < |s|
    ensures Escape(s[..i + 1]) == Escape(s[..i]) + EscapeChar(s[i])
  {
    assert s[..i + 1] == s[..i] + [s[i]];
    EscapeConcat(s[..i], [s[i]]);
    assert [s[i]][1..] == [];
    assert Escape([s[i]]) == EscapeChar(s[i]) + Escape([]);
  }

  /* The switch of the slow path. */
  method EscapeOne(c: char) returns (r: string)
    ensures r == EscapeChar(c)
  {
    if c == '"' {
      r := "\\\"";
    } else if c == '\\' {
      r := "\\\\";
    } else if c == BACKSPACE {
      r := "\\b";
    } else if c == FORM_FEED {
      r := "\\f";
    } else if c == '\n' {
      r := "\\n";
    } else if c == '\r' {
      r := "\\r";
    } else if c == '\t' {
      r := "\\t";
    } else if IsControl(c) {
      r := "\\u" + Hex4(c as int);
    } else {
      r := [c];
    }
  }

  /* The slow path, between the quotes. */
  method EscapeAll(value: CText) returns (result: string)
    ensures result == Escape(value)
  {
    result := [];
    var i := 0;
    while i < |value|
      invariant 0 <= i <= |value|
      invariant result == Escape(value[..i])
    {
      EscapeSnoc(value, i);
      var escaped := EscapeOne(value[i]);
      result := result + escaped;
      i := i + 1;
    }
    assert value[..|value|] == value;
  }

  method ValueToQuotedString(value: CText) returns (result: string)
    ensures result == Quoted(Escape(value))
  {
    if !(exists c :: c in value && NeedsEscape(c)) {
      NothingToEscape(value);
      return "\"" + value + "\"";
    }
    var body := EscapeAll(value);
    result := "\"" + body + "\"";
  }

  // ----- The text of a scalar.

  predicate IsScalarValue(v: Value) {
    !v.Array? && !v.Object?
  }

  function ScalarText(realText: real -> string, v: Value): string
    requires IsScalarValue(v)
  {
    match v
    case Null => "null"
    case Int(i) => IntText(i)
    case UInt(u) => Digits(u)
    case Real(r) => realText(r)
    case NullStr => Quoted([])
    case Str(s) => Quoted(Escape(s))
    case Bool(b) => if b then "true" else "false"
  }

  method WriteScalar(realText: real -> string, v: Value) returns (text: string)
    requires IsScalarValue(v) && !v.NullStr?
    ensures text == ScalarText(realText, v)
  {
    match v
    case Null => text := "null";
    case Int(i) => text := IntToString(i);
    case UInt(u) => text := UIntToString(u);
    case Real(r) => text := realText(r);
    case Str(s) => text := ValueToQuotedString(s);
    case Bool(b) => text := if b then "true" else "false";
  }

  /* Every real is written as one number token; "%#.16g" does so for finite doubles. */
  ghost predicate WritesNumbers(realText: real -> string) {
    forall r: real :: IsNumberText(realText(r))
  }

  ghost predicate IsNumberText(text: string) {
    text != [] && (IsDigit(text[0]) || text[0] == '-') && forall c :: c in text ==> IsNumberChar(c)
  }

  lemma ScalarEmits(realText: real -> string, v: Value)
    requires IsScalarValue(v) && WritesNumbers(realText)
    ensures Emits(ScalarText(realText, v), Tokens(realText, v))
  {
    match v
    case Null => WordEmits("null", NullToken); FirmIsEmitted("null", Tokens(realText, v));
    case Int(i) => IntTextShape(i); NumberEmits(IntText(i));
    case UInt(u) => DigitsShape(u); NumberEmits(Digits(u));
    case Real(r) =>
      assert IsNumberText(realText(r));
      NumberEmits(realText(r));
    case NullStr => QuotedStringEmits([]); FirmIsEmitted(Quoted(Escape([])), Tokens(realText, v));
    case Str(s) => QuotedStringEmits(s); FirmIsEmitted(Quoted(Escape(s)), Tokens(realText, v));
    case Bool(b) =>
      if b {
        WordEmits("true", TrueToken);
        FirmIsEmitted("true", Tokens(realText, v));
      } else {
        WordEmits("false", FalseToken);
        FirmIsEmitted("false", Tokens(realText, v));
      }
  }

  // ----- FastWriter

  /* What follows a member name: ":" or, for YAML, ": ". */
  function Separator(yaml: bool): string {
    if yaml then ": " else ":"
  }

  function FastText(yaml: bool, realText: real -> string, v: Value): string
    decreases v, 1
  {
    match v
    case Array(xs) => "[" + ElemsText(yaml, realText, xs) + "]"
    case Object(ms) => "{" + MembersText(yaml, realText, ms) + "}"
    case _ => ScalarText(realText, v)
  }

  function ElemsText(yaml: bool, realText: real -> string, xs: seq<Value>): string
    decreases xs, 0
  {
    if xs == [] then []
    else if |xs| == 1 then FastText(yaml, realText, xs[0])
    else FastText(yaml, realText, xs[0]) + "," + ElemsText(yaml, realText, xs[1..])
  }

  function NameText(yaml: bool, name: CText): string {
    Quoted(Escape(name)) + Separator(yaml)
  }

  function MembersText(yaml: bool, realText: real -> string, ms: seq<Member>): string
    decreases ms, 0
  {
    if ms == [] then []
    else if |ms| == 1 then NameText(yaml, ms[0].name) + FastText(yaml, realText, ms[0].value)
    else NameText(yaml, ms[0].name) + FastText(yaml, realText, ms[0].value) + "," + MembersText(yaml, realText, ms[1..])
  }

  /* What is still to be written after `i` elements. */
  function ElemsLeft(yaml: bool, realText: real -> string, xs: seq<Value>, i: nat): string
    requires i <= |xs|
  {
    (if 0 < i < |xs| then "," else "") + ElemsText(yaml, realText, xs[i..])
  }

  function ElemText(yaml: bool, realText: real -> string, v: Value, i: nat): string {
    (if i > 0 then "," else "") + FastText(yaml, realText, v)
  }

  lemma ElemsLeftStep(yaml: bool, realText: real -> string, xs: seq<Value>, i: nat)
    requires i < |xs|
    ensures ElemsLeft(yaml, realText, xs, i)
         == ElemText(yaml, realText, xs[i], i) + ElemsLeft(yaml, realText, xs, i + 1)
  {
    assert xs[i..][0] == xs[i] && xs[i..][1..] == xs[i + 1..];
  }

  function MembersLeft(yaml: bool, realText: real -> string, ms: seq<Member>, i: nat): string
    requires i <= |ms|
  {
    (if 0 < i < |ms| then "," else "") + MembersText(yaml, realText, ms[i..])
  }

  function MemberText(yaml: bool, realText: real -> string, m: Member, i: nat): string {
    (if i > 0 then "," else "") + (NameText(yaml, m.name) + FastText(yaml, realText, m.value))
  }

  lemma MembersLeftStep(yaml: bool, realText: real -> string, ms: seq<Member>, i: nat)
    requires i < |ms|
    ensures MembersLeft(yaml, realText, ms, i)
         == MemberText(yaml, realText, ms[i], i) + MembersLeft(yaml, realText, ms, i + 1)
  {
    assert ms[i..][0] == ms[i] && ms[i..][1..] == ms[i + 1..];
    MembersTextStep(yaml, realText, ms[i..]);
    var comma, first, rest := if i > 0 then "," else "", NameText(yaml, ms[i].name) + FastText(yaml, realText, ms[i].value), ms[i + 1..];
    var more := if rest == [] then [] else ",";
    Apart(comma, first, more, MembersText(yaml, realText, rest));
  }

  lemma MembersTextStep(yaml: bool, realText: real -> string, ms: seq<Member>)
    requires ms != []
    ensures MembersText(yaml, realText, ms) ==
            (NameText(yaml, ms[0].name) + FastText(yaml, realText, ms[0].value)) + ((if |ms| == 1 then [] else ",") + MembersText(yaml, realText, ms[1..]))
  {
  }

  lemma Apart(a: string, b: string, c: string, d: string)
    ensures a + (b + (c + d)) == (a + b) + (c + d)
  {
  }

  lemma Between(before: string, open: string, text: string, close: string)
    ensures before + open + text + close == before + (open + text + close)
  {
  }

  lemma Regroup(a: string, b: string, c: string, d: string, e: string)
    ensures a + b + c + d + e == a + (b + ((c + d) + e))
  {
  }

  lemma Onward(a: string, b: string, c: string)
    ensures (a + b) + c == a + (b + c)
  {
  }

  class FastWriter {
    var document: string
    const yaml: bool
    const realText: real -> string

    constructor (yaml: bool, realText: real -> string)
      ensures document == [] && this.yaml == yaml && this.realText == realText
    {
      document := [];
      this.yaml := yaml;
      this.realText := realText;
    }

    method WriteValue(v: Value)
      requires Printable(v)
      modifies this
      ensures document == old(document) + FastText(yaml, realText, v)
      decreases v, 1
    {
      if v.Array? {
        Between(document, "[", ElemsText(yaml, realText, v.elems), "]");
        document := document + "[";
        WriteElems(v.elems);
        document := document + "]";
      } else if v.Object? {
        Between(document, "{", MembersText(yaml, realText, v.members), "}");
        document := document + "{";
        WriteMembers(v.members);
        document := document + "}";
      } else {
        var text := WriteScalar(realText, v);
        document := document + text;
      }
    }

    method WriteElems(xs: seq<Value>)
      requires forall x :: x in xs ==> Printable(x)
      modifies this
      ensures document == old(document) + ElemsText(yaml, realText, xs)
      decreases xs, 0
    {
      var index := 0;
      assert xs[0..] == xs;
      while index < |xs|
        invariant 0 <= index <= |xs|
        invariant document + ElemsLeft(yaml, realText, xs, index) == old(document) + ElemsText(yaml, realText, xs)
      {
        ElemsLeftStep(yaml, realText, xs, index);
        Onward(document, ElemText(yaml, realText, xs[index], index), ElemsLeft(yaml, realText, xs, index + 1));
        WriteElem(xs[index], index);
        index := index + 1;
      }
    }

    method WriteElem(v: Value, index: nat)
      requires Printable(v)
      modifies this
      ensures document == old(document) + ElemText(yaml, realText, v, index)
      decreases v, 2
    {
      if index > 0 {
        document := document + ",";
      }
      WriteValue(v);
    }

    method WriteMembers(ms: seq<Member>)
      requires forall m :: m in ms ==> Printable(m.value)
      modifies this
      ensures document == old(document) + MembersText(yaml, realText, ms)
      decreases ms, 0
    {
      var index := 0;
      assert ms[0..] == ms;
      while index < |ms|
        invariant 0 <= index <= |ms|
        invariant document + MembersLeft(yaml, realText, ms, index) == old(document) + MembersText(yaml, realText, ms)
      {
        MembersLeftStep(yaml, realText, ms, index);
        Onward(document, MemberText(yaml, realText, ms[index], index), MembersLeft(yaml, realText, ms, index + 1));
        WriteMember(ms[index], index);
        index := index + 1;
      }
    }

    method WriteMember(m: Member, index: nat)
      requires Printable(m.value)
      modifies this
      ensures document == old(document) + MemberText(yaml, realText, m, index)
      decreases m, 2
    {
      var comma := if index > 0 then "," else "";
      var name := ValueToQuotedString(m.name);
      Regroup(document, comma, name, Separator(yaml), FastText(yaml, realText, m.value));
      document := document + comma;
      document := document + name;
      document := document + Separator(yaml);
      WriteValue(m.value);
    }

    method Write(root: Value) returns (text: string)
      requires Printable(root)
      modifies this
      ensures text == FastText(yaml, realText, root) + "\n"
    {
      document := "";
      WriteValue(root);
      document := document + "\n";
      text := document;
    }
  }

  // ----- The text reads as the tokens of the value.

  lemma SeparatorEmits(yaml: bool)
    ensures EmitsFirmly(Separator(yaml), [Punctuation(':')])
  {
    PunctuationEmits(':');
    if yaml {
      SpacesEmit(" ");
      FirmlyThenFirmly(":", [Punctuation(':')], " ", []);
      assert ":" + " " == ": ";
      assert [Punctuation(':')] + [] == [Punctuation(':')];
    }
  }

  lemma NameTokensSplit(name: CText, q: string)
    requires q == Quoted(Escape(name))
    ensures NameTokens(name) == [Token(StringToken, q)] + [Punctuation(':')]
  {
  }

  lemma NameEmits(yaml: bool, name: CText)
    ensures EmitsFirmly(NameText(yaml, name), NameTokens(name))
  {
    QuotedStringEmits(name);
    SeparatorEmits(yaml);
    var q := Quoted(Escape(name));
    NameTokensSplit(name, q);
    FirmlyThenFirmly(q, [Token(StringToken, q)], Separator(yaml), [Punctuation(':')]);
  }

  lemma {:induction false} FastTextEmits(yaml: bool, realText: real -> string, v: Value)
    requires WritesNumbers(realText)
    ensures Emits(FastText(yaml, realText, v), Tokens(realText, v))
    decreases v, 1
  {
    match v
    case Array(xs) =>
      ElemsEmit(yaml, realText, xs);
      Bracketed('[', ElemsText(yaml, realText, xs), ElemTokens(realText, xs), ']');
    case Object(ms) =>
      MembersEmit(yaml, realText, ms);
      Bracketed('{', MembersText(yaml, realText, ms), MemberTokens(realText, ms), '}');
    case _ => ScalarEmits(realText, v);
  }

  lemma Bracketed(open: char, text: string, ts: seq<Token>, close: char)
    requires IsPunctuation(open) && IsPunctuation(close)
    requires Emits(text, ts)
    ensures EmitsFirmly([open] + text + [close], [Punctuation(open)] + ts + [Punctuation(close)])
    ensures Emits([open] + text + [close], [Punctuation(open)] + ts + [Punctuation(close)])
  {
    PunctuationEmits(open);
    PunctuationEmits(close);
    FirmlyThen([open], [Punctuation(open)], text, ts);
    EmitsThenFirmly([open] + text, [Punctuation(open)] + ts, [close], [Punctuation(close)]);
    FirmIsEmitted([open] + text + [close], [Punctuation(open)] + ts + [Punctuation(close)]);
  }

  /* a , b */
  lemma CommaJoins(a: string, ts: seq<Token>, b: string, us: seq<Token>)
    requires Emits(a, ts) && Emits(b, us)
    ensures Emits(a + "," + b, ts + [Punctuation(',')] + us)
  {
    PunctuationEmits(',');
    EmitsThenFirmly(a, ts, ",", [Punctuation(',')]);
    FirmlyThen(a + ",", ts + [Punctuation(',')], b, us);
  }

  lemma {:induction false} ElemsEmit(yaml: bool, realText: real -> string, xs: seq<Value>)
    requires WritesNumbers(realText)
    ensures Emits(ElemsText(yaml, realText, xs), ElemTokens(realText, xs))
    decreases xs, 0
  {
    if xs == [] {
      SpacesEmit([]);
      FirmIsEmitted([], []);
    } else {
      FastTextEmits(yaml, realText, xs[0]);
      if |xs| > 1 {
        ElemsEmit(yaml, realText, xs[1..]);
        CommaJoins(FastText(yaml, realText, xs[0]), Tokens(realText, xs[0]),
                   ElemsText(yaml, realText, xs[1..]), ElemTokens(realText, xs[1..]));
      }
    }
  }

  lemma {:induction false} MembersEmit(yaml: bool, realText: real -> string, ms: seq<Member>)
    requires WritesNumbers(realText)
    ensures Emits(MembersText(yaml, realText, ms), MemberTokens(realText, ms))
    decreases ms, 0
  {
    if ms == [] {
      SpacesEmit([]);
      FirmIsEmitted([], []);
    } else {
      var m := ms[0];
      assert m in ms;
      FastTextEmits(yaml, realText, m.value);
      NameEmits(yaml, m.name);
      FirmlyThen(NameText(yaml, m.name), NameTokens(m.name), FastText(yaml, realText, m.value), Tokens(realText, m.value));
      if |ms| > 1 {
        MembersEmit(yaml, realText, ms[1..]);
        CommaJoins(NameText(yaml, m.name) + FastText(yaml, realText, m.value),
                   NameTokens(m.name) + Tokens(realText, m.value),
                   MembersText(yaml, realText, ms[1..]), MemberTokens(realText, ms[1..]));
      }
    }
  }

  /* The tokens of a whole document written by FastWriter. */
  lemma FastDocumentLexes(yaml: bool, realText: real -> string, v: Value)
    requires WritesNumbers(realText)
    ensures Lex(FastText(yaml, realText, v) + "\n") == Tokens(realText, v)
  {
    FastTextEmits(yaml, realText, v);
    LexNewline();
    assert Delimits("\n");
    assert Tokens(realText, v) + [] == Tokens(realText, v);
  }

  lemma LexNewline()
    ensures Lex("\n") == []
  {
    assert "\n"[1..] == [];
  }

  // ----- FastWriter adds nothing to the tokens.

  /* The texts of the tokens one after the other; for YAML, with a space after each colon. */
  function Spelled(yaml: bool, ts: seq<Token>): string {
    if ts == [] then []
    else ts[0].text + (if yaml && ts[0].kind == Colon then " " else "") + Spelled(yaml, ts[1..])
  }

  lemma {:induction false} SpelledAppend(yaml: bool, ts: seq<Token>, us: seq<Token>)
    ensures Spelled(yaml, ts + us) == Spelled(yaml, ts) + Spelled(yaml, us)
    decreases |ts|
  {
    if ts == [] {
      assert ts + us == us;
    } else {
      assert (ts + us)[1..] == ts[1..] + us;
      SpelledAppend(yaml, ts[1..], us);
      Onward(ts[0].text + (if yaml && ts[0].kind == Colon then " " else ""), Spelled(yaml, ts[1..]), Spelled(yaml, us));
    }
  }

  lemma SpelledOne(yaml: bool, t: Token)
    ensures Spelled(yaml, [t]) == t.text + if yaml && t.kind == Colon then " " else ""
  {
    assert [t][1..] == [];
  }

  lemma SpelledBetween(yaml: bool, a: Token, ts: seq<Token>, b: Token)
    requires a.kind != Colon && b.kind != Colon
    ensures Spelled(yaml, [a] + ts + [b]) == a.text + Spelled(yaml, ts) + b.text
  {
    SpelledAppend(yaml, [a] + ts, [b]);
    SpelledAppend(yaml, [a], ts);
    SpelledOne(yaml, a);
    SpelledOne(yaml, b);
  }

  lemma SpelledName(yaml: bool, name: CText)
    ensures Spelled(yaml, NameTokens(name)) == NameText(yaml, name)
  {
    var q := Quoted(Escape(name));
    NameTokensSplit(name, q);
    SpelledAppend(yaml, [Token(StringToken, q)], [Punctuation(':')]);
    SpelledOne(yaml, Token(StringToken, q));
    SpelledOne(yaml, Punctuation(':'));
    assert q + "" == q;
  }

  lemma SpelledList(yaml: bool, ts: seq<Token>, us: seq<Token>)
    ensures Spelled(yaml, ts + [Punctuation(',')] + us) == Spelled(yaml, ts) + "," + Spelled(yaml, us)
  {
    SpelledAppend(yaml, ts + [Punctuation(',')], us);
    SpelledAppend(yaml, ts, [Punctuation(',')]);
    SpelledOne(yaml, Punctuation(','));
    assert "," + "" == ",";
  }

  lemma {:induction false} FastTextIsTokens(yaml: bool, realText: real -> string, v: Value)
    ensures FastText(yaml, realText, v) == Spelled(yaml, Tokens(realText, v))
    decreases v, 1
  {
    match v
    case Array(xs) =>
      ElemsTextIsTokens(yaml, realText, xs);
      SpelledBetween(yaml, Punctuation('['), ElemTokens(realText, xs), Punctuation(']'));
    case Object(ms) =>
      MembersTextIsTokens(yaml, realText, ms);
      SpelledBetween(yaml, Punctuation('{'), MemberTokens(realText, ms), Punctuation('}'));
    case _ => SpelledOne(yaml, Tokens(realText, v)[0]);
  }

  lemma {:induction false} ElemsTextIsTokens(yaml: bool, realText: real -> string, xs: seq<Value>)
    ensures ElemsText(yaml, realText, xs) == Spelled(yaml, ElemTokens(realText, xs))
    decreases xs, 0
  {
    if xs != [] {
      FastTextIsTokens(yaml, realText, xs[0]);
      if |xs| > 1 {
        ElemsTextIsTokens(yaml, realText, xs[1..]);
        SpelledList(yaml, Tokens(realText, xs[0]), ElemTokens(realText, xs[1..]));
      }
    }
  }

  lemma {:induction false} MembersTextIsTokens(yaml: bool, realText: real -> string, ms: seq<Member>)
    ensures MembersText(yaml, realText, ms) == Spelled(yaml, MemberTokens(realText, ms))
    decreases ms, 0
  {
    if ms != [] {
      var m := ms[0];
      FastTextIsTokens(yaml, realText, m.value);
      SpelledName(yaml, m.name);
      SpelledAppend(yaml, NameTokens(m.name), Tokens(realText, m.value));
      if |ms| > 1 {
        MembersTextIsTokens(yaml, realText, ms[1..]);
        SpelledList(yaml, NameTokens(m.name) + Tokens(realText, m.value), MemberTokens(realText, ms[1..]));
      }
    }
  }
}
