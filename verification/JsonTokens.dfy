/**
 The token sequence of a value, and the two halves of "parsing inverts writing": the parser
 rebuilds every value from its tokens, and every value the parser builds is one of those.
 */
module JsonTokens {
  import opened Options
  import opened JsonValue
  import opened JsonLexer
  import opened JsonNumber
  import opened JsonString
  import opened JsonParser

  // ----- The values that the reader can produce.

  /* Integers in the exact range, names strictly ascending. */
  ghost predicate WellFormed(v: Value) {
    match v
    case Int(i) => i >= -2147483639
    case UInt(u) => 2147483648 <= u <= 4294967289
    case NullStr => false
    case Array(xs) => forall x :: x in xs ==> WellFormed(x)
    case Object(ms) => Sorted(ms) && forall m :: m in ms ==> WellFormed(m.value)
    case _ => true
  }

  ghost predicate RealFree(v: Value) {
    match v
    case Real(_) => false
    case Array(xs) => forall x :: x in xs ==> RealFree(x)
    case Object(ms) => forall m :: m in ms ==> RealFree(m.value)
    case _ => true
  }

  /* Every string has a pointer, as the writers demand. */
  ghost predicate Printable(v: Value) {
    match v
    case NullStr => false
    case Array(xs) => forall x :: x in xs ==> Printable(x)
    case Object(ms) => forall m :: m in ms ==> Printable(m.value)
    case _ => true
  }

  lemma {:induction false} WellFormedPrints(v: Value)
    requires WellFormed(v)
    ensures Printable(v)
  {
    match v
    case Array(xs) =>
      forall x | x in xs ensures Printable(x) { WellFormedPrints(x); }
    case Object(ms) =>
      forall m | m in ms ensures Printable(m.value) { WellFormedPrints(m.value); }
    case _ =>
  }

  // ----- The tokens of a value.

  /* `realText` is the text of a floating point number; a string without a pointer counts as empty. */
  function Tokens(realText: real -> string, v: Value): (ts: seq<Token>)
    ensures |ts| > 0
    decreases v, 1
  {
    match v
    case Null => [Token(NullToken, "null")]
    case Int(i) => [Token(Number, IntText(i))]
    case UInt(u) => [Token(Number, Digits(u))]
    case Real(r) => [Token(Number, realText(r))]
    case NullStr => [Token(StringToken, Quoted([]))]
    case Str(s) => [Token(StringToken, Quoted(Escape(s)))]
    case Bool(b) => [if b then Token(TrueToken, "true") else Token(FalseToken, "false")]
    case Array(xs) => [Punctuation('[')] + ElemTokens(realText, xs) + [Punctuation(']')]
    case Object(ms) => [Punctuation('{')] + MemberTokens(realText, ms) + [Punctuation('}')]
  }

  function ElemTokens(realText: real -> string, xs: seq<Value>): seq<Token>
    decreases xs, 0
  {
    if xs == [] then []
    else if |xs| == 1 then Tokens(realText, xs[0])
    else Tokens(realText, xs[0]) + [Punctuation(',')] + ElemTokens(realText, xs[1..])
  }

  function NameTokens(name: string): seq<Token> {
    [Token(StringToken, Quoted(Escape(name))), Punctuation(':')]
  }

  function MemberTokens(realText: real -> string, ms: seq<Member>): seq<Token>
    decreases ms, 0
  {
    if ms == [] then []
    else if |ms| == 1 then NameTokens(ms[0].name) + Tokens(realText, ms[0].value)
    else NameTokens(ms[0].name) + Tokens(realText, ms[0].value) + [Punctuation(',')] + MemberTokens(realText, ms[1..])
  }

  // ----- The parser rebuilds a value from its tokens.

  lemma HeadTail(t: Token, rest: seq<Token>)
    ensures Head([t] + rest) == t && Tail([t] + rest) == rest
    ensures t.kind != Comment ==> SkipComments([t] + rest) == [t] + rest
  {
  }

  lemma {:induction false} FirstToken(realText: real -> string, v: Value, rest: seq<Token>)
    ensures var h := Head(Tokens(realText, v) + rest);
            h == Tokens(realText, v)[0] && h.kind != Comment && h.kind != ArrayEnd
  {
  }

  lemma NumberStep(cfg: Config, t: Token, v: Value, rest: seq<Token>, current: Value)
    requires t.kind == Number && DecodeNumber(cfg.scan, t.text) == Some(v)
    ensures ReadValue(cfg, [t] + rest, current) == Parse(true, v, rest, [])
  {
    HeadTail(t, rest);
  }

  lemma StringStep(cfg: Config, t: Token, s: string, rest: seq<Token>, current: Value)
    requires t.kind == StringToken && DecodeString(t.text) == Some(s) && NUL !in s
    ensures ReadValue(cfg, [t] + rest, current) == Parse(true, Str(s), rest, [])
  {
    HeadTail(t, rest);
  }

  lemma WordStep(cfg: Config, t: Token, rest: seq<Token>, current: Value)
    requires t.kind == TrueToken || t.kind == FalseToken || t.kind == NullToken
    ensures ReadValue(cfg, [t] + rest, current)
         == Parse(true, if t.kind == NullToken then Null else Bool(t.kind == TrueToken), rest, [])
  {
    HeadTail(t, rest);
  }

  lemma ReadScalar(cfg: Config, realText: real -> string, v: Value, rest: seq<Token>, current: Value)
    requires WellFormed(v) && RealFree(v) && !v.Array? && !v.Object?
    ensures ReadValue(cfg, Tokens(realText, v) + rest, current) == Parse(true, v, rest, [])
  {
    var t := Tokens(realText, v)[0];
    assert Tokens(realText, v) == [t];
    match v
    case Int(i) =>
      DecodeIntText(cfg.scan, i);
      NumberStep(cfg, t, v, rest, current);
    case UInt(u) =>
      DecodeUIntText(cfg.scan, u);
      NumberStep(cfg, t, v, rest, current);
    case Str(s) =>
      DecodeQuoted(s);
      StringStep(cfg, t, s, rest, current);
    case _ => WordStep(cfg, t, rest, current);
  }

  /* The parser inverts `Tokens` on every well-formed value without reals, whatever tokens follow. */
  lemma {:induction false} ReadTokens(cfg: Config, realText: real -> string, v: Value, rest: seq<Token>, current: Value)
    requires WellFormed(v) && RealFree(v)
    ensures ReadValue(cfg, Tokens(realText, v) + rest, current) == Parse(true, v, rest, [])
    decreases v, 1
  {
    match v
    case Array(xs) => ReadArrayTokens(cfg, realText, xs, rest, current);
    case Object(ms) => ReadObjectTokens(cfg, realText, ms, rest, current);
    case _ => ReadScalar(cfg, realText, v, rest, current);
  }

  lemma {:induction false} ReadArrayTokens(cfg: Config, realText: real -> string, xs: seq<Value>, rest: seq<Token>, current: Value)
    requires forall x :: x in xs ==> WellFormed(x) && RealFree(x)
    ensures ReadValue(cfg, Tokens(realText, Array(xs)) + rest, current) == Parse(true, Array(xs), rest, [])
    decreases xs, 1
  {
    var end := [Punctuation(']')] + rest;
    var inner := ElemTokens(realText, xs) + end;
    assert Tokens(realText, Array(xs)) + rest == [Punctuation('[')] + inner;
    ArrayStep(cfg, inner, current);
    if xs == [] {
      assert inner == end;
      HeadTail(Punctuation(']'), rest);
    } else {
      ElemsStart(realText, xs, end);
      ReadElemTokens(cfg, realText, xs, rest, []);
      assert [] + xs == xs;
    }
  }

  lemma {:induction false} ReadObjectTokens(cfg: Config, realText: real -> string, ms: seq<Member>, rest: seq<Token>, current: Value)
    requires Sorted(ms)
    requires forall m :: m in ms ==> WellFormed(m.value) && RealFree(m.value)
    ensures ReadValue(cfg, Tokens(realText, Object(ms)) + rest, current) == Parse(true, Object(ms), rest, [])
    decreases ms, 2
  {
    var end := [Punctuation('}')] + rest;
    var inner := MemberTokens(realText, ms) + end;
    assert Tokens(realText, Object(ms)) + rest == [Punctuation('{')] + inner;
    ObjectStep(cfg, inner, current);
    if ms == [] {
      assert inner == end;
      HeadTail(Punctuation('}'), rest);
    } else {
      assert [] + ms == ms;
      ReadMemberTokens(cfg, realText, ms, rest, [], []);
    }
  }

  /* One turn of each loop of the parser, when nothing goes wrong. */
  lemma ElemsStep(cfg: Config, ts: seq<Token>, acc: seq<Value>, v: Value, t: Token, rest: seq<Token>)
    requires ReadValue(cfg, ts, Null) == Parse(true, v, [t] + rest, []) && t.kind != Comment
    ensures ReadElems(cfg, ts, acc) ==
      if t.kind == ArrayEnd then Parse(true, Array(acc + [v]), rest, []) else ReadElems(cfg, rest, acc + [v])
  {
    HeadTail(t, rest);
  }

  lemma NameStep(cfg: Config, key: Token, name: string, ts: seq<Token>, acc: seq<Member>, before: string)
    requires key.kind == StringToken && DecodeString(key.text) == Some(name)
    ensures ReadMembers(cfg, [key] + ([Punctuation(':')] + ts), acc, before) == ReadMember(cfg, ts, acc, name)
  {
    HeadTail(key, [Punctuation(':')] + ts);
    HeadTail(Punctuation(':'), ts);
  }

  lemma MemberStep(cfg: Config, ts: seq<Token>, acc: seq<Member>, name: CText, v: Value, t: Token, rest: seq<Token>)
    requires (t.kind == Comma || t.kind == ObjectEnd)
    requires ReadValue(cfg, ts, Resolve(acc, name)) == Parse(true, v, [t] + rest, [])
    ensures ReadMember(cfg, ts, acc, name) ==
      if t.kind == ObjectEnd then Parse(true, Object(Put(acc, name, v)), rest, [])
      else ReadMembers(cfg, rest, Put(acc, name, v), name)
  {
    HeadTail(t, rest);
  }

  lemma ArrayStep(cfg: Config, ts: seq<Token>, current: Value)
    ensures ReadValue(cfg, [Punctuation('[')] + ts, current) == ReadArray(cfg, ts)
  {
    HeadTail(Punctuation('['), ts);
  }

  lemma ObjectStep(cfg: Config, ts: seq<Token>, current: Value)
    ensures ReadValue(cfg, [Punctuation('{')] + ts, current) == ReadMembers(cfg, ts, [], [])
  {
    HeadTail(Punctuation('{'), ts);
  }

  lemma ElemsSplit(realText: real -> string, xs: seq<Value>, end: seq<Token>)
    requires xs != []
    ensures ElemTokens(realText, xs) + end == Tokens(realText, xs[0]) + ElemsAfter(realText, xs, end)
  {
  }

  /* The tokens after the first element, up to and including `end`. */
  function ElemsAfter(realText: real -> string, xs: seq<Value>, end: seq<Token>): seq<Token>
    requires xs != []
  {
    if |xs| == 1 then end else [Punctuation(',')] + (ElemTokens(realText, xs[1..]) + end)
  }

  lemma ElemsStart(realText: real -> string, xs: seq<Value>, end: seq<Token>)
    requires xs != []
    ensures Head(ElemTokens(realText, xs) + end).kind != ArrayEnd
  {
    ElemsSplit(realText, xs, end);
    FirstToken(realText, xs[0], ElemsAfter(realText, xs, end));
  }

  lemma {:induction false} ReadElemTokens(cfg: Config, realText: real -> string, xs: seq<Value>, rest: seq<Token>, acc: seq<Value>)
    requires xs != [] && forall x :: x in xs ==> WellFormed(x) && RealFree(x)
    ensures ReadElems(cfg, ElemTokens(realText, xs) + ([Punctuation(']')] + rest), acc)
         == Parse(true, Array(acc + xs), rest, [])
    decreases xs, 0
  {
    var end := [Punctuation(']')] + rest;
    var ts := ElemTokens(realText, xs) + end;
    ElemsSplit(realText, xs, end);
    ReadTokens(cfg, realText, xs[0], ElemsAfter(realText, xs, end), Null);
    if |xs| == 1 {
      ElemsStep(cfg, ts, acc, xs[0], Punctuation(']'), rest);
      assert acc + [xs[0]] == acc + xs;
    } else {
      ElemsStep(cfg, ts, acc, xs[0], Punctuation(','), ElemTokens(realText, xs[1..]) + end);
      ReadElemTokens(cfg, realText, xs[1..], rest, acc + [xs[0]]);
      assert acc + [xs[0]] + xs[1..] == acc + xs;
    }
  }

  // ----- What separates two elements does not matter.

  /* The elements' tokens with one separator between each two. */
  function Separated(realText: real -> string, xs: seq<Value>, seps: seq<Token>): seq<Token>
    requires |xs| == |seps| + 1
    decreases |seps|
  {
    if seps == [] then Tokens(realText, xs[0])
    else Tokens(realText, xs[0]) + [seps[0]] + Separated(realText, xs[1..], seps[1..])
  }

  /* The tokens after the first element, up to and including `end`. */
  function SeparatedAfter(realText: real -> string, xs: seq<Value>, seps: seq<Token>, end: seq<Token>): seq<Token>
    requires |xs| == |seps| + 1
  {
    if seps == [] then end else [seps[0]] + (Separated(realText, xs[1..], seps[1..]) + end)
  }

  lemma SeparatedSplit(realText: real -> string, xs: seq<Value>, seps: seq<Token>, end: seq<Token>)
    requires |xs| == |seps| + 1
    ensures Separated(realText, xs, seps) + end == Tokens(realText, xs[0]) + SeparatedAfter(realText, xs, seps, end)
  {
  }

  /* readArray takes any token but a comment or a closing bracket for a separator. */
  predicate Separates(t: Token) {
    t.kind != Comment && t.kind != ArrayEnd
  }

  lemma {:induction false} ReadSeparatedElems(cfg: Config, realText: real -> string, xs: seq<Value>, seps: seq<Token>,
                                              rest: seq<Token>, acc: seq<Value>)
    requires |xs| == |seps| + 1 && forall x :: x in xs ==> WellFormed(x) && RealFree(x)
    requires forall t :: t in seps ==> Separates(t)
    ensures ReadElems(cfg, Separated(realText, xs, seps) + ([Punctuation(']')] + rest), acc)
         == Parse(true, Array(acc + xs), rest, [])
    decreases |seps|
  {
    var end := [Punctuation(']')] + rest;
    var ts := Separated(realText, xs, seps) + end;
    SeparatedSplit(realText, xs, seps, end);
    ReadTokens(cfg, realText, xs[0], SeparatedAfter(realText, xs, seps, end), Null);
    if seps == [] {
      ElemsStep(cfg, ts, acc, xs[0], Punctuation(']'), rest);
      assert acc + [xs[0]] == acc + xs;
    } else {
      assert seps[0] in seps;
      ElemsStep(cfg, ts, acc, xs[0], seps[0], Separated(realText, xs[1..], seps[1..]) + end);
      ReadSeparatedElems(cfg, realText, xs[1..], seps[1..], rest, acc + [xs[0]]);
      assert acc + [xs[0]] + xs[1..] == acc + xs;
    }
  }

  /* Whatever separators the elements have, the array is read without an error ... */
  lemma AnySeparatorReads(cfg: Config, realText: real -> string, xs: seq<Value>, seps: seq<Token>, rest: seq<Token>, current: Value)
    requires |xs| == |seps| + 1 && forall x :: x in xs ==> WellFormed(x) && RealFree(x)
    requires forall t :: t in seps ==> Separates(t)
    ensures ReadValue(cfg, [Punctuation('[')] + (Separated(realText, xs, seps) + ([Punctuation(']')] + rest)), current)
         == Parse(true, Array(xs), rest, [])
  {
    var end := [Punctuation(']')] + rest;
    ArrayStep(cfg, Separated(realText, xs, seps) + end, current);
    SeparatedSplit(realText, xs, seps, end);
    FirstToken(realText, xs[0], SeparatedAfter(realText, xs, seps, end));
    ReadSeparatedElems(cfg, realText, xs, seps, rest, []);
    assert [] + xs == xs;
  }

  /* ... while section 5 of RFC 8259 allows these tokens exactly when every separator is a comma. */
  lemma {:induction false} CommasExactly(realText: real -> string, xs: seq<Value>, seps: seq<Token>)
    requires |xs| == |seps| + 1
    ensures Separated(realText, xs, seps) == ElemTokens(realText, xs) <==> AllCommas(seps)
    ensures |Separated(realText, xs, seps)| == |ElemTokens(realText, xs)|
    decreases |seps|
  {
    if seps != [] {
      CommasExactly(realText, xs[1..], seps[1..]);
      var first := Tokens(realText, xs[0]);
      var s, e := Separated(realText, xs[1..], seps[1..]), ElemTokens(realText, xs[1..]);
      SameParts(first, [seps[0]], s, [Punctuation(',')], e);
    }
  }

  predicate AllCommas(seps: seq<Token>) {
    seps == [] || (seps[0] == Punctuation(',') && AllCommas(seps[1..]))
  }

  lemma SameParts<T>(a: seq<T>, b: seq<T>, c: seq<T>, b': seq<T>, c': seq<T>)
    requires |b| == |b'|
    ensures a + b + c == a + b' + c' <==> b == b' && c == c'
  {
    if a + b + c == a + b' + c' {
      assert b == (a + b + c)[|a|..|a| + |b|] && c == (a + b + c)[|a| + |b|..];
      assert b' == (a + b' + c')[|a|..|a| + |b|] && c' == (a + b' + c')[|a| + |b|..];
    }
  }

  /* The tokens after the value of the first member, up to and including `end`. */
  function MembersAfter(realText: real -> string, ms: seq<Member>, end: seq<Token>): seq<Token>
    requires ms != []
  {
    if |ms| == 1 then end else [Punctuation(',')] + (MemberTokens(realText, ms[1..]) + end)
  }

  lemma MembersSplit(realText: real -> string, ms: seq<Member>, end: seq<Token>)
    requires ms != []
    ensures MemberTokens(realText, ms) + end ==
            [NameTokens(ms[0].name)[0]] + ([Punctuation(':')] + (Tokens(realText, ms[0].value) + MembersAfter(realText, ms, end)))
  {
  }

  lemma {:induction false} ReadMemberTokens(cfg: Config, realText: real -> string, ms: seq<Member>, rest: seq<Token>,
                                            acc: seq<Member>, name: string)
    requires ms != [] && Sorted(acc + ms)
    requires forall m :: m in ms ==> WellFormed(m.value) && RealFree(m.value)
    ensures ReadMembers(cfg, MemberTokens(realText, ms) + ([Punctuation('}')] + rest), acc, name)
         == Parse(true, Object(acc + ms), rest, [])
    decreases ms, 1
  {
    var end := [Punctuation('}')] + rest;
    var m := ms[0];
    assert m in ms;
    MembersSplit(realText, ms, end);
    DecodeQuoted(m.name);
    NameStep(cfg, NameTokens(m.name)[0], m.name, Tokens(realText, m.value) + MembersAfter(realText, ms, end), acc, name);
    ReadMemberValue(cfg, realText, ms, rest, acc);
  }

  lemma LastName(acc: seq<Member>, ms: seq<Member>)
    requires ms != [] && Sorted(acc + ms)
    ensures forall i :: 0 <= i < |acc| ==> StrLess(acc[i].name, ms[0].name)
    ensures Sorted((acc + [ms[0]]) + ms[1..])
    ensures (acc + [ms[0]]) + ms[1..] == acc + ms
  {
    assert (acc + [ms[0]]) + ms[1..] == acc + ms;
    forall i | 0 <= i < |acc| ensures StrLess(acc[i].name, ms[0].name) {
      assert (acc + ms)[i] == acc[i] && (acc + ms)[|acc|] == ms[0];
    }
  }

  lemma {:induction false} ReadMemberValue(cfg: Config, realText: real -> string, ms: seq<Member>, rest: seq<Token>, acc: seq<Member>)
    requires ms != [] && Sorted(acc + ms)
    requires forall m :: m in ms ==> WellFormed(m.value) && RealFree(m.value)
    ensures ReadMember(cfg, Tokens(realText, ms[0].value) + MembersAfter(realText, ms, [Punctuation('}')] + rest),
                       acc, ms[0].name)
         == Parse(true, Object(acc + ms), rest, [])
    decreases ms, 0
  {
    var end := [Punctuation('}')] + rest;
    var m := ms[0];
    assert m in ms;
    LastName(acc, ms);
    PutLast(acc, m.name, m.value);
    var after := MembersAfter(realText, ms, end);
    var ts := Tokens(realText, m.value) + after;
    ReadTokens(cfg, realText, m.value, after, Null);
    if |ms| == 1 {
      MemberStep(cfg, ts, acc, m.name, m.value, Punctuation('}'), rest);
      assert acc + [m] == acc + ms;
    } else {
      MemberStep(cfg, ts, acc, m.name, m.value, Punctuation(','), MemberTokens(realText, ms[1..]) + end);
      ReadMemberTokens(cfg, realText, ms[1..], rest, acc + [m], m.name);
    }
  }

  // ----- Every value the parser builds is well formed.

  lemma PutWellFormed(ms: seq<Member>, name: CText, v: Value)
    requires WellFormed(Object(ms)) && WellFormed(v)
    ensures WellFormed(Object(Put(ms, name, v)))
  {
    PutKeepsSorted(ms, name, v);
    var ns := Put(ms, name, v);
    forall m | m in ns ensures WellFormed(m.value) {
      assert m == Member(name, v) || m in ms;
    }
  }

  lemma ResolveWellFormed(ms: seq<Member>, name: string)
    requires WellFormed(Object(ms))
    ensures WellFormed(Resolve(ms, name))
  {
  }

  lemma {:induction false} ReadValueWellFormed(cfg: Config, ts: seq<Token>, current: Value)
    requires WellFormed(current)
    ensures WellFormed(ReadValue(cfg, ts, current).value)
    decreases |ts|, 2
  {
    var us := if cfg.allowComments then SkipComments(ts) else ts;
    match Head(us).kind
    case ObjectBegin => ReadMembersWellFormed(cfg, Tail(us), [], []);
    case ArrayBegin =>
      if Head(Tail(us)).kind != ArrayEnd { ReadElemsWellFormed(cfg, Tail(us), []); }
    case Number => DecodedIntegersAreExact(cfg.scan, Head(us).text);
    case _ =>
  }

  lemma {:induction false} ReadMembersWellFormed(cfg: Config, ts: seq<Token>, ms: seq<Member>, name: string)
    requires WellFormed(Object(ms))
    ensures WellFormed(ReadMembers(cfg, ts, ms, name).value)
    decreases |ts|, 1
  {
    var us := SkipComments(ts);
    var t, rest := Head(us), Tail(us);
    if t.kind == StringToken && DecodeString(t.text).Some? && Head(rest).kind == Colon {
      ReadMemberWellFormed(cfg, Tail(rest), ms, DecodeString(t.text).value);
    }
  }

  lemma {:induction false} ReadMemberWellFormed(cfg: Config, ts: seq<Token>, ms: seq<Member>, name: string)
    requires WellFormed(Object(ms))
    ensures WellFormed(ReadMember(cfg, ts, ms, name).value)
    decreases |ts|, 3
  {
    var key := CString(name);
    ResolveWellFormed(ms, key);
    ReadValueWellFormed(cfg, ts, Resolve(ms, key));
    var child := ReadValue(cfg, ts, Resolve(ms, key));
    PutWellFormed(ms, key, child.value);
    var us := SkipComments(child.rest);
    if child.ok && Head(us).kind != ObjectEnd {
      ReadMembersWellFormed(cfg, Tail(us), Put(ms, key, child.value), name);
    }
  }

  lemma {:induction false} ReadElemsWellFormed(cfg: Config, ts: seq<Token>, xs: seq<Value>)
    requires WellFormed(Array(xs))
    ensures WellFormed(ReadElems(cfg, ts, xs).value)
    decreases |ts|, 3
  {
    ReadValueWellFormed(cfg, ts, Null);
    var child := ReadValue(cfg, ts, Null);
    assert WellFormed(Array(xs + [child.value]));
    var us := SkipComments(child.rest);
    if child.ok && Head(us).kind != ArrayEnd {
      ReadElemsWellFormed(cfg, Tail(us), xs + [child.value]);
    }
  }
}
