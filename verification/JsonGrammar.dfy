/**
 The language that Json::Reader accepts, as a grammar over tokens: derivation trees, the tokens
 they stand for and the value they mean. The parser succeeds exactly on the tokens that begin
 with such a tree, and gives its value; and what it reports for the common mistakes in an object.
 */
module JsonGrammar {
  import opened Options
  import opened JsonValue
  import opened JsonLexer
  import opened JsonNumber
  import opened JsonString
  import opened JsonParser
  import opened JsonTokens

  // ----- Derivation trees.

  /* `before` are the comments in front of a value. */
  datatype Tree =
    | Leaf(before: seq<Token>, token: Token)
    | EmptyArray(before: seq<Token>, open: Token, close: Token)
    | ArrayOf(before: seq<Token>, open: Token, items: seq<Item>)
    | ObjectOf(before: seq<Token>, open: Token, fields: seq<Field>, tail: Option<Tail>)

  /* An element, the comments after it, and the token after those: a separator or the closing bracket. */
  datatype Item = Item(value: Tree, after: seq<Token>, next: Token)

  /* A member, with its comments; `next` is a separator or the closing brace. */
  datatype Field = Field(before: seq<Token>, name: Token, colon: Token, value: Tree, after: seq<Token>, next: Token)

  /* A closing brace where a name could be. */
  datatype Tail = Tail(before: seq<Token>, close: Token)

  predicate AreComments(ts: seq<Token>) {
    forall t :: t in ts ==> t.kind == Comment
  }

  function ScalarMeaning(cfg: Config, t: Token): Option<Value> {
    match t.kind
    case Number => DecodeNumber(cfg.scan, t.text)
    case StringToken => (match DecodeString(t.text) case Some(s) => Some(Str(CString(s))) case None => None)
    case TrueToken => Some(Bool(true))
    case FalseToken => Some(Bool(false))
    case NullToken => Some(Null)
    case _ => None
  }

  predicate IsTree(cfg: Config, t: Tree)
    decreases t, 1
  {
    && AreComments(t.before) && (t.before != [] ==> cfg.allowComments)
    && match t
       case Leaf(_, token) => ScalarMeaning(cfg, token).Some?
       case EmptyArray(_, open, close) => open.kind == ArrayBegin && close.kind == ArrayEnd
       case ArrayOf(_, open, items) => open.kind == ArrayBegin && AreItems(cfg, items)
       case ObjectOf(_, open, fields, tail) => open.kind == ObjectBegin && AreFields(cfg, fields, [], tail)
  }

  /* At least one element; any token but a comment or a closing bracket separates two of them. */
  predicate AreItems(cfg: Config, items: seq<Item>)
    decreases items, 0
  {
    && items != [] && IsTree(cfg, items[0].value) && AreComments(items[0].after) && items[0].next.kind != Comment
    && (items[0].next.kind == ArrayEnd <==> |items| == 1) && (|items| > 1 ==> AreItems(cfg, items[1..]))
  }

  /* A comma separates two members, or any token after a comment. A brace may stand for a name at the start, and
     after a separator if the name before was empty. */
  predicate AreFields(cfg: Config, fields: seq<Field>, name: string, tail: Option<Tail>)
    decreases fields, 0
  {
    if fields == [] then
      name == [] && tail.Some? && AreComments(tail.value.before) && tail.value.close.kind == ObjectEnd
    else
      var f := fields[0];
      && AreComments(f.before) && f.name.kind == StringToken && DecodeString(f.name.text).Some? && f.colon.kind == Colon
      && IsTree(cfg, f.value) && AreComments(f.after) && f.next.kind != Comment
      && (f.after == [] ==> f.next.kind == Comma || f.next.kind == ObjectEnd)
      && if f.next.kind == ObjectEnd then |fields| == 1 && tail.None?
         else AreFields(cfg, fields[1..], DecodeString(f.name.text).value, tail)
  }

  // ----- The tokens and the value of a tree.

  function Yield(t: Tree): seq<Token>
    decreases t, 1
  {
    t.before + match t
      case Leaf(_, token) => [token]
      case EmptyArray(_, open, close) => [open] + [close]
      case ArrayOf(_, open, items) => [open] + ItemsYield(items)
      case ObjectOf(_, open, fields, tail) => [open] + FieldsYield(fields, tail)
  }

  function ItemsYield(items: seq<Item>): seq<Token>
    decreases items, 0
  {
    if items == [] then []
    else Yield(items[0].value) + (items[0].after + ([items[0].next] + ItemsYield(items[1..])))
  }

  function FieldsYield(fields: seq<Field>, tail: Option<Tail>): seq<Token>
    decreases fields, 0
  {
    if fields == [] then (match tail case Some(end) => end.before + [end.close] case None => [])
    else
      var f := fields[0];
      f.before + ([f.name] + ([f.colon] + (Yield(f.value) + (f.after + ([f.next] + FieldsYield(fields[1..], tail))))))
  }

  function Meaning(cfg: Config, t: Tree): Value
    requires IsTree(cfg, t)
    decreases t, 1
  {
    match t
    case Leaf(_, token) => ScalarMeaning(cfg, token).value
    case EmptyArray(_, _, _) => Array([])
    case ArrayOf(_, _, items) => Array(ItemsMeaning(cfg, items))
    case ObjectOf(_, _, fields, tail) => Object(FieldsMeaning(cfg, fields, [], tail, []))
  }

  function ItemsMeaning(cfg: Config, items: seq<Item>): seq<Value>
    requires AreItems(cfg, items)
    decreases items, 0
  {
    [Meaning(cfg, items[0].value)] + if |items| == 1 then [] else ItemsMeaning(cfg, items[1..])
  }

  /* The members are assigned in order, so the last of a name counts. */
  function FieldsMeaning(cfg: Config, fields: seq<Field>, name: string, tail: Option<Tail>, ms: seq<Member>): seq<Member>
    requires AreFields(cfg, fields, name, tail)
    decreases fields, 0
  {
    if fields == [] then ms
    else
      var f := fields[0];
      var name' := DecodeString(f.name.text).value;
      var ms' := Put(ms, CString(name'), Meaning(cfg, f.value));
      if f.next.kind == ObjectEnd then ms' else FieldsMeaning(cfg, fields[1..], name', tail, ms')
  }

  // ----- Every tree is read, with its value.

  lemma {:induction false} SkipAll(cs: seq<Token>, us: seq<Token>)
    requires AreComments(cs) && Head(us).kind != Comment
    ensures SkipComments(cs + us) == us
    decreases |cs|
  {
    if cs == [] {
      assert cs + us == us;
    } else {
      assert cs[0] in cs && (cs + us)[1..] == cs[1..] + us;
      SkipAll(cs[1..], us);
    }
  }

  lemma Skipped(cs: seq<Token>, t: Token, rest: seq<Token>)
    requires AreComments(cs) && t.kind != Comment
    ensures SkipComments(cs + ([t] + rest)) == [t] + rest
    ensures Head([t] + rest) == t && JsonParser.Tail([t] + rest) == rest
    ensures cs == [] ==> cs + ([t] + rest) == [t] + rest
    ensures cs != [] ==> Head(cs + ([t] + rest)).kind == Comment
  {
    SkipAll(cs, [t] + rest);
    if cs != [] { assert cs[0] in cs; }
  }

  function FirstOf(t: Tree): Token {
    if t.Leaf? then t.token else t.open
  }

  /* The tree's first token after the comments, and the others. */
  function RestOf(t: Tree): seq<Token> {
    match t
    case Leaf(_, _) => []
    case EmptyArray(_, _, close) => [close]
    case ArrayOf(_, _, items) => ItemsYield(items)
    case ObjectOf(_, _, fields, tail) => FieldsYield(fields, tail)
  }

  lemma YieldParts(t: Tree, rest: seq<Token>)
    ensures Yield(t) + rest == t.before + ([FirstOf(t)] + (RestOf(t) + rest))
  {
    if t.Leaf? { assert [t.token] + ([] + rest) == [t.token] + rest; }
  }

  /* What the parser does is decided by the first token that is not a comment. */
  lemma ReadFrom(cfg: Config, t: Tree, rest: seq<Token>, current: Value)
    requires IsTree(cfg, t)
    ensures ReadValue(cfg, Yield(t) + rest, current) == ReadValue(cfg, [FirstOf(t)] + (RestOf(t) + rest), current)
  {
    var us := [FirstOf(t)] + (RestOf(t) + rest);
    YieldParts(t, rest);
    Skipped(t.before, FirstOf(t), RestOf(t) + rest);
    Skipped([], FirstOf(t), RestOf(t) + rest);
    assert [] + us == us;
  }

  lemma ReadLeaf(cfg: Config, token: Token, rest: seq<Token>, current: Value)
    requires ScalarMeaning(cfg, token).Some?
    ensures ReadValue(cfg, [token] + rest, current) == Parse(true, ScalarMeaning(cfg, token).value, rest, [])
  {
    HeadTail(token, rest);
  }

  lemma ReadOpen(cfg: Config, t: Tree, rest: seq<Token>, current: Value)
    requires IsTree(cfg, t)
    ensures var r := ReadValue(cfg, [FirstOf(t)] + (RestOf(t) + rest), current);
      match t
      case Leaf(_, token) => r == Parse(true, ScalarMeaning(cfg, token).value, rest, [])
      case EmptyArray(_, _, _) => r == Parse(true, Array([]), rest, [])
      case ArrayOf(_, _, items) => r == ReadElems(cfg, ItemsYield(items) + rest, [])
      case ObjectOf(_, _, fields, tail) => r == ReadMembers(cfg, FieldsYield(fields, tail) + rest, [], [])
  {
    HeadTail(FirstOf(t), RestOf(t) + rest);
    match t
    case Leaf(_, token) =>
      ReadLeaf(cfg, token, rest, current);
      assert [] + rest == rest;
    case EmptyArray(_, _, close) => HeadTail(close, rest);
    case ArrayOf(_, _, items) => FirstIsNoBracket(cfg, items, rest);
    case ObjectOf(_, _, fields, tail) =>
  }

  lemma {:induction false} TreeIsRead(cfg: Config, t: Tree, rest: seq<Token>, current: Value)
    requires IsTree(cfg, t)
    ensures ReadValue(cfg, Yield(t) + rest, current) == Parse(true, Meaning(cfg, t), rest, [])
    decreases t, 1
  {
    ReadFrom(cfg, t, rest, current);
    ReadOpen(cfg, t, rest, current);
    match t
    case ArrayOf(_, _, items) =>
      ItemsAreRead(cfg, items, rest, []);
      assert [] + ItemsMeaning(cfg, items) == ItemsMeaning(cfg, items);
    case ObjectOf(_, _, fields, tail) => FieldsAreRead(cfg, fields, [], tail, rest, []);
    case _ =>
  }

  lemma FirstIsNoBracket(cfg: Config, items: seq<Item>, rest: seq<Token>)
    requires AreItems(cfg, items)
    ensures Head(ItemsYield(items) + rest).kind != ArrayEnd
  {
    var v := items[0].value;
    var more := items[0].after + ([items[0].next] + ItemsYield(items[1..]));
    assert ItemsYield(items) + rest == Yield(v) + (more + rest);
    YieldParts(v, more + rest);
    if v.before != [] { assert v.before[0] in v.before; }
  }

  lemma ItemsParts(items: seq<Item>, rest: seq<Token>)
    requires items != []
    ensures ItemsYield(items) + rest ==
            Yield(items[0].value) + (items[0].after + ([items[0].next] + (ItemsYield(items[1..]) + rest)))
  {
  }

  /* One turn of each loop, with comments. */
  lemma ElemTurn(cfg: Config, ts: seq<Token>, xs: seq<Value>, v: Value, cs: seq<Token>, t: Token, rest: seq<Token>)
    requires ReadValue(cfg, ts, Null) == Parse(true, v, cs + ([t] + rest), []) && AreComments(cs) && t.kind != Comment
    ensures ReadElems(cfg, ts, xs) ==
      if t.kind == ArrayEnd then Parse(true, Array(xs + [v]), rest, []) else ReadElems(cfg, rest, xs + [v])
  {
    Skipped(cs, t, rest);
  }

  lemma NameTurn(cfg: Config, cs: seq<Token>, name: Token, colon: Token, ts: seq<Token>, ms: seq<Member>, before: string)
    requires AreComments(cs) && name.kind == StringToken && DecodeString(name.text).Some? && colon.kind == Colon
    ensures ReadMembers(cfg, cs + ([name] + ([colon] + ts)), ms, before)
         == ReadMember(cfg, ts, ms, DecodeString(name.text).value)
  {
    Skipped(cs, name, [colon] + ts);
    HeadTail(colon, ts);
  }

  lemma MemberTurn(cfg: Config, ts: seq<Token>, ms: seq<Member>, name: string, v: Value,
                   cs: seq<Token>, t: Token, rest: seq<Token>)
    requires AreComments(cs) && t.kind != Comment && (cs == [] ==> t.kind == Comma || t.kind == ObjectEnd)
    requires ReadValue(cfg, ts, Resolve(ms, CString(name))) == Parse(true, v, cs + ([t] + rest), [])
    ensures ReadMember(cfg, ts, ms, name) ==
      if t.kind == ObjectEnd then Parse(true, Object(Put(ms, CString(name), v)), rest, [])
      else ReadMembers(cfg, rest, Put(ms, CString(name), v), name)
  {
    Skipped(cs, t, rest);
  }

  lemma {:induction false} ItemsAreRead(cfg: Config, items: seq<Item>, rest: seq<Token>, xs: seq<Value>)
    requires AreItems(cfg, items)
    ensures ReadElems(cfg, ItemsYield(items) + rest, xs) == Parse(true, Array(xs + ItemsMeaning(cfg, items)), rest, [])
    decreases items, 0
  {
    var item := items[0];
    var v, more := Meaning(cfg, item.value), ItemsYield(items[1..]) + rest;
    TreeIsRead(cfg, item.value, item.after + ([item.next] + more), Null);
    ItemsParts(items, rest);
    ElemTurn(cfg, ItemsYield(items) + rest, xs, v, item.after, item.next, more);
    if |items| > 1 { ItemsAreRead(cfg, items[1..], rest, xs + [v]); }
    ItemsMeaningParts(cfg, items, rest, xs);
  }

  lemma ItemsMeaningParts(cfg: Config, items: seq<Item>, rest: seq<Token>, xs: seq<Value>)
    requires AreItems(cfg, items)
    ensures |items| == 1 ==> ItemsYield(items[1..]) + rest == rest
    ensures xs + ItemsMeaning(cfg, items) ==
            if |items| == 1 then xs + [Meaning(cfg, items[0].value)]
            else (xs + [Meaning(cfg, items[0].value)]) + ItemsMeaning(cfg, items[1..])
  {
  }

  lemma FieldsParts(fields: seq<Field>, tail: Option<Tail>, rest: seq<Token>)
    requires fields != []
    ensures var f := fields[0];
      FieldsYield(fields, tail) + rest ==
      f.before + ([f.name] + ([f.colon] + (Yield(f.value) + (f.after + ([f.next] + (FieldsYield(fields[1..], tail) + rest))))))
  {
    var f := fields[0];
    Nested(f.before, [f.name], [f.colon], Yield(f.value), f.after, [f.next], FieldsYield(fields[1..], tail), rest);
  }

  lemma Nested(a: seq<Token>, b: seq<Token>, c: seq<Token>, d: seq<Token>, e: seq<Token>, f: seq<Token>, g: seq<Token>, h: seq<Token>)
    ensures (a + (b + (c + (d + (e + (f + g)))))) + h == a + (b + (c + (d + (e + (f + (g + h))))))
  {
    Joined(f, g, h);
    Joined(e, f + g, h);
    Joined(d, e + (f + g), h);
    Joined(c, d + (e + (f + g)), h);
    Joined(b, c + (d + (e + (f + g))), h);
    Joined(a, b + (c + (d + (e + (f + g)))), h);
  }

  lemma Joined(a: seq<Token>, b: seq<Token>, c: seq<Token>)
    ensures (a + b) + c == a + (b + c)
  {
  }

  lemma {:induction false} FieldsAreRead(cfg: Config, fields: seq<Field>, name: string, tail: Option<Tail>,
                                         rest: seq<Token>, ms: seq<Member>)
    requires AreFields(cfg, fields, name, tail)
    ensures ReadMembers(cfg, FieldsYield(fields, tail) + rest, ms, name)
         == Parse(true, Object(FieldsMeaning(cfg, fields, name, tail, ms)), rest, [])
    decreases fields, 1
  {
    if fields == [] {
      var end := tail.value;
      Joined(end.before, [end.close], rest);
      Skipped(end.before, end.close, rest);
    } else {
      var f := fields[0];
      var more := FieldsYield(fields[1..], tail) + rest;
      FieldsParts(fields, tail, rest);
      NameTurn(cfg, f.before, f.name, f.colon, Yield(f.value) + (f.after + ([f.next] + more)), ms, name);
      FieldIsRead(cfg, fields, name, tail, rest, ms, more);
    }
  }

  lemma {:induction false} FieldIsRead(cfg: Config, fields: seq<Field>, name: string, tail: Option<Tail>,
                                       rest: seq<Token>, ms: seq<Member>, more: seq<Token>)
    requires AreFields(cfg, fields, name, tail) && fields != [] && more == FieldsYield(fields[1..], tail) + rest
    ensures ReadMember(cfg, Yield(fields[0].value) + (fields[0].after + ([fields[0].next] + more)), ms,
                       DecodeString(fields[0].name.text).value)
         == Parse(true, Object(FieldsMeaning(cfg, fields, name, tail, ms)), rest, [])
    decreases fields, 0
  {
    var f := fields[0];
    var name', v := DecodeString(f.name.text).value, Meaning(cfg, f.value);
    var after := f.after + ([f.next] + more);
    TreeIsRead(cfg, f.value, after, Resolve(ms, CString(name')));
    MemberTurn(cfg, Yield(f.value) + after, ms, name', v, f.after, f.next, more);
    if f.next.kind == ObjectEnd {
      assert fields[1..] == [] && more == rest;
    } else {
      FieldsAreRead(cfg, fields[1..], name', tail, rest, Put(ms, CString(name'), v));
    }
  }

  // ----- Whatever is read without an error is a tree.

  /* The comments in front. */
  function Comments(ts: seq<Token>): seq<Token> {
    if Head(ts).kind == Comment then [ts[0]] + Comments(ts[1..]) else []
  }

  lemma {:induction false} CommentsSplit(ts: seq<Token>)
    ensures AreComments(Comments(ts)) && ts == Comments(ts) + SkipComments(ts)
  {
    if Head(ts).kind == Comment {
      CommentsSplit(ts[1..]);
      ConsRest(ts[0], ts[1..], Comments(ts[1..]), SkipComments(ts[1..]));
    }
  }

  lemma ConsRest(t: Token, ts: seq<Token>, cs: seq<Token>, us: seq<Token>)
    requires ts == cs + us
    ensures [t] + ts == ([t] + cs) + us
  {
  }

  lemma HeadOf(ts: seq<Token>)
    requires Head(ts).kind != EndOfStream
    ensures ts == [Head(ts)] + JsonParser.Tail(ts)
  {
  }

  lemma MakeLeaf(cfg: Config, cs: seq<Token>, head: Token, rest: seq<Token>)
    requires AreComments(cs) && (cs != [] ==> cfg.allowComments) && ScalarMeaning(cfg, head).Some?
    ensures IsTree(cfg, Leaf(cs, head)) && Yield(Leaf(cs, head)) + rest == cs + ([head] + rest)
  {
    Joined(cs, [head], rest);
  }

  lemma MakeEmpty(cfg: Config, cs: seq<Token>, head: Token, close: Token, rest: seq<Token>)
    requires AreComments(cs) && (cs != [] ==> cfg.allowComments) && head.kind == ArrayBegin && close.kind == ArrayEnd
    ensures IsTree(cfg, EmptyArray(cs, head, close)) && Yield(EmptyArray(cs, head, close)) + rest == cs + ([head] + ([close] + rest))
  {
    Joined([head], [close], rest);
    Joined(cs, [head] + [close], rest);
  }

  lemma MakeArray(cfg: Config, cs: seq<Token>, head: Token, items: seq<Item>, rest: seq<Token>)
    requires AreComments(cs) && (cs != [] ==> cfg.allowComments) && head.kind == ArrayBegin && AreItems(cfg, items)
    ensures IsTree(cfg, ArrayOf(cs, head, items)) && Yield(ArrayOf(cs, head, items)) + rest == cs + ([head] + (ItemsYield(items) + rest))
  {
    Joined([head], ItemsYield(items), rest);
    Joined(cs, [head] + ItemsYield(items), rest);
  }

  lemma MakeObject(cfg: Config, cs: seq<Token>, head: Token, fields: seq<Field>, tail: Option<Tail>, rest: seq<Token>)
    requires AreComments(cs) && (cs != [] ==> cfg.allowComments) && head.kind == ObjectBegin && AreFields(cfg, fields, [], tail)
    ensures IsTree(cfg, ObjectOf(cs, head, fields, tail))
    ensures Yield(ObjectOf(cs, head, fields, tail)) + rest == cs + ([head] + (FieldsYield(fields, tail) + rest))
  {
    Joined([head], FieldsYield(fields, tail), rest);
    Joined(cs, [head] + FieldsYield(fields, tail), rest);
  }

  lemma ReadHead(cfg: Config, ts: seq<Token>, us: seq<Token>, current: Value)
    requires us == if cfg.allowComments then SkipComments(ts) else ts
    ensures var r, t, rest := ReadValue(cfg, ts, current), Head(us), JsonParser.Tail(us);
      if t.kind == ObjectBegin then r == ReadMembers(cfg, rest, [], [])
      else if t.kind == ArrayBegin then r == ReadArray(cfg, rest)
      else r.ok == ScalarMeaning(cfg, t).Some? && (r.ok ==> r == Parse(true, ScalarMeaning(cfg, t).value, rest, []))
  {
    if Head(us).kind != ObjectBegin && Head(us).kind != ArrayBegin { ReadScalarHead(cfg, ts, us, current); }
  }

  lemma ReadScalarHead(cfg: Config, ts: seq<Token>, us: seq<Token>, current: Value)
    requires us == if cfg.allowComments then SkipComments(ts) else ts
    requires Head(us).kind != ObjectBegin && Head(us).kind != ArrayBegin
    ensures var r, m := ReadValue(cfg, ts, current), ScalarMeaning(cfg, Head(us));
      r.ok == m.Some? && (r.ok ==> r == Parse(true, m.value, JsonParser.Tail(us), []))
  {
  }

  /* The tree of what was read. */
  lemma {:induction false} ReadIsTree(cfg: Config, ts: seq<Token>, current: Value) returns (t: Tree)
    requires ReadValue(cfg, ts, current).ok
    ensures IsTree(cfg, t) && ts == Yield(t) + ReadValue(cfg, ts, current).rest
    decreases |ts|, 2
  {
    var us := if cfg.allowComments then SkipComments(ts) else ts;
    var cs := if cfg.allowComments then Comments(ts) else [];
    CommentsSplit(ts);
    HeadOf(us);
    var head, rest := Head(us), JsonParser.Tail(us);
    assert ts == cs + ([head] + rest);
    ReadHead(cfg, ts, us, current);
    if head.kind == ObjectBegin {
      var fields, tail := ReadIsFields(cfg, rest, [], []);
      t := ObjectOf(cs, head, fields, tail);
      MakeObject(cfg, cs, head, fields, tail, ReadMembers(cfg, rest, [], []).rest);
    } else if head.kind == ArrayBegin {
      t := ReadIsArray(cfg, rest, cs, head);
    } else {
      t := Leaf(cs, head);
      MakeLeaf(cfg, cs, head, rest);
    }
  }

  lemma {:induction false} ReadIsArray(cfg: Config, ts: seq<Token>, cs: seq<Token>, head: Token) returns (t: Tree)
    requires AreComments(cs) && (cs != [] ==> cfg.allowComments) && head.kind == ArrayBegin && ReadArray(cfg, ts).ok
    ensures IsTree(cfg, t) && cs + ([head] + ts) == Yield(t) + ReadArray(cfg, ts).rest
    decreases |ts|, 4
  {
    if Head(ts).kind == ArrayEnd {
      HeadOf(ts);
      t := EmptyArray(cs, head, Head(ts));
      MakeEmpty(cfg, cs, head, Head(ts), JsonParser.Tail(ts));
    } else {
      var items := ReadIsItems(cfg, ts, []);
      t := ArrayOf(cs, head, items);
      MakeArray(cfg, cs, head, items, ReadElems(cfg, ts, []).rest);
    }
  }

  /* The comments after a value and the token after them, if there is one. */
  lemma Separated(ts: seq<Token>)
    requires SkipComments(ts) != []
    ensures var us := SkipComments(ts); ts == Comments(ts) + ([Head(us)] + JsonParser.Tail(us)) && AreComments(Comments(ts))
  {
    var us := SkipComments(ts);
    CommentsSplit(ts);
    assert us == [Head(us)] + JsonParser.Tail(us);
  }

  lemma ConsItem(cfg: Config, first: Item, more: seq<Item>, rest: seq<Token>)
    requires IsTree(cfg, first.value) && AreComments(first.after) && first.next.kind != Comment
    requires first.next.kind == ArrayEnd <==> more == []
    requires more != [] ==> AreItems(cfg, more)
    ensures AreItems(cfg, [first] + more)
    ensures ItemsYield([first] + more) + rest == Yield(first.value) + (first.after + ([first.next] + (ItemsYield(more) + rest)))
  {
    assert ([first] + more)[1..] == more;
    ItemsParts([first] + more, rest);
  }

  lemma {:induction false} ReadIsItems(cfg: Config, ts: seq<Token>, xs: seq<Value>) returns (items: seq<Item>)
    requires ReadElems(cfg, ts, xs).ok
    ensures AreItems(cfg, items) && ts == ItemsYield(items) + ReadElems(cfg, ts, xs).rest
    decreases |ts|, 3
  {
    var child := ReadValue(cfg, ts, Null);
    var v := ReadIsTree(cfg, ts, Null);
    var us := SkipComments(child.rest);
    var end := JsonParser.Tail(us);
    if us == [] { NothingToRead(cfg); }
    Separated(child.rest);
    var first := Item(v, Comments(child.rest), Head(us));
    if Head(us).kind == ArrayEnd {
      items := [first] + [];
      ConsItem(cfg, first, [], end);
      assert ItemsYield([]) + end == end;
    } else {
      var more := ReadIsItems(cfg, end, xs + [child.value]);
      items := [first] + more;
      ConsItem(cfg, first, more, ReadElems(cfg, end, xs + [child.value]).rest);
    }
  }

  lemma NothingToRead(cfg: Config)
    ensures !ReadValue(cfg, [], Null).ok
  {
  }

  lemma {:induction false} ReadIsFields(cfg: Config, ts: seq<Token>, ms: seq<Member>, name: string)
    returns (fields: seq<Field>, tail: Option<Tail>)
    requires ReadMembers(cfg, ts, ms, name).ok
    ensures AreFields(cfg, fields, name, tail) && ts == FieldsYield(fields, tail) + ReadMembers(cfg, ts, ms, name).rest
    decreases |ts|, 1
  {
    var us, cs := SkipComments(ts), Comments(ts);
    CommentsSplit(ts);
    HeadOf(us);
    var head, rest := Head(us), JsonParser.Tail(us);
    if head.kind == ObjectEnd && name == [] {
      fields, tail := [], Some(Tail(cs, head));
      Joined(cs, [head], rest);
    } else {
      HeadOf(rest);
      fields, tail := ReadIsField(cfg, JsonParser.Tail(rest), ms, cs, head, Head(rest), name);
    }
  }

  lemma ConsField(cfg: Config, first: Field, more: seq<Field>, tail: Option<Tail>, before: string)
    requires AreComments(first.before) && first.name.kind == StringToken && DecodeString(first.name.text).Some?
    requires first.colon.kind == Colon && IsTree(cfg, first.value) && AreComments(first.after) && first.next.kind != Comment
    requires first.after == [] ==> first.next.kind == Comma || first.next.kind == ObjectEnd
    requires if first.next.kind == ObjectEnd then more == [] && tail.None?
             else AreFields(cfg, more, DecodeString(first.name.text).value, tail)
    ensures AreFields(cfg, [first] + more, before, tail)
  {
    assert ([first] + more)[1..] == more;
  }

  /* The members from a given name on. */
  lemma {:induction false} ReadIsField(cfg: Config, ts: seq<Token>, ms: seq<Member>, cs: seq<Token>, name: Token, colon: Token, before: string)
    returns (fields: seq<Field>, tail: Option<Tail>)
    requires AreComments(cs) && name.kind == StringToken && DecodeString(name.text).Some? && colon.kind == Colon
    requires ReadMember(cfg, ts, ms, DecodeString(name.text).value).ok
    ensures AreFields(cfg, fields, before, tail)
    ensures cs + ([name] + ([colon] + ts)) == FieldsYield(fields, tail) + ReadMember(cfg, ts, ms, DecodeString(name.text).value).rest
    decreases |ts|, 3
  {
    var name' := DecodeString(name.text).value;
    var child := ReadValue(cfg, ts, Resolve(ms, CString(name')));
    var ms' := Put(ms, CString(name'), child.value);
    var v := ReadIsTree(cfg, ts, Resolve(ms, CString(name')));
    var us := SkipComments(child.rest);
    var end := JsonParser.Tail(us);
    if us == [] { NoMembers(cfg, ms', name'); }
    Separated(child.rest);
    var first := Field(cs, name, colon, v, Comments(child.rest), Head(us));
    NoComments(child.rest);
    MemberEnd(cfg, ts, ms, name', us);
    if Head(us).kind == ObjectEnd {
      fields, tail := [first] + [], None;
      ConsField(cfg, first, [], None, before);
      FieldTokens(first, [], None, end);
      assert FieldsYield([], None) + end == end;
    } else {
      var more, end' := ReadIsFields(cfg, end, ms', name');
      fields, tail := [first] + more, end';
      ConsField(cfg, first, more, tail, before);
      FieldTokens(first, more, tail, ReadMembers(cfg, end, ms', name').rest);
    }
  }

  lemma FieldTokens(first: Field, more: seq<Field>, tail: Option<Tail>, rest: seq<Token>)
    ensures FieldsYield([first] + more, tail) + rest ==
            first.before + ([first.name] + ([first.colon] + (Yield(first.value)
              + (first.after + ([first.next] + (FieldsYield(more, tail) + rest))))))
  {
    assert ([first] + more)[1..] == more;
    FieldsParts([first] + more, tail, rest);
  }

  /* What follows a member that was read. */
  lemma MemberEnd(cfg: Config, ts: seq<Token>, ms: seq<Member>, name: string, us: seq<Token>)
    requires ReadMember(cfg, ts, ms, name).ok && us == SkipComments(ReadValue(cfg, ts, Resolve(ms, CString(name))).rest)
    ensures var child, r := ReadValue(cfg, ts, Resolve(ms, CString(name))), ReadMember(cfg, ts, ms, name);
      && child.ok && (Head(child.rest).kind == ObjectEnd || Head(child.rest).kind == Comma || Head(child.rest).kind == Comment)
      && var more := ReadMembers(cfg, JsonParser.Tail(us), Put(ms, CString(name), child.value), name);
      if Head(us).kind == ObjectEnd then r.rest == JsonParser.Tail(us) else more.ok && r.rest == more.rest
  {
  }

  lemma NoComments(ts: seq<Token>)
    ensures Comments(ts) == [] ==> SkipComments(ts) == ts
  {
    CommentsSplit(ts);
  }

  lemma NoMembers(cfg: Config, ms: seq<Member>, name: string)
    ensures !ReadMembers(cfg, [], ms, name).ok
  {
  }

  /* The parser accepts exactly the tokens that begin with a tree, takes the tree's tokens and gives its value. */
  lemma AcceptsExactly(cfg: Config, ts: seq<Token>, current: Value)
    ensures ReadValue(cfg, ts, current).ok <==> exists t, rest {:trigger Yield(t) + rest} :: IsTree(cfg, t) && ts == Yield(t) + rest
    ensures forall t, rest {:trigger Yield(t) + rest} :: IsTree(cfg, t) && ts == Yield(t) + rest ==>
              ReadValue(cfg, ts, current) == Parse(true, Meaning(cfg, t), rest, [])
  {
    forall t, rest {:trigger Yield(t) + rest} | IsTree(cfg, t) && ts == Yield(t) + rest
      ensures ReadValue(cfg, ts, current) == Parse(true, Meaning(cfg, t), rest, [])
    {
      TreeIsRead(cfg, t, rest, current);
    }
    if ReadValue(cfg, ts, current).ok {
      var t := ReadIsTree(cfg, ts, current);
      assert ts == Yield(t) + ReadValue(cfg, ts, current).rest;
    }
  }

  /* So does the reader with a whole document; a strict one demands a container. */
  lemma DocumentExactly(cfg: Config, doc: string, root: Value)
    ensures ParseDocument(cfg, doc, root).ok <==>
            exists t, rest {:trigger Yield(t) + rest} ::
              IsTree(cfg, t) && Lex(doc) == Yield(t) + rest && (cfg.strictRoot ==> IsContainer(Meaning(cfg, t)))
  {
    AcceptsExactly(cfg, Lex(doc), root);
  }

  // ----- What is reported for the common mistakes in an object or array.

  /* Recovery reads on after the first token of the wanted kind, and to the end if there is none. */
  lemma {:induction false} RecoverSkips(before: seq<Token>, kind: Kind, t: Token, rest: seq<Token>)
    requires forall u :: u in before ==> u.kind != kind && u.kind != EndOfStream
    ensures t.kind == kind ==> Recover(before + ([t] + rest), kind) == rest
    ensures Recover(before, kind) == []
    decreases |before|
  {
    if before == [] {
      assert before + ([t] + rest) == [t] + rest;
      HeadTail(t, rest);
    } else {
      assert before[0] in before;
      assert before + ([t] + rest) == [before[0]] + (before[1..] + ([t] + rest));
      RecoverSkips(before[1..], kind, t, rest);
    }
  }

  /* Members, each with a comma behind it. */
  function Opening(realText: real -> string, ms: seq<Member>, rest: seq<Token>): seq<Token> {
    if ms == [] then rest else MemberTokens(realText, ms) + ([Punctuation(',')] + rest)
  }

  function NameBefore(ms: seq<Member>): string {
    if ms == [] then [] else ms[|ms| - 1].name
  }

  lemma {:induction false} OpeningIsRead(cfg: Config, realText: real -> string, ms: seq<Member>, rest: seq<Token>,
                                         acc: seq<Member>, name: string)
    requires ms != [] && Sorted(acc + ms) && forall m :: m in ms ==> WellFormed(m.value) && RealFree(m.value)
    ensures ReadMembers(cfg, MemberTokens(realText, ms) + ([Punctuation(',')] + rest), acc, name)
         == ReadMembers(cfg, rest, acc + ms, NameBefore(ms))
    decreases |ms|
  {
    var m, end := ms[0], [Punctuation(',')] + rest;
    assert m in ms;
    var after := MembersAfter(realText, ms, end);
    var value := Tokens(realText, m.value) + after;
    var next := if |ms| == 1 then rest else MemberTokens(realText, ms[1..]) + end;
    MembersSplit(realText, ms, end);
    DecodeQuoted(m.name);
    NameStep(cfg, NameTokens(m.name)[0], m.name, value, acc, name);
    LastName(acc, ms);
    PutLast(acc, m.name, m.value);
    ReadTokens(cfg, realText, m.value, after, Null);
    MemberStep(cfg, value, acc, m.name, m.value, Punctuation(','), next);
    OneThenRest(acc, ms);
    if |ms| > 1 { OpeningIsRead(cfg, realText, ms[1..], rest, acc + [m], m.name); }
  }

  lemma OneThenRest(acc: seq<Member>, ms: seq<Member>)
    requires ms != []
    ensures |ms| == 1 ==> acc + [ms[0]] == acc + ms
    ensures |ms| > 1 ==> (acc + [ms[0]]) + ms[1..] == acc + ms && NameBefore(ms[1..]) == NameBefore(ms)
  {
  }

  lemma ObjectFrom(cfg: Config, realText: real -> string, ms: seq<Member>, rest: seq<Token>, current: Value)
    requires WellFormed(Object(ms)) && RealFree(Object(ms))
    ensures ReadValue(cfg, [Punctuation('{')] + Opening(realText, ms, rest), current) == ReadMembers(cfg, rest, ms, NameBefore(ms))
  {
    ObjectStep(cfg, Opening(realText, ms, rest), current);
    if ms != [] {
      assert [] + ms == ms;
      OpeningIsRead(cfg, realText, ms, rest, [], []);
    }
  }

  /* No name where one must be: a closing brace after a comma is an error, except after an empty name. */
  lemma NameExpected(cfg: Config, realText: real -> string, ms: seq<Member>, t: Token, rest: seq<Token>, current: Value)
    requires WellFormed(Object(ms)) && RealFree(Object(ms)) && t.kind != StringToken && t.kind != Comment
    ensures ReadValue(cfg, [Punctuation('{')] + Opening(realText, ms, [t] + rest), current) ==
      if t.kind == ObjectEnd && (ms == [] || ms[|ms| - 1].name == "") then Parse(true, Object(ms), rest, [])
      else Parse(false, Object(ms), Recover(rest, ObjectEnd), [Error(MissingBraceOrName, t)])
  {
    ObjectFrom(cfg, realText, ms, [t] + rest, current);
    HeadTail(t, rest);
  }

  lemma ColonExpected(cfg: Config, realText: real -> string, ms: seq<Member>, name: CText, t: Token, rest: seq<Token>, current: Value)
    requires WellFormed(Object(ms)) && RealFree(Object(ms)) && t.kind != Colon
    ensures ReadValue(cfg, [Punctuation('{')] + Opening(realText, ms, [NameTokens(name)[0]] + ([t] + rest)), current)
         == Parse(false, Object(ms), Recover(rest, ObjectEnd), [Error(MissingColon, t)])
  {
    ObjectFrom(cfg, realText, ms, [NameTokens(name)[0]] + ([t] + rest), current);
    DecodeQuoted(name);
    HeadTail(NameTokens(name)[0], [t] + rest);
    HeadTail(t, rest);
  }

  lemma CommaExpected(cfg: Config, realText: real -> string, ms: seq<Member>, name: CText, v: Value, t: Token, rest: seq<Token>,
                      current: Value)
    requires WellFormed(Object(ms)) && RealFree(Object(ms)) && WellFormed(v) && RealFree(v)
    requires t.kind != Comma && t.kind != ObjectEnd && t.kind != Comment
    ensures ReadValue(cfg, [Punctuation('{')] + Opening(realText, ms,
              [NameTokens(name)[0]] + ([Punctuation(':')] + (Tokens(realText, v) + ([t] + rest)))), current)
         == Parse(false, Object(Put(ms, name, v)), Recover(rest, ObjectEnd), [Error(MissingCommaOrBrace, t)])
  {
    var value := Tokens(realText, v) + ([t] + rest);
    ObjectFrom(cfg, realText, ms, [NameTokens(name)[0]] + ([Punctuation(':')] + value), current);
    DecodeQuoted(name);
    NameStep(cfg, NameTokens(name)[0], name, value, ms, NameBefore(ms));
    ReadTokens(cfg, realText, v, [t] + rest, Resolve(ms, name));
    BadEnd(cfg, value, ms, name, v, t, rest);
  }

  lemma BadEnd(cfg: Config, ts: seq<Token>, ms: seq<Member>, name: CText, v: Value, t: Token, rest: seq<Token>)
    requires t.kind != Comma && t.kind != ObjectEnd && t.kind != Comment
    requires ReadValue(cfg, ts, Resolve(ms, name)) == Parse(true, v, [t] + rest, [])
    ensures ReadMember(cfg, ts, ms, name)
         == Parse(false, Object(Put(ms, name, v)), Recover(rest, ObjectEnd), [Error(MissingCommaOrBrace, t)])
  {
    HeadTail(t, rest);
    assert [] + [Error(MissingCommaOrBrace, t)] == [Error(MissingCommaOrBrace, t)];
  }

  /* A token that begins no value. */
  predicate NoValue(t: Token) {
    t.kind == ObjectEnd || t.kind == ArrayEnd || t.kind == Comma || t.kind == Colon || t.kind == Bad || t.kind == EndOfStream
  }

  /* No element after a separator, say before the closing bracket. */
  lemma ElementExpected(cfg: Config, realText: real -> string, xs: seq<Value>, t: Token, rest: seq<Token>, current: Value)
    requires xs != [] && WellFormed(Array(xs)) && RealFree(Array(xs)) && NoValue(t)
    ensures ReadValue(cfg, [Punctuation('[')] + (ElemTokens(realText, xs) + ([Punctuation(',')] + ([t] + rest))), current)
         == Parse(false, Array(xs + [Null]), Recover(rest, ArrayEnd), [Error(ValueExpected, t)])
  {
    var end := [Punctuation(',')] + ([t] + rest);
    ArrayStep(cfg, ElemTokens(realText, xs) + end, current);
    ElemsStart(realText, xs, end);
    ElemsAreRead(cfg, realText, xs, [t] + rest, []);
    assert [] + xs == xs;
    NoElement(cfg, t, rest, xs);
  }

  lemma NoElement(cfg: Config, t: Token, rest: seq<Token>, xs: seq<Value>)
    requires NoValue(t)
    ensures ReadElems(cfg, [t] + rest, xs) == Parse(false, Array(xs + [Null]), Recover(rest, ArrayEnd), [Error(ValueExpected, t)])
  {
    HeadTail(t, rest);
    assert ReadValue(cfg, [t] + rest, Null) == Parse(false, Null, rest, [Error(ValueExpected, t)]);
  }

  lemma {:induction false} ElemsAreRead(cfg: Config, realText: real -> string, xs: seq<Value>, rest: seq<Token>, acc: seq<Value>)
    requires xs != [] && forall x :: x in xs ==> WellFormed(x) && RealFree(x)
    ensures ReadElems(cfg, ElemTokens(realText, xs) + ([Punctuation(',')] + rest), acc) == ReadElems(cfg, rest, acc + xs)
    decreases |xs|
  {
    var end := [Punctuation(',')] + rest;
    var after := ElemsAfter(realText, xs, end);
    var next := if |xs| == 1 then rest else ElemTokens(realText, xs[1..]) + end;
    ElemsSplit(realText, xs, end);
    ReadTokens(cfg, realText, xs[0], after, Null);
    ElemsStep(cfg, Tokens(realText, xs[0]) + after, acc, xs[0], Punctuation(','), next);
    OneElementThenRest(acc, xs);
    if |xs| > 1 { ElemsAreRead(cfg, realText, xs[1..], rest, acc + [xs[0]]); }
  }

  lemma OneElementThenRest(acc: seq<Value>, xs: seq<Value>)
    requires xs != []
    ensures if |xs| == 1 then acc + [xs[0]] == acc + xs else (acc + [xs[0]]) + xs[1..] == acc + xs
  {
  }
}
