/**
 The recursive descent of Json::Reader over the tokens of a document: readValue, readObject,
 readArray and error recovery, as total functions of the tokens left to read.
 */
module JsonParser {
  import opened Options
  import opened JsonValue
  import opened JsonLexer
  import opened JsonNumber
  import opened JsonString

  datatype Message =
    | ValueExpected | NotANumber | BadString
    | MissingColon | MissingCommaOrBrace | MissingBraceOrName | RootNotContainer

  datatype Error = Error(message: Message, token: Token)

  /* Features, and the sscanf("%lf") of the C library. */
  datatype Config = Config(allowComments: bool, strictRoot: bool, scan: string -> Option<real>)

  /* The result of reading: success, the value now in the current node, the tokens left, the errors added. */
  datatype Parse = Parse(ok: bool, value: Value, rest: seq<Token>, errors: seq<Error>)

  // ----- Reading tokens: past the last one there is only the end of the stream.

  function Head(ts: seq<Token>): Token {
    if ts == [] then Token(EndOfStream, []) else ts[0]
  }

  function Tail(ts: seq<Token>): seq<Token> {
    if ts == [] then [] else ts[1..]
  }

  function SkipComments(ts: seq<Token>): (us: seq<Token>)
    ensures |us| <= |ts|
    ensures Head(us).kind != Comment
  {
    if Head(ts).kind == Comment then SkipComments(Tail(ts)) else ts
  }

  /* recoverFromError: skip past the next token of this kind, or past the end of the stream. */
  function Recover(ts: seq<Token>, kind: Kind): (us: seq<Token>)
    ensures |us| <= |ts|
  {
    if Head(ts).kind == kind || Head(ts).kind == EndOfStream then Tail(ts) else Recover(Tail(ts), kind)
  }

  // ----- Values.

  /* readValue; `current` is what the current node holds before. */
  function ReadValue(cfg: Config, ts: seq<Token>, current: Value): (r: Parse)
    ensures |r.rest| <= |ts| && (r.ok ==> |r.rest| < |ts|)
    decreases |ts|, 2
  {
    var us := if cfg.allowComments then SkipComments(ts) else ts;
    var t, rest := Head(us), Tail(us);
    match t.kind
    case ObjectBegin => ReadMembers(cfg, rest, [], [])
    case ArrayBegin => ReadArray(cfg, rest)
    case Number =>
      (match DecodeNumber(cfg.scan, t.text)
       case Some(v) => Parse(true, v, rest, [])
       case None => Parse(false, current, rest, [Error(NotANumber, t)]))
    case StringToken =>
      (match DecodeString(t.text)
       case Some(s) => Parse(true, Str(CString(s)), rest, [])
       case None => Parse(false, current, rest, [Error(BadString, t)]))
    case TrueToken => Parse(true, Bool(true), rest, [])
    case FalseToken => Parse(true, Bool(false), rest, [])
    case NullToken => Parse(true, Null, rest, [])
    case _ => Parse(false, current, rest, [Error(ValueExpected, t)])
  }

  function Failed(v: Value, rest: seq<Token>, kind: Kind, errors: seq<Error>): Parse {
    Parse(false, v, Recover(rest, kind), errors)
  }

  /* readObject's loop: `ms` are the members so far, `name` the name read last. */
  function ReadMembers(cfg: Config, ts: seq<Token>, ms: seq<Member>, name: string): (r: Parse)
    ensures |r.rest| <= |ts|
    decreases |ts|, 1
  {
    var us := SkipComments(ts);
    var t, rest := Head(us), Tail(us);
    if t.kind == ObjectEnd && name == [] then Parse(true, Object(ms), rest, [])
    else if t.kind != StringToken then Failed(Object(ms), rest, ObjectEnd, [Error(MissingBraceOrName, t)])
    else match DecodeString(t.text)
      case None => Failed(Object(ms), rest, ObjectEnd, [Error(BadString, t)])
      case Some(name') =>
        if Head(rest).kind != Colon then
          Failed(Object(ms), Tail(rest), ObjectEnd, [Error(MissingColon, Head(rest))])
        else ReadMember(cfg, Tail(rest), ms, name')
  }

  /* The value of a member, and what follows it. */
  function ReadMember(cfg: Config, ts: seq<Token>, ms: seq<Member>, name: string): (r: Parse)
    ensures |r.rest| <= |ts|
    decreases |ts|, 3
  {
    var key := CString(name);
    var child := ReadValue(cfg, ts, Resolve(ms, key));
    var ms' := Put(ms, key, child.value);
    if !child.ok then Failed(Object(ms'), child.rest, ObjectEnd, child.errors)
    else
      var comma := Head(child.rest);
      if comma.kind != ObjectEnd && comma.kind != Comma && comma.kind != Comment then
        Failed(Object(ms'), Tail(child.rest), ObjectEnd, child.errors + [Error(MissingCommaOrBrace, comma)])
      else
        var us := SkipComments(child.rest);
        if Head(us).kind == ObjectEnd then Parse(true, Object(ms'), Tail(us), child.errors)
        else
          var r := ReadMembers(cfg, Tail(us), ms', name);
          r.(errors := child.errors + r.errors)
  }

  /* readArray: an immediate bracket closes it. */
  function ReadArray(cfg: Config, ts: seq<Token>): (r: Parse)
    ensures |r.rest| <= |ts|
    decreases |ts|, 4
  {
    if Head(ts).kind == ArrayEnd then Parse(true, Array([]), Tail(ts), [])
    else ReadElems(cfg, ts, [])
  }

  /* readArray's loop: any token but a bracket separates two elements. */
  function ReadElems(cfg: Config, ts: seq<Token>, xs: seq<Value>): (r: Parse)
    ensures |r.rest| <= |ts|
    decreases |ts|, 3
  {
    var child := ReadValue(cfg, ts, Null);
    var xs' := xs + [child.value];
    if !child.ok then Failed(Array(xs'), child.rest, ArrayEnd, child.errors)
    else
      var us := SkipComments(child.rest);
      if Head(us).kind == ArrayEnd then Parse(true, Array(xs'), Tail(us), child.errors)
      else
        var r := ReadElems(cfg, Tail(us), xs');
        r.(errors := child.errors + r.errors)
  }

  predicate IsContainer(v: Value) {
    v.Null? || v.Array? || v.Object?
  }

  /* Reader::parse of a document into `root`. */
  function ParseDocument(cfg: Config, doc: string, root: Value): Parse {
    CheckRoot(cfg, ReadValue(cfg, Lex(doc), root), doc)
  }

  /* The strict mode demands an array or an object; null counts as both. */
  function CheckRoot(cfg: Config, r: Parse, doc: string): Parse {
    if cfg.strictRoot && !IsContainer(r.value) then
      r.(ok := false, errors := r.errors + [Error(RootNotContainer, Token(Bad, doc))])
    else r
  }

  // ----- The parser reports failure exactly when it has recorded an error.

  lemma {:induction false} ReadValueErrors(cfg: Config, ts: seq<Token>, current: Value)
    ensures var r := ReadValue(cfg, ts, current); r.ok <==> r.errors == []
    decreases |ts|, 2
  {
    var us := if cfg.allowComments then SkipComments(ts) else ts;
    if Head(us).kind == ObjectBegin {
      ReadMembersErrors(cfg, Tail(us), [], []);
    } else if Head(us).kind == ArrayBegin && Head(Tail(us)).kind != ArrayEnd {
      ReadElemsErrors(cfg, Tail(us), []);
    }
  }

  lemma {:induction false} ReadMembersErrors(cfg: Config, ts: seq<Token>, ms: seq<Member>, name: string)
    ensures var r := ReadMembers(cfg, ts, ms, name); r.ok <==> r.errors == []
    decreases |ts|, 1
  {
    var us := SkipComments(ts);
    var t, rest := Head(us), Tail(us);
    if t.kind == StringToken && DecodeString(t.text).Some? && Head(rest).kind == Colon {
      ReadMemberErrors(cfg, Tail(rest), ms, DecodeString(t.text).value);
    }
  }

  lemma {:induction false} ReadMemberErrors(cfg: Config, ts: seq<Token>, ms: seq<Member>, name: string)
    ensures var r := ReadMember(cfg, ts, ms, name); r.ok <==> r.errors == []
    decreases |ts|, 3
  {
    var key := CString(name);
    ReadValueErrors(cfg, ts, Resolve(ms, key));
    var child := ReadValue(cfg, ts, Resolve(ms, key));
    var us := SkipComments(child.rest);
    if child.ok && Head(us).kind != ObjectEnd {
      ReadMembersErrors(cfg, Tail(us), Put(ms, key, child.value), name);
    }
  }

  lemma {:induction false} ReadElemsErrors(cfg: Config, ts: seq<Token>, xs: seq<Value>)
    ensures var r := ReadElems(cfg, ts, xs); r.ok <==> r.errors == []
    decreases |ts|, 3
  {
    ReadValueErrors(cfg, ts, Null);
    var child := ReadValue(cfg, ts, Null);
    var us := SkipComments(child.rest);
    if child.ok && Head(us).kind != ArrayEnd {
      ReadElemsErrors(cfg, Tail(us), xs + [child.value]);
    }
  }

  lemma ParseFailsIffErrors(cfg: Config, doc: string, root: Value)
    ensures ParseDocument(cfg, doc, root).ok <==> ParseDocument(cfg, doc, root).errors == []
  {
    ReadValueErrors(cfg, Lex(doc), root);
  }
}
