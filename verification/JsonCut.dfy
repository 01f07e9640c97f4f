/**
 Documents read from a stream: Reader::parse takes the text up to the first byte 0xFF, the
 delimiter that EOF becomes as a char. A document with that byte inside a string ends within
 the string, and its parse fails.
 */
module JsonCut {
  import opened JsonValue
  import opened JsonLexer
  import opened JsonParser
  import opened JsonTokens
  import N = JsonNumber
  import S = JsonString
  import RT = JsonRoundTrip

  /* (char)EOF */
  const STOP: char := '\U{FF}'

  /* std::getline with that delimiter. */
  function UpToStop(s: string): (r: string)
    ensures r <= s && STOP !in r
    ensures |r| < |s| ==> s[|r|] == STOP
    ensures STOP !in s ==> r == s
  {
    if s == [] || s[0] == STOP then [] else [s[0]] + UpToStop(s[1..])
  }

  // ----- A prefix of a value's tokens, and then a token that is none, is not a value.

  lemma BadFails(cfg: Config, bad: Token, rest: seq<Token>, current: Value)
    requires bad.kind == Bad
    ensures !ReadValue(cfg, [bad] + rest, current).ok
  {
    HeadTail(bad, rest);
  }

  lemma NothingFails(cfg: Config, acc: seq<Value>)
    ensures !ReadElems(cfg, [], acc).ok
  {
    assert !ReadValue(cfg, [], Null).ok;
  }

  lemma {:induction false} CutFails(cfg: Config, realText: real -> string, v: Value, us: seq<Token>, bad: Token, current: Value)
    requires WellFormed(v) && RealFree(v) && us <= Tokens(realText, v) && |us| < |Tokens(realText, v)| && bad.kind == Bad
    ensures !ReadValue(cfg, us + [bad], current).ok
    decreases v, 3
  {
    if us == [] {
      assert us + [bad] == [bad] + [];
      BadFails(cfg, bad, [], current);
    } else {
      assert us == [us[0]] + us[1..] && us[0] == Tokens(realText, v)[0];
      assert us + [bad] == [us[0]] + (us[1..] + [bad]);
      if v.Array? {
        ArrayStep(cfg, us[1..] + [bad], current);
        InnerPrefix(Punctuation('['), ElemTokens(realText, v.elems), Punctuation(']'), us);
        ArrayCut(cfg, realText, v.elems, us[1..], bad);
      } else if v.Object? {
        ObjectStep(cfg, us[1..] + [bad], current);
        InnerPrefix(Punctuation('{'), MemberTokens(realText, v.members), Punctuation('}'), us);
        MembersCut(cfg, realText, v.members, us[1..], bad, [], []);
      }
    }
  }

  /* What is left of a proper prefix of a bracketed sequence after the opening bracket. */
  lemma InnerPrefix(open: Token, inner: seq<Token>, close: Token, us: seq<Token>)
    requires us != [] && us <= [open] + inner + [close] && |us| < |[open] + inner + [close]|
    ensures us[0] == open && us[1..] <= inner
  {
    var all := [open] + inner + [close];
    assert forall i :: 0 <= i < |us[1..]| ==> us[1..][i] == all[i + 1];
  }

  lemma {:induction false} ArrayCut(cfg: Config, realText: real -> string, xs: seq<Value>, w: seq<Token>, bad: Token)
    requires (forall x :: x in xs ==> WellFormed(x) && RealFree(x)) && w <= ElemTokens(realText, xs) && bad.kind == Bad
    ensures !ReadArray(cfg, w + [bad]).ok
    decreases xs, 2
  {
    if xs == [] {
      assert w + [bad] == [bad] + [];
      BadFails(cfg, bad, [], Null);
    } else {
      if w == [] {
        assert w + [bad] == [bad] + [];
      } else {
        ElemsSplit(realText, xs, []);
        FirstToken(realText, xs[0], ElemsAfter(realText, xs, []));
        assert ElemTokens(realText, xs) + [] == ElemTokens(realText, xs);
        assert Head(w + [bad]) == w[0] == Tokens(realText, xs[0])[0];
      }
      ElemsCut(cfg, realText, xs, w, bad, []);
    }
  }

  /* A prefix of a followed by b reaches into b, or not. */
  lemma PrefixSplit<T>(a: seq<T>, b: seq<T>, w: seq<T>)
    requires w <= a + b
    ensures |w| < |a| ==> w <= a
    ensures |w| >= |a| ==> w == a + w[|a|..] && w[|a|..] <= b
  {
  }

  lemma FailedElem(cfg: Config, ts: seq<Token>, acc: seq<Value>)
    requires !ReadValue(cfg, ts, Null).ok
    ensures !ReadElems(cfg, ts, acc).ok
  {
  }

  lemma FailedMember(cfg: Config, ts: seq<Token>, acc: seq<Member>, name: CText)
    requires !ReadValue(cfg, ts, Resolve(acc, name)).ok
    ensures !ReadMember(cfg, ts, acc, name).ok
  {
  }

  lemma {:induction false} ElemsCut(cfg: Config, realText: real -> string, xs: seq<Value>, w: seq<Token>, bad: Token, acc: seq<Value>)
    requires xs != [] && (forall x :: x in xs ==> WellFormed(x) && RealFree(x))
    requires w <= ElemTokens(realText, xs) && bad.kind == Bad
    ensures !ReadElems(cfg, w + [bad], acc).ok
    decreases xs, 1
  {
    var first := Tokens(realText, xs[0]);
    ElemsPrefix(realText, xs, w);
    if |w| < |first| {
      CutFails(cfg, realText, xs[0], w, bad, Null);
      FailedElem(cfg, w + [bad], acc);
    } else {
      var w' := w[|first|..];
      Regrouped(w, first, w', bad);
      ReadTokens(cfg, realText, xs[0], w' + [bad], Null);
      ElemsCutLater(cfg, realText, xs, w + [bad], w', bad, acc);
    }
  }

  lemma {:induction false} ElemsCutLater(cfg: Config, realText: real -> string, xs: seq<Value>, ts: seq<Token>, w: seq<Token>, bad: Token, acc: seq<Value>)
    requires xs != [] && (forall x :: x in xs ==> WellFormed(x) && RealFree(x))
    requires w <= ElemsAfter(realText, xs, []) && bad.kind == Bad
    requires ReadValue(cfg, ts, Null) == Parse(true, xs[0], w + [bad], [])
    ensures !ReadElems(cfg, ts, acc).ok
    decreases xs, 0
  {
    if w == [] {
      assert w + [bad] == [bad] + [];
      ElemsStep(cfg, ts, acc, xs[0], bad, []);
      NothingFails(cfg, acc + [xs[0]]);
    } else {
      AfterComma(realText, xs, w);
      assert w + [bad] == [w[0]] + (w[1..] + [bad]);
      ElemsStep(cfg, ts, acc, xs[0], w[0], w[1..] + [bad]);
      ElemsCut(cfg, realText, xs[1..], w[1..], bad, acc + [xs[0]]);
    }
  }

  lemma Regrouped(w: seq<Token>, first: seq<Token>, w': seq<Token>, bad: Token)
    requires w == first + w'
    ensures w + [bad] == first + (w' + [bad])
  {
  }

  /* A prefix of the elements' tokens ends within the first element, or goes on after it. */
  lemma ElemsPrefix(realText: real -> string, xs: seq<Value>, w: seq<Token>)
    requires xs != [] && w <= ElemTokens(realText, xs)
    ensures var first := Tokens(realText, xs[0]);
      if |w| < |first| then w <= first else w == first + w[|first|..] && w[|first|..] <= ElemsAfter(realText, xs, [])
  {
    ElemsSplit(realText, xs, []);
    assert ElemTokens(realText, xs) + [] == ElemTokens(realText, xs);
    PrefixSplit(Tokens(realText, xs[0]), ElemsAfter(realText, xs, []), w);
  }

  lemma AfterComma(realText: real -> string, xs: seq<Value>, w: seq<Token>)
    requires xs != [] && w != [] && w <= ElemsAfter(realText, xs, [])
    ensures |xs| > 1 && w[0] == Punctuation(',') && w[1..] <= ElemTokens(realText, xs[1..])
  {
    var rest := ElemTokens(realText, xs[1..]);
    assert rest + [] == rest;
    assert forall i :: 0 <= i < |w[1..]| ==> w[1..][i] == ([Punctuation(',')] + rest)[i + 1];
  }

  lemma {:induction false} MembersCut(cfg: Config, realText: real -> string, ms: seq<Member>, w: seq<Token>, bad: Token,
                                      acc: seq<Member>, name: string)
    requires (forall m :: m in ms ==> WellFormed(m.value) && RealFree(m.value))
    requires w <= MemberTokens(realText, ms) && bad.kind == Bad
    ensures !ReadMembers(cfg, w + [bad], acc, name).ok
    decreases ms, 2
  {
    if w == [] {
      assert w + [bad] == [bad] + [];
      HeadTail(bad, []);
    } else {
      MembersSplit(realText, ms, []);
      assert MemberTokens(realText, ms) + [] == MemberTokens(realText, ms);
      var key, after := NameTokens(ms[0].name)[0], Tokens(realText, ms[0].value) + MembersAfter(realText, ms, []);
      assert MemberTokens(realText, ms) == [key] + ([Punctuation(':')] + after);
      DecodeKey(ms[0].name);
      if |w| == 1 {
        assert w + [bad] == [key] + ([bad] + []);
        HeadTail(key, [bad] + []);
      } else {
        TwoThenPrefix(key, Punctuation(':'), after, w);
        assert w + [bad] == [key] + ([Punctuation(':')] + (w[2..] + [bad]));
        NameStep(cfg, key, ms[0].name, w[2..] + [bad], acc, name);
        MemberCut(cfg, realText, ms, w[2..], bad, acc);
      }
    }
  }

  lemma DecodeKey(name: CText)
    ensures NameTokens(name)[0].kind == StringToken && S.DecodeString(NameTokens(name)[0].text).Some?
    ensures S.DecodeString(NameTokens(name)[0].text).value == name
  {
    S.DecodeQuoted(name);
  }

  lemma TwoThenPrefix(a: Token, b: Token, after: seq<Token>, w: seq<Token>)
    requires |w| >= 2 && w <= [a] + ([b] + after)
    ensures w[0] == a && w[1] == b && w[2..] <= after
  {
    var all := [a] + ([b] + after);
    assert forall i :: 0 <= i < |w[2..]| ==> w[2..][i] == all[i + 2];
  }

  lemma {:induction false} MemberCut(cfg: Config, realText: real -> string, ms: seq<Member>, w: seq<Token>, bad: Token, acc: seq<Member>)
    requires ms != [] && (forall m :: m in ms ==> WellFormed(m.value) && RealFree(m.value)) && bad.kind == Bad
    requires w <= Tokens(realText, ms[0].value) + MembersAfter(realText, ms, [])
    ensures !ReadMember(cfg, w + [bad], acc, ms[0].name).ok
    decreases ms, 1
  {
    var m := ms[0];
    assert m in ms;
    var first, current := Tokens(realText, m.value), Resolve(acc, m.name);
    PrefixSplit(first, MembersAfter(realText, ms, []), w);
    if |w| < |first| {
      CutFails(cfg, realText, m.value, w, bad, current);
      FailedMember(cfg, w + [bad], acc, m.name);
    } else {
      var w' := w[|first|..];
      Regrouped(w, first, w', bad);
      ReadTokens(cfg, realText, m.value, w' + [bad], current);
      MemberCutLater(cfg, realText, ms, w + [bad], w', bad, acc);
    }
  }

  lemma {:induction false} MemberCutLater(cfg: Config, realText: real -> string, ms: seq<Member>, ts: seq<Token>, w: seq<Token>, bad: Token, acc: seq<Member>)
    requires ms != [] && (forall m :: m in ms ==> WellFormed(m.value) && RealFree(m.value)) && bad.kind == Bad
    requires w <= MembersAfter(realText, ms, [])
    requires ReadValue(cfg, ts, Resolve(acc, ms[0].name)) == Parse(true, ms[0].value, w + [bad], [])
    ensures !ReadMember(cfg, ts, acc, ms[0].name).ok
    decreases ms, 0
  {
    var m := ms[0];
    if w == [] {
      assert w + [bad] == [bad] + [];
      HeadTail(bad, []);
    } else {
      AfterMemberComma(realText, ms, w);
      assert w + [bad] == [w[0]] + (w[1..] + [bad]);
      MemberStep(cfg, ts, acc, m.name, m.value, w[0], w[1..] + [bad]);
      MembersCut(cfg, realText, ms[1..], w[1..], bad, Put(acc, m.name, m.value), m.name);
    }
  }

  lemma AfterMemberComma(realText: real -> string, ms: seq<Member>, w: seq<Token>)
    requires ms != [] && w != [] && w <= MembersAfter(realText, ms, [])
    ensures |ms| > 1 && w[0] == Punctuation(',') && w[1..] <= MemberTokens(realText, ms[1..])
  {
    var rest := MemberTokens(realText, ms[1..]);
    assert rest + [] == rest;
    assert forall i :: 0 <= i < |w[1..]| ==> w[1..][i] == ([Punctuation(',')] + rest)[i + 1];
  }

  // ----- The tokens of a text that is cut within a string.

  lemma {:induction false} StringKept(u: string, m: nat)
    requires ScanString(u).ok && |u| - |ScanString(u).rest| <= m <= |u|
    ensures ScanString(u[..m]) == Scan(true, u[|u| - |ScanString(u).rest|..m])
    decreases |u|
  {
    var n := |u| - |ScanString(u).rest|;
    if u[0] == '"' {
      assert u[..m][1..] == u[1..m];
    } else if u[0] == '\\' {
      StringKept(u[2..], m - 2);
      assert u[..m][2..] == u[2..][..m - 2] && u[2..][n - 2..m - 2] == u[n..m];
    } else {
      StringKept(u[1..], m - 1);
      assert u[..m][1..] == u[1..][..m - 1] && u[1..][n - 1..m - 1] == u[n..m];
    }
  }

  lemma {:induction false} StringCut(u: string, m: nat)
    requires ScanString(u).ok && m < |u| - |ScanString(u).rest|
    ensures ScanString(u[..m]) == Scan(false, [])
    decreases |u|
  {
    if m > 0 {
      if u[0] == '\\' {
        if m > 1 {
          StringCut(u[2..], m - 2);
          assert u[..m][2..] == u[2..][..m - 2];
        }
      } else {
        StringCut(u[1..], m - 1);
        assert u[..m][1..] == u[1..][..m - 1];
      }
    }
  }

  lemma {:induction false} NumberKept(u: string, m: nat)
    requires |u| - |ScanNumber(u)| <= m <= |u|
    ensures ScanNumber(u[..m]) == u[|u| - |ScanNumber(u)|..m]
    decreases |u|
  {
    var n := |u| - |ScanNumber(u)|;
    if u != [] && IsNumberChar(u[0]) {
      NumberKept(u[1..], m - 1);
      assert u[..m][1..] == u[1..][..m - 1] && u[1..][n - 1..m - 1] == u[n..m];
    } else {
      assert u[..m] == u[0..m];
    }
  }

  /* The kinds of token a written value has. */
  predicate Written(kind: Kind) {
    kind != Comment && kind != Bad && kind != EndOfStream
  }

  lemma MatchKept(u: string, pattern: string, m: nat)
    requires pattern <= u && |pattern| <= m <= |u|
    ensures Match(u[..m], pattern) == Scan(true, u[|pattern|..m])
  {
  }

  lemma TokenKept(c: char, u: string, m: nat)
    requires Written(ScanToken(c, u).0) && |u| - |ScanToken(c, u).1| <= m <= |u|
    ensures ScanToken(c, u[..m]) == (ScanToken(c, u).0, u[|u| - |ScanToken(c, u).1|..m])
  {
    assert u[0..m] == u[..m];
    if c == '"' {
      StringKept(u, m);
    } else if c == 't' {
      MatchKept(u, "rue", m);
    } else if c == 'f' {
      MatchKept(u, "alse", m);
    } else if c == 'n' {
      MatchKept(u, "ull", m);
    } else if IsDigit(c) || c == '-' {
      NumberKept(u, m);
    }
  }

  lemma {:induction false} SpacesKept(s: string, k: nat)
    requires k < |s| && !IsSpace(s[k])
    ensures var j := |s| - |SkipSpaces(s)|; j <= k && SkipSpaces(s) == s[j..] && SkipSpaces(s[..k]) == s[j..k]
  {
    if IsSpace(s[0]) {
      SpacesKept(s[1..], k - 1);
      var j := |s| - |SkipSpaces(s)|;
      assert s[1..][j - 1..] == s[j..] && s[..k][1..] == s[1..][..k - 1] && s[1..][j - 1..k - 1] == s[j..k];
    } else {
      assert s[0..] == s && s[0..k] == s[..k];
    }
  }

  /* Tokens of a written value: only strings can hold the stop byte. */
  ghost predicate Plain(ts: seq<Token>) {
    forall i :: 0 <= i < |ts| ==> Written(ts[i].kind) && (STOP in ts[i].text ==> ts[i].kind == StringToken)
  }

  /* The head of a text without leading spaces, cut at or after the end of its first token. */
  lemma HeadKept(t: string, k: nat)
    requires t != [] && k <= |t| && Written(TokenAt(t).token.kind) && |t| - |TokenAt(t).rest| <= k
    ensures t[..k] != [] && TokenAt(t[..k]) == Read(TokenAt(t).token, TokenAt(t).rest[..k - (|t| - |TokenAt(t).rest|)])
  {
    var c, u := t[0], t[1..];
    var kind, rest := ScanToken(c, u).0, ScanToken(c, u).1;
    TokenKept(c, u, k - 1);
    RestIsSuffix(c, u);
    var n := |u| - |rest|;
    Slices(t, k, n);
    TokenIs(t, kind, rest);
    TokenIs(t[..k], kind, rest[..k - 1 - n]);
  }

  lemma TokenIs(t: string, kind: Kind, rest: string)
    requires t != [] && ScanToken(t[0], t[1..]) == (kind, rest)
    ensures TokenAt(t) == Read(Token(kind, t[..|t| - |rest|]), rest)
  {
  }

  lemma Slices(t: string, k: nat, n: nat)
    requires n < k <= |t|
    ensures t[..k][1..] == t[1..][..k - 1] && t[1..][n..k - 1] == t[1..][n..][..k - 1 - n]
    ensures t[..k][..|t[..k]| - |t[1..][n..k - 1]|] == t[..n + 1]
  {
  }

  /* Scanning leaves a suffix. */
  lemma RestIsSuffix(c: char, u: string)
    requires Written(ScanToken(c, u).0)
    ensures ScanToken(c, u).1 == u[|u| - |ScanToken(c, u).1|..]
  {
    TokenKept(c, u, |u|);
    assert u[..|u|] == u;
  }

  /* ... or within it, when it is a string. */
  lemma HeadCut(t: string, k: nat)
    requires t != [] && TokenAt(t).token.kind == StringToken && 0 < k < |t| - |TokenAt(t).rest|
    ensures t[..k] != [] && TokenAt(t[..k]) == Read(Token(Bad, t[..k]), [])
  {
    StringHead(t[0], t[1..]);
    StringCut(t[1..], k - 1);
    assert t[..k][1..] == t[1..][..k - 1];
    assert t[..k][..|t[..k]|] == t[..k];
  }

  lemma StringHead(c: char, u: string)
    requires ScanToken(c, u).0 == StringToken
    ensures c == '"' && ScanString(u) == Scan(true, ScanToken(c, u).1)
  {
  }

  ghost predicate AnyStop(ts: seq<Token>) {
    exists i :: 0 <= i < |ts| && STOP in ts[i].text
  }

  lemma ConsTokens(head: Token, ts: seq<Token>)
    ensures AnyStop([head] + ts) <==> STOP in head.text || AnyStop(ts)
    ensures Plain([head] + ts) ==> Plain(ts) && Written(head.kind) && (STOP in head.text ==> head.kind == StringToken)
  {
    var all := [head] + ts;
    assert all[0] == head && forall i :: 0 <= i < |ts| ==> ts[i] == all[i + 1];
    if AnyStop(ts) {
      var i :| 0 <= i < |ts| && STOP in ts[i].text;
      assert STOP in all[i + 1].text;
    }
  }

  /* The first token of a text and what follows it. */
  lemma LexParts(s: string, t: string, head: Token, rest: string)
    requires t == SkipSpaces(s) != [] && Read(head, rest) == TokenAt(t) && Written(head.kind)
    ensures Lex(s) == [head] + Lex(rest) && t == head.text + rest && head.text == t[..|t| - |rest|] && head.text != []
  {
    RestIsSuffix(t[0], t[1..]);
  }

  /* Cutting a text at the stop byte leaves some of its tokens, and one that is none. */
  lemma {:induction false} LexCut(s: string, k: nat) returns (n: nat, bad: Token)
    requires k < |s| && s[k] == STOP && STOP !in s[..k] && Plain(Lex(s))
    ensures n < |Lex(s)| && bad.kind == Bad && Lex(s[..k]) == Lex(s)[..n] + [bad]
    decreases |s|
  {
    SpacesKept(s, k);
    var t := SkipSpaces(s);
    var j := k - (|s| - |t|);
    assert SkipSpaces(s[..k]) == t[..j] && t[j] == STOP && t[..j] == s[k - j..k];
    assert STOP !in t[..j];
    n, bad := LexCutAt(s, t, s[..k], j);
  }

  lemma {:induction false} LexCutAt(s: string, t: string, cut: string, j: nat) returns (n: nat, bad: Token)
    requires t == SkipSpaces(s) && j < |t| && t[j] == STOP && STOP !in t[..j] && SkipSpaces(cut) == t[..j] && Plain(Lex(s))
    ensures n < |Lex(s)| && bad.kind == Bad && Lex(cut) == Lex(s)[..n] + [bad]
    decreases |t|, 0
  {
    var head, rest := TokenAt(t).token, TokenAt(t).rest;
    LexHead(s, t, head, rest);
    ConsTokens(head, Lex(rest));
    LexParts(s, t, head, rest);
    if |head.text| <= j {
      CutThrough(t, cut, head, rest, j);
      var n', bad' := LexCut(rest, j - |head.text|);
      n, bad := n' + 1, bad';
      MoreTokens(head, Lex(rest), n', bad);
    } else {
      assert head.text[j] == STOP;
      CutHere(t, cut, j);
      n, bad := 0, Token(Bad, t[..j]);
    }
  }

  lemma MoreTokens(head: Token, ts: seq<Token>, n: nat, bad: Token)
    requires n < |ts|
    ensures [head] + (ts[..n] + [bad]) == ([head] + ts)[..n + 1] + [bad]
  {
  }

  lemma CutThrough(t: string, cut: string, head: Token, rest: string, j: nat)
    requires t != [] && j < |t| && t[j] == STOP && STOP !in t[..j] && SkipSpaces(cut) == t[..j]
    requires Read(head, rest) == TokenAt(t) && Written(head.kind) && t == head.text + rest && |head.text| <= j
    ensures var k := j - |head.text|;
      k < |rest| && rest[k] == STOP && STOP !in rest[..k] && Lex(cut) == [head] + Lex(rest[..k])
  {
    var k := j - |head.text|;
    HeadKept(t, j);
    RestOfCut(t, head.text, rest, j);
    LexHead(cut, t[..j], head, rest[..k]);
  }

  lemma LexHead(s: string, t: string, head: Token, rest: string)
    requires SkipSpaces(s) == t != [] && TokenAt(t) == Read(head, rest)
    ensures Lex(s) == [head] + Lex(rest)
  {
  }

  lemma RestOfCut(t: string, first: string, rest: string, j: nat)
    requires t == first + rest && |first| <= j < |t| && t[j] == STOP && STOP !in t[..j]
    ensures var k := j - |first|; k < |rest| && rest[k] == STOP && STOP !in rest[..k]
  {
    assert t[..j] == first + rest[..j - |first|];
  }

  lemma CutHere(t: string, cut: string, j: nat)
    requires 0 <= j < |t| && t[j] == STOP && SkipSpaces(cut) == t[..j]
    requires TokenAt(t).token.kind == StringToken && j < |t| - |TokenAt(t).rest|
    ensures Lex(cut) == [Token(Bad, t[..j])]
  {
    StringHead(t[0], t[1..]);
    HeadCut(t, j);
    assert Lex([]) == [];
  }

  // ----- Where the stop byte of a text comes from.

  /* Every character of a text is white space or in a token, and those of the tokens are in the text. */
  lemma {:induction false} LexCovers(s: string)
    requires Plain(Lex(s))
    ensures STOP in s <==> AnyStop(Lex(s))
    decreases |s|
  {
    var t := SkipSpaces(s);
    SpacesCover(s);
    if t != [] {
      var head, rest := TokenAt(t).token, TokenAt(t).rest;
      assert Lex(s) == [head] + Lex(rest);
      ConsTokens(head, Lex(rest));
      LexParts(s, t, head, rest);
      LexCovers(rest);
    }
  }

  lemma {:induction false} SpacesCover(s: string)
    ensures STOP in s <==> STOP in SkipSpaces(s)
  {
    if s != [] && IsSpace(s[0]) {
      SpacesCover(s[1..]);
    }
  }

  /* Some string or member name of the value holds the stop byte. */
  ghost predicate HoldsStop(v: Value) {
    match v
    case Str(s) => STOP in s
    case Array(xs) => exists x :: x in xs && HoldsStop(x)
    case Object(ms) => exists m :: m in ms && (STOP in m.name || HoldsStop(m.value))
    case _ => false
  }

  // ----- The tokens of a value hold the stop byte exactly if the value does.

  lemma StopAppend(a: seq<Token>, b: seq<Token>)
    ensures AnyStop(a + b) <==> AnyStop(a) || AnyStop(b)
    ensures Plain(a + b) <==> Plain(a) && Plain(b)
  {
    var all := a + b;
    assert forall i :: 0 <= i < |a| ==> a[i] == all[i];
    assert forall i :: 0 <= i < |b| ==> b[i] == all[|a| + i];
    if AnyStop(b) {
      var i :| 0 <= i < |b| && STOP in b[i].text;
      assert STOP in all[|a| + i].text;
    }
  }

  lemma {:induction false} EscapeStop(s: string)
    ensures STOP in S.Escape(s) <==> STOP in s
  {
    if s != [] {
      EscapeStop(s[1..]);
      EscapeCharStop(s[0]);
    }
  }

  lemma EscapeCharStop(c: char)
    ensures STOP in S.EscapeChar(c) <==> c == STOP
  {
    if S.IsControl(c) && |S.EscapeChar(c)| == 6 {
      var h := S.Hex4(c as int);
      assert h[0] != STOP && h[1] != STOP && h[2] != STOP && h[3] != STOP;
    }
  }

  lemma OneTokenStop(t: Token)
    ensures AnyStop([t]) <==> STOP in t.text
  {
    if STOP in t.text { assert STOP in [t][0].text; }
  }

  lemma QuotedStop(s: string)
    ensures STOP in Quoted(S.Escape(s)) <==> STOP in s
  {
    EscapeStop(s);
  }

  lemma DigitsStop(n: nat)
    ensures STOP !in N.Digits(n) && STOP !in "-" + N.Digits(n)
  {
    assert !IsDigit(STOP);
  }

  lemma {:induction false} TokensStop(realText: real -> string, v: Value)
    requires RealFree(v)
    ensures Plain(Tokens(realText, v)) && (AnyStop(Tokens(realText, v)) <==> HoldsStop(v))
    decreases v, 1
  {
    if v.Array? {
      ElemsStop(realText, v.elems);
      BracketStop('[', ElemTokens(realText, v.elems), ']');
    } else if v.Object? {
      MembersStop(realText, v.members);
      BracketStop('{', MemberTokens(realText, v.members), '}');
    } else {
      var t := Tokens(realText, v)[0];
      assert Tokens(realText, v) == [t];
      OneTokenStop(t);
      if v.Str? { QuotedStop(v.s); }
      if v.Int? { DigitsStop(N.Abs(v.i)); }
      if v.UInt? { DigitsStop(v.u); }
    }
  }

  lemma BracketStop(open: char, ts: seq<Token>, close: char)
    requires IsPunctuation(open) && IsPunctuation(close)
    ensures var all := [Punctuation(open)] + ts + [Punctuation(close)];
            (Plain(all) <==> Plain(ts)) && (AnyStop(all) <==> AnyStop(ts))
  {
    StopAppend([Punctuation(open)] + ts, [Punctuation(close)]);
    StopAppend([Punctuation(open)], ts);
    OneTokenStop(Punctuation(open));
    OneTokenStop(Punctuation(close));
  }

  ghost predicate ElemsHoldStop(xs: seq<Value>) {
    exists x :: x in xs && HoldsStop(x)
  }

  ghost predicate MembersHoldStop(ms: seq<Member>) {
    exists m :: m in ms && (STOP in m.name || HoldsStop(m.value))
  }

  lemma ElemsHoldCons(xs: seq<Value>)
    requires xs != []
    ensures ElemsHoldStop(xs) <==> HoldsStop(xs[0]) || ElemsHoldStop(xs[1..])
  {
    assert xs[0] in xs && forall x :: x in xs <==> x == xs[0] || x in xs[1..];
  }

  lemma MembersHoldCons(ms: seq<Member>)
    requires ms != []
    ensures MembersHoldStop(ms) <==> STOP in ms[0].name || HoldsStop(ms[0].value) || MembersHoldStop(ms[1..])
  {
    assert ms[0] in ms && forall m :: m in ms <==> m == ms[0] || m in ms[1..];
  }

  lemma {:induction false} ElemsStop(realText: real -> string, xs: seq<Value>)
    requires forall x :: x in xs ==> RealFree(x)
    ensures Plain(ElemTokens(realText, xs)) && (AnyStop(ElemTokens(realText, xs)) <==> ElemsHoldStop(xs))
    decreases xs, 0
  {
    if xs != [] {
      TokensStop(realText, xs[0]);
      ElemsStop(realText, xs[1..]);
      ElemsHoldCons(xs);
      ElemsSplit(realText, xs, []);
      assert ElemTokens(realText, xs) + [] == ElemTokens(realText, xs);
      StopAppend(Tokens(realText, xs[0]), ElemsAfter(realText, xs, []));
      if |xs| > 1 {
        var rest := ElemTokens(realText, xs[1..]);
        assert rest + [] == rest;
        StopAppend([Punctuation(',')], rest);
        OneTokenStop(Punctuation(','));
      }
    }
  }

  lemma NameStop(name: CText)
    ensures Plain(NameTokens(name)) && (AnyStop(NameTokens(name)) <==> STOP in name)
  {
    QuotedStop(name);
    var key := NameTokens(name)[0];
    assert NameTokens(name) == [key] + [Punctuation(':')];
    StopAppend([key], [Punctuation(':')]);
    OneTokenStop(key);
    OneTokenStop(Punctuation(':'));
  }

  lemma {:induction false} MembersStop(realText: real -> string, ms: seq<Member>)
    requires forall m :: m in ms ==> RealFree(m.value)
    ensures Plain(MemberTokens(realText, ms)) && (AnyStop(MemberTokens(realText, ms)) <==> MembersHoldStop(ms))
    decreases ms, 0
  {
    if ms != [] {
      assert ms[0] in ms;
      TokensStop(realText, ms[0].value);
      MembersStop(realText, ms[1..]);
      MembersHoldCons(ms);
      NameStop(ms[0].name);
      var value, rest := Tokens(realText, ms[0].value), MemberTokens(realText, ms[1..]);
      StopAppend(NameTokens(ms[0].name), value);
      if |ms| > 1 {
        StopAppend(NameTokens(ms[0].name) + value, [Punctuation(',')]);
        StopAppend(NameTokens(ms[0].name) + value + [Punctuation(',')], rest);
        OneTokenStop(Punctuation(','));
      }
    }
  }

  // ----- Reading from a stream.

  /* Reader::parse of a stream. */
  function ParseStream(cfg: Config, text: string, root: Value): Parse {
    ParseDocument(cfg, UpToStop(text), root)
  }

  /* A text with a value's tokens, read from a stream, gives the value back if no string or name holds the
     stop byte, and fails if one does. */
  lemma StreamReadsExactly(cfg: Config, realText: real -> string, v: Value, text: string, root: Value)
    requires WellFormed(v) && RealFree(v) && (cfg.strictRoot ==> IsContainer(v)) && Lex(text) == Tokens(realText, v)
    ensures if HoldsStop(v) then !ParseStream(cfg, text, root).ok else ParseStream(cfg, text, root) == Parse(true, v, [], [])
  {
    StopInText(realText, v, text);
    if HoldsStop(v) {
      StreamFails(cfg, realText, v, text, root);
    } else {
      RT.ParseOfTokens(cfg, realText, v, text, root);
    }
  }

  lemma StopInText(realText: real -> string, v: Value, text: string)
    requires RealFree(v) && Lex(text) == Tokens(realText, v)
    ensures Plain(Lex(text)) && (STOP in text <==> HoldsStop(v))
  {
    TokensStop(realText, v);
    LexCovers(text);
  }

  lemma StreamFails(cfg: Config, realText: real -> string, v: Value, text: string, root: Value)
    requires WellFormed(v) && RealFree(v) && Lex(text) == Tokens(realText, v) && STOP in text && Plain(Lex(text))
    ensures !ParseStream(cfg, text, root).ok
  {
    var cut := UpToStop(text);
    var n, bad := LexCut(text, |cut|);
    assert text[..|cut|] == cut;
    CutFails(cfg, realText, v, Tokens(realText, v)[..n], bad, root);
  }

  /* std::getline( sin, doc, (char)EOF ) */
  method GetLine(text: string) returns (doc: string)
    ensures doc == UpToStop(text)
  {
    doc := [];
    var i := 0;
    while i < |text| && text[i] != STOP
      invariant 0 <= i <= |text| && doc == text[..i] && STOP !in doc
    {
      doc := doc + [text[i]];
      i := i + 1;
    }
    StopsAt(text, i);
  }

  lemma StopsAt(text: string, i: nat)
    requires i <= |text| && STOP !in text[..i] && (i < |text| ==> text[i] == STOP)
    ensures UpToStop(text) == text[..i]
  {
    var r := UpToStop(text);
    assert |r| >= i by {
      assert forall j :: 0 <= j < i ==> text[j] in text[..i];
    }
    assert |r| <= i by {
      assert forall j :: 0 <= j < |r| ==> text[j] in r;
    }
  }
}
