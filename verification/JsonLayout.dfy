/**
 The layout of a styled text, judged on the text alone: a scanner that follows brackets, quotes
 and line ends, and stops at anything out of place. Every text of StyledWriter passes it.
 */
module JsonLayout {
  import opened Options
  import opened JsonValue
  import opened JsonLexer
  import opened JsonNumber
  import opened JsonString
  import opened JsonTokens
  import opened JsonWriter
  import opened JsonStyledText

  // ----- The scanner.

  /* An open bracket: its members or elements are on lines of their own, or all on one line. */
  datatype Kind = Lines | Inline

  /* What stood last, white space apart. */
  datatype Last = Nothing | Brace | Bracket | AfterComma | AfterColon | Word

  /* `margin` counts the spaces of a line on which there is nothing else yet; `space` is a single space in a line. */
  datatype Scan =
    | OutOfPlace
    | At(open: seq<Kind>, last: Last, space: bool, margin: Option<nat>)
    | InText(open: seq<Kind>, escaped: bool)

  function Top(open: seq<Kind>): Option<Kind> {
    if open == [] then None else Some(open[|open| - 1])
  }

  function Pop(open: seq<Kind>): seq<Kind>
    requires open != []
  {
    open[..|open| - 1]
  }

  predicate Closes(c: char) {
    c == ']' || c == '}'
  }

  predicate InWord(c: char) {
    c == '-' || c == '+' || c == '.' || '0' <= c <= '9' || 'a' <= c <= 'z' || 'A' <= c <= 'Z'
  }

  function After(open: seq<Kind>): Scan {
    At(open, Word, false, None)
  }

  function Step(s: Scan, c: char): Scan {
    match s
    case OutOfPlace => OutOfPlace
    case InText(open, escaped) =>
      if escaped then InText(open, false)
      else if c == '\\' then InText(open, true)
      else if c == '"' then After(open)
      else InText(open, false)
    case At(open, last, space, margin) =>
      if margin.Some? then AtMargin(open, last, margin.value, c)
      else if c == '\n' then Broken(open, last, space)
      else if c == ' ' then Spaced(open, last, space)
      else if Closes(c) then Closed(open, last, space)
      else InLine(open, last, space, c)
  }

  /* A line begins with three spaces for each bracket that is open before it; a closing one counts as closed. A
     value or name begins a line after an opening bracket or a comma, a closing bracket after a value. */
  function AtMargin(open: seq<Kind>, last: Last, spaces: nat, c: char): Scan {
    if c == ' ' then At(open, last, false, Some(spaces + 1))
    else if Closes(c) then
      if open != [] && last == Word && spaces + 3 == 3 * |open| then After(Pop(open)) else OutOfPlace
    else if last != Word && spaces == 3 * |open| then Begin(open, c)
    else OutOfPlace
  }

  /* A line ends after an opening bracket, a comma or a value, and not within brackets that are all on one line. */
  function Broken(open: seq<Kind>, last: Last, space: bool): Scan {
    if !space && last != AfterColon && Inline !in open then At(open, last, false, Some(0)) else OutOfPlace
  }

  /* Single spaces: after a colon, before one, and in an array on one line after the bracket and the commas and before
     the closing bracket. */
  function Spaced(open: seq<Kind>, last: Last, space: bool): Scan {
    if space || open == [] then OutOfPlace
    else match last
      case AfterColon => At(open, AfterColon, true, None)
      case Word => At(open, Word, true, None)
      case Bracket => At(Pop(open) + [Inline], Bracket, true, None)
      case AfterComma => if Top(open) == Some(Inline) then At(open, AfterComma, true, None) else OutOfPlace
      case _ => OutOfPlace
  }

  /* Within a line, brackets close an array that is all on the line, or nothing. */
  function Closed(open: seq<Kind>, last: Last, space: bool): Scan {
    if open == [] then OutOfPlace
    else if !space && (last == Brace || last == Bracket) then After(Pop(open))
    else if space && last == Word && Top(open) == Some(Inline) then After(Pop(open))
    else OutOfPlace
  }

  function InLine(open: seq<Kind>, last: Last, space: bool, c: char): Scan {
    if c == ':' then
      if space && last == Word && Top(open) == Some(Lines) then At(open, AfterColon, false, None) else OutOfPlace
    else if c == ',' then
      if !space && last == Word && open != [] then At(open, AfterComma, false, None) else OutOfPlace
    else if last == Word then
      if !space && InWord(c) then After(open) else OutOfPlace
    else if space && (last == AfterColon || last == Bracket || last == AfterComma) then Begin(open, c)
    else OutOfPlace
  }

  /* A value or a name begins. */
  function Begin(open: seq<Kind>, c: char): Scan {
    if c == '"' then InText(open, false)
    else if c == '{' then At(open + [Lines], Brace, false, None)
    else if c == '[' then At(open + [Lines], Bracket, false, None)
    else if InWord(c) then After(open)
    else OutOfPlace
  }

  function Run(s: Scan, text: string): Scan
    decreases |text|
  {
    if text == [] then s else Run(Step(s, text[0]), text[1..])
  }

  /* The document is the lines of one value, and nothing is out of place. */
  predicate LaidOut(text: string) {
    Run(At([], Nothing, false, Some(0)), text) == At([], Word, false, Some(0))
  }

  lemma {:induction false} RunThen(s: Scan, a: string, b: string)
    ensures Run(s, a + b) == Run(Run(s, a), b)
    decreases |a|
  {
    if a == [] {
      assert a + b == b;
    } else {
      assert (a + b)[1..] == a[1..] + b;
      RunThen(Step(s, a[0]), a[1..], b);
    }
  }

  lemma RunOne(s: Scan, c: char)
    ensures Run(s, [c]) == Step(s, c)
  {
    assert [c][1..] == [];
  }

  // ----- Where a value can begin.

  ghost predicate Ready(s: Scan, open: seq<Kind>) {
    && s.At? && s.open == open && s.last != Word
    && (s.margin == Some(3 * |open|) || (s.margin == None && s.space && (s.last == AfterColon || s.last == Bracket || s.last == AfterComma)))
  }

  predicate Starts(c: char) {
    c == '"' || c == '{' || c == '[' || InWord(c)
  }

  lemma ReadyBegins(s: Scan, open: seq<Kind>, c: char)
    requires Ready(s, open) && Starts(c)
    ensures Step(s, c) == Begin(open, c)
  {
  }

  lemma {:induction false} WordOn(open: seq<Kind>, text: string)
    requires forall c :: c in text ==> InWord(c)
    ensures Run(After(open), text) == After(open)
    decreases |text|
  {
    if text != [] {
      assert text[0] in text;
      WordOn(open, text[1..]);
    }
  }

  lemma WordRuns(s: Scan, open: seq<Kind>, text: string)
    requires Ready(s, open) && text != [] && forall c :: c in text ==> InWord(c)
    ensures Run(s, text) == After(open)
  {
    assert text[0] in text;
    ReadyBegins(s, open, text[0]);
    WordOn(open, text[1..]);
  }

  lemma {:induction false} PlainOn(open: seq<Kind>, text: string)
    requires forall i :: 0 <= i < |text| ==> text[i] != '"' && text[i] != '\\'
    ensures Run(InText(open, false), text) == InText(open, false)
    decreases |text|
  {
    if text != [] {
      PlainOn(open, text[1..]);
    }
  }

  lemma PairOn(open: seq<Kind>, c: char)
    ensures Run(InText(open, false), ['\\', c]) == InText(open, false)
  {
    assert ['\\', c][1..] == [c];
    RunOne(InText(open, true), c);
  }

  lemma Hex4On(open: seq<Kind>, n: nat)
    requires n < 0x10000
    ensures Run(InText(open, false), Hex4(n)) == InText(open, false)
  {
    PlainOn(open, Hex4(n));
  }

  lemma EscapedOn(open: seq<Kind>, c: char)
    ensures Run(InText(open, false), EscapeChar(c)) == InText(open, false)
  {
    var e := EscapeChar(c);
    if |e| == 2 {
      assert e == ['\\', e[1]];
      PairOn(open, e[1]);
    } else if IsControl(c) {
      assert e == ['\\', 'u'] + Hex4(c as int);
      RunThen(InText(open, false), ['\\', 'u'], Hex4(c as int));
      PairOn(open, 'u');
      Hex4On(open, c as int);
    } else {
      PlainOn(open, [c]);
    }
  }

  lemma {:induction false} EscapeOn(open: seq<Kind>, s: string)
    ensures Run(InText(open, false), Escape(s)) == InText(open, false)
    decreases |s|
  {
    if s != [] {
      RunThen(InText(open, false), EscapeChar(s[0]), Escape(s[1..]));
      EscapedOn(open, s[0]);
      EscapeOn(open, s[1..]);
    }
  }

  lemma QuotedRuns(s: Scan, open: seq<Kind>, text: string)
    requires Ready(s, open)
    ensures Run(s, Quoted(Escape(text))) == After(open)
  {
    RunThen(s, ['"'] + Escape(text), ['"']);
    RunThen(s, ['"'], Escape(text));
    RunOne(s, '"');
    ReadyBegins(s, open, '"');
    EscapeOn(open, text);
    RunOne(InText(open, false), '"');
  }

  lemma NumberRuns(s: Scan, open: seq<Kind>, text: string)
    requires Ready(s, open) && IsNumberText(text)
    ensures Run(s, text) == After(open)
  {
    WordRuns(s, open, text);
  }

  lemma ScalarRuns(realText: real -> string, v: Value, s: Scan, open: seq<Kind>)
    requires IsScalarValue(v) && WritesNumbers(realText) && Ready(s, open)
    ensures Run(s, ScalarText(realText, v)) == After(open)
  {
    match v
    case Null => WordRuns(s, open, "null");
    case Int(i) => IntTextShape(i); NumberRuns(s, open, IntText(i));
    case UInt(u) => DigitsShape(u); NumberRuns(s, open, Digits(u));
    case Real(r) =>
      assert IsNumberText(realText(r));
      NumberRuns(s, open, realText(r));
    case NullStr => QuotedRuns(s, open, []);
    case Str(t) => QuotedRuns(s, open, t);
    case Bool(b) => WordRuns(s, open, if b then "true" else "false");
  }

  lemma EmptyRuns(s: Scan, open: seq<Kind>, a: char, b: char)
    requires Ready(s, open) && ((a == '[' && b == ']') || (a == '{' && b == '}'))
    ensures Run(s, [a, b]) == After(open)
  {
    ReadyBegins(s, open, a);
    assert [a, b][1..] == [b];
    RunOne(Step(s, a), b);
    assert Pop(open + [Lines]) == open;
  }

  lemma LeafRuns(realText: real -> string, v: Value, s: Scan, open: seq<Kind>)
    requires IsLeaf(v) && WritesNumbers(realText) && Ready(s, open)
    ensures Run(s, LeafText(realText, v)) == After(open)
  {
    match v
    case Array(_) => EmptyRuns(s, open, '[', ']');
    case Object(_) => EmptyRuns(s, open, '{', '}');
    case _ => ScalarRuns(realText, v, s, open);
  }

  // ----- Arrays on one line.

  lemma CommaRuns(open: seq<Kind>)
    requires Top(open) == Some(Inline)
    ensures Ready(Run(After(open), ", "), open)
  {
    assert ", "[1..] == " ";
    RunOne(At(open, AfterComma, false, None), ' ');
  }

  lemma {:induction false} WithCommasRuns(realText: real -> string, xs: seq<Value>, s: Scan, open: seq<Kind>)
    requires AllLeaves(xs) && xs != [] && WritesNumbers(realText) && Ready(s, open) && Top(open) == Some(Inline)
    ensures Run(s, WithCommas(LeafTexts(realText, xs))) == After(open)
    decreases |xs|
  {
    var texts := LeafTexts(realText, xs);
    LeafRuns(realText, xs[0], s, open);
    if |xs| > 1 {
      assert texts[1..] == LeafTexts(realText, xs[1..]);
      var next := Run(After(open), ", ");
      CommaRuns(open);
      WithCommasRuns(realText, xs[1..], next, open);
      RunThen(s, texts[0] + ", ", WithCommas(texts[1..]));
      RunThen(s, texts[0], ", ");
    }
  }

  lemma OneLineRuns(realText: real -> string, xs: seq<Value>, s: Scan, open: seq<Kind>)
    requires AllLeaves(xs) && xs != [] && WritesNumbers(realText) && Ready(s, open)
    ensures Run(s, OneLine(LeafTexts(realText, xs))) == After(open)
  {
    var text := WithCommas(LeafTexts(realText, xs));
    var inside := At(open + [Inline], Bracket, true, None);
    RunThen(s, "[ " + text, " ]");
    RunThen(s, "[ ", text);
    ReadyBegins(s, open, '[');
    assert "[ "[1..] == " ";
    RunOne(At(open + [Lines], Bracket, false, None), ' ');
    assert Pop(open + [Lines]) == open && Pop(open + [Inline]) == open;
    WithCommasRuns(realText, xs, inside, open + [Inline]);
    assert " ]"[1..] == "]";
    RunOne(At(open + [Inline], Word, true, None), ']');
  }

  // ----- Lines.

  lemma {:induction false} SpacesRun(open: seq<Kind>, last: Last, k: nat, n: nat)
    ensures Run(At(open, last, false, Some(k)), Spaces(n)) == At(open, last, false, Some(k + n))
    decreases n
  {
    if n > 0 {
      SpacesRun(open, last, k, n - 1);
      RunThen(At(open, last, false, Some(k)), Spaces(n - 1), [' ']);
      RunOne(At(open, last, false, Some(k + n - 1)), ' ');
    }
  }

  lemma NewLineRuns(open: seq<Kind>, last: Last, depth: nat)
    requires last != AfterColon && Inline !in open
    ensures Run(At(open, last, false, None), NewLine(depth)) == At(open, last, false, Some(3 * depth))
  {
    RunThen(At(open, last, false, None), "\n", Spaces(INDENT_SIZE * depth));
    RunOne(At(open, last, false, None), '\n');
    SpacesRun(open, last, 0, INDENT_SIZE * depth);
  }

  /* The closing bracket on its own line. */
  lemma CloseRuns(open: seq<Kind>, c: char)
    requires Inline !in open && Closes(c)
    ensures Run(After(open + [Lines]), NewLine(|open|) + [c]) == After(open)
  {
    NewLineRuns(open + [Lines], Word, |open|);
    RunThen(After(open + [Lines]), NewLine(|open|), [c]);
    RunOne(At(open + [Lines], Word, false, Some(3 * |open|)), c);
    assert Pop(open + [Lines]) == open;
  }

  /* A value passes wherever one can begin, at the depth of the brackets that are open there. */
  lemma {:induction false} StyledRuns(realText: real -> string, v: Value, s: Scan, open: seq<Kind>)
    requires WritesNumbers(realText) && Ready(s, open) && Inline !in open
    ensures Run(s, Styled(realText, v, |open|)) == After(open)
    decreases v, 1
  {
    var inner := open + [Lines];
    if IsLeaf(v) {
      LeafRuns(realText, v, s, open);
    } else if v.Array? {
      if FitsOnLine(realText, v.elems) {
        OneLineRuns(realText, v.elems, s, open);
      } else {
        var lines := ElemLines(realText, v.elems, |inner|);
        ElemLinesRun(realText, v.elems, Bracket, inner);
        ReadyBegins(s, open, '[');
        BracketsRun(s, open, '[', lines, ']');
      }
    } else {
      var lines := MemberLines(realText, v.members, |inner|);
      MemberLinesRun(realText, v.members, Brace, inner);
      ReadyBegins(s, open, '{');
      BracketsRun(s, open, '{', lines, '}');
    }
  }

  lemma BracketsRun(s: Scan, open: seq<Kind>, a: char, lines: string, b: char)
    requires Inline !in open && Closes(b) && Run(Step(s, a), lines) == After(open + [Lines])
    ensures Run(s, [a] + lines + (NewLine(|open|) + [b])) == After(open)
  {
    RunThen(s, [a] + lines, NewLine(|open|) + [b]);
    RunThen(s, [a], lines);
    RunOne(s, a);
    CloseRuns(open, b);
  }

  lemma {:induction false} ElemLinesRun(realText: real -> string, xs: seq<Value>, last: Last, open: seq<Kind>)
    requires WritesNumbers(realText) && xs != [] && Inline !in open && open != [] && (last == Bracket || last == AfterComma)
    ensures Run(At(open, last, false, None), ElemLines(realText, xs, |open|)) == After(open)
    decreases xs, 0
  {
    var s, d := At(open, last, false, None), |open|;
    var text := Styled(realText, xs[0], d);
    NewLineRuns(open, last, d);
    StyledRuns(realText, xs[0], At(open, last, false, Some(3 * d)), open);
    RunThen(s, NewLine(d), text);
    if |xs| > 1 {
      ElemLinesRun(realText, xs[1..], AfterComma, open);
      NextLine(s, open, NewLine(d) + text, ElemLines(realText, xs[1..], d));
    } else {
      assert (NewLine(d) + text) + [] == NewLine(d) + text;
    }
  }

  lemma NextLine(s: Scan, open: seq<Kind>, line: string, rest: string)
    requires open != [] && Run(s, line) == After(open) && Run(At(open, AfterComma, false, None), rest) == After(open)
    ensures Run(s, line + ("," + rest)) == After(open)
  {
    RunThen(s, line, "," + rest);
    RunThen(After(open), ",", rest);
    RunOne(After(open), ',');
  }

  lemma ColonRuns(open: seq<Kind>)
    requires Top(open) == Some(Lines)
    ensures Run(After(open), " : ") == At(open, AfterColon, true, None)
  {
    assert " : "[1..] == ": " && ": "[1..] == " ";
    RunOne(At(open, AfterColon, false, None), ' ');
  }

  lemma {:induction false} MemberLinesRun(realText: real -> string, ms: seq<Member>, last: Last, open: seq<Kind>)
    requires WritesNumbers(realText) && ms != [] && Inline !in open && Top(open) == Some(Lines) && (last == Brace || last == AfterComma)
    ensures Run(At(open, last, false, None), MemberLines(realText, ms, |open|)) == After(open)
    decreases ms, 0
  {
    var s, d, m := At(open, last, false, None), |open|, ms[0];
    var name, text := Quoted(Escape(m.name)), Styled(realText, m.value, d);
    NewLineRuns(open, last, d);
    QuotedRuns(At(open, last, false, Some(3 * d)), open, m.name);
    ColonRuns(open);
    StyledRuns(realText, m.value, At(open, AfterColon, true, None), open);
    NamedLineRuns(s, open, NewLine(d), name, text);
    var line := NewLine(d) + (NamePart(m.name) + text);
    if |ms| > 1 {
      MemberLinesRun(realText, ms[1..], AfterComma, open);
      NextLine(s, open, line, MemberLines(realText, ms[1..], d));
    } else {
      assert line + [] == line;
    }
  }

  lemma NamedLineRuns(s: Scan, open: seq<Kind>, gap: string, name: string, text: string)
    requires Run(Run(s, gap), name) == After(open) && Run(Run(After(open), " : "), text) == After(open)
    ensures Run(s, gap + ((name + " : ") + text)) == After(open)
  {
    RunThen(s, gap, (name + " : ") + text);
    RunThen(Run(s, gap), name + " : ", text);
    RunThen(Run(s, gap), name, " : ");
  }

  /* Whatever the value, the text has every bracket, name, element and space in its place. */
  lemma StyledIsLaidOut(realText: real -> string, v: Value)
    requires WritesNumbers(realText)
    ensures LaidOut(Styled(realText, v, 0) + "\n")
  {
    var start := At([], Nothing, false, Some(0));
    StyledRuns(realText, v, start, []);
    RunThen(start, Styled(realText, v, 0), "\n");
    RunOne(After([]), '\n');
  }

  // ----- Which arrays are broken.

  lemma {:induction false} EscapeHasNoBreak(s: string)
    ensures '\n' !in Escape(s)
    decreases |s|
  {
    if s != [] {
      EscapeHasNoBreak(s[1..]);
      assert '\n' !in EscapeChar(s[0]);
    }
  }

  lemma NumberHasNoBreak(text: string)
    requires IsNumberText(text)
    ensures '\n' !in text
  {
  }

  lemma LeafHasNoBreak(realText: real -> string, v: Value)
    requires IsLeaf(v) && WritesNumbers(realText)
    ensures '\n' !in LeafText(realText, v)
  {
    match v
    case Int(i) => IntTextShape(i); NumberHasNoBreak(IntText(i));
    case UInt(u) => DigitsShape(u); NumberHasNoBreak(Digits(u));
    case Real(r) =>
      assert IsNumberText(realText(r));
      NumberHasNoBreak(realText(r));
    case Str(s) => EscapeHasNoBreak(s);
    case _ =>
  }

  lemma {:induction false} WithCommasHasNoBreak(texts: seq<string>)
    requires forall i :: 0 <= i < |texts| ==> '\n' !in texts[i]
    ensures '\n' !in WithCommas(texts)
    decreases |texts|
  {
    if |texts| > 1 { WithCommasHasNoBreak(texts[1..]); }
  }

  lemma OneLineHasNoBreak(realText: real -> string, xs: seq<Value>)
    requires AllLeaves(xs) && WritesNumbers(realText)
    ensures '\n' !in OneLine(LeafTexts(realText, xs))
  {
    forall i | 0 <= i < |xs| ensures '\n' !in LeafTexts(realText, xs)[i] { LeafHasNoBreak(realText, xs[i]); }
    WithCommasHasNoBreak(LeafTexts(realText, xs));
  }

  /* An array has lines of its own exactly if it has 25 elements or more, or an element with content, or would take
     74 characters or more with its brackets, commas and spaces. */
  lemma BreaksExactly(realText: real -> string, xs: seq<Value>, depth: nat)
    requires xs != [] && WritesNumbers(realText)
    ensures '\n' in Styled(realText, Array(xs), depth) <==>
            |xs| >= 25 || !AllLeaves(xs) || 4 + 2 * (|xs| - 1) + TotalLength(LeafTexts(realText, xs)) >= 74
  {
    if AllLeaves(xs) {
      LineLength(LeafTexts(realText, xs));
      OneLineHasNoBreak(realText, xs);
    }
    if !(FitsOnLine(realText, xs) && AllLeaves(xs)) {
      var lines := NewLine(depth) + "]";
      assert lines[0] == '\n' && lines[0] in lines;
    }
  }
}
