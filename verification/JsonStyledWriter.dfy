/**
 StyledWriter: the human-readable layout, written piece by piece through the childValues buffer
 that all arrays share. Each method appends exactly its part of the text that `Styled` gives.
 */
module JsonStyledWriter {
  import opened JsonValue
  import opened JsonLexer
  import opened JsonNumber
  import opened JsonString
  import opened JsonTokens
  import opened JsonWriter
  import opened JsonStyledText
  import Y = JsonLayout

  // ----- The ends of texts.

  /* What writeIndent adds to a document. */
  function Gap(document: string, indent: string): string {
    if document == [] then indent
    else
      var last := document[|document| - 1];
      if last == ' ' then [] else (if last == '\n' then [] else "\n") + indent
  }

  /* What writeWithIndent makes of it. */
  function Indented(document: string, indent: string, text: string): string {
    (document + Gap(document, indent)) + text
  }

  /* The text ends in something other than white space. */
  predicate EndsVisible(text: string) {
    text != [] && text[|text| - 1] != ' ' && text[|text| - 1] != '\n'
  }

  lemma EndsAfter(a: string, b: string)
    requires EndsVisible(b)
    ensures EndsVisible(a + b)
  {
    assert (a + b)[|a + b| - 1] == b[|b| - 1];
  }

  lemma NumberEndsVisible(text: string)
    requires IsNumberText(text)
    ensures EndsVisible(text)
  {
    assert text[|text| - 1] in text;
  }

  lemma ScalarEnds(realText: real -> string, v: Value)
    requires IsScalarValue(v) && WritesNumbers(realText)
    ensures EndsVisible(ScalarText(realText, v))
  {
    match v
    case Int(i) => IntTextShape(i); NumberEndsVisible(IntText(i));
    case UInt(u) => DigitsShape(u); NumberEndsVisible(Digits(u));
    case Real(r) =>
      assert IsNumberText(realText(r));
      NumberEndsVisible(realText(r));
    case NullStr => EndsAfter(['"'] + [], ['"']);
    case Str(s) => EndsAfter(['"'] + Escape(s), ['"']);
    case _ =>
  }

  lemma StyledEnds(realText: real -> string, v: Value, depth: nat)
    requires WritesNumbers(realText)
    ensures EndsVisible(Styled(realText, v, depth))
  {
    if IsLeaf(v) {
      if IsScalarValue(v) { ScalarEnds(realText, v); }
    } else if v.Array? {
      EndsAfter("[" + ElemLines(realText, v.elems, depth + 1) + NewLine(depth), "]");
      Onward("[" + ElemLines(realText, v.elems, depth + 1), NewLine(depth), "]");
    } else {
      EndsAfter("{" + MemberLines(realText, v.members, depth + 1) + NewLine(depth), "}");
      Onward("{" + MemberLines(realText, v.members, depth + 1), NewLine(depth), "}");
    }
  }

  /* A new line with an indentation ends in a space. */
  lemma NewLineEnds(before: string, depth: nat)
    requires depth > 0
    ensures var text := before + NewLine(depth); text != [] && text[|text| - 1] == ' '
  {
    var text := before + NewLine(depth);
    assert text[|text| - 1] == Spaces(INDENT_SIZE * depth)[INDENT_SIZE * depth - 1];
  }

  lemma SpacesAdd(n: nat)
    ensures Spaces(n + INDENT_SIZE) == Spaces(n) + seq(INDENT_SIZE, i => ' ')
    ensures Spaces(n + INDENT_SIZE)[..n] == Spaces(n)
  {
    assert Spaces(n + 1) == Spaces(n) + [' '] && Spaces(n + 2) == Spaces(n + 1) + [' '];
    assert Spaces(n + 3) == Spaces(n + 2) + [' '];
    assert seq(INDENT_SIZE, i => ' ') == [' ', ' ', ' '];
  }

  /* Where a value is placed, an opening bracket follows at once. */
  lemma NoGap(before: string, depth: nat, text: string)
    requires if before == [] then depth == 0 else before[|before| - 1] == ' '
    requires |text| == 1 && text[0] != ' ' && text[0] != '\n'
    ensures Indented(before, Spaces(INDENT_SIZE * depth), text) == before + text
    ensures EndsVisible(before + text)
  {
    EndsAfter(before, text);
  }

  function ObjectText(realText: real -> string, ms: seq<Member>, depth: nat): string {
    "{" + MemberLines(realText, ms, depth + 1) + (NewLine(depth) + "}")
  }

  /* The closing brace after the members. */
  lemma ObjectDone(realText: real -> string, ms: seq<Member>, depth: nat, before: string, start: string, now: string)
    requires start == before + "{" && EndsVisible(now) && now == start + MemberLines(realText, ms, depth + 1)
    ensures Indented(now, Spaces(INDENT_SIZE * depth), "}") == before + ObjectText(realText, ms, depth)
  {
    InBrackets(before, "{", MemberLines(realText, ms, depth + 1), NewLine(depth), "}");
  }

  lemma ArrayDone(realText: real -> string, xs: seq<Value>, depth: nat, before: string, start: string, now: string)
    requires xs != [] && !FitsOnLine(realText, xs) && start == before + "["
    requires EndsVisible(now) && now == start + ElemLines(realText, xs, depth + 1)
    ensures Indented(now, Spaces(INDENT_SIZE * depth), "]") == before + Styled(realText, Array(xs), depth)
  {
    InBrackets(before, "[", ElemLines(realText, xs, depth + 1), NewLine(depth), "]");
  }

  // ----- The pieces of a list.

  lemma MemberLinesStep(realText: real -> string, ms: seq<Member>, i: nat, depth: nat)
    requires i < |ms|
    ensures MemberLines(realText, ms[i..], depth) ==
            NewLine(depth) + (NamePart(ms[i].name) + Styled(realText, ms[i].value, depth))
            + (if i + 1 == |ms| then [] else "," + MemberLines(realText, ms[i + 1..], depth))
  {
    assert ms[i..][0] == ms[i] && ms[i..][1..] == ms[i + 1..];
  }

  lemma ElemLinesStep(realText: real -> string, xs: seq<Value>, i: nat, depth: nat)
    requires i < |xs|
    ensures ElemLines(realText, xs[i..], depth) ==
            NewLine(depth) + Styled(realText, xs[i], depth)
            + (if i + 1 == |xs| then [] else "," + ElemLines(realText, xs[i + 1..], depth))
  {
    assert xs[i..][0] == xs[i] && xs[i..][1..] == xs[i + 1..];
  }

  /* A piece written, and the comma after it. */
  lemma OnePiece(before: string, piece: string, rest: string)
    ensures before + (piece + ("," + rest)) == ((before + piece) + ",") + rest
    ensures before + (piece + []) == before + piece
  {
  }

  lemma NamedPiece(before: string, gap: string, name: string, text: string)
    ensures (((before + gap) + name) + " : ") + text == before + (gap + ((name + " : ") + text))
  {
  }

  lemma InBrackets(before: string, open: string, lines: string, gap: string, close: string)
    ensures (((before + open) + lines) + gap) + close == before + (open + lines + (gap + close))
  {
  }

  /* What is left of a line after i of its texts. */
  function CommasLeft(texts: seq<string>, i: nat): string
    requires i <= |texts|
  {
    (if 0 < i < |texts| then ", " else []) + WithCommas(texts[i..])
  }

  lemma CommasLeftStep(before: string, texts: seq<string>, i: nat)
    requires i < |texts|
    ensures before + CommasLeft(texts, i) ==
            ((if i > 0 then before + ", " else before) + texts[i]) + CommasLeft(texts, i + 1)
  {
    assert texts[i..][0] == texts[i] && texts[i..][1..] == texts[i + 1..];
    var comma := if i > 0 then ", " else [];
    assert before + comma == if i > 0 then before + ", " else before;
    if i + 1 == |texts| {
      assert CommasLeft(texts, i) == comma + texts[i] && CommasLeft(texts, i + 1) == [];
    } else {
      assert CommasLeft(texts, i) == comma + (texts[i] + ", " + WithCommas(texts[i + 1..]));
      assert before + (comma + (texts[i] + ", " + WithCommas(texts[i + 1..])))
          == (before + comma + texts[i]) + (", " + WithCommas(texts[i + 1..]));
    }
  }

  lemma {:induction false} TotalLengthSnoc(texts: seq<string>, text: string)
    ensures TotalLength(texts + [text]) == TotalLength(texts) + |text|
  {
    if texts != [] {
      assert (texts + [text])[1..] == texts[1..] + [text];
      TotalLengthSnoc(texts[1..], text);
    }
  }

  lemma AreLeafTexts(realText: real -> string, texts: seq<string>, xs: seq<Value>)
    requires AllLeaves(xs) && |texts| == |xs| && forall i :: 0 <= i < |xs| ==> texts[i] == LeafText(realText, xs[i])
    ensures texts == LeafTexts(realText, xs)
  {
  }

  class StyledWriter {
    var document: string
    var indentString: string
    var childValues: seq<string>
    var addChildValues: bool
    const realText: real -> string
    ghost var depth: nat

    ghost predicate Valid()
      reads this
    {
      indentString == Spaces(INDENT_SIZE * depth) && WritesNumbers(realText)
    }

    /* At the very start, or after a space: nothing is added before a bracket. */
    ghost predicate Placed()
      reads this
    {
      if document == [] then depth == 0 else document[|document| - 1] == ' '
    }

    constructor (realText: real -> string)
      requires WritesNumbers(realText)
      ensures Valid() && this.realText == realText
    {
      document, indentString, childValues, addChildValues, depth := [], [], [], false, 0;
      this.realText := realText;
    }

    method PushValue(text: string)
      modifies this`childValues, this`document
      ensures if addChildValues then document == old(document) && childValues == old(childValues) + [text]
              else document == old(document) + text && childValues == old(childValues)
    {
      if addChildValues {
        childValues := childValues + [text];
      } else {
        document := document + text;
      }
    }

    /* A new line and the indentation, unless they are already there. */
    method WriteIndent()
      modifies this`document
      ensures document == old(document) + Gap(old(document), indentString)
    {
      if document != [] {
        var last := document[|document| - 1];
        if last == ' ' {
          return;
        }
        if last != '\n' {
          document := document + "\n";
        }
      }
      document := document + indentString;
    }

    method WriteWithIndent(text: string)
      modifies this`document
      ensures document == Indented(old(document), indentString, text)
    {
      WriteIndent();
      document := document + text;
    }

    method Indent()
      requires Valid()
      modifies this`indentString, this`depth
      ensures Valid() && depth == old(depth) + 1
    {
      indentString := indentString + seq(INDENT_SIZE, i => ' ');
      SpacesAdd(INDENT_SIZE * depth);
      depth := depth + 1;
    }

    method Unindent()
      requires Valid() && depth > 0
      modifies this`indentString, this`depth
      ensures Valid() && depth == old(depth) - 1
    {
      indentString := indentString[..|indentString| - INDENT_SIZE];
      depth := depth - 1;
      SpacesAdd(INDENT_SIZE * depth);
    }

    method WriteValue(v: Value)
      requires Valid() && Printable(v) && if addChildValues then IsLeaf(v) else Placed()
      modifies this
      ensures Valid() && depth == old(depth) && addChildValues == old(addChildValues)
      ensures if addChildValues then IsLeaf(v) && document == old(document) && childValues == old(childValues) + [LeafText(realText, v)]
              else document == old(document) + Styled(realText, v, depth)
      decreases v, 3
    {
      if v.Array? {
        WriteArrayValue(v.elems);
      } else if v.Object? && v.members == [] {
        PushValue("{}");
      } else if v.Object? {
        WriteObjectValue(v.members);
      } else {
        var text := WriteScalar(realText, v);
        PushValue(text);
      }
    }

    method WriteObjectValue(ms: seq<Member>)
      requires Valid() && !addChildValues && Placed() && ms != [] && forall m :: m in ms ==> Printable(m.value)
      modifies this
      ensures Valid() && depth == old(depth) && !addChildValues
      ensures document == old(document) + ObjectText(realText, ms, depth)
      decreases ms, 2
    {
      ghost var before := document;
      NoGap(before, depth, "{");
      WriteWithIndent("{");
      ghost var start := document;
      assert start == before + "{" && EndsVisible(start);
      Indent();
      WriteMemberLines(ms);
      ghost var now := document;
      Unindent();
      ObjectDone(realText, ms, depth, before, start, now);
      WriteWithIndent("}");
    }

    /* The members, one to a line. */
    method WriteMemberLines(ms: seq<Member>)
      requires Valid() && !addChildValues && ms != [] && EndsVisible(document) && forall m :: m in ms ==> Printable(m.value)
      requires depth > 0
      modifies this
      ensures Valid() && depth == old(depth) && !addChildValues
      ensures document == old(document) + MemberLines(realText, ms, depth) && EndsVisible(document)
      decreases ms, 1
    {
      var index := 0;
      assert ms[0..] == ms;
      while true
        invariant 0 <= index < |ms|
        invariant Valid() && depth == old(depth) && !addChildValues && EndsVisible(document)
        invariant document + MemberLines(realText, ms[index..], depth) == old(document) + MemberLines(realText, ms, depth)
        decreases |ms| - index
      {
        ghost var before := document;
        MemberLinesStep(realText, ms, index, depth);
        WriteMemberValue(ms[index]);
        OnePiece(before, NewLine(depth) + (NamePart(ms[index].name) + Styled(realText, ms[index].value, depth)),
                 MemberLines(realText, ms[index + 1..], depth));
        index := index + 1;
        if index == |ms| {
          break;
        }
        document := document + ",";
      }
    }

    method WriteMemberValue(m: Member)
      requires Valid() && !addChildValues && EndsVisible(document) && Printable(m.value)
      modifies this
      ensures Valid() && depth == old(depth) && !addChildValues && EndsVisible(document)
      ensures document == old(document) + (NewLine(depth) + (NamePart(m.name) + Styled(realText, m.value, depth)))
      decreases m, 4
    {
      var name := ValueToQuotedString(m.name);
      WriteWithIndent(name);
      document := document + " : ";
      ghost var text := document;
      WriteValue(m.value);
      StyledEnds(realText, m.value, depth);
      EndsAfter(text, Styled(realText, m.value, depth));
      NamedPiece(old(document), NewLine(depth), name, Styled(realText, m.value, depth));
    }

    method WriteArrayValue(xs: seq<Value>)
      requires Valid() && (if addChildValues then xs == [] else Placed()) && forall x :: x in xs ==> Printable(x)
      modifies this
      ensures Valid() && depth == old(depth) && addChildValues == old(addChildValues)
      ensures if addChildValues then document == old(document) && childValues == old(childValues) + ["[]"]
              else document == old(document) + Styled(realText, Array(xs), depth)
      decreases xs, 3
    {
      if |xs| == 0 {
        PushValue("[]");
      } else {
        var multiLine := IsMultilineArray(xs);
        if multiLine {
          WriteMultiLine(xs);
        } else {
          WriteSingleLine(xs);
        }
      }
    }

    /* Fills childValues with the texts of the elements, unless the array is long or nested. */
    method IsMultilineArray(xs: seq<Value>) returns (multiLine: bool)
      requires Valid() && !addChildValues && xs != [] && forall x :: x in xs ==> Printable(x)
      modifies this
      ensures Valid() && depth == old(depth) && !addChildValues && document == old(document)
      ensures multiLine <==> !(FitsOnLine(realText, xs) && AllLeaves(xs))
      ensures childValues == [] || (AllLeaves(xs) && childValues == LeafTexts(realText, xs))
      ensures !multiLine ==> childValues != []
      decreases xs, 1
    {
      var size := |xs|;
      multiLine := size * 3 >= RIGHT_MARGIN;
      childValues := [];
      var index := 0;
      while index < size && !multiLine
        invariant 0 <= index <= size
        invariant !multiLine ==> forall i :: 0 <= i < index ==> IsLeaf(xs[i])
        invariant multiLine ==> size * 3 >= RIGHT_MARGIN || !AllLeaves(xs)
        invariant size * 3 >= RIGHT_MARGIN ==> multiLine
      {
        multiLine := !IsLeaf(xs[index]);
        index := index + 1;
      }
      if !multiLine {
        addChildValues := true;
        var lineLength := BufferChildren(xs);
        addChildValues := false;
        multiLine := lineLength >= RIGHT_MARGIN;
      }
    }

    method BufferChildren(xs: seq<Value>) returns (lineLength: int)
      requires Valid() && addChildValues && childValues == [] && xs != [] && AllLeaves(xs)
      requires forall i :: 0 <= i < |xs| ==> Printable(xs[i])
      modifies this
      ensures Valid() && depth == old(depth) && addChildValues && document == old(document)
      ensures childValues == LeafTexts(realText, xs) && lineLength == |OneLine(childValues)|
      decreases xs, 0
    {
      lineLength := 4 + (|xs| - 1) * 2;
      var index := 0;
      while index < |xs|
        invariant 0 <= index <= |xs| && |childValues| == index
        invariant Valid() && depth == old(depth) && addChildValues && document == old(document)
        invariant forall i :: 0 <= i < index ==> childValues[i] == LeafText(realText, xs[i])
        invariant lineLength == 4 + (|xs| - 1) * 2 + TotalLength(childValues)
      {
        ghost var before := childValues;
        WriteValue(xs[index]);
        TotalLengthSnoc(before, LeafText(realText, xs[index]));
        lineLength := lineLength + |childValues[index]|;
        index := index + 1;
      }
      AreLeafTexts(realText, childValues, xs);
      LineLength(childValues);
    }

    method WriteMultiLine(xs: seq<Value>)
      requires Valid() && !addChildValues && Placed() && xs != [] && forall x :: x in xs ==> Printable(x)
      requires !IsLeaf(Array(xs)) && !FitsOnLine(realText, xs)
      requires childValues == [] || (AllLeaves(xs) && childValues == LeafTexts(realText, xs))
      modifies this
      ensures Valid() && depth == old(depth) && !addChildValues
      ensures document == old(document) + Styled(realText, Array(xs), depth)
      decreases xs, 2
    {
      ghost var before := document;
      NoGap(before, depth, "[");
      WriteWithIndent("[");
      ghost var start := document;
      assert start == before + "[" && EndsVisible(start);
      Indent();
      WriteElemLines(xs);
      ghost var now := document;
      Unindent();
      ArrayDone(realText, xs, depth, before, start, now);
      WriteWithIndent("]");
    }

    method WriteElemLines(xs: seq<Value>)
      requires Valid() && !addChildValues && xs != [] && EndsVisible(document) && forall x :: x in xs ==> Printable(x)
      requires childValues == [] || (AllLeaves(xs) && childValues == LeafTexts(realText, xs))
      requires depth > 0
      modifies this
      ensures Valid() && depth == old(depth) && !addChildValues
      ensures document == old(document) + ElemLines(realText, xs, depth) && EndsVisible(document)
      decreases xs, 1
    {
      var hasChildValue := childValues != [];
      var index := 0;
      assert xs[0..] == xs;
      while true
        invariant 0 <= index < |xs|
        invariant Valid() && depth == old(depth) && !addChildValues && EndsVisible(document)
        invariant hasChildValue ==> AllLeaves(xs) && childValues == LeafTexts(realText, xs)
        invariant document + ElemLines(realText, xs[index..], depth) == old(document) + ElemLines(realText, xs, depth)
        decreases |xs| - index
      {
        ghost var before := document;
        ElemLinesStep(realText, xs, index, depth);
        WriteLine(xs, index, hasChildValue);
        OnePiece(before, NewLine(depth) + Styled(realText, xs[index], depth), ElemLines(realText, xs[index + 1..], depth));
        index := index + 1;
        if index == |xs| {
          break;
        }
        document := document + ",";
      }
    }

    /* One element on its own line: from the buffer, or written now. */
    method WriteLine(xs: seq<Value>, index: nat, hasChildValue: bool)
      requires Valid() && !addChildValues && EndsVisible(document) && index < |xs| && Printable(xs[index])
      requires hasChildValue ==> AllLeaves(xs) && childValues == LeafTexts(realText, xs)
      requires depth > 0
      modifies this
      ensures Valid() && depth == old(depth) && !addChildValues && EndsVisible(document)
      ensures hasChildValue ==> childValues == old(childValues)
      ensures document == old(document) + (NewLine(depth) + Styled(realText, xs[index], depth))
      decreases xs, 0
    {
      ghost var text := Styled(realText, xs[index], depth);
      if hasChildValue {
        WriteWithIndent(childValues[index]);
      } else {
        WriteIndent();
        NewLineEnds(old(document), depth);
        WriteValue(xs[index]);
      }
      StyledEnds(realText, xs[index], depth);
      EndsAfter(old(document) + NewLine(depth), text);
      Onward(old(document), NewLine(depth), text);
    }

    method WriteSingleLine(xs: seq<Value>)
      requires !IsLeaf(Array(xs)) && FitsOnLine(realText, xs) && childValues == LeafTexts(realText, xs)
      modifies this`document
      ensures document == old(document) + Styled(realText, Array(xs), depth)
    {
      document := document + "[ ";
      WriteChildValues();
      document := document + " ]";
      Between(old(document), "[ ", WithCommas(childValues), " ]");
    }

    method WriteChildValues()
      modifies this`document
      ensures document == old(document) + WithCommas(childValues)
    {
      var index := 0;
      assert childValues[0..] == childValues;
      while index < |childValues|
        invariant 0 <= index <= |childValues|
        invariant document + CommasLeft(childValues, index) == old(document) + WithCommas(childValues)
      {
        CommasLeftStep(document, childValues, index);
        if index > 0 {
          document := document + ", ";
        }
        document := document + childValues[index];
        index := index + 1;
      }
    }

    method Write(root: Value) returns (text: string)
      requires Valid() && Printable(root)
      modifies this
      ensures Valid()
      ensures text == Styled(realText, root, 0) + "\n"
      ensures Lex(text) == Tokens(realText, root) && Y.LaidOut(text)
    {
      document, addChildValues, indentString, depth := "", false, "", 0;
      WriteValue(root);
      document := document + "\n";
      text := document;
      StyledDocumentLexes(realText, root);
      Y.StyledIsLaidOut(realText, root);
    }
  }
}
