/** Completeness of json11's parser: a value of the grammar is read to its end and to the value it
    denotes when it fits the depth limit, and is refused when it does not. */
module JsonCompleteness {
  import opened ByteText
  import opened JsonValue
  import opened JsonGrammar
  import opened JsonReader
  import opened JsonGapProofs
  import opened JsonStringProofs
  import opened JsonNumberProofs

  /** The byte that announces a tree. */
  predicate Starts(t: Tree, c: Byte) {
    match t
    case NullTree => c == LOWER_N
    case TrueTree => c == LOWER_T
    case FalseTree => c == LOWER_F
    case NumberTree(n) => c == MINUS || IsDigit(c)
    case StringTree(_) => c == QUOTE
    case EmptyArray(_) => c == LEFT_BRACKET
    case ArrayTree(_) => c == LEFT_BRACKET
    case EmptyObject(_) => c == LEFT_BRACE
    case ObjectTree(_) => c == LEFT_BRACE
  }

  lemma {:induction false} TreeStart(st: Strategy, t: Tree)
    requires ValidTree(st, t)
    ensures |TreeText(t)| > 0 && Starts(t, TreeText(t)[0])
  {
    if t.NumberTree? {
      var n := t.number;
      assert IntegerText(n)[0] == if n.negative then MINUS else n.whole[0];
      assert NumberText(n)[0] == IntegerText(n)[0];
    }
  }

  /** A gap does not prolong a number. */
  lemma {:induction false} GapBoundary(st: Strategy, s: Bytes, i: int, j: int, gap: Gap)
    requires ValidGap(st, gap) && Span(s, i, j, GapText(gap)) && !Continues(At(s, j))
    ensures !Continues(At(s, i))
  {
    if |gap| > 0 {
      var g := GapItemText(gap[0]);
      assert ValidGapItem(st, gap[0]);
      SpanSplit(s, i, j, g, GapText(gap[1..]));
      assert s[i] == g[0];
    }
  }

  lemma {:induction false} TokenOfTree(st: Strategy, s: Bytes, i: nat, k: nat, j: nat, gap: Gap, t: Tree)
    requires ValidGap(st, gap) && ValidTree(st, t)
    requires Span(s, i, k, GapText(gap)) && Span(s, k, j, TreeText(t))
    ensures k < |s| && NextToken(st, s, i) == Done(s[k], k + 1) && Starts(t, s[k])
  {
    TreeStart(st, t);
    assert s[k] == TreeText(t)[0];
    NextTokenComplete(st, s, i, k, gap);
  }

  /** What ReadValue must answer for t. */
  predicate Answers(r: Step<Json>, t: Tree, depth: nat, j: nat) {
    if Fits(t, depth) then r == Done(TreeValue(t), j) else r.Fail?
  }

  lemma {:induction false} ReadScalarComplete(st: Strategy, s: Bytes, k: nat, j: nat, t: Tree, depth: nat)
    requires ValidTree(st, t) && !t.ArrayTree? && !t.ObjectTree?
    requires Span(s, k, j, TreeText(t)) && !Continues(At(s, j)) && k < |s| && Starts(t, s[k])
    ensures ReadFrom(st, s, k, depth) == Done(TreeValue(t), j)
  {
    hide NextToken, ReadNumber, ReadString, ReadObject, ReadArray;
    match t
    case NullTree =>
    case TrueTree =>
    case FalseTree =>
    case NumberTree(n) =>
      ReadNumberComplete(s, k, j, n);
    case StringTree(cs) =>
      SpanByte(s, k, j, QUOTE, CharsText(cs) + [QUOTE]);
      StringTextRead(s, k + 1, j, cs);
    case EmptyArray(inside) =>
      SpanByte(s, k, j, LEFT_BRACKET, GapText(inside) + [RIGHT_BRACKET]);
      CloseComplete(st, s, k + 1, j, inside, RIGHT_BRACKET);
      NothingInside(st, s, k + 1, j, depth);
    case EmptyObject(inside) =>
      SpanByte(s, k, j, LEFT_BRACE, GapText(inside) + [RIGHT_BRACE]);
      CloseComplete(st, s, k + 1, j, inside, RIGHT_BRACE);
      NothingInside(st, s, k + 1, j, depth);
  }

  lemma {:induction false} NothingInside(st: Strategy, s: Bytes, i: nat, j: nat, depth: nat)
    requires i <= |s|
    ensures NextToken(st, s, i) == Done(RIGHT_BRACKET, j) ==> ReadArray(st, s, i, depth) == Done([], j)
    ensures NextToken(st, s, i) == Done(RIGHT_BRACE, j) ==> ReadObject(st, s, i, depth) == Done([], j)
    ensures Collect([]) == []
  {
    hide NextToken;
  }

  lemma {:induction false} ReadFromComplete(st: Strategy, s: Bytes, k: nat, j: nat, t: Tree, depth: nat)
    requires ValidTree(st, t) && depth <= MAX_DEPTH
    requires Span(s, k, j, TreeText(t)) && !Continues(At(s, j)) && k < |s| && Starts(t, s[k])
    ensures Answers(ReadFrom(st, s, k, depth), t, depth, j)
    decreases t, 0
  {
    hide NextToken, GapText, ValidGap;
    if t.ArrayTree? {
      SpanByte(s, k, j, LEFT_BRACKET, ElementsText(t.elements) + [RIGHT_BRACKET]);
      ReadArrayComplete(st, s, k + 1, j, t.elements, depth);
    } else if t.ObjectTree? {
      SpanByte(s, k, j, LEFT_BRACE, FieldsText(t.fields) + [RIGHT_BRACE]);
      ReadObjectComplete(st, s, k + 1, j, t.fields, depth);
    } else {
      ReadScalarComplete(st, s, k, j, t, depth);
    }
  }

  lemma {:induction false} TooDeep(t: Tree, depth: nat)
    requires depth > MAX_DEPTH
    ensures !Fits(t, depth)
  {
  }

  lemma {:induction false} ReadValueComplete(
    st: Strategy, s: Bytes, i: nat, j: nat, gap: Gap, t: Tree, depth: nat)
    requires ValidGap(st, gap) && ValidTree(st, t)
    requires Span(s, i, j, GapText(gap) + TreeText(t)) && !Continues(At(s, j))
    ensures Answers(ReadValue(st, s, i, depth), t, depth, j)
    decreases t, 1
  {
    hide NextToken, ReadFrom, TreeText, TreeValue, Fits, GapText, ValidGap, ValidTree, Continues, Starts;
    if depth > MAX_DEPTH {
      TooDeep(t, depth);
    } else {
      SpanSplit(s, i, j, GapText(gap), TreeText(t));
      var k := i + |GapText(gap)|;
      TokenOfTree(st, s, i, k, j, gap, t);
      ReadFromComplete(st, s, k, j, t, depth);
    }
  }

  lemma {:induction false} CloseComplete(st: Strategy, s: Bytes, i: nat, j: nat, gap: Gap, close: Byte)
    requires ValidGap(st, gap) && Span(s, i, j, GapText(gap) + [close])
    requires close == RIGHT_BRACKET || close == RIGHT_BRACE || close == COMMA || close == COLON || close == QUOTE
    ensures NextToken(st, s, i) == Done(close, j)
  {
    hide NextToken, GapText, ValidGap;
    SpanSplit(s, i, j, GapText(gap), [close]);
    assert s[j - 1] == s[j - 1..j][0];
    assert Settled(st, s, j - 1);
    NextTokenComplete(st, s, i, j - 1, gap);
  }

  // Arrays

  /** What follows the first element of es up to and including the closing bracket. */
  function ElementsRest(es: seq<Element>): Bytes
    requires |es| > 0
  {
    if |es| == 1 then [RIGHT_BRACKET] else [COMMA] + (ElementsText(es[1..]) + [RIGHT_BRACKET])
  }

  lemma {:induction false} ElementsShape(es: seq<Element>)
    requires |es| > 0
    ensures ElementsText(es) + [RIGHT_BRACKET]
         == GapText(es[0].before) + (TreeText(es[0].tree) + (GapText(es[0].after) + ElementsRest(es)))
  {
    var e := es[0];
    var more := if |es| == 1 then [] else [COMMA] + ElementsText(es[1..]);
    assert more + [RIGHT_BRACKET] == ElementsRest(es);
    Regroup(ElementText(e), more, [RIGHT_BRACKET]);
    Regroup(GapText(e.before), TreeText(e.tree) + GapText(e.after), ElementsRest(es));
    Regroup(TreeText(e.tree), GapText(e.after), ElementsRest(es));
  }

  lemma {:induction false} ReadArrayComplete(
    st: Strategy, s: Bytes, i: nat, j: nat, es: seq<Element>, depth: nat)
    requires |es| > 0 && ValidElements(st, es) && Span(s, i, j, ElementsText(es) + [RIGHT_BRACKET])
    ensures if ElementsFit(es, depth + 1) then ReadArray(st, s, i, depth) == Done(ElementValues(es), j)
            else ReadArray(st, s, i, depth).Fail?
    decreases es, 1
  {
    var k := FirstElement(st, s, i, j, es);
    OpenArray(st, s, i, k, depth);
    ReadItemsComplete(st, s, k, j, es, depth);
  }

  /** The gap before the first element is skipped. */
  lemma {:induction false} FirstElement(st: Strategy, s: Bytes, i: nat, j: nat, es: seq<Element>) returns (k: nat)
    requires |es| > 0 && ValidElements(st, es) && Span(s, i, j, ElementsText(es) + [RIGHT_BRACKET])
    ensures k < |s| && NextToken(st, s, i) == Done(s[k], k + 1) && s[k] != RIGHT_BRACKET
    ensures Span(s, k, j, TreeText(es[0].tree) + (GapText(es[0].after) + ElementsRest(es)))
  {
    hide NextToken, TreeText, GapText, ElementText, ElementsText, ElementsRest, Starts, ValidTree;
    var e := es[0];
    var rest := GapText(e.after) + ElementsRest(es);
    ElementsShape(es);
    SpanSplit(s, i, j, GapText(e.before), TreeText(e.tree) + rest);
    k := i + |GapText(e.before)|;
    SpanSplit(s, k, j, TreeText(e.tree), rest);
    TokenOfTree(st, s, i, k, k + |TreeText(e.tree)|, e.before, e.tree);
    StartIsNoBracket(e.tree, s[k]);
  }

  lemma {:induction false} StartIsNoBracket(t: Tree, c: Byte)
    requires Starts(t, c)
    ensures c != RIGHT_BRACKET
  {
  }

  lemma {:induction false} OpenArray(st: Strategy, s: Bytes, i: nat, k: nat, depth: nat)
    requires i <= |s| && k < |s| && NextToken(st, s, i) == Done(s[k], k + 1) && s[k] != RIGHT_BRACKET
    ensures ReadArray(st, s, i, depth) == ReadItems(st, s, k, depth)
  {
    hide NextToken, ReadItems;
  }

  lemma {:induction false} ItemsEnd(st: Strategy, s: Bytes, i: nat, a: nat, b: nat, v: Json, depth: nat)
    requires i <= |s| && a <= b < |s| && s[b] == RIGHT_BRACKET
    requires ReadValue(st, s, i, depth + 1) == Done(v, a) && NextToken(st, s, a) == Done(s[b], b + 1)
    ensures ReadItems(st, s, i, depth) == Done([v], b + 1)
  {
    hide NextToken, ReadValue;
  }

  lemma {:induction false} ItemsGoOn(st: Strategy, s: Bytes, i: nat, a: nat, b: nat, k: nat, v: Json, depth: nat)
    requires i <= |s| && a <= b < |s| && s[b] == COMMA && k < |s|
    requires ReadValue(st, s, i, depth + 1) == Done(v, a) && NextToken(st, s, a) == Done(s[b], b + 1)
    requires NextToken(st, s, b + 1) == Done(s[k], k + 1)
    ensures ReadItems(st, s, i, depth) == Prepend([v], ReadItems(st, s, k, depth))
  {
    hide NextToken, ReadValue;
  }

  lemma {:induction false} ItemsRefused(st: Strategy, s: Bytes, i: nat, depth: nat)
    requires i <= |s| && ReadValue(st, s, i, depth + 1).Fail?
    ensures ReadItems(st, s, i, depth).Fail?
  {
    hide NextToken, ReadValue;
  }

  lemma {:induction false} Punctuation(c: Byte)
    requires c == COMMA || c == RIGHT_BRACKET || c == RIGHT_BRACE
    ensures !Continues(c)
  {
  }

  /** Where the first element ends (a) and where the gap after it ends (b). */
  lemma {:induction false} ItemsLayout(st: Strategy, s: Bytes, i: nat, j: nat, es: seq<Element>)
    returns (a: nat, b: nat)
    requires |es| > 0 && ValidElements(st, es)
    requires Span(s, i, j, TreeText(es[0].tree) + (GapText(es[0].after) + ElementsRest(es)))
    ensures Span(s, i, a, GapText([]) + TreeText(es[0].tree)) && !Continues(At(s, a))
    ensures i <= a <= b < |s| && NextToken(st, s, a) == Done(s[b], b + 1) && Span(s, b, j, ElementsRest(es))
    ensures s[b] == if |es| == 1 then RIGHT_BRACKET else COMMA
  {
    hide NextToken, TreeText, ValidTree, ElementsText, GapText, Continues, IsDigit, Span;
    var e, rest := es[0], ElementsRest(es);
    NoGapText();
    SpanSplit(s, i, j, TreeText(e.tree), GapText(e.after) + rest);
    a := i + |TreeText(e.tree)|;
    SpanSplit(s, a, j, GapText(e.after), rest);
    b := a + |GapText(e.after)|;
    FirstByte(s, b, j, rest);
    Punctuation(rest[0]);
    GapBoundary(st, s, a, b, e.after);
    NextTokenComplete(st, s, a, b, e.after);
    assert GapText([]) + TreeText(e.tree) == TreeText(e.tree);
  }

  lemma {:induction false} ReadItemsComplete(
    st: Strategy, s: Bytes, i: nat, j: nat, es: seq<Element>, depth: nat)
    requires |es| > 0 && ValidElements(st, es)
    requires Span(s, i, j, TreeText(es[0].tree) + (GapText(es[0].after) + ElementsRest(es)))
    ensures if ElementsFit(es, depth + 1) then ReadItems(st, s, i, depth) == Done(ElementValues(es), j)
            else ReadItems(st, s, i, depth).Fail?
    decreases es, 0
  {
    hide NextToken, ReadValue, ReadItems, Fits, TreeText, TreeValue, ElementText, GapText, ValidTree, Continues, Span;
    var a, b := ItemsLayout(st, s, i, j, es);
    var t := es[0].tree;
    ReadValueComplete(st, s, i, a, [], t, depth + 1);
    if Fits(t, depth + 1) {
      if |es| == 1 {
        SpanOne(s, b, j, RIGHT_BRACKET);
        ItemsEnd(st, s, i, a, b, TreeValue(t), depth);
        assert ElementsFit(es[1..], depth + 1) && ElementValues(es) == [TreeValue(t)];
      } else {
        SpanByte(s, b, j, COMMA, ElementsText(es[1..]) + [RIGHT_BRACKET]);
        var k := FirstElement(st, s, b + 1, j, es[1..]);
        ItemsGoOn(st, s, i, a, b, k, TreeValue(t), depth);
        ReadItemsComplete(st, s, k, j, es[1..], depth);
      }
    } else {
      ItemsRefused(st, s, i, depth);
    }
  }

  // Objects

  function FieldsRest(fs: seq<Field>): Bytes
    requires |fs| > 0
  {
    if |fs| == 1 then [RIGHT_BRACE] else [COMMA] + (FieldsText(fs[1..]) + [RIGHT_BRACE])
  }

  /** A field after its opening quote. */
  function FieldRest(f: Field, rest: Bytes): Bytes {
    (CharsText(f.name) + [QUOTE]) + ((GapText(f.after) + [COLON]) +
      ((GapText(f.element.before) + TreeText(f.element.tree)) + (GapText(f.element.after) + rest)))
  }

  lemma {:induction false} FieldsShape(fs: seq<Field>)
    requires |fs| > 0
    ensures FieldsText(fs) + [RIGHT_BRACE]
         == (GapText(fs[0].before) + [QUOTE]) + FieldRest(fs[0], FieldsRest(fs))
  {
    var f, rest := fs[0], FieldsRest(fs);
    var more := if |fs| == 1 then [] else [COMMA] + FieldsText(fs[1..]);
    assert more + [RIGHT_BRACE] == rest;
    Regroup(FieldText(f), more, [RIGHT_BRACE]);
    var e := f.element;
    var value := [COLON] + ElementText(e);
    ElementShape(e, rest);
    FieldShape(f, rest);
  }

  lemma {:induction false} ElementShape(e: Element, rest: Bytes)
    ensures ElementText(e) + rest == (GapText(e.before) + TreeText(e.tree)) + (GapText(e.after) + rest)
  {
    Regroup(GapText(e.before), TreeText(e.tree), GapText(e.after));
    Regroup(GapText(e.before) + TreeText(e.tree), GapText(e.after), rest);
  }

  lemma {:induction false} FieldShape(f: Field, rest: Bytes)
    ensures FieldText(f) + rest == (GapText(f.before) + [QUOTE]) + FieldRest(f, rest)
  {
    var name, after, value := CharsText(f.name) + [QUOTE], GapText(f.after), ElementText(f.element);
    ElementShape(f.element, rest);
    Regroup(GapText(f.before), [QUOTE] + name + (after + ([COLON] + value)), rest);
    Regroup([QUOTE], name, after + ([COLON] + value));
    assert StringText(f.name) == [QUOTE] + name;
    Regroup(after, [COLON], value);
    Regroup(after + [COLON], value, rest);
    Regroup(name, (after + [COLON]) + value, rest);
    Regroup([QUOTE], name + ((after + [COLON]) + value), rest);
    Regroup(GapText(f.before), [QUOTE], name + ((after + [COLON]) + (value + rest)));
  }

  lemma {:induction false} ReadObjectComplete(
    st: Strategy, s: Bytes, i: nat, j: nat, fs: seq<Field>, depth: nat)
    requires |fs| > 0 && ValidFields(st, fs) && Span(s, i, j, FieldsText(fs) + [RIGHT_BRACE])
    ensures if FieldsFit(fs, depth + 1) then ReadObject(st, s, i, depth) == Done(FieldValues(fs), j)
            else ReadObject(st, s, i, depth).Fail?
    decreases fs, 2
  {
    var k := FirstField(st, s, i, j, fs);
    OpenObject(st, s, i, k, depth);
    ReadFieldsComplete(st, s, k, j, fs, depth);
  }

  lemma {:induction false} FirstField(st: Strategy, s: Bytes, i: nat, j: nat, fs: seq<Field>) returns (k: nat)
    requires |fs| > 0 && ValidFields(st, fs) && Span(s, i, j, FieldsText(fs) + [RIGHT_BRACE])
    ensures k < |s| && NextToken(st, s, i) == Done(QUOTE, k + 1) && s[k] == QUOTE
    ensures Span(s, k + 1, j, FieldRest(fs[0], FieldsRest(fs)))
  {
    hide NextToken, GapText, FieldText, FieldsText, FieldRest, FieldsRest, ValidTree;
    var f := fs[0];
    FieldsShape(fs);
    SpanSplit(s, i, j, GapText(f.before) + [QUOTE], FieldRest(f, FieldsRest(fs)));
    k := i + |GapText(f.before)|;
    CloseComplete(st, s, i, k + 1, f.before, QUOTE);
  }

  lemma {:induction false} FieldRestIs(f: Field, rest: Bytes)
    ensures FieldRest(f, rest) == (CharsText(f.name) + [QUOTE]) + ((GapText(f.after) + [COLON]) +
      ((GapText(f.element.before) + TreeText(f.element.tree)) + (GapText(f.element.after) + rest)))
  {
  }

  /** Where a field's name (a), its colon (k), its value (b) and the gap after it (c) end. */
  lemma {:induction false} FieldLayout(st: Strategy, s: Bytes, i: nat, j: nat, f: Field, rest: Bytes)
    returns (a: nat, k: nat, b: nat, c: nat)
    requires ValidGap(st, f.after) && ValidGap(st, f.element.after) && i < |s| && Span(s, i + 1, j, FieldRest(f, rest))
    requires |rest| > 0 && (rest[0] == COMMA || rest[0] == RIGHT_BRACE)
    ensures Span(s, i + 1, a, CharsText(f.name) + [QUOTE]) && NextToken(st, s, a) == Done(COLON, k)
    ensures Span(s, k, b, GapText(f.element.before) + TreeText(f.element.tree)) && !Continues(At(s, b))
    ensures Span(s, b, c, GapText(f.element.after)) && Span(s, c, j, rest)
  {
    hide NextToken, TreeText, GapText, ValidGap, CharsText, Continues, FieldRest, Span;
    var e := f.element;
    var name, colon, value, tail := CharsText(f.name) + [QUOTE], GapText(f.after) + [COLON],
        GapText(e.before) + TreeText(e.tree), GapText(e.after) + rest;
    FieldRestIs(f, rest);
    SpanSplit(s, i + 1, j, name, colon + (value + tail));
    a := i + 1 + |name|;
    SpanSplit(s, a, j, colon, value + tail);
    k := a + |colon|;
    CloseComplete(st, s, a, k, f.after, COLON);
    SpanSplit(s, k, j, value, tail);
    b := k + |value|;
    SpanSplit(s, b, j, GapText(e.after), rest);
    c := b + |GapText(e.after)|;
    FirstByte(s, c, j, rest);
    Punctuation(rest[0]);
    GapBoundary(st, s, b, c, e.after);
  }

  lemma {:induction false} FieldIs(st: Strategy, s: Bytes, i: nat, a: nat, k: nat, name: Bytes, depth: nat)
    requires i < |s| && s[i] == QUOTE && a <= |s| && k <= |s|
    requires ReadString(s, i + 1, -1, []) == Done(name, a) && NextToken(st, s, a) == Done(COLON, k)
    ensures ReadField(st, s, i, depth) ==
            match ReadValue(st, s, k, depth + 1)
              case Fail(e) => Fail(e)
              case Done(v, b) => Done(Member(name, v), b)
  {
    hide NextToken, ReadString, ReadValue;
  }

  /** One field up to the end of its value at b; the gap after the value ends at c. */
  lemma {:induction false} ReadFieldComplete(
    st: Strategy, s: Bytes, i: nat, j: nat, f: Field, rest: Bytes, depth: nat) returns (b: nat, c: nat)
    requires ValidField(st, f) && i < |s| && s[i] == QUOTE
    requires |rest| > 0 && (rest[0] == COMMA || rest[0] == RIGHT_BRACE)
    requires Span(s, i + 1, j, FieldRest(f, rest))
    ensures Span(s, b, c, GapText(f.element.after)) && Span(s, c, j, rest)
    ensures if Fits(f.element.tree, depth + 1) then
              ReadField(st, s, i, depth) == Done(Member(StringValue(f.name), TreeValue(f.element.tree)), b)
            else ReadField(st, s, i, depth).Fail?
    decreases f, 0
  {
    hide NextToken, ReadValue, ReadString, ReadField, ValidTree, TreeText, Fits, TreeValue, StringValue, GapText,
      CharsText, Continues, FieldRest, ValidGap;
    var a, k;
    a, k, b, c := FieldLayout(st, s, i, j, f, rest);
    StringTextRead(s, i + 1, a, f.name);
    ReadValueComplete(st, s, k, b, f.element.before, f.element.tree, depth + 1);
    FieldIs(st, s, i, a, k, StringValue(f.name), depth);
  }

  lemma {:induction false} OpenObject(st: Strategy, s: Bytes, i: nat, k: nat, depth: nat)
    requires i <= |s| && k < |s| && NextToken(st, s, i) == Done(s[k], k + 1) && s[k] != RIGHT_BRACE
    ensures ReadObject(st, s, i, depth) == ReadFields(st, s, k, depth)
  {
    hide NextToken, ReadFields;
  }

  lemma {:induction false} FieldsEnd(st: Strategy, s: Bytes, i: nat, b: nat, c: nat, f: Member, depth: nat)
    requires i < |s| && b <= c < |s| && s[c] == RIGHT_BRACE
    requires ReadField(st, s, i, depth) == Done(f, b) && NextToken(st, s, b) == Done(s[c], c + 1)
    ensures ReadFields(st, s, i, depth) == Done([f], c + 1)
  {
    hide NextToken, ReadField;
  }

  lemma {:induction false} FieldsGoOn(st: Strategy, s: Bytes, i: nat, b: nat, c: nat, k: nat, f: Member, depth: nat)
    requires i < |s| && b <= c < |s| && s[c] == COMMA && k < |s|
    requires ReadField(st, s, i, depth) == Done(f, b) && NextToken(st, s, b) == Done(s[c], c + 1)
    requires NextToken(st, s, c + 1) == Done(s[k], k + 1)
    ensures ReadFields(st, s, i, depth) == Prepend([f], ReadFields(st, s, k, depth))
  {
    hide NextToken, ReadField;
  }

  lemma {:induction false} FieldsRefused(st: Strategy, s: Bytes, i: nat, depth: nat)
    requires i < |s| && ReadField(st, s, i, depth).Fail?
    ensures ReadFields(st, s, i, depth).Fail?
  {
    hide NextToken, ReadField;
  }

  lemma {:induction false} ReadFieldsComplete(
    st: Strategy, s: Bytes, i: nat, j: nat, fs: seq<Field>, depth: nat)
    requires |fs| > 0 && ValidFields(st, fs) && i < |s| && s[i] == QUOTE
    requires Span(s, i + 1, j, FieldRest(fs[0], FieldsRest(fs)))
    ensures if FieldsFit(fs, depth + 1) then ReadFields(st, s, i, depth) == Done(FieldValues(fs), j)
            else ReadFields(st, s, i, depth).Fail?
    decreases fs, 1
  {
    hide NextToken, ReadField, ReadFields, Fits, TreeText, TreeValue, StringValue, FieldRest, FieldText, GapText,
      Continues, Span;
    var f, rest := fs[0], FieldsRest(fs);
    assert ValidElement(st, f.element);
    var b, c := ReadFieldComplete(st, s, i, j, f, rest, depth);
    if Fits(f.element.tree, depth + 1) {
      var member := Member(StringValue(f.name), TreeValue(f.element.tree));
      FirstByte(s, c, j, rest);
      NextTokenComplete(st, s, b, c, f.element.after);
      if |fs| == 1 {
        SpanOne(s, c, j, RIGHT_BRACE);
        FieldsEnd(st, s, i, b, c, member, depth);
        assert FieldsFit(fs[1..], depth + 1) && FieldValues(fs) == [member];
      } else {
        SpanByte(s, c, j, COMMA, FieldsText(fs[1..]) + [RIGHT_BRACE]);
        var k := FirstField(st, s, c + 1, j, fs[1..]);
        FieldsGoOn(st, s, i, b, c, k, member, depth);
        ReadFieldsComplete(st, s, k, j, fs[1..], depth);
      }
    } else {
      FieldsRefused(st, s, i, depth);
    }
  }
}
