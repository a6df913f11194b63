/** Soundness of json11's parser: whatever it reads is a value of the grammar within the depth
    limit, and the parser's result is the value denoted. */
module JsonSoundness {
  import opened ByteText
  import opened JsonValue
  import opened JsonGrammar
  import opened JsonReader
  import opened JsonGapProofs
  import opened JsonStringProofs
  import opened JsonNumberProofs

  /** From k to j stands the tree t, which is valid, fits and denotes v. */
  ghost predicate Spells(st: Strategy, s: Bytes, k: int, j: int, t: Tree, depth: nat, v: Json) {
    ValidTree(st, t) && Fits(t, depth) && TreeValue(t) == v && Span(s, k, j, TreeText(t))
  }

  /** From i to j stand elements and the closing bracket. */
  ghost predicate SpellsItems(st: Strategy, s: Bytes, i: int, j: int, es: seq<Element>, depth: nat, vs: seq<Json>) {
    && |es| > 0 && ValidElements(st, es) && ElementsFit(es, depth + 1) && ElementValues(es) == vs
    && Span(s, i, j, ElementsText(es) + [RIGHT_BRACKET])
  }

  ghost predicate SpellsFields(st: Strategy, s: Bytes, i: int, j: int, fs: seq<Field>, depth: nat, ms: seq<Member>) {
    && |fs| > 0 && ValidFields(st, fs) && FieldsFit(fs, depth + 1) && FieldValues(fs) == ms
    && Span(s, i, j, FieldsText(fs) + [RIGHT_BRACE])
  }

  lemma {:induction false} WordSound(st: Strategy, s: Bytes, k: nat, j: nat, t: Tree, depth: nat)
    requires depth <= MAX_DEPTH && (t.NullTree? || t.TrueTree? || t.FalseTree?) && Span(s, k, j, TreeText(t))
    ensures Spells(st, s, k, j, t, depth, TreeValue(t))
  {
  }

  lemma {:induction false} NumberSound(st: Strategy, s: Bytes, k: nat, depth: nat) returns (t: Tree)
    requires k < |s| && depth <= MAX_DEPTH && ReadNumber(s, k).Done?
    ensures var r := ReadNumber(s, k); Spells(st, s, k, r.next, t, depth, r.value)
  {
    hide ReadNumber, NumberText, NumberValue, ValidNumber;
    var n := ReadNumberSound(s, k);
    t := NumberTree(n);
  }

  lemma {:induction false} StringSound(st: Strategy, s: Bytes, k: nat, depth: nat) returns (t: Tree)
    requires k < |s| && s[k] == QUOTE && depth <= MAX_DEPTH && ReadString(s, k + 1, -1, []).Done?
    ensures var r := ReadString(s, k + 1, -1, []); Spells(st, s, k, r.next, t, depth, String(r.value))
  {
    hide ReadString, CharsText, StringValue;
    var j := ReadString(s, k + 1, -1, []).next;
    var cs := ReadStringSound(s, k + 1, -1, []);
    StringTextRead(s, k + 1, j, cs);
    t := StringTree(cs);
    SpanCons(s, k, j, CharsText(cs) + [QUOTE]);
  }

  lemma {:induction false} ReadScalarSound(st: Strategy, s: Bytes, k: nat, depth: nat) returns (t: Tree)
    requires k < |s| && depth <= MAX_DEPTH && ReadFrom(st, s, k, depth).Done?
    requires s[k] != LEFT_BRACE && s[k] != LEFT_BRACKET
    ensures var r := ReadFrom(st, s, k, depth); Spells(st, s, k, r.next, t, depth, r.value)
  {
    hide ReadArray, ReadObject, ReadNumber, ReadString, Spells, Span;
    var r := ReadFrom(st, s, k, depth);
    var c := s[k];
    if c == MINUS || IsDigit(c) {
      t := NumberSound(st, s, k, depth);
    } else if c == QUOTE {
      t := StringSound(st, s, k, depth);
    } else {
      t := if c == LOWER_T then TrueTree else if c == LOWER_F then FalseTree else NullTree;
      WordSound(st, s, k, r.next, t, depth);
    }
  }

  lemma {:induction false} ReadFromSound(st: Strategy, s: Bytes, k: nat, depth: nat) returns (t: Tree)
    requires k < |s| && depth <= MAX_DEPTH && ReadFrom(st, s, k, depth).Done?
    ensures var r := ReadFrom(st, s, k, depth); Spells(st, s, k, r.next, t, depth, r.value)
    decreases |s| - k, 0
  {
    hide ReadArray, ReadObject, ReadNumber, ReadString, ReadWord, TreeText, Fits, TreeValue;
    if s[k] == LEFT_BRACKET {
      t := ReadArraySound(st, s, k, depth);
    } else if s[k] == LEFT_BRACE {
      t := ReadObjectSound(st, s, k, depth);
    } else {
      t := ReadScalarSound(st, s, k, depth);
    }
  }

  lemma {:induction false} ReadValueSound(st: Strategy, s: Bytes, i: nat, depth: nat) returns (gap: Gap, t: Tree)
    requires i <= |s| && ReadValue(st, s, i, depth).Done?
    ensures var r := ReadValue(st, s, i, depth);
            && ValidGap(st, gap) && ValidTree(st, t) && Fits(t, depth) && TreeValue(t) == r.value
            && Span(s, i, r.next, GapText(gap) + TreeText(t))
    decreases |s| - i, 1
  {
    hide NextToken, ReadFrom, TreeText, Fits, TreeValue;
    gap := NextTokenSound(st, s, i);
    var k := NextToken(st, s, i).next - 1;
    t := ReadFromSound(st, s, k, depth);
    SpanJoin(s, i, k, ReadValue(st, s, i, depth).next, GapText(gap), TreeText(t));
  }

  // Arrays; k is at the opening bracket

  lemma {:induction false} EmptyArraySound(st: Strategy, s: Bytes, k: nat, j: nat, depth: nat) returns (t: Tree)
    requires k < |s| && s[k] == LEFT_BRACKET && NextToken(st, s, k + 1) == Done(RIGHT_BRACKET, j) && depth <= MAX_DEPTH
    ensures Spells(st, s, k, j, t, depth, Array([]))
  {
    hide NextToken;
    var gap := NextTokenSound(st, s, k + 1);
    SpanSnoc(s, k + 1, j - 1, GapText(gap));
    t := EmptyArray(gap);
    SpanCons(s, k, j, GapText(gap) + [RIGHT_BRACKET]);
  }

  lemma {:induction false} ArrayTurn(st: Strategy, s: Bytes, i: nat, depth: nat)
    requires i <= |s| && ReadArray(st, s, i, depth).Done?
    ensures var token, r := NextToken(st, s, i), ReadArray(st, s, i, depth);
            && token.Done? && i < token.next <= |s|
            && if token.value == RIGHT_BRACKET
               then token == Done(RIGHT_BRACKET, token.next) && r == Done([], token.next)
               else r == ReadItems(st, s, token.next - 1, depth)
  {
    hide NextToken, ReadItems;
  }

  lemma {:induction false} ArrayIs(
    st: Strategy, s: Bytes, k: nat, j: nat, es: seq<Element>, depth: nat, vs: seq<Json>)
    requires k < |s| && s[k] == LEFT_BRACKET && depth <= MAX_DEPTH && SpellsItems(st, s, k + 1, j, es, depth, vs)
    ensures Spells(st, s, k, j, ArrayTree(es), depth, Array(vs))
  {
    hide ElementsText, ValidElements, ElementsFit, ElementValues;
    SpanCons(s, k, j, ElementsText(es) + [RIGHT_BRACKET]);
  }

  lemma {:induction false} ReadArraySound(st: Strategy, s: Bytes, k: nat, depth: nat) returns (t: Tree)
    requires k < |s| && s[k] == LEFT_BRACKET && ReadArray(st, s, k + 1, depth).Done? && depth <= MAX_DEPTH
    ensures var r := ReadArray(st, s, k + 1, depth); Spells(st, s, k, r.next, t, depth, Array(r.value))
    decreases |s| - k - 1, 4
  {
    hide NextToken, ReadArray, ReadItems, Spells, SpellsItems, GapText, ValidGap, Span;
    var r := ReadArray(st, s, k + 1, depth);
    var token := NextToken(st, s, k + 1);
    ArrayTurn(st, s, k + 1, depth);
    if token.value == RIGHT_BRACKET {
      t := EmptyArraySound(st, s, k, token.next, depth);
    } else {
      var gap := NextTokenSound(st, s, k + 1);
      var es := ReadItemsSound(st, s, token.next - 1, depth);
      es := PrependGap(st, s, k + 1, token.next - 1, r.next, gap, es, depth, r.value);
      t := ArrayTree(es);
      ArrayIs(st, s, k, r.next, es, depth, r.value);
    }
  }

  lemma {:induction false} PrependGap(
    st: Strategy, s: Bytes, i: nat, k: nat, j: nat, gap: Gap, es: seq<Element>, depth: nat, vs: seq<Json>)
    returns (fs: seq<Element>)
    requires ValidGap(st, gap) && Span(s, i, k, GapText(gap)) && SpellsItems(st, s, k, j, es, depth, vs)
    ensures SpellsItems(st, s, i, j, fs, depth, vs)
  {
    hide TreeText, Fits, TreeValue, ValidTree;
    var e := es[0];
    var f := e.(before := gap + e.before);
    fs := [f] + es[1..];
    assert fs[1..] == es[1..];
    var rest := if |es| == 1 then [] else [COMMA] + ElementsText(es[1..]);
    GapTextAppend(gap, e.before);
    Regroup(GapText(gap), GapText(e.before), TreeText(e.tree) + GapText(e.after));
    Regroup(GapText(gap), ElementText(e), rest);
    Regroup(GapText(gap), ElementsText(es), [RIGHT_BRACKET]);
    SpanJoin(s, i, k, j, GapText(gap), ElementsText(es) + [RIGHT_BRACKET]);
    assert ValidElement(st, e);
    assert ValidElements(st, fs);
    assert ElementsFit(fs, depth + 1);
    assert ElementValues(fs) == vs;
    assert ElementText(f) == GapText(gap) + ElementText(e);
    assert ElementsText(fs) == GapText(gap) + ElementsText(es);
  }

  /** A value between two gaps, followed by c at m. */
  lemma {:induction false} ElementSound(st: Strategy, s: Bytes, i: nat, m: nat, depth: nat) returns (e: Element)
    requires i <= |s|
    requires ReadValue(st, s, i, depth).Done?
    requires Reaches(NextToken(st, s, ReadValue(st, s, i, depth).next), m + 1)
    ensures ValidElement(st, e) && Fits(e.tree, depth) && TreeValue(e.tree) == ReadValue(st, s, i, depth).value
    ensures Span(s, i, m, ElementText(e))
    decreases |s| - i, 2
  {
    hide NextToken, ReadValue, TreeText, Fits, TreeValue, ValidTree;
    var a := ReadValue(st, s, i, depth).next;
    var before, t := ReadValueSound(st, s, i, depth);
    var after := NextTokenSound(st, s, a);
    e := Element(before, t, after);
    SpanJoin(s, i, a, m, GapText(before) + TreeText(t), GapText(after));
    Regroup(GapText(before), TreeText(t), GapText(after));
  }

  lemma {:induction false} LastItem(st: Strategy, s: Bytes, i: nat, m: nat, e: Element, depth: nat)
    requires ValidElement(st, e) && Fits(e.tree, depth + 1) && Span(s, i, m, ElementText(e))
    requires m < |s| && s[m] == RIGHT_BRACKET
    ensures SpellsItems(st, s, i, m + 1, [e], depth, [TreeValue(e.tree)])
  {
    hide TreeText, Fits, TreeValue, ElementText;
    var es := [e];
    assert es[1..] == [];
    assert ElementsText(es) == ElementText(e) + [] == ElementText(e);
    assert ElementsFit(es[1..], depth + 1) && ElementValues(es[1..]) == [];
    SpanSnoc(s, i, m, ElementText(e));
    assert ValidElements(st, es[1..]);
    assert ValidElements(st, es);
    assert ElementsFit(es, depth + 1);
    assert ElementValues(es) == [TreeValue(e.tree)];
  }

  lemma {:induction false} AnotherItem(
    st: Strategy, s: Bytes, i: nat, m: nat, j: nat, e: Element, es: seq<Element>, depth: nat, vs: seq<Json>)
    requires ValidElement(st, e) && Fits(e.tree, depth + 1) && Span(s, i, m, ElementText(e))
    requires m < |s| && s[m] == COMMA && SpellsItems(st, s, m + 1, j, es, depth, vs)
    ensures SpellsItems(st, s, i, j, [e] + es, depth, [TreeValue(e.tree)] + vs)
  {
    hide TreeText, Fits, TreeValue, ElementText;
    var all := [e] + es;
    assert all[1..] == es;
    assert ElementsText(all) == ElementText(e) + ([COMMA] + ElementsText(es));
    SpanCons(s, m, j, ElementsText(es) + [RIGHT_BRACKET]);
    SpanJoin(s, i, m, j, ElementText(e), [COMMA] + (ElementsText(es) + [RIGHT_BRACKET]));
    Regroup([COMMA], ElementsText(es), [RIGHT_BRACKET]);
    Regroup(ElementText(e), [COMMA] + ElementsText(es), [RIGHT_BRACKET]);
  }

  /** What a successful reading of items did in its first turn: the token after the item is at m,
      and where that is a comma the next item starts at k. */
  lemma {:induction false} ItemsTurn(st: Strategy, s: Bytes, i: nat, depth: nat) returns (m: nat, k: nat)
    requires i <= |s| && ReadItems(st, s, i, depth).Done?
    ensures ReadValue(st, s, i, depth + 1).Done? && i <= m < |s|
    ensures NextToken(st, s, ReadValue(st, s, i, depth + 1).next) == Done(s[m], m + 1)
    ensures var r, v := ReadItems(st, s, i, depth), ReadValue(st, s, i, depth + 1).value;
            if s[m] == RIGHT_BRACKET then r == Done([v], m + 1)
            else s[m] == COMMA && m < k < |s| && Reaches(NextToken(st, s, m + 1), k + 1)
                 && ReadItems(st, s, k, depth).Done? && r == Prepend([v], ReadItems(st, s, k, depth))
  {
    hide NextToken, ReadValue;
    m := NextToken(st, s, ReadValue(st, s, i, depth + 1).next).next - 1;
    k := if s[m] == COMMA then NextToken(st, s, m + 1).next - 1 else 0;
  }

  lemma {:induction false} ReadItemsSound(st: Strategy, s: Bytes, i: nat, depth: nat) returns (es: seq<Element>)
    requires i <= |s| && ReadItems(st, s, i, depth).Done? && depth <= MAX_DEPTH
    ensures var r := ReadItems(st, s, i, depth); SpellsItems(st, s, i, r.next, es, depth, r.value)
    decreases |s| - i, 3
  {
    hide NextToken, ReadValue, ReadItems, SpellsItems, ElementText, TreeValue, Fits, ValidElement, GapText, ValidGap,
      Span;
    var m, k := ItemsTurn(st, s, i, depth);
    var e := ElementSound(st, s, i, m, depth + 1);
    if s[m] == RIGHT_BRACKET {
      es := [e];
      LastItem(st, s, i, m, e, depth);
    } else {
      var gap := NextTokenSound(st, s, m + 1);
      var rest := ReadItems(st, s, k, depth);
      es := ReadItemsSound(st, s, k, depth);
      es := PrependGap(st, s, m + 1, k, rest.next, gap, es, depth, rest.value);
      AnotherItem(st, s, i, m, rest.next, e, es, depth, rest.value);
      es := [e] + es;
    }
  }

  // Objects; k is at the opening brace

  lemma {:induction false} EmptyObjectSound(st: Strategy, s: Bytes, k: nat, j: nat, depth: nat) returns (t: Tree)
    requires k < |s| && s[k] == LEFT_BRACE && NextToken(st, s, k + 1) == Done(RIGHT_BRACE, j) && depth <= MAX_DEPTH
    ensures Spells(st, s, k, j, t, depth, Object(Collect([])))
  {
    hide NextToken;
    var gap := NextTokenSound(st, s, k + 1);
    SpanSnoc(s, k + 1, j - 1, GapText(gap));
    t := EmptyObject(gap);
    SpanCons(s, k, j, GapText(gap) + [RIGHT_BRACE]);
  }

  lemma {:induction false} ObjectTurn(st: Strategy, s: Bytes, i: nat, depth: nat)
    requires i <= |s| && ReadObject(st, s, i, depth).Done?
    ensures var token, r := NextToken(st, s, i), ReadObject(st, s, i, depth);
            && token.Done? && i < token.next <= |s|
            && if token.value == RIGHT_BRACE then token == Done(RIGHT_BRACE, token.next) && r == Done([], token.next)
               else r == ReadFields(st, s, token.next - 1, depth)
  {
    hide NextToken, ReadFields;
  }

  lemma {:induction false} ObjectIs(
    st: Strategy, s: Bytes, k: nat, j: nat, fs: seq<Field>, depth: nat, ms: seq<Member>)
    requires k < |s| && s[k] == LEFT_BRACE && depth <= MAX_DEPTH && SpellsFields(st, s, k + 1, j, fs, depth, ms)
    ensures Spells(st, s, k, j, ObjectTree(fs), depth, Object(Collect(ms)))
  {
    hide FieldsText, ValidFields, FieldsFit, FieldValues, Collect;
    SpanCons(s, k, j, FieldsText(fs) + [RIGHT_BRACE]);
  }

  lemma {:induction false} ReadObjectSound(st: Strategy, s: Bytes, k: nat, depth: nat) returns (t: Tree)
    requires k < |s| && s[k] == LEFT_BRACE && ReadObject(st, s, k + 1, depth).Done? && depth <= MAX_DEPTH
    ensures var r := ReadObject(st, s, k + 1, depth); Spells(st, s, k, r.next, t, depth, Object(Collect(r.value)))
    decreases |s| - k - 1, 4
  {
    hide NextToken, ReadObject, ReadFields, Collect, Spells, SpellsFields, GapText, ValidGap, Span;
    var r := ReadObject(st, s, k + 1, depth);
    var token := NextToken(st, s, k + 1);
    ObjectTurn(st, s, k + 1, depth);
    if token.value == RIGHT_BRACE {
      t := EmptyObjectSound(st, s, k, token.next, depth);
    } else {
      var gap := NextTokenSound(st, s, k + 1);
      var fs := ReadFieldsSound(st, s, token.next - 1, depth);
      fs := PrependFieldGap(st, s, k + 1, token.next - 1, r.next, gap, fs, depth, r.value);
      t := ObjectTree(fs);
      ObjectIs(st, s, k, r.next, fs, depth, r.value);
    }
  }

  lemma {:induction false} PrependFieldGap(
    st: Strategy, s: Bytes, i: nat, k: nat, j: nat, gap: Gap, fs: seq<Field>, depth: nat, ms: seq<Member>)
    returns (gs: seq<Field>)
    requires ValidGap(st, gap) && Span(s, i, k, GapText(gap)) && SpellsFields(st, s, k, j, fs, depth, ms)
    ensures SpellsFields(st, s, i, j, gs, depth, ms)
  {
    hide TreeText, ElementText, StringText, StringValue, Fits, TreeValue, ValidTree;
    var f := fs[0];
    var g := f.(before := gap + f.before);
    gs := [g] + fs[1..];
    assert gs[1..] == fs[1..];
    var rest := if |fs| == 1 then [] else [COMMA] + FieldsText(fs[1..]);
    GapTextAppend(gap, f.before);
    var spelling := StringText(f.name) + (GapText(f.after) + ([COLON] + ElementText(f.element)));
    Regroup(GapText(gap), GapText(f.before), spelling);
    Regroup(GapText(gap), FieldText(f), rest);
    Regroup(GapText(gap), FieldsText(fs), [RIGHT_BRACE]);
    SpanJoin(s, i, k, j, GapText(gap), FieldsText(fs) + [RIGHT_BRACE]);
    assert ValidField(st, f);
    assert ValidFields(st, gs);
    assert FieldsFit(gs, depth + 1);
    assert FieldValues(gs) == ms;
    assert FieldText(g) == GapText(gap) + FieldText(f);
    assert FieldsText(gs) == GapText(gap) + FieldsText(fs);
  }

  /** What a successful reading of a field has read. */
  lemma {:induction false} FieldTurn(st: Strategy, s: Bytes, i: nat, depth: nat) returns (j: nat, k: nat)
    requires i < |s| && ReadField(st, s, i, depth).Done?
    ensures s[i] == QUOTE && i < j < k <= |s| && s[k - 1] == COLON
    ensures ReadString(s, i + 1, -1, []).Done? && ReadString(s, i + 1, -1, []).next == j
    ensures NextToken(st, s, j) == Done(COLON, k) && ReadValue(st, s, k, depth + 1).Done?
    ensures var r, v := ReadField(st, s, i, depth), ReadValue(st, s, k, depth + 1);
            r == Done(Member(ReadString(s, i + 1, -1, []).value, v.value), v.next)
  {
    hide NextToken, ReadString, ReadValue;
    j := ReadString(s, i + 1, -1, []).next;
    k := NextToken(st, s, j).next;
  }

  lemma {:induction false} FieldSpelt(
    s: Bytes, i: nat, j: nat, k: nat, m: nat, cs: seq<StrItem>, after: Gap, e: Element)
    requires i < j < k <= |s| && s[i] == QUOTE && s[k - 1] == COLON
    requires Span(s, i + 1, j, CharsText(cs) + [QUOTE]) && Span(s, j, k - 1, GapText(after))
    requires Span(s, k, m, ElementText(e))
    ensures Span(s, i, m, FieldText(Field([], cs, after, e)))
  {
    hide CharsText, GapText, ElementText, Span;
    SpanCons(s, i, j, CharsText(cs) + [QUOTE]);
    SpanCons(s, k - 1, m, ElementText(e));
    SpanJoin(s, j, k - 1, m, GapText(after), [COLON] + ElementText(e));
    SpanJoin(s, i, j, m, StringText(cs), GapText(after) + ([COLON] + ElementText(e)));
    FieldTextIs(cs, after, e);
  }

  /** A field whose opening quote is at i and that is followed by the token at m. */
  lemma {:induction false} FieldSound(st: Strategy, s: Bytes, i: nat, m: nat, depth: nat) returns (f: Field)
    requires i < |s| && ReadField(st, s, i, depth).Done? && depth <= MAX_DEPTH
    requires Reaches(NextToken(st, s, ReadField(st, s, i, depth).next), m + 1)
    ensures ValidField(st, f) && Fits(f.element.tree, depth + 1)
    ensures Member(StringValue(f.name), TreeValue(f.element.tree)) == ReadField(st, s, i, depth).value
    ensures Span(s, i, m, FieldText(f))
    decreases |s| - i, 1
  {
    hide NextToken, ReadString, ReadValue, ReadField, CharsText, StringValue, TreeText, Fits, TreeValue, ValidElement,
      ElementText, GapText, FieldText, Span, Settled;
    var j, k := FieldTurn(st, s, i, depth);
    var cs := ReadStringSound(s, i + 1, -1, []);
    StringTextRead(s, i + 1, j, cs);
    var after := NextTokenSound(st, s, j);
    var e := ElementSound(st, s, k, m, depth + 1);
    f := Field([], cs, after, e);
    FieldSpelt(s, i, j, k, m, cs, after, e);
  }

  lemma {:induction false} FieldTextIs(cs: seq<StrItem>, after: Gap, e: Element)
    ensures FieldText(Field([], cs, after, e)) == StringText(cs) + (GapText(after) + ([COLON] + ElementText(e)))
  {
    hide StringText, ElementText;
    assert GapText([]) == [];
  }

  lemma {:induction false} LastField(st: Strategy, s: Bytes, i: nat, m: nat, f: Field, depth: nat)
    requires ValidField(st, f) && Fits(f.element.tree, depth + 1) && Span(s, i, m, FieldText(f))
    requires m < |s| && s[m] == RIGHT_BRACE
    ensures SpellsFields(st, s, i, m + 1, [f], depth, [Member(StringValue(f.name), TreeValue(f.element.tree))])
  {
    hide StringValue, Fits, TreeValue, FieldText;
    var fs := [f];
    assert fs[1..] == [];
    assert FieldsText(fs) == FieldText(f) + [] == FieldText(f);
    assert FieldsFit(fs[1..], depth + 1) && FieldValues(fs[1..]) == [] && ValidFields(st, fs[1..]);
    SpanSnoc(s, i, m, FieldText(f));
  }

  lemma {:induction false} AnotherField(
    st: Strategy, s: Bytes, i: nat, m: nat, j: nat, f: Field, fs: seq<Field>, depth: nat, ms: seq<Member>)
    requires ValidField(st, f) && Fits(f.element.tree, depth + 1) && Span(s, i, m, FieldText(f))
    requires m < |s| && s[m] == COMMA && SpellsFields(st, s, m + 1, j, fs, depth, ms)
    ensures SpellsFields(st, s, i, j, [f] + fs, depth, [Member(StringValue(f.name), TreeValue(f.element.tree))] + ms)
  {
    hide StringValue, Fits, TreeValue, FieldText;
    var all := [f] + fs;
    assert all[1..] == fs;
    assert FieldsText(all) == FieldText(f) + ([COMMA] + FieldsText(fs));
    SpanCons(s, m, j, FieldsText(fs) + [RIGHT_BRACE]);
    SpanJoin(s, i, m, j, FieldText(f), [COMMA] + (FieldsText(fs) + [RIGHT_BRACE]));
    Regroup([COMMA], FieldsText(fs), [RIGHT_BRACE]);
    Regroup(FieldText(f), [COMMA] + FieldsText(fs), [RIGHT_BRACE]);
  }

  lemma {:induction false} FieldsTurn(st: Strategy, s: Bytes, i: nat, depth: nat) returns (m: nat, k: nat)
    requires i < |s| && ReadFields(st, s, i, depth).Done?
    ensures ReadField(st, s, i, depth).Done? && i <= m < |s|
    ensures NextToken(st, s, ReadField(st, s, i, depth).next) == Done(s[m], m + 1)
    ensures var r, f := ReadFields(st, s, i, depth), ReadField(st, s, i, depth).value;
            if s[m] == RIGHT_BRACE then r == Done([f], m + 1)
            else s[m] == COMMA && m < k < |s| && Reaches(NextToken(st, s, m + 1), k + 1)
                 && ReadFields(st, s, k, depth).Done? && r == Prepend([f], ReadFields(st, s, k, depth))
  {
    hide NextToken, ReadField;
    m := NextToken(st, s, ReadField(st, s, i, depth).next).next - 1;
    k := if s[m] == COMMA then NextToken(st, s, m + 1).next - 1 else 0;
  }

  lemma {:induction false} ReadFieldsSound(st: Strategy, s: Bytes, i: nat, depth: nat) returns (fs: seq<Field>)
    requires i < |s| && ReadFields(st, s, i, depth).Done? && depth <= MAX_DEPTH
    ensures var r := ReadFields(st, s, i, depth); SpellsFields(st, s, i, r.next, fs, depth, r.value)
    decreases |s| - i, 3
  {
    hide NextToken, ReadField, ReadFields, SpellsFields, FieldText, StringValue, TreeValue, Fits, ValidField, GapText,
      ValidGap, Span;
    var m, k := FieldsTurn(st, s, i, depth);
    var f := FieldSound(st, s, i, m, depth);
    if s[m] == RIGHT_BRACE {
      fs := [f];
      LastField(st, s, i, m, f, depth);
    } else {
      var gap := NextTokenSound(st, s, m + 1);
      var rest := ReadFields(st, s, k, depth);
      fs := ReadFieldsSound(st, s, k, depth);
      fs := PrependFieldGap(st, s, m + 1, k, rest.next, gap, fs, depth, rest.value);
      AnotherField(st, s, i, m, rest.next, f, fs, depth, rest.value);
      fs := [f] + fs;
    }
  }
}
