/** The main results about json11: exact acceptance, and the round trip through the printer. */
module JsonTheorems {
  import opened ByteText
  import opened Decimal
  import opened JsonValue
  import opened Utf8
  import opened JsonGrammar
  import opened JsonReader
  import opened JsonGapProofs
  import opened JsonStringProofs
  import opened JsonNumberProofs
  import opened JsonCompleteness
  import opened JsonSoundness
  import opened JsonPrinter

  // Acceptance

  lemma {:induction false} ReadTurn(st: Strategy, s: Bytes, a: nat)
    requires a <= |s| && Reaches(SkipGap(st, s, a), |s|)
    ensures var r := ReadValue(st, s, 0, 0);
            && (Reaches(r, a) ==> Read(st, s) == Done(r.value, |s|))
            && (r.Fail? ==> Read(st, s).Fail?)
  {
    hide ReadValue, SkipGap;
  }

  /** A grammatical text is read to the value it denotes if it fits the depth limit, and refused
      if it does not. */
  lemma {:induction false} ReadDocument(st: Strategy, d: Document)
    requires ValidDocument(st, d)
    ensures var s := DocumentText(d);
            if Fits(d.root.tree, 0) then Read(st, s) == Done(TreeValue(d.root.tree), |s|) else Read(st, s).Fail?
  {
    hide Read, ReadValue, SkipGap, GapText, TreeText, TreeValue, Fits, ValidTree, ValidGap, Continues, Settled;
    var s, e := DocumentText(d), d.root;
    var a := DocumentLayout(st, d);
    ReadValueComplete(st, s, 0, a, e.before, e.tree, 0);
    SettledAtEnd(st, s);
    SkipGapComplete(st, s, a, |s|, e.after, d.tail);
    ReadTurn(st, s, a);
  }

  lemma {:induction false} SettledAtEnd(st: Strategy, s: Bytes)
    ensures Settled(st, s, |s|)
  {
  }

  /** Where the value of a text ends. */
  lemma {:induction false} DocumentLayout(st: Strategy, d: Document) returns (a: nat)
    requires ValidDocument(st, d)
    ensures var s := DocumentText(d);
            && Span(s, 0, a, GapText(d.root.before) + TreeText(d.root.tree))
            && Span(s, a, |s|, GapText(d.root.after) + d.tail) && !Continues(At(s, a))
  {
    hide GapText, TreeText, TreeValue, ValidTree, ValidGap, Continues;
    var s, e := DocumentText(d), d.root;
    var head := GapText(e.before) + TreeText(e.tree);
    Regroup(GapText(e.before), TreeText(e.tree), GapText(e.after));
    Regroup(head, GapText(e.after), d.tail);
    assert Span(s, 0, |s|, head + (GapText(e.after) + d.tail));
    SpanSplit(s, 0, |s|, head, GapText(e.after) + d.tail);
    a := |head|;
    SpanSplit(s, a, |s|, GapText(e.after), d.tail);
    var b := a + |GapText(e.after)|;
    assert b < |s| ==> s[b] == d.tail[0] == SLASH;
    assert !Continues(At(s, b)) by { TextEndsNumber(At(s, b)); }
    GapBoundary(st, s, a, b, e.after);
  }

  lemma {:induction false} TextEndsNumber(c: Byte)
    requires c == SLASH || c == NUL
    ensures !Continues(c)
  {
  }

  lemma {:induction false} DocumentOf(st: Strategy, s: Bytes) returns (d: Document)
    requires Read(st, s).Done?
    ensures ValidDocument(st, d) && DocumentText(d) == s && Fits(d.root.tree, 0)
    ensures TreeValue(d.root.tree) == Read(st, s).value
  {
    hide ReadValue, SkipGap, TreeText, TreeValue, Fits, ValidTree;
    var a := ReadValue(st, s, 0, 0).next;
    var before, t := ReadValueSound(st, s, 0, 0);
    var after, tail := SkipGapSound(st, s, a, |s|);
    d := Document(Element(before, t, after), tail);
    SpanJoin(s, 0, a, |s|, GapText(before) + TreeText(t), GapText(after) + tail);
    Regroup(GapText(before), TreeText(t), GapText(after));
    Regroup(GapText(before) + TreeText(t), GapText(after), tail);
    assert s[0..|s|] == s;
  }

  /** `Json::parse` succeeds with v exactly on the texts of the grammar that denote v. */
  lemma {:induction false} ParseAcceptsExactly(st: Strategy, s: Bytes, v: Json)
    ensures Read(st, s) == Done(v, |s|) <==> Denotes(st, s, v)
  {
    if Read(st, s) == Done(v, |s|) {
      var d := DocumentOf(st, s);
    }
    if Denotes(st, s, v) {
      var d :| ValidDocument(st, d) && DocumentText(d) == s && Fits(d.root.tree, 0) && TreeValue(d.root.tree) == v;
      ReadDocument(st, d);
    }
  }

  /** So no text has two meanings, and neither has one meaning too deep and another that fits. */
  lemma {:induction false} GrammarIsUnambiguous(st: Strategy, d: Document, e: Document)
    requires ValidDocument(st, d) && ValidDocument(st, e) && DocumentText(d) == DocumentText(e)
    ensures Fits(d.root.tree, 0) <==> Fits(e.root.tree, 0)
    ensures Fits(d.root.tree, 0) ==> TreeValue(d.root.tree) == TreeValue(e.root.tree)
  {
    ReadDocument(st, d);
    ReadDocument(st, e);
  }

  /** Every standard text is accepted with comments allowed too, with the same value. */
  lemma {:induction false} CommentsExtendStandard(s: Bytes, v: Json)
    requires Read(STANDARD, s) == Done(v, |s|)
    ensures Read(COMMENTS, s) == Done(v, |s|)
  {
    var d := DocumentOf(STANDARD, s);
    StandardTree(d.root.tree);
    assert ValidGap(COMMENTS, d.root.before) && ValidGap(COMMENTS, d.root.after) by {
      StandardGap(d.root.before);
      StandardGap(d.root.after);
    }
    ReadDocument(COMMENTS, d);
  }

  lemma {:induction false} StandardGap(gap: Gap)
    requires ValidGap(STANDARD, gap)
    ensures ValidGap(COMMENTS, gap)
  {
    forall k | 0 <= k < |gap| ensures ValidGapItem(COMMENTS, gap[k]) {
      assert ValidGapItem(STANDARD, gap[k]);
    }
  }

  lemma {:induction false} StandardTree(t: Tree)
    requires ValidTree(STANDARD, t)
    ensures ValidTree(COMMENTS, t)
    decreases t, 0
  {
    match t
    case EmptyArray(gap) => StandardGap(gap);
    case EmptyObject(gap) => StandardGap(gap);
    case ArrayTree(es) => StandardElements(es);
    case ObjectTree(fs) => StandardFields(fs);
    case _ =>
  }

  lemma {:induction false} StandardElement(e: Element)
    requires ValidElement(STANDARD, e)
    ensures ValidElement(COMMENTS, e)
    decreases e, 1
  {
    StandardGap(e.before);
    StandardTree(e.tree);
    StandardGap(e.after);
  }

  lemma {:induction false} StandardElements(es: seq<Element>)
    requires ValidElements(STANDARD, es)
    ensures ValidElements(COMMENTS, es)
    decreases es, 0
  {
    if |es| > 0 {
      StandardElement(es[0]);
      StandardElements(es[1..]);
    }
  }

  lemma {:induction false} StandardFields(fs: seq<Field>)
    requires ValidFields(STANDARD, fs)
    ensures ValidFields(COMMENTS, fs)
    decreases fs, 0
  {
    if |fs| > 0 {
      var f := fs[0];
      assert ValidField(STANDARD, f);
      StandardGap(f.before);
      StandardGap(f.after);
      StandardElement(f.element);
      StandardFields(fs[1..]);
    }
  }

  // The printed text as a syntax tree

  function CharOf(s: Bytes, i: nat): StrItem
    requires i < |s|
  {
    var text := EscapeOne(s, i).0;
    if |text| == 1 then Raw(s[i]) else if |text| == 2 then Escape(text[1]) else Unicode(text[2..])
  }

  function CharsFrom(s: Bytes, i: nat): seq<StrItem>
    requires i <= |s|
    decreases |s| - i
  {
    if i == |s| then [] else [CharOf(s, i)] + CharsFrom(s, i + EscapeOne(s, i).1)
  }

  lemma {:induction false} ControlHex(b: Byte)
    requires b <= 0x1F
    ensures var h: Bytes := [ZERO, ZERO, HexDigit(b / 16), HexDigit(b % 16)];
            IsHexQuad(h) && Hex4(h) == b && Encode(Hex4(h)) == [b] && !IsHigh(Hex4(h))
  {
    assert b / 16 * 16 + b % 16 == b;
  }

  lemma {:induction false} SeparatorHex(last: Byte)
    requires last == 0x38 || last == 0x39
    ensures var h: Bytes := [0x32, 0x30, 0x32, last];
            IsHexQuad(h) && Encode(Hex4(h)) == [0xE2, 0x80, last + 0x70] && !IsHigh(Hex4(h))
  {
    var h: Bytes := [0x32, 0x30, 0x32, last];
    assert Hex4(h) == 0x2020 + (last - ZERO);
  }

  /** A character is printed as itself, as an escaped letter, or as four hexadecimal digits. */
  lemma {:induction false} EscapeKinds(s: Bytes, i: nat)
    requires i < |s|
    ensures var (text, n) := EscapeOne(s, i);
            || (n == 1 && text == [s[i]] && s[i] >= SPACE && s[i] != QUOTE && s[i] != BACKSLASH)
            || (n == 1 && |text| == 2 && text[0] == BACKSLASH
                && IsEscapeLetter(text[1]) && EscapeValue(text[1]) == s[i])
            || (n == 1 && s[i] <= 0x1F
                && text == [BACKSLASH, LOWER_U] + [ZERO, ZERO, HexDigit(s[i] / 16), HexDigit(s[i] % 16)])
            || (n == 3 && |text| == 6 && (text[5] == 0x38 || text[5] == 0x39)
                && text == [BACKSLASH, LOWER_U] + [0x32, 0x30, 0x32, text[5]]
                && s[i..i + 3] == [0xE2, 0x80, text[5] + 0x70])
  {
    hide HexDigit;
    if EscapeOne(s, i).1 == 3 { assert s[i..i + 3] == [s[i], s[i + 1], s[i + 2]]; }
  }

  /** The bytes one printed character stands for. */
  lemma {:induction false} CharMeaning(s: Bytes, i: nat)
    requires i < |s|
    ensures var (text, n) := EscapeOne(s, i); var c := CharOf(s, i);
            && CharText(c) == text
            && !(UnitOf(c).Code? && IsHigh(UnitOf(c).point))
            && (match UnitOf(c) case Literal(b) => [b] case Code(p) => Encode(p)) == s[i..i + n]
  {
    hide Hex4, Encode, IsHigh, HexDigit, EscapeOne, EscapeValue, IsEscapeLetter;
    var (text, n) := EscapeOne(s, i);
    EscapeKinds(s, i);
    if n == 1 { assert s[i..i + 1] == [s[i]]; }
    if |text| == 6 {
      if n == 3 {
        SeparatorHex(text[5]);
        assert text[2..] == [0x32, 0x30, 0x32, text[5]];
      } else {
        ControlHex(s[i]);
        assert text[2..] == [ZERO, ZERO, HexDigit(s[i] / 16), HexDigit(s[i] % 16)];
      }
    }
  }

  lemma {:induction false} CharsFromText(s: Bytes, i: nat)
    requires i <= |s|
    ensures CharsText(CharsFrom(s, i)) == EscapeFrom(s, i)
    decreases |s| - i
  {
    hide CharOf, EscapeOne;
    if i < |s| {
      var n := EscapeOne(s, i).1;
      CharMeaning(s, i);
      CharsFromText(s, i + n);
      assert CharsFrom(s, i)[1..] == CharsFrom(s, i + n);
    }
  }

  /** Reading back the printed characters gives the string. */
  lemma {:induction false} CharsFromValue(s: Bytes, i: nat)
    requires i <= |s|
    ensures StringValue(CharsFrom(s, i)) == s[i..]
    decreases |s| - i
  {
    hide CharOf, EscapeOne, JoinPairs, Encoded, Encode;
    if i < |s| {
      var c, n := CharOf(s, i), EscapeOne(s, i).1;
      var rest := CharsFrom(s, i + n);
      CharMeaning(s, i);
      CharsFromValue(s, i + n);
      UnitsCons(c, rest);
      JoinPairsCons(UnitOf(c), Units(rest));
      EncodedCons(UnitOf(c), JoinPairs(Units(rest)));
      assert s[i..] == s[i..i + n] + s[i + n..];
    } else {
      EmptyStringValue();
    }
  }

  function NumberTreeOf(n: int): NumberSyntax {
    NumberSyntax(n < 0, NatText(if n < 0 then -n else n), [], LOWER_E, [], [])
  }

  lemma {:induction false} NumberTreeMeaning(n: int)
    ensures ValidNumber(NumberTreeOf(n)) && NumberText(NumberTreeOf(n)) == IntText(n)
    ensures -EXACT <= n <= EXACT ==> NumberValue(NumberTreeOf(n)) == Whole(n)
  {
    var t := NumberTreeOf(n);
    assert NumberText(t) == IntegerText(t) == IntText(n);
    IntTextValue(n);
  }

  const ONE_SPACE: Gap := [White(SPACE)]

  function PrintTree(v: Json): Tree {
    match v
    case Null => NullTree
    case Bool(b) => if b then TrueTree else FalseTree
    case Number(n) => NumberTree(NumberTreeOf(if n.Whole? then n.n else 0))
    case String(s) => StringTree(CharsFrom(s, 0))
    case Array(vs) => if |vs| == 0 then EmptyArray([]) else ArrayTree(PrintElements(vs, []))
    case Object(ms) => if |ms| == 0 then EmptyObject([]) else ObjectTree(PrintFields(ms, []))
  }

  function PrintElements(vs: seq<Json>, before: Gap): seq<Element> {
    if |vs| == 0 then [] else [Element(before, PrintTree(vs[0]), [])] + PrintElements(vs[1..], ONE_SPACE)
  }

  function PrintFields(ms: seq<Member>, before: Gap): seq<Field> {
    if |ms| == 0 then []
    else [Field(before, CharsFrom(ms[0].key, 0), [], Element(ONE_SPACE, PrintTree(ms[0].value), []))]
         + PrintFields(ms[1..], ONE_SPACE)
  }

  /** Every value sits under at most MAX_DEPTH containers when v itself sits under `depth`. */
  predicate JsonFits(v: Json, depth: nat) {
    && depth <= MAX_DEPTH
    && match v
       case Array(vs) => ItemsFit(vs, depth + 1)
       case Object(ms) => MembersFit(ms, depth + 1)
       case _ => true
  }

  predicate ItemsFit(vs: seq<Json>, depth: nat) {
    |vs| == 0 || (JsonFits(vs[0], depth) && ItemsFit(vs[1..], depth))
  }

  predicate MembersFit(ms: seq<Member>, depth: nat) {
    |ms| == 0 || (JsonFits(ms[0].value, depth) && MembersFit(ms[1..], depth))
  }

  lemma {:induction false} OneSpace(st: Strategy)
    ensures ValidGap(st, ONE_SPACE) && GapText(ONE_SPACE) == [SPACE] && ValidGap(st, []) && GapText([]) == []
  {
    assert GapText(ONE_SPACE[1..]) == [];
  }

  /** The tree of v is valid, spells the printed text, denotes v and is as deep as v. */
  ghost predicate Prints(st: Strategy, v: Json, t: Tree, depth: nat) {
    ValidTree(st, t) && TreeText(t) == Dump(v) && TreeValue(t) == v && (Fits(t, depth) <==> JsonFits(v, depth))
  }

  ghost predicate PrintedElements(st: Strategy, vs: seq<Json>, before: Gap, depth: nat) {
    var es := PrintElements(vs, before);
    && |es| == |vs| && ValidElements(st, es) && ElementsText(es) == GapText(before) + DumpItems(vs)
    && ElementValues(es) == vs && (ElementsFit(es, depth) <==> ItemsFit(vs, depth))
  }

  ghost predicate PrintedFields(st: Strategy, ms: seq<Member>, before: Gap, depth: nat) {
    var fs := PrintFields(ms, before);
    && |fs| == |ms| && ValidFields(st, fs) && FieldsText(fs) == GapText(before) + DumpMembers(ms)
    && FieldValues(fs) == ms && (FieldsFit(fs, depth) <==> MembersFit(ms, depth))
  }

  lemma {:induction false} PrintTreeMeaning(st: Strategy, v: Json, depth: nat)
    requires Dumpable(v)
    ensures Prints(st, v, PrintTree(v), depth)
    decreases v, 1
  {
    hide Prints, PrintedElements, PrintedFields, PrintTree;
    match v
    case Array(vs) =>
      if |vs| > 0 { PrintElementsMeaning(st, vs, [], depth + 1); }
      PrintArrayMeaning(st, vs, depth);
    case Object(ms) =>
      if |ms| > 0 { PrintFieldsMeaning(st, ms, [], depth + 1); }
      PrintObjectMeaning(st, ms, depth);
    case _ => PrintScalarMeaning(st, v, depth);
  }

  lemma {:induction false} PrintScalarMeaning(st: Strategy, v: Json, depth: nat)
    requires Dumpable(v) && !v.Array? && !v.Object?
    ensures Prints(st, v, PrintTree(v), depth)
  {
    hide CharsFrom, StringValue, CharsText, EscapeFrom, NumberTreeOf, NumberText, NumberValue, ValidNumber, IntText;
    match v
    case Null =>
    case Bool(_) =>
    case Number(n) => NumberTreeMeaning(n.n);
    case String(s) =>
      CharsFromText(s, 0);
      CharsFromValue(s, 0);
      assert s[0..] == s;
  }

  lemma {:induction false} PrintArrayMeaning(st: Strategy, vs: seq<Json>, depth: nat)
    requires |vs| > 0 ==> PrintedElements(st, vs, [], depth + 1)
    ensures Prints(st, Array(vs), PrintTree(Array(vs)), depth)
  {
    hide DumpItems, PrintElements, ElementsText, ElementsFit, ItemsFit, ElementValues, ValidElements;
    OneSpace(st);
    if |vs| == 0 {
      EmptyElements(st, depth + 1);
      assert DumpItems(vs) == [] by { EmptyDump(vs, []); }
    } else {
      assert GapText([]) + DumpItems(vs) == DumpItems(vs);
    }
  }

  lemma {:induction false} EmptyDump(vs: seq<Json>, ms: seq<Member>)
    requires |vs| == 0 && |ms| == 0
    ensures DumpItems(vs) == [] && DumpMembers(ms) == []
  {
  }

  lemma {:induction false} PrintObjectMeaning(st: Strategy, ms: seq<Member>, depth: nat)
    requires Ascending(ms) && (|ms| > 0 ==> PrintedFields(st, ms, [], depth + 1))
    ensures Prints(st, Object(ms), PrintTree(Object(ms)), depth)
  {
    hide DumpMembers, PrintFields, FieldsText, FieldsFit, MembersFit, FieldValues, ValidFields, Collect;
    OneSpace(st);
    CollectAscending(ms);
    if |ms| == 0 {
      EmptyElements(st, depth + 1);
      assert DumpMembers(ms) == [] by { EmptyDump([], ms); }
    } else {
      assert GapText([]) + DumpMembers(ms) == DumpMembers(ms);
    }
  }

  lemma {:induction false} PrintElementsMeaning(st: Strategy, vs: seq<Json>, before: Gap, depth: nat)
    requires DumpableItems(vs) && |vs| > 0 && (before == [] || before == ONE_SPACE)
    ensures PrintedElements(st, vs, before, depth)
    decreases vs, 0
  {
    hide Dump, TreeText, TreeValue, Fits, JsonFits, ValidTree, PrintTree;
    OneSpace(st);
    PrintTreeMeaning(st, vs[0], depth);
    var es := PrintElements(vs, before);
    assert es[0] == Element(before, PrintTree(vs[0]), []);
    assert es[1..] == PrintElements(vs[1..], ONE_SPACE);
    assert ElementText(es[0]) == GapText(before) + Dump(vs[0]) by {
      assert Dump(vs[0]) + [] == Dump(vs[0]);
    }
    assert ValidElement(st, es[0]);
    if |vs| == 1 {
      assert vs == [vs[0]];
      EmptyElements(st, depth);
      assert es[1..] == [] && vs[1..] == [];
      assert ElementsText(es) == GapText(before) + DumpItems(vs);
    } else {
      PrintElementsMeaning(st, vs[1..], ONE_SPACE, depth);
      assert [COMMA] + ([SPACE] + DumpItems(vs[1..])) == [COMMA, SPACE] + DumpItems(vs[1..]);
      Regroup(GapText(before), Dump(vs[0]), [COMMA, SPACE] + DumpItems(vs[1..]));
      assert vs == [vs[0]] + vs[1..];
      assert ElementsText(es) == GapText(before) + DumpItems(vs);
    }
  }

  lemma {:induction false} EmptyElements(st: Strategy, depth: nat)
    ensures ValidElements(st, []) && ElementValues([]) == [] && ElementsFit([], depth) && ItemsFit([], depth)
    ensures ValidFields(st, []) && FieldValues([]) == [] && FieldsFit([], depth) && MembersFit([], depth)
  {
  }

  lemma {:induction false} PrintFieldText(m: Member, before: Gap, e: Element)
    requires e == Element(ONE_SPACE, PrintTree(m.value), []) && TreeText(PrintTree(m.value)) == Dump(m.value)
    ensures FieldText(Field(before, CharsFrom(m.key, 0), [], e)) == GapText(before) + DumpMember(m)
  {
    hide Dump, TreeText, PrintTree;
    OneSpace(STANDARD);
    CharsFromText(m.key, 0);
    assert Dump(m.value) + [] == Dump(m.value);
    assert [COLON] + ([SPACE] + Dump(m.value)) == [COLON, SPACE] + Dump(m.value);
    assert [] + ([COLON] + ElementText(e)) == [COLON] + ElementText(e);
  }

  lemma {:induction false} PrintFieldsMeaning(st: Strategy, ms: seq<Member>, before: Gap, depth: nat)
    requires DumpableMembers(ms) && |ms| > 0 && (before == [] || before == ONE_SPACE)
    ensures PrintedFields(st, ms, before, depth)
    decreases ms, 0
  {
    hide Dump, TreeText, TreeValue, Fits, JsonFits, ValidTree, PrintTree, FieldText, DumpMember, StringValue, CharsFrom;
    OneSpace(st);
    PrintTreeMeaning(st, ms[0].value, depth);
    CharsFromValue(ms[0].key, 0);
    var fs := PrintFields(ms, before);
    var e := Element(ONE_SPACE, PrintTree(ms[0].value), []);
    assert fs[0] == Field(before, CharsFrom(ms[0].key, 0), [], e);
    assert fs[1..] == PrintFields(ms[1..], ONE_SPACE);
    PrintFieldText(ms[0], before, e);
    assert ms[0] == Member(ms[0].key, ms[0].value);
    assert ValidElement(st, e) && ValidField(st, fs[0]);
    if |ms| == 1 {
      assert ms == [ms[0]];
      EmptyElements(st, depth);
      assert fs[1..] == [] && ms[1..] == [];
      assert FieldsText(fs) == GapText(before) + DumpMembers(ms);
    } else {
      PrintFieldsMeaning(st, ms[1..], ONE_SPACE, depth);
      assert [COMMA] + ([SPACE] + DumpMembers(ms[1..])) == [COMMA, SPACE] + DumpMembers(ms[1..]);
      Regroup(GapText(before), DumpMember(ms[0]), [COMMA, SPACE] + DumpMembers(ms[1..]));
      assert ms == [ms[0]] + ms[1..];
    }
  }

  /** Printing and parsing again gives the same value, with either strategy, exactly when no value
      sits under more than MAX_DEPTH containers; a deeper value is printed but not read back. */
  lemma {:induction false} RoundTrip(st: Strategy, v: Json)
    requires Dumpable(v)
    ensures if JsonFits(v, 0) then Read(st, Dump(v)) == Done(v, |Dump(v)|) else Read(st, Dump(v)).Fail?
  {
    hide Dump, TreeText, TreeValue, Fits, JsonFits, ValidTree, PrintTree, Read;
    PrintTreeMeaning(st, v, 0);
    var d := Document(Element([], PrintTree(v), []), []);
    ReadDocument(st, d);
    assert GapText([]) == [];
    assert DocumentText(d) == Dump(v);
  }

  // The depth limit in numbers

  /** So many brackets opened, and closed again. */
  function Brackets(n: nat): Bytes {
    if n == 0 then [] else [0x5B] + (Brackets(n - 1) + [0x5D])
  }

  function Nest(n: nat): Tree
    requires n > 0
  {
    if n == 1 then EmptyArray([]) else ArrayTree([Element([], Nest(n - 1), [])])
  }

  lemma {:induction false} NestIs(st: Strategy, n: nat, depth: nat)
    requires n > 0
    ensures ValidTree(st, Nest(n)) && TreeText(Nest(n)) == Brackets(n)
    ensures Fits(Nest(n), depth) <==> depth + n <= 201
  {
    if n == 1 {
      assert GapText([]) + [RIGHT_BRACKET] == Brackets(0) + [0x5D];
    } else {
      NestIs(st, n - 1, depth + 1);
      var t := Nest(n - 1);
      var e := Element([], t, []);
      NestText(t);
      assert ValidElement(st, e) && ValidElements(st, [e]);
      assert ElementsFit([e], depth + 1) <==> Fits(t, depth + 1);
    }
  }

  lemma {:induction false} NestText(t: Tree)
    ensures TreeText(ArrayTree([Element([], t, [])])) == [0x5B] + (TreeText(t) + [0x5D])
  {
    var e := Element([], t, []);
    assert GapText([]) == [];
    assert ElementText(e) == TreeText(t);
    assert ElementsText([e]) == TreeText(t);
  }

  /** Of nested arrays json11 reads 201, and no more. */
  lemma {:induction false} Reads201Arrays(st: Strategy, n: nat)
    requires n > 0
    ensures Read(st, Brackets(n)).Done? <==> n <= 201
  {
    var d := Document(Element([], Nest(n), []), []);
    NestIs(st, n, 0);
    hide Read, TreeText, Fits, ValidTree, Brackets, Nest;
    assert GapText([]) == [];
    assert DocumentText(d) == Brackets(n);
    ReadDocument(st, d);
  }
}
