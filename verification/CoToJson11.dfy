/** Text printed by the co JSON library is read by json11 to the same value: the way the border
    configuration takes when it is set. */
module CoToJson11 {
  import opened Options
  import opened ByteText
  import opened Decimal
  import opened JsonGrammar
  import opened JsonReader
  import opened JsonGapProofs
  import opened JsonStringProofs
  import opened JsonTheorems
  import J = JsonValue
  import opened CoValue

  /** The only control bytes are those the printer escapes. */
  predicate Clean(s: Bytes) {
    forall k :: 0 <= k < |s| ==> s[k] >= SPACE || IsSpecial(s[k])
  }

  /** Keys are printed as they are: nothing in them may need an escape. */
  predicate PlainKey(s: Bytes) {
    forall k :: 0 <= k < |s| ==> s[k] >= SPACE && !IsSpecial(s[k])
  }

  ghost predicate Portable(v: Value) {
    match v
    case Int(n) => -EXACT <= n <= EXACT
    case Double(_) => false
    case Str(s) => Clean(s)
    case Arr(vs) => PortableItems(vs)
    case Obj(ms) => PortableMembers(ms)
    case _ => true
  }

  ghost predicate PortableItems(vs: seq<Value>) {
    |vs| == 0 || (Portable(vs[0]) && PortableItems(vs[1..]))
  }

  ghost predicate PortableMembers(ms: seq<Member>) {
    |ms| == 0 || (PlainKey(ms[0].key) && Portable(ms[0].value) && PortableMembers(ms[1..]))
  }

  /** The same value in json11's terms. */
  function ToJson(v: Value): J.Json {
    match v
    case Null => J.Null
    case Bool(b) => J.Bool(b)
    case Int(n) => J.Number(J.Whole(n))
    case Double(text) => J.Number(J.Decimal(text))
    case Str(s) => J.String(s)
    case Arr(vs) => J.Array(ToItems(vs))
    case Obj(ms) => J.Object(J.Collect(ToMembers(ms)))
  }

  function ToItems(vs: seq<Value>): seq<J.Json> {
    if |vs| == 0 then [] else [ToJson(vs[0])] + ToItems(vs[1..])
  }

  function ToMembers(ms: seq<Member>): seq<J.Member> {
    if |ms| == 0 then [] else [J.Member(ms[0].key, ToJson(ms[0].value))] + ToMembers(ms[1..])
  }

  predicate CoFits(v: Value, depth: nat) {
    && depth <= MAX_DEPTH
    && match v
       case Arr(vs) => ItemsFit(vs, depth + 1)
       case Obj(ms) => MembersFit(ms, depth + 1)
       case _ => true
  }

  predicate ItemsFit(vs: seq<Value>, depth: nat) {
    |vs| == 0 || (CoFits(vs[0], depth) && ItemsFit(vs[1..], depth))
  }

  predicate MembersFit(ms: seq<Member>, depth: nat) {
    |ms| == 0 || (CoFits(ms[0].value, depth) && MembersFit(ms[1..], depth))
  }

  // Objects: `find` scans for the first member, the map keeps the last

  function Find(ms: seq<Member>, key: Bytes): Option<Value> {
    if |ms| == 0 then None else if ms[0].key == key then Some(ms[0].value) else Find(ms[1..], key)
  }

  predicate DistinctKeys(ms: seq<Member>) {
    forall i, j :: 0 <= i < j < |ms| ==> ms[i].key != ms[j].key
  }

  lemma {:induction false} ToMembersAt(ms: seq<Member>, i: nat)
    requires i < |ms|
    ensures |ToMembers(ms)| == |ms| && ToMembers(ms)[i] == J.Member(ms[i].key, ToJson(ms[i].value))
  {
    if |ms| > 1 {
      ToMembersAt(ms[1..], if i > 0 then i - 1 else 0);
    }
  }

  lemma {:induction false} FindIs(ms: seq<Member>, i: nat)
    requires i < |ms| && DistinctKeys(ms)
    ensures Find(ms, ms[i].key) == Some(ms[i].value)
  {
    if i > 0 {
      FindIs(ms[1..], i - 1);
    }
  }

  lemma {:induction false} FindNothing(ms: seq<Member>, key: Bytes)
    requires forall i :: 0 <= i < |ms| ==> ms[i].key != key
    ensures Find(ms, key) == None
  {
    if |ms| > 0 {
      FindNothing(ms[1..], key);
    }
  }

  lemma {:induction false} LookupNothing(ms: seq<J.Member>, key: Bytes)
    requires forall m :: m in ms ==> m.key != key
    ensures J.Lookup(ms, key) == None
  {
    if |ms| > 0 {
      assert ms[0] in ms;
      LookupNothing(ms[1..], key);
    }
  }

  /** With distinct keys both libraries find the same member under every key. */
  lemma {:induction false} LookupsAgree(ms: seq<Member>, key: Bytes)
    requires DistinctKeys(ms)
    ensures var found := J.Lookup(J.Collect(ToMembers(ms)), key);
            match Find(ms, key) case None => found == None case Some(v) => found == Some(ToJson(v))
  {
    var js := ToMembers(ms);
    if i: nat :| i < |ms| && ms[i].key == key {
      FindIs(ms, i);
      ToMembersAt(ms, i);
      forall j | i < j < |js| ensures js[j].key != js[i].key {
        ToMembersAt(ms, j);
      }
      J.CollectLookup(js, i);
    } else {
      FindNothing(ms, key);
      J.CollectOrder(js);
      forall m | m in J.Collect(js) ensures m.key != key {
        assert m in js;
        var j :| 0 <= j < |js| && js[j] == m;
        if |ms| > 0 {
          ToMembersAt(ms, 0);
          ToMembersAt(ms, j);
        }
      }
      LookupNothing(J.Collect(js), key);
    }
  }

  // The printed text as a syntax tree of json11's grammar

  function CharsOf(s: Bytes): seq<StrItem>
    requires Clean(s)
  {
    if |s| == 0 then []
    else [if IsSpecial(s[0]) then Escape(EscapeLetterOf(s[0])) else Raw(s[0])] + CharsOf(s[1..])
  }

  lemma {:induction false} CharsOfMeaning(s: Bytes)
    requires Clean(s)
    ensures CharsText(CharsOf(s)) == EscapeAll(s) && StringValue(CharsOf(s)) == s
  {
    if |s| == 0 {
      EmptyStringValue();
    } else {
      var c, rest := CharsOf(s)[0], CharsOf(s[1..]);
      CharsOfMeaning(s[1..]);
      UnitsCons(c, rest);
      JoinPairsCons(UnitOf(c), Units(rest));
      EncodedCons(UnitOf(c), JoinPairs(Units(rest)));
      assert CharsOf(s)[1..] == rest;
      assert UnitOf(c) == Literal(s[0]);
      assert s == [s[0]] + s[1..];
    }
  }

  lemma {:induction false} CleanText(s: Bytes)
    requires Clean(s)
    ensures Quoted(StringBody(s)) == StringText(CharsOf(s))
  {
    assert NUL !in s;
    StringBodyIsBytewise(s);
    CharsOfMeaning(s);
  }

  lemma {:induction false} PlainKeyText(s: Bytes)
    requires PlainKey(s)
    ensures EscapeAll(s) == s
  {
    if |s| > 0 {
      PlainKeyText(s[1..]);
      assert s == [s[0]] + s[1..];
    }
  }

  function TreeOf(v: Value): Tree {
    match v
    case Null => NullTree
    case Bool(b) => if b then TrueTree else FalseTree
    case Int(n) => NumberTree(NumberTreeOf(n))
    case Double(_) => NullTree
    case Str(s) => StringTree(if Clean(s) then CharsOf(s) else [])
    case Arr(vs) => if |vs| == 0 then EmptyArray([]) else ArrayTree(ElementsOf(vs))
    case Obj(ms) => if |ms| == 0 then EmptyObject([]) else ObjectTree(FieldsOf(ms))
  }

  function ElementsOf(vs: seq<Value>): seq<Element> {
    if |vs| == 0 then [] else [Element([], TreeOf(vs[0]), [])] + ElementsOf(vs[1..])
  }

  function FieldsOf(ms: seq<Member>): seq<Field> {
    if |ms| == 0 then []
    else [Field([], if Clean(ms[0].key) then CharsOf(ms[0].key) else [], [], Element([], TreeOf(ms[0].value), []))]
         + FieldsOf(ms[1..])
  }

  ghost predicate Prints(v: Value, t: Tree, depth: nat) {
    ValidTree(STANDARD, t) && TreeText(t) == Text(v) && TreeValue(t) == ToJson(v)
        && (Fits(t, depth) <==> CoFits(v, depth))
  }

  ghost predicate PrintsItems(vs: seq<Value>, depth: nat) {
    var es := ElementsOf(vs);
    && |es| == |vs| && ValidElements(STANDARD, es) && ElementsText(es) == ItemsText(vs)
    && ElementValues(es) == ToItems(vs) && (ElementsFit(es, depth) <==> ItemsFit(vs, depth))
  }

  ghost predicate PrintsMembers(ms: seq<Member>, depth: nat) {
    var fs := FieldsOf(ms);
    && |fs| == |ms| && ValidFields(STANDARD, fs) && FieldsText(fs) == MembersText(ms)
    && FieldValues(fs) == ToMembers(ms) && (FieldsFit(fs, depth) <==> MembersFit(ms, depth))
  }

  lemma {:induction false} TreeOfMeaning(v: Value, depth: nat)
    requires Portable(v)
    ensures Prints(v, TreeOf(v), depth)
    decreases v, 1
  {
    hide Prints, PrintsItems, PrintsMembers, TreeOf;
    match v
    case Arr(vs) =>
      ElementsOfMeaning(vs, depth + 1);
      ArrayMeaning(vs, depth);
    case Obj(ms) =>
      FieldsOfMeaning(ms, depth + 1);
      ObjectMeaning(ms, depth);
    case _ => ScalarMeaning(v, depth);
  }

  lemma {:induction false} ScalarMeaning(v: Value, depth: nat)
    requires Portable(v) && !v.Arr? && !v.Obj?
    ensures Prints(v, TreeOf(v), depth)
  {
    hide CharsOf, StringValue, CharsText, StringBody, EscapeAll, Clean, NumberTreeOf, NumberText, NumberValue,
      ValidNumber, IntText;
    match v
    case Null =>
    case Bool(_) =>
    case Int(n) => NumberTreeMeaning(n);
    case Str(s) =>
      CleanText(s);
      CharsOfMeaning(s);
  }

  lemma {:induction false} ArrayMeaning(vs: seq<Value>, depth: nat)
    requires PrintsItems(vs, depth + 1)
    ensures Prints(Arr(vs), TreeOf(Arr(vs)), depth)
  {
    hide ElementsText, ElementValues, ValidElements;
    if |vs| == 0 {
      EmptyElements(STANDARD, depth + 1);
      assert ElementsOf(vs) == [] && GapText([]) == [] && ElementsText([]) == [] by { NoElements(); }
    } else {
      hide ElementsOf, ItemsText, ElementsFit, ItemsFit, ToItems;
    }
  }

  lemma {:induction false} NoElements()
    ensures ElementsText([]) == [] && FieldsText([]) == [] && ItemsText([]) == [] && MembersText([]) == []
  {
  }

  lemma {:induction false} ObjectMeaning(ms: seq<Member>, depth: nat)
    requires PrintsMembers(ms, depth + 1)
    ensures Prints(Obj(ms), TreeOf(Obj(ms)), depth)
  {
    hide FieldsText, FieldValues, ValidFields;
    if |ms| == 0 {
      EmptyElements(STANDARD, depth + 1);
      NoElements();
      assert FieldsOf(ms) == [] && ms == [];
    } else {
      hide FieldsOf, MembersText, FieldsFit, MembersFit, ToMembers, J.Collect;
    }
  }

  lemma {:induction false} ElementsOfMeaning(vs: seq<Value>, depth: nat)
    requires PortableItems(vs)
    ensures PrintsItems(vs, depth)
    decreases vs, 0
  {
    hide Text, TreeText, TreeValue, ToJson, Fits, CoFits, ValidTree, TreeOf;
    if |vs| > 0 {
      TreeOfMeaning(vs[0], depth);
      ElementsOfMeaning(vs[1..], depth);
      var es := ElementsOf(vs);
      assert es[0] == Element([], TreeOf(vs[0]), []) && es[1..] == ElementsOf(vs[1..]);
      assert ElementText(es[0]) == Text(vs[0]) by {
        assert [] + (Text(vs[0]) + []) == Text(vs[0]);
      }
      assert ValidElement(STANDARD, es[0]);
    }
  }

  lemma {:induction false} FieldOfText(m: Member, f: Field)
    requires PlainKey(m.key) && f == Field([], CharsOf(m.key), [], Element([], TreeOf(m.value), []))
    requires TreeText(TreeOf(m.value)) == Text(m.value)
    ensures FieldText(f) == MemberText(m) && StringValue(f.name) == m.key
  {
    hide Text, TreeText, TreeOf;
    CharsOfMeaning(m.key);
    PlainKeyText(m.key);
    assert ElementText(f.element) == [] + (Text(m.value) + []) == Text(m.value);
    assert FieldText(f) == [] + (StringText(f.name) + ([] + ([COLON] + Text(m.value))));
    assert [] + ([COLON] + Text(m.value)) == [COLON] + Text(m.value);
  }

  lemma {:induction false} FieldsOfMeaning(ms: seq<Member>, depth: nat)
    requires PortableMembers(ms)
    ensures PrintsMembers(ms, depth)
    decreases ms, 0
  {
    hide Text, TreeText, TreeValue, ToJson, Fits, CoFits, ValidTree, TreeOf, FieldText, MemberText, StringValue,
      CharsOf;
    if |ms| > 0 {
      TreeOfMeaning(ms[0].value, depth);
      FieldsOfMeaning(ms[1..], depth);
      var fs := FieldsOf(ms);
      var f := Field([], CharsOf(ms[0].key), [], Element([], TreeOf(ms[0].value), []));
      assert fs[0] == f && fs[1..] == FieldsOf(ms[1..]);
      FieldOfText(ms[0], f);
      assert ValidElement(STANDARD, f.element) && ValidField(STANDARD, f);
    }
  }

  /** What json11 makes of printed text: the same value when it nests at most MAX_DEPTH deep, a
      refusal when it is deeper. */
  lemma {:induction false} PrintedTextIsRead(st: Strategy, v: Value)
    requires Portable(v)
    ensures var s := Text(v); if CoFits(v, 0) then Read(st, s) == Done(ToJson(v), |s|) else Read(st, s).Fail?
  {
    hide Prints, TreeOf, Read, TreeText, Text, ValidTree, TreeValue, ToJson, Fits, CoFits;
    TreeOfMeaning(v, 0);
    PrintedDocument(st, v, TreeOf(v));
  }

  lemma {:induction false} PrintedDocument(st: Strategy, v: Value, t: Tree)
    requires Prints(v, t, 0)
    ensures var s := Text(v); if CoFits(v, 0) then Read(st, s) == Done(ToJson(v), |s|) else Read(st, s).Fail?
  {
    hide TreeOf, Read, TreeText, Text, ValidTree, TreeValue, ToJson, Fits, CoFits;
    var d := Document(Element([], t, []), []);
    assert GapText([]) == [];
    assert DocumentText(d) == Text(v);
    if st.COMMENTS? { StandardTree(t); }
    ReadDocument(st, d);
  }

  // For strings the condition is exact

  lemma {:induction false} ReadPrefix(s: Bytes, i: nat, k: nat, last: int, out: Bytes, cs: seq<StrItem>)
    returns (last': int, out': Bytes)
    requires last < 0x10000 && Span(s, i, k, CharsText(cs))
    ensures last' < 0x10000 && ReadString(s, i, last, out) == ReadString(s, k, last', out')
    decreases |cs|
  {
    hide ReadString, Absorb, CharText;
    last', out' := last, out;
    if |cs| > 0 {
      var t := CharText(cs[0]);
      SpanSplit(s, i, k, t, CharsText(cs[1..]));
      ReadChar(s, i, last, out, cs[0]);
      var (l, o) := Absorb(last, out, cs[0]);
      last', out' := ReadPrefix(s, i + |t|, k, l, o, cs[1..]);
    }
  }

  /** A control byte after the text of clean characters is refused. */
  lemma {:induction false} ControlRefused(st: Strategy, u: Bytes, c: Byte, rest: Bytes)
    requires Clean(u) && c < SPACE
    ensures Read(st, [QUOTE] + (EscapeAll(u) + ([c] + rest))).Fail?
  {
    hide EscapeAll;
    var s := [QUOTE] + (EscapeAll(u) + ([c] + rest));
    assert s[0..|s|] == s;
    SpanByte(s, 0, |s|, QUOTE, EscapeAll(u) + ([c] + rest));
    SpanSplit(s, 1, |s|, EscapeAll(u), [c] + rest);
    var k := 1 + |EscapeAll(u)|;
    CharsOfMeaning(u);
    var last, out := ReadPrefix(s, 1, k, -1, [], CharsOf(u));
    assert s[k] == ([c] + rest)[0];
    assert ReadString(s, k, last, out).Fail?;
    NextTokenComplete(st, s, 0, 0, []);
    QuoteRead(st, s);
  }

  lemma {:induction false} QuoteRead(st: Strategy, s: Bytes)
    requires |s| > 0 && s[0] == QUOTE && NextToken(st, s, 0) == Done(QUOTE, 1) && ReadString(s, 1, -1, []).Fail?
    ensures Read(st, s).Fail?
  {
    hide NextToken, ReadString;
    assert ReadFrom(st, s, 0, 0).Fail?;
    assert ReadValue(st, s, 0, 0).Fail?;
  }

  /** A string comes back as it was exactly when its only control bytes are those the printer
      escapes: any other is refused, or, as a NUL, cuts the text short. */
  lemma {:induction false} StringSurvivesExactly(st: Strategy, s: Bytes)
    ensures Read(st, Text(Str(s))) == Done(J.String(s), |Text(Str(s))|) <==> Clean(s)
  {
    hide Read, EscapeAll, EscapedFrom;
    if Clean(s) {
      PrintedTextIsRead(st, Str(s));
    } else {
      var x := FirstUnclean(s, 0);
      var u := s[..x];
      assert s[0..x] == u;
      if FindSpecial(s, 0) == |s| {
        NoSpecialIsPlain(s, 0, x);
        assert s == u + ([s[x]] + s[x + 1..]);
        Regroup(u, [s[x]] + s[x + 1..], [QUOTE]);
        Regroup([s[x]], s[x + 1..], [QUOTE]);
        ControlRefused(st, u, s[x], s[x + 1..] + [QUOTE]);
      } else {
        EscapedFromIsBytewise(s, 0, x);
        if s[x] == NUL {
          CutAtNul(s, x);
          StringBodyIsBytewise(u);
          assert EscapeAll(u) + [] == EscapeAll(u);
          PrintedTextIsRead(st, Str(u));
        } else {
          EscapedByte(s, x);
          var more := EscapedFrom(s, x + 1);
          Regroup(EscapeAll(u), [s[x]] + more, [QUOTE]);
          Regroup([s[x]], more, [QUOTE]);
          ControlRefused(st, u, s[x], more + [QUOTE]);
        }
      }
    }
  }

  lemma {:induction false} CutAtNul(s: Bytes, x: nat)
    requires x < |s| && s[x] == NUL
    ensures EscapedFrom(s, x) == []
  {
  }

  lemma {:induction false} FirstUnclean(s: Bytes, i: nat) returns (x: nat)
    requires i <= |s| && !Clean(s) && Clean(s[..i])
    ensures x < |s| && s[x] < SPACE && !IsSpecial(s[x]) && Clean(s[..x])
    ensures forall k :: 0 <= k < x ==> s[k] != NUL
    decreases |s| - i
  {
    assert s[..|s|] == s;
    if s[i] < SPACE && !IsSpecial(s[i]) {
      x := i;
      forall k | 0 <= k < x ensures s[k] != NUL {
        assert s[k] == s[..i][k];
      }
    } else {
      var t := s[..i + 1];
      forall k | 0 <= k < |t| ensures t[k] >= SPACE || IsSpecial(t[k]) {
        if k < i { assert t[k] == s[..i][k]; }
      }
      x := FirstUnclean(s, i + 1);
    }
  }
}
