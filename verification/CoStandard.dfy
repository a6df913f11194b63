/** What the co parser makes of the texts of RFC 8259: which of them it reads, and that it reads them to the
    same value as the grammar, and so as json11, does. */
module CoStandard {
  import opened Options
  import opened ByteText
  import opened Decimal
  import opened Utf8
  import opened JsonGrammar
  import opened JsonStringProofs
  import JC = JsonCompleteness
  import JT = JsonTheorems
  import opened CoValue
  import opened CoTokens
  import opened CoReader
  import opened CoTheorems
  import opened CoRoundTrip
  import opened CoToJson11

  // Which texts

  predicate IsHighItem(c: StrItem) {
    c.Unicode? && IsHigh(Hex4(c.hex))
  }

  predicate IsLowItem(c: StrItem) {
    c.Unicode? && IsLow(Hex4(c.hex))
  }

  /** Every escaped high surrogate is followed by an escaped low one. */
  predicate Paired(cs: seq<StrItem>) {
    if |cs| == 0 then true
    else if IsHighItem(cs[0]) then |cs| >= 2 && IsLowItem(cs[1]) && Paired(cs[2..])
    else Paired(cs[1..])
  }

  predicate Unescaped(cs: seq<StrItem>) {
    forall k :: 0 <= k < |cs| ==> cs[k].Raw?
  }

  /** No escaped quote. */
  predicate QuoteFree(cs: seq<StrItem>) {
    forall k :: 0 <= k < |cs| ==> cs[k] != Escape(QUOTE)
  }

  /** Without a fraction there is no exponent; with one the text is one that `str::to_double` takes. */
  predicate AcceptedNumber(isDouble: Bytes -> bool, n: NumberSyntax) {
    if |n.fraction| == 0 then |n.exponent| == 0 else isDouble(NumberText(n))
  }

  predicate Accepted(isDouble: Bytes -> bool, t: Tree) {
    match t
    case NumberTree(n) => AcceptedNumber(isDouble, n)
    case StringTree(cs) => Paired(cs)
    case ArrayTree(es) => AcceptedElements(isDouble, es)
    case ObjectTree(fs) => AcceptedFields(isDouble, fs)
    case _ => true
  }

  predicate AcceptedElements(isDouble: Bytes -> bool, es: seq<Element>) {
    |es| == 0 || (Accepted(isDouble, es[0].tree) && AcceptedElements(isDouble, es[1..]))
  }

  predicate AcceptedFields(isDouble: Bytes -> bool, fs: seq<Field>) {
    |fs| == 0 || (Accepted(isDouble, fs[0].element.tree) && AcceptedFields(isDouble, fs[1..]))
  }

  /** No name has an escaped quote. */
  predicate SimpleNames(t: Tree) {
    match t
    case ArrayTree(es) => SimpleElements(es)
    case ObjectTree(fs) => SimpleFields(fs)
    case _ => true
  }

  predicate SimpleElements(es: seq<Element>) {
    |es| == 0 || (SimpleNames(es[0].tree) && SimpleElements(es[1..]))
  }

  predicate SimpleFields(fs: seq<Field>) {
    |fs| == 0 || (QuoteFree(fs[0].name) && SimpleNames(fs[0].element.tree) && SimpleFields(fs[1..]))
  }

  /** Every integer is one that a double holds, and no name has an escape. */
  predicate Kept(t: Tree) {
    match t
    case NumberTree(n) => |n.fraction| > 0 || -EXACT <= IntValue(IntegerText(n)) <= EXACT
    case ArrayTree(es) => KeptElements(es)
    case ObjectTree(fs) => KeptFields(fs)
    case _ => true
  }

  predicate KeptElements(es: seq<Element>) {
    |es| == 0 || (Kept(es[0].tree) && KeptElements(es[1..]))
  }

  predicate KeptFields(fs: seq<Field>) {
    |fs| == 0 || (Unescaped(fs[0].name) && Kept(fs[0].element.tree) && KeptFields(fs[1..]))
  }

  // White space

  lemma {:induction false} GapSkipped(s: Bytes, i: nat, j: nat, gap: Gap)
    requires ValidGap(STANDARD, gap) && Span(s, i, j, GapText(gap)) && !IsWhite(At(s, j))
    ensures JR.SkipWhite(s, i) == j
    decreases |gap|
  {
    if |gap| > 0 {
      assert ValidGapItem(STANDARD, gap[0]);
      SpanByte(s, i, j, gap[0].b, GapText(gap[1..]));
      GapSkipped(s, i + 1, j, gap[1..]);
    }
  }

  /** A gap before something that ends a token ends it. */
  lemma {:induction false} GapEndsToken(s: Bytes, i: nat, j: nat, gap: Gap)
    requires ValidGap(STANDARD, gap) && Span(s, i, j, GapText(gap)) && j < |s| && EndsToken(s[j])
    ensures EndsToken(s[i])
  {
    if |gap| > 0 {
      assert ValidGapItem(STANDARD, gap[0]);
      SpanByte(s, i, j, gap[0].b, GapText(gap[1..]));
    }
  }

  // Strings

  lemma {:induction false} EscapeTurn(s: Bytes, i: nat, out: Bytes)
    requires i + 2 <= |s| && s[i] == BACKSLASH && IsEscapeLetter(s[i + 1])
    ensures ReadText(s, i, out) == ReadText(s, i + 2, out + [EscapeValue(s[i + 1])])
  {
    assert FindStop(s, i) == i;
    assert out + s[i..i] == out;
  }

  lemma {:induction false} UnicodeTurn(s: Bytes, i: nat, out: Bytes)
    requires i + 2 <= |s| && s[i] == BACKSLASH && s[i + 1] == LOWER_U
    ensures ReadText(s, i, out) == match ReadUnicode(s, i + 2)
                                   case None => None
                                   case Some((text, q)) => ReadText(s, q + 1, out + text)
  {
    hide ReadUnicode;
    assert FindStop(s, i) == i;
    assert out + s[i..i] == out;
  }

  /** What one character adds to the value of a string. */
  lemma {:induction false} ValueOfFirst(c: StrItem, cs: seq<StrItem>)
    requires !IsHighItem(c)
    ensures StringValue([c] + cs)
            == (match UnitOf(c) case Literal(b) => [b] case Code(p) => Encode(p)) + StringValue(cs)
  {
    UnitsCons(c, cs);
    JoinPairsCons(UnitOf(c), Units(cs));
    EncodedCons(UnitOf(c), JoinPairs(Units(cs)));
  }

  lemma {:induction false} ValueOfPair(c: StrItem, d: StrItem, cs: seq<StrItem>)
    requires IsHighItem(c) && IsLowItem(d)
    ensures StringValue([c, d] + cs) == Encode(Combine(Hex4(c.hex), Hex4(d.hex))) + StringValue(cs)
  {
    assert ([c, d] + cs)[1..] == [d] + cs && ([d] + cs)[1..] == cs;
    var us := Units(cs);
    assert Units([c, d] + cs) == [UnitOf(c), UnitOf(d)] + us;
    JoinPairsPair(UnitOf(c), UnitOf(d), us);
    EncodedCons(Code(Combine(Hex4(c.hex), Hex4(d.hex))), JoinPairs(us));
  }

  lemma {:induction false} UnicodeAt(s: Bytes, i: nat, hex: HexQuad)
    requires Span(s, i, i + 6, CharText(Unicode(hex)))
    ensures s[i] == BACKSLASH && s[i + 1] == LOWER_U && JR.ReadHex(s, i + 2) == Some(hex)
  {
    SpanSplit(s, i, i + 6, [BACKSLASH, LOWER_U], hex);
    assert s[i..i + 2][0] == BACKSLASH && s[i..i + 2][1] == LOWER_U;
  }

  /** The second of two escapes that may be a pair. */
  lemma {:induction false} ReadLow(s: Bytes, i: nat, hex: HexQuad)
    requires i + 6 <= |s| && IsHigh(Hex4(hex)) && JR.ReadHex(s, i + 2) == Some(hex)
    ensures ReadUnicode(s, i + 2) ==
            if i + 8 <= |s| && s[i + 6] == BACKSLASH && s[i + 7] == LOWER_U then
              match JR.ReadHex(s, i + 8)
              case None => None
              case Some(g) => if IsLow(Hex4(g)) then Some((Encode(Combine(Hex4(hex), Hex4(g))), i + 11)) else None
            else None
  {
    hide Hex4, Encode, Combine, IsHigh, IsLow, JR.ReadHex;
  }

  /** Where the next character of a string stands, or its closing quote. */
  lemma {:induction false} NextChar(s: Bytes, i: nat, j: nat, cs: seq<StrItem>)
    requires Span(s, i, j, CharsText(cs) + [QUOTE])
    ensures i < j <= |s| && (|cs| == 0 ==> s[i] == QUOTE)
    ensures |cs| > 0 ==> var k := i + |CharText(cs[0])|;
              k < j && Span(s, i, k, CharText(cs[0])) && Span(s, k, j, CharsText(cs[1..]) + [QUOTE])
  {
    hide CharText;
    if |cs| == 0 {
      assert CharsText(cs) + [QUOTE] == [QUOTE] + [];
      SpanByte(s, i, j, QUOTE, []);
    } else {
      Regroup(CharText(cs[0]), CharsText(cs[1..]), [QUOTE]);
      SpanSplit(s, i, j, CharText(cs[0]), CharsText(cs[1..]) + [QUOTE]);
    }
  }

  /** An escaped high surrogate, and what follows. */
  lemma {:induction false} ReadHigh(s: Bytes, i: nat, j: nat, out: Bytes, cs: seq<StrItem>)
    requires |cs| > 0 && IsHighItem(cs[0]) && Span(s, i, j, CharsText(cs) + [QUOTE])
    ensures if |cs| >= 2 && IsLowItem(cs[1])
            then i + 12 <= j && Span(s, i + 12, j, CharsText(cs[2..]) + [QUOTE])
                 && ReadText(s, i, out) == ReadText(s, i + 12, out + Encode(Combine(Hex4(cs[0].hex), Hex4(cs[1].hex))))
            else ReadText(s, i, out) == None
  {
    hide Encode, Combine, Hex4, IsHigh, IsLow, ReadText, ReadUnicode, JR.ReadHex, CharsText, Span;
    NextChar(s, i, j, cs);
    UnicodeAt(s, i, cs[0].hex);
    UnicodeTurn(s, i, out);
    ReadLow(s, i, cs[0].hex);
    NextChar(s, i + 6, j, cs[1..]);
    if |cs| >= 2 {
      assert cs[1..][0] == cs[1] && cs[1..][1..] == cs[2..];
      if cs[1].Unicode? {
        UnicodeAt(s, i + 6, cs[1].hex);
      } else {
        NoUnicode(s, i + 6, cs[1]);
      }
    }
  }

  lemma {:induction false} NoUnicode(s: Bytes, i: nat, c: StrItem)
    requires Span(s, i, i + |CharText(c)|, CharText(c)) && !c.Unicode?
    ensures i < |s| && (s[i] == BACKSLASH ==> i + 1 < |s| && s[i + 1] != LOWER_U)
  {
    assert s[i] == CharText(c)[0];
    if c.Escape? {
      assert s[i + 1] == CharText(c)[1];
    }
  }

  lemma {:induction false} ReadItem(s: Bytes, i: nat, k: nat, out: Bytes, c: StrItem)
    requires !IsHighItem(c) && Span(s, i, k, CharText(c))
    ensures var text := match UnitOf(c) case Literal(b) => [b] case Code(p) => Encode(p);
            ReadText(s, i, out) == ReadText(s, k, out + text)
  {
    hide Encode, Combine, Hex4, IsHigh, ReadText, EscapeValue;
    assert s[i] == CharText(c)[0];
    match c
    case Raw(b) => PlainByte(s, i, out);
    case Escape(e) =>
      assert s[i + 1] == CharText(c)[1];
      EscapeTurn(s, i, out);
    case Unicode(hex) =>
      UnicodeAt(s, i, hex);
      UnicodeTurn(s, i, out);
  }

  /** Any other character. */
  lemma {:induction false} ReadOther(s: Bytes, i: nat, j: nat, out: Bytes, cs: seq<StrItem>)
    requires |cs| > 0 && !IsHighItem(cs[0]) && Span(s, i, j, CharsText(cs) + [QUOTE])
    ensures var k, text := i + |CharText(cs[0])|, match UnitOf(cs[0]) case Literal(b) => [b] case Code(p) => Encode(p);
            && k <= j && Span(s, k, j, CharsText(cs[1..]) + [QUOTE])
            && ReadText(s, i, out) == ReadText(s, k, out + text)
  {
    hide Encode, IsHighItem, ReadText, CharText, UnitOf;
    var t, rest := CharText(cs[0]), CharsText(cs[1..]);
    Regroup(t, rest, [QUOTE]);
    SpanSplit(s, i, j, t, rest + [QUOTE]);
    ReadItem(s, i, i + |t|, out, cs[0]);
  }

  /** A string is read to its value if its surrogates are paired, and refused otherwise. */
  lemma {:induction false} ReadChars(s: Bytes, i: nat, j: nat, out: Bytes, cs: seq<StrItem>)
    requires Span(s, i, j, CharsText(cs) + [QUOTE])
    ensures ReadText(s, i, out) == if Paired(cs) then Some((out + StringValue(cs), j - 1)) else None
    decreases |cs|
  {
    hide ReadText, StringValue, Encode, Combine, IsHigh, IsLow, CharText;
    if |cs| == 0 {
      assert CharsText(cs) + [QUOTE] == [QUOTE] + [];
      SpanByte(s, i, j, QUOTE, []);
      TextEnd(s, i, out);
      EmptyStringValue();
      assert out + [] == out;
    } else if IsHighItem(cs[0]) {
      ReadHigh(s, i, j, out, cs);
      if |cs| >= 2 && IsLowItem(cs[1]) {
        var text := Encode(Combine(Hex4(cs[0].hex), Hex4(cs[1].hex)));
        ReadChars(s, i + 12, j, out + text, cs[2..]);
        assert cs == [cs[0], cs[1]] + cs[2..];
        ValueOfPair(cs[0], cs[1], cs[2..]);
        Regroup(out, text, StringValue(cs[2..]));
      }
    } else {
      ReadOther(s, i, j, out, cs);
      var text := match UnitOf(cs[0]) case Literal(b) => [b] case Code(p) => Encode(p);
      ReadChars(s, i + |CharText(cs[0])|, j, out + text, cs[1..]);
      assert cs == [cs[0]] + cs[1..];
      ValueOfFirst(cs[0], cs[1..]);
      Regroup(out, text, StringValue(cs[1..]));
    }
  }

  /** A name without escapes is its own value. */
  lemma {:induction false} UnescapedValue(cs: seq<StrItem>)
    requires Unescaped(cs)
    ensures CharsText(cs) == StringValue(cs)
  {
    if |cs| == 0 {
      EmptyStringValue();
    } else {
      var rest := cs[1..];
      UnescapedValue(rest);
      assert cs == [cs[0]] + rest;
      ValueOfFirst(cs[0], rest);
    }
  }

  /** How many bytes a unit can at most become. */
  function Room(us: seq<Unit>): nat {
    if |us| == 0 then 0 else (if us[0].Literal? then 1 else 3) + Room(us[1..])
  }

  predicate FourHexDigits(us: seq<Unit>) {
    forall k :: 0 <= k < |us| && us[k].Code? ==> us[k].point < 0x10000
  }

  lemma {:induction false} FitsRoom(us: seq<Unit>)
    requires FourHexDigits(us)
    ensures |Encoded(JoinPairs(us))| <= Room(us)
    decreases |us|
  {
    if |us| > 0 {
      var rest := us[1..];
      if |us| >= 2 && us[0].Code? && us[1].Code? && IsHigh(us[0].point) && IsLow(us[1].point) {
        var more := us[2..];
        FitsRoom(more);
        assert us == [us[0], us[1]] + more && rest == [us[1]] + more && rest[1..] == more;
        JoinPairsPair(us[0], us[1], more);
        EncodedCons(Code(Combine(us[0].point, us[1].point)), JoinPairs(more));
      } else {
        FitsRoom(rest);
        assert us == [us[0]] + rest;
        EncodedCons(us[0], JoinPairs(rest));
      }
    }
  }

  lemma {:induction false} EscapesTakeMore(cs: seq<StrItem>)
    ensures FourHexDigits(Units(cs)) && Room(Units(cs)) <= |CharsText(cs)|
    ensures !Unescaped(cs) ==> Room(Units(cs)) < |CharsText(cs)|
  {
    if |cs| > 0 {
      EscapesTakeMore(cs[1..]);
      assert Units(cs)[1..] == Units(cs[1..]);
      if cs[0].Unicode? {
        assert IsHexQuad(cs[0].hex);
      }
    }
  }

  /** The spelling of a name, which the co parser keeps, is its value exactly when it has no escapes. */
  lemma {:induction false} SpellingIsValue(cs: seq<StrItem>)
    ensures CharsText(cs) == StringValue(cs) <==> Unescaped(cs)
  {
    hide Units, JoinPairs, Encoded, Unescaped, Room, FourHexDigits;
    if Unescaped(cs) {
      UnescapedValue(cs);
    } else {
      EscapesTakeMore(cs);
      FitsRoom(Units(cs));
    }
  }

  lemma {:induction false} NameBytes(cs: seq<StrItem>)
    requires QuoteFree(cs)
    ensures NUL !in CharsText(cs) && QUOTE !in CharsText(cs)
  {
    hide QuoteFree;
    if |cs| > 0 {
      NameFirst(cs);
      NameBytes(cs[1..]);
    }
  }

  lemma {:induction false} NameFirst(cs: seq<StrItem>)
    requires QuoteFree(cs) && |cs| > 0
    ensures QuoteFree(cs[1..]) && NUL !in CharText(cs[0]) && QUOTE !in CharText(cs[0])
  {
    match cs[0]
    case Raw(_) =>
    case Escape(_) =>
    case Unicode(hex) =>
      assert IsHexQuad(hex);
  }

  // Numbers

  lemma {:induction false} TokenEndAfterDot(s: Bytes, i: nat, m: nat, j: nat)
    requires i <= m < j < |s| && s[m] == DOT && EndsToken(s[j])
    requires forall k :: i <= k < j && k != m ==> !EndsToken(s[k]) && s[k] != DOT
    ensures TokenEnd(s, i, 0) == (j, 1)
    decreases m - i
  {
    if i < m {
      TokenEndAfterDot(s, i + 1, m, j);
    } else {
      TokenEndIs(s, m + 1, j, 1);
    }
  }

  /** What a number's text is made of. */
  predicate NumberByte(b: Byte) {
    IsDigit(b) || b == MINUS || b == PLUS || b == LOWER_E || b == UPPER_E
  }

  predicate NumberBytes(t: Bytes) {
    forall k :: 0 <= k < |t| ==> NumberByte(t[k])
  }

  lemma {:induction false} NumberParts(n: NumberSyntax)
    requires ValidNumber(n)
    ensures |IntegerText(n)| > 0 && NumberBytes(IntegerText(n)) && NumberBytes(n.fraction)
            && NumberBytes(ExponentText(n))
    ensures IntegerText(n)[0] == MINUS || IsDigit(IntegerText(n)[0])
    ensures |n.fraction| == 0 ==> NumberText(n) == IntegerText(n) + ExponentText(n)
    ensures |n.fraction| > 0 ==> NumberText(n) == IntegerText(n) + ([DOT] + (n.fraction + ExponentText(n)))
  {
    Regroup([DOT], n.fraction, ExponentText(n));
  }

  /** An exponent keeps a text from being an integer. */
  lemma {:induction false} IntegerOrNot(n: NumberSyntax)
    requires ValidNumber(n) && |n.fraction| == 0
    ensures var w := NumberText(n);
            |w| > 0 && (IsInteger(w) <==> |n.exponent| == 0) && (|n.exponent| == 0 ==> w == IntegerText(n))
  {
    hide ExponentText;
    NumberParts(n);
    var w, whole := NumberText(n), IntegerText(n);
    if |n.exponent| == 0 {
      NoExponent(n);
      assert w == whole;
      assert DigitsOf(w) == n.whole;
    } else {
      MarkFirst(n);
      assert w[|whole|] == n.mark;
      assert DigitsOf(w)[|n.whole|] == n.mark;
    }
  }

  lemma {:induction false} NoExponent(n: NumberSyntax)
    requires |n.exponent| == 0
    ensures ExponentText(n) == []
  {
  }

  lemma {:induction false} MarkFirst(n: NumberSyntax)
    requires |n.exponent| > 0
    ensures |ExponentText(n)| > 0 && ExponentText(n)[0] == n.mark
  {
  }

  lemma {:induction false} WholeToken(c: Config, s: Bytes, i: nat, j: nat, n: NumberSyntax)
    requires ValidNumber(n) && |n.fraction| == 0
    requires Span(s, i, j, NumberText(n)) && j < |s| && EndsToken(s[j])
    ensures i < j && ReadToken(c, s, i)
                  == if |n.exponent| == 0 then Some((PInt(Wrap(IntValue(IntegerText(n)))), j - 1)) else None
  {
    hide IntValue, NatValue, Wrap, ExponentText, NumberText, IsInteger, Digits;
    NumberParts(n);
    IntegerOrNot(n);
    var w := NumberText(n);
    assert w[0] == IntegerText(n)[0];
    TokenRead(c, s, i, j, w);
  }

  lemma {:induction false} FractionToken(c: Config, s: Bytes, i: nat, j: nat, n: NumberSyntax)
    requires ValidNumber(n) && |n.fraction| > 0
    requires Span(s, i, j, NumberText(n)) && j < |s| && EndsToken(s[j])
    ensures i < j && ReadToken(c, s, i)
            == if c.isDouble(NumberText(n)) then Some((PDouble(NumberText(n)), j - 1)) else None
  {
    hide ExponentText, IntegerText, NumberText, Digits;
    NumberParts(n);
    var w, rest := IntegerText(n), n.fraction + ExponentText(n);
    SpanSplit(s, i, j, w, [DOT] + rest);
    var m := i + |w|;
    SpanByte(s, m, j, DOT, rest);
    forall k | i + 1 <= k < j && k != m ensures !EndsToken(s[k]) && s[k] != DOT {
      if k < m {
        assert s[k] == w[k - i];
      } else {
        assert s[k] == rest[k - m - 1];
      }
    }
    TokenEndAfterDot(s, i + 1, m, j);
    assert s[i] == w[0];
    assert s[i..j] == NumberText(n);
  }

  // Values

  /** A tree is read to its end, and to its value if that can be kept, or it is refused. */
  ghost predicate Answers(c: Config, r: Parsed<PValue>, t: Tree, j: int) {
    if Accepted(c.isDouble, t) then
      r.Ok? && r.last == j - 1 && (Kept(t) ==> ToJson(Resolve(r.value, r.keys.data)) == TreeValue(t))
    else r == Bad
  }

  predicate IsContainer(t: Tree) {
    t.EmptyArray? || t.ArrayTree? || t.EmptyObject? || t.ObjectTree?
  }

  /** Only words and numbers need something after them. */
  predicate Ended(s: Bytes, j: nat, t: Tree) {
    IsContainer(t) || t.StringTree? || (j < |s| && EndsToken(s[j]))
  }

  lemma {:induction false} ReadNumberTree(c: Config, s: Bytes, i: nat, j: nat, n: NumberSyntax, keys: Keys)
    requires ValidNumber(n)
    requires Span(s, i, j, NumberText(n)) && j < |s| && EndsToken(s[j])
    ensures i < j && Answers(c, ReadValue(c, s, i, keys), NumberTree(n), j)
  {
    hide IntValue, ReadToken, NumberText, IntegerText, ValidNumber;
    JC.TreeStart(STANDARD, NumberTree(n));
    assert s[i] == NumberText(n)[0];
    if |n.fraction| == 0 {
      WholeToken(c, s, i, j, n);
    } else {
      FractionToken(c, s, i, j, n);
    }
  }

  lemma {:induction false} ReadScalarTree(c: Config, s: Bytes, i: nat, j: nat, t: Tree, keys: Keys)
    requires ValidTree(STANDARD, t) && !IsContainer(t)
    requires Span(s, i, j, TreeText(t)) && Ended(s, j, t)
    ensures i < j && Answers(c, ReadValue(c, s, i, keys), t, j)
  {
    hide ReadText, ReadToken, TokenValue, ValidNumber, AcceptedNumber, NumberText, StringValue, Paired;
    JC.TreeStart(STANDARD, t);
    assert s[i] == TreeText(t)[0];
    WordTokens(c);
    match t
    case NumberTree(n) => ReadNumberTree(c, s, i, j, n, keys);
    case StringTree(cs) =>
      SpanByte(s, i, j, QUOTE, CharsText(cs) + [QUOTE]);
      ReadChars(s, i + 1, j, [], cs);
      assert [] + StringValue(cs) == StringValue(cs);
    case _ => TokenRead(c, s, i, j, TreeText(t));
  }

  /** A closing bracket after white space. */
  lemma {:induction false} NothingInside(c: Config, s: Bytes, b: nat, j: nat, gap: Gap, keys: Keys)
    requires ValidGap(STANDARD, gap)
    ensures Span(s, b, j, GapText(gap) + [RIGHT_BRACKET]) ==> b < j && ReadItems(c, s, b, keys) == Ok([], j - 1, keys)
    ensures Span(s, b, j, GapText(gap) + [RIGHT_BRACE]) ==> b < j && ReadMembers(c, s, b, keys) == Ok([], j - 1, keys)
  {
    hide GapText;
    if Span(s, b, j, GapText(gap) + [RIGHT_BRACKET]) {
      SpanSplit(s, b, j, GapText(gap), [RIGHT_BRACKET]);
      assert s[j - 1] == s[j - 1..j][0];
      GapSkipped(s, b, j - 1, gap);
    }
    if Span(s, b, j, GapText(gap) + [RIGHT_BRACE]) {
      SpanSplit(s, b, j, GapText(gap), [RIGHT_BRACE]);
      assert s[j - 1] == s[j - 1..j][0];
      GapSkipped(s, b, j - 1, gap);
    }
  }

  lemma {:induction false} ReadEmpty(c: Config, s: Bytes, i: nat, j: nat, t: Tree, keys: Keys)
    requires ValidTree(STANDARD, t) && (t.EmptyArray? || t.EmptyObject?) && Span(s, i, j, TreeText(t))
    ensures i < j && Answers(c, ReadValue(c, s, i, keys), t, j)
  {
    hide ReadText, ReadToken, ReadItems, ReadMembers, J.Collect, GapText;
    NothingResolved(keys.data);
    if t.EmptyArray? {
      SpanByte(s, i, j, LEFT_BRACKET, GapText(t.inside) + [RIGHT_BRACKET]);
      NothingInside(c, s, i + 1, j, t.inside, keys);
    } else {
      SpanByte(s, i, j, LEFT_BRACE, GapText(t.inside) + [RIGHT_BRACE]);
      NothingInside(c, s, i + 1, j, t.inside, Open(c, keys));
    }
  }

  lemma {:induction false} ReadTree(c: Config, s: Bytes, i: nat, j: nat, t: Tree, keys: Keys)
    requires ValidTree(STANDARD, t) && SimpleNames(t)
    requires Span(s, i, j, TreeText(t)) && Ended(s, j, t)
    ensures i < j && Answers(c, ReadValue(c, s, i, keys), t, j)
    decreases t, 2
  {
    hide ReadText, ReadToken, ReadItems, ReadMembers, ElementsText, FieldsText, J.Collect, GapText;
    match t
    case EmptyArray(_) =>
      ReadEmpty(c, s, i, j, t, keys);
    case ArrayTree(es) =>
      SpanByte(s, i, j, LEFT_BRACKET, ElementsText(es) + [RIGHT_BRACKET]);
      ReadElements(c, s, i + 1, j, es, keys);
    case EmptyObject(_) =>
      ReadEmpty(c, s, i, j, t, keys);
    case ObjectTree(fs) =>
      SpanByte(s, i, j, LEFT_BRACE, FieldsText(fs) + [RIGHT_BRACE]);
      ReadFields(c, s, i + 1, j, fs, Open(c, keys));
    case _ =>
      ReadScalarTree(c, s, i, j, t, keys);
  }

  lemma {:induction false} NothingResolved(data: Bytes)
    ensures ToItems(ResolveItems([], data)) == [] && ToMembers(ResolveMembers([], data)) == [] && J.Collect([]) == []
  {
  }

  // Arrays

  lemma {:induction false} StartIsToken(t: Tree, c: Byte)
    requires JC.Starts(t, c)
    ensures !IsWhite(c) && c != RIGHT_BRACKET && c != RIGHT_BRACE
  {
  }

  /** Where an element's value begins and ends, and where the gap after it ends. */
  lemma {:induction false} ValuePlaces(s: Bytes, i: nat, j: nat, e: Element, rest: Bytes)
    returns (v: nat, a: nat, t: nat)
    requires ValidElement(STANDARD, e)
             && Span(s, i, j, (GapText(e.before) + TreeText(e.tree)) + (GapText(e.after) + rest))
    requires |rest| > 0 && (rest[0] == COMMA || rest[0] == RIGHT_BRACE || rest[0] == RIGHT_BRACKET)
    ensures i <= v < a <= t < |s| && JR.SkipWhite(s, i) == v && JR.SkipWhite(s, a) == t
    ensures Span(s, v, a, TreeText(e.tree)) && EndsToken(s[a]) && Span(s, t, j, rest)
    ensures s[v] != RIGHT_BRACKET && s[t] == rest[0]
  {
    hide TreeText, GapText, JC.Starts, ValidTree, JR.SkipWhite;
    SpanSplit(s, i, j, GapText(e.before) + TreeText(e.tree), GapText(e.after) + rest);
    v := i + |GapText(e.before)|;
    a := v + |TreeText(e.tree)|;
    SpanSplit(s, i, a, GapText(e.before), TreeText(e.tree));
    SpanSplit(s, a, j, GapText(e.after), rest);
    t := a + |GapText(e.after)|;
    JC.TreeStart(STANDARD, e.tree);
    assert s[v] == TreeText(e.tree)[0];
    StartIsToken(e.tree, s[v]);
    assert s[t] == rest[0];
    GapSkipped(s, i, v, e.before);
    GapSkipped(s, a, t, e.after);
    GapEndsToken(s, a, t, e.after);
  }

  /** The same for the first element of an array. */
  lemma {:induction false} ElementPlaces(s: Bytes, b: nat, j: nat, es: seq<Element>) returns (k: nat, a: nat, t: nat)
    requires |es| > 0 && ValidElements(STANDARD, es) && Span(s, b, j, ElementsText(es) + [RIGHT_BRACKET])
    ensures k < a <= t < |s| && JR.SkipWhite(s, b) == k && JR.SkipWhite(s, a) == t
    ensures Span(s, k, a, TreeText(es[0].tree)) && EndsToken(s[a]) && Span(s, t, j, JC.ElementsRest(es))
    ensures s[k] != RIGHT_BRACKET && s[t] == if |es| == 1 then RIGHT_BRACKET else COMMA
  {
    hide TreeText, GapText, ElementText, ElementsText, ValidTree, JR.SkipWhite, Span, EndsToken;
    var e, rest := es[0], JC.ElementsRest(es);
    JC.ElementsShape(es);
    Regroup(GapText(e.before), TreeText(e.tree), GapText(e.after) + rest);
    k, a, t := ValuePlaces(s, b, j, e, rest);
  }

  /** One turn of the loop over the items. */
  lemma {:induction false} TurnItems(c: Config, s: Bytes, b: nat, k: nat, a: nat, t: nat, keys: Keys)
    requires b <= |s| && k < a <= t < |s| && JR.SkipWhite(s, b) == k && JR.SkipWhite(s, a) == t && s[k] != RIGHT_BRACKET
    requires ReadValue(c, s, k, keys).Ok? && ReadValue(c, s, k, keys).last == a - 1
    ensures var v := ReadValue(c, s, k, keys);
            && (s[t] == RIGHT_BRACKET ==> ReadItems(c, s, b, keys) == Ok([v.value], t, v.keys))
            && (s[t] == COMMA ==> ReadItems(c, s, b, keys) == Prepend([v.value], ReadItems(c, s, t + 1, v.keys)))
  {
    hide ReadValue, JR.SkipWhite;
  }

  lemma {:induction false} ItemRefused(c: Config, s: Bytes, b: nat, k: nat, keys: Keys)
    requires b <= |s| && k < |s| && JR.SkipWhite(s, b) == k && s[k] != RIGHT_BRACKET && ReadValue(c, s, k, keys) == Bad
    ensures ReadItems(c, s, b, keys) == Bad
  {
    hide ReadValue, JR.SkipWhite;
  }

  lemma {:induction false} AfterElement(s: Bytes, t: nat, j: nat, es: seq<Element>)
    requires |es| > 0 && Span(s, t, j, JC.ElementsRest(es))
    ensures if |es| == 1 then t + 1 == j else Span(s, t + 1, j, ElementsText(es[1..]) + [RIGHT_BRACKET])
  {
    hide ElementsText;
    if |es| > 1 { SpanByte(s, t, j, COMMA, ElementsText(es[1..]) + [RIGHT_BRACKET]); }
  }

  lemma {:induction false} ReadElements(c: Config, s: Bytes, b: nat, j: nat, es: seq<Element>, keys: Keys)
    requires |es| > 0 && ValidElements(STANDARD, es) && SimpleElements(es)
    requires Span(s, b, j, ElementsText(es) + [RIGHT_BRACKET])
    ensures var r := ReadItems(c, s, b, keys);
            if AcceptedElements(c.isDouble, es) then
              && b < j && r.Ok? && r.last == j - 1
              && (KeptElements(es) ==> ToItems(ResolveItems(r.value, r.keys.data)) == ElementValues(es))
            else r == Bad
    decreases es, 0
  {
    hide ReadValue, ReadItems, Resolve, ToJson, TreeText, TreeValue, ElementText, ElementsText, JC.ElementsRest,
      GapText, ValidTree, Accepted, SimpleNames, Kept, JR.SkipWhite, ToItems, ResolveItems;
    var k, a, t := ElementPlaces(s, b, j, es);
    var e := es[0];
    ReadTree(c, s, k, a, e.tree, keys);
    AfterElement(s, t, j, es);
    var r := ReadValue(c, s, k, keys);
    if r == Bad {
      ItemRefused(c, s, b, k, keys);
      return;
    }
    TurnItems(c, s, b, k, a, t, keys);
    if |es| == 1 {
      OneItem(r.value, r.keys.data);
      assert es[1..] == [] && ElementValues(es[1..]) == [] && AcceptedElements(c.isDouble, es[1..]);
    } else {
      ReadElements(c, s, t + 1, j, es[1..], r.keys);
      var rest := ReadItems(c, s, t + 1, r.keys);
      if rest == Bad {
        return;
      }
      ItemsJoined(c, s, k, t + 1, keys, r.value, r.keys);
      ToItemsCons(Resolve(r.value, r.keys.data), ResolveItems(rest.value, rest.keys.data));
    }
  }

  lemma {:induction false} OneItem(v: PValue, data: Bytes)
    ensures ToItems(ResolveItems([v], data)) == [ToJson(Resolve(v, data))]
  {
    hide Resolve, ToJson;
    assert [v][1..] == [] && ResolveItems([], data) == [];
    var w := Resolve(v, data);
    assert [w][1..] == [] && ToItems([]) == [];
  }

  lemma {:induction false} ToItemsCons(v: Value, vs: seq<Value>)
    ensures ToItems([v] + vs) == [ToJson(v)] + ToItems(vs)
  {
    assert ([v] + vs)[1..] == vs;
  }

  // Objects

  lemma {:induction false} NamePlace(s: Bytes, k: nat, j: nat, name: seq<StrItem>, tail: Bytes) returns (p: nat)
    requires QuoteFree(name) && k < |s| && Span(s, k + 1, j, (CharsText(name) + [QUOTE]) + tail)
    ensures k < p < |s| && FindQuote(s, k + 1) == p && s[k + 1..p] == CharsText(name) && Span(s, p + 1, j, tail)
  {
    hide FindQuote, CharsText, QuoteFree;
    var text := CharsText(name);
    NameBytes(name);
    SpanSplit(s, k + 1, j, text + [QUOTE], tail);
    p := k + 1 + |text|;
    SpanSplit(s, k + 1, p + 1, text, [QUOTE]);
    assert s[p] == s[p..p + 1][0];
    forall x | k + 1 <= x < p ensures s[x] != QUOTE {
      assert s[x] == text[x - k - 1];
    }
    FindQuoteIs(s, k + 1, p);
  }

  lemma {:induction false} ColonPlace(s: Bytes, i: nat, j: nat, gap: Gap, tail: Bytes) returns (q: nat)
    requires ValidGap(STANDARD, gap) && Span(s, i, j, (GapText(gap) + [COLON]) + tail)
    ensures i <= q < |s| && JR.SkipWhite(s, i) == q && s[q] == COLON && Span(s, q + 1, j, tail)
  {
    hide GapText, JR.SkipWhite;
    SpanSplit(s, i, j, GapText(gap) + [COLON], tail);
    q := i + |GapText(gap)|;
    SpanSplit(s, i, q + 1, GapText(gap), [COLON]);
    assert s[q] == s[q..q + 1][0];
    GapSkipped(s, i, q, gap);
  }

  /** Where the key of a field ends, its value begins and ends, and the gap after that ends. */
  lemma {:induction false} FieldPlaces(s: Bytes, k: nat, j: nat, f: Field, rest: Bytes)
    returns (p: nat, q: nat, v: nat, a: nat, t: nat)
    requires ValidField(STANDARD, f) && QuoteFree(f.name) && k < |s| && Span(s, k + 1, j, JC.FieldRest(f, rest))
    requires |rest| > 0 && (rest[0] == COMMA || rest[0] == RIGHT_BRACE)
    ensures k < p < q < v < a <= t < |s| && FindQuote(s, k + 1) == p && s[k + 1..p] == CharsText(f.name)
    ensures JR.SkipWhite(s, p + 1) == q && s[q] == COLON && JR.SkipWhite(s, q + 1) == v && JR.SkipWhite(s, a) == t
    ensures Span(s, v, a, TreeText(f.element.tree)) && EndsToken(s[a]) && Span(s, t, j, rest)
  {
    hide TreeText, GapText, ValidTree, JR.SkipWhite, FindQuote, CharsText, QuoteFree, Span;
    var e := f.element;
    var value := (GapText(e.before) + TreeText(e.tree)) + (GapText(e.after) + rest);
    p := NamePlace(s, k, j, f.name, (GapText(f.after) + [COLON]) + value);
    q := ColonPlace(s, p + 1, j, f.after, value);
    v, a, t := ValuePlaces(s, q + 1, j, e, rest);
  }

  lemma {:induction false} MemberIs(c: Config, s: Bytes, k: nat, p: nat, q: nat, v: nat, keys: Keys)
    requires k < p < q < v < |s| && s[k] == QUOTE && FindQuote(s, k + 1) == p
    requires JR.SkipWhite(s, p + 1) == q && s[q] == COLON && JR.SkipWhite(s, q + 1) == v
    ensures ReadMember(c, s, k, keys) ==
            match ReadValue(c, s, v, keys.(data := keys.data + s[k + 1..p] + [NUL]))
              case Bad => Bad
              case Ok(value, last, keys') => Ok(PMember(|keys.data|, value), last, keys')
  {
    hide ReadValue, JR.SkipWhite, FindQuote;
  }

  lemma {:induction false} ReadField(c: Config, s: Bytes, k: nat, j: nat, f: Field, rest: Bytes, keys: Keys)
    returns (a: nat, t: nat)
    requires ValidField(STANDARD, f) && QuoteFree(f.name) && SimpleNames(f.element.tree)
    requires k < |s| && s[k] == QUOTE && Span(s, k + 1, j, JC.FieldRest(f, rest))
    requires |rest| > 0 && (rest[0] == COMMA || rest[0] == RIGHT_BRACE)
    ensures k < a <= t < |s| && JR.SkipWhite(s, a) == t && Span(s, t, j, rest)
    ensures var r := ReadMember(c, s, k, keys);
            if Accepted(c.isDouble, f.element.tree) then
              && r.Ok? && r.last == a - 1
              && var m := ResolveMember(r.value, r.keys.data);
                 m.key == CharsText(f.name) && (Kept(f.element.tree) ==> ToJson(m.value) == TreeValue(f.element.tree))
            else r == Bad
    decreases f, 0
  {
    hide ReadMember, ReadValue, Resolve, KeyAt, ToJson, TreeText, TreeValue, StringValue, JC.FieldRest, ValidTree,
      Accepted, SimpleNames, Kept, FindQuote, JR.SkipWhite, QuoteFree, CharsText;
    var p, q, v;
    p, q, v, a, t := FieldPlaces(s, k, j, f, rest);
    NameBytes(f.name);
    var with := keys.(data := keys.data + CharsText(f.name) + [NUL]);
    ReadTree(c, s, v, a, f.element.tree, with);
    MemberIs(c, s, k, p, q, v, keys);
    if ReadValue(c, s, v, with).Ok? {
      ReadValueGrows(c, s, v, with);
      KeyKept(keys.data, CharsText(f.name), ReadValue(c, s, v, with).keys.data);
    }
  }

  lemma {:induction false} TurnMembers(c: Config, s: Bytes, b: nat, k: nat, a: nat, t: nat, keys: Keys)
    requires b <= |s| && k < a <= t < |s| && JR.SkipWhite(s, b) == k && JR.SkipWhite(s, a) == t && s[k] == QUOTE
    requires ReadMember(c, s, k, keys).Ok? && ReadMember(c, s, k, keys).last == a - 1
    ensures var m := ReadMember(c, s, k, keys);
            && (s[t] == RIGHT_BRACE ==> ReadMembers(c, s, b, keys) == Ok([m.value], t, m.keys))
            && (s[t] == COMMA ==> ReadMembers(c, s, b, keys) == Prepend([m.value], ReadMembers(c, s, t + 1, m.keys)))
  {
    hide ReadMember, JR.SkipWhite;
  }

  lemma {:induction false} MemberRefused(c: Config, s: Bytes, b: nat, k: nat, keys: Keys)
    requires b <= |s| && k < |s| && JR.SkipWhite(s, b) == k && s[k] == QUOTE && ReadMember(c, s, k, keys) == Bad
    ensures ReadMembers(c, s, b, keys) == Bad
  {
    hide ReadMember, JR.SkipWhite;
  }

  lemma {:induction false} FieldStart(s: Bytes, b: nat, j: nat, fs: seq<Field>) returns (k: nat)
    requires |fs| > 0 && ValidFields(STANDARD, fs) && Span(s, b, j, FieldsText(fs) + [RIGHT_BRACE])
    ensures b <= k < |s| && JR.SkipWhite(s, b) == k && s[k] == QUOTE
            && Span(s, k + 1, j, JC.FieldRest(fs[0], JC.FieldsRest(fs)))
  {
    hide JR.SkipWhite, GapText, FieldText, FieldsText, JC.FieldRest, JC.FieldsRest, ValidTree;
    var f := fs[0];
    JC.FieldsShape(fs);
    SpanSplit(s, b, j, GapText(f.before) + [QUOTE], JC.FieldRest(f, JC.FieldsRest(fs)));
    k := b + |GapText(f.before)|;
    SpanSplit(s, b, k + 1, GapText(f.before), [QUOTE]);
    assert s[k] == s[k..k + 1][0];
    GapSkipped(s, b, k, f.before);
  }

  lemma {:induction false} ReadFields(c: Config, s: Bytes, b: nat, j: nat, fs: seq<Field>, keys: Keys)
    requires |fs| > 0 && ValidFields(STANDARD, fs) && SimpleFields(fs)
    requires Span(s, b, j, FieldsText(fs) + [RIGHT_BRACE])
    ensures var r := ReadMembers(c, s, b, keys);
            if AcceptedFields(c.isDouble, fs) then
              && b < j && r.Ok? && r.last == j - 1
              && (KeptFields(fs) ==> ToMembers(ResolveMembers(r.value, r.keys.data)) == FieldValues(fs))
            else r == Bad
    decreases fs, 1
  {
    hide ReadMember, ReadMembers, ResolveMember, ToJson, TreeText, TreeValue, StringValue, FieldText, JC.FieldRest,
      GapText, ValidTree, Accepted, SimpleNames, Kept, JR.SkipWhite, Unescaped, QuoteFree, CharsText;
    var f, tail := fs[0], JC.FieldsRest(fs);
    var k := FieldStart(s, b, j, fs);
    var a, t := ReadField(c, s, k, j, f, tail, keys);
    assert s[t] == tail[0];
    var r := ReadMember(c, s, k, keys);
    if r == Bad {
      MemberRefused(c, s, b, k, keys);
      return;
    }
    TurnMembers(c, s, b, k, a, t, keys);
    var m := ResolveMember(r.value, r.keys.data);
    if Unescaped(f.name) { UnescapedValue(f.name); }
    if |fs| == 1 {
      SpanByte(s, t, j, RIGHT_BRACE, []);
      OneMember(r.value, r.keys.data);
      assert fs[1..] == [] && FieldValues(fs[1..]) == [] && AcceptedFields(c.isDouble, fs[1..]);
    } else {
      SpanByte(s, t, j, COMMA, FieldsText(fs[1..]) + [RIGHT_BRACE]);
      ReadFields(c, s, t + 1, j, fs[1..], r.keys);
      var rest := ReadMembers(c, s, t + 1, r.keys);
      if rest == Bad {
        return;
      }
      MembersJoined(c, s, k, t + 1, keys, r.value, r.keys);
      ToMembersCons(m, ResolveMembers(rest.value, rest.keys.data));
    }
  }

  lemma {:induction false} OneMember(m: PMember, data: Bytes)
    ensures var w := ResolveMember(m, data); ToMembers(ResolveMembers([m], data)) == [J.Member(w.key, ToJson(w.value))]
  {
    hide ResolveMember, ToJson;
    assert [m][1..] == [] && ResolveMembers([], data) == [];
    var w := ResolveMember(m, data);
    assert [w][1..] == [] && ToMembers([]) == [];
  }

  lemma {:induction false} ToMembersCons(m: CoValue.Member, ms: seq<CoValue.Member>)
    ensures ToMembers([m] + ms) == [J.Member(m.key, ToJson(m.value))] + ToMembers(ms)
  {
    assert ([m] + ms)[1..] == ms;
  }

  // Documents

  /** Of the texts of RFC 8259 without an escaped quote in a name the co parser reads exactly those that are an
      array or an object, however deep, in which escaped surrogates are paired, numbers without a fraction have
      no exponent, and the others are doubles; and what it reads is the value of the text if integers are small
      and names have no escapes. */
  lemma {:induction false} ReadsStandardTexts(c: Config, d: Document)
    requires ValidDocument(STANDARD, d) && SimpleNames(d.root.tree)
    ensures var r, t := Parse(c, DocumentText(d)), d.root.tree;
            && (r.Ok? <==> IsContainer(t) && Accepted(c.isDouble, t))
            && (r.Ok? && Kept(t) ==> ToJson(Resolve(r.value, r.keys.data)) == TreeValue(t))
  {
    hide ReadValue, TreeText, GapText, Resolve, ToJson, TreeValue, ValidTree, Accepted, SimpleNames, Kept, JC.Starts,
      JR.SkipWhite;
    var s, e := DocumentText(d), d.root;
    assert s == ElementText(e);
    assert s[0..|s|] == s;
    SpanSplit(s, 0, |s|, GapText(e.before), TreeText(e.tree) + GapText(e.after));
    var p := |GapText(e.before)|;
    SpanSplit(s, p, |s|, TreeText(e.tree), GapText(e.after));
    var a := p + |TreeText(e.tree)|;
    JC.TreeStart(STANDARD, e.tree);
    assert s[p] == TreeText(e.tree)[0];
    StartIsToken(e.tree, s[p]);
    ContainerStart(e.tree, s[p]);
    GapSkipped(s, 0, p, e.before);
    if IsContainer(e.tree) {
      GapSkipped(s, a, |s|, e.after);
      ReadTree(c, s, p, a, e.tree, Keys(0, []));
    }
  }

  lemma {:induction false} ContainerStart(t: Tree, c: Byte)
    requires JC.Starts(t, c)
    ensures IsContainer(t) <==> c == LEFT_BRACE || c == LEFT_BRACKET
  {
  }

  /** Within the depth limit such a text is read by both libraries, and to the same value. */
  lemma {:induction false} BothReadTheSame(c: Config, d: Document)
    requires ValidDocument(STANDARD, d) && SimpleNames(d.root.tree) && Fits(d.root.tree, 0)
    requires IsContainer(d.root.tree) && Accepted(c.isDouble, d.root.tree) && Kept(d.root.tree)
    ensures var s := DocumentText(d); var r := Parse(c, s);
            r.Ok? && JR.Read(STANDARD, s) == JR.Done(ToJson(Resolve(r.value, r.keys.data)), |s|)
  {
    hide JR.Read, Parse, TreeText, Resolve, ToJson, TreeValue, ValidTree, Accepted, SimpleNames, Kept, Fits;
    ReadsStandardTexts(c, d);
    JT.ReadDocument(STANDARD, d);
  }
}
