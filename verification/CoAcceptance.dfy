/** The co JSON parser takes exactly the texts of its grammar, and to what they denote. */
module CoAcceptance {
  import opened Options
  import opened ByteText
  import opened Decimal
  import opened Utf8
  import opened JsonGrammar
  import opened CoValue
  import opened CoTokens
  import G = CoGrammar
  import opened CoReader
  import opened CoTheorems
  import opened CoRoundTrip
  import S = CoStandard

  // White space

  lemma {:induction false} BlankSkipped(s: Bytes, i: nat, j: nat, gap: Bytes)
    requires G.Blank(gap) && Span(s, i, j, gap) && !IsWhite(At(s, j))
    ensures JR.SkipWhite(s, i) == j
    decreases j - i
  {
    if i < j {
      assert s[i] == gap[0];
      assert s[i + 1..j] == gap[1..];
      BlankSkipped(s, i + 1, j, gap[1..]);
    }
  }

  lemma {:induction false} SkippedIsBlank(s: Bytes, i: nat)
    requires i <= |s|
    ensures var j := JR.SkipWhite(s, i); G.Blank(s[i..j]) && (j < |s| ==> !IsWhite(s[j]))
    decreases |s| - i
  {
    if i < |s| && IsWhite(s[i]) {
      SkippedIsBlank(s, i + 1);
      var j := JR.SkipWhite(s, i);
      assert s[i..j] == [s[i]] + s[i + 1..j];
    }
  }

  lemma {:induction false} BlankEndsToken(s: Bytes, i: nat, j: nat, gap: Bytes)
    requires G.Blank(gap) && Span(s, i, j, gap) && j < |s| && EndsToken(s[j])
    ensures EndsToken(s[i])
  {
    if i < j { assert s[i] == gap[0]; }
  }

  // Strings

  lemma {:induction false} PairRead(s: Bytes, i: nat, k: nat, out: Bytes, high: HexQuad, low: HexQuad)
    requires G.ValidChar(G.Pair(high, low)) && Span(s, i, k, G.CharSpelling(G.Pair(high, low)))
    ensures ReadText(s, i, out) == ReadText(s, k, out + G.CharMeaning(G.Pair(high, low)))
  {
    hide ReadText, Encode, Combine, Hex4, IsHigh, IsLow, JR.ReadHex, EscapeValue;
    SpanSplit(s, i, k, [BACKSLASH, LOWER_U] + high, [BACKSLASH, LOWER_U] + low);
    S.UnicodeAt(s, i, high);
    S.UnicodeAt(s, i + 6, low);
    S.UnicodeTurn(s, i, out);
    S.ReadLow(s, i, high);
  }

  lemma {:induction false} CharRead(s: Bytes, i: nat, k: nat, out: Bytes, c: G.Char)
    requires G.ValidChar(c) && Span(s, i, k, G.CharSpelling(c))
    ensures ReadText(s, i, out) == ReadText(s, k, out + G.CharMeaning(c))
  {
    hide ReadText, Encode, Combine, Hex4, IsHigh, IsLow, JR.ReadHex, EscapeValue;
    var t := G.CharSpelling(c);
    assert s[i] == t[0];
    match c
    case Plain(_) => PlainByte(s, i, out);
    case Escaped(_) =>
      assert s[i + 1] == t[1];
      S.EscapeTurn(s, i, out);
    case Single(hex) =>
      S.UnicodeAt(s, i, hex);
      S.UnicodeTurn(s, i, out);
    case Pair(high, low) =>
      hide *;
      PairRead(s, i, k, out, high, low);
  }

  lemma {:induction false} CharsRead(s: Bytes, i: nat, j: nat, out: Bytes, cs: seq<G.Char>)
    requires G.ValidChars(cs) && Span(s, i, j, G.Spelling(cs) + [QUOTE])
    ensures ReadText(s, i, out) == Some((out + G.Meaning(cs), j - 1))
    decreases |cs|
  {
    hide ReadText, G.ValidChar, G.CharSpelling, G.CharMeaning;
    if |cs| == 0 {
      assert G.Spelling(cs) + [QUOTE] == [QUOTE] + [];
      SpanByte(s, i, j, QUOTE, []);
      TextEnd(s, i, out);
      assert out + [] == out;
    } else {
      var t, rest := G.CharSpelling(cs[0]), G.Spelling(cs[1..]);
      Regroup(t, rest, [QUOTE]);
      SpanSplit(s, i, j, t, rest + [QUOTE]);
      CharRead(s, i, i + |t|, out, cs[0]);
      CharsRead(s, i + |t|, j, out + G.CharMeaning(cs[0]), cs[1..]);
      Regroup(out, G.CharMeaning(cs[0]), G.Meaning(cs[1..]));
    }
  }

  lemma {:induction false} NoTextAtEnd(s: Bytes, i: nat, out: Bytes)
    requires i <= |s| && (i == |s| || s[i] == NUL)
    ensures ReadText(s, i, out) == None
  {
  }

  /** The character that the loop finds at i. */
  lemma {:induction false} CharFound(s: Bytes, i: nat, out: Bytes) returns (c: G.Char)
    requires i <= |s| && ReadText(s, i, out).Some? && (i < |s| ==> s[i] != QUOTE)
    ensures G.ValidChar(c) && Span(s, i, i + |G.CharSpelling(c)|, G.CharSpelling(c))
    ensures ReadText(s, i + |G.CharSpelling(c)|, out + G.CharMeaning(c)) == ReadText(s, i, out)
  {
    hide ReadText, Encode, Combine, Hex4, IsHigh, IsLow, EscapeValue;
    if i == |s| || s[i] == NUL {
      NoTextAtEnd(s, i, out);
      assert false;
    } else if s[i] != BACKSLASH {
      c := G.Plain(s[i]);
    } else {
      BackslashGoesOn(s, i, out);
      if s[i + 1] != LOWER_U {
        c := G.Escaped(s[i + 1]);
        SpanTwo(s, i);
      } else {
        c := UnicodeFound(s, i, out);
      }
    }
    CharRead(s, i, i + |G.CharSpelling(c)|, out, c);
  }

  lemma {:induction false} BackslashGoesOn(s: Bytes, i: nat, out: Bytes)
    requires i < |s| && s[i] == BACKSLASH && ReadText(s, i, out).Some?
    ensures i + 2 <= |s| && (s[i + 1] == LOWER_U || IsEscapeLetter(s[i + 1]))
    ensures s[i + 1] == LOWER_U ==> ReadUnicode(s, i + 2).Some?
  {
    assert FindStop(s, i) == i;
    hide ReadUnicode, FindStop;
  }

  lemma {:induction false} UnicodeFound(s: Bytes, i: nat, out: Bytes) returns (c: G.Char)
    requires i + 2 <= |s| && s[i] == BACKSLASH && s[i + 1] == LOWER_U && ReadUnicode(s, i + 2).Some?
    ensures G.ValidChar(c) && Span(s, i, i + |G.CharSpelling(c)|, G.CharSpelling(c))
  {
    hide ReadText, Encode, Combine, Hex4, IsHigh, IsLow;
    var hex := JR.ReadHex(s, i + 2).value;
    SpanTwo(s, i);
    SpanJoin(s, i, i + 2, i + 6, [BACKSLASH, LOWER_U], hex);
    if IsHigh(Hex4(hex)) {
      var low := JR.ReadHex(s, i + 8).value;
      c := G.Pair(hex, low);
      SpanTwo(s, i + 6);
      SpanJoin(s, i + 6, i + 8, i + 12, [BACKSLASH, LOWER_U], low);
      SpanJoin(s, i, i + 6, i + 12, [BACKSLASH, LOWER_U] + hex, [BACKSLASH, LOWER_U] + low);
    } else {
      c := G.Single(hex);
    }
  }

  lemma {:induction false} CharsFound(s: Bytes, i: nat, out: Bytes) returns (cs: seq<G.Char>)
    requires i <= |s| && ReadText(s, i, out).Some?
    ensures G.ValidChars(cs) && Span(s, i, ReadText(s, i, out).value.1 + 1, G.Spelling(cs) + [QUOTE])
    decreases |s| - i
  {
    hide ReadText, G.ValidChar, G.CharSpelling, G.CharMeaning;
    if i < |s| && s[i] == QUOTE {
      cs := [];
      TextEnd(s, i, out);
    } else {
      var c := CharFound(s, i, out);
      var t := G.CharSpelling(c);
      var k := i + |t|;
      var more := CharsFound(s, k, out + G.CharMeaning(c));
      cs := [c] + more;
      assert cs[1..] == more;
      SpanJoin(s, i, k, ReadText(s, i, out).value.1 + 1, t, G.Spelling(more) + [QUOTE]);
      Regroup(t, G.Spelling(more), [QUOTE]);
    }
  }

  // Words and numbers

  lemma {:induction false} IntegerRead(c: Config, s: Bytes, i: nat, j: nat, w: Bytes)
    requires |w| > 0 && IsInteger(w) && Span(s, i, j, w) && j < |s| && EndsToken(s[j])
    ensures ReadToken(c, s, i) == Some((PInt(Wrap(IntValue(w))), j - 1))
    ensures w[0] == MINUS || IsDigit(w[0])
  {
    hide Wrap, IntValue;
    var t := DigitsOf(w);
    assert w[0] == MINUS || w[0] == t[0];
    forall k | 0 < k < |w| ensures !EndsToken(w[k]) && w[k] != DOT {
      assert w[k] == t[if w[0] == MINUS then k - 1 else k];
    }
    TokenRead(c, s, i, j, w);
  }

  lemma {:induction false} FractionRead(c: Config, s: Bytes, i: nat, j: nat, w: Bytes)
    requires G.IsFraction(c.isDouble, w) && Span(s, i, j, w) && j < |s| && EndsToken(s[j])
    ensures ReadToken(c, s, i) == Some((PDouble(w), j - 1))
  {
    var m :| 0 < m < |w| && G.DotAt(w, m);
    forall k | i + 1 <= k < j && k != i + m ensures !EndsToken(s[k]) && s[k] != DOT {
      assert s[k] == w[k - i];
    }
    assert s[i + m] == w[m];
    S.TokenEndAfterDot(s, i + 1, i + m, j);
  }

  // Values

  /** Only words and numbers need something after them. */
  predicate Closed(s: Bytes, j: nat, t: G.Tree) {
    t.QuotedChars? || t.List? || t.Dict? || (j < |s| && EndsToken(s[j]))
  }

  ghost predicate Reads(r: Parsed<PValue>, c: Config, t: G.Tree, j: int)
    requires G.ValidTree(c.isDouble, t)
  {
    r.Ok? && r.last == j - 1 && Resolve(r.value, r.keys.data) == G.TreeMeaning(c.isDouble, t)
  }

  /** The byte that announces a tree. */
  predicate Starts(t: G.Tree, b: Byte) {
    match t
    case NullWord => b == LOWER_N
    case TrueWord => b == LOWER_T
    case FalseWord => b == LOWER_F
    case Integer(_) => b == MINUS || IsDigit(b)
    case Fraction(w) => !G.BeginsOther(b) && (b == RIGHT_BRACKET <==> G.Closes(t))
    case QuotedChars(_) => b == QUOTE
    case List(_, _) => b == LEFT_BRACKET
    case Dict(_, _) => b == LEFT_BRACE
  }

  lemma {:induction false} TreeStart(isDouble: Bytes -> bool, t: G.Tree)
    requires G.ValidTree(isDouble, t)
    ensures |G.TreeSpelling(t)| > 0 && Starts(t, G.TreeSpelling(t)[0])
  {
    if t.Integer? {
      var w := t.text;
      assert w[0] == MINUS || w[0] == DigitsOf(w)[0];
    }
  }

  lemma {:induction false} StartIsToken(t: G.Tree, b: Byte)
    requires Starts(t, b)
    ensures !IsWhite(b) && (b == RIGHT_BRACKET ==> G.Closes(t))
  {
  }

  lemma {:induction false} ScalarRead(c: Config, s: Bytes, i: nat, j: nat, t: G.Tree, keys: Keys)
    requires G.ValidTree(c.isDouble, t) && !t.List? && !t.Dict?
    requires Span(s, i, j, G.TreeSpelling(t)) && Closed(s, j, t)
    ensures i < j && Reads(ReadValue(c, s, i, keys), c, t, j)
  {
    hide ReadText, ReadToken, TokenValue, IsInteger, G.IsFraction, Wrap, IntValue, G.Meaning, G.ValidChars;
    TreeStart(c.isDouble, t);
    assert s[i] == G.TreeSpelling(t)[0];
    WordTokens(c);
    match t
    case Integer(w) => IntegerRead(c, s, i, j, w);
    case Fraction(w) => FractionRead(c, s, i, j, w);
    case QuotedChars(cs) =>
      SpanByte(s, i, j, QUOTE, G.Spelling(cs) + [QUOTE]);
      CharsRead(s, i + 1, j, [], cs);
      assert [] + G.Meaning(cs) == G.Meaning(cs);
    case _ => TokenRead(c, s, i, j, G.TreeSpelling(t));
  }

  lemma {:induction false} TreeRead(c: Config, s: Bytes, i: nat, j: nat, t: G.Tree, keys: Keys)
    requires G.ValidTree(c.isDouble, t) && Span(s, i, j, G.TreeSpelling(t)) && Closed(s, j, t)
    ensures i < j && Reads(ReadValue(c, s, i, keys), c, t, j)
    decreases t, 2
  {
    hide ReadText, ReadToken, ReadItems, ReadMembers, G.ItemsSpelling, G.BindingsSpelling, G.ItemsMeaning,
      G.BindingsMeaning;
    match t
    case List(es, end) =>
      SpanByte(s, i, j, LEFT_BRACKET, G.ItemsSpelling(es, end));
      ItemsRead(c, s, i + 1, j, es, end, keys);
    case Dict(fs, end) =>
      SpanByte(s, i, j, LEFT_BRACE, G.BindingsSpelling(fs, end));
      BindingsRead(c, s, i + 1, j, fs, end, Open(c, keys));
    case _ =>
      ScalarRead(c, s, i, j, t, keys);
  }

  /** Where an item's value begins and ends, and where the white space after it ends. */
  lemma {:induction false} ItemPlaces(isDouble: Bytes -> bool, s: Bytes, b: nat, j: nat, e: G.Item, rest: Bytes)
    returns (k: nat, a: nat, t: nat)
    requires G.ValidItem(isDouble, e) && Span(s, b, j, G.ItemSpelling(e) + rest)
    requires |rest| > 0 && (rest[0] == COMMA || rest[0] == RIGHT_BRACE || rest[0] == RIGHT_BRACKET)
    ensures b <= k < a <= t < |s| && JR.SkipWhite(s, b) == k && JR.SkipWhite(s, a) == t
    ensures Span(s, k, a, G.TreeSpelling(e.tree)) && EndsToken(s[a]) && Span(s, t, j, rest)
    ensures Starts(e.tree, s[k]) && s[t] == rest[0]
  {
    hide G.TreeSpelling, G.ValidTree, JR.SkipWhite, G.Blank;
    Regroup(e.before, G.TreeSpelling(e.tree) + e.after, rest);
    Regroup(G.TreeSpelling(e.tree), e.after, rest);
    SpanSplit(s, b, j, e.before, G.TreeSpelling(e.tree) + (e.after + rest));
    k := b + |e.before|;
    SpanSplit(s, k, j, G.TreeSpelling(e.tree), e.after + rest);
    a := k + |G.TreeSpelling(e.tree)|;
    SpanSplit(s, a, j, e.after, rest);
    t := a + |e.after|;
    TreeStart(isDouble, e.tree);
    assert s[k] == G.TreeSpelling(e.tree)[0];
    StartIsToken(e.tree, s[k]);
    assert s[t] == rest[0];
    BlankSkipped(s, b, k, e.before);
    BlankSkipped(s, a, t, e.after);
    BlankEndsToken(s, a, t, e.after);
  }

  /** A bracket after white space. */
  lemma {:induction false} EndRead(c: Config, s: Bytes, b: nat, j: nat, gap: Bytes, keys: Keys)
    requires G.Blank(gap)
    ensures Span(s, b, j, gap + [RIGHT_BRACKET]) ==> b < j && ReadItems(c, s, b, keys) == Ok([], j - 1, keys)
    ensures Span(s, b, j, gap + [RIGHT_BRACE]) ==> b < j && ReadMembers(c, s, b, keys) == Ok([], j - 1, keys)
  {
    if Span(s, b, j, gap + [RIGHT_BRACKET]) {
      SpanSplit(s, b, j, gap, [RIGHT_BRACKET]);
      assert s[j - 1] == s[j - 1..j][0];
      BlankSkipped(s, b, j - 1, gap);
    }
    if Span(s, b, j, gap + [RIGHT_BRACE]) {
      SpanSplit(s, b, j, gap, [RIGHT_BRACE]);
      assert s[j - 1] == s[j - 1..j][0];
      BlankSkipped(s, b, j - 1, gap);
    }
  }

  /** What follows the first item. */
  function ItemsRest(es: seq<G.Item>, end: Option<Bytes>): Bytes
    requires |es| > 0
  {
    if |es| == 1 && end.None? then [RIGHT_BRACKET] else [COMMA] + G.ItemsSpelling(es[1..], end)
  }

  lemma {:induction false} AfterItem(s: Bytes, t: nat, j: nat, es: seq<G.Item>, end: Option<Bytes>)
    requires |es| > 0 && Span(s, t, j, ItemsRest(es, end))
    ensures if |es| == 1 && end.None? then t + 1 == j else Span(s, t + 1, j, G.ItemsSpelling(es[1..], end))
  {
    hide G.ItemsSpelling;
    if |es| > 1 || end.Some? { SpanByte(s, t, j, COMMA, G.ItemsSpelling(es[1..], end)); }
  }

  lemma {:induction false} ItemsMean(isDouble: Bytes -> bool, es: seq<G.Item>)
    requires |es| > 0 && G.ValidItems(isDouble, es)
    ensures G.ValidItem(isDouble, es[0]) && G.ValidTree(isDouble, es[0].tree) && !G.Closes(es[0].tree)
    ensures G.ValidItems(isDouble, es[1..])
    ensures G.ItemsMeaning(isDouble, es) == [G.TreeMeaning(isDouble, es[0].tree)] + G.ItemsMeaning(isDouble, es[1..])
  {
    hide G.TreeMeaning;
  }

  /** The first item, and the byte after it. */
  lemma {:induction false} ItemRead(c: Config, s: Bytes, b: nat, j: nat, e: G.Item, rest: Bytes, keys: Keys)
    returns (k: nat, t: nat)
    requires G.ValidItem(c.isDouble, e) && G.ValidTree(c.isDouble, e.tree) && !G.Closes(e.tree)
    requires Span(s, b, j, G.ItemSpelling(e) + rest) && |rest| > 0 && (rest[0] == COMMA || rest[0] == RIGHT_BRACKET)
    ensures b <= k < t < |s| && Span(s, t, j, rest) && s[t] == rest[0]
    ensures var r := ReadValue(c, s, k, keys);
            && r.Ok? && Resolve(r.value, r.keys.data) == G.TreeMeaning(c.isDouble, e.tree)
            && ReadItems(c, s, b, keys)
                 == if s[t] == COMMA then Prepend([r.value], ReadItems(c, s, t + 1, r.keys))
                    else Ok([r.value], t, r.keys)
    decreases e, 0
  {
    hide ReadValue, ReadItems, Resolve, G.TreeSpelling, G.TreeMeaning, G.ItemSpelling, G.ValidTree, JR.SkipWhite,
      Starts, G.Blank;
    var a;
    k, a, t := ItemPlaces(c.isDouble, s, b, j, e, rest);
    StartIsToken(e.tree, s[k]);
    TreeRead(c, s, k, a, e.tree, keys);
    S.TurnItems(c, s, b, k, a, t, keys);
  }

  lemma {:induction false} ItemsRead(c: Config, s: Bytes, b: nat, j: nat, es: seq<G.Item>, end: Option<Bytes>,
                                     keys: Keys)
    requires G.ValidEnd(|es|, end) && G.ValidItems(c.isDouble, es) && Span(s, b, j, G.ItemsSpelling(es, end))
    ensures var r := ReadItems(c, s, b, keys);
            b < j && r.Ok? && r.last == j - 1 && ResolveItems(r.value, r.keys.data) == G.ItemsMeaning(c.isDouble, es)
    decreases es, 0
  {
    hide ReadValue, ReadItems, Resolve, G.TreeMeaning, G.ItemSpelling, G.ValidTree, G.ValidItem, G.ItemsMeaning,
      ItemsRest, ResolveItems, G.ItemsSpelling, G.ValidItems;
    if |es| == 0 {
      NoItems(c.isDouble, es, end, keys.data);
      EndRead(c, s, b, j, end.value, keys);
    } else {
      RestStarts(es, end);
      ItemsMean(c.isDouble, es);
      var k, t := ItemRead(c, s, b, j, es[0], ItemsRest(es, end), keys);
      AfterItem(s, t, j, es, end);
      var r := ReadValue(c, s, k, keys);
      if |es| == 1 && end.None? {
        OneItem(r.value, r.keys.data);
        NoItems(c.isDouble, es[1..], end, keys.data);
      } else {
        ItemsRead(c, s, t + 1, j, es[1..], end, r.keys);
        ItemsJoined(c, s, k, t + 1, keys, r.value, r.keys);
      }
    }
  }

  lemma {:induction false} NoItems(isDouble: Bytes -> bool, es: seq<G.Item>, end: Option<Bytes>, data: Bytes)
    requires |es| == 0
    ensures G.ValidItems(isDouble, es) && G.ItemsMeaning(isDouble, es) == [] && ResolveItems([], data) == []
    ensures end.Some? ==> G.ItemsSpelling(es, end) == end.value + [RIGHT_BRACKET]
  {
  }

  lemma {:induction false} RestStarts(es: seq<G.Item>, end: Option<Bytes>)
    requires |es| > 0
    ensures var rest := ItemsRest(es, end);
            && |rest| > 0 && rest[0] == (if |es| == 1 && end.None? then RIGHT_BRACKET else COMMA)
            && G.ItemsSpelling(es, end) == G.ItemSpelling(es[0]) + rest
  {
    hide G.ItemSpelling;
  }

  lemma {:induction false} OneItem(v: PValue, data: Bytes)
    ensures ResolveItems([v], data) == [Resolve(v, data)]
  {
    hide Resolve;
    assert [v][1..] == [] && ResolveItems([], data) == [];
  }

  // Objects

  /** A key appended to the buffer is read back up to its first NUL, whatever is appended after it. */
  lemma {:induction false} KeyStands(data: Bytes, key: Bytes, after: Bytes)
    requires data + key + [NUL] <= after
    ensures KeyAt(after, |data|) == G.KeyMeaning(key)
  {
    var n := NulAt(key, 0);
    NulAtStops(key, 0);
    assert after[..|data| + |key| + 1] == data + key + [NUL];
    forall k | |data| <= k < |data| + |key| ensures after[k] == key[k - |data|] {
      assert after[k] == (data + key + [NUL])[k];
    }
    assert after[|data| + |key|] == (data + key + [NUL])[|data| + |key|];
    NulAtIs(after, |data|, |data| + n);
    assert after[|data|..|data| + n] == key[..n];
  }

  lemma {:induction false} NulAtStops(s: Bytes, i: nat)
    requires i <= |s|
    ensures var j := NulAt(s, i); (forall k :: i <= k < j ==> s[k] != NUL) && (j < |s| ==> s[j] == NUL)
    decreases |s| - i
  {
    if i < |s| && s[i] != NUL { NulAtStops(s, i + 1); }
  }

  function BindingsRest(fs: seq<G.Binding>, end: Option<Bytes>): Bytes
    requires |fs| > 0
  {
    if |fs| == 1 && end.None? then [RIGHT_BRACE] else [COMMA] + G.BindingsSpelling(fs[1..], end)
  }

  lemma {:induction false} BindingsRestStarts(fs: seq<G.Binding>, end: Option<Bytes>)
    requires |fs| > 0
    ensures var rest := BindingsRest(fs, end);
            && |rest| > 0 && rest[0] == (if |fs| == 1 && end.None? then RIGHT_BRACE else COMMA)
            && G.BindingsSpelling(fs, end) == G.BindingSpelling(fs[0]) + rest
  {
    hide G.BindingSpelling;
  }

  lemma {:induction false} AfterBinding(s: Bytes, t: nat, j: nat, fs: seq<G.Binding>, end: Option<Bytes>)
    requires |fs| > 0 && Span(s, t, j, BindingsRest(fs, end))
    ensures if |fs| == 1 && end.None? then t + 1 == j else Span(s, t + 1, j, G.BindingsSpelling(fs[1..], end))
  {
    hide G.BindingsSpelling;
    if |fs| > 1 || end.Some? { SpanByte(s, t, j, COMMA, G.BindingsSpelling(fs[1..], end)); }
  }

  /** What follows a key's closing quote. */
  function AfterKey(f: G.Binding, rest: Bytes): Bytes {
    f.between + ([COLON] + (G.ItemSpelling(f.item) + rest))
  }

  lemma {:induction false} BindingShape(f: G.Binding, rest: Bytes)
    ensures G.BindingSpelling(f) + rest == f.before + ([QUOTE] + (f.key + ([QUOTE] + AfterKey(f, rest))))
  {
    hide G.ItemSpelling;
    var value := G.ItemSpelling(f.item);
    Regroup(f.before, [QUOTE] + (f.key + ([QUOTE] + (f.between + ([COLON] + value)))), rest);
    Regroup([QUOTE], f.key + ([QUOTE] + (f.between + ([COLON] + value))), rest);
    Regroup(f.key, [QUOTE] + (f.between + ([COLON] + value)), rest);
    Regroup([QUOTE], f.between + ([COLON] + value), rest);
    Regroup(f.between, [COLON] + value, rest);
    Regroup([COLON], value, rest);
  }

  lemma {:induction false} KeyStart(s: Bytes, b: nat, j: nat, gap: Bytes, tail: Bytes)
    requires G.Blank(gap) && Span(s, b, j, gap + ([QUOTE] + tail))
    ensures var k := b + |gap|; k < |s| && JR.SkipWhite(s, b) == k && s[k] == QUOTE && Span(s, k + 1, j, tail)
  {
    hide JR.SkipWhite, G.Blank;
    SpanSplit(s, b, j, gap, [QUOTE] + tail);
    SpanByte(s, b + |gap|, j, QUOTE, tail);
    BlankSkipped(s, b, b + |gap|, gap);
  }

  lemma {:induction false} KeyEnd(s: Bytes, i: nat, j: nat, key: Bytes, tail: Bytes)
    requires QUOTE !in key && Span(s, i, j, key + ([QUOTE] + tail))
    ensures var p := i + |key|; p < |s| && FindQuote(s, i) == p && s[i..p] == key && Span(s, p + 1, j, tail)
  {
    hide FindQuote;
    SpanSplit(s, i, j, key, [QUOTE] + tail);
    var p := i + |key|;
    SpanByte(s, p, j, QUOTE, tail);
    forall x | i <= x < p ensures s[x] != QUOTE {
      assert s[x] == key[x - i];
    }
    FindQuoteIs(s, i, p);
  }

  /** Where a key begins and ends. */
  lemma {:induction false} KeyPlaces(s: Bytes, b: nat, j: nat, f: G.Binding, rest: Bytes) returns (k: nat, p: nat)
    requires G.Blank(f.before) && QUOTE !in f.key && Span(s, b, j, G.BindingSpelling(f) + rest)
    ensures b <= k < p < |s| && JR.SkipWhite(s, b) == k && s[k] == QUOTE && FindQuote(s, k + 1) == p
    ensures s[k + 1..p] == f.key && Span(s, p + 1, j, AfterKey(f, rest))
  {
    hide JR.SkipWhite, FindQuote, G.Blank, AfterKey, G.BindingSpelling, Span;
    BindingShape(f, rest);
    var tail := AfterKey(f, rest);
    KeyStart(s, b, j, f.before, f.key + ([QUOTE] + tail));
    k := b + |f.before|;
    KeyEnd(s, k + 1, j, f.key, tail);
    p := k + 1 + |f.key|;
  }

  lemma {:induction false} ColonPlace(s: Bytes, i: nat, j: nat, f: G.Binding, rest: Bytes) returns (q: nat)
    requires G.Blank(f.between) && Span(s, i, j, AfterKey(f, rest))
    ensures i <= q < |s| && JR.SkipWhite(s, i) == q && s[q] == COLON && Span(s, q + 1, j, G.ItemSpelling(f.item) + rest)
  {
    hide JR.SkipWhite, G.Blank, G.ItemSpelling;
    SpanSplit(s, i, j, f.between, [COLON] + (G.ItemSpelling(f.item) + rest));
    q := i + |f.between|;
    SpanByte(s, q, j, COLON, G.ItemSpelling(f.item) + rest);
    BlankSkipped(s, i, q, f.between);
  }

  lemma {:induction false} BindingRead(c: Config, s: Bytes, b: nat, j: nat, f: G.Binding, rest: Bytes, keys: Keys)
    returns (k: nat, a: nat, t: nat)
    requires G.ValidBinding(c.isDouble, f) && G.ValidTree(c.isDouble, f.item.tree)
    requires Span(s, b, j, G.BindingSpelling(f) + rest) && |rest| > 0 && (rest[0] == COMMA || rest[0] == RIGHT_BRACE)
    ensures b <= k < a <= t < |s| && JR.SkipWhite(s, b) == k && s[k] == QUOTE && JR.SkipWhite(s, a) == t
    ensures Span(s, t, j, rest) && s[t] == rest[0]
    ensures var r := ReadMember(c, s, k, keys);
            && r.Ok? && r.last == a - 1
            && ResolveMember(r.value, r.keys.data)
                 == CoValue.Member(G.KeyMeaning(f.key), G.TreeMeaning(c.isDouble, f.item.tree))
    decreases f, 0
  {
    hide ReadMember, ReadValue, Resolve, KeyAt, G.TreeSpelling, G.TreeMeaning, G.ValidTree, G.BindingSpelling,
      G.ItemSpelling, AfterKey, FindQuote, JR.SkipWhite, Starts, G.KeyMeaning, G.Blank;
    var p, v;
    k, p := KeyPlaces(s, b, j, f, rest);
    var q := ColonPlace(s, p + 1, j, f, rest);
    v, a, t := ItemPlaces(c.isDouble, s, q + 1, j, f.item, rest);
    var with := keys.(data := keys.data + f.key + [NUL]);
    TreeRead(c, s, v, a, f.item.tree, with);
    S.MemberIs(c, s, k, p, q, v, keys);
    ReadValueGrows(c, s, v, with);
    KeyStands(keys.data, f.key, ReadValue(c, s, v, with).keys.data);
  }

  lemma {:induction false} OneMember(m: PMember, data: Bytes)
    ensures ResolveMembers([m], data) == [ResolveMember(m, data)]
  {
    hide ResolveMember;
    assert [m][1..] == [] && ResolveMembers([], data) == [];
  }

  lemma {:induction false} BindingsMean(isDouble: Bytes -> bool, fs: seq<G.Binding>)
    requires |fs| > 0 && G.ValidBindings(isDouble, fs)
    ensures G.ValidBinding(isDouble, fs[0]) && G.ValidTree(isDouble, fs[0].item.tree)
            && G.ValidBindings(isDouble, fs[1..])
    ensures G.BindingsMeaning(isDouble, fs)
         == [CoValue.Member(G.KeyMeaning(fs[0].key), G.TreeMeaning(isDouble, fs[0].item.tree))]
              + G.BindingsMeaning(isDouble, fs[1..])
  {
    hide G.TreeMeaning, G.KeyMeaning;
    assert G.ValidItem(isDouble, fs[0].item);
  }

  lemma {:induction false} NoBindings(isDouble: Bytes -> bool, fs: seq<G.Binding>, end: Option<Bytes>, data: Bytes)
    requires |fs| == 0
    ensures G.ValidBindings(isDouble, fs) && G.BindingsMeaning(isDouble, fs) == [] && ResolveMembers([], data) == []
    ensures end.Some? ==> G.BindingsSpelling(fs, end) == end.value + [RIGHT_BRACE]
  {
  }

  lemma {:induction false} BindingsRead(c: Config, s: Bytes, b: nat, j: nat, fs: seq<G.Binding>, end: Option<Bytes>,
                                        keys: Keys)
    requires G.ValidEnd(|fs|, end) && G.ValidBindings(c.isDouble, fs) && Span(s, b, j, G.BindingsSpelling(fs, end))
    ensures var r := ReadMembers(c, s, b, keys);
            b < j && r.Ok? && r.last == j - 1
                && ResolveMembers(r.value, r.keys.data) == G.BindingsMeaning(c.isDouble, fs)
    decreases fs, 1
  {
    hide ReadMember, ReadMembers, ResolveMember, G.TreeMeaning, G.BindingSpelling, G.ValidTree, G.ValidBinding,
      JR.SkipWhite, G.BindingsMeaning, BindingsRest, ResolveMembers, G.KeyMeaning, G.BindingsSpelling,
      G.ValidBindings;
    if |fs| == 0 {
      NoBindings(c.isDouble, fs, end, keys.data);
      EndRead(c, s, b, j, end.value, keys);
    } else {
      BindingsRestStarts(fs, end);
      BindingsMean(c.isDouble, fs);
      var k, a, t := BindingRead(c, s, b, j, fs[0], BindingsRest(fs, end), keys);
      AfterBinding(s, t, j, fs, end);
      S.TurnMembers(c, s, b, k, a, t, keys);
      var r := ReadMember(c, s, k, keys);
      if |fs| == 1 && end.None? {
        OneMember(r.value, r.keys.data);
        NoBindings(c.isDouble, fs[1..], end, keys.data);
      } else {
        BindingsRead(c, s, t + 1, j, fs[1..], end, r.keys);
        MembersJoined(c, s, k, t + 1, keys, r.value, r.keys);
      }
    }
  }

  // Nothing else is read

  lemma {:induction false} TokenEndMeans(s: Bytes, i: nat, dots: nat) returns (m: int)
    requires i <= |s| && dots <= 1 && TokenEnd(s, i, dots).0 < |s|
    ensures var (e, n) := TokenEnd(s, i, dots);
            && EndsToken(s[e]) && (forall k :: i <= k < e ==> !EndsToken(s[k])) && dots <= n <= 1
            && (n == dots ==> forall k :: i <= k < e ==> s[k] != DOT)
            && (n > dots ==> i <= m < e && s[m] == DOT && forall k :: i <= k < e && k != m ==> s[k] != DOT)
    decreases |s| - i
  {
    m := i;
    if EndsToken(s[i]) {
    } else if s[i] == DOT {
      var _ := TokenEndMeans(s, i + 1, dots + 1);
    } else {
      m := TokenEndMeans(s, i + 1, dots);
    }
  }

  lemma {:induction false} NumberFound(c: Config, s: Bytes, k: nat, w: Bytes, e: nat, dots: nat) returns (t: G.Tree)
    requires k < |s| && TokenEnd(s, k + 1, 0) == (e, dots) && e < |s| && w == s[k..e] && !G.BeginsOther(s[k])
    requires if dots == 0 then IsInteger(w) else c.isDouble(w)
    ensures G.ValidTree(c.isDouble, t) && G.TreeSpelling(t) == w && (s[k] != RIGHT_BRACKET ==> !G.Closes(t))
  {
    hide TokenEnd, IsInteger;
    if dots == 0 {
      t := G.Integer(w);
    } else {
      t := G.Fraction(w);
      var m := TokenEndMeans(s, k + 1, 0);
      assert G.DotAt(w, m - k);
    }
  }

  lemma {:induction false} TokenFound(c: Config, s: Bytes, k: nat) returns (t: G.Tree)
    requires k < |s| && ReadToken(c, s, k).Some? && !IsWhite(s[k])
    requires s[k] != QUOTE && s[k] != LEFT_BRACE && s[k] != LEFT_BRACKET
    ensures G.ValidTree(c.isDouble, t) && Span(s, k, ReadToken(c, s, k).value.1 + 1, G.TreeSpelling(t))
    ensures s[k] != RIGHT_BRACKET ==> !G.Closes(t)
  {
    hide TokenEnd, IsInteger, Wrap, IntValue;
    var (e, dots) := TokenEnd(s, k + 1, 0);
    var w := s[k..e];
    if w[0] == LOWER_F {
      t := G.FalseWord;
    } else if w[0] == LOWER_T {
      t := G.TrueWord;
    } else if w[0] == LOWER_N {
      t := G.NullWord;
    } else {
      t := NumberFound(c, s, k, w, e, dots);
    }
  }

  lemma {:induction false} TreeFound(c: Config, s: Bytes, k: nat, keys: Keys) returns (t: G.Tree)
    requires k < |s| && ReadValue(c, s, k, keys).Ok? && !IsWhite(s[k])
    ensures G.ValidTree(c.isDouble, t) && Span(s, k, ReadValue(c, s, k, keys).last + 1, G.TreeSpelling(t))
    ensures s[k] != RIGHT_BRACKET ==> !G.Closes(t)
    decreases |s| - k, 0
  {
    hide ReadText, ReadToken, ReadItems, ReadMembers, G.Spelling, G.ItemsSpelling, G.BindingsSpelling, G.ValidChars,
      G.IsFraction;
    var last := ReadValue(c, s, k, keys).last;
    if s[k] == QUOTE {
      var cs := CharsFound(s, k + 1, []);
      t := G.QuotedChars(cs);
      SpanCons(s, k, last + 1, G.Spelling(cs) + [QUOTE]);
    } else if s[k] == LEFT_BRACE {
      var fs, end := BindingsFound(c, s, k + 1, Open(c, keys));
      t := G.Dict(fs, end);
      SpanCons(s, k, last + 1, G.BindingsSpelling(fs, end));
    } else if s[k] == LEFT_BRACKET {
      var es, end := ItemsFound(c, s, k + 1, keys);
      t := G.List(es, end);
      SpanCons(s, k, last + 1, G.ItemsSpelling(es, end));
    } else {
      t := TokenFound(c, s, k);
    }
  }

  /** What a successful reading of items has found at their front. */
  lemma {:induction false} ItemsTurnMeans(c: Config, s: Bytes, b: nat, keys: Keys)
    requires b <= |s| && ReadItems(c, s, b, keys).Ok?
    ensures var r, k := ReadItems(c, s, b, keys), JR.SkipWhite(s, b);
            && k < |s|
            && if s[k] == RIGHT_BRACKET then r.last == k
               else
                 var v := ReadValue(c, s, k, keys);
                 && v.Ok? && v.last < |s|
                 && var t := JR.SkipWhite(s, v.last + 1);
                    && t < |s| && (s[t] == RIGHT_BRACKET || s[t] == COMMA)
                    && (s[t] == RIGHT_BRACKET ==> r.last == t)
                    && (s[t] == COMMA ==>
                          var rest := ReadItems(c, s, t + 1, v.keys); rest.Ok? && r.last == rest.last)
  {
    hide ReadValue, JR.SkipWhite;
  }

  /** A value with the white space around it. */
  lemma {:induction false} ItemFound(c: Config, s: Bytes, b: nat, keys: Keys) returns (e: G.Item)
    requires b <= |s|
    requires var k := JR.SkipWhite(s, b); k < |s| && ReadValue(c, s, k, keys).Ok?
    ensures var k := JR.SkipWhite(s, b); var t := JR.SkipWhite(s, ReadValue(c, s, k, keys).last + 1);
            && G.ValidItem(c.isDouble, e) && Span(s, b, t, G.ItemSpelling(e)) && b < t
            && (s[k] != RIGHT_BRACKET ==> !G.Closes(e.tree))
    decreases |s| - b, 1
  {
    hide ReadValue, JR.SkipWhite, G.TreeSpelling, G.ValidTree, G.Closes, G.Blank;
    var k := JR.SkipWhite(s, b);
    SkippedIsBlank(s, b);
    var tree := TreeFound(c, s, k, keys);
    var a := ReadValue(c, s, k, keys).last + 1;
    SkippedIsBlank(s, a);
    var t := JR.SkipWhite(s, a);
    e := G.Item(s[b..k], tree, s[a..t]);
    SpanJoin(s, k, a, t, G.TreeSpelling(tree), s[a..t]);
    SpanJoin(s, b, k, t, s[b..k], G.TreeSpelling(tree) + s[a..t]);
  }

  lemma {:induction false} ItemsFound(c: Config, s: Bytes, b: nat, keys: Keys)
    returns (es: seq<G.Item>, end: Option<Bytes>)
    requires b <= |s| && ReadItems(c, s, b, keys).Ok?
    ensures G.ValidEnd(|es|, end) && G.ValidItems(c.isDouble, es)
    ensures Span(s, b, ReadItems(c, s, b, keys).last + 1, G.ItemsSpelling(es, end))
    decreases |s| - b, 2
  {
    hide ReadValue, ReadItems, JR.SkipWhite, G.ItemSpelling, G.ValidItem, G.Closes, G.Blank;
    ItemsTurnMeans(c, s, b, keys);
    var k := JR.SkipWhite(s, b);
    SkippedIsBlank(s, b);
    if s[k] == RIGHT_BRACKET {
      es, end := [], Some(s[b..k]);
      SpanSnoc(s, b, k, s[b..k]);
    } else {
      var v := ReadValue(c, s, k, keys);
      var t := JR.SkipWhite(s, v.last + 1);
      var e := ItemFound(c, s, b, keys);
      if s[t] == RIGHT_BRACKET {
        es, end := [e], None;
        SpanSnoc(s, b, t, G.ItemSpelling(e));
      } else {
        var more;
        more, end := ItemsFound(c, s, t + 1, v.keys);
        es := [e] + more;
        assert es[1..] == more;
        SpanCons(s, t, ReadItems(c, s, b, keys).last + 1, G.ItemsSpelling(more, end));
        SpanJoin(s, b, t, ReadItems(c, s, b, keys).last + 1, G.ItemSpelling(e), [COMMA] + G.ItemsSpelling(more, end));
      }
    }
  }

  lemma {:induction false} QuoteFound(s: Bytes, b: nat)
    requires b <= |s|
    ensures var p := FindQuote(s, b); QUOTE !in s[b..p] && (p < |s| ==> s[p] == QUOTE)
    decreases |s| - b
  {
    if b < |s| && s[b] != QUOTE {
      QuoteFound(s, b + 1);
      var p := FindQuote(s, b);
      assert s[b..p] == [s[b]] + s[b + 1..p];
    }
  }

  /** What a successful reading of a member has found. */
  lemma {:induction false} MemberMeans(c: Config, s: Bytes, k: nat, keys: Keys) returns (p: nat, q: nat, with: Keys)
    requires k < |s| && ReadMember(c, s, k, keys).Ok?
    ensures k < p < q < |s| && s[k] == QUOTE && FindQuote(s, k + 1) == p && JR.SkipWhite(s, p + 1) == q && s[q] == COLON
    ensures var v := JR.SkipWhite(s, q + 1);
            v < |s| && ReadValue(c, s, v, with).Ok? && ReadValue(c, s, v, with).last == ReadMember(c, s, k, keys).last
  {
    hide ReadValue, JR.SkipWhite, FindQuote;
    p := FindQuote(s, k + 1);
    q := JR.SkipWhite(s, p + 1);
    with := keys.(data := keys.data + s[k + 1..p] + [NUL]);
  }

  /** A field, with the white space around it. */
  lemma {:induction false} BindingFound(c: Config, s: Bytes, b: nat, keys: Keys) returns (f: G.Binding)
    requires b <= |s|
    requires var k := JR.SkipWhite(s, b); k < |s| && ReadMember(c, s, k, keys).Ok?
    ensures var k := JR.SkipWhite(s, b); var t := JR.SkipWhite(s, ReadMember(c, s, k, keys).last + 1);
            G.ValidBinding(c.isDouble, f) && Span(s, b, t, G.BindingSpelling(f)) && b < t
    decreases |s| - b, 2
  {
    hide ReadMember, ReadValue, JR.SkipWhite, FindQuote, G.ItemSpelling, G.ValidItem, G.Blank;
    var k := JR.SkipWhite(s, b);
    SkippedIsBlank(s, b);
    var p, q, with := MemberMeans(c, s, k, keys);
    QuoteFound(s, k + 1);
    SkippedIsBlank(s, p + 1);
    var item := ItemFound(c, s, q + 1, with);
    var t := JR.SkipWhite(s, ReadMember(c, s, k, keys).last + 1);
    f := G.Binding(s[b..k], s[k + 1..p], s[p + 1..q], item);
    BindingSpelt(s, b, k, p, q, t, item);
  }

  lemma {:induction false} BindingSpelt(s: Bytes, b: nat, k: nat, p: nat, q: nat, t: nat, item: G.Item)
    requires b <= k < p < q < |s| && s[k] == s[p] == QUOTE && s[q] == COLON && Span(s, q + 1, t, G.ItemSpelling(item))
    ensures Span(s, b, t, G.BindingSpelling(G.Binding(s[b..k], s[k + 1..p], s[p + 1..q], item)))
  {
    hide G.ItemSpelling;
    var value := [COLON] + G.ItemSpelling(item);
    var rest := [QUOTE] + (s[p + 1..q] + value);
    SpanCons(s, q, t, G.ItemSpelling(item));
    SpanJoin(s, p + 1, q, t, s[p + 1..q], value);
    SpanCons(s, p, t, s[p + 1..q] + value);
    SpanJoin(s, k + 1, p, t, s[k + 1..p], rest);
    SpanCons(s, k, t, s[k + 1..p] + rest);
    SpanJoin(s, b, k, t, s[b..k], [QUOTE] + (s[k + 1..p] + rest));
  }

  lemma {:induction false} MembersTurnMeans(c: Config, s: Bytes, b: nat, keys: Keys)
    requires b <= |s| && ReadMembers(c, s, b, keys).Ok?
    ensures var r, k := ReadMembers(c, s, b, keys), JR.SkipWhite(s, b);
            && k < |s|
            && if s[k] == RIGHT_BRACE then r.last == k
               else
                 var m := ReadMember(c, s, k, keys);
                 && m.Ok? && m.last < |s|
                 && var t := JR.SkipWhite(s, m.last + 1);
                    && t < |s| && (s[t] == RIGHT_BRACE || s[t] == COMMA)
                    && (s[t] == RIGHT_BRACE ==> r.last == t)
                    && (s[t] == COMMA ==>
                          var rest := ReadMembers(c, s, t + 1, m.keys); rest.Ok? && r.last == rest.last)
  {
    hide ReadMember, JR.SkipWhite;
  }

  lemma {:induction false} BindingsFound(c: Config, s: Bytes, b: nat, keys: Keys)
    returns (fs: seq<G.Binding>, end: Option<Bytes>)
    requires b <= |s| && ReadMembers(c, s, b, keys).Ok?
    ensures G.ValidEnd(|fs|, end) && G.ValidBindings(c.isDouble, fs)
    ensures Span(s, b, ReadMembers(c, s, b, keys).last + 1, G.BindingsSpelling(fs, end))
    decreases |s| - b, 3
  {
    hide ReadMember, ReadMembers, JR.SkipWhite, G.BindingSpelling, G.ValidBinding, G.Blank;
    MembersTurnMeans(c, s, b, keys);
    var k := JR.SkipWhite(s, b);
    SkippedIsBlank(s, b);
    if s[k] == RIGHT_BRACE {
      fs, end := [], Some(s[b..k]);
      SpanSnoc(s, b, k, s[b..k]);
    } else {
      var m := ReadMember(c, s, k, keys);
      var t := JR.SkipWhite(s, m.last + 1);
      var f := BindingFound(c, s, b, keys);
      if s[t] == RIGHT_BRACE {
        fs, end := [f], None;
        SpanSnoc(s, b, t, G.BindingSpelling(f));
      } else {
        var more;
        more, end := BindingsFound(c, s, t + 1, m.keys);
        fs := [f] + more;
        assert fs[1..] == more;
        SpanCons(s, t, ReadMembers(c, s, b, keys).last + 1, G.BindingsSpelling(more, end));
        SpanJoin(s, b, t, ReadMembers(c, s, b, keys).last + 1, G.BindingSpelling(f),
            [COMMA] + G.BindingsSpelling(more, end));
      }
    }
  }

  // Whole texts

  /** Every text of the grammar is read, and to what it denotes. */
  lemma {:induction false} DocumentRead(c: Config, d: G.Item)
    requires G.ValidDocument(c.isDouble, d)
    ensures var r := Parse(c, G.ItemSpelling(d));
            r.Ok? && Resolve(r.value, r.keys.data) == G.TreeMeaning(c.isDouble, d.tree)
  {
    hide ReadValue, G.TreeSpelling, Resolve, G.TreeMeaning, G.ValidTree, JR.SkipWhite, G.Blank;
    var s := G.ItemSpelling(d);
    assert s[0..|s|] == s;
    SpanSplit(s, 0, |s|, d.before, G.TreeSpelling(d.tree) + d.after);
    var p := |d.before|;
    SpanSplit(s, p, |s|, G.TreeSpelling(d.tree), d.after);
    var a := p + |G.TreeSpelling(d.tree)|;
    TreeStart(c.isDouble, d.tree);
    assert s[p] == G.TreeSpelling(d.tree)[0];
    StartIsToken(d.tree, s[p]);
    BlankSkipped(s, 0, p, d.before);
    BlankSkipped(s, a, |s|, d.after);
    TreeRead(c, s, p, a, d.tree, Keys(0, []));
  }

  /** Whatever is read is a text of the grammar. */
  lemma {:induction false} DocumentFound(c: Config, s: Bytes) returns (d: G.Item)
    requires Parse(c, s).Ok?
    ensures G.ValidDocument(c.isDouble, d) && G.ItemSpelling(d) == s
  {
    hide ReadValue, G.TreeSpelling, G.ValidTree, JR.SkipWhite, G.Blank, G.ItemSpelling;
    d := ItemFound(c, s, 0, Keys(0, []));
    assert s[0..|s|] == s;
    var p := JR.SkipWhite(s, 0);
    ContainerFound(c, s, p, d);
  }

  lemma {:induction false} ContainerFound(c: Config, s: Bytes, p: nat, d: G.Item)
    requires G.ValidItem(c.isDouble, d) && G.ItemSpelling(d) == s && JR.SkipWhite(s, 0) == p < |s|
    requires s[p] == LEFT_BRACE || s[p] == LEFT_BRACKET
    ensures d.tree.List? || d.tree.Dict?
  {
    hide G.TreeSpelling, G.ValidTree, JR.SkipWhite, G.Blank;
    assert s[0..|s|] == s;
    SpanSplit(s, 0, |s|, d.before, G.TreeSpelling(d.tree) + d.after);
    TreeStart(c.isDouble, d.tree);
    var k := |d.before|;
    assert s[k] == G.TreeSpelling(d.tree)[0];
    StartIsToken(d.tree, s[k]);
    BlankSkipped(s, 0, k, d.before);
  }

  /** Over all byte strings: the parser succeeds with a value if and only if the text is in the grammar and
      denotes that value. */
  lemma {:induction false} ParseTakesExactly(c: Config, s: Bytes, v: Value)
    ensures (Parse(c, s).Ok? && Resolve(Parse(c, s).value, Parse(c, s).keys.data) == v) <==> G.Denotes(c.isDouble, s, v)
  {
    hide Parse, Resolve, G.ValidDocument, G.ItemSpelling, G.TreeMeaning;
    if Parse(c, s).Ok? {
      var d := DocumentFound(c, s);
      DocumentRead(c, d);
      DocumentIsTree(c, d);
    }
    if G.Denotes(c.isDouble, s, v) {
      DenotedRead(c, s, v);
    }
  }

  lemma {:induction false} DocumentIsTree(c: Config, d: G.Item)
    requires G.ValidDocument(c.isDouble, d)
    ensures G.ValidTree(c.isDouble, d.tree)
  {
  }

  lemma {:induction false} DenotedRead(c: Config, s: Bytes, v: Value)
    requires G.Denotes(c.isDouble, s, v)
    ensures Parse(c, s).Ok? && Resolve(Parse(c, s).value, Parse(c, s).keys.data) == v
  {
    hide Parse, Resolve, G.ItemSpelling, G.TreeMeaning;
    var d :| G.ValidDocument(c.isDouble, d) && G.ItemSpelling(d) == s && G.TreeMeaning(c.isDouble, d.tree) == v;
    DocumentRead(c, d);
  }
}
