/** The co JSON parser reads back what the co JSON printer wrote. */
module CoRoundTrip {
  import opened Options
  import opened ByteText
  import opened Decimal
  import opened JsonGrammar
  import opened CoValue
  import opened CoTokens
  import opened CoReader
  import opened CoTheorems

  /** Integers have 64 bits. Strings and keys are C strings; a key, which is printed as it is, holds no
      quote. */
  ghost predicate Printable(v: Value) {
    match v
    case Int(n) => IsInt64(n)
    case Double(_) => false
    case Str(s) => NUL !in s
    case Arr(vs) => PrintableItems(vs)
    case Obj(ms) => PrintableMembers(ms)
    case _ => true
  }

  ghost predicate PrintableItems(vs: seq<Value>) {
    |vs| == 0 || (Printable(vs[0]) && PrintableItems(vs[1..]))
  }

  ghost predicate PrintableMember(m: CoValue.Member) {
    NUL !in m.key && QUOTE !in m.key && Printable(m.value)
  }

  ghost predicate PrintableMembers(ms: seq<CoValue.Member>) {
    |ms| == 0 || (PrintableMember(ms[0]) && PrintableMembers(ms[1..]))
  }

  // Strings and keys

  /** What is read from the stop at p on. */
  function FromStop(s: Bytes, p: nat, out: Bytes): Option<(Bytes, nat)>
    requires p <= |s|
  {
    if p == |s| then None
    else if s[p] == QUOTE then Some((out, p))
    else if p + 1 == |s| then None
    else if s[p + 1] == LOWER_U then
      match ReadUnicode(s, p + 2)
      case None => None
      case Some((text, q)) => ReadText(s, q + 1, out + text)
    else if IsEscapeLetter(s[p + 1]) then ReadText(s, p + 2, out + [EscapeValue(s[p + 1])])
    else None
  }

  lemma {:induction false} StopsAt(s: Bytes, i: nat, out: Bytes)
    requires i <= |s|
    ensures var p := FindStop(s, i);
            (p < |s| ==> s[p] == QUOTE || s[p] == BACKSLASH) && ReadText(s, i, out) == FromStop(s, p, out + s[i..p])
  {
    hide FindStop, ReadUnicode, EscapeValue, IsEscapeLetter;
  }

  lemma {:induction false} PlainByte(s: Bytes, i: nat, out: Bytes)
    requires i < |s| && s[i] != NUL && s[i] != QUOTE && s[i] != BACKSLASH
    ensures ReadText(s, i, out) == ReadText(s, i + 1, out + [s[i]])
  {
    var p := FindStop(s, i + 1);
    assert FindStop(s, i) == p;
    hide FindStop, FromStop, ReadText;
    StopsAt(s, i, out);
    StopsAt(s, i + 1, out + [s[i]]);
    assert s[i..p] == [s[i]] + s[i + 1..p];
    Regroup(out, [s[i]], s[i + 1..p]);
  }

  lemma {:induction false} EscapedPair(s: Bytes, i: nat, out: Bytes, b: Byte)
    requires i + 2 <= |s| && IsSpecial(b) && s[i] == BACKSLASH && s[i + 1] == EscapeLetterOf(b)
    ensures ReadText(s, i, out) == ReadText(s, i + 2, out + [b])
  {
    assert FindStop(s, i) == i;
    assert out + s[i..i] == out;
  }

  lemma {:induction false} ReadTextPrinted(s: Bytes, i: nat, j: nat, out: Bytes, text: Bytes)
    requires NUL !in text && Span(s, i, j, EscapeAll(text) + [QUOTE])
    ensures ReadText(s, i, out) == Some((out + text, j - 1))
    decreases |text|
  {
    hide ReadText;
    if |text| == 0 {
      assert EscapeAll(text) + [QUOTE] == [QUOTE] + [];
      SpanByte(s, i, j, QUOTE, []);
      TextEnd(s, i, out);
      assert out + text == out;
    } else {
      var b, t := text[0], EscapeByte(text[0]);
      Regroup(t, EscapeAll(text[1..]), [QUOTE]);
      SpanSplit(s, i, j, t, EscapeAll(text[1..]) + [QUOTE]);
      assert s[i] == t[0];
      if IsSpecial(b) {
        assert s[i + 1] == t[1];
        EscapedPair(s, i, out, b);
      } else {
        assert text[0] in text;
        PlainByte(s, i, out);
      }
      ReadTextPrinted(s, i + |t|, j, out + [b], text[1..]);
      assert text == [b] + text[1..];
      Regroup(out, [b], text[1..]);
    }
  }

  lemma {:induction false} TextEnd(s: Bytes, i: nat, out: Bytes)
    requires i < |s| && s[i] == QUOTE
    ensures ReadText(s, i, out) == Some((out, i))
  {
    assert FindStop(s, i) == i;
    assert out + s[i..i] == out;
  }

  lemma {:induction false} FindQuoteIs(s: Bytes, i: nat, j: nat)
    requires i <= j < |s| && s[j] == QUOTE && forall k :: i <= k < j ==> s[k] != QUOTE
    ensures FindQuote(s, i) == j
    decreases j - i
  {
    if i < j {
      FindQuoteIs(s, i + 1, j);
    }
  }

  /** A key appended to the buffer is read back from its offset. */
  lemma {:induction false} NulAtIs(data: Bytes, i: nat, j: nat)
    requires i <= j < |data| && data[j] == NUL && forall k :: i <= k < j ==> data[k] != NUL
    ensures NulAt(data, i) == j
    decreases j - i
  {
    if i < j {
      NulAtIs(data, i + 1, j);
    }
  }

  lemma {:induction false} KeyReadBack(data: Bytes, key: Bytes)
    requires NUL !in key
    ensures KeyAt(data + key + [NUL], |data|) == key
  {
    var all := data + key + [NUL];
    forall k | |data| <= k < |data| + |key| ensures all[k] != NUL {
      assert all[k] == key[k - |data|];
    }
    NulAtIs(all, |data|, |data| + |key|);
  }

  // Tokens

  predicate IsTokenText(w: Bytes) {
    |w| > 0 && forall k :: 0 < k < |w| ==> !EndsToken(w[k]) && w[k] != DOT
  }

  lemma {:induction false} TokenEndIs(s: Bytes, i: nat, j: nat, dots: nat)
    requires i <= j < |s| && EndsToken(s[j]) && forall k :: i <= k < j ==> !EndsToken(s[k]) && s[k] != DOT
    ensures TokenEnd(s, i, dots) == (j, dots)
    decreases j - i
  {
    if i < j {
      TokenEndIs(s, i + 1, j, dots);
    }
  }

  lemma {:induction false} TokenRead(c: Config, s: Bytes, i: nat, j: nat, w: Bytes)
    requires IsTokenText(w) && Span(s, i, j, w) && j < |s| && EndsToken(s[j])
    ensures ReadToken(c, s, i) == match TokenValue(c, w, 0) case None => None case Some(v) => Some((v, j - 1))
  {
    forall k | i + 1 <= k < j ensures !EndsToken(s[k]) && s[k] != DOT {
      assert s[k] == w[k - i];
    }
    TokenEndIs(s, i + 1, j, 0);
  }

  lemma {:induction false} IntegerToken(c: Config, n: int)
    requires IsInt64(n)
    ensures IsTokenText(IntText(n)) && TokenValue(c, IntText(n), 0) == Some(PInt(n))
  {
    var t := IntText(n);
    IntTextValue(n);
    if n < 0 {
      assert t[1..] == NatText(-n);
    }
    assert t[0] == MINUS || IsDigit(t[0]);
  }

  /** fastatoi(i64toa(v)) = v in 64 bits, and without an overflow on the way exactly when v is at most
      2^63 - 49 in size; no accumulator is more than the size of v. */
  lemma {:induction false} FastAtoiReadsBack(n: int)
    requires IsInt64(n)
    ensures var text := IntText(n); var t, size := DigitsOf(text), if n < 0 then -n else n;
            && IsInteger(text) && Wrap(IntValue(text)) == n
            && (forall i :: 0 <= i <= |t| ==> 0 <= NatValue(t[..i]) <= size)
            && ((forall i :: 0 <= i < |t| ==> StaysInRange(t, i)) <==> size <= MAX_INT64 - ZERO)
  {
    hide Wrap, StaysInRange;
    var text, size := IntText(n), if n < 0 then -n else n;
    IntTextValue(n);
    if n < 0 {
      assert text[1..] == NatText(size);
    }
    assert text[0] == MINUS <==> n < 0;
    var t := DigitsOf(text);
    assert t == NatText(size);
    NatTextValue(size);
    AccumulatesInRange(t);
    forall i | 0 <= i <= |t| ensures 0 <= NatValue(t[..i]) <= size {
      PrefixValue(t, i);
    }
  }

  // Values

  lemma {:induction false} TextStart(v: Value)
    requires Printable(v)
    ensures |Text(v)| > 0
    ensures var b := Text(v)[0];
            && !IsWhite(b) && b != RIGHT_BRACKET && b != RIGHT_BRACE
            && (b == QUOTE <==> v.Str?) && (b == LEFT_BRACE <==> v.Obj?) && (b == LEFT_BRACKET <==> v.Arr?)
  {
    if v.Int? {
      assert IntText(v.n)[0] == MINUS || IsDigit(IntText(v.n)[0]);
    }
  }

  lemma {:induction false} NotWhite(s: Bytes, i: nat)
    requires i < |s| && !IsWhite(s[i])
    ensures JR.SkipWhite(s, i) == i
  {
  }

  /** Only words and numbers need something after them. */
  predicate Delimited(s: Bytes, j: nat, v: Value) {
    v.Str? || v.Arr? || v.Obj? || (j < |s| && EndsToken(s[j]))
  }

  ghost predicate ReadsBack(r: Parsed<PValue>, v: Value, j: nat) {
    r.Ok? && r.last == j - 1 && Resolve(r.value, r.keys.data) == v
  }

  lemma {:induction false} ReadStrPrinted(c: Config, s: Bytes, i: nat, j: nat, t: Bytes, keys: Keys)
    requires Printable(Str(t)) && Span(s, i, j, Text(Str(t)))
    ensures i < j && ReadsBack(ReadValue(c, s, i, keys), Str(t), j)
  {
    hide ReadText, ReadToken, EscapeAll;
    StringBodyIsBytewise(t);
    SpanByte(s, i, j, QUOTE, EscapeAll(t) + [QUOTE]);
    ReadTextPrinted(s, i + 1, j, [], t);
    assert [] + t == t;
  }

  lemma {:induction false} ReadScalarPrinted(c: Config, s: Bytes, i: nat, j: nat, v: Value, keys: Keys)
    requires Printable(v) && Span(s, i, j, Text(v)) && Delimited(s, j, v) && !v.Arr? && !v.Obj?
    ensures i < j && ReadsBack(ReadValue(c, s, i, keys), v, j)
  {
    hide ReadText, ReadToken, TokenValue;
    TextStart(v);
    assert s[i] == Text(v)[0];
    match v
    case Str(t) =>
      hide *;
      ReadStrPrinted(c, s, i, j, t, keys);
    case Int(n) =>
      IntegerToken(c, n);
      TokenRead(c, s, i, j, IntText(n));
    case Bool(_) =>
      WordTokens(c);
      TokenRead(c, s, i, j, Text(v));
    case Null =>
      WordTokens(c);
      TokenRead(c, s, i, j, Text(v));
  }

  lemma {:induction false} WordTokens(c: Config)
    ensures IsTokenText(NULL_WORD) && TokenValue(c, NULL_WORD, 0) == Some(PNull)
    ensures IsTokenText(TRUE_WORD) && TokenValue(c, TRUE_WORD, 0) == Some(PBool(true))
    ensures IsTokenText(FALSE_WORD) && TokenValue(c, FALSE_WORD, 0) == Some(PBool(false))
  {
  }

  lemma {:induction false} ReadValuePrinted(c: Config, s: Bytes, i: nat, j: nat, v: Value, keys: Keys)
    requires Printable(v) && Span(s, i, j, Text(v)) && Delimited(s, j, v)
    ensures i < j && ReadsBack(ReadValue(c, s, i, keys), v, j)
    decreases v, 1
  {
    hide ReadText, ReadToken, ReadItems, ReadMembers, ItemsText, MembersText;
    match v
    case Arr(vs) =>
      SpanByte(s, i, j, LEFT_BRACKET, ItemsText(vs) + [RIGHT_BRACKET]);
      ReadItemsPrinted(c, s, i + 1, j, vs, keys);
    case Obj(ms) =>
      SpanByte(s, i, j, LEFT_BRACE, MembersText(ms) + [RIGHT_BRACE]);
      ReadMembersPrinted(c, s, i + 1, j, ms, Open(c, keys));
    case _ =>
      ReadScalarPrinted(c, s, i, j, v, keys);
  }

  /** What follows the first item. */
  function ItemsRest(vs: seq<Value>): Bytes
    requires |vs| > 0
  {
    if |vs| == 1 then [RIGHT_BRACKET] else [COMMA] + (ItemsText(vs[1..]) + [RIGHT_BRACKET])
  }

  lemma {:induction false} ItemsShape(vs: seq<Value>)
    requires |vs| > 0
    ensures ItemsText(vs) + [RIGHT_BRACKET] == Text(vs[0]) + ItemsRest(vs)
  {
    hide Text;
    var more := if |vs| == 1 then [] else [COMMA] + ItemsText(vs[1..]);
    Regroup(Text(vs[0]), more, [RIGHT_BRACKET]);
    if |vs| > 1 { Regroup([COMMA], ItemsText(vs[1..]), [RIGHT_BRACKET]); }
  }

  /** A turn with no white space around the item. */
  lemma {:induction false} TightItemsTurn(c: Config, s: Bytes, b: nat, j: nat, keys: Keys)
    requires b < |s| && !IsWhite(s[b]) && s[b] != RIGHT_BRACKET
    requires ReadValue(c, s, b, keys).Ok? && ReadValue(c, s, b, keys).last + 1 == j < |s| && !IsWhite(s[j])
    ensures var v := ReadValue(c, s, b, keys);
            && (s[j] == RIGHT_BRACKET ==> ReadItems(c, s, b, keys) == Ok([v.value], j, v.keys))
            && (s[j] == COMMA ==> ReadItems(c, s, b, keys) == Prepend([v.value], ReadItems(c, s, j + 1, v.keys)))
  {
    hide ReadValue;
    NotWhite(s, b);
    NotWhite(s, j);
  }

  lemma {:induction false} ReadItemsPrinted(c: Config, s: Bytes, b: nat, j: nat, vs: seq<Value>, keys: Keys)
    requires PrintableItems(vs) && Span(s, b, j, ItemsText(vs) + [RIGHT_BRACKET])
    ensures var r := ReadItems(c, s, b, keys);
            b < j && r.Ok? && r.last == j - 1 && ResolveItems(r.value, r.keys.data) == vs
    decreases vs, 0
  {
    hide ReadValue, ReadItems, Text, Printable, Resolve;
    if |vs| == 0 {
      assert ItemsText(vs) + [RIGHT_BRACKET] == [RIGHT_BRACKET] + [];
      SpanByte(s, b, j, RIGHT_BRACKET, []);
      NothingRead(c, s, b, keys);
    } else {
      var t := Text(vs[0]);
      ItemsShape(vs);
      SpanSplit(s, b, j, t, ItemsRest(vs));
      var k := b + |t|;
      TextStart(vs[0]);
      assert s[b] == t[0];
      assert s[k] == ItemsRest(vs)[0];
      ReadValuePrinted(c, s, b, k, vs[0], keys);
      TightItemsTurn(c, s, b, k, keys);
      var r := ReadValue(c, s, b, keys);
      if |vs| == 1 {
        SpanByte(s, k, j, RIGHT_BRACKET, []);
        assert [r.value][1..] == [] && ResolveItems([], r.keys.data) == [] && vs == [vs[0]];
      } else {
        SpanByte(s, k, j, COMMA, ItemsText(vs[1..]) + [RIGHT_BRACKET]);
        ReadItemsPrinted(c, s, k + 1, j, vs[1..], r.keys);
        ItemsJoined(c, s, b, k + 1, keys, r.value, r.keys);
        assert vs == [vs[0]] + vs[1..];
      }
    }
  }

  lemma {:induction false} NothingRead(c: Config, s: Bytes, b: nat, keys: Keys)
    requires b < |s|
    ensures s[b] == RIGHT_BRACKET ==> ReadItems(c, s, b, keys) == Ok([], b, keys)
    ensures s[b] == RIGHT_BRACE ==> ReadMembers(c, s, b, keys) == Ok([], b, keys)
    ensures ResolveItems([], keys.data) == [] && ResolveMembers([], keys.data) == []
  {
    if s[b] == RIGHT_BRACKET || s[b] == RIGHT_BRACE { NotWhite(s, b); }
  }

  /** The later items leave the keys of the first alone. */
  lemma {:induction false} ItemsJoined(c: Config, s: Bytes, b: nat, k: nat, keys: Keys, v: PValue, keys': Keys)
    requires b < |s| && k <= |s| && ReadValue(c, s, b, keys).Ok?
    requires v == ReadValue(c, s, b, keys).value && keys' == ReadValue(c, s, b, keys).keys
    requires ReadItems(c, s, k, keys').Ok?
    ensures var rest := ReadItems(c, s, k, keys');
            ResolveItems([v] + rest.value, rest.keys.data)
              == [Resolve(v, keys'.data)] + ResolveItems(rest.value, rest.keys.data)
  {
    hide ReadValue, ReadItems, Resolve;
    ReadValueGrows(c, s, b, keys);
    ReadItemsGrows(c, s, k, keys');
    var rest := ReadItems(c, s, k, keys');
    var more := rest.keys.data[|keys'.data|..];
    assert rest.keys.data == keys'.data + more;
    KeysStay(v, keys'.data, more);
    assert ([v] + rest.value)[1..] == rest.value;
  }

  function MembersRest(ms: seq<CoValue.Member>): Bytes
    requires |ms| > 0
  {
    if |ms| == 1 then [RIGHT_BRACE] else [COMMA] + (MembersText(ms[1..]) + [RIGHT_BRACE])
  }

  lemma {:induction false} MembersShape(ms: seq<CoValue.Member>)
    requires |ms| > 0
    ensures MembersText(ms) + [RIGHT_BRACE] == MemberText(ms[0]) + MembersRest(ms)
  {
    hide MemberText;
    var more := if |ms| == 1 then [] else [COMMA] + MembersText(ms[1..]);
    Regroup(MemberText(ms[0]), more, [RIGHT_BRACE]);
    if |ms| > 1 { Regroup([COMMA], MembersText(ms[1..]), [RIGHT_BRACE]); }
  }

  lemma {:induction false} TightMembersTurn(c: Config, s: Bytes, b: nat, j: nat, keys: Keys)
    requires b < |s| && s[b] == QUOTE
    requires ReadMember(c, s, b, keys).Ok? && ReadMember(c, s, b, keys).last + 1 == j < |s| && !IsWhite(s[j])
    ensures var m := ReadMember(c, s, b, keys);
            && (s[j] == RIGHT_BRACE ==> ReadMembers(c, s, b, keys) == Ok([m.value], j, m.keys))
            && (s[j] == COMMA ==> ReadMembers(c, s, b, keys) == Prepend([m.value], ReadMembers(c, s, j + 1, m.keys)))
  {
    hide ReadMember;
    NotWhite(s, b);
    NotWhite(s, j);
  }

  lemma {:induction false} MemberRead(c: Config, s: Bytes, b: nat, p: nat, keys: Keys)
    requires b < p < |s| && s[b] == QUOTE && FindQuote(s, b + 1) == p
    requires p + 2 < |s| && s[p + 1] == COLON && !IsWhite(s[p + 2])
    ensures ReadMember(c, s, b, keys) ==
            match ReadValue(c, s, p + 2, keys.(data := keys.data + s[b + 1..p] + [NUL]))
              case Bad => Bad
              case Ok(value, last, keys') => Ok(PMember(|keys.data|, value), last, keys')
  {
    hide ReadValue;
    NotWhite(s, p + 1);
    NotWhite(s, p + 2);
  }

  /** Where the key and the value of a printed member stand. */
  lemma {:induction false} MemberLayout(s: Bytes, b: nat, j: nat, m: CoValue.Member) returns (p: nat)
    requires PrintableMember(m) && Span(s, b, j, MemberText(m))
    ensures b < p && p + 2 < j && s[b] == QUOTE && FindQuote(s, b + 1) == p && s[b + 1..p] == m.key
    ensures s[p + 1] == COLON && !IsWhite(s[p + 2]) && Span(s, p + 2, j, Text(m.value))
  {
    hide Text, FindQuote;
    SpanSplit(s, b, j, Quoted(m.key), [COLON] + Text(m.value));
    p := b + 1 + |m.key|;
    SpanByte(s, b, p + 1, QUOTE, m.key + [QUOTE]);
    SpanSplit(s, b + 1, p + 1, m.key, [QUOTE]);
    assert s[p] == s[p..p + 1][0];
    forall k | b + 1 <= k < p ensures s[k] != QUOTE {
      assert s[k] == m.key[k - b - 1];
    }
    FindQuoteIs(s, b + 1, p);
    SpanByte(s, p + 1, j, COLON, Text(m.value));
    TextStart(m.value);
    assert s[p + 2] == Text(m.value)[0];
  }

  lemma {:induction false} ReadMemberPrinted(c: Config, s: Bytes, b: nat, j: nat, m: CoValue.Member, keys: Keys)
    requires PrintableMember(m) && Span(s, b, j, MemberText(m)) && j < |s| && EndsToken(s[j])
    ensures var r := ReadMember(c, s, b, keys);
            && b < j && s[b] == QUOTE && r.Ok? && r.last == j - 1 && ResolveMember(r.value, r.keys.data) == m
    decreases m, 0
  {
    hide ReadMember, ReadValue, Text, MemberText, FindQuote, Printable, Resolve, KeyAt;
    var p := MemberLayout(s, b, j, m);
    var with := keys.(data := keys.data + m.key + [NUL]);
    ReadValuePrinted(c, s, p + 2, j, m.value, with);
    MemberRead(c, s, b, p, keys);
    KeyReadBack(keys.data, m.key);
    var r := ReadValue(c, s, p + 2, with);
    ReadValueGrows(c, s, p + 2, with);
    KeyKept(keys.data, m.key, r.keys.data);
  }

  lemma {:induction false} KeyKept(data: Bytes, key: Bytes, after: Bytes)
    requires NUL !in key && data + key + [NUL] <= after
    ensures KeyAt(after, |data|) == key
  {
    var with := data + key + [NUL];
    KeyReadBack(data, key);
    NulIn(with, |data|, |with| - 1);
    NulAtStays(with, |data|, after[|with|..]);
    assert after == with + after[|with|..];
  }

  lemma {:induction false} MembersJoined(c: Config, s: Bytes, b: nat, k: nat, keys: Keys, m: PMember, keys': Keys)
    requires b < |s| && k <= |s| && ReadMember(c, s, b, keys).Ok?
    requires m == ReadMember(c, s, b, keys).value && keys' == ReadMember(c, s, b, keys).keys
    requires ReadMembers(c, s, k, keys').Ok?
    ensures var rest := ReadMembers(c, s, k, keys');
            ResolveMembers([m] + rest.value, rest.keys.data)
              == [ResolveMember(m, keys'.data)] + ResolveMembers(rest.value, rest.keys.data)
  {
    hide ReadMember, ReadMembers, ResolveMember;
    ReadMemberGrows(c, s, b, keys);
    ReadMembersGrows(c, s, k, keys');
    var rest := ReadMembers(c, s, k, keys');
    var more := rest.keys.data[|keys'.data|..];
    assert rest.keys.data == keys'.data + more;
    KeyOfStays(m, keys'.data, more);
    assert ([m] + rest.value)[1..] == rest.value;
  }

  lemma {:induction false} ReadMembersPrinted(c: Config, s: Bytes, b: nat, j: nat, ms: seq<CoValue.Member>, keys: Keys)
    requires PrintableMembers(ms) && Span(s, b, j, MembersText(ms) + [RIGHT_BRACE])
    ensures var r := ReadMembers(c, s, b, keys);
            b < j && r.Ok? && r.last == j - 1 && ResolveMembers(r.value, r.keys.data) == ms
    decreases ms, 1
  {
    hide ReadMember, ReadMembers, MemberText, PrintableMember, ResolveMember;
    if |ms| == 0 {
      assert MembersText(ms) + [RIGHT_BRACE] == [RIGHT_BRACE] + [];
      SpanByte(s, b, j, RIGHT_BRACE, []);
      NothingRead(c, s, b, keys);
    } else {
      var t := MemberText(ms[0]);
      MembersShape(ms);
      SpanSplit(s, b, j, t, MembersRest(ms));
      var k := b + |t|;
      assert s[k] == MembersRest(ms)[0];
      ReadMemberPrinted(c, s, b, k, ms[0], keys);
      TightMembersTurn(c, s, b, k, keys);
      var r := ReadMember(c, s, b, keys);
      if |ms| == 1 {
        SpanByte(s, k, j, RIGHT_BRACE, []);
        assert [r.value][1..] == [] && ResolveMembers([], r.keys.data) == [] && ms == [ms[0]];
      } else {
        SpanByte(s, k, j, COMMA, MembersText(ms[1..]) + [RIGHT_BRACE]);
        ReadMembersPrinted(c, s, k + 1, j, ms[1..], r.keys);
        MembersJoined(c, s, b, k + 1, keys, r.value, r.keys);
        assert ms == [ms[0]] + ms[1..];
      }
    }
  }

  /** A printed object or array is parsed to the same value, every key read back from the shared
      buffer, which a buffer of the text's length, or the default one, does not outgrow. */
  lemma {:induction false} RoundTrip(c: Config, v: Value)
    requires Printable(v) && (v.Arr? || v.Obj?)
    ensures var s := Text(v); var r := Parse(c, s);
            && r.Ok? && Resolve(r.value, r.keys.data) == v
            && (c.keysLen >= |s| || c.keysLen == KeysLen(s, 0) ==> BufferSize(r.keys) <= Capacity(c.keysLen))
  {
    hide ReadValue, Text, Resolve, Printable, KeysLen, Capacity;
    var s := Text(v);
    TextStart(v);
    assert s[0..|s|] == s;
    NotWhite(s, 0);
    ReadValuePrinted(c, s, 0, |s|, v, Keys(0, []));
    assert JR.SkipWhite(s, |s|) == |s|;
    KeyBufferSuffices(c, s);
  }
}
