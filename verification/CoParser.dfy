/** The co JSON parser itself: loops that walk the text, and the key buffer that grows as they go.
    Every method is proved to do what the functions of CoReader say. */
module CoParser {
  import opened Options
  import opened ByteText
  import opened Decimal
  import opened Utf8
  import opened JsonGrammar
  import opened CoValue
  import opened CoTokens
  import opened CoReader
  import opened CoTheorems
  import opened CoRoundTrip

  /** The `fastream` that holds the keys of one text. `moved` records that it had to be reallocated,
      after which pointers into it no longer hold. */
  class KeyStream {
    const keysLen: nat
    var cap: nat
    var refs: nat
    var data: Bytes
    var moved: bool

    ghost predicate Valid()
      reads this
    {
      && BufferSize(State()) <= cap
      && (moved ==> BufferSize(State()) > Capacity(keysLen))
      && (!moved ==> cap == if refs > 0 then Capacity(keysLen) else 0)
    }

    function State(): Keys
      reads this
    {
      Keys(refs, data)
    }

    constructor (len: nat)
      ensures Valid() && keysLen == len && State() == Keys(0, []) && !moved
    {
      keysLen, cap, refs, data, moved := len, 0, 0, [], false;
    }

    /** `_Ensure(n)` and the copy that follows it. */
    method Append(bytes: Bytes)
      requires Valid() && (keysLen > 0 ==> refs > 0)
      modifies this
      ensures Valid() && State() == old(State()).(data := old(data) + bytes)
      ensures moved <==> old(moved) || BufferSize(State()) > old(cap)
    {
      if cap < BufferSize(State()) + |bytes| {
        cap := cap * 3 / 2 + |bytes|;
        moved := true;
      }
      data := data + bytes;
    }

    /** What opening an object does to the buffer. */
    method Open(c: Config)
      requires Valid() && c.keysLen == keysLen
      requires keysLen > 0 && refs == 0 ==> data == []
      modifies this
      ensures Valid() && State() == CoReader.Open(c, old(State()))
    {
      if c.keysLen > 0 {
        if refs == 0 {
          cap := Capacity(keysLen);
        }
        refs := refs + 1;
      }
    }
  }

  /** The digit loop of `read_unicode`. */
  method ReadDigits(s: Bytes, b: nat) returns (r: Option<nat>)
    requires b <= |s|
    ensures r == match JR.ReadHex(s, b) case None => None case Some(h) => Some(Hex4(h))
  {
    var v: int := 0;
    for i := 0 to 4
      invariant b + i <= |s|
      invariant forall k :: b <= k < b + i ==> IsHex(s[k])
      invariant v == PartialHex(s[b..b + i])
    {
      var c := At(s, b + i);
      if !IsHex(c) {
        assert b + 4 <= |s| ==> s[b..b + 4][i] == c;
        return None;
      }
      assert s[b..b + i + 1][..i] == s[b..b + i];
      v := v * 16 + HexValue(c);
    }
    var h := s[b..b + 4];
    assert h[..3] == s[b..b + 3] && h[..2] == s[b..b + 2] && h[..1] == s[b..b + 1];
    HexSteps(h);
    r := Some(v);
  }

  function PartialHex(h: Bytes): int {
    if |h| == 0 then 0
    else PartialHex(h[..|h| - 1]) * 16 + if IsHex(h[|h| - 1]) then HexValue(h[|h| - 1]) else 0
  }

  lemma {:induction false} HexSteps(h: Bytes)
    requires IsHexQuad(h)
    ensures PartialHex(h) == Hex4(h)
  {
    assert h[..3][..2] == h[..2] && h[..2][..1] == h[..1] && h[..1][..0] == [];
    assert PartialHex(h[..1]) == HexValue(h[0]);
    assert PartialHex(h[..2]) == PartialHex(h[..1]) * 16 + HexValue(h[1]);
    assert PartialHex(h[..3]) == PartialHex(h[..2]) * 16 + HexValue(h[2]);
  }

  method ReadEscape(s: Bytes, b: nat) returns (r: Option<(Bytes, nat)>)
    requires b <= |s|
    ensures r == ReadUnicode(s, b)
  {
    var v := ReadDigits(s, b);
    if v.None? {
      return None;
    }
    var point, at: nat := v.value, b + 4;
    if 0xD800 <= point <= 0xDBFF {
      if |s| < at + 5 || s[at] != BACKSLASH || s[at + 1] != LOWER_U {
        return None;
      }
      var u := ReadDigits(s, at + 2);
      if u.None? || u.value < 0xDC00 || u.value > 0xDFFF {
        return None;
      }
      point, at := 0x10000 + (point - 0xD800) * 0x400 + (u.value - 0xDC00), at + 6;
    }
    r := Some((Encode(point), at - 1));
  }

  lemma {:induction false} TextTurn(s: Bytes, b: nat, out: Bytes)
    requires b <= |s|
    ensures var p, r := FindStop(s, b), ReadText(s, b, out);
            if p == |s| then r == None
            else if s[p] == QUOTE then r == Some((out + s[b..p], p))
            else if p + 1 == |s| then r == None
            else if s[p + 1] == LOWER_U then
              match ReadUnicode(s, p + 2)
              case None => r == None
              case Some((text, q)) => r == ReadText(s, q + 1, out + s[b..p] + text)
            else if IsEscapeLetter(s[p + 1]) then
              r == ReadText(s, p + 2, out + s[b..p] + [EscapeValue(s[p + 1])])
            else r == None
  {
    hide FindStop, ReadUnicode;
  }

  method ReadString(s: Bytes, b0: nat) returns (r: Option<(Bytes, nat)>)
    requires b0 <= |s|
    ensures r == ReadText(s, b0, [])
  {
    hide FindStop, ReadUnicode, ReadText, EscapeValue, IsEscapeLetter;
    var b, p, out := b0, FindStop(s, b0), [];
    while p < |s| && s[p] != QUOTE
      invariant b <= |s| && p == FindStop(s, b)
      invariant ReadText(s, b, out) == ReadText(s, b0, [])
      decreases |s| - b
    {
      TextTurn(s, b, out);
      out := out + s[b..p];
      p := p + 1;
      if p == |s| {
        return None;
      }
      if s[p] == LOWER_U {
        var escape := ReadEscape(s, p + 1);
        if escape.None? {
          return None;
        }
        out := out + escape.value.0;
        p := escape.value.1;
      } else if IsEscapeLetter(s[p]) {
        out := out + [EscapeValue(s[p])];
      } else {
        return None;
      }
      b := p + 1;
      p := FindStop(s, b);
    }
    TextTurn(s, b, out);
    if p == |s| {
      return None;
    }
    r := Some((out + s[b..p], p));
  }

  /** The accumulator has 64 bits. */
  method FastAtoi(text: Bytes) returns (r: Option<int>)
    requires |text| > 0
    ensures r == if IsInteger(text) then Some(Wrap(IntValue(text))) else None
  {
    hide Wrap, AddDigit;
    var negative := text[0] == MINUS;
    var first := if negative then 1 else 0;
    var v: int := 0;
    NoDigits(text[first..first]);
    for i := first to |text|
      invariant Digits(text[first..i]) && v == Wrap(NatValue(text[first..i]))
    {
      if !IsDigit(text[i]) {
        assert text[first..][i - first] == text[i];
        assert text[0..] == text;
        return None;
      }
      assert text[first..i + 1][..i - first] == text[first..i];
      AddDigitWraps(NatValue(text[first..i]), text[i]);
      v := AddDigit(v, text[i]);
    }
    assert text[first..|text|] == if negative then text[1..] else text;
    NegateWraps(NatValue(text[first..]));
    r := Some(if negative then Wrap(-v) else v);
  }

  lemma {:induction false} NoDigits(t: Bytes)
    requires |t| == 0
    ensures Digits(t) && Wrap(NatValue(t)) == 0
  {
  }

  /** The branches on the first byte, once the end is found. */
  method WordOrNumber(c: Config, text: Bytes, dots: nat) returns (v: Option<PValue>)
    requires |text| > 0
    ensures v == TokenValue(c, text, dots)
  {
    if text[0] == LOWER_F {
      v := if text == FALSE_WORD then Some(PBool(false)) else None;
    } else if text[0] == LOWER_T {
      v := if text == TRUE_WORD then Some(PBool(true)) else None;
    } else if text[0] == LOWER_N {
      v := if text == NULL_WORD then Some(PNull) else None;
    } else if dots == 0 {
      var n := FastAtoi(text);
      v := if n.Some? then Some(PInt(n.value)) else None;
    } else {
      v := if c.isDouble(text) then Some(PDouble(text)) else None;
    }
  }

  method ReadWordOrNumber(c: Config, s: Bytes, p: nat) returns (r: Option<(PValue, nat)>)
    requires p < |s|
    ensures r == ReadToken(c, s, p)
  {
    hide TokenValue, EndsToken;
    var dots, b := 0, p + 1;
    while b < |s|
      invariant p < b <= |s| && dots <= 1
      invariant TokenEnd(s, b, dots) == TokenEnd(s, p + 1, 0)
    {
      if EndsToken(s[b]) {
        var v := WordOrNumber(c, s[p..b], dots);
        return if v.Some? then Some((v.value, b - 1)) else None;
      } else if s[b] == DOT {
        dots := dots + 1;
        if dots > 1 {
          return None;
        }
      }
      b := b + 1;
    }
    r := None;
  }

  method SkipBlanks(s: Bytes, b0: nat) returns (b: nat)
    requires b0 <= |s|
    ensures b == JR.SkipWhite(s, b0)
  {
    b := b0;
    while b < |s| && IsWhite(s[b])
      invariant b0 <= b <= |s| && JR.SkipWhite(s, b) == JR.SkipWhite(s, b0)
    {
      b := b + 1;
    }
  }

  /** The parse of a value, an object's members or an array's items has gone as the step r says. */
  ghost predicate Went<T(!new)>(keys: KeyStream, r: Parsed<T>, v: Option<(T, nat)>)
    reads keys
  {
    match r
    case Bad => v == None
    case Ok(value, last, after) => v == Some((value, last)) && keys.State() == after
  }

  ghost predicate Ready(keys: KeyStream, c: Config)
    reads keys
  {
    && keys.Valid() && keys.keysLen == c.keysLen
    && (c.keysLen > 0 && keys.refs == 0 ==> keys.data == [])
  }

  method ParseValue(c: Config, s: Bytes, b: nat, keys: KeyStream) returns (v: Option<(PValue, nat)>)
    requires b < |s| && Ready(keys, c)
    modifies keys
    ensures Ready(keys, c) && keys.refs >= old(keys.refs)
    ensures Went(keys, ReadValue(c, s, b, old(keys.State())), v)
    decreases |s| - b, 0
  {
    hide ReadText, ReadToken, ReadMembers, ReadItems;
    if s[b] == QUOTE {
      var text := ReadString(s, b + 1);
      v := if text.Some? then Some((PStr(text.value.0), text.value.1)) else None;
    } else if s[b] == LEFT_BRACE {
      keys.Open(c);
      var ms := ParseObject(c, s, b + 1, keys);
      v := if ms.Some? then Some((PObj(ms.value.0), ms.value.1)) else None;
    } else if s[b] == LEFT_BRACKET {
      var vs := ParseArray(c, s, b + 1, keys);
      v := if vs.Some? then Some((PArr(vs.value.0), vs.value.1)) else None;
    } else {
      v := ReadWordOrNumber(c, s, b);
    }
  }

  /** The members of an object; the opening brace has been read and the buffer opened. */
  method ParseObject(c: Config, s: Bytes, b0: nat, keys: KeyStream) returns (v: Option<(seq<PMember>, nat)>)
    requires b0 <= |s| && Ready(keys, c) && (c.keysLen > 0 ==> keys.refs > 0)
    modifies keys
    ensures Ready(keys, c) && keys.refs >= old(keys.refs)
    ensures Went(keys, ReadMembers(c, s, b0, old(keys.State())), v)
    decreases |s| - b0, 1
  {
    hide ReadMember, ReadMembers, JR.SkipWhite, IsWhite, BufferSize;
    var b, members := b0, [];
    ghost var goal := ReadMembers(c, s, b0, keys.State());
    PrependNothing(goal);
    while true
      invariant b0 <= b <= |s| && Ready(keys, c) && keys.refs >= old(keys.refs)
      invariant goal == Prepend(members, ReadMembers(c, s, b, keys.State()))
      decreases |s| - b
    {
      MembersTurn(c, s, b, keys.State());
      var k := SkipBlanks(s, b);
      if k == |s| {
        return None;
      }
      if s[k] == RIGHT_BRACE {
        assert members + [] == members;
        return Some((members, k));
      }
      var m := ParseMember(c, s, k, keys);
      if m.None? {
        return None;
      }
      var t := SkipBlanks(s, m.value.1 + 1);
      if t == |s| {
        return None;
      }
      if s[t] == RIGHT_BRACE {
        return Some((members + [m.value.0], t));
      }
      if s[t] != COMMA {
        return None;
      }
      b := t + 1;
      PrependTwice(members, [m.value.0], ReadMembers(c, s, b, keys.State()));
      members := members + [m.value.0];
    }
  }

  method ParseMember(c: Config, s: Bytes, k: nat, keys: KeyStream) returns (v: Option<(PMember, nat)>)
    requires k < |s| && Ready(keys, c) && (c.keysLen > 0 ==> keys.refs > 0)
    modifies keys
    ensures Ready(keys, c) && keys.refs >= old(keys.refs)
    ensures Went(keys, ReadMember(c, s, k, old(keys.State())), v)
    decreases |s| - k, 0
  {
    hide ReadValue, FindQuote, JR.SkipWhite;
    if s[k] != QUOTE {
      return None;
    }
    var key := |keys.data|;
    var p := FindQuote(s, k + 1);
    if p == |s| {
      return None;
    }
    keys.Append(s[k + 1..p]);
    keys.Append([NUL]);
    var colon := SkipBlanks(s, p + 1);
    if colon == |s| || s[colon] != COLON {
      return None;
    }
    var at := SkipBlanks(s, colon + 1);
    if at == |s| {
      return None;
    }
    ghost var with := keys.State();
    var value := ParseValue(c, s, at, keys);
    if value.None? {
      return None;
    }
    ReadValueGrows(c, s, at, with);
    v := Some((PMember(key, value.value.0), value.value.1));
  }

  method ParseArray(c: Config, s: Bytes, b0: nat, keys: KeyStream) returns (v: Option<(seq<PValue>, nat)>)
    requires b0 <= |s| && Ready(keys, c)
    modifies keys
    ensures Ready(keys, c) && keys.refs >= old(keys.refs)
    ensures Went(keys, ReadItems(c, s, b0, old(keys.State())), v)
    decreases |s| - b0, 1
  {
    hide ReadValue, ReadItems, JR.SkipWhite, IsWhite, BufferSize;
    var b, items := b0, [];
    ghost var goal := ReadItems(c, s, b0, keys.State());
    PrependNothing(goal);
    while true
      invariant b0 <= b <= |s| && Ready(keys, c) && keys.refs >= old(keys.refs)
      invariant goal == Prepend(items, ReadItems(c, s, b, keys.State()))
      decreases |s| - b
    {
      ItemsTurn(c, s, b, keys.State());
      var k := SkipBlanks(s, b);
      if k == |s| {
        return None;
      }
      if s[k] == RIGHT_BRACKET {
        assert items + [] == items;
        return Some((items, k));
      }
      var item := ParseValue(c, s, k, keys);
      if item.None? {
        return None;
      }
      var t := SkipBlanks(s, item.value.1 + 1);
      if t == |s| {
        return None;
      }
      if s[t] == RIGHT_BRACKET {
        return Some((items + [item.value.0], t));
      }
      if s[t] != COMMA {
        return None;
      }
      b := t + 1;
      PrependTwice(items, [item.value.0], ReadItems(c, s, b, keys.State()));
      items := items + [item.value.0];
    }
  }

  lemma {:induction false} PrependNothing<T>(r: Parsed<seq<T>>)
    ensures Prepend([], r) == r
  {
    if r.Ok? {
      assert [] + r.value == r.value;
    }
  }

  lemma {:induction false} PrependTwice<T>(a: seq<T>, b: seq<T>, r: Parsed<seq<T>>)
    ensures Prepend(a, Prepend(b, r)) == Prepend(a + b, r)
  {
    if r.Ok? {
      assert a + (b + r.value) == (a + b) + r.value;
    }
  }

  /** `parse_from`. When it accepts a text the value is the text's as long as the buffer has not moved, with
      the keys read where the value says; the buffer moves exactly when its contents outgrow it, and never if
      it is as long as the text or of the default length. */
  method ParseFrom(isDouble: Bytes -> bool, s: Bytes, asked: nat) returns (ok: bool, v: Value, moved: bool)
    ensures var c := Config(KeysLen(s, asked), isDouble); var r := Parse(c, s);
            && (ok <==> r.Ok?)
            && (ok ==> (moved <==> BufferSize(r.keys) > Capacity(c.keysLen)))
            && (ok && !moved ==> v == Resolve(r.value, r.keys.data))
    ensures ok && (asked == 0 || asked >= |s|) ==> !moved
    ensures forall w :: Printable(w) && (w.Arr? || w.Obj?) && s == Text(w) ==> ok && (!moved ==> v == w)
  {
    hide ReadValue, Printable, Text, Resolve;
    var c := Config(KeysLen(s, asked), isDouble);
    var keys := new KeyStream(c.keysLen);
    ok, v := false, CoValue.Null;
    var p := SkipBlanks(s, 0);
    if p < |s| && (s[p] == LEFT_BRACE || s[p] == LEFT_BRACKET) {
      var r := ParseValue(c, s, p, keys);
      if r.Some? {
        var e := SkipBlanks(s, r.value.1 + 1);
        if e == |s| {
          KeyBufferSuffices(c, s);
          ok, v := true, Resolve(r.value.0, keys.data);
        }
      }
    }
    moved := keys.moved;
    forall w | Printable(w) && (w.Arr? || w.Obj?) && s == Text(w) ensures ok && (!moved ==> v == w) {
      RoundTrip(c, w);
    }
  }
}
