/** Characters outside ASCII as JSON writes them by escapes: UTF-16 code units in hexadecimal digits, as
    section 7 of RFC 8259 has them. Both libraries read every such text to the UTF-8 of its characters. */
module Utf16 {
  import opened ByteText
  import opened Utf8
  import opened JsonGrammar
  import opened JsonStringProofs
  import JsonValue
  import JR = JsonReader
  import JT = JsonTheorems
  import CoValue
  import R = CoReader
  import S = CoStandard
  import T = CoToJson11

  // Numbers are written out: nothing here is shared with the parsers

  type Character = pt: int | 0 <= pt <= 0x10FFFF && !(0xD800 <= pt <= 0xDFFF)

  /** Either case. */
  predicate DigitIs(b: Byte, d: nat) {
    if d < 10 then b == 0x30 + d else d < 16 && (b == 0x41 + (d - 10) || b == 0x61 + (d - 10))
  }

  predicate SpellsUnit(t: Bytes, u: nat) {
    && |t| == 6 && t[0] == 0x5C && t[1] == 0x75
    && DigitIs(t[2], u / 0x1000) && DigitIs(t[3], u / 0x100 % 0x10)
    && DigitIs(t[4], u / 0x10 % 0x10) && DigitIs(t[5], u % 0x10)
  }

  function HighUnit(pt: int): nat
    requires 0x10000 <= pt
  {
    0xD800 + (pt - 0x10000) / 0x400
  }

  function LowUnit(pt: int): nat
    requires 0x10000 <= pt
  {
    0xDC00 + (pt - 0x10000) % 0x400
  }

  /** One escape for a character, or two beyond the basic plane. */
  predicate Spells(t: Bytes, points: seq<Character>)
    decreases |points|
  {
    if |points| == 0 then t == []
    else if points[0] < 0x10000 then |t| >= 6 && SpellsUnit(t[..6], points[0]) && Spells(t[6..], points[1..])
    else
      |t| >= 12 && SpellsUnit(t[..6], HighUnit(points[0])) && SpellsUnit(t[6..12], LowUnit(points[0]))
      && Spells(t[12..], points[1..])
  }

  // One character

  /** The two units of a character beyond the basic plane are a high and a low surrogate, and combine to it. */
  lemma {:induction false} PairCombines(pt: int)
    requires 0x10000 <= pt <= 0x10FFFF
    ensures IsHigh(HighUnit(pt)) && IsLow(LowUnit(pt)) && Combine(HighUnit(pt), LowUnit(pt)) == pt
  {
  }

  lemma {:induction false} DigitValue(b: Byte, d: nat)
    requires DigitIs(b, d)
    ensures IsHex(b) && HexValue(b) == d
  {
  }

  lemma {:induction false} FourDigits(u: nat)
    requires u < 0x10000
    ensures ((u / 0x1000 * 16 + u / 0x100 % 0x10) * 16 + u / 0x10 % 0x10) * 16 + u % 0x10 == u
  {
    assert u / 0x100 == u / 0x1000 * 16 + u / 0x100 % 0x10;
    assert u / 0x10 == u / 0x100 * 16 + u / 0x10 % 0x10;
  }

  lemma {:induction false} UnitItem(t: Bytes, u: nat) returns (hex: HexQuad)
    requires u < 0x10000 && SpellsUnit(t, u)
    ensures Hex4(hex) == u && CharText(Unicode(hex)) == t
  {
    DigitValue(t[2], u / 0x1000);
    DigitValue(t[3], u / 0x100 % 0x10);
    DigitValue(t[4], u / 0x10 % 0x10);
    DigitValue(t[5], u % 0x10);
    FourDigits(u);
    hex := t[2..];
    assert t == [t[0], t[1]] + t[2..];
  }

  // Whole strings

  /** What the escapes are to the grammar. */
  ghost predicate Means(cs: seq<StrItem>, t: Bytes, points: seq<Character>)
  {
    && CharsText(cs) == t && S.Paired(cs) && Encoded(JoinPairs(Units(cs))) == EncodeAll(points)
  }

  lemma {:induction false} OneMore(hex: HexQuad, cs: seq<StrItem>, t: Bytes, pt: Character, points: seq<Character>)
    requires Means(cs, t, points) && Hex4(hex) == pt
    ensures Means([Unicode(hex)] + cs, CharText(Unicode(hex)) + t, [pt] + points)
  {
    hide Hex4, Encode, Combine;
    var c, all := Unicode(hex), [Unicode(hex)] + cs;
    assert all[0] == c && all[1..] == cs && ([pt] + points)[1..] == points;
    UnitsCons(c, cs);
    JoinPairsCons(UnitOf(c), Units(cs));
    EncodedCons(UnitOf(c), JoinPairs(Units(cs)));
  }

  lemma {:induction false} PairUnits(a: StrItem, b: StrItem, cs: seq<StrItem>)
    ensures CharsText([a, b] + cs) == CharText(a) + (CharText(b) + CharsText(cs))
    ensures Units([a, b] + cs) == [UnitOf(a), UnitOf(b)] + Units(cs)
    ensures S.IsHighItem(a) && S.IsLowItem(b) && S.Paired(cs) ==> S.Paired([a, b] + cs)
  {
    hide CharText, UnitOf, S.IsHighItem, S.IsLowItem;
    var rest, all := [b] + cs, [a, b] + cs;
    assert rest[1..] == cs && all[0] == a && all[1] == b && all[1..] == rest && all[2..] == cs;
    assert all == [a] + rest;
    UnitsCons(b, cs);
    UnitsCons(a, rest);
  }

  lemma {:induction false} OneMorePair(high: HexQuad, low: HexQuad, cs: seq<StrItem>, t: Bytes, pt: Character,
                                       points: seq<Character>)
    requires Means(cs, t, points) && 0x10000 <= pt
    requires Hex4(high) == HighUnit(pt) && Hex4(low) == LowUnit(pt)
    ensures Means([Unicode(high), Unicode(low)] + cs, CharText(Unicode(high)) + (CharText(Unicode(low)) + t),
                  [pt] + points)
  {
    var a, b := Unicode(high), Unicode(low);
    PairCombines(pt);
    PairUnits(a, b, cs);
    assert S.IsHighItem(a) && S.IsLowItem(b);
    assert ([pt] + points)[1..] == points;
    hide Hex4, Encode, Combine, HighUnit, LowUnit, IsHigh, IsLow, CharText, CharsText, Units, S.Paired;
    JoinPairsPair(UnitOf(a), UnitOf(b), Units(cs));
    EncodedCons(Code(pt), JoinPairs(Units(cs)));
  }

  lemma {:induction false} ItemsOf(t: Bytes, points: seq<Character>) returns (cs: seq<StrItem>)
    requires Spells(t, points)
    ensures Means(cs, t, points)
    decreases |points|
  {
    hide Means, SpellsUnit, Hex4, CharText;
    if |points| == 0 {
      cs := [];
      NothingMeans();
    } else {
      var pt := points[0];
      assert points == [pt] + points[1..];
      if pt < 0x10000 {
        var rest := ItemsOf(t[6..], points[1..]);
        var hex := UnitItem(t[..6], pt);
        OneMore(hex, rest, t[6..], pt, points[1..]);
        cs := [Unicode(hex)] + rest;
        assert t == t[..6] + t[6..];
      } else {
        var rest := ItemsOf(t[12..], points[1..]);
        var high := UnitItem(t[..6], HighUnit(pt));
        var low := UnitItem(t[6..12], LowUnit(pt));
        OneMorePair(high, low, rest, t[12..], pt, points[1..]);
        cs := [Unicode(high), Unicode(low)] + rest;
        assert t == t[..6] + (t[6..12] + t[12..]);
      }
    }
  }

  lemma {:induction false} NothingMeans()
    ensures Means([], [], [])
  {
  }

  /** The text of an array of one string, in literal bytes. */
  function Quoted(t: Bytes): Bytes {
    [0x5B, 0x22] + t + [0x22, 0x5D]
  }

  function OneString(cs: seq<StrItem>): Document {
    Document(Element([], ArrayTree([Element([], StringTree(cs), [])]), []), [])
  }

  lemma {:induction false} OneStringText(cs: seq<StrItem>)
    ensures DocumentText(OneString(cs)) == Quoted(CharsText(cs))
  {
    hide CharsText;
    var e, text := Element([], StringTree(cs), []), CharsText(cs);
    assert GapText([]) == [];
    assert ElementText(e) == [0x22] + (text + [0x22]);
    assert ElementsText([e]) == [0x22] + (text + [0x22]);
    assert TreeText(ArrayTree([e])) == Quoted(text);
  }

  lemma {:induction false} OneStringMeans(isDouble: Bytes -> bool, cs: seq<StrItem>)
    requires S.Paired(cs)
    ensures var d := OneString(cs); var t := d.root.tree;
            && ValidDocument(STANDARD, d) && S.SimpleNames(t) && Fits(t, 0) && S.IsContainer(t)
            && S.Accepted(isDouble, t) && S.Kept(t)
            && TreeValue(t) == JsonValue.Array([JsonValue.String(StringValue(cs))])
  {
    hide StringValue, S.Paired;
    var es := [Element([], StringTree(cs), [])];
    assert es[1..] == [];
    var t := ArrayTree(es);
    assert OneString(cs).root.tree == t;
    assert ValidElement(STANDARD, es[0]) && ValidElements(STANDARD, es);
    assert Fits(es[0].tree, 1) && ElementsFit(es, 1) && Fits(t, 0);
    assert S.Accepted(isDouble, es[0].tree) && S.AcceptedElements(isDouble, es);
    assert S.SimpleNames(es[0].tree) && S.SimpleElements(es);
    assert S.Kept(es[0].tree) && S.KeptElements(es);
    assert ValidElement(STANDARD, OneString(cs).root);
    assert TreeValue(es[0].tree) == JsonValue.String(StringValue(cs));
    assert ElementValues(es) == [JsonValue.String(StringValue(cs))];
  }

  lemma {:induction false} OnlyString(v: CoValue.Value, s: Bytes)
    requires T.ToJson(v) == JsonValue.Array([JsonValue.String(s)])
    ensures v == CoValue.Arr([CoValue.Str(s)])
  {
    var vs := v.items;
    assert T.ToItems(vs) == [JsonValue.String(s)];
    assert T.ToItems(vs)[0] == T.ToJson(vs[0]) && T.ToItems(vs)[1..] == T.ToItems(vs[1..]);
    assert vs == [vs[0]] + vs[1..];
  }

  /** Any characters at all, spelt by escapes with digits of either case, are read by json11 and by the co
      parser to bytes that decode to these characters. */
  lemma {:induction false} EscapedTextsAreRead(c: R.Config, t: Bytes, points: seq<Character>) returns (v: Bytes)
    requires Spells(t, points)
    ensures DecodeAll(v) == (true, points)
    ensures JR.Read(STANDARD, Quoted(t)) == JR.Done(JsonValue.Array([JsonValue.String(v)]), |Quoted(t)|)
    ensures var r := R.Parse(c, Quoted(t)); r.Ok? && R.Resolve(r.value, r.keys.data) == CoValue.Arr([CoValue.Str(v)])
  {
    var cs := ItemsOf(t, points);
    v := StringValue(cs);
    DecodeAllEncodeAll(points);
    OneStringText(cs);
    OneStringMeans(c.isDouble, cs);
    hide JR.Read, R.Parse, R.Resolve, T.ToJson, DecodeAll, Spells, StringValue, ValidDocument, DocumentText, OneString,
      TreeValue, Fits, S.Accepted, S.SimpleNames, S.Kept, S.IsContainer;
    var d := OneString(cs);
    S.BothReadTheSame(c, d);
    JT.ReadDocument(STANDARD, d);
    var r := R.Parse(c, Quoted(t));
    OnlyString(R.Resolve(r.value, r.keys.data), v);
  }
}
