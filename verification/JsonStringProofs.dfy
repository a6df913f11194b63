/** json11's one-pass string decoder equals the two-pass meaning of the grammar. */
module JsonStringProofs {
  import opened Options
  import opened ByteText
  import opened Utf8
  import opened JsonGrammar
  import opened JsonReader

  /** What is still to come when `last` is pending and the characters cs remain. */
  function Pending(last: int, cs: seq<StrItem>): Bytes
    requires last < 0x10000
  {
    Encoded(JoinPairs((if last < 0 then [] else [Code(last)]) + Units(cs)))
  }

  /** One turn of the decoder loop on a valid character. */
  function Absorb(last: int, out: Bytes, c: StrItem): (r: (int, Bytes))
    requires last < 0x10000
    ensures r.0 < 0x10000
  {
    match c
    case Raw(b) => (-1, out + Encode(last) + [b])
    case Escape(e) => (-1, out + Encode(last) + [EscapeValue(e)])
    case Unicode(h) =>
      if IsHigh(last) && IsLow(Hex4(h)) then (-1, out + Encode(Combine(last, Hex4(h))))
      else (Hex4(h), out + Encode(last))
  }

  lemma {:induction false} EncodedCons(u: Unit, us: seq<Unit>)
    ensures Encoded([u] + us) == (match u case Literal(b) => [b] case Code(p) => Encode(p)) + Encoded(us)
  {
    assert ([u] + us)[1..] == us;
  }

  lemma {:induction false} JoinPairsCons(u: Unit, us: seq<Unit>)
    requires !(u.Code? && IsHigh(u.point)) || |us| == 0 || !(us[0].Code? && IsLow(us[0].point))
    ensures JoinPairs([u] + us) == [u] + JoinPairs(us)
  {
    assert ([u] + us)[1..] == us;
  }

  lemma {:induction false} JoinPairsPair(high: Unit, low: Unit, us: seq<Unit>)
    requires high.Code? && low.Code? && IsHigh(high.point) && IsLow(low.point)
    ensures JoinPairs([high, low] + us) == [Code(Combine(high.point, low.point))] + JoinPairs(us)
  {
    assert ([high, low] + us)[2..] == us;
  }

  lemma {:induction false} UnitsCons(c: StrItem, cs: seq<StrItem>)
    ensures Units([c] + cs) == [UnitOf(c)] + Units(cs)
  {
    assert ([c] + cs)[1..] == cs;
  }

  lemma {:induction false} EmptyStringValue()
    ensures StringValue([]) == []
  {
  }

  /** Writing out a pending code point that is not joined commutes with the second pass. */
  lemma {:induction false} PendingWritten(last: int, u: Unit, us: seq<Unit>)
    requires last < 0x10000 && !(IsHigh(last) && u.Code? && IsLow(u.point))
    ensures Encoded(JoinPairs((if last < 0 then [] else [Code(last)]) + ([u] + us)))
         == Encode(last) + Encoded(JoinPairs([u] + us))
  {
    if last < 0 {
      assert [] + ([u] + us) == [u] + us;
    } else {
      JoinPairsCons(Code(last), [u] + us);
      EncodedCons(Code(last), JoinPairs([u] + us));
    }
  }

  /** The loop invariant of the decoder: one turn moves what it writes from the pending part. */
  lemma {:induction false} AbsorbPending(last: int, out: Bytes, c: StrItem, cs: seq<StrItem>)
    requires last < 0x10000
    ensures var (last', out') := Absorb(last, out, c);
            out' + Pending(last', cs) == out + Pending(last, [c] + cs)
  {
    UnitsCons(c, cs);
    var u, us := UnitOf(c), Units(cs);
    if c.Unicode? && IsHigh(last) && IsLow(Hex4(c.hex)) {
      assert [Code(last)] + ([u] + us) == [Code(last), u] + us;
      JoinPairsPair(Code(last), u, us);
      EncodedCons(Code(Combine(last, u.point)), JoinPairs(us));
      assert [] + us == us;
      Regroup(out, Encode(Combine(last, u.point)), Encoded(JoinPairs(us)));
    } else {
      PendingWritten(last, u, us);
      if c.Unicode? {
        Regroup(out, Encode(last), Encoded(JoinPairs([u] + us)));
      } else {
        JoinPairsCons(u, us);
        EncodedCons(u, JoinPairs(us));
        assert [] + us == us;
        Regroup(out, Encode(last), [u.b]);
        Regroup(out, Encode(last) + [u.b], Encoded(JoinPairs(us)));
        Regroup(Encode(last), [u.b], Encoded(JoinPairs(us)));
      }
    }
  }

  lemma {:induction false} PendingDone(last: int)
    requires last < 0x10000
    ensures Pending(last, []) == Encode(last)
  {
    if last >= 0 {
      assert [Code(last)] + Units([]) == [Code(last)] == [Code(last)] + [];
      JoinPairsCons(Code(last), []);
      EncodedCons(Code(last), []);
    }
  }

  /** A valid character at i takes the loop one turn. */
  lemma {:induction false} ReadChar(s: Bytes, i: nat, last: int, out: Bytes, c: StrItem)
    requires last < 0x10000 && Span(s, i, i + |CharText(c)|, CharText(c))
    ensures var (last', out') := Absorb(last, out, c);
            ReadString(s, i, last, out) == ReadString(s, i + |CharText(c)|, last', out')
  {
    var t := CharText(c);
    assert s[i] == t[0];
    match c
    case Raw(b) =>
    case Escape(e) =>
      assert s[i + 1] == t[1];
    case Unicode(h) =>
      assert s[i + 1] == t[1];
      SpanSplit(s, i, i + 6, [BACKSLASH, LOWER_U], h);
      assert ReadHex(s, i + 2) == Some(h);
  }

  lemma {:induction false} ReadStringComplete(s: Bytes, i: nat, j: nat, last: int, out: Bytes, cs: seq<StrItem>)
    requires last < 0x10000 && Span(s, i, j, CharsText(cs) + [QUOTE])
    ensures ReadString(s, i, last, out) == Done(out + Pending(last, cs), j)
    decreases |cs|
  {
    hide Absorb, Pending, CharText, Encode;
    if |cs| == 0 {
      assert CharsText(cs) + [QUOTE] == [QUOTE] + [];
      SpanByte(s, i, j, QUOTE, []);
      PendingDone(last);
      assert CharsText(cs) == [];
    } else {
      var t := CharText(cs[0]);
      Regroup(t, CharsText(cs[1..]), [QUOTE]);
      SpanSplit(s, i, j, t, CharsText(cs[1..]) + [QUOTE]);
      ReadChar(s, i, last, out, cs[0]);
      var (last', out') := Absorb(last, out, cs[0]);
      ReadStringComplete(s, i + |t|, j, last', out', cs[1..]);
      AbsorbPending(last, out, cs[0], cs[1..]);
      assert cs == [cs[0]] + cs[1..];
    }
  }

  /** The character at i when the decoder does not stop there. */
  lemma {:induction false} CharAt(s: Bytes, i: nat, last: int, out: Bytes) returns (c: StrItem)
    requires i < |s| && last < 0x10000 && s[i] != QUOTE && ReadString(s, i, last, out).Done?
    ensures Span(s, i, i + |CharText(c)|, CharText(c)) && |CharText(c)| > 0
  {
    if s[i] != BACKSLASH {
      c := Raw(s[i]);
    } else if s[i + 1] == LOWER_U {
      c := Unicode(ReadHex(s, i + 2).value);
      SpanTwo(s, i);
      SpanJoin(s, i, i + 2, i + 6, [BACKSLASH, LOWER_U], c.hex);
    } else {
      c := Escape(s[i + 1]);
      SpanTwo(s, i);
    }
  }

  lemma {:induction false} NotAtEnd(s: Bytes, i: nat, last: int, out: Bytes)
    requires i <= |s| && last < 0x10000 && ReadString(s, i, last, out).Done?
    ensures i < |s| && (s[i] == QUOTE ==> Span(s, i, ReadString(s, i, last, out).next, [QUOTE]))
  {
  }

  lemma {:induction false} ReadStringSound(s: Bytes, i: nat, last: int, out: Bytes) returns (cs: seq<StrItem>)
    requires i <= |s| && last < 0x10000 && ReadString(s, i, last, out).Done?
    ensures Span(s, i, ReadString(s, i, last, out).next, CharsText(cs) + [QUOTE])
    decreases |s| - i
  {
    hide ReadString, CharText, Absorb, Encode;
    NotAtEnd(s, i, last, out);
    if s[i] == QUOTE {
      cs := [];
      assert CharsText(cs) + [QUOTE] == [QUOTE];
    } else {
      var c := CharAt(s, i, last, out);
      ReadChar(s, i, last, out, c);
      var (last', out') := Absorb(last, out, c);
      var k := i + |CharText(c)|;
      var rest := ReadStringSound(s, k, last', out');
      cs := [c] + rest;
      assert cs[1..] == rest;
      SpanJoin(s, i, k, ReadString(s, i, last, out).next, CharText(c), CharsText(rest) + [QUOTE]);
      Regroup(CharText(c), CharsText(rest), [QUOTE]);
    }
  }

  /** From the opening quote on, the decoder accepts exactly the strings of the grammar and gives
      their two-pass meaning. */
  lemma {:induction false} StringDecoderIsTwoPass(s: Bytes, i: nat, v: Bytes, j: nat)
    requires i <= |s|
    ensures ReadString(s, i, -1, []) == Done(v, j)
       <==> exists cs :: Span(s, i, j, CharsText(cs) + [QUOTE]) && StringValue(cs) == v
  {
    if ReadString(s, i, -1, []) == Done(v, j) {
      var cs := ReadStringSound(s, i, -1, []);
      StringTextRead(s, i, j, cs);
    }
    if exists cs :: Span(s, i, j, CharsText(cs) + [QUOTE]) && StringValue(cs) == v {
      var cs :| Span(s, i, j, CharsText(cs) + [QUOTE]) && StringValue(cs) == v;
      StringTextRead(s, i, j, cs);
    }
  }

  lemma {:induction false} StringTextRead(s: Bytes, i: nat, j: nat, cs: seq<StrItem>)
    requires Span(s, i, j, CharsText(cs) + [QUOTE])
    ensures ReadString(s, i, -1, []) == Done(StringValue(cs), j)
  {
    ReadStringComplete(s, i, j, -1, [], cs);
    assert [] + Units(cs) == Units(cs);
    assert [] + Pending(-1, cs) == StringValue(cs);
  }
}
