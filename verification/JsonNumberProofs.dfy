/** json11's number scanner reads exactly the numbers of the grammar. */
module JsonNumberProofs {
  import opened ByteText
  import opened Decimal
  import opened JsonValue
  import opened JsonGrammar
  import opened JsonReader

  /** Bytes with which a number could go on. */
  predicate Continues(b: Byte) {
    IsDigit(b) || b == DOT || IsExponentMark(b)
  }

  lemma {:induction false} DigitsTail(s: Bytes, i: nat, j: nat)
    requires i < j <= |s| && Digits(s[i..j])
    ensures Digits(s[i + 1..j])
  {
    var t, u := s[i..j], s[i + 1..j];
    forall k | 0 <= k < |u| ensures IsDigit(u[k]) {
      assert u[k] == t[k + 1];
    }
  }

  lemma {:induction false} SkipDigitsIs(s: Bytes, i: nat, j: nat)
    requires i <= j <= |s| && Digits(s[i..j]) && !IsDigit(At(s, j))
    ensures SkipDigits(s, i) == j
    decreases j - i
  {
    if i < j {
      assert s[i] == s[i..j][0];
      DigitsTail(s, i, j);
      SkipDigitsIs(s, i + 1, j);
    }
  }

  /** `atoi` and `strtod` agree where the short form is used: nine digits fit an int. */
  lemma {:induction false} DigitsBound(t: Bytes)
    requires Digits(t)
    ensures 0 <= NatValue(t) < Pow10(|t|)
  {
    if |t| > 0 {
      DigitsBound(t[..|t| - 1]);
    }
  }

  lemma {:induction false} Pow10Grows(k: nat, m: nat)
    requires k <= m
    ensures Pow10(k) <= Pow10(m)
    decreases m - k
  {
    if k < m {
      Pow10Grows(k, m - 1);
    }
  }

  lemma {:induction false} ShortIntegerIsExact(n: NumberSyntax)
    requires ValidNumber(n) && |IntegerText(n)| <= INT_DIGITS
    ensures -0x8000_0000 <= IntValue(IntegerText(n)) < 0x8000_0000
  {
    DigitsBound(n.whole);
    Pow10Grows(|n.whole|, 9);
    assert Pow10(9) == 1000000000 by {
      assert Pow10(3) == 1000;
      assert Pow10(6) == 1000000;
    }
    IntegerValue(n);
  }

  lemma {:induction false} IntegerValue(n: NumberSyntax)
    requires ValidNumber(n)
    ensures IntValue(IntegerText(n)) == if n.negative then -NatValue(n.whole) else NatValue(n.whole)
  {
    if n.negative {
      assert IntegerText(n)[1..] == n.whole;
    } else {
      assert IntegerText(n) == n.whole;
    }
  }

  // Completeness

  lemma {:induction false} WholePartComplete(s: Bytes, i: nat, j: nat, n: NumberSyntax)
    requires ValidNumber(n) && Span(s, i, j, n.whole) && !IsDigit(At(s, j))
    ensures Reaches(WholePart(s, i), j)
  {
    assert s[i] == n.whole[0];
    if s[i] != ZERO {
      DigitsTail(s, i, j);
      SkipDigitsIs(s, i + 1, j);
    }
  }

  lemma {:induction false} FirstByte(s: Bytes, i: nat, j: nat, t: Bytes)
    requires Span(s, i, j, t) && |t| > 0
    ensures i < |s| && At(s, i) == t[0]
  {
  }

  /** Digits with none after them are skipped. */
  lemma {:induction false} DigitsSkipped(s: Bytes, i: nat, j: nat, t: Bytes)
    requires Span(s, i, j, t) && Digits(t) && |t| > 0 && !IsDigit(At(s, j))
    ensures i < |s| && IsDigit(At(s, i)) && SkipDigits(s, i) == j
  {
    hide SkipDigits;
    FirstByte(s, i, j, t);
    SkipDigitsIs(s, i, j);
  }

  lemma {:induction false} FractionPartComplete(s: Bytes, i: nat, j: nat, n: NumberSyntax)
    requires ValidNumber(n) && Span(s, i, j, FractionText(n)) && !IsDigit(At(s, j))
    requires |n.fraction| == 0 ==> At(s, j) != DOT
    ensures Reaches(FractionPart(s, i), j)
  {
    hide SkipDigits, Digits;
    if |n.fraction| > 0 {
      SpanByte(s, i, j, DOT, n.fraction);
      DigitsSkipped(s, i + 1, j, n.fraction);
    }
  }

  lemma {:induction false} ExponentPartComplete(s: Bytes, i: nat, j: nat, n: NumberSyntax)
    requires ValidNumber(n) && Span(s, i, j, ExponentText(n)) && !IsDigit(At(s, j))
    requires |n.exponent| == 0 ==> !IsExponentMark(At(s, j))
    ensures Reaches(ExponentPart(s, i), j)
  {
    hide SkipDigits, Digits;
    if |n.exponent| > 0 {
      Regroup([n.mark], n.sign, n.exponent);
      SpanByte(s, i, j, n.mark, n.sign + n.exponent);
      SpanSplit(s, i + 1, j, n.sign, n.exponent);
      var k := i + 1 + |n.sign|;
      if |n.sign| > 0 {
        FirstByte(s, i + 1, k, n.sign);
      }
      DigitsSkipped(s, k, j, n.exponent);
    }
  }

  /** With what the parts of a number begin. */
  lemma {:induction false} PartStarts(n: NumberSyntax)
    requires ValidNumber(n)
    ensures |IntegerText(n)| > 0 && IsDigit(n.whole[0]) && n.whole[0] != MINUS
    ensures if |n.fraction| == 0 then FractionText(n) == [] else |FractionText(n)| > 0 && FractionText(n)[0] == DOT
    ensures if |n.exponent| == 0 then ExponentText(n) == []
            else |ExponentText(n)| > 0 && ExponentText(n)[0] == n.mark && IsExponentMark(n.mark)
  {
  }

  /** Where the parts of a number end, and that each part ends there. */
  lemma {:induction false} NumberLayout(s: Bytes, i: nat, j: nat, n: NumberSyntax) returns (k: nat, m: nat)
    requires ValidNumber(n) && Span(s, i, j, NumberText(n)) && !Continues(At(s, j))
    ensures i < k <= m <= j && Span(s, i, k, IntegerText(n))
    ensures Span(s, if n.negative then i + 1 else i, k, n.whole) && (At(s, i) == MINUS <==> n.negative)
    ensures Span(s, k, m, FractionText(n)) && Span(s, m, j, ExponentText(n))
    ensures !IsDigit(At(s, k)) && !IsDigit(At(s, m))
    ensures (|n.fraction| == 0 ==> At(s, m) != DOT) && (At(s, k) == DOT || IsExponentMark(At(s, k)) <==> k < j)
  {
    hide ValidNumber, IntegerText, FractionText, ExponentText, Span, Continues;
    PartStarts(n);
    SignAndWhole(s, i, n);
    k, m := NumberCuts(s, i, j, n);
    PartEnds(s, k, m, j, n);
  }

  lemma {:induction false} NumberCuts(s: Bytes, i: nat, j: nat, n: NumberSyntax) returns (k: nat, m: nat)
    requires ValidNumber(n) && Span(s, i, j, NumberText(n))
    ensures k == i + |IntegerText(n)| && m == k + |FractionText(n)| && m <= j <= |s|
    ensures Span(s, i, k, IntegerText(n)) && Span(s, k, m, FractionText(n)) && Span(s, m, j, ExponentText(n))
    ensures (k < m ==> |FractionText(n)| > 0 && At(s, k) == FractionText(n)[0])
    ensures (m < j ==> |ExponentText(n)| > 0 && At(s, m) == ExponentText(n)[0]) && (m == j ==> |ExponentText(n)| == 0)
  {
    hide ValidNumber, IntegerText, FractionText, ExponentText;
    SpanSplit(s, i, j, IntegerText(n), FractionText(n) + ExponentText(n));
    k := i + |IntegerText(n)|;
    SpanSplit(s, k, j, FractionText(n), ExponentText(n));
    m := k + |FractionText(n)|;
    if k < m { FirstByte(s, k, m, FractionText(n)); }
    if m < j { FirstByte(s, m, j, ExponentText(n)); }
  }

  /** What the bytes at the ends of the parts are. */
  lemma {:induction false} PartEnds(s: Bytes, k: nat, m: nat, j: nat, n: NumberSyntax)
    requires k <= m <= j <= |s| && !Continues(At(s, j)) && (k < m <==> |n.fraction| > 0)
    requires (k < m ==> At(s, k) == DOT) && (m < j ==> IsExponentMark(At(s, m)))
    ensures !IsDigit(At(s, k)) && !IsDigit(At(s, m))
    ensures (|n.fraction| == 0 ==> At(s, m) != DOT) && (At(s, k) == DOT || IsExponentMark(At(s, k)) <==> k < j)
  {
  }

  lemma {:induction false} SignAndWhole(s: Bytes, i: nat, n: NumberSyntax)
    requires ValidNumber(n)
    ensures var k := i + |IntegerText(n)|;
            Span(s, i, k, IntegerText(n)) ==>
              (Span(s, if n.negative then i + 1 else i, k, n.whole) && (At(s, i) == MINUS <==> n.negative))
  {
    var k := i + |IntegerText(n)|;
    if Span(s, i, k, IntegerText(n)) {
      SpanSplit(s, i, k, if n.negative then [MINUS] else [], n.whole);
      assert IntegerText(n)[0] == if n.negative then MINUS else n.whole[0];
      FirstByte(s, i, k, IntegerText(n));
    }
  }

  lemma {:induction false} ReadNumberComplete(s: Bytes, i: nat, j: nat, n: NumberSyntax)
    requires ValidNumber(n) && Span(s, i, j, NumberText(n)) && !Continues(At(s, j))
    ensures ReadNumber(s, i) == Done(Number(NumberValue(n)), j)
  {
    hide WholePart, FractionPart, ExponentPart, ValidNumber, IntValue;
    var k, m := NumberLayout(s, i, j, n);
    WholePartComplete(s, if n.negative then i + 1 else i, k, n);
    FractionPartComplete(s, k, m, n);
    ExponentPartComplete(s, m, j, n);
    if k == j {
      assert NumberText(n) == IntegerText(n);
      if k - i <= INT_DIGITS { ShortIntegerIsExact(n); }
    }
  }

  // Soundness

  lemma {:induction false} WholePartSound(s: Bytes, i: nat, j: nat)
    requires i <= |s| && Reaches(WholePart(s, i), j)
    ensures j <= |s| && i < j && Digits(s[i..j]) && (s[i] == ZERO ==> j == i + 1)
  {
    if s[i] != ZERO {
      assert forall k :: 1 <= k < j - i ==> s[i..j][k] == s[i + 1..j][k - 1];
    }
  }

  lemma {:induction false} FractionPartSound(s: Bytes, i: nat, j: nat) returns (digits: Bytes)
    requires i <= |s| && Reaches(FractionPart(s, i), j)
    ensures Digits(digits) && Span(s, i, j, if |digits| == 0 then [] else [DOT] + digits)
  {
    if At(s, i) == DOT {
      digits := s[i + 1..j];
      SpanCons(s, i, j, digits);
    } else {
      digits := [];
    }
  }

  lemma {:induction false} ExponentPartSound(s: Bytes, i: nat, j: nat) returns (mark: Byte, sign: Bytes, digits: Bytes)
    requires i <= |s| && Reaches(ExponentPart(s, i), j)
    ensures Digits(digits) && IsExponentMark(mark) && (sign == [] || sign == [PLUS] || sign == [MINUS])
    ensures Span(s, i, j, if |digits| == 0 then [] else [mark] + sign + digits)
  {
    mark, sign, digits := LOWER_E, [], [];
    if IsExponentMark(At(s, i)) {
      mark := s[i];
      var b := At(s, i + 1);
      if b == PLUS || b == MINUS {
        sign, digits := [b], s[i + 2..j];
        SpanCons(s, i + 1, j, digits);
      } else {
        digits := s[i + 1..j];
        assert [] + digits == digits;
      }
      SpanCons(s, i, j, sign + digits);
      Regroup([mark], sign, digits);
    }
  }

  lemma {:induction false} IntegerSound(s: Bytes, i: nat, j: nat) returns (negative: bool, whole: Bytes)
    requires i <= |s| && Reaches(WholePart(s, if At(s, i) == MINUS then i + 1 else i), j)
    ensures Digits(whole) && |whole| > 0 && (whole[0] == ZERO ==> |whole| == 1)
    ensures Span(s, i, j, (if negative then [MINUS] else []) + whole)
  {
    negative := At(s, i) == MINUS;
    var w := if negative then i + 1 else i;
    WholePartSound(s, w, j);
    whole := s[w..j];
    if negative {
      SpanCons(s, i, j, whole);
    } else {
      assert [] + whole == whole;
    }
  }

  lemma {:induction false} ReadNumberSound(s: Bytes, i: nat) returns (n: NumberSyntax)
    requires i <= |s| && ReadNumber(s, i).Done?
    ensures ValidNumber(n) && Span(s, i, ReadNumber(s, i).next, NumberText(n))
    ensures ReadNumber(s, i).value == Number(NumberValue(n))
  {
    var j := WholePart(s, if At(s, i) == MINUS then i + 1 else i).next;
    var negative, whole := IntegerSound(s, i, j);
    if At(s, j) != DOT && !IsExponentMark(At(s, j)) && j - i <= INT_DIGITS {
      n := NumberSyntax(negative, whole, [], LOWER_E, [], []);
      assert NumberText(n) == IntegerText(n);
      ShortIntegerIsExact(n);
    } else {
      n := LongNumberSound(s, i, j, negative, whole);
    }
  }

  lemma {:induction false} LongNumberSound(s: Bytes, i: nat, j: nat, negative: bool, whole: Bytes)
    returns (n: NumberSyntax)
    requires Digits(whole) && |whole| > 0 && (whole[0] == ZERO ==> |whole| == 1)
    requires Span(s, i, j, (if negative then [MINUS] else []) + whole)
    requires FractionPart(s, j).Done? && ExponentPart(s, FractionPart(s, j).next).Done?
    ensures var m := ExponentPart(s, FractionPart(s, j).next).next;
            && ValidNumber(n) && Span(s, i, m, NumberText(n))
            && ToDouble(s[i..m], m == j) == NumberValue(n)
  {
    var k := FractionPart(s, j).next;
    var m := ExponentPart(s, k).next;
    var fraction := FractionPartSound(s, j, k);
    var mark, sign, exponent := ExponentPartSound(s, k, m);
    n := NumberSyntax(negative, whole, fraction, mark, sign, exponent);
    SpanJoin(s, j, k, m, FractionText(n), ExponentText(n));
    SpanJoin(s, i, j, m, IntegerText(n), FractionText(n) + ExponentText(n));
    assert m == j ==> NumberText(n) == IntegerText(n);
  }
}
