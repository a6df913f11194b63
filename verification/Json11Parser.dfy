/** json11's `JsonParser`: the cursor, the sticky failure and the first error it keeps. Every method
    is proved to do what the reading functions of JsonReader say; a parser that has failed stays
    failed, with the error it failed with first, and its cursor stays inside the text. */
module Json11Parser {
  import opened ByteText
  import opened Decimal
  import opened JsonValue
  import opened Utf8
  import opened JsonGrammar
  import opened JsonReader
  import opened JsonTheorems

  lemma {:induction false} PrependNothing<T>(r: Step<seq<T>>)
    ensures Prepend([], r) == r
  {
    if r.Done? {
      assert [] + r.value == r.value;
    }
  }

  lemma {:induction false} PrependTwice<T>(a: seq<T>, b: seq<T>, r: Step<seq<T>>)
    ensures Prepend(a, Prepend(b, r)) == Prepend(a + b, r)
  {
    if r.Done? {
      assert a + (b + r.value) == (a + b) + r.value;
    }
  }

  // One turn of each loop

  /** What the decoder loop of a string does next, case by case. */
  lemma {:induction false} StringTurn(s: Bytes, i: nat, last: int, out: Bytes)
    requires i <= |s| && last < 0x10000
    ensures var r := ReadString(s, i, last, out);
            if i == |s| then r == Step.Fail(EndInString)
            else if s[i] == QUOTE then r == Done(out + Encode(last), i + 1)
            else if s[i] < SPACE then r == Step.Fail(ControlInString)
            else if s[i] != BACKSLASH then r == ReadString(s, i + 1, -1, out + Encode(last) + [s[i]])
            else if i + 1 == |s| then r == Step.Fail(EndInString)
            else if s[i + 1] == LOWER_U then
              var hex := ReadHex(s, i + 2);
              if hex.None? then r == Step.Fail(BadUnicodeEscape)
              else
                var pt := Hex4(hex.value);
                if IsHigh(last) && IsLow(pt) then r == ReadString(s, i + 6, -1, out + Encode(Combine(last, pt)))
                else r == ReadString(s, i + 6, pt, out + Encode(last))
            else if IsEscapeLetter(s[i + 1]) then
              r == ReadString(s, i + 2, -1, out + Encode(last) + [EscapeValue(s[i + 1])])
            else r == Step.Fail(BadEscape)
  {
    hide ReadHex, Hex4, IsHigh, IsLow, Combine, Encode, IsEscapeLetter, EscapeValue;
  }

  lemma {:induction false} ObjectOpens(st: Strategy, s: Bytes, i: nat, depth: nat)
    requires i <= |s|
    ensures var t, r := NextToken(st, s, i), ReadObject(st, s, i, depth);
            && (t.Fail? ==> r == Step.Fail(t.error))
            && (t.Done? && t.value == RIGHT_BRACE ==> r == Done([], t.next))
            && (t.Done? && t.value != RIGHT_BRACE ==> r == Prepend([], ReadFields(st, s, t.next - 1, depth)))
  {
    hide NextToken, ReadFields;
    var t := NextToken(st, s, i);
    if t.Done? { PrependNothing(ReadFields(st, s, t.next - 1, depth)); }
  }

  lemma {:induction false} FieldsGoOn(st: Strategy, s: Bytes, k: nat, depth: nat, seen: seq<Member>)
    requires k < |s|
    ensures var goal, f := Prepend(seen, ReadFields(st, s, k, depth)), ReadField(st, s, k, depth);
            && (f.Fail? ==> goal == Step.Fail(f.error))
            && (f.Done? ==>
                  var t := NextToken(st, s, f.next);
                  && (t.Fail? ==> goal == Step.Fail(t.error))
                  && (t.Done? && t.value == RIGHT_BRACE ==> goal == Done(seen + [f.value], t.next))
                  && (t.Done? && t.value != RIGHT_BRACE && t.value != COMMA ==> goal == Step.Fail(ExpectedFieldComma))
                  && (t.Done? && t.value == COMMA ==>
                        var u := NextToken(st, s, t.next);
                        && (u.Fail? ==> goal == Step.Fail(u.error))
                        && (u.Done? ==> goal == Prepend(seen + [f.value], ReadFields(st, s, u.next - 1, depth)))))
  {
    hide NextToken, ReadField;
    var f := ReadField(st, s, k, depth);
    if f.Done? && NextToken(st, s, f.next).Done? {
      var t := NextToken(st, s, f.next);
      if NextToken(st, s, t.next).Done? {
        PrependTwice(seen, [f.value], ReadFields(st, s, NextToken(st, s, t.next).next - 1, depth));
      }
    }
  }

  lemma {:induction false} NoMembers()
    ensures Collect([]) == []
  {
  }

  lemma {:induction false} CollectOneMore(ms: seq<Member>, m: Member)
    ensures Collect(ms + [m]) == Put(Collect(ms), m.key, m.value)
  {
    hide Put;
    assert (ms + [m])[..|ms|] == ms;
  }

  lemma {:induction false} ArrayOpens(st: Strategy, s: Bytes, i: nat, depth: nat)
    requires i <= |s|
    ensures var t, r := NextToken(st, s, i), ReadArray(st, s, i, depth);
            && (t.Fail? ==> r == Step.Fail(t.error))
            && (t.Done? && t.value == RIGHT_BRACKET ==> r == Done([], t.next))
            && (t.Done? && t.value != RIGHT_BRACKET ==> r == Prepend([], ReadItems(st, s, t.next - 1, depth)))
  {
    hide NextToken, ReadItems;
    var t := NextToken(st, s, i);
    if t.Done? { PrependNothing(ReadItems(st, s, t.next - 1, depth)); }
  }

  lemma {:induction false} ItemsGoOn(st: Strategy, s: Bytes, k: nat, depth: nat, data: seq<Json>)
    requires k <= |s|
    ensures var goal, v := Prepend(data, ReadItems(st, s, k, depth)), ReadValue(st, s, k, depth + 1);
            && (v.Fail? ==> goal == Step.Fail(v.error))
            && (v.Done? ==>
                  var t := NextToken(st, s, v.next);
                  && (t.Fail? ==> goal == Step.Fail(t.error))
                  && (t.Done? && t.value == RIGHT_BRACKET ==> goal == Done(data + [v.value], t.next))
                  && (t.Done? && t.value != RIGHT_BRACKET && t.value != COMMA ==> goal == Step.Fail(ExpectedItemComma))
                  && (t.Done? && t.value == COMMA ==>
                        var u := NextToken(st, s, t.next);
                        && (u.Fail? ==> goal == Step.Fail(u.error))
                        && (u.Done? ==> goal == Prepend(data + [v.value], ReadItems(st, s, u.next - 1, depth)))))
  {
    hide NextToken, ReadValue;
    var v := ReadValue(st, s, k, depth + 1);
    if v.Done? && NextToken(st, s, v.next).Done? {
      var t := NextToken(st, s, v.next);
      if NextToken(st, s, t.next).Done? {
        PrependTwice(data, [v.value], ReadItems(st, s, NextToken(st, s, t.next).next - 1, depth));
      }
    }
  }

  class JsonParser {
    const str: Bytes
    const strategy: Strategy
    var i: nat
    var err: Error
    var failed: bool

    ghost predicate Valid()
      reads this
    {
      i <= |str| && (failed <==> err != NoError)
    }

    constructor (text: Bytes, st: Strategy)
      ensures Valid() && str == text && strategy == st && i == 0 && !failed
    {
      str, strategy, i, err, failed := text, st, 0, NoError, false;
    }

    /** The parser went from cursor i0 as the step r says. */
    ghost predicate Went<T>(r: Step<T>)
      reads this
    {
      match r
      case Done(_, j) => !failed && i == j
      case Fail(e) => failed && err == e
    }

    method Fail(e: Error)
      requires Valid() && e != NoError
      modifies this`err, this`failed
      ensures Valid() && failed
      ensures err == if old(failed) then old(err) else e
    {
      if !failed {
        err := e;
      }
      failed := true;
    }

    method ConsumeWhitespace()
      requires Valid()
      modifies this`i
      ensures Valid() && i == SkipWhite(str, old(i))
    {
      while IsWhite(At(str, i))
        invariant Valid() && SkipWhite(str, i) == SkipWhite(str, old(i))
        decreases |str| - i
      {
        i := i + 1;
      }
    }

    /** The rest of a line comment. */
    method ConsumeLine()
      requires Valid()
      modifies this`i
      ensures Valid() && i == LineEnd(str, old(i))
    {
      while i < |str| && str[i] != NEWLINE
        invariant Valid() && LineEnd(str, i) == LineEnd(str, old(i))
      {
        i := i + 1;
      }
    }

    /** The rest of a block comment. */
    method ConsumeBlock()
      requires Valid()
      modifies this
      ensures Valid() && old(i) <= i && (old(failed) ==> failed && err == old(err))
      ensures !old(failed) ==>
                match BlockEnd(str, old(i))
                case None => failed && err == EndInComment
                case Some(j) => !failed && i == j
    {
      if i > |str| - 2 {
        Fail(EndInComment);
        return;
      }
      while !(str[i] == STAR && str[i + 1] == SLASH)
        invariant Valid() && old(i) <= i <= |str| - 2 && BlockEnd(str, i) == BlockEnd(str, old(i))
        invariant failed == old(failed) && err == old(err)
        decreases |str| - i
      {
        i := i + 1;
        if i > |str| - 2 {
          Fail(EndInComment);
          return;
        }
      }
      i := i + 2;
    }

    method ConsumeComment() returns (found: bool)
      requires Valid()
      modifies this
      ensures Valid() && old(i) <= i
      ensures old(failed) ==> failed && err == old(err)
      ensures !old(failed) ==> Went(SkipComment(str, old(i)))
      ensures !failed ==> found == SkipComment(str, old(i)).value
    {
      hide BlockEnd, LineEnd;
      found := false;
      if At(str, i) == SLASH {
        i := i + 1;
        if i == |str| {
          Fail(EndAfterSlash);
          return;
        }
        if str[i] == SLASH {
          i := i + 1;
          ConsumeLine();
          found := true;
        } else if str[i] == STAR {
          i := i + 1;
          ConsumeBlock();
          found := !failed;
        } else {
          Fail(MalformedComment);
          return;
        }
      }
    }

    method ConsumeGarbage()
      requires Valid()
      modifies this
      ensures Valid() && old(i) <= i
      ensures old(failed) ==> failed && err == old(err)
      ensures !old(failed) ==> Went(SkipGap(strategy, str, old(i)))
    {
      ConsumeWhitespace();
      if strategy.COMMENTS? {
        var found := true;
        ghost var start := i;
        while found
          invariant Valid() && old(i) <= i
          invariant old(failed) ==> failed && err == old(err)
          invariant !old(failed) ==> !failed
          invariant !old(failed) ==>
            if found then SkipComments(str, i) == SkipComments(str, start) else Went(SkipComments(str, start))
          decreases found, |str| - i
        {
          ghost var here := i;
          found := ConsumeComment();
          if failed {
            return;
          }
          ConsumeWhitespace();
        }
      }
    }

    method GetNextToken() returns (ch: Byte)
      requires Valid()
      modifies this
      ensures Valid() && old(i) <= i
      ensures old(failed) ==> failed && err == old(err)
      ensures !old(failed) ==> Went(NextToken(strategy, str, old(i)))
      ensures !failed ==> ch == NextToken(strategy, str, old(i)).value
      ensures failed ==> ch == NUL
    {
      ConsumeGarbage();
      if failed {
        return NUL;
      }
      if i == |str| {
        Fail(EndOfInput);
        return NUL;
      }
      ch := str[i];
      i := i + 1;
    }

    method ParseString() returns (out: Bytes)
      requires Valid() && !failed
      modifies this
      ensures Valid() && Went(ReadString(str, old(i), -1, []))
      ensures !failed ==> out == ReadString(str, old(i), -1, []).value
    {
      hide ReadString, ReadHex, Hex4, IsHigh, IsLow, Combine, Encode, IsEscapeLetter, EscapeValue;
      out := [];
      var last: int := -1;
      while true
        invariant Valid() && !failed && last < 0x10000
        invariant ReadString(str, i, last, out) == ReadString(str, old(i), -1, [])
        decreases |str| - i
      {
        StringTurn(str, i, last, out);
        if i == |str| {
          Fail(EndInString);
          return [];
        }
        var ch := str[i];
        i := i + 1;
        if ch == QUOTE {
          return out + Encode(last);
        }
        if ch < SPACE {
          Fail(ControlInString);
          return [];
        }
        if ch != BACKSLASH {
          out := out + Encode(last);
          last := -1;
          out := out + [ch];
          continue;
        }
        if i == |str| {
          Fail(EndInString);
          return [];
        }
        ch := str[i];
        i := i + 1;
        if ch == LOWER_U {
          var hex := ReadHex(str, i);
          if hex.None? {
            Fail(BadUnicodeEscape);
            return [];
          }
          var codepoint := Hex4(hex.value);
          if IsHigh(last) && IsLow(codepoint) {
            out := out + Encode(Combine(last, codepoint));
            last := -1;
          } else {
            out := out + Encode(last);
            last := codepoint;
          }
          i := i + 4;
          continue;
        }
        out := out + Encode(last);
        last := -1;
        if IsEscapeLetter(ch) {
          out := out + [EscapeValue(ch)];
        } else {
          Fail(BadEscape);
          return [];
        }
      }
    }

    method SkipNumberDigits()
      requires Valid()
      modifies this`i
      ensures Valid() && i == SkipDigits(str, old(i))
    {
      while IsDigit(At(str, i))
        invariant Valid() && SkipDigits(str, i) == SkipDigits(str, old(i))
        decreases |str| - i
      {
        i := i + 1;
      }
    }

    method ScanWhole()
      requires Valid() && !failed
      modifies this
      ensures Valid() && Went(WholePart(str, old(i)))
    {
      if At(str, i) == ZERO {
        i := i + 1;
        if IsDigit(At(str, i)) {
          Fail(LeadingZero);
        }
      } else if IsDigit(At(str, i)) {
        i := i + 1;
        SkipNumberDigits();
      } else {
        Fail(BadNumber);
      }
    }

    method ScanFraction()
      requires Valid() && !failed
      modifies this
      ensures Valid() && Went(FractionPart(str, old(i)))
    {
      if At(str, i) == DOT {
        i := i + 1;
        if !IsDigit(At(str, i)) {
          Fail(NoFractionDigit);
        } else {
          SkipNumberDigits();
        }
      }
    }

    method ScanExponent()
      requires Valid() && !failed
      modifies this
      ensures Valid() && Went(ExponentPart(str, old(i)))
    {
      if IsExponentMark(At(str, i)) {
        i := i + 1;
        if At(str, i) == PLUS || At(str, i) == MINUS {
          i := i + 1;
        }
        if !IsDigit(At(str, i)) {
          Fail(NoExponentDigit);
        } else {
          SkipNumberDigits();
        }
      }
    }

    method ParseNumber() returns (v: Json)
      requires Valid() && !failed
      modifies this
      ensures Valid() && Went(ReadNumber(str, old(i)))
      ensures !failed ==> v == ReadNumber(str, old(i)).value
    {
      hide WholePart, FractionPart, ExponentPart, IntValue;
      var start := i;
      v := Null;
      if At(str, i) == MINUS {
        i := i + 1;
      }
      ScanWhole();
      if failed {
        return;
      }
      var whole := i;
      if At(str, i) != DOT && !IsExponentMark(At(str, i)) && i - start <= INT_DIGITS {
        return Number(Whole(IntValue(str[start..i])));
      }
      ScanFraction();
      if failed {
        return;
      }
      ScanExponent();
      if failed {
        return;
      }
      v := Number(ToDouble(str[start..i], i == whole));
    }

    /** i is one past the first character of the expected word. */
    method Expect(expected: Bytes, res: Json) returns (v: Json)
      requires Valid() && !failed && i > 0 && |expected| > 0
      modifies this
      ensures Valid() && Went(ReadWord(str, old(i) - 1, expected, res))
      ensures !failed ==> v == res
    {
      i := i - 1;
      if i + |expected| <= |str| && str[i..i + |expected|] == expected {
        i := i + |expected|;
        v := res;
      } else {
        Fail(ExpectedWord);
        v := Null;
      }
    }

    /** The name, the colon and the value of a field; ch is the token just read. */
    method ParseField(ch: Byte, depth: nat) returns (key: Bytes, value: Json)
      requires Valid() && depth <= MAX_DEPTH
      requires if failed then ch == NUL else 0 < i && ch == str[i - 1]
      modifies this
      ensures Valid()
      ensures old(failed) ==> failed && err == old(err)
      ensures !old(failed) ==> Went(ReadField(strategy, str, old(i) - 1, depth))
      ensures !failed ==> Member(key, value) == ReadField(strategy, str, old(i) - 1, depth).value
      decreases MAX_DEPTH + 1 - depth, 0
    {
      hide ReadString, ReadValue, NextToken;
      key, value := [], Null;
      if ch != QUOTE {
        Fail(ExpectedName);
        return;
      }
      key := ParseString();
      if failed {
        return;
      }
      var colon := GetNextToken();
      if colon != COLON {
        Fail(ExpectedColon);
        return;
      }
      value := ParseJson(depth + 1);
    }

    /** The loop over the fields of an object; the opening brace has been read. */
    method ParseObject(depth: nat) returns (data: seq<Member>)
      requires Valid() && !failed && depth <= MAX_DEPTH
      modifies this
      ensures Valid() && Went(ReadObject(strategy, str, old(i), depth))
      ensures !failed ==> data == Collect(ReadObject(strategy, str, old(i), depth).value)
      decreases MAX_DEPTH + 1 - depth, 1
    {
      hide ReadObject, ReadFields, ReadField, NextToken, Prepend, Collect, Put;
      ghost var goal := ReadObject(strategy, str, i, depth);
      ObjectOpens(strategy, str, i, depth);
      NoMembers();
      data := [];
      ghost var seen: seq<Member> := [];
      var ch := GetNextToken();
      if ch == RIGHT_BRACE {
        return;
      }
      while true
        invariant Valid() && data == Collect(seen)
        invariant failed ==> goal == Step.Fail(err) && ch == NUL
        invariant !failed ==> 0 < i && ch == str[i - 1]
                              && goal == Prepend(seen, ReadFields(strategy, str, i - 1, depth))
        decreases |str| - i
      {
        if !failed { FieldsGoOn(strategy, str, i - 1, depth, seen); }
        var key, value := ParseField(ch, depth);
        if failed {
          return;
        }
        data := Put(data, key, value);
        CollectOneMore(seen, Member(key, value));
        seen := seen + [Member(key, value)];
        ch := GetNextToken();
        if ch == RIGHT_BRACE {
          break;
        }
        if ch != COMMA {
          Fail(ExpectedFieldComma);
          return;
        }
        ch := GetNextToken();
      }
    }

    /** The loop over the items of an array; the opening bracket has been read. */
    method ParseArray(depth: nat) returns (data: seq<Json>)
      requires Valid() && !failed && depth <= MAX_DEPTH && i > 0
      modifies this
      ensures Valid() && Went(ReadArray(strategy, str, old(i), depth))
      ensures !failed ==> data == ReadArray(strategy, str, old(i), depth).value
      decreases MAX_DEPTH + 1 - depth, 1
    {
      hide ReadArray, ReadItems, ReadValue, NextToken, Prepend;
      ghost var goal := ReadArray(strategy, str, i, depth);
      ArrayOpens(strategy, str, i, depth);
      data := [];
      var ch := GetNextToken();
      if ch == RIGHT_BRACKET {
        return;
      }
      while true
        invariant Valid() && 0 < i
        invariant failed ==> goal == Step.Fail(err)
        invariant !failed ==> goal == Prepend(data, ReadItems(strategy, str, i - 1, depth))
        decreases |str| - i
      {
        i := i - 1;
        if !failed { ItemsGoOn(strategy, str, i, depth, data); }
        var item := ParseJson(depth + 1);
        data := data + [item];
        if failed {
          return;
        }
        ch := GetNextToken();
        if ch == RIGHT_BRACKET {
          break;
        }
        if ch != COMMA {
          Fail(ExpectedItemComma);
          return;
        }
        ch := GetNextToken();
      }
    }

    method ParseJson(depth: nat) returns (v: Json)
      requires Valid() && depth <= MAX_DEPTH + 1
      modifies this
      ensures Valid()
      ensures old(failed) ==> failed && err == old(err)
      ensures !old(failed) ==> Went(ReadValue(strategy, str, old(i), depth))
      ensures !failed ==> v == ReadValue(strategy, str, old(i), depth).value
      decreases MAX_DEPTH + 1 - depth, 2
    {
      hide ReadString, ReadNumber, ReadArray, ReadObject, NextToken;
      v := Null;
      if depth > MAX_DEPTH {
        Fail(TooDeep);
        return;
      }
      var ch := GetNextToken();
      if failed {
        return;
      }
      if ch == MINUS || IsDigit(ch) {
        i := i - 1;
        v := ParseNumber();
      } else if ch == LOWER_T {
        v := Expect(TRUE_WORD, Bool(true));
      } else if ch == LOWER_F {
        v := Expect(FALSE_WORD, Bool(false));
      } else if ch == LOWER_N {
        v := Expect(NULL_WORD, Null);
      } else if ch == QUOTE {
        var s := ParseString();
        v := String(s);
      } else if ch == LEFT_BRACE {
        var data := ParseObject(depth);
        v := Object(data);
      } else if ch == LEFT_BRACKET {
        var data := ParseArray(depth);
        v := Array(data);
      } else {
        Fail(ExpectedValue);
      }
    }
  }

  /** `Json::parse`: succeeds with v exactly when the text is one of the grammar that denotes v. */
  method Parse(text: Bytes, st: Strategy) returns (v: Json, err: Error)
    ensures err == NoError <==> exists w :: Denotes(st, text, w)
    ensures err == NoError ==> Denotes(st, text, v)
    ensures err != NoError ==> v == Null && Read(st, text) == Step.Fail(err)
  {
    hide ReadValue, SkipGap, Denotes;
    var parser := new JsonParser(text, st);
    v := parser.ParseJson(0);
    parser.ConsumeGarbage();
    if !parser.failed && parser.i != |text| {
      parser.Fail(TrailingInput);
    }
    err := parser.err;
    if parser.failed {
      v := Null;
    }
    forall w ensures Denotes(st, text, w) <==> Read(st, text) == Done(w, |text|) {
      ParseAcceptsExactly(st, text, w);
    }
    assert err == NoError ==> Denotes(st, text, v);
  }
}
