/** Which error json11 keeps, by a text for each. */
module JsonErrors {
  import opened ByteText
  import opened JsonGrammar
  import opened JsonReader

  /** Between two fields a comma is expected, and between two items. */
  lemma {:induction false} NoCommaBetweenFields(st: Strategy, s: Bytes, i: nat, depth: nat)
    requires i < |s| && ReadField(st, s, i, depth).Done?
    requires var t := NextToken(st, s, ReadField(st, s, i, depth).next); t.Done? && t.value != 0x2C && t.value != 0x7D
    ensures ReadFields(st, s, i, depth) == Step.Fail(ExpectedFieldComma)
  {
    hide ReadField, NextToken;
  }

  lemma {:induction false} NoCommaBetweenItems(st: Strategy, s: Bytes, i: nat, depth: nat)
    requires i <= |s| && ReadValue(st, s, i, depth + 1).Done?
    requires var t := NextToken(st, s, ReadValue(st, s, i, depth + 1).next);
             t.Done? && t.value != 0x2C && t.value != 0x5D
    ensures ReadItems(st, s, i, depth) == Step.Fail(ExpectedItemComma)
  {
    hide ReadValue, NextToken;
  }

  lemma {:induction false} NoColonAfterName(st: Strategy, s: Bytes, i: nat, depth: nat)
    requires i < |s| && s[i] == 0x22 && ReadString(s, i + 1, -1, []).Done?
    requires var t := NextToken(st, s, ReadString(s, i + 1, -1, []).next); t.Done? && t.value != 0x3A
    ensures ReadField(st, s, i, depth) == Step.Fail(ExpectedColon)
  {
    hide ReadString, NextToken;
  }

  lemma {:induction false} TooManyBrackets(st: Strategy, s: Bytes, i: nat, depth: nat)
    requires i <= |s| && depth > 200
    ensures ReadValue(st, s, i, depth) == Step.Fail(TooDeep)
  {
  }

  lemma {:induction false} NothingThere()
    ensures Read(STANDARD, []) == Step.Fail(EndOfInput)
  {
  }

  lemma {:induction false} SlashAlone()
    ensures Read(COMMENTS, [0x2F]) == Step.Fail(EndAfterSlash)
  {
  }

  lemma {:induction false} OpenComment()
    ensures Read(COMMENTS, [0x2F, 0x2A]) == Step.Fail(EndInComment)
  {
  }

  lemma {:induction false} NoComment()
    ensures Read(COMMENTS, [0x2F, 0x31]) == Step.Fail(MalformedComment)
  {
  }

  lemma {:induction false} OpenString()
    ensures Read(STANDARD, [0x22]) == Step.Fail(EndInString)
  {
  }

  lemma {:induction false} OpenEscape()
    ensures Read(STANDARD, [0x22, 0x5C]) == Step.Fail(EndInString)
  {
  }

  lemma {:induction false} RawControl()
    ensures Read(STANDARD, [0x22, 0x01]) == Step.Fail(ControlInString)
  {
  }

  lemma {:induction false} ShortHex()
    ensures Read(STANDARD, [0x22, 0x5C, 0x75, 0x31, 0x22]) == Step.Fail(BadUnicodeEscape)
  {
  }

  lemma {:induction false} WrongEscape()
    ensures Read(STANDARD, [0x22, 0x5C, 0x78]) == Step.Fail(BadEscape)
  {
  }

  lemma {:induction false} ZeroInFront()
    ensures Read(STANDARD, [0x30, 0x31]) == Step.Fail(LeadingZero)
  {
  }

  lemma {:induction false} MinusAlone()
    ensures Read(STANDARD, [0x2D]) == Step.Fail(BadNumber)
  {
  }

  lemma {:induction false} DotAlone()
    ensures Read(STANDARD, [0x31, 0x2E]) == Step.Fail(NoFractionDigit)
  {
  }

  lemma {:induction false} MarkAlone()
    ensures Read(STANDARD, [0x31, 0x65]) == Step.Fail(NoExponentDigit)
  {
  }

  lemma {:induction false} HalfAWord()
    ensures Read(STANDARD, [0x6E, 0x75, 0x6C]) == Step.Fail(ExpectedWord)
  {
  }

  lemma {:induction false} NoName()
    ensures Read(STANDARD, [0x7B, 0x31]) == Step.Fail(ExpectedName)
  {
  }

  lemma {:induction false} NoValueThere()
    ensures Read(STANDARD, [0x3F]) == Step.Fail(ExpectedValue)
  {
  }

  lemma {:induction false} TwoValues()
    ensures Read(STANDARD, [0x5B, 0x5D, 0x31]) == Step.Fail(TrailingInput)
  {
  }

  /** A slash at the end, a comment that does not end, a slash before anything else. */
  lemma {:induction false} CommentErrors()
    ensures Read(COMMENTS, [0x2F]) == Step.Fail(EndAfterSlash)
    ensures Read(COMMENTS, [0x2F, 0x2A]) == Step.Fail(EndInComment)
    ensures Read(COMMENTS, [0x2F, 0x31]) == Step.Fail(MalformedComment)
  {
    hide Read;
    SlashAlone();
    OpenComment();
    NoComment();
  }

  /** A string or an escape that does not end, a control byte, hexadecimal digits missing, no escape. */
  lemma {:induction false} StringErrors()
    ensures Read(STANDARD, [0x22]) == Step.Fail(EndInString)
    ensures Read(STANDARD, [0x22, 0x5C]) == Step.Fail(EndInString)
    ensures Read(STANDARD, [0x22, 0x01]) == Step.Fail(ControlInString)
    ensures Read(STANDARD, [0x22, 0x5C, 0x75, 0x31, 0x22]) == Step.Fail(BadUnicodeEscape)
    ensures Read(STANDARD, [0x22, 0x5C, 0x78]) == Step.Fail(BadEscape)
  {
    hide Read;
    OpenString();
    OpenEscape();
    RawControl();
    ShortHex();
    WrongEscape();
  }

  /** A zero in front, no digit after the minus, the point or the exponent mark. */
  lemma {:induction false} NumberErrors()
    ensures Read(STANDARD, [0x30, 0x31]) == Step.Fail(LeadingZero)
    ensures Read(STANDARD, [0x2D]) == Step.Fail(BadNumber)
    ensures Read(STANDARD, [0x31, 0x2E]) == Step.Fail(NoFractionDigit)
    ensures Read(STANDARD, [0x31, 0x65]) == Step.Fail(NoExponentDigit)
  {
    hide Read;
    ZeroInFront();
    MinusAlone();
    DotAlone();
    MarkAlone();
  }

  /** Nothing, half a word, no name, no value, and something behind the value. */
  lemma {:induction false} PlaceErrors()
    ensures Read(STANDARD, []) == Step.Fail(EndOfInput)
    ensures Read(STANDARD, [0x6E, 0x75, 0x6C]) == Step.Fail(ExpectedWord)
    ensures Read(STANDARD, [0x7B, 0x31]) == Step.Fail(ExpectedName)
    ensures Read(STANDARD, [0x3F]) == Step.Fail(ExpectedValue)
    ensures Read(STANDARD, [0x5B, 0x5D, 0x31]) == Step.Fail(TrailingInput)
  {
    hide Read;
    NothingThere();
    HalfAWord();
    NoName();
    NoValueThere();
    TwoValues();
  }
}
