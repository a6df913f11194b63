/** The words and numbers of the co JSON parser: where they end, and which are integers. */
module CoTokens {
  import opened ByteText

  predicate EndsToken(b: Byte) {
    b == COMMA || b == RIGHT_BRACE || b == RIGHT_BRACKET || IsWhite(b)
  }

  /** The digits that `fastatoi` goes through. */
  function DigitsOf(text: Bytes): Bytes
    requires |text| > 0
  {
    if text[0] == MINUS then text[1..] else text
  }

  lemma {:induction false} EndsTokenIs(b: Byte)
    ensures EndsToken(b) <==> b in Ascii(",}] \t\n\r")
  {
    assert Ascii(",}] \t\n\r") == [COMMA, RIGHT_BRACE, RIGHT_BRACKET, SPACE, TAB, NEWLINE, RETURN];
  }

  /** What `fastatoi` takes: digits after an optional minus, possibly none. */
  predicate IsInteger(text: Bytes)
    requires |text| > 0
  {
    Digits(DigitsOf(text))
  }

  lemma {:induction false} IntegerIs(text: Bytes)
    requires |text| > 0
    ensures IsInteger(text)
       <==> forall k :: (if text[0] == '-' as int then 1 else 0) <= k < |text| ==> '0' as int <= text[k] <= '9' as int
  {
    if text[0] == '-' as int {
      assert forall k :: 1 <= k < |text| ==> text[k] == text[1..][k - 1];
    }
  }
}
