/** Byte strings, the character codes the two JSON libraries test for, and spans:
    `Span(s, i, j, w)` says that `w` is what stands in `s` from `i` up to `j`. */
module ByteText {
  type Byte = x: int | 0 <= x < 256
  type Bytes = seq<Byte>

  const NUL: Byte := 0x00
  const BACKSPACE: Byte := 0x08
  const TAB: Byte := 0x09
  const NEWLINE: Byte := 0x0A
  const FORM_FEED: Byte := 0x0C
  const RETURN: Byte := 0x0D
  const SPACE: Byte := 0x20
  const QUOTE: Byte := 0x22
  const STAR: Byte := 0x2A
  const PLUS: Byte := 0x2B
  const COMMA: Byte := 0x2C
  const MINUS: Byte := 0x2D
  const DOT: Byte := 0x2E
  const SLASH: Byte := 0x2F
  const ZERO: Byte := 0x30
  const NINE: Byte := 0x39
  const COLON: Byte := 0x3A
  const UPPER_E: Byte := 0x45
  const LEFT_BRACKET: Byte := 0x5B
  const BACKSLASH: Byte := 0x5C
  const RIGHT_BRACKET: Byte := 0x5D
  const LOWER_B: Byte := 0x62
  const LOWER_E: Byte := 0x65
  const LOWER_F: Byte := 0x66
  const LOWER_N: Byte := 0x6E
  const LOWER_R: Byte := 0x72
  const LOWER_T: Byte := 0x74
  const LOWER_U: Byte := 0x75
  const LEFT_BRACE: Byte := 0x7B
  const RIGHT_BRACE: Byte := 0x7D

  const NULL_WORD: Bytes := [0x6E, 0x75, 0x6C, 0x6C]
  const TRUE_WORD: Bytes := [0x74, 0x72, 0x75, 0x65]
  const FALSE_WORD: Bytes := [0x66, 0x61, 0x6C, 0x73, 0x65]

  predicate IsWhite(b: Byte) {
    b == SPACE || b == RETURN || b == NEWLINE || b == TAB
  }

  predicate IsDigit(b: Byte) {
    ZERO <= b <= NINE
  }

  predicate Digits(t: Bytes) {
    forall k :: 0 <= k < |t| ==> IsDigit(t[k])
  }

  predicate IsHex(b: Byte) {
    IsDigit(b) || 0x41 <= b <= 0x46 || 0x61 <= b <= 0x66
  }

  function HexValue(b: Byte): (v: nat)
    requires IsHex(b)
    ensures v < 16
  {
    if IsDigit(b) then b - ZERO else if b <= 0x46 then b - 0x41 + 10 else b - 0x61 + 10
  }

  /** A lower-case hexadecimal digit. */
  function HexDigit(d: nat): (c: Byte)
    requires d < 16
    ensures IsHex(c) && HexValue(c) == d
  {
    if d < 10 then ZERO + d else 0x61 + (d - 10)
  }

  predicate IsHexQuad(h: Bytes) {
    |h| == 4 && IsHex(h[0]) && IsHex(h[1]) && IsHex(h[2]) && IsHex(h[3])
  }

  /** The number four hexadecimal digits stand for. */
  function Hex4(h: Bytes): (v: nat)
    requires IsHexQuad(h)
    ensures v < 0x10000
  {
    ((HexValue(h[0]) * 16 + HexValue(h[1])) * 16 + HexValue(h[2])) * 16 + HexValue(h[3])
  }

  /** Reading one past the end of a `std::string` gives the terminating NUL. */
  function At(s: Bytes, i: nat): Byte
    requires i <= |s|
  {
    if i < |s| then s[i] else NUL
  }

  // What the codes stand for

  function Ascii(text: string): Bytes
    requires forall k :: 0 <= k < |text| ==> text[k] as int < 0x80
  {
    seq(|text|, k requires 0 <= k < |text| => text[k] as int)
  }

  lemma {:induction false} SyntaxIsAscii()
    ensures Ascii("{}[]:,") == [LEFT_BRACE, RIGHT_BRACE, LEFT_BRACKET, RIGHT_BRACKET, COLON, COMMA]
    ensures Ascii("\"\\/*") == [QUOTE, BACKSLASH, SLASH, STAR]
    ensures Ascii("bfnrtu") == [LOWER_B, LOWER_F, LOWER_N, LOWER_R, LOWER_T, LOWER_U]
    ensures Ascii("+-.09eE") == [PLUS, MINUS, DOT, ZERO, NINE, LOWER_E, UPPER_E]
    ensures Ascii("null") == NULL_WORD && Ascii("true") == TRUE_WORD && Ascii("false") == FALSE_WORD
  {
  }

  lemma {:induction false} SignsAreAscii()
    ensures Ascii("{") == [LEFT_BRACE] && Ascii("}") == [RIGHT_BRACE]
    ensures Ascii("[") == [LEFT_BRACKET] && Ascii("]") == [RIGHT_BRACKET]
    ensures Ascii(",") == [COMMA] && Ascii(", ") == [COMMA, SPACE]
    ensures Ascii("\"") == [QUOTE] && Ascii("\":") == [QUOTE, COLON] && Ascii("\": ") == [QUOTE, COLON, SPACE]
  {
  }

  lemma {:induction false} ControlsAreAscii()
    ensures Ascii("\0\t\n\r ") == [NUL, TAB, NEWLINE, RETURN, SPACE]
    ensures BACKSPACE == 8 && FORM_FEED == 12
  {
  }

  /** White space of RFC 8259, section 2. */
  lemma {:induction false} WhiteIs(b: Byte)
    ensures IsWhite(b) <==> b in Ascii(" \t\n\r")
  {
    ControlsAreAscii();
    assert Ascii(" \t\n\r") == [SPACE, TAB, NEWLINE, RETURN];
  }

  lemma {:induction false} HexDigitsAre()
    ensures [HexDigit(0), HexDigit(1), HexDigit(2), HexDigit(3), HexDigit(4), HexDigit(5), HexDigit(6), HexDigit(7)]
         == Ascii("01234567")
    ensures [HexDigit(8), HexDigit(9), HexDigit(10), HexDigit(11), HexDigit(12), HexDigit(13), HexDigit(14),
             HexDigit(15)]
         == Ascii("89abcdef")
  {
  }

  lemma {:induction false} Regroup(a: Bytes, b: Bytes, c: Bytes)
    ensures (a + b) + c == a + (b + c)
  {
  }

  predicate Span(s: Bytes, i: int, j: int, w: Bytes) {
    0 <= i <= j <= |s| && s[i..j] == w
  }

  lemma {:induction false} SpanJoin(s: Bytes, i: int, j: int, k: int, a: Bytes, b: Bytes)
    requires Span(s, i, j, a) && Span(s, j, k, b)
    ensures Span(s, i, k, a + b)
  {
    assert s[i..k] == s[i..j] + s[j..k];
  }

  lemma {:induction false} SpanSplit(s: Bytes, i: int, k: int, a: Bytes, b: Bytes)
    requires Span(s, i, k, a + b)
    ensures Span(s, i, i + |a|, a) && Span(s, i + |a|, k, b)
  {
    assert s[i..i + |a|] == (a + b)[..|a|];
    assert s[i + |a|..k] == (a + b)[|a|..];
  }

  lemma {:induction false} SpanByte(s: Bytes, i: int, k: int, c: Byte, b: Bytes)
    requires Span(s, i, k, [c] + b)
    ensures i < k && s[i] == c && Span(s, i + 1, k, b)
  {
    SpanSplit(s, i, k, [c], b);
    assert s[i..i + 1][0] == c;
  }

  lemma {:induction false} SpanOne(s: Bytes, i: int, j: int, c: Byte)
    requires Span(s, i, j, [c])
    ensures 0 <= i < |s| && j == i + 1 && s[i] == c
  {
    assert s[i..j][0] == c;
  }

  lemma {:induction false} SpanTwo(s: Bytes, i: int)
    requires 0 <= i && i + 2 <= |s|
    ensures Span(s, i, i + 2, [s[i], s[i + 1]])
  {
  }

  lemma {:induction false} SpanCons(s: Bytes, i: int, k: int, b: Bytes)
    requires 0 <= i < |s| && Span(s, i + 1, k, b)
    ensures Span(s, i, k, [s[i]] + b)
  {
    assert s[i..i + 1] == [s[i]];
    SpanJoin(s, i, i + 1, k, [s[i]], b);
  }

  lemma {:induction false} SpanSnoc(s: Bytes, i: int, k: int, b: Bytes)
    requires 0 <= k < |s| && Span(s, i, k, b)
    ensures Span(s, i, k + 1, b + [s[k]])
  {
    assert s[k..k + 1] == [s[k]];
    SpanJoin(s, i, k, k + 1, b, [s[k]]);
  }
}
