/** The recursive-descent reading of json11's parser as functions of the text and the cursor.
    Each follows the code branch by branch, including where it fails first; the class in
    Json11Parser is proved equal to these functions, and the theorems are about them. */
module JsonReader {
  import opened Options
  import opened ByteText
  import opened Decimal
  import opened JsonValue
  import opened Utf8
  import opened JsonGrammar

  datatype Error =
    | NoError
    | EndAfterSlash
    | EndInComment
    | MalformedComment
    | EndOfInput
    | EndInString
    | ControlInString
    | BadUnicodeEscape
    | BadEscape
    | LeadingZero
    | BadNumber
    | NoFractionDigit
    | NoExponentDigit
    | ExpectedWord
    | TooDeep
    | ExpectedName
    | ExpectedColon
    | ExpectedFieldComma
    | ExpectedItemComma
    | ExpectedValue
    | TrailingInput

  datatype Step<+T> = Done(value: T, next: nat) | Fail(error: Error)

  predicate Reaches<T>(r: Step<T>, j: int) {
    r.Done? && r.next == j
  }

  // White space and comments

  function SkipWhite(s: Bytes, i: nat): (j: nat)
    requires i <= |s|
    ensures i <= j <= |s|
    decreases |s| - i
  {
    if IsWhite(At(s, i)) then SkipWhite(s, i + 1) else i
  }

  function LineEnd(s: Bytes, i: nat): (j: nat)
    requires i <= |s|
    ensures i <= j <= |s|
    decreases |s| - i
  {
    if i < |s| && s[i] != NEWLINE then LineEnd(s, i + 1) else i
  }

  /** The position after the first closing mark at or after i. */
  function BlockEnd(s: Bytes, i: nat): (r: Option<nat>)
    ensures r.Some? ==> i + 2 <= r.value <= |s|
    decreases |s| - i
  {
    if i + 2 > |s| then None
    else if s[i] == STAR && s[i + 1] == SLASH then Some(i + 2)
    else BlockEnd(s, i + 1)
  }

  /** Whether there was a comment at i, and where reading goes on. */
  function SkipComment(s: Bytes, i: nat): (r: Step<bool>)
    requires i <= |s|
    ensures r.Done? ==> i <= r.next <= |s| && (r.value ==> i < r.next)
    ensures r.Fail? ==> r.error != NoError
  {
    if At(s, i) != SLASH then Done(false, i)
    else if i + 1 == |s| then Fail(EndAfterSlash)
    else if s[i + 1] == SLASH then Done(true, LineEnd(s, i + 2))
    else if s[i + 1] == STAR then
      match BlockEnd(s, i + 2)
      case None => Fail(EndInComment)
      case Some(j) => Done(true, j)
    else Fail(MalformedComment)
  }

  function SkipComments(s: Bytes, i: nat): (r: Step<()>)
    requires i <= |s|
    ensures r.Done? ==> i <= r.next <= |s|
    ensures r.Fail? ==> r.error != NoError
    decreases |s| - i
  {
    match SkipComment(s, i)
    case Fail(e) => Fail(e)
    case Done(found, j) =>
      var k := SkipWhite(s, j);
      if found then SkipComments(s, k) else Done((), k)
  }

  function SkipGap(st: Strategy, s: Bytes, i: nat): (r: Step<()>)
    requires i <= |s|
    ensures r.Done? ==> i <= r.next <= |s|
    ensures r.Fail? ==> r.error != NoError
  {
    var j := SkipWhite(s, i);
    if st.STANDARD? then Done((), j) else SkipComments(s, j)
  }

  function NextToken(st: Strategy, s: Bytes, i: nat): (r: Step<Byte>)
    requires i <= |s|
    ensures r.Done? ==> i < r.next <= |s| && r.value == s[r.next - 1]
    ensures r.Fail? ==> r.error != NoError
  {
    match SkipGap(st, s, i)
    case Fail(e) => Fail(e)
    case Done(_, j) => if j == |s| then Fail(EndOfInput) else Done(s[j], j + 1)
  }

  // Strings

  /** The escape that starts after the letter u at i. */
  function ReadHex(s: Bytes, i: nat): (r: Option<HexQuad>)
    requires i <= |s|
    ensures r.Some? ==> Span(s, i, i + 4, r.value)
  {
    if i + 4 <= |s| && IsHexQuad(s[i..i + 4]) then Some(s[i..i + 4]) else None
  }

  /** The decoder loop: `last` is the escaped code point not yet written to `out`, -1 for none. */
  function ReadString(s: Bytes, i: nat, last: int, out: Bytes): (r: Step<Bytes>)
    requires i <= |s| && last < 0x10000
    ensures r.Done? ==> i < r.next <= |s|
    ensures r.Fail? ==> r.error != NoError
    decreases |s| - i
  {
    if i == |s| then Fail(EndInString)
    else if s[i] == QUOTE then Done(out + Encode(last), i + 1)
    else if s[i] < SPACE then Fail(ControlInString)
    else if s[i] != BACKSLASH then ReadString(s, i + 1, -1, out + Encode(last) + [s[i]])
    else if i + 1 == |s| then Fail(EndInString)
    else if s[i + 1] == LOWER_U then
      match ReadHex(s, i + 2)
      case None => Fail(BadUnicodeEscape)
      case Some(h) =>
        if IsHigh(last) && IsLow(Hex4(h)) then
          ReadString(s, i + 6, -1, out + Encode(Combine(last, Hex4(h))))
        else ReadString(s, i + 6, Hex4(h), out + Encode(last))
    else if IsEscapeLetter(s[i + 1]) then
      ReadString(s, i + 2, -1, out + Encode(last) + [EscapeValue(s[i + 1])])
    else Fail(BadEscape)
  }

  // Numbers

  function SkipDigits(s: Bytes, i: nat): (j: nat)
    requires i <= |s|
    ensures i <= j <= |s|
    ensures Digits(s[i..j]) && !IsDigit(At(s, j))
    decreases |s| - i
  {
    if IsDigit(At(s, i)) then SkipDigits(s, i + 1) else i
  }

  function WholePart(s: Bytes, i: nat): (r: Step<()>)
    requires i <= |s|
    ensures r.Done? ==> i < r.next <= |s|
    ensures r.Fail? ==> r.error != NoError
  {
    if At(s, i) == ZERO then
      if IsDigit(At(s, i + 1)) then Fail(LeadingZero) else Done((), i + 1)
    else if IsDigit(At(s, i)) then Done((), SkipDigits(s, i + 1))
    else Fail(BadNumber)
  }

  function FractionPart(s: Bytes, i: nat): (r: Step<()>)
    requires i <= |s|
    ensures r.Done? ==> i <= r.next <= |s|
    ensures r.Fail? ==> r.error != NoError
  {
    if At(s, i) != DOT then Done((), i)
    else if !IsDigit(At(s, i + 1)) then Fail(NoFractionDigit)
    else Done((), SkipDigits(s, i + 1))
  }

  predicate IsExponentMark(b: Byte) {
    b == LOWER_E || b == UPPER_E
  }

  function ExponentPart(s: Bytes, i: nat): (r: Step<()>)
    requires i <= |s|
    ensures r.Done? ==> i <= r.next <= |s|
    ensures r.Fail? ==> r.error != NoError
  {
    if !IsExponentMark(At(s, i)) then Done((), i)
    else
      var b := At(s, i + 1);
      var j := if b == PLUS || b == MINUS then i + 2 else i + 1;
      if !IsDigit(At(s, j)) then Fail(NoExponentDigit) else Done((), SkipDigits(s, j))
  }

  /** `std::numeric_limits<int>::digits10`. */
  const INT_DIGITS: nat := 9

  /** `strtod`, exact on integers that a double holds. */
  function ToDouble(text: Bytes, integral: bool): Num {
    var v := IntValue(text);
    if integral && -EXACT <= v <= EXACT then Whole(v) else Num.Decimal(text)
  }

  function ReadNumber(s: Bytes, start: nat): (r: Step<Json>)
    requires start <= |s|
    ensures r.Done? ==> start < r.next <= |s|
    ensures r.Fail? ==> r.error != NoError
  {
    var i := if At(s, start) == MINUS then start + 1 else start;
    match WholePart(s, i)
    case Fail(e) => Fail(e)
    case Done(_, j) =>
      if At(s, j) != DOT && !IsExponentMark(At(s, j)) && j - start <= INT_DIGITS then
        Done(Number(Whole(IntValue(s[start..j]))), j)
      else
        match FractionPart(s, j)
        case Fail(e) => Fail(e)
        case Done(_, k) =>
          match ExponentPart(s, k)
          case Fail(e) => Fail(e)
          case Done(_, m) => Done(Number(ToDouble(s[start..m], m == j)), m)
  }

  // Values

  function ReadWord(s: Bytes, i: nat, word: Bytes, value: Json): (r: Step<Json>)
    requires i < |s| && |word| > 0
    ensures r.Done? ==> i < r.next <= |s|
    ensures r.Fail? ==> r.error != NoError
  {
    if Span(s, i, i + |word|, word) then Done(value, i + |word|) else Fail(ExpectedWord)
  }

  function AsString(r: Step<Bytes>): Step<Json> {
    match r
    case Fail(e) => Fail(e)
    case Done(str, j) => Done(String(str), j)
  }

  function AsArray(r: Step<seq<Json>>): Step<Json> {
    match r
    case Fail(e) => Fail(e)
    case Done(vs, j) => Done(Array(vs), j)
  }

  function AsObject(r: Step<seq<Member>>): Step<Json> {
    match r
    case Fail(e) => Fail(e)
    case Done(ms, j) => Done(Object(Collect(ms)), j)
  }

  function ReadValue(st: Strategy, s: Bytes, i: nat, depth: nat): (r: Step<Json>)
    requires i <= |s|
    ensures r.Done? ==> i < r.next <= |s|
    ensures r.Fail? ==> r.error != NoError
    decreases |s| - i, 1
  {
    if depth > MAX_DEPTH then Fail(TooDeep)
    else
      match NextToken(st, s, i)
      case Fail(e) => Fail(e)
      case Done(_, j) => ReadFrom(st, s, j - 1, depth)
  }

  /** The value whose first character is at k. */
  function ReadFrom(st: Strategy, s: Bytes, k: nat, depth: nat): (r: Step<Json>)
    requires k < |s|
    ensures r.Done? ==> k < r.next <= |s|
    ensures r.Fail? ==> r.error != NoError
    decreases |s| - k, 0
  {
    var c := s[k];
    if c == MINUS || IsDigit(c) then ReadNumber(s, k)
    else if c == LOWER_T then ReadWord(s, k, TRUE_WORD, Bool(true))
    else if c == LOWER_F then ReadWord(s, k, FALSE_WORD, Bool(false))
    else if c == LOWER_N then ReadWord(s, k, NULL_WORD, Null)
    else if c == QUOTE then AsString(ReadString(s, k + 1, -1, []))
    else if c == LEFT_BRACE then AsObject(ReadObject(st, s, k + 1, depth))
    else if c == LEFT_BRACKET then AsArray(ReadArray(st, s, k + 1, depth))
    else Fail(ExpectedValue)
  }

  /** What follows an opening bracket at depth `depth`. */
  function ReadArray(st: Strategy, s: Bytes, i: nat, depth: nat): (r: Step<seq<Json>>)
    requires i <= |s|
    ensures r.Done? ==> i < r.next <= |s|
    ensures r.Fail? ==> r.error != NoError
    decreases |s| - i, 3
  {
    match NextToken(st, s, i)
    case Fail(e) => Fail(e)
    case Done(c, j) => if c == RIGHT_BRACKET then Done([], j) else ReadItems(st, s, j - 1, depth)
  }

  /** At least one item and what follows it, up to the closing bracket. */
  function ReadItems(st: Strategy, s: Bytes, i: nat, depth: nat): (r: Step<seq<Json>>)
    requires i <= |s|
    ensures r.Done? ==> i < r.next <= |s|
    ensures r.Fail? ==> r.error != NoError
    decreases |s| - i, 2
  {
    match ReadValue(st, s, i, depth + 1)
    case Fail(e) => Fail(e)
    case Done(v, j) =>
      match NextToken(st, s, j)
      case Fail(e) => Fail(e)
      case Done(c, k) =>
        if c == RIGHT_BRACKET then Done([v], k)
        else if c != COMMA then Fail(ExpectedItemComma)
        else
          match NextToken(st, s, k)
          case Fail(e) => Fail(e)
          case Done(_, m) => Prepend([v], ReadItems(st, s, m - 1, depth))
  }

  function Prepend<T>(front: seq<T>, r: Step<seq<T>>): Step<seq<T>> {
    match r
    case Fail(e) => Fail(e)
    case Done(back, j) => Done(front + back, j)
  }

  function ReadObject(st: Strategy, s: Bytes, i: nat, depth: nat): (r: Step<seq<Member>>)
    requires i <= |s|
    ensures r.Done? ==> i < r.next <= |s|
    ensures r.Fail? ==> r.error != NoError
    decreases |s| - i, 3
  {
    match NextToken(st, s, i)
    case Fail(e) => Fail(e)
    case Done(c, j) => if c == RIGHT_BRACE then Done([], j) else ReadFields(st, s, j - 1, depth)
  }

  /** The name, the colon and the value of one field; i is at the opening quote. */
  function ReadField(st: Strategy, s: Bytes, i: nat, depth: nat): (r: Step<Member>)
    requires i < |s|
    ensures r.Done? ==> i < r.next <= |s|
    ensures r.Fail? ==> r.error != NoError
    decreases |s| - i, 1
  {
    if s[i] != QUOTE then Fail(ExpectedName)
    else
      match ReadString(s, i + 1, -1, [])
      case Fail(e) => Fail(e)
      case Done(key, j) =>
        match NextToken(st, s, j)
        case Fail(e) => Fail(e)
        case Done(c, k) =>
          if c != COLON then Fail(ExpectedColon)
          else
            match ReadValue(st, s, k, depth + 1)
            case Fail(e) => Fail(e)
            case Done(v, m) => Done(Member(key, v), m)
  }

  function ReadFields(st: Strategy, s: Bytes, i: nat, depth: nat): (r: Step<seq<Member>>)
    requires i < |s|
    ensures r.Done? ==> i < r.next <= |s|
    ensures r.Fail? ==> r.error != NoError
    decreases |s| - i, 2
  {
    match ReadField(st, s, i, depth)
    case Fail(e) => Fail(e)
    case Done(f, j) =>
      match NextToken(st, s, j)
      case Fail(e) => Fail(e)
      case Done(c, k) =>
        if c == RIGHT_BRACE then Done([f], k)
        else if c != COMMA then Fail(ExpectedFieldComma)
        else
          match NextToken(st, s, k)
          case Fail(e) => Fail(e)
          case Done(_, m) => Prepend([f], ReadFields(st, s, m - 1, depth))
  }

  /** `Json::parse`: one value and nothing but white space after it. */
  function Read(st: Strategy, s: Bytes): (r: Step<Json>)
    ensures r.Done? ==> r.next == |s|
    ensures r.Fail? ==> r.error != NoError
  {
    match ReadValue(st, s, 0, 0)
    case Fail(e) => Fail(e)
    case Done(v, i) =>
      match SkipGap(st, s, i)
      case Fail(e) => Fail(e)
      case Done(_, j) => if j == |s| then Done(v, j) else Fail(TrailingInput)
  }
}
