/** The co JSON parser as functions of the text and the reading position. Positions returned are
    those of the last byte read, as in the code. Keys are not copied into the value: their bytes go
    to a buffer shared by all objects of one text, and a member keeps where its key starts there. */
module CoReader {
  import opened Options
  import opened ByteText
  import opened Decimal
  import opened Utf8
  import opened JsonGrammar
  import JR = JsonReader
  import opened CoValue
  import opened CoTokens

  datatype PValue =
    | PNull
    | PBool(b: bool)
    | PInt(n: int)
    | PDouble(text: Bytes)
    | PStr(s: Bytes)
    | PArr(items: seq<PValue>)
    | PObj(members: seq<PMember>)

  /** `key` is the offset of the key in the shared buffer, after the reference count. */
  datatype PMember = PMember(key: nat, value: PValue)

  /** The shared buffer: its reference count, and the keys, each with its closing NUL. */
  datatype Keys = Keys(refs: nat, data: Bytes)

  /** Bytes taken by the reference count. */
  const COUNT_SIZE: nat := 4

  /** Whether keys are shared (`keys_len` is positive), and which texts `str::to_double` takes. */
  datatype Config = Config(keysLen: nat, isDouble: Bytes -> bool)

  datatype Parsed<+T> = Ok(value: T, last: nat, keys: Keys) | Bad

  // Strings

  /** `strpbrk(s + b, "\"\\")`; |s| for none before the NUL. */
  function FindStop(s: Bytes, b: nat): (j: nat)
    requires b <= |s|
    ensures b <= j <= |s| && (j < |s| ==> s[j] == QUOTE || s[j] == BACKSLASH)
    decreases |s| - b
  {
    if b == |s| || s[b] == NUL then |s|
    else if s[b] == QUOTE || s[b] == BACKSLASH then b
    else FindStop(s, b + 1)
  }

  /** The escape whose digits start at b: its UTF-8 bytes and its last position. A high surrogate
      must be followed by an escaped low one. */
  function ReadUnicode(s: Bytes, b: nat): (r: Option<(Bytes, nat)>)
    requires b <= |s|
    ensures r.Some? ==> b < r.value.1 < |s|
  {
    match JR.ReadHex(s, b)
    case None => None
    case Some(h) =>
      var v := Hex4(h);
      if !IsHigh(v) then Some((Encode(v), b + 3))
      else if b + 6 <= |s| && s[b + 4] == BACKSLASH && s[b + 5] == LOWER_U then
        match JR.ReadHex(s, b + 6)
        case None => None
        case Some(g) => if IsLow(Hex4(g)) then Some((Encode(Combine(v, Hex4(g))), b + 9)) else None
      else None
  }

  function ReadText(s: Bytes, b: nat, out: Bytes): (r: Option<(Bytes, nat)>)
    requires b <= |s|
    ensures r.Some? ==> b <= r.value.1 < |s|
    decreases |s| - b
  {
    var p := FindStop(s, b);
    if p == |s| then None
    else if s[p] == QUOTE then Some((out + s[b..p], p))
    else if p + 1 == |s| then None
    else if s[p + 1] == LOWER_U then
      match ReadUnicode(s, p + 2)
      case None => None
      case Some((text, q)) => ReadText(s, q + 1, out + s[b..p] + text)
    else if IsEscapeLetter(s[p + 1]) then ReadText(s, p + 2, out + s[b..p] + [EscapeValue(s[p + 1])])
    else None
  }

  /** `memchr(b, '"', e - b)`; |s| for none. */
  function FindQuote(s: Bytes, b: nat): (j: nat)
    requires b <= |s|
    ensures b <= j <= |s| && (j < |s| ==> s[j] == QUOTE)
    decreases |s| - b
  {
    if b == |s| || s[b] == QUOTE then b else FindQuote(s, b + 1)
  }

  // Words and numbers

  /** Where the token that i lies in ends, and how many dots it has; |s| where it does not end or
      has a second dot. */
  function TokenEnd(s: Bytes, i: nat, dots: nat): (r: (nat, nat))
    requires i <= |s|
    ensures i <= r.0 <= |s|
    decreases |s| - i
  {
    if i == |s| then (|s|, dots)
    else if EndsToken(s[i]) then (i, dots)
    else if s[i] == DOT then if dots == 1 then (|s|, dots) else TokenEnd(s, i + 1, dots + 1)
    else TokenEnd(s, i + 1, dots)
  }

  function TokenValue(c: Config, text: Bytes, dots: nat): Option<PValue>
    requires |text| > 0
  {
    if text[0] == LOWER_F then if text == FALSE_WORD then Some(PBool(false)) else None
    else if text[0] == LOWER_T then if text == TRUE_WORD then Some(PBool(true)) else None
    else if text[0] == LOWER_N then if text == NULL_WORD then Some(PNull) else None
    else if dots == 0 then if IsInteger(text) then Some(PInt(Wrap(IntValue(text)))) else None
    else if c.isDouble(text) then Some(PDouble(text)) else None
  }

  function ReadToken(c: Config, s: Bytes, b: nat): (r: Option<(PValue, nat)>)
    requires b < |s|
    ensures r.Some? ==> b <= r.value.1 < |s|
  {
    var (e, dots) := TokenEnd(s, b + 1, 0);
    if e == |s| then None
    else
      match TokenValue(c, s[b..e], dots)
      case None => None
      case Some(v) => Some((v, e - 1))
  }

  // Values

  function Open(c: Config, keys: Keys): Keys {
    if c.keysLen > 0 then keys.(refs := keys.refs + 1) else keys
  }

  function WithoutKeys(r: Option<(PValue, nat)>, keys: Keys): Parsed<PValue> {
    match r
    case None => Bad
    case Some((v, last)) => Ok(v, last, keys)
  }

  function AsText(r: Option<(Bytes, nat)>): Option<(PValue, nat)> {
    match r
    case None => None
    case Some((text, last)) => Some((PStr(text), last))
  }

  function AsObject(r: Parsed<seq<PMember>>): Parsed<PValue> {
    match r
    case Bad => Bad
    case Ok(ms, last, keys) => Ok(PObj(ms), last, keys)
  }

  function AsArray(r: Parsed<seq<PValue>>): Parsed<PValue> {
    match r
    case Bad => Bad
    case Ok(vs, last, keys) => Ok(PArr(vs), last, keys)
  }

  function ReadValue(c: Config, s: Bytes, k: nat, keys: Keys): (r: Parsed<PValue>)
    requires k < |s|
    ensures r.Ok? ==> k <= r.last < |s|
    decreases |s| - k, 0
  {
    if s[k] == QUOTE then WithoutKeys(AsText(ReadText(s, k + 1, [])), keys)
    else if s[k] == LEFT_BRACE then AsObject(ReadMembers(c, s, k + 1, Open(c, keys)))
    else if s[k] == LEFT_BRACKET then AsArray(ReadItems(c, s, k + 1, keys))
    else WithoutKeys(ReadToken(c, s, k), keys)
  }

  /** One member whose key starts after the quote at k. */
  function ReadMember(c: Config, s: Bytes, k: nat, keys: Keys): (r: Parsed<PMember>)
    requires k < |s|
    ensures r.Ok? ==> k < r.last < |s|
    decreases |s| - k, 0
  {
    if s[k] != QUOTE then Bad
    else
      var p := FindQuote(s, k + 1);
      if p == |s| then Bad
      else
        var colon := JR.SkipWhite(s, p + 1);
        if colon == |s| || s[colon] != COLON then Bad
        else
          var v := JR.SkipWhite(s, colon + 1);
          if v == |s| then Bad
          else
            match ReadValue(c, s, v, keys.(data := keys.data + s[k + 1..p] + [NUL]))
            case Bad => Bad
            case Ok(value, last, keys') => Ok(PMember(|keys.data|, value), last, keys')
  }

  function Prepend<T>(front: seq<T>, r: Parsed<seq<T>>): Parsed<seq<T>> {
    match r
    case Bad => Bad
    case Ok(back, last, keys) => Ok(front + back, last, keys)
  }

  /** The members up to the closing brace; a comma may stand before it. */
  function ReadMembers(c: Config, s: Bytes, b: nat, keys: Keys): (r: Parsed<seq<PMember>>)
    requires b <= |s|
    ensures r.Ok? ==> b <= r.last < |s|
    decreases |s| - b, 1
  {
    var k := JR.SkipWhite(s, b);
    if k == |s| then Bad
    else if s[k] == RIGHT_BRACE then Ok([], k, keys)
    else
      match ReadMember(c, s, k, keys)
      case Bad => Bad
      case Ok(m, last, keys') =>
        var t := JR.SkipWhite(s, last + 1);
        if t == |s| then Bad
        else if s[t] == RIGHT_BRACE then Ok([m], t, keys')
        else if s[t] != COMMA then Bad
        else Prepend([m], ReadMembers(c, s, t + 1, keys'))
  }

  function ReadItems(c: Config, s: Bytes, b: nat, keys: Keys): (r: Parsed<seq<PValue>>)
    requires b <= |s|
    ensures r.Ok? ==> b <= r.last < |s|
    decreases |s| - b, 1
  {
    var k := JR.SkipWhite(s, b);
    if k == |s| then Bad
    else if s[k] == RIGHT_BRACKET then Ok([], k, keys)
    else
      match ReadValue(c, s, k, keys)
      case Bad => Bad
      case Ok(v, last, keys') =>
        var t := JR.SkipWhite(s, last + 1);
        if t == |s| then Bad
        else if s[t] == RIGHT_BRACKET then Ok([v], t, keys')
        else if s[t] != COMMA then Bad
        else Prepend([v], ReadItems(c, s, t + 1, keys'))
  }

  lemma {:induction false} ItemsTurn(c: Config, s: Bytes, b: nat, keys: Keys)
    requires b <= |s|
    ensures var k, r := JR.SkipWhite(s, b), ReadItems(c, s, b, keys);
            && (k == |s| ==> r == Bad)
            && (k < |s| && s[k] == RIGHT_BRACKET ==> r == Ok([], k, keys))
            && (k < |s| && s[k] != RIGHT_BRACKET ==>
                match ReadValue(c, s, k, keys)
                case Bad => r == Bad
                case Ok(v, last, keys') =>
                  var t := JR.SkipWhite(s, last + 1);
                  if t < |s| && s[t] == RIGHT_BRACKET then r == Ok([v], t, keys')
                  else if t < |s| && s[t] == COMMA then r == Prepend([v], ReadItems(c, s, t + 1, keys'))
                  else r == Bad)
  {
    hide ReadValue, JR.SkipWhite;
  }

  lemma {:induction false} MembersTurn(c: Config, s: Bytes, b: nat, keys: Keys)
    requires b <= |s|
    ensures var k, r := JR.SkipWhite(s, b), ReadMembers(c, s, b, keys);
            && (k == |s| ==> r == Bad)
            && (k < |s| && s[k] == RIGHT_BRACE ==> r == Ok([], k, keys))
            && (k < |s| && s[k] != RIGHT_BRACE ==>
                match ReadMember(c, s, k, keys)
                case Bad => r == Bad
                case Ok(m, last, keys') =>
                  var t := JR.SkipWhite(s, last + 1);
                  if t < |s| && s[t] == RIGHT_BRACE then r == Ok([m], t, keys')
                  else if t < |s| && s[t] == COMMA then r == Prepend([m], ReadMembers(c, s, t + 1, keys'))
                  else r == Bad)
  {
    hide ReadMember, JR.SkipWhite;
  }

  /** The length of the shared buffer: what the caller asks for, or if that is zero the text's. */
  function KeysLen(s: Bytes, asked: nat): nat {
    if asked == 0 && |s| > 4 then |s| else asked
  }

  /** A text of more than four bytes shares its keys unless it is told otherwise. */
  lemma {:induction false} DefaultKeysLen(s: Bytes)
    ensures KeysLen(s, 0) == if |s| >= 5 then |s| else 0
    ensures forall asked: nat :: asked > 0 ==> KeysLen(s, asked) == asked
  {
  }

  /** `Value::parse_from`, given the length of the buffer: an object or an array, white space around. */
  function Parse(c: Config, s: Bytes): Parsed<PValue> {
    var p := JR.SkipWhite(s, 0);
    if p == |s| || (s[p] != LEFT_BRACE && s[p] != LEFT_BRACKET) then Bad
    else
      match ReadValue(c, s, p, Keys(0, []))
      case Bad => Bad
      case Ok(v, last, keys) => if JR.SkipWhite(s, last + 1) == |s| then Ok(v, last, keys) else Bad
  }

  // What a parsed value is: its keys are read from the buffer as C strings

  function KeyAt(data: Bytes, at: nat): Bytes {
    if at <= |data| then data[at..NulAt(data, at)] else []
  }

  function Resolve(v: PValue, data: Bytes): Value
    decreases v
  {
    match v
    case PNull => CoValue.Null
    case PBool(b) => CoValue.Bool(b)
    case PInt(n) => Int(n)
    case PDouble(text) => Double(text)
    case PStr(s) => Str(s)
    case PArr(vs) => Arr(ResolveItems(vs, data))
    case PObj(ms) => Obj(ResolveMembers(ms, data))
  }

  function ResolveItems(vs: seq<PValue>, data: Bytes): seq<Value>
    decreases vs
  {
    if |vs| == 0 then [] else [Resolve(vs[0], data)] + ResolveItems(vs[1..], data)
  }

  function ResolveMembers(ms: seq<PMember>, data: Bytes): seq<CoValue.Member>
    decreases ms
  {
    if |ms| == 0 then []
    else [ResolveMember(ms[0], data)] + ResolveMembers(ms[1..], data)
  }

  function ResolveMember(m: PMember, data: Bytes): CoValue.Member
    decreases m
  {
    CoValue.Member(KeyAt(data, m.key), Resolve(m.value, data))
  }
}
