/** The texts that the co JSON parser takes, as concrete syntax trees: what text a tree spells, which trees are
    valid and which value they denote. Beyond RFC 8259 there may be a comma before a closing bracket, control
    bytes in strings, any bytes but the quote in keys, and integers with leading zeros or no digits; but a high
    surrogate needs its low one, and an exponent a fraction. Nothing here refers to the parser. */
module CoGrammar {
  import opened Options
  import opened ByteText
  import opened Decimal
  import opened Utf8
  import opened JsonGrammar
  import opened CoValue
  import opened CoTokens

  predicate Blank(t: Bytes) {
    forall k :: 0 <= k < |t| ==> IsWhite(t[k])
  }

  // Strings and keys

  datatype Char =
    | Plain(b: Byte)
    | Escaped(letter: EscapeLetter)
    | Single(hex: HexQuad)
    | Pair(high: HexQuad, low: HexQuad)

  predicate ValidChar(c: Char) {
    match c
    case Plain(b) => b != NUL && b != QUOTE && b != BACKSLASH
    case Escaped(_) => true
    case Single(hex) => !IsHigh(Hex4(hex))
    case Pair(high, low) => IsHigh(Hex4(high)) && IsLow(Hex4(low))
  }

  function CharSpelling(c: Char): (t: Bytes)
    ensures |t| > 0
  {
    match c
    case Plain(b) => [b]
    case Escaped(e) => [BACKSLASH, e]
    case Single(hex) => [BACKSLASH, LOWER_U] + hex
    case Pair(high, low) => ([BACKSLASH, LOWER_U] + high) + ([BACKSLASH, LOWER_U] + low)
  }

  function CharMeaning(c: Char): Bytes
    requires ValidChar(c)
  {
    match c
    case Plain(b) => [b]
    case Escaped(e) => [EscapeValue(e)]
    case Single(hex) => Encode(Hex4(hex))
    case Pair(high, low) => Encode(Combine(Hex4(high), Hex4(low)))
  }

  predicate ValidChars(cs: seq<Char>) {
    |cs| == 0 || (ValidChar(cs[0]) && ValidChars(cs[1..]))
  }

  function Spelling(cs: seq<Char>): Bytes {
    if |cs| == 0 then [] else CharSpelling(cs[0]) + Spelling(cs[1..])
  }

  function Meaning(cs: seq<Char>): Bytes
    requires ValidChars(cs)
  {
    if |cs| == 0 then [] else CharMeaning(cs[0]) + Meaning(cs[1..])
  }

  /** A key is a C string: it ends at its first NUL. */
  function KeyMeaning(key: Bytes): Bytes {
    key[..NulAt(key, 0)]
  }

  // Words and numbers

  /** What begins a string, an object, an array or a word, or is skipped, begins no number. */
  predicate BeginsOther(b: Byte) {
    || b == QUOTE || b == LEFT_BRACE || b == LEFT_BRACKET || b == LOWER_N || b == LOWER_T || b == LOWER_F || IsWhite(b)
  }

  /** A text with one dot, which is not in front, that `str::to_double` takes. */
  predicate IsFraction(isDouble: Bytes -> bool, w: Bytes) {
    && |w| > 0 && !BeginsOther(w[0]) && isDouble(w)
    && (forall k :: 0 < k < |w| ==> !EndsToken(w[k]))
    && exists m | 0 < m < |w| :: DotAt(w, m)
  }

  predicate DotAt(w: Bytes, m: int) {
    0 < m < |w| && w[m] == DOT && forall k :: 0 < k < |w| && k != m ==> w[k] != DOT
  }

  // Values. The end of an array or object is what stands before the bracket: nothing but white space if it is
  // empty; otherwise nothing at all, or a comma and white space.

  datatype Tree =
    | NullWord
    | TrueWord
    | FalseWord
    | Integer(text: Bytes)
    | Fraction(text: Bytes)
    | QuotedChars(chars: seq<Char>)
    | List(items: seq<Item>, end: Option<Bytes>)
    | Dict(pairs: seq<Binding>, end: Option<Bytes>)

  /** A value with the white space around it. */
  datatype Item = Item(before: Bytes, tree: Tree, after: Bytes)

  /** A key, the white space around it, and the value after the colon. */
  datatype Binding = Binding(before: Bytes, key: Bytes, between: Bytes, item: Item)

  predicate ValidTree(isDouble: Bytes -> bool, t: Tree) {
    match t
    case Integer(w) => |w| > 0 && IsInteger(w)
    case Fraction(w) => IsFraction(isDouble, w)
    case QuotedChars(cs) => ValidChars(cs)
    case List(es, end) => ValidEnd(|es|, end) && ValidItems(isDouble, es)
    case Dict(fs, end) => ValidEnd(|fs|, end) && ValidBindings(isDouble, fs)
    case _ => true
  }

  predicate ValidEnd(n: nat, end: Option<Bytes>) {
    match end
    case None => n > 0
    case Some(gap) => Blank(gap)
  }

  predicate ValidItem(isDouble: Bytes -> bool, e: Item) {
    Blank(e.before) && ValidTree(isDouble, e.tree) && Blank(e.after)
  }

  /** In an array a bracket closes it, and so begins no value. */
  predicate ValidItems(isDouble: Bytes -> bool, es: seq<Item>) {
    |es| == 0 || (ValidItem(isDouble, es[0]) && !Closes(es[0].tree) && ValidItems(isDouble, es[1..]))
  }

  predicate Closes(t: Tree) {
    t.Fraction? && |t.text| > 0 && t.text[0] == RIGHT_BRACKET
  }

  predicate ValidBinding(isDouble: Bytes -> bool, f: Binding) {
    Blank(f.before) && QUOTE !in f.key && Blank(f.between) && ValidItem(isDouble, f.item)
  }

  predicate ValidBindings(isDouble: Bytes -> bool, fs: seq<Binding>) {
    |fs| == 0 || (ValidBinding(isDouble, fs[0]) && ValidBindings(isDouble, fs[1..]))
  }

  function TreeSpelling(t: Tree): Bytes {
    match t
    case NullWord => NULL_WORD
    case TrueWord => TRUE_WORD
    case FalseWord => FALSE_WORD
    case Integer(w) => w
    case Fraction(w) => w
    case QuotedChars(cs) => [QUOTE] + (Spelling(cs) + [QUOTE])
    case List(es, end) => [LEFT_BRACKET] + ItemsSpelling(es, end)
    case Dict(fs, end) => [LEFT_BRACE] + BindingsSpelling(fs, end)
  }

  function ItemSpelling(e: Item): Bytes {
    e.before + (TreeSpelling(e.tree) + e.after)
  }

  /** The items from here on, and the bracket. */
  function ItemsSpelling(es: seq<Item>, end: Option<Bytes>): Bytes {
    if |es| == 0 then (if end.Some? then end.value else []) + [RIGHT_BRACKET]
    else ItemSpelling(es[0]) + if |es| == 1 && end.None? then [RIGHT_BRACKET] else [COMMA] + ItemsSpelling(es[1..], end)
  }

  function BindingSpelling(f: Binding): Bytes {
    f.before + ([QUOTE] + (f.key + ([QUOTE] + (f.between + ([COLON] + ItemSpelling(f.item))))))
  }

  function BindingsSpelling(fs: seq<Binding>, end: Option<Bytes>): Bytes {
    if |fs| == 0 then (if end.Some? then end.value else []) + [RIGHT_BRACE]
    else
      BindingSpelling(fs[0])
        + if |fs| == 1 && end.None? then [RIGHT_BRACE] else [COMMA] + BindingsSpelling(fs[1..], end)
  }

  /** Integers keep 64 bits. */
  function TreeMeaning(isDouble: Bytes -> bool, t: Tree): Value
    requires ValidTree(isDouble, t)
  {
    match t
    case NullWord => Null
    case TrueWord => Bool(true)
    case FalseWord => Bool(false)
    case Integer(w) => Int(Wrap(IntValue(w)))
    case Fraction(w) => Double(w)
    case QuotedChars(cs) => Str(Meaning(cs))
    case List(es, _) => Arr(ItemsMeaning(isDouble, es))
    case Dict(fs, _) => Obj(BindingsMeaning(isDouble, fs))
  }

  function ItemsMeaning(isDouble: Bytes -> bool, es: seq<Item>): seq<Value>
    requires ValidItems(isDouble, es)
  {
    if |es| == 0 then []
    else
      assert ValidItem(isDouble, es[0]);
      [TreeMeaning(isDouble, es[0].tree)] + ItemsMeaning(isDouble, es[1..])
  }

  function BindingsMeaning(isDouble: Bytes -> bool, fs: seq<Binding>): seq<CoValue.Member>
    requires ValidBindings(isDouble, fs)
  {
    if |fs| == 0 then []
    else
      assert ValidBinding(isDouble, fs[0]) && ValidItem(isDouble, fs[0].item);
      [CoValue.Member(KeyMeaning(fs[0].key), TreeMeaning(isDouble, fs[0].item.tree))]
        + BindingsMeaning(isDouble, fs[1..])
  }

  /** A whole text: an array or an object with white space around it. */
  predicate ValidDocument(isDouble: Bytes -> bool, d: Item) {
    ValidItem(isDouble, d) && (d.tree.List? || d.tree.Dict?)
  }

  /** The text is grammatical and denotes v. */
  ghost predicate Denotes(isDouble: Bytes -> bool, text: Bytes, v: Value) {
    exists d: Item :: ValidDocument(isDouble, d) && ItemSpelling(d) == text && TreeMeaning(isDouble, d.tree) == v
  }
}
