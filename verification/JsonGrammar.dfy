/** The texts of RFC 8259 sections 2 to 7 as concrete syntax trees: what text a tree spells, which
    trees are valid, how deep their values sit and which value they denote. Bytes of 0x80 and above
    are allowed in strings. With the COMMENTS strategy white space may also hold comments.
    Nothing here refers to a parser. */
module JsonGrammar {
  import opened ByteText
  import opened Decimal
  import opened JsonValue
  import opened Utf8

  datatype Strategy = STANDARD | COMMENTS

  const MAX_DEPTH: nat := 200

  // White space and comments

  datatype GapItem = White(b: Byte) | Line(body: Bytes) | Block(body: Bytes)
  type Gap = seq<GapItem>

  predicate ValidGapItem(st: Strategy, g: GapItem) {
    match g
    case White(b) => IsWhite(b)
    case Line(body) => st.COMMENTS? && NEWLINE !in body
    case Block(body) => st.COMMENTS? && !HasBlockEnd(body)
  }

  predicate HasBlockEnd(s: Bytes) {
    exists k :: 0 <= k < |s| - 1 && s[k] == STAR && s[k + 1] == SLASH
  }

  predicate ValidGap(st: Strategy, gap: Gap) {
    forall k :: 0 <= k < |gap| ==> ValidGapItem(st, gap[k])
  }

  function GapItemText(g: GapItem): Bytes {
    match g
    case White(b) => [b]
    case Line(body) => [SLASH, SLASH] + body + [NEWLINE]
    case Block(body) => [SLASH, STAR] + body + [STAR, SLASH]
  }

  function GapText(gap: Gap): Bytes {
    if |gap| == 0 then [] else GapItemText(gap[0]) + GapText(gap[1..])
  }

  /** Nothing, or the unterminated line comment that a text with comments may end in. */
  predicate EndsOpen(st: Strategy, tail: Bytes) {
    tail == [] || (st.COMMENTS? && [SLASH, SLASH] <= tail && NEWLINE !in tail)
  }

  // Strings

  type RawByte = b: Byte | b >= SPACE && b != QUOTE && b != BACKSLASH witness SPACE

  type EscapeLetter = e: Byte | IsEscapeLetter(e) witness QUOTE

  type HexQuad = h: Bytes | IsHexQuad(h) witness [ZERO, ZERO, ZERO, ZERO]

  datatype StrItem = Raw(b: RawByte) | Escape(letter: EscapeLetter) | Unicode(hex: HexQuad)

  predicate IsEscapeLetter(e: Byte) {
    || e == QUOTE || e == BACKSLASH || e == SLASH
    || e == LOWER_B || e == LOWER_F || e == LOWER_N || e == LOWER_R || e == LOWER_T
  }

  function EscapeValue(e: EscapeLetter): Byte {
    if e == LOWER_B then BACKSPACE
    else if e == LOWER_F then FORM_FEED
    else if e == LOWER_N then NEWLINE
    else if e == LOWER_R then RETURN
    else if e == LOWER_T then TAB
    else e
  }

  /** The eight escapes of section 7 of RFC 8259, and what they stand for. */
  lemma {:induction false} EscapesAre(e: Byte)
    ensures IsEscapeLetter(e) <==> e in Ascii("\"\\/bfnrt")
    ensures IsEscapeLetter(e) ==>
              EscapeValue(e) == if e == 'b' as int then 8 else if e == 'f' as int then 12
                                else if e == 'n' as int then 10 else if e == 'r' as int then 13
                                else if e == 't' as int then 9 else e
  {
    assert Ascii("\"\\/bfnrt") == [QUOTE, BACKSLASH, SLASH, LOWER_B, LOWER_F, LOWER_N, LOWER_R, LOWER_T];
  }

  function CharText(c: StrItem): Bytes {
    match c
    case Raw(b) => [b]
    case Escape(e) => [BACKSLASH, e]
    case Unicode(hex) => [BACKSLASH, LOWER_U] + hex
  }

  function CharsText(cs: seq<StrItem>): Bytes {
    if |cs| == 0 then [] else CharText(cs[0]) + CharsText(cs[1..])
  }

  // The two-pass meaning of a string: first every escape becomes a unit, then adjacent escaped
  // surrogates are joined from left to right, and what results is encoded as UTF-8.

  type Point = p: int | 0 <= p < 0x110000

  datatype Unit = Literal(b: Byte) | Code(point: Point)

  function UnitOf(c: StrItem): Unit {
    match c
    case Raw(b) => Literal(b)
    case Escape(e) => Literal(EscapeValue(e))
    case Unicode(hex) => Code(Hex4(hex))
  }

  function Units(cs: seq<StrItem>): seq<Unit> {
    if |cs| == 0 then [] else [UnitOf(cs[0])] + Units(cs[1..])
  }

  function JoinPairs(us: seq<Unit>): seq<Unit> {
    if |us| == 0 then []
    else if |us| >= 2 && us[0].Code? && us[1].Code? && IsHigh(us[0].point) && IsLow(us[1].point) then
      [Code(Combine(us[0].point, us[1].point))] + JoinPairs(us[2..])
    else [us[0]] + JoinPairs(us[1..])
  }

  function Encoded(us: seq<Unit>): Bytes {
    if |us| == 0 then []
    else (match us[0] case Literal(b) => [b] case Code(p) => Encode(p)) + Encoded(us[1..])
  }

  function StringValue(cs: seq<StrItem>): Bytes {
    Encoded(JoinPairs(Units(cs)))
  }

  // Numbers. An absent fraction or exponent has no digits.

  datatype NumberSyntax =
    NumberSyntax(negative: bool, whole: Bytes, fraction: Bytes, mark: Byte, sign: Bytes, exponent: Bytes)

  predicate ValidNumber(n: NumberSyntax) {
    && Digits(n.whole) && |n.whole| > 0 && (n.whole[0] == ZERO ==> |n.whole| == 1)
    && Digits(n.fraction)
    && Digits(n.exponent)
    && (n.mark == LOWER_E || n.mark == UPPER_E)
    && (n.sign == [] || n.sign == [PLUS] || n.sign == [MINUS])
  }

  function IntegerText(n: NumberSyntax): Bytes {
    (if n.negative then [MINUS] else []) + n.whole
  }

  function FractionText(n: NumberSyntax): Bytes {
    if |n.fraction| == 0 then [] else [DOT] + n.fraction
  }

  function ExponentText(n: NumberSyntax): Bytes {
    if |n.exponent| == 0 then [] else [n.mark] + n.sign + n.exponent
  }

  function NumberText(n: NumberSyntax): Bytes {
    IntegerText(n) + (FractionText(n) + ExponentText(n))
  }

  /** Integers a double holds exactly. */
  const EXACT: int := 0x20_0000_0000_0000

  function NumberValue(n: NumberSyntax): Num {
    var v := IntValue(IntegerText(n));
    if |n.fraction| == 0 && |n.exponent| == 0 && -EXACT <= v <= EXACT then Whole(v)
    else Decimal(NumberText(n))
  }

  /** A number without a fraction or an exponent is kept exactly up to 2^53 on either side, any other by its text. */
  lemma {:induction false} KeptExactly(n: NumberSyntax)
    ensures var v := IntValue(IntegerText(n));
            NumberValue(n) == if n.fraction == [] && n.exponent == [] && -9007199254740992 <= v <= 9007199254740992
                              then Whole(v) else Decimal(NumberText(n))
  {
  }

  // Values

  datatype Tree =
    | NullTree
    | TrueTree
    | FalseTree
    | NumberTree(number: NumberSyntax)
    | StringTree(chars: seq<StrItem>)
    | EmptyArray(inside: Gap)
    | ArrayTree(elements: seq<Element>)
    | EmptyObject(inside: Gap)
    | ObjectTree(fields: seq<Field>)

  /** A value with the white space around it. */
  datatype Element = Element(before: Gap, tree: Tree, after: Gap)

  /** A name, the white space around it, and the value that follows the colon. */
  datatype Field = Field(before: Gap, name: seq<StrItem>, after: Gap, element: Element)

  predicate ValidTree(st: Strategy, t: Tree) {
    match t
    case NumberTree(n) => ValidNumber(n)
    case EmptyArray(gap) => ValidGap(st, gap)
    case EmptyObject(gap) => ValidGap(st, gap)
    case ArrayTree(es) => |es| > 0 && ValidElements(st, es)
    case ObjectTree(fs) => |fs| > 0 && ValidFields(st, fs)
    case _ => true
  }

  predicate ValidElement(st: Strategy, e: Element) {
    ValidGap(st, e.before) && ValidTree(st, e.tree) && ValidGap(st, e.after)
  }

  predicate ValidElements(st: Strategy, es: seq<Element>) {
    |es| == 0 || (ValidElement(st, es[0]) && ValidElements(st, es[1..]))
  }

  predicate ValidField(st: Strategy, f: Field) {
    ValidGap(st, f.before) && ValidGap(st, f.after) && ValidElement(st, f.element)
  }

  predicate ValidFields(st: Strategy, fs: seq<Field>) {
    |fs| == 0 || (ValidField(st, fs[0]) && ValidFields(st, fs[1..]))
  }

  function StringText(cs: seq<StrItem>): Bytes {
    [QUOTE] + (CharsText(cs) + [QUOTE])
  }

  function TreeText(t: Tree): Bytes {
    match t
    case NullTree => NULL_WORD
    case TrueTree => TRUE_WORD
    case FalseTree => FALSE_WORD
    case NumberTree(n) => NumberText(n)
    case StringTree(cs) => StringText(cs)
    case EmptyArray(gap) => [LEFT_BRACKET] + (GapText(gap) + [RIGHT_BRACKET])
    case EmptyObject(gap) => [LEFT_BRACE] + (GapText(gap) + [RIGHT_BRACE])
    case ArrayTree(es) => [LEFT_BRACKET] + (ElementsText(es) + [RIGHT_BRACKET])
    case ObjectTree(fs) => [LEFT_BRACE] + (FieldsText(fs) + [RIGHT_BRACE])
  }

  function ElementText(e: Element): Bytes {
    GapText(e.before) + (TreeText(e.tree) + GapText(e.after))
  }

  function ElementsText(es: seq<Element>): Bytes {
    if |es| == 0 then []
    else ElementText(es[0]) + (if |es| == 1 then [] else [COMMA] + ElementsText(es[1..]))
  }

  function FieldText(f: Field): Bytes {
    GapText(f.before) + (StringText(f.name) + (GapText(f.after) + ([COLON] + ElementText(f.element))))
  }

  function FieldsText(fs: seq<Field>): Bytes {
    if |fs| == 0 then []
    else FieldText(fs[0]) + (if |fs| == 1 then [] else [COMMA] + FieldsText(fs[1..]))
  }

  /** Every value of the tree sits under at most MAX_DEPTH containers when its root sits under `depth`. */
  predicate Fits(t: Tree, depth: nat) {
    && depth <= MAX_DEPTH
    && match t
       case ArrayTree(es) => ElementsFit(es, depth + 1)
       case ObjectTree(fs) => FieldsFit(fs, depth + 1)
       case _ => true
  }

  predicate ElementsFit(es: seq<Element>, depth: nat) {
    |es| == 0 || (Fits(es[0].tree, depth) && ElementsFit(es[1..], depth))
  }

  predicate FieldsFit(fs: seq<Field>, depth: nat) {
    |fs| == 0 || (Fits(fs[0].element.tree, depth) && FieldsFit(fs[1..], depth))
  }

  function TreeValue(t: Tree): Json {
    match t
    case NullTree => Null
    case TrueTree => Bool(true)
    case FalseTree => Bool(false)
    case NumberTree(n) => Number(NumberValue(n))
    case StringTree(cs) => String(StringValue(cs))
    case EmptyArray(_) => Array([])
    case EmptyObject(_) => Object([])
    case ArrayTree(es) => Array(ElementValues(es))
    case ObjectTree(fs) => Object(Collect(FieldValues(fs)))
  }

  function ElementValues(es: seq<Element>): seq<Json> {
    if |es| == 0 then [] else [TreeValue(es[0].tree)] + ElementValues(es[1..])
  }

  function FieldValues(fs: seq<Field>): seq<Member> {
    if |fs| == 0 then []
    else [Member(StringValue(fs[0].name), TreeValue(fs[0].element.tree))] + FieldValues(fs[1..])
  }

  /** A whole text: one value with white space around it. With comments, the text may end inside
      a line comment. */
  datatype Document = Document(root: Element, tail: Bytes)

  predicate ValidDocument(st: Strategy, d: Document) {
    && ValidElement(st, d.root)
    && EndsOpen(st, d.tail)
  }

  function DocumentText(d: Document): Bytes {
    ElementText(d.root) + d.tail
  }

  /** The text is grammatical and denotes v. */
  ghost predicate Denotes(st: Strategy, text: Bytes, v: Json) {
    exists d: Document ::
      && ValidDocument(st, d)
      && DocumentText(d) == text
      && Fits(d.root.tree, 0)
      && TreeValue(d.root.tree) == v
  }
}
