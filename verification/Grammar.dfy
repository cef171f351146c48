/**
 JSON texts as syntax trees that keep every byte, and the value each of them
 denotes. `Valid` trees are those of sections 2 to 7 of RFC 8259, where comments
 may be let in as white space. `Accepted` trees are all that cJSON takes.

 The text of a production is given in front of the text that follows it.
 */
module Grammar {
  import opened CText
  import opened Decimal
  import opened Unicode
  import opened JsonValue
  import opened Parser

  datatype Space =
    | White(c: byte)
    | LineComment(body: seq<byte>)
    | BlockComment(body: seq<byte>)

  datatype Char =
    | Raw(c: byte)
    | Short(c: byte)
    | Unit(hex: seq<byte>)

  datatype Sign = NoSign | PlusSign | MinusSign

  datatype Fraction = NoFraction | Fraction(digits: seq<byte>)

  datatype Exponent = NoExponent | Exponent(mark: byte, sign: Sign, digits: seq<byte>)

  datatype Numeral = Numeral(negative: bool, whole: seq<byte>, fraction: Fraction, exponent: Exponent)

  /** An open string has no closing quote: the text ends in it. */
  datatype Tree =
    | NullTree
    | FalseTree
    | TrueTree
    | NumberTree(numeral: Numeral)
    | StringTree(chars: seq<Char>)
    | OpenString(chars: seq<Char>)
    | EmptyArray(pad: seq<Space>)
    | ArrayTree(items: seq<Item>)
    | EmptyObject(pad: seq<Space>)
    | ObjectTree(fields: seq<Field>)

  datatype Item = Item(before: seq<Space>, value: Tree, after: seq<Space>)

  datatype Field = Field(before: seq<Space>, name: seq<Char>, beforeColon: seq<Space>,
                         afterColon: seq<Space>, value: Tree, after: seq<Space>)

  /** JSON-text = ws value ws */
  datatype Document = Document(before: seq<Space>, value: Tree, after: seq<Space>)

  // Well-formedness ----------------------------------------------------------

  predicate IsWhite(c: byte) { c in {SPACE, TAB, NEWLINE, RETURN} }

  /**
   A line comment runs to its line end. The scan for the end of a block comment
   starts on its opening star, so the body must not begin with a slash.
   */
  predicate ValidSpace(x: Space) {
    match x
    case White(c) => IsWhite(c)
    case LineComment(b) => NulFree(b) && NEWLINE !in b
    case BlockComment(b) => NulFree(b) && !Closes([STAR] + b)
  }

  /** `*` followed by `/` somewhere in the text. */
  predicate Closes(s: seq<byte>) {
    exists i :: 0 <= i && i + 1 < |s| && s[i] == STAR && s[i + 1] == SLASH
  }

  predicate ValidSpaces(ws: seq<Space>) {
    forall i :: 0 <= i < |ws| ==> ValidSpace(ws[i])
  }

  /** White space as the RFC has it. */
  predicate PlainSpaces(ws: seq<Space>) {
    forall i :: 0 <= i < |ws| ==> ws[i].White? && IsWhite(ws[i].c)
  }

  predicate ValidChar(x: Char) {
    match x
    case Raw(c) => c >= SPACE && c != QUOTE && c != BACKSLASH
    case Short(c) => c in {QUOTE, BACKSLASH, SLASH, 98, 102, 110, 114, 116}
    case Unit(h) => |h| == 4 && HasHex4(h)
  }

  predicate ValidChars(chars: seq<Char>) {
    forall i :: 0 <= i < |chars| ==> ValidChar(chars[i])
  }

  predicate ValidNumeral(n: Numeral) {
    && AllDigits(n.whole) && n.whole != [] && (n.whole[0] == ZERO ==> |n.whole| == 1)
    && (n.fraction.Fraction? ==> AllDigits(n.fraction.digits) && n.fraction.digits != [])
    && (n.exponent.Exponent? ==>
          AllDigits(n.exponent.digits) && n.exponent.digits != [] && n.exponent.mark in {69, 101})
  }

  /** `Valid(t, false)` is the grammar of the RFC; `Valid(t, true)` adds comments. */
  predicate Valid(t: Tree, comments: bool)
    decreases t, 0
  {
    match t
    case NumberTree(n) => ValidNumeral(n)
    case StringTree(chars) => ValidChars(chars)
    case OpenString(_) => false
    case EmptyArray(pad) => Gap(pad, comments)
    case ArrayTree(items) => items != [] && ValidItems(items, comments)
    case EmptyObject(pad) => Gap(pad, comments)
    case ObjectTree(fields) => fields != [] && ValidFields(fields, comments)
    case _ => true
  }

  predicate ValidItem(x: Item, comments: bool)
    decreases x, 1
  {
    Gap(x.before, comments) && Valid(x.value, comments) && Gap(x.after, comments)
  }

  predicate ValidItems(items: seq<Item>, comments: bool)
    decreases items, 2
  {
    items == [] || (ValidItem(items[0], comments) && ValidItems(items[1..], comments))
  }

  predicate ValidField(x: Field, comments: bool)
    decreases x, 1
  {
    && Gap(x.before, comments) && ValidChars(x.name) && Gap(x.beforeColon, comments)
    && Gap(x.afterColon, comments) && Valid(x.value, comments) && Gap(x.after, comments)
  }

  predicate ValidFields(fields: seq<Field>, comments: bool)
    decreases fields, 2
  {
    fields == [] || (ValidField(fields[0], comments) && ValidFields(fields[1..], comments))
  }

  predicate Gap(ws: seq<Space>, comments: bool) {
    if comments then ValidSpaces(ws) else PlainSpaces(ws)
  }

  predicate ValidDocument(d: Document, comments: bool) {
    Gap(d.before, comments) && Valid(d.value, comments) && Gap(d.after, comments)
  }

  // What cJSON takes ---------------------------------------------------------

  /** Every control byte passes as white space. */
  predicate Blanks(ws: seq<Space>) {
    forall i :: 0 <= i < |ws| ==> ws[i].White? && 0 < ws[i].c <= 32
  }

  /** Control bytes may stand in a string, and any letter behind a backslash. */
  predicate AcceptedChar(x: Char) {
    match x
    case Raw(c) => c != NUL && c != QUOTE && c != BACKSLASH
    case Short(c) => c != NUL && c != U
    case Unit(h) => |h| == 4 && HasHex4(h)
  }

  predicate AcceptedChars(chars: seq<Char>) {
    forall i :: 0 <= i < |chars| ==> AcceptedChar(chars[i])
  }

  /**
   One zero may lead, digits may be missing behind a sign and in an exponent;
   a fraction needs a digit.
   */
  predicate AcceptedNumeral(n: Numeral) {
    && AllDigits(n.whole) && (n.whole == [] ==> n.negative)
    && (|n.whole| >= 2 && n.whole[0] == ZERO ==> n.whole[1] != ZERO)
    && (n.fraction.Fraction? ==> AllDigits(n.fraction.digits) && n.fraction.digits != [])
    && (n.exponent.Exponent? ==> AllDigits(n.exponent.digits) && n.exponent.mark in {69, 101})
  }

  predicate Accepted(t: Tree)
    decreases t, 0
  {
    match t
    case NumberTree(n) => AcceptedNumeral(n)
    case StringTree(chars) => AcceptedChars(chars)
    case OpenString(_) => false
    case EmptyArray(pad) => Blanks(pad)
    case ArrayTree(items) => items != [] && AcceptedItems(items)
    case EmptyObject(pad) => Blanks(pad)
    case ObjectTree(fields) => fields != [] && AcceptedFields(fields)
    case _ => true
  }

  predicate AcceptedItem(x: Item)
    decreases x, 1
  {
    Blanks(x.before) && Accepted(x.value) && Blanks(x.after)
  }

  predicate AcceptedItems(items: seq<Item>)
    decreases items, 2
  {
    items == [] || (AcceptedItem(items[0]) && AcceptedItems(items[1..]))
  }

  predicate AcceptedField(x: Field)
    decreases x, 1
  {
    && Blanks(x.before) && AcceptedChars(x.name) && Blanks(x.beforeColon)
    && Blanks(x.afterColon) && Accepted(x.value) && Blanks(x.after)
  }

  predicate AcceptedFields(fields: seq<Field>)
    decreases fields, 2
  {
    fields == [] || (AcceptedField(fields[0]) && AcceptedFields(fields[1..]))
  }

  /** The outermost value alone may be an open string. */
  predicate AcceptedWhole(t: Tree) {
    if t.OpenString? then AcceptedChars(t.chars) else Accepted(t)
  }

  /** Nothing stands behind an open string. */
  predicate AcceptedDocument(d: Document) {
    Blanks(d.before) && AcceptedWhole(d.value) && Blanks(d.after) && (d.value.OpenString? ==> d.after == [])
  }

  // Texts --------------------------------------------------------------------

  function SpaceOnto(x: Space, rest: seq<byte>): seq<byte> {
    match x
    case White(c) => [c] + rest
    case LineComment(b) => [SLASH, SLASH] + (b + ([NEWLINE] + rest))
    case BlockComment(b) => [SLASH, STAR] + (b + ([STAR, SLASH] + rest))
  }

  function SpacesOnto(ws: seq<Space>, rest: seq<byte>): seq<byte> {
    if ws == [] then rest else SpaceOnto(ws[0], SpacesOnto(ws[1..], rest))
  }

  function CharOnto(x: Char, rest: seq<byte>): seq<byte> {
    match x
    case Raw(c) => [c] + rest
    case Short(c) => [BACKSLASH, c] + rest
    case Unit(h) => [BACKSLASH, U] + (h + rest)
  }

  function CharsOnto(chars: seq<Char>, rest: seq<byte>): seq<byte> {
    if chars == [] then rest else CharOnto(chars[0], CharsOnto(chars[1..], rest))
  }

  function StringOnto(chars: seq<Char>, rest: seq<byte>): seq<byte> {
    [QUOTE] + CharsOnto(chars, [QUOTE] + rest)
  }

  function SignText(sign: Sign): seq<byte> {
    match sign
    case NoSign => []
    case PlusSign => [PLUS]
    case MinusSign => [MINUS]
  }

  function ExponentOnto(e: Exponent, rest: seq<byte>): seq<byte> {
    if e.NoExponent? then rest else [e.mark] + (SignText(e.sign) + (e.digits + rest))
  }

  function FractionOnto(f: Fraction, rest: seq<byte>): seq<byte> {
    if f.NoFraction? then rest else [DOT] + (f.digits + rest)
  }

  function NumeralOnto(n: Numeral, rest: seq<byte>): seq<byte> {
    (if n.negative then [MINUS] else []) + (n.whole + FractionOnto(n.fraction, ExponentOnto(n.exponent, rest)))
  }

  function TreeOnto(t: Tree, rest: seq<byte>): seq<byte>
    decreases t, 0
  {
    match t
    case NullTree => NULL_TEXT + rest
    case FalseTree => FALSE_TEXT + rest
    case TrueTree => TRUE_TEXT + rest
    case NumberTree(n) => NumeralOnto(n, rest)
    case StringTree(chars) => StringOnto(chars, rest)
    case OpenString(chars) => [QUOTE] + CharsOnto(chars, rest)
    case EmptyArray(pad) => [LBRACKET] + SpacesOnto(pad, [RBRACKET] + rest)
    case ArrayTree(items) => [LBRACKET] + ItemsOnto(items, rest)
    case EmptyObject(pad) => [LBRACE] + SpacesOnto(pad, [RBRACE] + rest)
    case ObjectTree(fields) => [LBRACE] + FieldsOnto(fields, rest)
  }

  function ItemOnto(x: Item, rest: seq<byte>): seq<byte>
    decreases x, 1
  {
    SpacesOnto(x.before, TreeOnto(x.value, SpacesOnto(x.after, rest)))
  }

  /** The items, their separators and the closing bracket. */
  function ItemsOnto(items: seq<Item>, rest: seq<byte>): seq<byte>
    decreases items, 2
  {
    if items == [] then [RBRACKET] + rest
    else if |items| == 1 then ItemOnto(items[0], [RBRACKET] + rest)
    else ItemOnto(items[0], [COMMA] + ItemsOnto(items[1..], rest))
  }

  function FieldOnto(x: Field, rest: seq<byte>): seq<byte>
    decreases x, 1
  {
    SpacesOnto(x.before, StringOnto(x.name, SpacesOnto(x.beforeColon,
      [COLON] + SpacesOnto(x.afterColon, TreeOnto(x.value, SpacesOnto(x.after, rest))))))
  }

  function FieldsOnto(fields: seq<Field>, rest: seq<byte>): seq<byte>
    decreases fields, 2
  {
    if fields == [] then [RBRACE] + rest
    else if |fields| == 1 then FieldOnto(fields[0], [RBRACE] + rest)
    else FieldOnto(fields[0], [COMMA] + FieldsOnto(fields[1..], rest))
  }

  function DocumentOnto(d: Document, rest: seq<byte>): seq<byte> {
    SpacesOnto(d.before, TreeOnto(d.value, SpacesOnto(d.after, rest)))
  }

  function DocumentText(d: Document): seq<byte> {
    DocumentOnto(d, [])
  }

  // Values -------------------------------------------------------------------

  function FractionDigits(f: Fraction): seq<byte> {
    if f.NoFraction? then [] else f.digits
  }

  /** `m` times ten to the exponent. */
  function WithExponent(m: real, e: Exponent): real {
    if e.NoExponent? then m
    else if e.sign.MinusSign? then m / Power10(DigitsValue(e.digits)) as real
    else m * Power10(DigitsValue(e.digits)) as real
  }

  /** Every digit by its place, and the power of ten of the exponent. */
  function NumeralValue(n: Numeral): real {
    var m := DigitsValue(n.whole) as real + FractionValue(FractionDigits(n.fraction));
    WithExponent(if n.negative then -m else m, n.exponent)
  }

  function ShortValue(c: byte): byte {
    if c == 98 then 8 else if c == 102 then 12 else if c == 110 then 10
    else if c == 114 then 13 else if c == 116 then 9 else c
  }

  /** A UTF-16 code unit; digits that are none count for nothing. */
  function CodeUnit(h: seq<byte>): (u: nat)
    ensures u < 0x10000
  {
    if HasHex4(h) then 4096 * HexVal(h[0]) + 256 * HexVal(h[1]) + 16 * HexVal(h[2]) + HexVal(h[3]) else 0
  }

  /**
   The bytes of a string: paired surrogates and every other unit become one
   UTF-8 character. U+0000, a lone surrogate, and a high surrogate together
   with an escape that is not its low half contribute nothing.
   */
  function StringValue(chars: seq<Char>): seq<byte> {
    if chars == [] then []
    else match chars[0]
      case Raw(c) => [c] + StringValue(chars[1..])
      case Short(c) => [ShortValue(c)] + StringValue(chars[1..])
      case Unit(h) =>
        var u := CodeUnit(h);
        if u == 0 || IsLowSurrogate(u) then StringValue(chars[1..])
        else if !IsHighSurrogate(u) then WriteUtf8(u) + StringValue(chars[1..])
        else if |chars| == 1 || !chars[1].Unit? then StringValue(chars[1..])
        else
          var l := CodeUnit(chars[1].hex);
          (if IsLowSurrogate(l) then WriteUtf8(PairValue(u, l)) else []) + StringValue(chars[2..])
  }

  /** Section 2.2 of RFC 2781. */
  function PairValue(h: nat, l: nat): (cp: nat)
    requires IsHighSurrogate(h) && IsLowSurrogate(l)
    ensures 0x10000 <= cp < 0x110000
  {
    (h - 0xD800) * 0x400 + (l - 0xDC00) + 0x10000
  }

  function Value(t: Tree): Json
    decreases t, 0
  {
    match t
    case NullTree => Null
    case FalseTree => False
    case TrueTree => True
    case NumberTree(n) => Number(NumeralValue(n))
    case StringTree(chars) => String(StringValue(chars))
    case OpenString(chars) => String(StringValue(chars))
    case EmptyArray(_) => Array([])
    case ArrayTree(items) => Array(ItemsValue(items))
    case EmptyObject(_) => Object([])
    case ObjectTree(fields) => Object(FieldsValue(fields))
  }

  function ItemsValue(items: seq<Item>): seq<Json>
    decreases items, 1
  {
    if items == [] then [] else [Value(items[0].value)] + ItemsValue(items[1..])
  }

  function FieldsValue(fields: seq<Field>): seq<Member>
    decreases fields, 1
  {
    if fields == [] then []
    else [Member(StringValue(fields[0].name), Value(fields[0].value))] + FieldsValue(fields[1..])
  }

  // The grammar of the RFC is a part of what is taken --------------------------

  lemma CharsAreAccepted(chars: seq<Char>)
    requires ValidChars(chars)
    ensures AcceptedChars(chars)
  {
    forall i | 0 <= i < |chars| ensures AcceptedChar(chars[i]) { assert ValidChar(chars[i]); }
  }

  lemma {:induction false} ValidIsAccepted(t: Tree)
    requires Valid(t, false)
    ensures Accepted(t)
    decreases t, 0
  {
    match t
    case StringTree(chars) => CharsAreAccepted(chars);
    case ArrayTree(items) => ItemsAreAccepted(items);
    case ObjectTree(fields) => FieldsAreAccepted(fields);
    case _ =>
  }

  lemma {:induction false} ItemsAreAccepted(items: seq<Item>)
    requires ValidItems(items, false)
    ensures AcceptedItems(items)
    decreases items, 1
  {
    if items != [] {
      assert ValidItem(items[0], false);
      ValidIsAccepted(items[0].value);
      ItemsAreAccepted(items[1..]);
    }
  }

  lemma {:induction false} FieldsAreAccepted(fields: seq<Field>)
    requires ValidFields(fields, false)
    ensures AcceptedFields(fields)
    decreases fields, 1
  {
    if fields != [] {
      assert ValidField(fields[0], false);
      CharsAreAccepted(fields[0].name);
      ValidIsAccepted(fields[0].value);
      FieldsAreAccepted(fields[1..]);
    }
  }
}
