/**
 The grammar of RFC 8259, as trees that spell out every character of a text: the blanks
 around each token, the escapes of each string, and the digits of each number.  Like the
 parser, the grammar here is wider than the standard in three places: any character up to
 the space is a blank, strings may hold control characters, and numbers may start with zeros.
 */
module JsonGrammar {
  import opened JsonText
  import opened Utf8

  // ---------------------------------------------------------------- strings

  /** A part of a string literal: a character, a two-character escape, or `\u` escapes. */
  datatype Piece =
    | Plain(c: char)
    | Short(letter: char, c: char)
    | Code(cp: nat, spelling: string, bytes: string)

  /** The two-character escapes of section 7 of RFC 8259. */
  const SHORT_ESCAPES: map<char, int> :=
    map['\"' := 0x22, '\\' := 0x5C, '/' := 0x2F, 'b' := 8, 'f' := 12, 'n' := 10, 'r' := 13, 't' := 9]

  predicate IsPiece(x: Piece) {
    match x
    case Plain(c) => c !in {'\"', '\\', NUL}
    case Short(letter, c) => letter in SHORT_ESCAPES && SHORT_ESCAPES[letter] == c as int
    case Code(cp, spelling, bytes) => SpellsCode(spelling, cp) && IsShortestUtf8(bytes, cp)
  }

  /** One `\uXXXX`, or the two of a surrogate pair. */
  predicate SpellsCode(t: string, cp: nat) {
    if cp <= 0xFFFF then !(0xD800 <= cp <= 0xDFFF) && |t| == 6 && SpellsUnit(t, 0, cp)
    else cp <= 0x10FFFF && |t| == 12 && SpellsUnit(t, 0, HighSurrogate(cp)) && SpellsUnit(t, 6, LowSurrogate(cp))
  }

  predicate IsShortestUtf8(bytes: string, cp: nat) {
    && IsUtf8Form(bytes, cp)
    && |bytes| == if cp <= 0x7F then 1 else if cp <= 0x7FF then 2 else if cp <= 0xFFFF then 3 else 4
  }

  function PieceText(x: Piece): string {
    match x
    case Plain(c) => [c]
    case Short(letter, _) => ['\\', letter]
    case Code(_, spelling, _) => spelling
  }

  function PieceBytes(x: Piece): string {
    match x
    case Plain(c) => [c]
    case Short(_, c) => [c]
    case Code(_, _, bytes) => bytes
  }

  predicate ArePieces(xs: seq<Piece>) {
    forall i :: 0 <= i < |xs| ==> IsPiece(xs[i])
  }

  /** The characters between the quotes. */
  function Inner(xs: seq<Piece>): string {
    if xs == [] then "" else PieceText(xs[0]) + Inner(xs[1..])
  }

  /** The bytes that they stand for. */
  function Meaning(xs: seq<Piece>): string {
    if xs == [] then "" else PieceBytes(xs[0]) + Meaning(xs[1..])
  }

  function Literal(xs: seq<Piece>): string {
    "\"" + Inner(xs) + "\""
  }

  // ---------------------------------------------------------------- numbers

  datatype Sign = NoSign | Plus | Minus

  datatype Exponent = NoExponent | Exponent(mark: char, sign: Sign, digits: string)

  /** A number; no fraction part if `fraction` is empty. */
  datatype Numeral = Numeral(minus: bool, whole: string, fraction: string, exponent: Exponent)

  predicate AreDigits(t: string) {
    forall i :: 0 <= i < |t| ==> 48 <= t[i] as int <= 57
  }

  predicate IsNumeral(n: Numeral) {
    && AreDigits(n.whole) && n.whole != "" && AreDigits(n.fraction)
    && (n.exponent.Exponent? ==>
          && n.exponent.mark in {'e', 'E'} && AreDigits(n.exponent.digits) && n.exponent.digits != "")
  }

  function SignText(x: Sign): string {
    match x case NoSign => "" case Plus => "+" case Minus => "-"
  }

  function ExponentText(x: Exponent): string {
    match x
    case NoExponent => ""
    case Exponent(mark, sign, digits) => [mark] + SignText(sign) + digits
  }

  function NumeralText(n: Numeral): string {
    (if n.minus then "-" else "") + n.whole + (if n.fraction == "" then "" else "." + n.fraction) + ExponentText(n.exponent)
  }

  /** The digits as one number, each weighted by its position. */
  function Weighted(t: string): int
    requires AreDigits(t)
  {
    if t == "" then 0 else (t[0] as int - 48) * TenTo(|t| - 1) + Weighted(t[1..])
  }

  function TenTo(n: nat): (r: nat)
    ensures r > 0
  {
    if n == 0 then 1 else 10 * TenTo(n - 1)
  }

  function ExponentValue(x: Exponent): int
    requires x.Exponent? ==> AreDigits(x.digits)
  {
    if x.NoExponent? then 0 else if x.sign == Minus then -Weighted(x.digits) else Weighted(x.digits)
  }

  /** `n` shifted by `e` powers of ten. */
  function Shifted(n: real, e: int): real {
    if e >= 0 then n * TenTo(e) as real else n / TenTo(-e) as real
  }

  /** All digits as one integer, and that many powers of ten as exponent and point ask for. */
  function NumeralValue(n: Numeral): real
    requires IsNumeral(n)
  {
    var digits := Weighted(n.whole + n.fraction) as real;
    var magnitude := Shifted(digits, ExponentValue(n.exponent) - |n.fraction|);
    if n.minus then -magnitude else magnitude
  }

  // ----------------------------------------------------------------- values

  datatype Doc =
    | DNull
    | DBool(b: bool)
    | DNumber(n: Numeral)
    | DString(xs: seq<Piece>)
    | DArray(blank: string, items: seq<Item>)
    | DObject(blank: string, fields: seq<Field>)

  /** An element with the blanks around it. */
  datatype Item = Item(before: string, doc: Doc, after: string)

  datatype Field = Field(before: string, key: seq<Piece>, beforeColon: string, afterColon: string, doc: Doc, after: string)

  predicate AreBlanks(t: string) {
    forall i :: 0 <= i < |t| ==> 0 < t[i] as int <= 32
  }

  predicate IsDoc(d: Doc) {
    match d
    case DNull => true
    case DBool(_) => true
    case DNumber(n) => IsNumeral(n)
    case DString(xs) => ArePieces(xs)
    case DArray(blank, items) =>
      AreBlanks(blank) && forall i :: 0 <= i < |items| ==> SpacedItem(items[i]) && IsDoc(items[i].doc)
    case DObject(blank, fields) =>
      AreBlanks(blank) && forall i :: 0 <= i < |fields| ==> SpacedField(fields[i]) && IsDoc(fields[i].doc)
  }

  predicate SpacedItem(x: Item) {
    AreBlanks(x.before) && AreBlanks(x.after)
  }

  predicate SpacedField(x: Field) {
    && AreBlanks(x.before) && ArePieces(x.key) && AreBlanks(x.beforeColon)
    && AreBlanks(x.afterColon) && AreBlanks(x.after)
  }

  /** The text of a document. */
  function Written(d: Doc): string
    decreases d, 0
  {
    match d
    case DNull => "null"
    case DBool(b) => if b then "true" else "false"
    case DNumber(n) => NumeralText(n)
    case DString(xs) => Literal(xs)
    case DArray(blank, items) => "[" + blank + (if items == [] then "]" else ItemText(items[0]) + MoreItems(items[1..]))
    case DObject(blank, fields) => "{" + blank + (if fields == [] then "}" else FieldText(fields[0]) + MoreFields(fields[1..]))
  }

  function ItemText(x: Item): string
    decreases x, 1
  {
    x.before + Written(x.doc) + x.after
  }

  /** The elements behind the first one, and the closing bracket. */
  function MoreItems(items: seq<Item>): string
    decreases items, 2
  {
    if items == [] then "]" else "," + ItemText(items[0]) + MoreItems(items[1..])
  }

  function FieldText(x: Field): string
    decreases x, 1
  {
    x.before + Literal(x.key) + x.beforeColon + ":" + x.afterColon + Written(x.doc) + x.after
  }

  function MoreFields(fields: seq<Field>): string
    decreases fields, 2
  {
    if fields == [] then "}" else "," + FieldText(fields[0]) + MoreFields(fields[1..])
  }

  /** The tree that a document stands for; strings end at their first zero byte. */
  ghost predicate Denotes(d: Doc, j: Json)
    requires IsDoc(d)
    decreases d
  {
    match d
    case DNull => j == Null
    case DBool(b) => j == Bool(b)
    case DNumber(n) => j == Number(NumeralValue(n))
    case DString(xs) => j.String? && IsCString(j.s, Meaning(xs))
    case DArray(_, items) =>
      j.Array? && |j.items| == |items| && forall i :: 0 <= i < |items| ==> Denotes(items[i].doc, j.items[i])
    case DObject(_, fields) =>
      && j.Object? && |j.members| == |fields|
      && forall i :: 0 <= i < |fields| ==> FieldDenotes(fields[i], j.members[i])
  }

  ghost predicate FieldDenotes(x: Field, m: Member)
    requires IsDoc(x.doc)
    decreases x
  {
    IsCString(m.key, Meaning(x.key)) && Denotes(x.doc, m.value)
  }

  /** No more than `limit` brackets open, and no number of more than 63 characters. */
  predicate Readable(d: Doc, limit: nat)
    decreases d
  {
    match d
    case DNumber(n) => |NumeralText(n)| <= 63
    case DArray(_, items) => limit > 0 && forall i :: 0 <= i < |items| ==> Readable(items[i].doc, limit - 1)
    case DObject(_, fields) => limit > 0 && forall i :: 0 <= i < |fields| ==> Readable(fields[i].doc, limit - 1)
    case _ => true
  }
}
