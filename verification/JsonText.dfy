/**
 The JSON values that cJSON keeps in its item trees, and the text that the
 printer promises for each of them.  A C byte is modelled as a `char`; a C
 string is a `string` without the character NUL.
 */
module JsonText {

  /** A tree of items.  Objects keep their members in list order, keys may repeat. */
  datatype Json =
    | Null
    | Bool(b: bool)
    | Number(value: real)
    | String(s: string)
    | Array(items: seq<Json>)
    | Object(members: seq<Member>)

  datatype Member = Member(key: string, value: Json)

  const NUL := '\0'
  const NESTING_LIMIT: nat := 1000  // unless the build sets another
  const INT_MAX: int := 0x7FFF_FFFF
  const INT_MIN: int := -0x8000_0000

  predicate NulFree(s: string) {
    forall i :: 0 <= i < |s| ==> s[i] != NUL
  }

  /** What stands in front of the first zero byte. */
  predicate IsCString(r: string, bytes: string) {
    NulFree(r) && (r == bytes || (|r| < |bytes| && bytes[..|r|] == r && bytes[|r|] == NUL))
  }

  /** The values printed with "%d": doubles equal to their saturated `valueint`. */
  predicate IsInt(r: real) {
    r == r.Floor as real && INT_MIN <= r.Floor <= INT_MAX
  }

  /** Trees the text format covers: C strings and integers that fit an int. */
  predicate Printable(j: Json) {
    match j
    case Null => true
    case Bool(_) => true
    case Number(r) => IsInt(r)
    case String(s) => NulFree(s)
    case Array(items) => forall i :: 0 <= i < |items| ==> Printable(items[i])
    case Object(ms) => forall i :: 0 <= i < |ms| ==> NulFree(ms[i].key) && Printable(ms[i].value)
  }

  /** All strings and keys are C strings. */
  predicate CStrings(j: Json) {
    match j
    case String(s) => NulFree(s)
    case Array(items) => forall i :: 0 <= i < |items| ==> CStrings(items[i])
    case Object(ms) => forall i :: 0 <= i < |ms| ==> NulFree(ms[i].key) && CStrings(ms[i].value)
    case _ => true
  }

  /** All numbers are integers that fit an int. */
  predicate Integral(j: Json) {
    match j
    case Number(r) => IsInt(r)
    case Array(items) => forall i :: 0 <= i < |items| ==> Integral(items[i])
    case Object(ms) => forall i :: 0 <= i < |ms| ==> Integral(ms[i].value)
    case _ => true
  }

  /** How many arrays and objects are open at the deepest point of the text. */
  function Nesting(j: Json): nat
    decreases j, 0
  {
    match j
    case Array(items) => 1 + ItemsNesting(items)
    case Object(ms) => 1 + MembersNesting(ms)
    case _ => 0
  }

  function ItemsNesting(items: seq<Json>): nat
    decreases items, 1
  {
    if items == [] then 0 else Max(Nesting(items[0]), ItemsNesting(items[1..]))
  }

  function MembersNesting(ms: seq<Member>): nat
    decreases ms, 1
  {
    if ms == [] then 0 else Max(Nesting(ms[0].value), MembersNesting(ms[1..]))
  }

  function Max(a: nat, b: nat): nat {
    if a < b then b else a
  }

  // ---------------------------------------------------------------- numbers

  function DigitChar(d: nat): char
    requires d < 16
  {
    if d < 10 then '0' + d as char else 'a' + (d - 10) as char
  }

  function NatText(n: nat): string {
    if n < 10 then [DigitChar(n)] else NatText(n / 10) + [DigitChar(n % 10)]
  }

  function IntText(n: int): string {
    if n < 0 then "-" + NatText(-n) else NatText(n)
  }

  // ---------------------------------------------------------------- strings

  /** Characters that the printer has to escape. */
  predicate NeedsEscape(c: char) {
    c < ' ' || c == '\"' || c == '\\'
  }

  /** The second character of a two-character escape, if there is one. */
  function ShortEscape(c: char): char {
    match c
    case '\\' => '\\'
    case '\"' => '\"'
    case '\U{8}' => 'b'
    case '\U{c}' => 'f'
    case '\n' => 'n'
    case '\r' => 'r'
    case '\t' => 't'
    case _ => NUL
  }

  function EscapeChar(c: char): string {
    if !NeedsEscape(c) then [c]
    else if ShortEscape(c) != NUL then ['\\', ShortEscape(c)]
    else assert c < ' '; ['\\', 'u', '0', '0', DigitChar(c as int / 16), DigitChar(c as int % 16)]
  }

  function Escape(s: string): string {
    if s == "" then "" else EscapeChar(s[0]) + Escape(s[1..])
  }

  function Quoted(s: string): string {
    "\"" + Escape(s) + "\""
  }

  // ----------------------------------------------------------------- values

  function Tabs(n: nat): string {
    seq(n, _ => '\t')
  }

  function NumberText(r: real): string {
    IntText(r.Floor)
  }

  /** The text of `j` printed at nesting depth `depth`, formatted or not. */
  function Text(j: Json, fmt: bool, depth: nat): string
    decreases j, 0
  {
    match j
    case Null => "null"
    case Bool(b) => if b then "true" else "false"
    case Number(r) => NumberText(r)
    case String(s) => Quoted(s)
    case Array(items) => "[" + ItemsText(items, fmt, depth + 1) + "]"
    case Object(ms) =>
      (if fmt then "{\n" else "{") + MembersText(ms, fmt, depth + 1) + (if fmt then Tabs(depth) + "}" else "}")
  }

  function ItemSeparator(fmt: bool): string {
    if fmt then ", " else ","
  }

  function ItemsText(items: seq<Json>, fmt: bool, depth: nat): string
    decreases items, 1
  {
    if items == [] then ""
    else if |items| == 1 then Text(items[0], fmt, depth)
    else Text(items[0], fmt, depth) + ItemSeparator(fmt) + ItemsText(items[1..], fmt, depth)
  }

  /** Indentation, key and colon of one member. */
  function KeyText(key: string, fmt: bool, depth: nat): string {
    (if fmt then Tabs(depth) else "") + Quoted(key) + (if fmt then ":\t" else ":")
  }

  /** What follows a member's value: a comma unless it is the last, and a line end. */
  function MemberEnd(last: bool, fmt: bool): string {
    (if last then "" else ",") + (if fmt then "\n" else "")
  }

  function MembersText(ms: seq<Member>, fmt: bool, depth: nat): string
    decreases ms, 1
  {
    if ms == [] then ""
    else KeyText(ms[0].key, fmt, depth) + Text(ms[0].value, fmt, depth)
         + MemberEnd(|ms| == 1, fmt) + MembersText(ms[1..], fmt, depth)
  }

  // ------------------------------------------------------- text inside text

  /** `t` stands at position `p` of `s`. */
  predicate Holds(s: string, p: nat, t: string) {
    p + |t| <= |s| && s[p..p + |t|] == t
  }

  lemma At(s: string, p: nat, t: string, i: nat)
    requires Holds(s, p, t) && i < |t|
    ensures s[p + i] == t[i]
  {
    assert s[p..p + |t|][i] == t[i];
  }

  lemma SplitAt(s: string, p: nat, t: string, u: string)
    requires Holds(s, p, t + u)
    ensures Holds(s, p, t) && Holds(s, p + |t|, u)
  {
    assert s[p..p + |t|] == s[p..p + |t + u|][..|t|];
    assert s[p + |t|..p + |t| + |u|] == s[p..p + |t + u|][|t|..];
  }

  lemma EmptyText(fmt: bool, d: nat)
    ensures ItemsText([], fmt, d) == "" && ItemsNesting([]) == 0
    ensures MembersText([], fmt, d) == "" && MembersNesting([]) == 0
  {
  }
}
