/**
 The recursive-descent parser: what each parse function yields, as a function of
 the buffer, the offset and the nesting depth.
 */
module JsonParser {
  import opened JsonText
  import opened JsonNumber
  import opened JsonString
  import opened Utf8

  /** A value and the offset behind it, or the offset where parsing stopped. */
  datatype Parsed<+T> = Ok(value: T, end: nat) | Fail(at: nat)

  /** The buffer that `cJSON_ParseWithOpts` sets up ends in a NUL byte. */
  predicate Terminated(s: string) {
    |s| > 0 && s[|s| - 1] == NUL
  }

  /** A C string stops at its first NUL. */
  function CString(t: string): (r: string)
    ensures NulFree(r) && |r| <= |t|
    ensures NulFree(t) ==> r == t
    ensures IsCString(r, t)
  {
    if t == "" || t[0] == NUL then "" else [t[0]] + CString(t[1..])
  }

  function BlankEnd(s: string, off: nat): (p: nat)
    requires off <= |s|
    ensures off <= p <= |s|
    ensures forall i :: off <= i < p ==> s[i] <= ' '
    ensures p < |s| ==> s[p] > ' '
    decreases |s| - off
  {
    if off == |s| || s[off] > ' ' then off else BlankEnd(s, off + 1)
  }

  /** Whitespace and control characters are skipped, but never past the last byte. */
  function Skip(s: string, off: nat): (p: nat)
    requires off < |s|
    ensures off <= p < |s|
    ensures s[off] > ' ' ==> p == off
    ensures p < |s| - 1 ==> s[p] > ' '
  {
    if BlankEnd(s, off) == |s| then |s| - 1 else BlankEnd(s, off)
  }

  function ParseString(s: string, off: nat): (r: Parsed<string>)
    requires Terminated(s) && off < |s|
    ensures r.Ok? ==> off < r.end < |s| && NulFree(r.value)
    ensures r.Fail? ==> off < r.at <= |s|
  {
    if s[off] != '\"' then Fail(off + 1)
    else
      match Scan(s, off + 1)
      case Unterminated => Fail(off + 1)
      case Closed(end, _) =>
        match Decode(s, off + 1, end)
        case Bad(at) => BadPosition(s, off + 1, end); Fail(at)
        case Bytes(t) => Ok(CString(t), end + 1)
  }

  lemma {:induction false} BadPosition(s: string, p: nat, end: nat)
    requires p <= end + 1 && end < |s|
    ensures Decode(s, p, end).Bad? ==> p <= Decode(s, p, end).at < end
    decreases end + 1 - p
  {
    if p < end && DecodeStep(s, p, end).used > 0 {
      BadPosition(s, p + DecodeStep(s, p, end).used, end);
    }
  }

  function ParseNumber(s: string, off: nat): (r: Parsed<real>)
    requires off < |s|
    ensures r.Ok? ==> off < r.end <= |s| && IsNumberChar(s[r.end - 1])
  {
    var end := TokenEnd(s, off, TOKEN_LIMIT);
    var reading := Strtod(s[off..end]);
    if reading.used == 0 then Fail(off) else Ok(reading.value, off + reading.used)
  }

  function MapValue<T, U>(r: Parsed<T>, f: T -> U): Parsed<U> {
    match r case Ok(v, end) => Ok(f(v), end) case Fail(at) => Fail(at)
  }

  function Prepend<T>(xs: seq<T>, r: Parsed<seq<T>>): Parsed<seq<T>> {
    match r case Ok(ys, end) => Ok(xs + ys, end) case Fail(at) => Fail(at)
  }

  function ParseValue(s: string, off: nat, depth: nat, limit: nat): (r: Parsed<Json>)
    requires Terminated(s) && off < |s|
    ensures r.Ok? ==> off < r.end < |s|
    decreases |s| - off, 2
  {
    if Holds(s, off, "null") then At(s, off, "null", 3); Ok(Null, off + 4)
    else if Holds(s, off, "false") then At(s, off, "false", 4); Ok(Bool(false), off + 5)
    else if Holds(s, off, "true") then At(s, off, "true", 3); Ok(Bool(true), off + 4)
    else if s[off] == '\"' then MapValue(ParseString(s, off), t => String(t))
    else if s[off] == '-' || IsDigit(s[off]) then MapValue(ParseNumber(s, off), x => Number(x))
    else if s[off] == '[' then ParseArray(s, off, depth, limit)
    else if s[off] == '{' then ParseObject(s, off, depth, limit)
    else Fail(off)
  }

  function ParseArray(s: string, off: nat, depth: nat, limit: nat): (r: Parsed<Json>)
    requires Terminated(s) && off < |s| && s[off] == '['
    ensures r.Ok? ==> off < r.end < |s|
    decreases |s| - off, 1
  {
    if depth >= limit then Fail(off)
    else
      var p := Skip(s, off + 1);
      if s[p] == ']' then Ok(Array([]), p + 1)
      else MapValue(ParseElements(s, p, depth + 1, limit), items => Array(items))
  }

  /** The comma-separated values from `q` up to and including the closing bracket. */
  function ParseElements(s: string, q: nat, depth: nat, limit: nat): (r: Parsed<seq<Json>>)
    requires Terminated(s) && q < |s|
    ensures r.Ok? ==> q < r.end < |s|
    decreases |s| - q, 3
  {
    match ParseValue(s, Skip(s, q), depth, limit)
    case Fail(at) => Fail(at)
    case Ok(v, end) =>
      var p := Skip(s, end);
      if s[p] == ',' then Prepend([v], ParseElements(s, p + 1, depth, limit))
      else if s[p] == ']' then Ok([v], p + 1)
      else Fail(p)
  }

  function ParseObject(s: string, off: nat, depth: nat, limit: nat): (r: Parsed<Json>)
    requires Terminated(s) && off < |s| && s[off] == '{'
    ensures r.Ok? ==> off < r.end < |s|
    decreases |s| - off, 1
  {
    if depth >= limit then Fail(off)
    else
      var p := Skip(s, off + 1);
      if s[p] == '}' then Ok(Object([]), p + 1)
      else MapValue(ParseMembers(s, p, depth + 1, limit), ms => Object(ms))
  }

  /** One key, colon and value. */
  function ParseMember(s: string, q: nat, depth: nat, limit: nat): (r: Parsed<Member>)
    requires Terminated(s) && q < |s|
    ensures r.Ok? ==> q < r.end < |s|
    decreases |s| - q, 3
  {
    match ParseString(s, Skip(s, q))
    case Fail(at) => Fail(at)
    case Ok(key, end) =>
      var p := Skip(s, end);
      if s[p] != ':' then Fail(p)
      else MapValue(ParseValue(s, Skip(s, p + 1), depth, limit), v => Member(key, v))
  }

  function ParseMembers(s: string, q: nat, depth: nat, limit: nat): (r: Parsed<seq<Member>>)
    requires Terminated(s) && q < |s|
    ensures r.Ok? ==> q < r.end < |s|
    decreases |s| - q, 4
  {
    match ParseMember(s, q, depth, limit)
    case Fail(at) => Fail(at)
    case Ok(m, end) =>
      var p := Skip(s, end);
      if s[p] == ',' then Prepend([m], ParseMembers(s, p + 1, depth, limit))
      else if s[p] == '}' then Ok([m], p + 1)
      else Fail(p)
  }

  const BYTE_ORDER_MARK := "\U{EF}\U{BB}\U{BF}"

  function SkipBom(s: string): (p: nat)
    ensures s != "" ==> p < |s|
  {
    if 4 < |s| && Holds(s, 0, BYTE_ORDER_MARK) then 3 else 0
  }

  /** `cJSON_ParseWithOpts`: a C string, optionally with nothing but blanks behind the value. */
  function ParseDocument(text: string, requireNull: bool, limit: nat): (r: Parsed<Json>)
    ensures r.Ok? ==> r.end <= |text|
  {
    var s := text + [NUL];
    match ParseValue(s, Skip(s, SkipBom(s)), 0, limit)
    case Fail(at) => Fail(at)
    case Ok(v, end) =>
      if !requireNull then Ok(v, end)
      else if s[Skip(s, end)] != NUL then Fail(Skip(s, end))
      else Ok(v, Skip(s, end))
  }

  /** With `requireNull` a text is accepted exactly if it would be without, and only blanks follow the value. */
  lemma RequireNullIs(text: string, limit: nat)
    ensures var plain, strict := ParseDocument(text, false, limit), ParseDocument(text, true, limit);
            && (strict.Ok? <==> plain.Ok? && forall i :: plain.end <= i < |text| ==> text[i] as int <= 32)
            && (strict.Ok? ==> strict.value == plain.value && strict.end == |text|)
            && (plain.Fail? ==> strict == plain)
  {
    hide ParseValue;
    var s := text + [NUL];
    var plain := ParseDocument(text, false, limit);
    if plain.Ok? {
      var p := Skip(s, plain.end);
      assert forall i :: plain.end <= i < |text| ==> s[i] == text[i];
      if p < |text| {
        assert s[p] > ' ';
      }
    }
  }

  /** Where `cJSON_GetErrorPtr` points after a failure at `at`. */
  function ErrorPosition(s: string, at: nat): (p: nat)
    requires |s| > 0
    ensures p < |s|
  {
    if at < |s| then at else |s| - 1
  }

  // ---------------------------------------- one step of each parse function

  lemma {:induction false} ElementsStep(s: string, q: nat, depth: nat, v: Json, end: nat, limit: nat)
    requires Terminated(s) && q < |s| && ParseValue(s, Skip(s, q), depth, limit) == Ok(v, end)
    ensures s[Skip(s, end)] == ']' ==> ParseElements(s, q, depth, limit) == Ok([v], Skip(s, end) + 1)
    ensures s[Skip(s, end)] == ',' ==>
              ParseElements(s, q, depth, limit) == Prepend([v], ParseElements(s, Skip(s, end) + 1, depth, limit))
    ensures s[Skip(s, end)] !in {',', ']'} ==> ParseElements(s, q, depth, limit) == Fail(Skip(s, end))
  {
    hide ParseValue;
  }

  lemma {:induction false} ElementsFail(s: string, q: nat, depth: nat, limit: nat)
    requires Terminated(s) && q < |s| && ParseValue(s, Skip(s, q), depth, limit).Fail?
    ensures ParseElements(s, q, depth, limit) == Fail(ParseValue(s, Skip(s, q), depth, limit).at)
  {
    hide ParseValue;
  }

  lemma {:induction false} MembersStep(s: string, q: nat, depth: nat, m: Member, end: nat, limit: nat)
    requires Terminated(s) && q < |s| && ParseMember(s, q, depth, limit) == Ok(m, end)
    ensures s[Skip(s, end)] == '}' ==> ParseMembers(s, q, depth, limit) == Ok([m], Skip(s, end) + 1)
    ensures s[Skip(s, end)] == ',' ==>
              ParseMembers(s, q, depth, limit) == Prepend([m], ParseMembers(s, Skip(s, end) + 1, depth, limit))
    ensures s[Skip(s, end)] !in {',', '}'} ==> ParseMembers(s, q, depth, limit) == Fail(Skip(s, end))
  {
    hide ParseMember;
  }

  lemma {:induction false} MembersFail(s: string, q: nat, depth: nat, limit: nat)
    requires Terminated(s) && q < |s| && ParseMember(s, q, depth, limit).Fail?
    ensures ParseMembers(s, q, depth, limit) == Fail(ParseMember(s, q, depth, limit).at)
  {
    hide ParseMember;
  }

  lemma PrependNil<T>(r: Parsed<seq<T>>)
    ensures Prepend([], r) == r
  {
    if r.Ok? {
      assert [] + r.value == r.value;
    }
  }

  lemma PrependTwice<T>(xs: seq<T>, x: T, r: Parsed<seq<T>>)
    ensures Prepend(xs, Prepend([x], r)) == Prepend(xs + [x], r)
  {
    if r.Ok? {
      assert xs + ([x] + r.value) == xs + [x] + r.value;
    }
  }
}
