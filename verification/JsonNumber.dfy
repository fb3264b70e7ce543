/**
 Numbers: the token that `parse_number` cuts out of the input, an exact
 (unrounded) reading of it in the syntax of `strtod`, and the saturating
 conversion to `valueint`.
 */
module JsonNumber {
  import opened JsonText

  /** Size of `number_c_string` without its terminator. */
  const TOKEN_LIMIT: nat := 63

  predicate IsDigit(c: char) {
    '0' <= c <= '9'
  }

  /** Characters copied into the token. */
  predicate IsNumberChar(c: char) {
    IsDigit(c) || c in {'+', '-', 'e', 'E', '.'}
  }

  /** Index just behind the token that starts at `off`, with at most `limit` more characters. */
  function TokenEnd(s: string, off: nat, limit: nat): (end: nat)
    requires off <= |s|
    ensures off <= end <= |s| && end - off <= limit
    ensures forall i :: off <= i < end ==> IsNumberChar(s[i])
    ensures end - off == limit || end == |s| || !IsNumberChar(s[end])
    decreases limit
  {
    if limit == 0 || off == |s| || !IsNumberChar(s[off]) then off else TokenEnd(s, off + 1, limit - 1)
  }

  function DigitsEnd(t: string, i: nat): (end: nat)
    requires i <= |t|
    ensures i <= end <= |t|
    ensures forall k :: i <= k < end ==> IsDigit(t[k])
    ensures end == |t| || !IsDigit(t[end])
    decreases |t| - i
  {
    if i == |t| || !IsDigit(t[i]) then i else DigitsEnd(t, i + 1)
  }

  function DigitValue(c: char): nat
    requires IsDigit(c)
  {
    c as int - '0' as int
  }

  function DigitsValue(t: string): nat
    requires forall k :: 0 <= k < |t| ==> IsDigit(t[k])
  {
    if t == "" then 0 else DigitsValue(t[..|t| - 1]) * 10 + DigitValue(t[|t| - 1])
  }

  function Pow10(e: nat): (p: real)
    ensures p > 0.0
  {
    if e == 0 then 1.0 else 10.0 * Pow10(e - 1)
  }

  /** What `strtod` reports: how many characters it used (0: no number) and their value. */
  datatype Reading = Reading(used: nat, value: real)

  function SignEnd(t: string, i: nat): (end: nat)
    requires i <= |t|
    ensures i <= end <= |t|
  {
    if i < |t| && (t[i] == '-' || t[i] == '+') then i + 1 else i
  }

  function Strtod(t: string): (r: Reading)
    ensures r.used <= |t|
  {
    var a := SignEnd(t, 0);
    var b := DigitsEnd(t, a);
    var c := if b < |t| && t[b] == '.' then DigitsEnd(t, b + 1) else b;
    var fraction := if b < c then t[b + 1..c] else "";
    if a == b && fraction == "" then
      Reading(0, 0.0)
    else
      var magnitude := DigitsValue(t[a..b]) as real + DigitsValue(fraction) as real / Pow10(|fraction|);
      var mantissa := if a == 1 && t[0] == '-' then -magnitude else magnitude;
      if c < |t| && (t[c] == 'e' || t[c] == 'E') then
        var x := SignEnd(t, c + 1);
        var y := DigitsEnd(t, x);
        if x == y then Reading(c, mantissa)
        else
          var scale := Pow10(DigitsValue(t[x..y]));
          Reading(y, if t[c + 1] == '-' then mantissa / scale else mantissa * scale)
      else
        Reading(c, mantissa)
  }

  /** The saturated, truncated `valueint` that goes with `valuedouble` r. */
  function ValueInt(r: real): int {
    if r >= INT_MAX as real then INT_MAX
    else if r <= INT_MIN as real then INT_MIN
    else if r >= 0.0 then r.Floor else -(-r).Floor
  }

  /** Truncated towards zero, and held at the ends of the range of an int. */
  lemma ValueIntIs(r: real)
    ensures r >= 2147483647.0 ==> ValueInt(r) == 2147483647
    ensures r <= -2147483648.0 ==> ValueInt(r) == -2147483648
    ensures 0.0 <= r < 2147483647.0 ==> ValueInt(r) as real <= r < ValueInt(r) as real + 1.0
    ensures -2147483648.0 < r <= 0.0 ==> ValueInt(r) as real - 1.0 < r <= ValueInt(r) as real
  {
    var f := (-r).Floor;
    assert f as real <= -r < f as real + 1.0;
  }

  /** `print_number` takes its "%d" branch exactly on the integers that fit an int. */
  lemma PrintedAsInteger(r: real)
    ensures r == ValueInt(r) as real <==> IsInt(r)
    ensures IsInt(r) ==> ValueInt(r) == r.Floor
  {
    if INT_MIN as real < r < 0.0 {
      assert r == r.Floor as real ==> -r == (-(r.Floor)) as real;
      if r == ValueInt(r) as real {
        assert r.Floor == ValueInt(r);
      }
    }
  }

  // ------------------------------------------------- reading back "%d" output

  lemma {:induction false} NatTextReads(n: nat)
    ensures forall k :: 0 <= k < |NatText(n)| ==> IsDigit(NatText(n)[k])
    ensures DigitsValue(NatText(n)) == n
    ensures |NatText(n)| >= 1
  {
    if n < 10 {
      assert NatText(n)[..0] == "";
    } else {
      NatTextReads(n / 10);
      assert NatText(n)[..|NatText(n)| - 1] == NatText(n / 10);
    }
  }

  function PowerOfTen(k: nat): nat {
    if k == 0 then 1 else 10 * PowerOfTen(k - 1)
  }

  lemma {:induction false} NatTextLength(n: nat, k: nat)
    requires k >= 1 && n < PowerOfTen(k)
    ensures |NatText(n)| <= k
  {
    if n >= 10 {
      NatTextLength(n / 10, k - 1);
    }
  }

  lemma {:induction false} DigitsEndIs(t: string, i: nat, end: nat)
    requires i <= end <= |t|
    requires forall k :: i <= k < end ==> IsDigit(t[k])
    requires end == |t| || !IsDigit(t[end])
    ensures DigitsEnd(t, i) == end
    decreases end - i
  {
    if i < end {
      DigitsEndIs(t, i + 1, end);
    }
  }

  lemma {:induction false} TokenEndIs(s: string, off: nat, end: nat, limit: nat)
    requires off <= end <= |s| && end - off <= limit
    requires forall i :: off <= i < end ==> IsNumberChar(s[i])
    requires end - off == limit || end == |s| || !IsNumberChar(s[end])
    ensures TokenEnd(s, off, limit) == end
    decreases limit
  {
    if off < end {
      TokenEndIs(s, off + 1, end, limit - 1);
    }
  }
}
