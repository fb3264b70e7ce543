/**
 String literals: the scan pass that looks for the closing quote and sizes the
 output, the decode pass that fills it, and why the second always fits in what
 the first reserved.
 */
module JsonString {
  import opened JsonText
  import opened Utf8

  datatype ScanResult = Unterminated | Closed(end: nat, skipped: nat)

  /** The scan pass from `p`: position of the closing quote and number of escapes seen. */
  function Scan(s: string, p: nat): (r: ScanResult)
    requires p <= |s|
    ensures r.Closed? ==> p <= r.end < |s| && s[r.end] == '\"' && 2 * r.skipped <= r.end - p
    decreases |s| - p
  {
    if p == |s| then Unterminated
    else if s[p] == '\"' then Closed(p, 0)
    else if s[p] == '\\' then
      if p + 1 >= |s| then Unterminated
      else
        match Scan(s, p + 2)
        case Unterminated => Unterminated
        case Closed(e, k) => Closed(e, k + 1)
    else Scan(s, p + 1)
  }

  datatype Decoded = Bytes(text: string) | Bad(at: nat)

  /** The character denoted by a backslash and `c`; NUL when there is none. */
  function Unescaped(c: char): char {
    match c
    case 'b' => '\U{8}'
    case 'f' => '\U{c}'
    case 'n' => '\n'
    case 'r' => '\r'
    case 't' => '\t'
    case '\"' => '\"'
    case '\\' => '\\'
    case '/' => '/'
    case _ => NUL
  }

  /** One step of the decode pass: input used (0: rejected) and bytes produced. */
  datatype Step = Step(used: nat, bytes: string)

  function DecodeStep(s: string, p: nat, end: nat): (r: Step)
    requires p < end < |s|
    ensures r.used in {0, 1, 2, 6, 12} && p + r.used <= end + 1
    ensures r.used == 1 <==> s[p] != '\\'
    ensures r.used > 2 ==> p + r.used <= end
  {
    if s[p] != '\\' then Step(1, [s[p]])
    else if s[p + 1] == 'u' then
      var l := ReadLiteral(s, p, end);
      Step(l.used, Utf8Bytes(l.codePoint))
    else if Unescaped(s[p + 1]) != NUL then Step(2, [Unescaped(s[p + 1])])
    else Step(0, "")
  }

  /** The decode pass over `s[p..end]`. */
  function Decode(s: string, p: nat, end: nat): Decoded
    requires p <= end + 1 && end < |s|
    decreases end + 1 - p
  {
    if p >= end then Bytes("")
    else
      var step := DecodeStep(s, p, end);
      if step.used == 0 then Bad(p)
      else
        match Decode(s, p + step.used, end)
        case Bad(at) => Bad(at)
        case Bytes(rest) => Bytes(step.bytes + rest)
  }

  // ------------------------------------------------------------ output bound

  /** Characters and escapes left to the scan pass at `a`: what the allocation counts. */
  function Units(s: string, a: nat): nat
    requires a <= |s| && Scan(s, a).Closed?
  {
    Scan(s, a).end - a - Scan(s, a).skipped
  }

  /**
   The decode pass at `p` and the scan pass at `a` disagree by at most one
   character: a `\u` with bad digits makes the decoder jump into the middle of
   a pair that the scanner saw as an escape.
   */
  predicate InStep(s: string, p: nat, a: nat, end: nat) {
    && (a == p || a == p + 1) && a <= end < |s|
    && Scan(s, a).Closed? && Scan(s, a).end == end
  }

  function Budget(s: string, p: nat, a: nat, end: nat): nat
    requires InStep(s, p, a, end)
  {
    Units(s, a) + (a - p)
  }

  /** The first position of the scan pass at or behind `target`. */
  function Resume(s: string, a: nat, target: nat): (r: nat)
    requires a <= |s| && Scan(s, a).Closed?
    requires target <= Scan(s, a).end
    ensures r <= Scan(s, a).end
    ensures Scan(s, r).Closed? && Scan(s, r).end == Scan(s, a).end
    ensures a <= target ==> target <= r <= target + 1
    ensures a >= target ==> r == a
    ensures 2 * Units(s, a) >= 2 * Units(s, r) + (r - a)
    decreases |s| - a
  {
    if a >= target then a
    else if s[a] == '\\' then Resume(s, a + 2, target)
    else Resume(s, a + 1, target)
  }

  lemma {:induction false} StepBytes(s: string, p: nat, end: nat)
    requires p < end < |s|
    ensures var r := DecodeStep(s, p, end);
            r.used > 0 ==> |r.bytes| == (if r.used <= 2 then 1 else |r.bytes|) && |r.bytes| <= (if r.used == 12 then 4 else 3)
  {
    var r := DecodeStep(s, p, end);
    if r.used > 2 {
      var l := ReadLiteral(s, p, end);
      Utf8BytesAreForm(l.codePoint);
    }
  }

  /** A step never produces more than the scan pass had counted for the input it uses. */
  lemma {:induction false} StepWithinBudget(s: string, p: nat, a: nat, end: nat) returns (b: nat)
    requires InStep(s, p, a, end) && p < end
    ensures var r := DecodeStep(s, p, end);
            r.used > 0 ==>
              && |r.bytes| <= Budget(s, p, a, end)
              && (p + r.used <= end ==>
                    InStep(s, p + r.used, b, end) && Budget(s, p + r.used, b, end) + |r.bytes| <= Budget(s, p, a, end))
  {
    var r := DecodeStep(s, p, end);
    StepBytes(s, p, end);
    b := a;
    if r.used > 0 && p + r.used <= end {
      if r.used == 1 && a == p {
        b := p + 1;
      } else {
        b := Resume(s, a, p + r.used);
      }
    }
  }

  /** The two passes agree: everything decoded, plus the terminator, fits the allocation. */
  lemma {:induction false} DecodeFits(s: string, p: nat, a: nat, end: nat)
    requires InStep(s, p, a, end)
    ensures Decode(s, p, end).Bytes? ==> |Decode(s, p, end).text| <= Budget(s, p, a, end)
    decreases end + 1 - p
  {
    if p < end && DecodeStep(s, p, end).used > 0 {
      var b := StepWithinBudget(s, p, a, end);
      var next := p + DecodeStep(s, p, end).used;
      if next <= end {
        DecodeFits(s, next, b, end);
      }
    }
  }

  /**
   `parse_string` for a literal whose opening quote is at `off`: text and
   terminator fit `allocation_length`, one byte less than what is allocated.
   */
  lemma {:induction false} AllocationSuffices(s: string, off: nat)
    requires off < |s| && Scan(s, off + 1).Closed?
    ensures var end := Scan(s, off + 1).end;
            var allocationLength := (end - off) - Scan(s, off + 1).skipped;
            Decode(s, off + 1, end).Bytes? ==> |Decode(s, off + 1, end).text| + 1 <= allocationLength
  {
    DecodeFits(s, off + 1, off + 1, Scan(s, off + 1).end);
  }

  /** Two passes can differ: here the decoder swallows the backslash of an escaped quote. */
  lemma {:induction false} PassesCanDisagree()
    ensures var s := "\\uabc\\\\\"";
            Scan(s, 0) == Closed(7, 2) && Decode(s, 0, 7) == Bytes([NUL, '\"'])
  {
    var s := "\\uabc\\\\\"";
    assert Scan(s, 7) == Closed(7, 0);
    assert Scan(s, 5) == Closed(7, 1);
    assert Scan(s, 4) == Closed(7, 1);
    assert Scan(s, 3) == Closed(7, 1);
    assert Scan(s, 2) == Closed(7, 1);
    assert !IsHexDigit(s[5]);
    assert ParseHex4(s, 2) == 0;
    assert ReadLiteral(s, 0, 7) == Literal(6, 0);
    assert Utf8Bytes(0) == [NUL];
    assert Decode(s, 8, 7) == Bytes("");
    assert Decode(s, 6, 7) == Bytes("\"");
  }

  lemma {:induction false} DecodeCons(s: string, p: nat, end: nat, used: nat, bytes: string, rest: string)
    requires p < end < |s| && used > 0 && DecodeStep(s, p, end) == Step(used, bytes)
    requires Decode(s, p + used, end) == Bytes(rest)
    ensures Decode(s, p, end) == Bytes(bytes + rest)
  {
  }
}
