/**
 `\uXXXX` literals: four hexadecimal digits, surrogate pairs (RFC 2781
 section 2.2) and the UTF-8 bytes written for a code point (RFC 3629 section 3).
 The source's masks and shifts appear here as `/`, `%` and `+`; the lemmas
 BitEncodeIs and PairBits relate the two.
 */
module Utf8 {
  import opened Bits

  const MAX_CODE_POINT: nat := 0x10FFFF

  predicate IsHexDigit(c: char) {
    '0' <= c <= '9' || 'A' <= c <= 'F' || 'a' <= c <= 'f'
  }

  function HexValue(c: char): (v: nat)
    requires IsHexDigit(c)
    ensures v < 16
  {
    if c <= '9' then c as int - '0' as int
    else if c <= 'F' then 10 + c as int - 'A' as int
    else 10 + c as int - 'a' as int
  }

  /** Four digits at `p`; any other character makes the whole value 0. */
  function ParseHex4(s: string, p: nat): (h: nat)
    requires p + 4 <= |s|
    ensures h <= 0xFFFF
    ensures h > 0 ==> forall i :: p <= i < p + 4 ==> IsHexDigit(s[i])
  {
    if forall i :: p <= i < p + 4 ==> IsHexDigit(s[i]) then
      ((HexValue(s[p]) * 16 + HexValue(s[p + 1])) * 16 + HexValue(s[p + 2])) * 16 + HexValue(s[p + 3])
    else 0
  }

  predicate IsHighSurrogate(code: nat) {
    0xD800 <= code <= 0xDBFF
  }

  predicate IsLowSurrogate(code: nat) {
    0xDC00 <= code <= 0xDFFF
  }

  function PairCodePoint(first: nat, second: nat): nat {
    0x10000 + (first % 0x400) * 0x400 + second % 0x400
  }

  /** A literal at some position: how much input it takes (0: rejected) and what it denotes. */
  datatype Literal = Literal(used: nat, codePoint: nat)

  const REJECTED := Literal(0, 0)

  /** The one or two `\uXXXX` sequences at `p` of a string body that ends at `end`. */
  function ReadLiteral(s: string, p: nat, end: nat): (l: Literal)
    requires p <= end <= |s|
    ensures l.used in {0, 6, 12} && p + l.used <= end
    ensures l.codePoint <= MAX_CODE_POINT
    ensures l.used == 6 ==> l.codePoint == ParseHex4(s, p + 2)
  {
    if end - p < 6 then REJECTED
    else
      var first := ParseHex4(s, p + 2);
      if IsLowSurrogate(first) then REJECTED
      else if IsHighSurrogate(first) then
        if end - (p + 6) < 6 || s[p + 6] != '\\' || s[p + 7] != 'u' then REJECTED
        else
          var second := ParseHex4(s, p + 8);
          if !IsLowSurrogate(second) then REJECTED
          else Literal(12, PairCodePoint(first, second))
      else Literal(6, first)
  }

  // ------------------------------------------------------------------ UTF-8

  function Utf8Length(cp: nat): nat {
    if cp < 0x80 then 1 else if cp < 0x800 then 2 else if cp < 0x10000 then 3 else 4
  }

  /** `first_byte_mark` for each length. */
  function FirstByteMark(length: nat): nat {
    match length case 2 => 0xC0 case 3 => 0xE0 case 4 => 0xF0 case _ => 0
  }

  /** The continuation bytes are peeled off from the right, six bits at a time. */
  function Encode(cp: nat, length: nat, mark: nat): string
    requires 1 <= length <= 4
    decreases length
  {
    if length == 1 then [((cp + mark) % 256) as char]
    else Encode(cp / 64, length - 1, mark) + [(0x80 + cp % 64) as char]
  }

  function Utf8Bytes(cp: nat): string {
    Encode(cp, Utf8Length(cp), FirstByteMark(Utf8Length(cp)))
  }

  /** A continuation byte 10xxxxxx. */
  predicate IsTail(c: char) {
    0x80 <= c as int < 0xC0
  }

  /** The table of RFC 3629 section 3, read as a relation between bytes and code points. */
  predicate IsUtf8Form(b: string, cp: nat) {
    match |b|
    case 1 => b[0] as int < 0x80 && cp == b[0] as int
    case 2 => 0xC0 <= b[0] as int < 0xE0 && IsTail(b[1])
              && cp == (b[0] as int - 0xC0) * 0x40 + (b[1] as int - 0x80)
    case 3 => 0xE0 <= b[0] as int < 0xF0 && IsTail(b[1]) && IsTail(b[2])
              && cp == (b[0] as int - 0xE0) * 0x1000 + (b[1] as int - 0x80) * 0x40 + (b[2] as int - 0x80)
    case 4 => 0xF0 <= b[0] as int < 0xF8 && IsTail(b[1]) && IsTail(b[2]) && IsTail(b[3])
              && cp == (b[0] as int - 0xF0) * 0x40000 + (b[1] as int - 0x80) * 0x1000
                       + (b[2] as int - 0x80) * 0x40 + (b[3] as int - 0x80)
    case _ => false
  }

  /** The encoder's bytes, written out per length. */
  lemma EncodeUnfolds(cp: nat)
    requires cp <= MAX_CODE_POINT
    ensures cp < 0x80 ==> Utf8Bytes(cp) == [cp as char]
    ensures 0x80 <= cp < 0x800 ==> Utf8Bytes(cp) == [(0xC0 + cp / 64) as char, (0x80 + cp % 64) as char]
    ensures 0x800 <= cp < 0x10000 ==>
              Utf8Bytes(cp) == [(0xE0 + cp / 64 / 64) as char, (0x80 + cp / 64 % 64) as char, (0x80 + cp % 64) as char]
    ensures 0x10000 <= cp ==>
              Utf8Bytes(cp) == [(0xF0 + cp / 64 / 64 / 64) as char, (0x80 + cp / 64 / 64 % 64) as char,
                                (0x80 + cp / 64 % 64) as char, (0x80 + cp % 64) as char]
  {
    hide Encode;
    if cp < 0x80 {
      EncodeOne(cp, 0);
    } else if cp < 0x800 {
      EncodeTwo(cp, 0xC0);
    } else if cp < 0x10000 {
      EncodeThree(cp, 0xE0);
    } else {
      EncodeThree(cp / 64, 0xF0);
      EncodeMore(cp, 4, 0xF0);
    }
  }

  lemma EncodeOne(cp: nat, mark: nat)
    requires cp + mark < 256
    ensures Encode(cp, 1, mark) == [(mark + cp) as char]
  {
  }

  lemma EncodeMore(cp: nat, length: nat, mark: nat)
    requires 1 < length <= 4
    ensures Encode(cp, length, mark) == Encode(cp / 64, length - 1, mark) + [(0x80 + cp % 64) as char]
  {
  }

  lemma EncodeTwo(cp: nat, mark: nat)
    requires cp / 64 + mark < 256
    ensures Encode(cp, 2, mark) == [(mark + cp / 64) as char, (0x80 + cp % 64) as char]
  {
    hide Encode;
    EncodeOne(cp / 64, mark);
    EncodeMore(cp, 2, mark);
  }

  lemma EncodeThree(cp: nat, mark: nat)
    requires cp / 64 / 64 + mark < 256
    ensures Encode(cp, 3, mark) == [(mark + cp / 64 / 64) as char, (0x80 + cp / 64 % 64) as char, (0x80 + cp % 64) as char]
  {
    hide Encode;
    EncodeTwo(cp / 64, mark);
    EncodeMore(cp, 3, mark);
  }

  lemma Utf8BytesAreForm(cp: nat)
    requires cp <= MAX_CODE_POINT
    ensures |Utf8Bytes(cp)| == Utf8Length(cp)
    ensures IsUtf8Form(Utf8Bytes(cp), cp)
  {
    EncodeUnfolds(cp);
  }

  /** A form of `length` bytes cannot stand for a code point that needs more. */
  lemma FormNotShorter(b: string, cp: nat)
    requires IsUtf8Form(b, cp)
    ensures |b| >= Utf8Length(cp)
  {
  }

  function SixBits(a: char, b: char, mark: nat): int {
    (a as int - mark) * 0x40 + (b as int - 0x80)
  }

  lemma SplitUnique(a0: char, b0: char, a1: char, b1: char, mark: nat)
    requires IsTail(a1) && IsTail(b1)
    ensures SixBits(a0, a1, mark) == SixBits(b0, b1, mark) ==> a0 == b0 && a1 == b1
  {
  }

  lemma SameLengthSameForm(a: string, b: string, cp: nat)
    requires IsUtf8Form(a, cp) && IsUtf8Form(b, cp) && |a| == |b|
    ensures a == b
  {
    if |a| == 2 {
      SplitUnique(a[0], b[0], a[1], b[1], 0xC0);
    } else if |a| == 3 {
      SplitUnique(a[0], b[0], a[1], b[1], 0xE0);
    } else if |a| == 4 {
      assert a[0] == b[0];
      SplitUnique(a[1], b[1], a[2], b[2], 0x80);
    }
  }

  /** The bytes written are a UTF-8 form of the code point, the only shortest one. */
  lemma Utf8BytesShortest(cp: nat, other: string)
    requires cp <= MAX_CODE_POINT
    ensures |Utf8Bytes(cp)| == Utf8Length(cp)
    ensures IsUtf8Form(Utf8Bytes(cp), cp)
    ensures IsUtf8Form(other, cp) ==> |other| > |Utf8Bytes(cp)| || other == Utf8Bytes(cp)
  {
    Utf8BytesAreForm(cp);
    if IsUtf8Form(other, cp) {
      FormNotShorter(other, cp);
      if |other| == Utf8Length(cp) {
        SameLengthSameForm(other, Utf8Bytes(cp), cp);
      }
    }
  }

  /** No UTF-8 form stands for two code points: the bytes written determine the literal. */
  lemma Utf8BytesInjective(a: nat, b: nat)
    requires a <= MAX_CODE_POINT && b <= MAX_CODE_POINT
    requires Utf8Bytes(a) == Utf8Bytes(b)
    ensures a == b
  {
    Utf8BytesShortest(a, "");
    Utf8BytesShortest(b, "");
  }

  // ------------------------------------------------------------ literals as a whole

  const LOWER_DIGITS := "0123456789abcdef"
  const UPPER_DIGITS := "0123456789ABCDEF"

  /** The character is that hexadecimal digit, in either case. */
  predicate Spells(c: char, digit: nat)
    requires digit < 16
  {
    c == LOWER_DIGITS[digit] || c == UPPER_DIGITS[digit]
  }

  /** Four hexadecimal digits, the first one the most significant. */
  predicate SpellsHex(s: string, p: nat, unit: nat) {
    && p + 4 <= |s| && unit <= 0xFFFF
    && Spells(s[p], unit / 4096) && Spells(s[p + 1], unit / 256 % 16)
    && Spells(s[p + 2], unit / 16 % 16) && Spells(s[p + 3], unit % 16)
  }

  /** The text of a code unit. */
  predicate SpellsUnit(s: string, p: nat, unit: nat) {
    p + 6 <= |s| && s[p] == '\\' && s[p + 1] == 'u' && SpellsHex(s, p + 2, unit)
  }

  lemma DigitReads(c: char, digit: nat)
    requires digit < 16
    ensures Spells(c, digit) <==> IsHexDigit(c) && HexValue(c) == digit
  {
    assert forall i :: 0 <= i < 10 ==> LOWER_DIGITS[i] as int == '0' as int + i && UPPER_DIGITS[i] == LOWER_DIGITS[i];
    assert forall i :: 10 <= i < 16 ==>
        LOWER_DIGITS[i] as int == 'a' as int + i - 10 && UPPER_DIGITS[i] as int == 'A' as int + i - 10;
  }

  lemma Nibbles(unit: nat)
    requires unit <= 0xFFFF
    ensures unit == ((unit / 4096 * 16 + unit / 256 % 16) * 16 + unit / 16 % 16) * 16 + unit % 16 && unit / 4096 < 16
  {
  }

  /** Four digits are read as the number that they spell, most significant first, in either case. */
  lemma HexReads(s: string, p: nat, unit: nat)
    requires SpellsHex(s, p, unit)
    ensures ParseHex4(s, p) == unit
  {
    hide Spells, HexValue, IsHexDigit;
    DigitReads(s[p], unit / 4096);
    DigitReads(s[p + 1], unit / 256 % 16);
    DigitReads(s[p + 2], unit / 16 % 16);
    DigitReads(s[p + 3], unit % 16);
    Nibbles(unit);
    assert IsHexDigit(s[p]) && IsHexDigit(s[p + 1]) && IsHexDigit(s[p + 2]) && IsHexDigit(s[p + 3]);
  }

  /** Whatever is read as a number other than zero is spelled there. */
  lemma HexSpelled(s: string, p: nat)
    requires p + 4 <= |s| && ParseHex4(s, p) > 0
    ensures SpellsHex(s, p, ParseHex4(s, p))
  {
    hide Spells, HexValue, IsHexDigit;
    var a, b, c, d := HexValue(s[p]), HexValue(s[p + 1]), HexValue(s[p + 2]), HexValue(s[p + 3]);
    SixteenParts(a, b, c, d);
    DigitReads(s[p], a);
    DigitReads(s[p + 1], b);
    DigitReads(s[p + 2], c);
    DigitReads(s[p + 3], d);
  }

  lemma UnitReads(s: string, p: nat, unit: nat)
    requires SpellsUnit(s, p, unit)
    ensures p + 6 <= |s| && s[p] == '\\' && s[p + 1] == 'u' && ParseHex4(s, p + 2) == unit
  {
    hide SpellsHex, ParseHex4;
    HexReads(s, p + 2, unit);
  }

  lemma SixteenParts(a: nat, b: nat, c: nat, d: nat)
    requires a < 16 && b < 16 && c < 16 && d < 16
    ensures var u := ((a * 16 + b) * 16 + c) * 16 + d;
            u / 4096 == a && u / 256 % 16 == b && u / 16 % 16 == c && u % 16 == d
  {
  }

  /** RFC 2781 section 2.1: the surrogates of a code point above 0xFFFF. */
  function HighSurrogate(cp: nat): nat
    requires cp >= 0x10000
  {
    0xD800 + (cp - 0x10000) / 0x400
  }

  function LowSurrogate(cp: nat): nat
    requires cp >= 0x10000
  {
    0xDC00 + (cp - 0x10000) % 0x400
  }

  /** Every spelling of a code point is accepted and denotes it. */
  lemma ReadLiteralAccepts(s: string, p: nat, end: nat, cp: nat)
    requires p <= end <= |s| && cp <= MAX_CODE_POINT
    requires !(0xD800 <= cp <= 0xDFFF)
    requires if cp <= 0xFFFF then p + 6 <= end && SpellsUnit(s, p, cp)
             else p + 12 <= end && SpellsUnit(s, p, HighSurrogate(cp)) && SpellsUnit(s, p + 6, LowSurrogate(cp))
    ensures ReadLiteral(s, p, end) == Literal(if cp <= 0xFFFF then 6 else 12, cp)
  {
    hide SpellsUnit, ParseHex4, HighSurrogate, LowSurrogate, PairCodePoint;
    if cp > 0xFFFF {
      SurrogatesInvert(cp);
      UnitReads(s, p, HighSurrogate(cp));
      UnitReads(s, p + 6, LowSurrogate(cp));
    } else {
      UnitReads(s, p, cp);
    }
  }

  lemma SurrogatesInvert(cp: nat)
    requires 0x10000 <= cp <= MAX_CODE_POINT
    ensures IsHighSurrogate(HighSurrogate(cp)) && IsLowSurrogate(LowSurrogate(cp))
    ensures PairCodePoint(HighSurrogate(cp), LowSurrogate(cp)) == cp
  {
  }

  ghost predicate LowUnitFollows(s: string, p: nat, end: nat) {
    p + 6 <= end && exists low :: 0xDC00 <= low <= 0xDFFF && SpellsUnit(s, p, low)
  }

  /** A spelled unit is rejected exactly when it is a surrogate without its second half. */
  lemma RejectsLoneSurrogates(s: string, p: nat, end: nat, unit: nat)
    requires p + 6 <= end <= |s| && SpellsUnit(s, p, unit)
    ensures ReadLiteral(s, p, end) == REJECTED <==>
              0xDC00 <= unit <= 0xDFFF || (0xD800 <= unit <= 0xDBFF && !LowUnitFollows(s, p + 6, end))
  {
    hide SpellsHex, ParseHex4, PairCodePoint;
    UnitReads(s, p, unit);
    if p + 12 <= end {
      var second := ParseHex4(s, p + 8);
      if s[p + 6] == '\\' && s[p + 7] == 'u' && IsLowSurrogate(second) {
        HexSpelled(s, p + 8);
        assert SpellsUnit(s, p + 6, second);
      }
      if LowUnitFollows(s, p + 6, end) {
        var low :| 0xDC00 <= low <= 0xDFFF && SpellsUnit(s, p + 6, low);
        UnitReads(s, p + 6, low);
      }
    }
  }

  // ------------------------------------------------- with masks and shifts

  /** The loop of the source, with its bit operations on the code point. */
  function BitEncode(cp: nat, length: nat, mark: nat): string
    requires 1 <= length <= 4
    decreases length
  {
    if length == 1 then [(if mark == 0 then And(cp, 0x7F) else And(Or(cp, mark), 0xFF)) as char]
    else BitEncode(ShiftRight(cp, 6), length - 1, mark) + [And(Or(cp, 0x80), 0xBF) as char]
  }

  /** A continuation byte. */
  lemma TailByte(cp: nat)
    ensures And(Or(cp, 0x80), 0xBF) == 0x80 + cp % 64
  {
    hide And, Or;
    var q, r := cp / 64, cp % 64;
    assert Pow2(6) == 64;
    hide Pow2;
    Parts(6, q, r, 2, 0);
    Zero(r);
    Parts(6, Or(q, 2), r, 2, 63);
    AllOnes(6, r);
    HighBit(q);
  }

  lemma HighBit(q: nat)
    ensures And(Or(q, 2), 2) == 2
  {
    OneBit(q, 2);
    OneBit(q / 2, 1);
    OneBit(Or(q, 2), 2);
    OneBit(Or(q, 2) / 2, 1);
    Zero(q / 4);
    Zero(Or(q, 2) / 4);
  }

  /** The first byte: the mark and the bits that are left share none. */
  lemma FirstByte(cp: nat, mark: nat)
    requires (mark == 0xC0 && cp < 0x20) || (mark == 0xE0 && cp < 0x10) || (mark == 0xF0 && cp < 0x08)
    ensures And(Or(cp, mark), 0xFF) == cp + mark
  {
    hide And, Or;
    assert Pow2(5) == 32 && Pow2(4) == 16 && Pow2(3) == 8 && Pow2(8) == 256;
    hide Pow2;
    var k := if mark == 0xC0 then 5 else if mark == 0xE0 then 4 else 3;
    Parts(k, 0, cp, mark / Pow2(k), 0);
    Zero(cp);
    Zero(mark / Pow2(k));
    AllOnes(8, cp + mark);
  }

  /** What is left for the first byte fits beside its mark. */
  ghost predicate FitsMark(cp: nat, length: nat, mark: nat)
    requires 1 <= length <= 4
    decreases length
  {
    if length > 1 then FitsMark(cp / 64, length - 1, mark)
    else (mark == 0 && cp < 0x80) || (mark == 0xC0 && cp < 0x20) || (mark == 0xE0 && cp < 0x10) || (mark == 0xF0 && cp < 0x08)
  }

  lemma {:induction false} SameBytes(cp: nat, length: nat, mark: nat)
    requires 1 <= length <= 4 && FitsMark(cp, length, mark)
    ensures BitEncode(cp, length, mark) == Encode(cp, length, mark)
    decreases length
  {
    hide And, Or, ShiftRight;
    if length > 1 {
      TailByte(cp);
      ShiftSix(cp);
      SameBytes(cp / 64, length - 1, mark);
    } else if mark == 0 {
      assert Pow2(7) == 128;
      AllOnes(7, cp);
    } else {
      FirstByte(cp, mark);
    }
  }

  /** The bytes that the source's bit operations give are those of the model. */
  lemma BitEncodeIs(cp: nat)
    requires cp <= MAX_CODE_POINT
    ensures BitEncode(cp, Utf8Length(cp), FirstByteMark(Utf8Length(cp))) == Utf8Bytes(cp)
  {
    hide BitEncode, Encode;
    SameBytes(cp, Utf8Length(cp), FirstByteMark(Utf8Length(cp)));
  }

  lemma ShiftSix(cp: nat)
    ensures ShiftRight(cp, 6) == cp / 64
  {
    Shifts(cp, 6);
    assert Pow2(6) == 64;
  }

  /** The code point of a surrogate pair, as the source puts it together. */
  lemma PairBits(first: nat, second: nat)
    ensures PairCodePoint(first, second) == 0x10000 + Or(ShiftLeft(And(first, 0x3FF), 10), And(second, 0x3FF))
  {
    hide And, Or;
    assert Pow2(10) == 0x400;
    hide Pow2;
    Mask(first, 10);
    Mask(second, 10);
    Shifts(first % 0x400, 10);
    Join(first % 0x400, second % 0x400, 10);
  }
}
