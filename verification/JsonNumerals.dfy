/** The parser reads every number of the grammar exactly, if it is short enough. */
module JsonNumerals {
  import opened JsonText
  import opened JsonNumber
  import opened JsonGrammar

  // ------------------------------------------------------------ digits

  lemma {:induction false} WeightedSnoc(t: string, c: char)
    requires AreDigits(t + [c])
    ensures AreDigits(t) && Weighted(t + [c]) == 10 * Weighted(t) + (c as int - 48)
    decreases |t|
  {
    assert forall i :: 0 <= i < |t| ==> (t + [c])[i] == t[i];
    if t == "" {
      assert t + [c] == [c] && [c][1..] == "" && [c][0] == c;
      assert Weighted("") == 0 && TenTo(0) == 1;
    } else {
      assert (t + [c])[1..] == t[1..] + [c] && (t + [c])[0] == t[0];
      WeightedSnoc(t[1..], c);
      Scale(t[0] as int - 48, |t| - 1);
    }
  }

  lemma Scale(d: int, n: nat)
    ensures d * TenTo(n + 1) == 10 * (d * TenTo(n))
  {
  }

  lemma {:induction false} WeightedIs(t: string)
    requires AreDigits(t)
    ensures Weighted(t) == DigitsValue(t)
    decreases |t|
  {
    if t != "" {
      var n := |t| - 1;
      assert t == t[..n] + [t[n]];
      WeightedSnoc(t[..n], t[n]);
      WeightedIs(t[..n]);
    }
  }

  lemma {:induction false} WeightedJoin(a: string, b: string)
    requires AreDigits(a) && AreDigits(b)
    ensures AreDigits(a + b) && Weighted(a + b) == Weighted(a) * TenTo(|b|) + Weighted(b)
    decreases |b|
  {
    if b == "" {
      assert a + b == a;
    } else {
      var n := |b| - 1;
      assert b == b[..n] + [b[n]] && a + b == (a + b[..n]) + [b[n]];
      WeightedJoin(a, b[..n]);
      WeightedSnoc(a + b[..n], b[n]);
      WeightedSnoc(b[..n], b[n]);
      Scale(Weighted(a), n);
    }
  }

  lemma {:induction false} Tens(n: nat)
    ensures Pow10(n) == TenTo(n) as real
  {
    if n > 0 {
      Tens(n - 1);
    }
  }

  lemma {:induction false} TenAdd(m: nat, n: nat)
    ensures Pow10(m + n) == Pow10(m) * Pow10(n)
  {
    if m > 0 {
      TenAdd(m - 1, n);
      Regroup(Pow10(m - 1), Pow10(n));
    }
  }

  lemma Regroup(a: real, b: real)
    ensures 10.0 * (a * b) == 10.0 * a * b
  {
  }

  // ------------------------------------------------------------- value

  /** A point in front of the last `f` digits. */
  lemma Pointed(w: int, r: int, f: nat)
    ensures w as real + r as real / Pow10(f) == (w * TenTo(f) + r) as real / Pow10(f)
  {
    hide TenTo, Pow10;
    Tens(f);
    Product(w, TenTo(f));
    assert (w * TenTo(f) + r) as real == (w * TenTo(f)) as real + r as real;
    assert (w * TenTo(f)) as real == w as real * Pow10(f);
    Sum(w as real, r as real, Pow10(f));
  }

  lemma Product(a: int, b: int)
    ensures (a * b) as real == a as real * b as real
  {
  }

  lemma Sum(w: real, r: real, t: real)
    requires t > 0.0
    ensures w + r / t == (w * t + r) / t
  {
    assert (w + r / t) * t == w * t + r;
    Quotient(w * t + r, t, w + r / t);
  }

  lemma ShiftedIs(n: real, e: int)
    ensures Shifted(n, e) == if e > 0 then n * Pow10(e) else n / Pow10(-e)
  {
    Tens(if e > 0 then e else -e);
    if e == 0 {
      assert n / 1.0 == n * 1.0;
    }
  }

  lemma ShiftedUp(n: real, f: nat, x: nat)
    ensures n / Pow10(f) * Pow10(x) == Shifted(n, x - f)
  {
    hide Pow10, Shifted;
    if x > f {
      MorePlaces(n, f, x - f);
      ShiftedIs(n, x - f);
    } else {
      FewerPlaces(n, f - x, x);
      ShiftedIs(n, x - f);
      assert Pow10(-(x - f)) == Pow10(f - x);
    }
  }

  lemma MorePlaces(n: real, f: nat, k: nat)
    ensures n / Pow10(f) * Pow10(f + k) == n * Pow10(k)
  {
    hide Pow10;
    TenAdd(k, f);
    Cancel(n, Pow10(f), Pow10(k));
  }

  lemma FewerPlaces(n: real, k: nat, x: nat)
    ensures n / Pow10(k + x) * Pow10(x) == n / Pow10(k)
  {
    hide Pow10;
    TenAdd(k, x);
    Reduce(n, Pow10(k), Pow10(x));
  }

  lemma ShiftedDown(n: real, f: nat, x: nat)
    ensures n / Pow10(f) / Pow10(x) == Shifted(n, 0 - x - f)
  {
    hide Pow10, Shifted;
    var e := 0 - x - f;
    ShiftedIs(n, e);
    assert -e == f + x;
    assert Shifted(n, e) == n / Pow10(f + x);
    TenAdd(f, x);
    Twice(n, Pow10(f), Pow10(x));
  }

  lemma Cancel(n: real, a: real, b: real)
    requires a > 0.0 && b > 0.0
    ensures n / a * (b * a) == n * b
  {
    var q := n / a;
    assert q * a == n;
    assert q * (b * a) == (q * a) * b;
  }

  lemma Reduce(n: real, a: real, b: real)
    requires a > 0.0 && b > 0.0
    ensures a * b > 0.0 && n / (a * b) * b == n / a
  {
    var q := n / (a * b);
    assert q * (a * b) == n;
    assert (q * b) * a == q * (a * b);
    Quotient(n, a, q * b);
  }

  lemma Twice(n: real, a: real, b: real)
    requires a > 0.0 && b > 0.0
    ensures a * b > 0.0 && n / a / b == n / (a * b)
  {
    var q := n / a;
    var r := q / b;
    assert q * a == n && r * b == q;
    assert r * (a * b) == (r * b) * a;
    Quotient(n, a * b, r);
  }

  lemma Quotient(n: real, a: real, q: real)
    requires a > 0.0 && q * a == n
    ensures q == n / a
  {
  }

  // ------------------------------------------------------------ syntax

  /** Where the parts of a number start: digits, fraction, exponent. */
  function WholeStart(n: Numeral): nat {
    if n.minus then 1 else 0
  }

  function WholeEnd(n: Numeral): nat {
    WholeStart(n) + |n.whole|
  }

  function MantissaEnd(n: Numeral): nat {
    WholeEnd(n) + if n.fraction == "" then 0 else 1 + |n.fraction|
  }

  lemma Parts(n: Numeral)
    ensures var t, a, b, c := NumeralText(n), WholeStart(n), WholeEnd(n), MantissaEnd(n);
            && a <= b <= c <= |t| && t[a..b] == n.whole && t[c..] == ExponentText(n.exponent)
            && (n.minus ==> t[0] == '-')
            && (n.fraction != "" ==> t[b] == '.' && t[b + 1..c] == n.fraction)
  {
    hide ExponentText;
    var t, a, b, c := NumeralText(n), WholeStart(n), WholeEnd(n), MantissaEnd(n);
    var sign := if n.minus then "-" else "";
    var point := if n.fraction == "" then "" else "." + n.fraction;
    assert t == sign + n.whole + point + ExponentText(n.exponent);
    assert t[a..b] == n.whole;
    assert t[b..c] == point;
    assert n.fraction != "" ==> t[b + 1..c] == t[b..c][1..] && t[b] == t[b..c][0];
  }

  lemma Slice(t: string, a: nat, b: nat, part: string, k: nat)
    requires a <= k < b <= |t| && t[a..b] == part
    ensures t[k] == part[k - a]
  {
  }

  lemma DigitsFill(t: string, a: nat, b: nat)
    requires a <= b <= |t| && AreDigits(t[a..b]) && (b == |t| || !IsDigit(t[b]))
    ensures DigitsEnd(t, a) == b
  {
    forall k | a <= k < b
      ensures IsDigit(t[k])
    {
      Slice(t, a, b, t[a..b], k);
    }
    DigitsEndIs(t, a, b);
  }

  /** The first character of an exponent is no digit and no point. */
  lemma ExponentStarts(x: Exponent)
    requires x.Exponent? ==> x.mark in {'e', 'E'}
    ensures x.NoExponent? ==> ExponentText(x) == ""
    ensures x.Exponent? ==> ExponentText(x) != "" && ExponentText(x)[0] == x.mark
  {
  }

  lemma MantissaReads(n: Numeral)
    requires IsNumeral(n)
    ensures var t, a, b, c := NumeralText(n), WholeStart(n), WholeEnd(n), MantissaEnd(n);
            && a < b <= c <= |t| && SignEnd(t, 0) == a && DigitsEnd(t, a) == b && t[a..b] == n.whole
            && (n.fraction != "" ==> t[b] == '.' && DigitsEnd(t, b + 1) == c && t[b + 1..c] == n.fraction)
            && (n.fraction == "" ==> b == c && (b == |t| || t[b] != '.'))
            && (a == 1 ==> t[0] == '-')
            && t[c..] == ExponentText(n.exponent)
  {
    hide DigitsEnd, NumeralText, ExponentText;
    var t, a, b, c := NumeralText(n), WholeStart(n), WholeEnd(n), MantissaEnd(n);
    Parts(n);
    ExponentStarts(n.exponent);
    assert c < |t| ==> t[c] == t[c..][0];
    Slice(t, a, b, n.whole, a);
    assert b < |t| ==> !IsDigit(t[b]);
    DigitsFill(t, a, b);
    if n.fraction != "" {
      DigitsFill(t, b + 1, c);
    }
  }

  lemma ExponentReads(t: string, c: nat, x: Exponent)
    requires c <= |t| && t[c..] == ExponentText(x) && x.Exponent? && AreDigits(x.digits) && x.digits != ""
    ensures c < |t| && t[c] == x.mark
    ensures var e := SignEnd(t, c + 1); e < |t| && DigitsEnd(t, e) == |t| && t[e..|t|] == x.digits
    ensures c + 1 < |t| && (t[c + 1] == '-' <==> x.sign == Minus)
  {
    hide DigitsEnd, ExponentText, AreDigits, SignText;
    var u := ExponentText(x);
    var k := if x.sign == NoSign then 1 else 2;
    ExponentParts(x);
    TailAt(t, c, u, k);
    DigitsFill(t, c + k, |t|);
    SignReads(t, c + 1, x.sign);
  }

  lemma SignReads(t: string, i: nat, x: Sign)
    requires i < |t| && (x == NoSign ==> IsDigit(t[i])) && (x == Plus ==> t[i] == '+') && (x == Minus ==> t[i] == '-')
    ensures SignEnd(t, i) == (if x == NoSign then i else i + 1) && (t[i] == '-' <==> x == Minus)
  {
  }

  lemma TailAt(t: string, c: nat, u: string, k: nat)
    requires c <= |t| && t[c..] == u && 1 <= k < |u|
    ensures |t| == c + |u| && t[c] == u[0] && t[c + 1] == u[1] && t[c + k..|t|] == u[k..]
  {
    assert t[c] == t[c..][0] && t[c + 1] == t[c..][1];
  }

  lemma ExponentParts(x: Exponent)
    requires x.Exponent? && AreDigits(x.digits) && x.digits != ""
    ensures var u, k := ExponentText(x), if x.sign == NoSign then 1 else 2;
            && k < |u| && u[0] == x.mark && u[k..] == x.digits
            && (x.sign == NoSign ==> IsDigit(u[1])) && (x.sign == Plus ==> u[1] == '+') && (x.sign == Minus ==> u[1] == '-')
  {
    var u := ExponentText(x);
    assert u == [x.mark] + (SignText(x.sign) + x.digits);
    assert u[1..] == SignText(x.sign) + x.digits;
    assert u[1] == (SignText(x.sign) + x.digits)[0];
  }

  // ---------------------------------------------------------- together

  /** The digits in front of and behind the point. */
  function Magnitude(n: Numeral): real
    requires IsNumeral(n)
  {
    DigitsValue(n.whole) as real + DigitsValue(n.fraction) as real / Pow10(|n.fraction|)
  }

  lemma MagnitudeIs(n: Numeral)
    requires IsNumeral(n)
    ensures Magnitude(n) == Weighted(n.whole + n.fraction) as real / Pow10(|n.fraction|)
  {
    hide Weighted, DigitsValue, Pow10, TenTo;
    WeightedIs(n.whole);
    WeightedIs(n.fraction);
    WeightedJoin(n.whole, n.fraction);
    Pointed(Weighted(n.whole), Weighted(n.fraction), |n.fraction|);
  }

  /** What `strtod` makes of an exponent. */
  function Scaled(m: real, x: Exponent): real
    requires x.Exponent? ==> AreDigits(x.digits)
  {
    if x.NoExponent? then m
    else if x.sign == Minus then m / Pow10(DigitsValue(x.digits))
    else m * Pow10(DigitsValue(x.digits))
  }

  lemma ScaledIs(n: Numeral)
    requires IsNumeral(n)
    ensures NumeralValue(n) == Scaled(if n.minus then -Magnitude(n) else Magnitude(n), n.exponent)
  {
    hide Weighted, DigitsValue, Shifted, Magnitude, IsNumeral, Scaled, ExponentValue;
    IsNumeralParts(n);
    MagnitudeIs(n);
    ScaledBy(Weighted(n.whole + n.fraction) as real, |n.fraction|, n.exponent);
    ScaledNegated(Magnitude(n), n.exponent);
  }

  lemma ScaledBy(d: real, f: nat, x: Exponent)
    requires x.Exponent? ==> AreDigits(x.digits)
    ensures Scaled(d / Pow10(f), x) == Shifted(d, ExponentValue(x) - f)
  {
    hide Weighted, DigitsValue, Shifted;
    if x.NoExponent? {
      ShiftedUp(d, f, 0);
      assert Pow10(0) == 1.0;
    } else {
      hide Pow10;
      WeightedIs(x.digits);
      if x.sign == Minus {
        ShiftedDown(d, f, DigitsValue(x.digits));
      } else {
        ShiftedUp(d, f, DigitsValue(x.digits));
      }
    }
  }

  lemma ScaledNegated(m: real, x: Exponent)
    requires x.Exponent? ==> AreDigits(x.digits)
    ensures Scaled(-m, x) == -Scaled(m, x)
  {
    hide DigitsValue, Pow10;
    if x.Exponent? {
      Negated(m, Pow10(DigitsValue(x.digits)));
    }
  }

  lemma IsNumeralParts(n: Numeral)
    requires IsNumeral(n)
    ensures AreDigits(n.whole) && AreDigits(n.fraction) && AreDigits(n.whole + n.fraction)
    ensures n.exponent.Exponent? ==> AreDigits(n.exponent.digits)
  {
  }

  lemma Negated(m: real, t: real)
    requires t > 0.0
    ensures -m * t == -(m * t) && -m / t == -(m / t)
  {
    assert m / t * t == m;
    assert -(m / t) * t == -m;
    Quotient(-m, t, -(m / t));
  }

  /** `strtod` reads every number of the grammar to its end, and as the value it stands for. */
  lemma NumeralReads(n: Numeral)
    requires IsNumeral(n)
    ensures Strtod(NumeralText(n)) == Reading(|NumeralText(n)|, NumeralValue(n))
  {
    hide DigitsEnd, DigitsValue, Pow10, NumeralText, ExponentText, NumeralValue;
    var t, c := NumeralText(n), MantissaEnd(n);
    MantissaReads(n);
    ScaledIs(n);
    ExponentStarts(n.exponent);
    if n.exponent.Exponent? {
      ExponentReads(t, c, n.exponent);
    } else {
      assert c == |t|;
    }
  }
}
