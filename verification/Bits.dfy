/** The bit operations of C on unsigned values, bit by bit. */
module Bits {

  function And(a: nat, b: nat): (r: nat)
    ensures r <= a && r <= b
  {
    if a == 0 || b == 0 then 0 else 2 * And(a / 2, b / 2) + (if a % 2 == 1 && b % 2 == 1 then 1 else 0)
  }

  function Or(a: nat, b: nat): nat
    decreases a + b
  {
    if a == 0 then b else if b == 0 then a
    else 2 * Or(a / 2, b / 2) + (if a % 2 == 1 || b % 2 == 1 then 1 else 0)
  }

  function Pow2(k: nat): (p: nat)
    ensures p >= 1
  {
    if k == 0 then 1 else 2 * Pow2(k - 1)
  }

  lemma {:induction false} Pow2Adds(a: nat, b: nat)
    ensures Pow2(a + b) == Pow2(a) * Pow2(b)
    decreases a
  {
    if a > 0 {
      Pow2Adds(a - 1, b);
      assert 2 * (Pow2(a - 1) * Pow2(b)) == 2 * Pow2(a - 1) * Pow2(b);
    }
  }

  lemma Pow2Words()
    ensures Pow2(16) == 0x1_0000 && Pow2(32) == 0x1_0000_0000
  {
    assert Pow2(8) == 256;
    Pow2Adds(8, 8);
    Pow2Adds(16, 16);
  }

  function ShiftLeft(a: nat, k: nat): nat
    decreases k
  {
    if k == 0 then a else ShiftLeft(2 * a, k - 1)
  }

  function ShiftRight(a: nat, k: nat): nat
    decreases k
  {
    if k == 0 then a else ShiftRight(a / 2, k - 1)
  }

  /** The recursion holds for zero operands too. */
  lemma OneBit(a: nat, b: nat)
    ensures And(a, b) == 2 * And(a / 2, b / 2) + (if a % 2 == 1 && b % 2 == 1 then 1 else 0)
    ensures Or(a, b) == 2 * Or(a / 2, b / 2) + (if a % 2 == 1 || b % 2 == 1 then 1 else 0)
  {
  }

  /** Operations on numbers in two parts work part by part. */
  lemma {:induction false} Parts(k: nat, a: nat, b: nat, c: nat, d: nat)
    requires b < Pow2(k) && d < Pow2(k)
    ensures And(a * Pow2(k) + b, c * Pow2(k) + d) == And(a, c) * Pow2(k) + And(b, d)
    ensures Or(a * Pow2(k) + b, c * Pow2(k) + d) == Or(a, c) * Pow2(k) + Or(b, d)
    decreases k
  {
    hide And, Or;
    if k == 0 {
      Zero(0);
    } else {
      var x, y := a * Pow2(k) + b, c * Pow2(k) + d;
      Halve(a, b, k);
      Halve(c, d, k);
      hide Pow2;
      OneBit(x, y);
      OneBit(b, d);
      Parts(k - 1, a, b / 2, c, d / 2);
      Double(And(a, c), And(b / 2, d / 2), k);
      Double(Or(a, c), Or(b / 2, d / 2), k);
    }
  }

  lemma Halve(a: nat, b: nat, k: nat)
    requires k > 0 && b < Pow2(k)
    ensures (a * Pow2(k) + b) / 2 == a * Pow2(k - 1) + b / 2 && (a * Pow2(k) + b) % 2 == b % 2 && b / 2 < Pow2(k - 1)
  {
    var m := a * Pow2(k - 1);
    assert a * Pow2(k) == 2 * m;
  }

  lemma Double(a: nat, b: nat, k: nat)
    requires k > 0
    ensures 2 * (a * Pow2(k - 1) + b) == a * Pow2(k) + 2 * b
  {
    var m := a * Pow2(k - 1);
    assert a * Pow2(k) == 2 * m;
  }

  lemma {:induction false} Zero(a: nat)
    ensures And(a, 0) == 0 && And(0, a) == 0 && Or(a, 0) == a && Or(0, a) == a
  {
  }

  lemma {:induction false} AllOnes(k: nat, b: nat)
    requires b < Pow2(k)
    ensures And(b, Pow2(k) - 1) == b
    decreases k
  {
    if k == 0 {
      Zero(b);
    } else {
      var p := Pow2(k - 1);
      assert Pow2(k) == 2 * p;
      OneBit(b, 2 * p - 1);
      hide And, Pow2;
      assert (2 * p - 1) / 2 == p - 1 && (2 * p - 1) % 2 == 1;
      AllOnes(k - 1, b / 2);
    }
  }

  lemma MaskParts(q: nat, r: nat, k: nat)
    requires r < Pow2(k)
    ensures And(q * Pow2(k) + r, Pow2(k) - 1) == r
  {
    hide And, Or, Pow2;
    var p := Pow2(k);
    Parts(k, q, r, 0, p - 1);
    Zero(q);
    AllOnes(k, r);
    assert 0 * p == 0;
  }

  /** A mask of ones keeps the remainder. */
  lemma Mask(x: nat, k: nat)
    ensures And(x, Pow2(k) - 1) == x % Pow2(k)
  {
    hide And, Pow2;
    MaskParts(x / Pow2(k), x % Pow2(k), k);
    DivMod(x, Pow2(k));
  }

  lemma DivMod(x: nat, p: nat)
    requires p > 0
    ensures x / p * p + x % p == x
  {
  }

  /** Parts that share no bit are put together by either operation. */
  lemma Join(a: nat, b: nat, k: nat)
    requires b < Pow2(k)
    ensures Or(a * Pow2(k), b) == a * Pow2(k) + b
  {
    Parts(k, a, 0, 0, b);
    Zero(a);
    Zero(b);
  }

  lemma {:induction false} Shifts(a: nat, k: nat)
    ensures ShiftLeft(a, k) == a * Pow2(k) && ShiftRight(a, k) == a / Pow2(k)
    decreases k
  {
    if k > 0 {
      Shifts(2 * a, k - 1);
      Shifts(a / 2, k - 1);
      var p := Pow2(k - 1);
      assert ShiftLeft(a, k) == 2 * a * p && ShiftRight(a, k) == a / 2 / p && Pow2(k) == 2 * p;
      hide Pow2, ShiftLeft, ShiftRight;
      Doubled(a, p);
      HalfOf(a, p);
    }
  }

  lemma Doubled(a: int, p: int)
    ensures 2 * a * p == a * (2 * p)
  {
  }

  lemma HalfOf(a: nat, p: nat)
    requires p >= 1
    ensures a / 2 / p == a / (2 * p)
  {
    var q, r := a / 2 / p, a / 2 % p;
    assert a / 2 == q * p + r && a == 2 * (a / 2) + a % 2;
    assert a == q * (2 * p) + (2 * r + a % 2);
    Quotient(a, q, 2 * p, 2 * r + a % 2);
  }

  /** Quotient and remainder are determined. */
  lemma Quotient(a: int, q: int, d: int, r: int)
    requires d >= 1 && 0 <= r < d && a == q * d + r
    ensures a / d == q && a % d == r
  {
    var c, m := a / d, a % d;
    assert a == c * d + m && 0 <= m < d;
    assert (c - q) * d == r - m;
    OnlyZeroBetween(c - q, d, r - m);
  }

  lemma OnlyZeroBetween(e: int, n: int, k: int)
    requires e * n == k && -n < k < n
    ensures k == 0 && e == 0
  {
  }
}
