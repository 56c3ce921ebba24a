/** Bitwise operations on numbers, and division by shifting and subtracting. */
module Bits {
  import opened Machine
  import opened Numerals

  function And(x: nat, y: nat): nat {
    if x == 0 || y == 0 then 0 else 2 * And(x / 2, y / 2) + (if x % 2 == 1 && y % 2 == 1 then 1 else 0)
  }

  function Or(x: nat, y: nat): nat {
    if x == 0 && y == 0 then 0 else 2 * Or(x / 2, y / 2) + (if x % 2 == 1 || y % 2 == 1 then 1 else 0)
  }

  function Xor(x: nat, y: nat): nat {
    if x == 0 && y == 0 then 0 else 2 * Xor(x / 2, y / 2) + (if x % 2 != y % 2 then 1 else 0)
  }

  lemma DivAtMost(x: nat, p: nat)
    requires p > 0
    ensures x / p <= x
  {
    var q, r := x / p, x % p;
    assert x == q * p + r;
    MulMonotone(1, p, q);
  }

  lemma {:induction false} OrBound(x: nat, y: nat, n: nat)
    requires x < Pow(2, n) && y < Pow(2, n)
    ensures Or(x, y) < Pow(2, n)
  {
    if n > 0 && (x != 0 || y != 0) {
      OrBound(x / 2, y / 2, n - 1);
    }
  }

  /** Or works on each limb by itself. */
  lemma {:induction false} OrLimbs(u1: nat, l1: nat, u2: nat, l2: nat, n: nat)
    requires l1 < Pow(2, n) && l2 < Pow(2, n)
    ensures Or(u1 * Pow(2, n) + l1, u2 * Pow(2, n) + l2) == Or(u1, u2) * Pow(2, n) + Or(l1, l2)
  {
    hide Or, Pow;
    if n == 0 {
      NoBits();
    } else {
      var p := Pow(2, n - 1);
      PowStep(2, n - 1);
      HalfOf(u1, p, l1);
      HalfOf(u2, p, l2);
      OrLimbs(u1, l1 / 2, u2, l2 / 2, n - 1);
      OrHalves(u1 * Pow(2, n) + l1, u2 * Pow(2, n) + l2);
      OrHalves(l1, l2);
      assert Or(u1, u2) * (2 * p) == 2 * (Or(u1, u2) * p);
    }
  }

  lemma NoBits()
    ensures Or(0, 0) == 0 && Pow(2, 0) == 1
  {
  }

  lemma OrHalves(x: nat, y: nat)
    ensures Or(x, y) == 2 * Or(x / 2, y / 2) + (if x % 2 == 1 || y % 2 == 1 then 1 else 0)
  {
  }

  lemma HalfOf(u: nat, p: nat, l: nat)
    ensures (u * (2 * p) + l) / 2 == u * p + l / 2 && (u * (2 * p) + l) % 2 == l % 2
  {
    assert u * (2 * p) == 2 * (u * p);
  }

  lemma {:induction false} OrZero(x: nat)
    ensures Or(x, 0) == x
  {
    if x > 0 {
      OrZero(x / 2);
    }
  }

  predicate MultipleOf(q: nat, p: nat) {
    p > 0 && q % p == 0
  }

  /** Setting a bit below all bits of q adds it. */
  lemma {:induction false} OrAdds(q: nat, k: nat)
    requires MultipleOf(q, Pow(2, k + 1))
    ensures Or(q, Pow(2, k)) == q + Pow(2, k)
  {
    PowPositive(2, k);
    if k == 0 {
      assert Pow(2, 1) == 2;
      OrZero(q / 2);
      assert Or(q, 1) == 2 * Or(q / 2, 0) + 1;
    } else {
      var c, p := q / Pow(2, k + 1), Pow(2, k);
      assert q == c * (2 * p);
      HalfMultiple(q, c, p);
      OrAdds(q / 2, k - 1);
    }
  }

  lemma HalfMultiple(q: nat, c: nat, p: nat)
    requires q == c * (2 * p) && p > 0
    ensures q % 2 == 0 && q / 2 == c * p && MultipleOf(q / 2, p)
  {
    assert q == 2 * (c * p);
    DivStep(c, p, 0);
  }

  /** The state of the second loop: a = q * b + r with q complete down to bit k + 1. */
  ghost predicate Subtracting(a: nat, b: nat, k: nat, q: nat, r: nat) {
    a == q * b + r && r < 2 * (b * Pow(2, k)) && MultipleOf(q, Pow(2, k + 1))
  }

  lemma SubtractionStarts(a: nat, b: nat, k: nat)
    requires a < 2 * (b * Pow(2, k))
    ensures Subtracting(a, b, k, 0, a)
  {
    PowPositive(2, k + 1);
    DivStep(0, Pow(2, k + 1), 0);
  }

  /** One bit of the quotient. */
  lemma SubtractBit(a: nat, b: nat, k: nat, q: nat, r: nat)
    requires Subtracting(a, b, k, q, r)
    ensures r >= b * Pow(2, k) ==> Or(q, Pow(2, k)) == q + Pow(2, k)
    ensures
      var (q', r') := SubtractedBit(b, k, q, r);
      && a == q' * b + r' && r' < b * Pow(2, k) && MultipleOf(q', Pow(2, k))
  {
    hide Or, Pow;
    var p := Pow(2, k);
    PowPositive(2, k);
    PowStep(2, k);
    OrAdds(q, k);
    MultipleBelow(q, p);
    OneMore(q, p, b);
  }

  function SubtractedBit(b: nat, k: nat, q: nat, r: nat): (next: (nat, nat)) {
    if r >= b * Pow(2, k) then (q + Pow(2, k), r - b * Pow(2, k)) else (q, r)
  }

  lemma OneMore(q: nat, p: nat, b: nat)
    ensures (q + p) * b == q * b + b * p
  {
  }

  /** The state for the next lower bit. */
  lemma LowerBit(a: nat, b: nat, k: nat, q: nat, r: nat)
    requires k > 0 && a == q * b + r && r < b * Pow(2, k) && MultipleOf(q, Pow(2, k))
    ensures Subtracting(a, b, k - 1, q, r)
  {
    Reassociate(b, Pow(2, k - 1), 2);
  }

  lemma MultipleBelow(q: nat, p: nat)
    requires p > 0 && MultipleOf(q, 2 * p)
    ensures MultipleOf(q, p) && MultipleOf(q + p, p)
  {
    var c := q / (2 * p);
    assert q == (2 * c) * p;
    DivStep(2 * c, p, 0);
    assert q + p == (2 * c + 1) * p;
    DivStep(2 * c + 1, p, 0);
  }

  lemma Quotient(a: nat, b: nat, q: nat, r: nat)
    requires a == q * b + r && r < b
    ensures q == a / b && r == a % b
  {
    DivStep(q, b, r);
  }

  /** Doubling the divisor, and halving it again. */
  lemma DoubleBit(b: nat, k: nat)
    requires b > 0
    ensures b * Pow(2, k + 1) == 2 * (b * Pow(2, k)) && Pow(2, k + 1) == 2 * Pow(2, k) && 0 < Pow(2, k) <= b * Pow(2, k)
  {
    PowPositive(2, k);
    PowStep(2, k);
    MulMonotone(1, b, Pow(2, k));
    Reassociate(b, Pow(2, k), 2);
  }

  /** Halving the divisor and its bit; at bit 0 the bit is shifted out. */
  lemma LowBit(b: nat, k: nat)
    requires b > 0
    ensures k == 0 ==> Pow(2, k) / 2 == 0 && b * Pow(2, k) == b
    ensures k > 0 ==> Pow(2, k) / 2 == Pow(2, k - 1) > 0 && b * Pow(2, k) / 2 == b * Pow(2, k - 1)
  {
    if k > 0 {
      DoubleBit(b, k - 1);
    }
  }
}
