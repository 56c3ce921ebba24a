/** Arithmetic of the shifts, additions and subtractions on a number of two limbs. */
module Limbs {
  import opened Numerals

  /** Shifting left by less than a limb, w = p * q. */
  lemma ShiftLeftInside(w: nat, p: nat, q: nat, u: nat, l: nat)
    requires p > 0 && q > 0 && w == p * q && u < w && l < w
    ensures u * p % w + l / q < w
    ensures (u * p % w + l / q) * w + l * p % w == (u * w + l) * p % (w * w)
  {
    DivFacts(l, q);
    DivFacts(u * p, w);
    ShiftedLeft(w, p, q, u, l, l / q, l % q, u * p / w, u * p % w);
  }

  /** The same for given quotients and remainders. */
  lemma ShiftedLeft(w: nat, p: nat, q: nat, u: nat, l: nat, h: nat, r: nat, a: nat, b: nat)
    requires p > 0 && q > 0 && w == p * q && w > 0 && l < w
    requires l == h * q + r && r < q && u * p == a * w + b && b < w
    ensures b + h < w && (b + h) * w + l * p % w == (u * w + l) * p % (w * w)
  {
    HighPart(h, p, q, r);
    LowProduct(w, p, q, l, h, r);
    MultipleFits(w, p, q, u, a, b);
    ProductBelow(b + h, w, r * p, w);
    TwoLimbProduct(w, p, u, l, a, b, h, r * p);
    DivStep(a, w * w, (b + h) * w + r * p);
  }

  lemma HighPart(h: nat, p: nat, q: nat, r: nat)
    requires h * q + r < p * q
    ensures h < p
  {
    if h >= p {
      MulMonotone(p, h, q);
    }
  }

  lemma LowProduct(w: nat, p: nat, q: nat, l: nat, h: nat, r: nat)
    requires w == p * q && w > 0 && l == h * q + r && r < q && p > 0
    ensures l * p == h * w + r * p && r * p < w && l * p % w == r * p
  {
    assert l * p == (h * q) * p + r * p;
    Reassociate(h, q, p);
    MulMonotone(r + 1, q, p);
    assert (r + 1) * p == r * p + p;
    DivStep(h, w, r * p);
  }

  /** A multiple of p below w is at most w - p. */
  lemma MultipleFits(w: nat, p: nat, q: nat, u: nat, a: nat, b: nat)
    requires p > 0 && w == p * q && u * p == a * w + b && b < w
    ensures b + p <= w
  {
    var c := u - a * q;
    assert a * w == (a * q) * p by {
      Reassociate(a, q, p);
    }
    assert c * p == u * p - (a * q) * p == b;
    if c >= q {
      MulMonotone(q, c, p);
    }
    MulMonotone(c + 1, q, p);
    assert (c + 1) * p == c * p + p;
  }

  lemma ProductBelow(x: nat, w: nat, y: nat, b: nat)
    requires x < w && y < b
    ensures x * b + y < w * b
  {
    MulMonotone(x + 1, w, b);
    assert (x + 1) * b == x * b + b;
  }

  lemma TwoLimbProduct(w: nat, p: nat, u: nat, l: nat, a: nat, b: nat, h: nat, low: nat)
    requires u * p == a * w + b && l * p == h * w + low
    ensures (u * w + l) * p == a * (w * w) + ((b + h) * w + low)
  {
    assert (u * w + l) * p == (u * p) * w + l * p by {
      assert (u * w + l) * p == (u * w) * p + l * p;
      assert (u * w) * p == (u * p) * w;
    }
    assert (u * p) * w == (a * w) * w + b * w;
    Reassociate(a, w, w);
    assert (b + h) * w == b * w + h * w;
  }

  /** Shifting right by less than a limb. */
  lemma ShiftRightInside(w: nat, p: nat, q: nat, u: nat, l: nat)
    requires p > 0 && q > 0 && w == p * q && u < w && l < w
    ensures u * q % w + l / p < w
    ensures u / p * w + (u * q % w + l / p) == (u * w + l) / p
  {
    ShiftedRight(w, p, q, u, l, u / p, u % p, l / p, l % p);
  }

  lemma ShiftedRight(w: nat, p: nat, q: nat, u: nat, l: nat, a: nat, b: nat, c: nat, d: nat)
    requires p > 0 && q > 0 && w == p * q && w > 0 && l < w
    requires u == a * p + b && b < p && l == c * p + d && d < p
    ensures u * q % w + c < w && a * w + (u * q % w + c) == (u * w + l) / p
  {
    HighProduct(w, p, q, u, a, b);
    HighPart(c, q, p, d);
    RightTotal(w, p, q, u, l, a, b, c, d);
    DivStep(a * w + b * q + c, p, d);
  }

  lemma HighProduct(w: nat, p: nat, q: nat, u: nat, a: nat, b: nat)
    requires q > 0 && w == p * q && u == a * p + b && b < p && w > 0
    ensures u * q == a * w + b * q && b * q + q <= w && u * q % w == b * q
  {
    assert u * q == (a * p) * q + b * q;
    assert (a * p) * q == a * (p * q);
    MulMonotone(b + 1, p, q);
    assert (b + 1) * q == b * q + q;
    DivStep(a, w, b * q);
  }

  lemma RightTotal(w: nat, p: nat, q: nat, u: nat, l: nat, a: nat, b: nat, c: nat, d: nat)
    requires w == p * q && u * q == a * w + b * q && l == c * p + d
    ensures u * w + l == (a * w + b * q + c) * p + d
  {
    assert u * w == (u * q) * p;
    assert (u * q) * p == (a * w + b * q) * p;
    assert (a * w + b * q + c) * p == (a * w + b * q) * p + c * p;
  }

  /** Shifting by a limb or more. */
  lemma ShiftLeftBeyond(w: nat, p: nat, u: nat, l: nat)
    requires w > 0
    ensures l * p % w * w == (u * w + l) * (p * w) % (w * w)
  {
    DivFacts(l * p, w);
    ShiftedBeyond(w, p, u, l, l * p / w, l * p % w);
  }

  lemma BeyondProduct(w: nat, p: nat, u: nat, l: nat)
    ensures (u * w + l) * (p * w) == (u * p) * (w * w) + (l * p) * w
  {
    assert (u * w + l) * (p * w) == (u * w) * (p * w) + l * (p * w);
    assert (u * w) * (p * w) == (u * p) * (w * w);
    assert l * (p * w) == (l * p) * w;
  }

  lemma BeyondLow(w: nat, x: nat, a: nat, b: nat)
    requires x == a * w + b
    ensures x * w == a * (w * w) + b * w
  {
    assert (a * w + b) * w == (a * w) * w + b * w;
    Reassociate(a, w, w);
  }

  lemma ShiftedBeyond(w: nat, p: nat, u: nat, l: nat, a: nat, b: nat)
    requires w > 0 && l * p == a * w + b && b < w
    ensures b * w == (u * w + l) * (p * w) % (w * w)
  {
    BeyondProduct(w, p, u, l);
    BeyondLow(w, l * p, a, b);
    assert (u * p) * (w * w) + a * (w * w) == (u * p + a) * (w * w);
    ProductBelow(b, w, 0, w);
    DivStep(u * p + a, w * w, b * w);
  }

  lemma ShiftRightBeyond(w: nat, p: nat, u: nat, l: nat)
    requires p > 0 && w > 0 && l < w
    ensures u / p == (u * w + l) / (p * w)
  {
    var a, b := u / p, u % p;
    assert u == a * p + b;
    assert u * w + l == a * (p * w) + (b * w + l) by {
      assert (a * p + b) * w == (a * p) * w + b * w;
      assert (a * p) * w == a * (p * w);
    }
    ProductBelow(b, p, l, w);
    DivStep(a, p * w, b * w + l);
  }

  /** The carry of an addition of low limbs, found by comparing the wrapped sum. */
  lemma AddLimbs(w: nat, u1: nat, l1: nat, u2: nat, l2: nat)
    requires u1 < w && u2 < w && l1 < w && l2 < w
    ensures
      var low := (l1 + l2) % w;
      var carry := if low < l1 then 1 else 0;
      (u1 + u2 + carry) % w * w + low == (u1 * w + l1 + (u2 * w + l2)) % (w * w)
  {
    var low, carry := (l1 + l2) % w, if l1 + l2 >= w then 1 else 0;
    DivStep(carry, w, l1 + l2 - carry * w);
    assert low == l1 + l2 - carry * w;
    SplitTotal(w, u1 + u2 + carry, low);
    assert u1 * w + u2 * w + carry * w == (u1 + u2 + carry) * w;
  }

  lemma SplitTotal(w: nat, u: nat, low: nat)
    requires low < w
    ensures u % w * w + low == (u * w + low) % (w * w)
  {
    var a, b := u / w, u % w;
    assert u == a * w + b;
    assert u * w + low == a * (w * w) + (b * w + low) by {
      assert (a * w + b) * w == (a * w) * w + b * w;
      Reassociate(a, w, w);
    }
    ProductBelow(b, w, low, w);
    DivStep(a, w * w, b * w + low);
  }

  /** The borrow of a subtraction of low limbs. */
  lemma SubtractLimbs(w: nat, u1: nat, l1: nat, u2: nat, l2: nat)
    requires u1 < w && u2 < w && l1 < w && l2 < w
    ensures
      var low := (l1 - l2) % w;
      var borrow := if low > l1 then 1 else 0;
      (u1 - u2 - borrow) % w * w + low == (u1 * w + l1 - (u2 * w + l2)) % (w * w)
  {
    var borrow := if l1 < l2 then 1 else 0;
    var low := l1 - l2 + borrow * w;
    ModOf(l1 - l2, w, low, -borrow);
    var u := u1 - u2 - borrow;
    var k := if u < 0 then 1 else 0;
    ModOf(u, w, u + k * w, -k);
    SubtractTotal(w, u1, l1, u2, l2, borrow, low, k, u + k * w);
  }

  lemma SubtractTotal(w: nat, u1: nat, l1: nat, u2: nat, l2: nat, borrow: nat, low: nat, k: nat, high: nat)
    requires low < w && high < w && low == l1 - l2 + borrow * w && high == u1 - u2 - borrow + k * w
    ensures high * w + low == (u1 * w + l1 - (u2 * w + l2)) % (w * w)
  {
    ProductBelow(high, w, low, w);
    assert high * w == u1 * w - u2 * w - borrow * w + k * (w * w) by {
      assert (u1 - u2 - borrow + k * w) * w == (u1 - u2 - borrow) * w + (k * w) * w;
      Reassociate(k, w, w);
    }
    ModOf(u1 * w + l1 - (u2 * w + l2), w * w, high * w + low, 0 - k);
  }

  lemma ModOf(x: int, w: nat, r: int, k: int)
    requires x == k * w + r && 0 <= r < w
    ensures x % w == r
  {
    var q := x / w;
    assert x == q * w + x % w;
    if q != k {
      assert (q - k) * w == r - x % w;
      NoSmallMultiple(q - k, w);
    }
  }
}
