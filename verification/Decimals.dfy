/** Amounts printed as decimal fractions. */
module Decimals {
  import opened Machine
  import opened Numerals
  import opened NumeralText

  predicate NoTrailingZero(s: seq<nat>) {
    s == [] || s[|s| - 1] != 0
  }

  /** Integer part and, if there is one, the fraction after a point. */
  function DecimalText(whole: seq<nat>, frac: seq<nat>): string
    requires InBase(whole, 16) && InBase(frac, 16)
  {
    TextOf(whole) + if frac == [] then "" else "." + TextOf(frac)
  }

  /** whole.frac is exactly v / 10^k, with no superfluous zero before or behind. */
  predicate Denotes(whole: seq<nat>, frac: seq<nat>, v: nat, k: nat) {
    && InBase(whole, 10) && InBase(frac, 10) && whole != [] && (whole[0] == 0 ==> |whole| == 1) && NoTrailingZero(frac)
    && Value(whole + frac, 10) * Pow(10, k) == v * Pow(10, |frac|)
  }

  function WithoutTrailingZeros(s: seq<nat>): (t: seq<nat>)
    ensures |t| <= |s| && NoTrailingZero(t) && s == t + Zeros(|s| - |t|)
  {
    if s == [] || s[|s| - 1] != 0 then s
    else
      var t := WithoutTrailingZeros(s[..|s| - 1]);
      assert s == s[..|s| - 1] + [0];
      assert s == t + Zeros(|s| - |t|);
      t
  }

  lemma {:induction false} TrailingZerosAre(t: seq<nat>, n: nat)
    requires NoTrailingZero(t)
    ensures WithoutTrailingZeros(t + Zeros(n)) == t
  {
    var s := t + Zeros(n);
    if n == 0 {
      assert s == t;
    } else {
      TrailingZerosAre(t, n - 1);
      assert s[..|s| - 1] == t + Zeros(n - 1);
    }
  }

  function IntDigits(v: nat, k: nat): seq<nat> {
    PowPositive(10, k);
    NumeralOf(v / Pow(10, k), 10)
  }

  function FracDigits(v: nat, k: nat): seq<nat> {
    PowPositive(10, k);
    WithoutTrailingZeros(FixedDigits(v % Pow(10, k), 10, k))
  }

  /** The amount v in units of 10^-k. */
  function AmountText(v: nat, k: nat): string {
    DigitsOfAmount(v, k);
    DecimalText(IntDigits(v, k), FracDigits(v, k))
  }

  lemma DigitsOfAmount(v: nat, k: nat)
    ensures InBase(IntDigits(v, k), 10) && InBase(FracDigits(v, k), 10)
  {
    PowPositive(10, k);
    NumeralDenotes(v / Pow(10, k), 10);
    var s, t := FixedDigits(v % Pow(10, k), 10, k), FracDigits(v, k);
    forall i | 0 <= i < |t|
      ensures t[i] < 10
    {
      assert s[i] == t[i];
    }
  }

  /** What is printed denotes the amount, and nothing else without superfluous zeros does. */
  lemma AmountTextDenotes(v: nat, k: nat)
    ensures Denotes(IntDigits(v, k), FracDigits(v, k), v, k)
    ensures forall whole, frac :: Denotes(whole, frac, v, k) ==> whole == IntDigits(v, k) && frac == FracDigits(v, k)
  {
    hide Value, Pow, FixedDigits, NumeralOf, WithoutTrailingZeros;
    DigitsOfAmount(v, k);
    NumeralDenotes(v / DecimalUnit(k), 10);
    AmountIsExact(v, k);
    forall whole, frac | Denotes(whole, frac, v, k)
      ensures whole == IntDigits(v, k) && frac == FracDigits(v, k)
    {
      DenotesOnce(whole, frac, IntDigits(v, k), FracDigits(v, k), v, k);
    }
  }

  function DecimalUnit(k: nat): (p: nat)
    ensures p > 0 && p == Pow(10, k)
  {
    PowPositive(10, k);
    Pow(10, k)
  }

  lemma AmountIsExact(v: nat, k: nat)
    ensures Value(IntDigits(v, k) + FracDigits(v, k), 10) * Pow(10, k) == v * Pow(10, |FracDigits(v, k)|)
  {
    hide Value, Pow, FixedDigits;
    var p := DecimalUnit(k);
    var q, r := v / p, v % p;
    assert v == q * p + r;
    var whole, all, frac := NumeralOf(q, 10), FixedDigits(r, 10, k), FracDigits(v, k);
    NumeralDenotes(q, 10);
    FixedDigitsValue(r, 10, k);
    ValueConcat(whole, all, 10);
    var z := k - |frac|;
    assert whole + all == (whole + frac) + Zeros(z);
    ValueConcat(whole + frac, Zeros(z), 10);
    ValueZeros(z, 10);
    PowAdd(10, |frac|, z);
    Exact(Value(whole + frac, 10), Pow(10, z), v, Pow(10, |frac|), p);
  }

  lemma Exact(x: nat, z: nat, v: nat, f: nat, p: nat)
    requires x * z == v && p == f * z
    ensures x * p == v * f
  {
    assert x * (f * z) == (x * z) * f;
  }

  /** Two exact texts of one amount have the same digits. */
  lemma DenotesOnce(i1: seq<nat>, f1: seq<nat>, i2: seq<nat>, f2: seq<nat>, v: nat, k: nat)
    requires Denotes(i1, f1, v, k) && Denotes(i2, f2, v, k)
    ensures i1 == i2 && f1 == f2
  {
    hide Value, Pow;
    SameScale(i1, f1, i2, f2, v, k);
    SameScale(i2, f2, i1, f1, v, k);
    PowPositive(10, k);
    Cancel(Value(i1 + f1, 10), Value(i2 + f2, 10), Pow(10, k));
    SplitUnique(i1, f1, i2, f2);
  }

  lemma Cancel(x: nat, y: nat, p: nat)
    requires x * p == y * p && p > 0
    ensures x == y
  {
    DivStep(x, p, 0);
    DivStep(y, p, 0);
  }

  /** A longer fraction would end in a zero. */
  lemma SameScale(i1: seq<nat>, f1: seq<nat>, i2: seq<nat>, f2: seq<nat>, v: nat, k: nat)
    requires Denotes(i1, f1, v, k) && Denotes(i2, f2, v, k)
    ensures |f1| >= |f2|
  {
    hide Value, Pow;
    PowPositive(10, k);
    if |f1| < |f2| {
      UnitDigit(i2, f2);
      PowAdd(10, |f1|, |f2| - |f1|);
      Rescale(Value(i1 + f1, 10), Value(i2 + f2, 10), Pow(10, k), v, Pow(10, |f1|), Pow(10, |f2| - |f1|));
      EndsInZero(Value(i1 + f1, 10), |f2| - |f1|);
    }
  }

  lemma UnitDigit(whole: seq<nat>, frac: seq<nat>)
    requires frac != [] && NoTrailingZero(frac) && InBase(frac, 10)
    ensures Value(whole + frac, 10) % 10 != 0
  {
    var n := |frac| - 1;
    assert whole + frac == (whole + frac[..n]) + [frac[n]];
    ValueAppend(whole + frac[..n], frac[n], 10);
    DivStep(Value(whole + frac[..n], 10), 10, frac[n]);
  }

  lemma EndsInZero(x: nat, n: nat)
    requires n > 0
    ensures x * Pow(10, n) % 10 == 0
  {
    assert x * (10 * Pow(10, n - 1)) == (x * Pow(10, n - 1)) * 10;
    DivStep(x * Pow(10, n - 1), 10, 0);
  }

  lemma Rescale(x: nat, y: nat, p: nat, v: nat, f: nat, d: nat)
    requires p > 0 && x * p == v * f && y * p == v * (f * d)
    ensures x * d == y
  {
    assert v * (f * d) == (v * f) * d;
    assert (x * p) * d == (x * d) * p;
    Cancel(x * d, y, p);
  }

  lemma SplitUnique(i1: seq<nat>, f1: seq<nat>, i2: seq<nat>, f2: seq<nat>)
    requires InBase(i1, 10) && InBase(f1, 10) && InBase(i2, 10) && InBase(f2, 10) && |f1| == |f2|
    requires i1 != [] && (i1[0] == 0 ==> |i1| == 1) && i2 != [] && (i2[0] == 0 ==> |i2| == 1)
    requires Value(i1 + f1, 10) == Value(i2 + f2, 10)
    ensures i1 == i2 && f1 == f2
  {
    PartsOf(i1, f1);
    PartsOf(i2, f2);
  }

  /** The total and the length of the fraction determine both parts. */
  lemma PartsOf(whole: seq<nat>, frac: seq<nat>)
    requires InBase(whole, 10) && InBase(frac, 10) && whole != [] && (whole[0] == 0 ==> |whole| == 1)
    ensures Pow(10, |frac|) > 0
    ensures whole == NumeralOf(Value(whole + frac, 10) / Pow(10, |frac|), 10)
    ensures frac == FixedDigits(Value(whole + frac, 10) % Pow(10, |frac|), 10, |frac|)
  {
    hide Value, Pow, FixedDigits, NumeralOf;
    ValueConcat(whole, frac, 10);
    ValueBound(frac, 10);
    PowPositive(10, |frac|);
    DivStep(Value(whole, 10), Pow(10, |frac|), Value(frac, 10));
    OnlyNumeral(whole, Value(whole, 10), 10);
    FixedDigitsUnique(frac, 10);
  }
}
