/** Positional numerals, most significant digit first. */
module Numerals {
  import opened Machine

  function Value(s: seq<nat>, b: nat): nat {
    if s == [] then 0 else Value(s[..|s| - 1], b) * b + s[|s| - 1]
  }

  predicate InBase(s: seq<nat>, b: nat) {
    forall i :: 0 <= i < |s| ==> s[i] < b
  }

  predicate NoLeadingZero(s: seq<nat>) {
    s == [] || s[0] != 0
  }

  function Zeros(k: nat): (z: seq<nat>)
    ensures |z| == k
  {
    Repeat(0, k)
  }

  /** The numeral of v without leading zeros; zero has no digits. */
  function Digits(v: nat, b: nat): seq<nat>
    requires b >= 2
  {
    if v == 0 then [] else Digits(v / b, b) + [v % b]
  }

  lemma ValueAppend(s: seq<nat>, d: nat, b: nat)
    ensures Value(s + [d], b) == Value(s, b) * b + d
  {
    assert (s + [d])[..|s|] == s;
  }

  lemma {:induction false} ValueConcat(s: seq<nat>, t: seq<nat>, b: nat)
    ensures Value(s + t, b) == Value(s, b) * Pow(b, |t|) + Value(t, b)
  {
    if t == [] {
      assert s + t == s;
    } else {
      var rest, last := t[..|t| - 1], t[|t| - 1];
      ValueConcat(s, rest, b);
      assert (s + t)[..|s + t| - 1] == s + rest && (s + t)[|s + t| - 1] == last;
      Regroup(Value(s, b), Pow(b, |rest|), Value(rest, b), b, last);
    }
  }

  /** Arithmetic of one more digit. */
  lemma Regroup(x: nat, y: nat, v: nat, b: nat, d: nat)
    ensures (x * y + v) * b + d == x * (b * y) + (v * b + d)
  {
    assert (x * y + v) * b == (x * y) * b + v * b;
    Reassociate(x, y, b);
  }

  lemma Reassociate(x: nat, y: nat, z: nat)
    ensures (x * y) * z == x * (z * y)
  {
  }

  lemma MulMonotone(x: nat, y: nat, z: nat)
    requires x <= y
    ensures x * z <= y * z
  {
  }

  lemma {:induction false} ValueZeros(k: nat, b: nat)
    ensures Value(Zeros(k), b) == 0
  {
    if k > 0 {
      ValueZeros(k - 1, b);
      assert Zeros(k)[..k - 1] == Zeros(k - 1);
    }
  }

  /** Leading zeros do not change the number. */
  lemma ValueSkipsZeros(k: nat, s: seq<nat>, b: nat)
    ensures Value(Zeros(k) + s, b) == Value(s, b)
  {
    ValueConcat(Zeros(k), s, b);
    ValueZeros(k, b);
  }

  lemma {:induction false} ValueBound(s: seq<nat>, b: nat)
    requires InBase(s, b) && b > 0
    ensures Value(s, b) < Pow(b, |s|)
  {
    if s != [] {
      var n := |s|;
      ValueBound(s[..n - 1], b);
      var v, p := Value(s[..n - 1], b), Pow(b, n - 1);
      BelowNext(v, s[n - 1], p, b);
    }
  }

  lemma BelowNext(v: nat, d: nat, p: nat, b: nat)
    requires v < p && d < b
    ensures v * b + d < b * p
  {
    MulMonotone(v + 1, p, b);
    assert (v + 1) * b == v * b + b;
  }

  lemma OneDigit(d: nat, b: nat)
    ensures Value([d], b) == d
  {
    assert [d][..0] == [];
  }

  lemma ValueAtLeast(s: seq<nat>, b: nat)
    requires s != [] && s[0] != 0 && b > 0
    ensures Value(s, b) >= Pow(b, |s| - 1)
  {
    var t := s[1..];
    assert s == [s[0]] + t;
    ValueConcat([s[0]], t, b);
    OneDigit(s[0], b);
    MulMonotone(1, s[0], Pow(b, |t|));
  }

  lemma DivMod(v: nat, b: nat) returns (q: nat, r: nat)
    requires b >= 2 && v > 0
    ensures q == v / b && r == v % b && r < b && v == q * b + r && q < v
    ensures q > 0 || r > 0
  {
    q, r := v / b, v % b;
    DivFacts(v, b);
    MulMonotone(2, b, q);
  }

  lemma {:induction false} DigitsDenote(v: nat, b: nat)
    requires b >= 2
    ensures Value(Digits(v, b), b) == v && InBase(Digits(v, b), b) && NoLeadingZero(Digits(v, b))
  {
    if v != 0 {
      var q, r := DivMod(v, b);
      DigitsDenote(q, b);
      ValueAppend(Digits(q, b), r, b);
    }
  }

  /** A numeral without leading zeros is determined by its value. */
  lemma {:induction false} DigitsUnique(s: seq<nat>, b: nat)
    requires b >= 2 && InBase(s, b) && NoLeadingZero(s)
    ensures Digits(Value(s, b), b) == s
  {
    if s != [] {
      var n := |s|;
      var v := Value(s[..n - 1], b);
      ValueAtLeast(s, b);
      PowPositive(b, n - 1);
      DigitsUnique(s[..n - 1], b);
      DivStep(v, b, s[n - 1]);
      assert s == s[..n - 1] + [s[n - 1]];
    }
  }

  lemma NoSmallMultiple(x: int, b: nat)
    requires x != 0
    ensures x * b >= b || x * b <= 0 - b as int
  {
    if x < 0 {
      MulMonotone(1, -x, b);
    } else {
      MulMonotone(1, x, b);
    }
  }

  lemma DivStep(q: nat, b: nat, r: nat)
    requires r < b
    ensures (q * b + r) / b == q && (q * b + r) % b == r
  {
    var q', r' := (q * b + r) / b, (q * b + r) % b;
    assert (q - q') * b == r' - r;
    if q != q' {
      NoSmallMultiple(q - q', b);
    }
  }

  /** The canonical numeral is as long as the bound on its value allows. */
  lemma DigitsLength(v: nat, b: nat, n: nat)
    requires b >= 2 && v < Pow(b, n)
    ensures |Digits(v, b)| <= n
  {
    DigitsDenote(v, b);
    var s := Digits(v, b);
    if |s| > n {
      ValueAtLeast(s, b);
      PowMonotone(b, n, |s| - 1);
    }
  }

  function LeadingZeros(s: seq<nat>): (k: nat)
    ensures k <= |s| && s[..k] == Zeros(k) && NoLeadingZero(s[k..])
  {
    if s == [] || s[0] != 0 then 0
    else
      var k := LeadingZeros(s[1..]);
      assert s[..k + 1] == [0] + s[1..][..k];
      assert s[k + 1..] == s[1..][k..];
      k + 1
  }

  lemma ValueWithoutLeadingZeros(s: seq<nat>, b: nat)
    ensures Value(s[LeadingZeros(s)..], b) == Value(s, b)
  {
    hide Value;
    var k := LeadingZeros(s);
    assert s == Zeros(k) + s[k..];
    ValueSkipsZeros(k, s[k..], b);
  }

  /** The first nonzero digit marks the end of the leading zeros. */
  lemma {:induction false} LeadingZerosAre(k: nat, s: seq<nat>)
    requires NoLeadingZero(s)
    ensures LeadingZeros(Zeros(k) + s) == k
  {
    if k > 0 {
      LeadingZerosAre(k - 1, s);
      assert (Zeros(k) + s)[1..] == Zeros(k - 1) + s;
    } else {
      assert Zeros(0) + s == s;
    }
  }

  /** The n digits of v in base b, leading zeros included. */
  function FixedDigits(v: nat, b: nat, n: nat): (s: seq<nat>)
    requires b >= 2
    ensures |s| == n && InBase(s, b)
  {
    if n == 0 then [] else FixedDigits(v / b, b, n - 1) + [v % b]
  }

  lemma {:induction false} FixedDigitsUnique(s: seq<nat>, b: nat)
    requires b >= 2 && InBase(s, b)
    ensures FixedDigits(Value(s, b), b, |s|) == s
  {
    if s != [] {
      var n := |s| - 1;
      FixedDigitsUnique(s[..n], b);
      DivStep(Value(s[..n], b), b, s[n]);
      assert s == s[..n] + [s[n]];
    }
  }

  lemma DivFacts(v: nat, b: nat)
    requires b > 0
    ensures v / b >= 0 && v % b < b && v == v / b * b + v % b
  {
  }

  lemma QuotientBelow(v: nat, b: nat, p: nat, q: nat, r: nat)
    requires v == q * b + r && v < b * p
    ensures q < p
  {
    if q >= p {
      MulMonotone(p, q, b);
    }
  }

  lemma {:induction false} FixedDigitsValue(v: nat, b: nat, n: nat)
    requires b >= 2 && v < Pow(b, n)
    ensures Value(FixedDigits(v, b, n), b) == v
  {
    hide Value, Pow, FixedDigits;
    if n > 0 {
      var q, r := FixedDigitsStep(v, b, n);
      PowStep(b, n - 1);
      QuotientBelow(v, b, Pow(b, n - 1), q, r);
      FixedDigitsValue(q, b, n - 1);
      ValueAppend(FixedDigits(q, b, n - 1), r, b);
    } else {
      NoDigits(b);
      NoFixedDigits(v, b);
    }
  }

  lemma NoFixedDigits(v: nat, b: nat)
    requires b >= 2
    ensures FixedDigits(v, b, 0) == []
  {
  }

  lemma FixedDigitsStep(v: nat, b: nat, n: nat) returns (q: nat, r: nat)
    requires b >= 2 && n > 0
    ensures FixedDigits(v, b, n) == FixedDigits(q, b, n - 1) + [r] && v == q * b + r && r < b
  {
    q, r := v / b, v % b;
    DivFacts(v, b);
  }

  lemma NoDigits(b: nat)
    ensures Value([], b) == 0 && Pow(b, 0) == 1
  {
  }

  // ---- Long division by a small number ----

  /** t is m * t' + remainder, digit by digit. */
  ghost predicate Divided(t: seq<nat>, t': seq<nat>, b: nat, m: nat, remainder: nat) {
    && |t| == |t'| && InBase(t', b) && remainder < m
    && Value(t, b) == m * Value(t', b) + remainder
  }

  lemma NothingDivided(b: nat, m: nat)
    requires m > 0
    ensures Divided([], [], b, m, 0)
  {
  }

  lemma DivideDigit(t: seq<nat>, t': seq<nat>, b: nat, m: nat, remainder: nat, d: nat, q: nat, r: nat)
    requires Divided(t, t', b, m, remainder) && remainder * b + d == m * q + r && q < b && r < m
    ensures Divided(t + [d], t' + [q], b, m, r)
  {
    hide Value;
    ValueAppend(t, d, b);
    ValueAppend(t', q, b);
    CarryRemainder(Value(t, b), Value(t', b), b, m, remainder, d, q, r);
  }

  lemma CarryRemainder(v: nat, v': nat, b: nat, m: nat, remainder: nat, d: nat, q: nat, r: nat)
    requires v == m * v' + remainder && remainder * b + d == m * q + r
    ensures v * b + d == m * (v' * b + q) + r
  {
    assert (m * v' + remainder) * b == (m * v') * b + remainder * b;
    assert (m * v') * b == m * (v' * b);
    assert m * (v' * b + q) == m * (v' * b) + m * q;
  }

  /** The quotient of a division that leaves a remainder below the divisor. */
  lemma DividedIs(t: seq<nat>, t': seq<nat>, b: nat, m: nat, remainder: nat)
    requires Divided(t, t', b, m, remainder)
    ensures m > 0 && Value(t', b) == Value(t, b) / m && remainder == Value(t, b) % m
  {
    hide Value;
    DivStep(Value(t', b), m, remainder);
  }
}
