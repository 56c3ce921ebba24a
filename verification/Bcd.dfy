/** Bitcoin amounts by double dabble, app/app-swap/src/btc/bcd.c. */
module Bcd {
  import opened Machine
  import opened Numerals
  import opened NumeralText
  import opened Decimals

  const SCRATCH_SIZE := 21
  const LOOP1 := 15
  const LOOP2 := 6

  function Carry(d: nat): nat {
    if d >= 5 then 1 else 0
  }

  /** The digits of 2 * s + c. */
  function Doubled(s: seq<nat>, c: nat): (t: seq<nat>)
    ensures |t| == |s|
  {
    if s == [] then [] else Doubled(s[..|s| - 1], Carry(s[|s| - 1])) + [2 * s[|s| - 1] % 10 + c]
  }

  lemma {:induction false} DoubledAt(s: seq<nat>, c: nat, k: nat)
    requires k < |s|
    ensures Doubled(s, c)[k] == 2 * s[k] % 10 + if k + 1 < |s| then Carry(s[k + 1]) else c
  {
    if k < |s| - 1 {
      DoubledAt(s[..|s| - 1], Carry(s[|s| - 1]), k);
    }
  }

  /** Doubling digit by digit doubles the number, but for what is carried out at the top. */
  lemma {:induction false} DoubledValue(s: seq<nat>, c: nat)
    requires InBase(s, 10) && c <= 1
    ensures InBase(Doubled(s, c), 10)
    ensures Value(Doubled(s, c), 10) + (if s == [] then c else Carry(s[0])) * Pow(10, |s|) == 2 * Value(s, 10) + c
  {
    hide Value;
    NoDigits(10);
    if s != [] {
      var n := |s| - 1;
      var d := s[n];
      ValueAppend(s[..n], d, 10);
      assert s == s[..n] + [d];
      DoubledValue(s[..n], Carry(d));
      ValueAppend(Doubled(s[..n], Carry(d)), 2 * d % 10 + c, 10);
      DoubleDigit(if n == 0 then Carry(d) else Carry(s[0]), Pow(10, n), Value(s[..n], 10),
                  Value(Doubled(s[..n], Carry(d)), 10), d, c);
    }
  }

  lemma DoubleDigit(top: nat, p: nat, v: nat, doubled: nat, d: nat, c: nat)
    requires doubled + top * p == 2 * v + Carry(d) && d < 10
    ensures doubled * 10 + (2 * d % 10 + c) + top * (10 * p) == 2 * (v * 10 + d) + c
  {
    assert top * (10 * p) == 10 * (top * p);
    assert 10 * Carry(d) + 2 * d % 10 == 2 * d;
  }

  /** A number below 10^20 leaves the first of 21 digits zero. */
  lemma TopIsZero(s: seq<nat>)
    requires |s| == SCRATCH_SIZE && InBase(s, 10) && Value(s, 10) < 0x8000_0000_0000_0000
    ensures s[0] == 0
  {
    if s[0] != 0 {
      ValueAtLeast(s, 10);
      TenTo20();
    }
  }

  lemma TenTo20()
    ensures Pow(10, 20) == 100_000_000_000_000_000_000
  {
    assert Pow(10, 5) == 100_000 by {
      assert Pow(10, 3) == 1000;
    }
    PowAdd(10, 5, 5);
    PowAdd(10, 10, 10);
  }

  /** Add three to the digits from smin on that are at least five. */
  function Adjusted(d: nat): nat {
    d + if d >= 5 then 3 else 0
  }

  /** The adjusting loop. */
  method AdjustDigits(scratch: array<u16>, smin: nat)
    requires scratch.Length == SCRATCH_SIZE && InBase(scratch[..], 10) && smin <= SCRATCH_SIZE
    modifies scratch
    ensures forall i :: 0 <= i < SCRATCH_SIZE ==>
      scratch[i] == if smin <= i then Adjusted(old(scratch[i])) else old(scratch[i])
  {
    var k := smin;
    while k < SCRATCH_SIZE
      invariant smin <= k <= SCRATCH_SIZE
      invariant forall i :: 0 <= i < SCRATCH_SIZE ==>
        scratch[i] == if smin <= i < k then Adjusted(old(scratch[i])) else old(scratch[i])
    {
      assert scratch[..][k] == old(scratch[..])[k] < 10;
      scratch[k] := scratch[k] + if scratch[k] >= 5 then 3 else 0;
      k := k + 1;
    }
  }

  /** A digit adjusted and shifted within four bits. */
  function Shifted(d: nat, low: nat): nat {
    d * 2 % 16 + low
  }

  lemma ShiftedAdjusted(d: nat, e: nat, c: nat)
    requires d < 10 && e < 10
    ensures Adjusted(d) * 2 % 16 == 2 * d % 10 && (Adjusted(e) >= 8 <==> Carry(e) == 1) && Adjusted(d) < 13
  {
  }

  /** The shifting loop, and the bit that comes in. */
  method ShiftDigits(scratch: array<u16>, smin: nat, shiftedIn: u8)
    requires scratch.Length == SCRATCH_SIZE && smin < SCRATCH_SIZE && shiftedIn <= 1
    requires forall i :: 0 <= i < SCRATCH_SIZE ==> scratch[i] < 16
    modifies scratch
    ensures forall i :: 0 <= i < smin ==> scratch[i] == old(scratch[i])
    ensures
      forall i :: smin <= i < SCRATCH_SIZE - 1 ==> scratch[i] == Shifted(old(scratch[i]), if old(scratch[i + 1]) >= 8 then 1 else 0)
    ensures scratch[SCRATCH_SIZE - 1] == Shifted(old(scratch[SCRATCH_SIZE - 1]), shiftedIn)
  {
    var k := smin;
    while k < SCRATCH_SIZE - 1
      invariant smin <= k <= SCRATCH_SIZE - 1
      invariant forall i :: 0 <= i < smin || k <= i < SCRATCH_SIZE ==> scratch[i] == old(scratch[i])
      invariant forall i :: smin <= i < k ==> scratch[i] == Shifted(old(scratch[i]), if old(scratch[i + 1]) >= 8 then 1 else 0)
    {
      scratch[k] := scratch[k] * 2 % 16 + if scratch[k + 1] >= 8 then 1 else 0;
      k := k + 1;
    }
    scratch[SCRATCH_SIZE - 1] := scratch[SCRATCH_SIZE - 1] * 2 % 16 + if shiftedIn == 1 then 1 else 0;
  }

  /** One bit shifted in: the two inner loops, which leave the digits before smin alone. */
  method ShiftIn(scratch: array<u16>, smin: u8, shiftedIn: u8) returns (smin': u8)
    requires scratch.Length == SCRATCH_SIZE && InBase(scratch[..], 10) && shiftedIn <= 1
    requires smin <= 19 && scratch[..smin] == Zeros(smin) && (scratch[smin] >= 5 ==> smin > 0)
    modifies scratch
    ensures scratch[..] == Doubled(old(scratch[..]), shiftedIn)
    ensures smin' <= 19 && scratch[..smin'] == Zeros(smin')
  {
    hide Doubled, Zeros, Adjusted;
    ghost var before := scratch[..];
    assert forall i :: 0 <= i < SCRATCH_SIZE ==> scratch[i] == before[i] < 10;
    ZerosBefore(before, smin);
    smin' := smin;
    AdjustDigits(scratch, smin);
    assert forall i :: 0 <= i < SCRATCH_SIZE ==> scratch[i] == Adjusted(before[i]) by {
      AdjustedZero();
    }
    forall d | 0 <= d < 10
      ensures Adjusted(d) < 16
    {
      ShiftedAdjusted(d, d, 0);
    }
    ShiftedAdjusted(before[smin], before[smin], 0);
    if scratch[smin'] >= 8 {
      smin' := smin' - 1;
    }
    ShiftDigits(scratch, smin', shiftedIn);
    forall i | 0 <= i < SCRATCH_SIZE
      ensures scratch[i] == Doubled(before, shiftedIn)[i]
    {
      DoubledAt(before, shiftedIn, i);
      ShiftedAdjusted(before[i], if i + 1 < SCRATCH_SIZE then before[i + 1] else 0, shiftedIn);
      AdjustedZero();
    }
    ZerosKept(before, shiftedIn, smin, smin');
  }

  lemma AdjustedZero()
    ensures Adjusted(0) == 0
  {
  }

  lemma ZerosBefore(s: seq<nat>, n: nat)
    requires n <= |s| && s[..n] == Zeros(n)
    ensures forall i :: 0 <= i < n ==> s[i] == 0
  {
    assert forall i :: 0 <= i < n ==> s[i] == s[..n][i];
  }

  /** The digits before the first that carries stay zero. */
  lemma ZerosKept(s: seq<nat>, c: nat, smin: nat, smin': nat)
    requires smin' <= smin < |s| - 1 && s[..smin] == Zeros(smin)
    requires if s[smin] >= 5 then smin' + 1 == smin else smin' == smin
    ensures Doubled(s, c)[..smin'] == Zeros(smin')
  {
    ZerosBefore(s, smin);
    forall i | 0 <= i < smin'
      ensures Doubled(s, c)[i] == 0
    {
      DoubledAt(s, c, i);
    }
  }

  // ---- The whole amount ----

  /** The number made by the first i bytes and j more bits. */
  function Taken(amount: seq<u8>, i: nat, j: nat): nat
    requires i <= |amount| && j <= 8 && (j > 0 ==> i < |amount|)
  {
    Value(amount[..i], 0x100) * Pow(2, j) + if j == 0 then 0 else TopBits(amount[i], j)
  }

  /** The first j bits of a byte. */
  function TopBits(byte: u8, j: nat): nat
    requires j <= 8
  {
    PowPositive(2, 8 - j);
    byte / Pow(2, 8 - j)
  }

  /** Bit j of a byte, from the top. */
  function BitOf(byte: u8, j: nat): u8
    requires j < 8
  {
    PowPositive(2, 7 - j);
    byte / Pow(2, 7 - j) % 2
  }

  lemma TakeBit(amount: seq<u8>, i: nat, j: nat)
    requires i < |amount| && j < 8
    ensures Taken(amount, i, j + 1) == 2 * Taken(amount, i, j) + BitOf(amount[i], j)
  {
    hide Value;
    PowPositive(2, 7 - j);
    PowStep(2, 7 - j);
    PowStep(2, j);
    var p := Pow(2, 7 - j);
    HalvesOnce(amount[i], p);
    if j == 0 {
      EightBits(amount[i]);
    }
    Reassociate(Value(amount[..i], 0x100), Pow(2, j), 2);
  }

  lemma EightBits(x: u8)
    ensures Pow(2, 8) == 0x100 && x / Pow(2, 8) == 0
  {
    assert Pow(2, 4) == 16;
    PowAdd(2, 4, 4);
  }

  lemma HalvesOnce(x: nat, p: nat)
    requires p > 0
    ensures x / p == 2 * (x / (2 * p)) + x / p % 2
  {
    var q, r := x / p, x % p;
    var q', r' := q / 2, q % 2;
    assert x == q * p + r && q == 2 * q' + r';
    assert x == q' * (2 * p) + (r' * p + r);
    assert r' * p + r < 2 * p by {
      MulMonotone(r', 1, p);
    }
    DivStep(q', 2 * p, r' * p + r);
  }

  lemma TakeByte(amount: seq<u8>, i: nat)
    requires i < |amount|
    ensures Taken(amount, i, 8) == Taken(amount, i + 1, 0)
  {
    EightBits(0);
    assert Pow(2, 0) == 1;
    assert amount[..i + 1] == amount[..i] + [amount[i]];
    ValueAppend(amount[..i], amount[i], 0x100);
  }

  lemma {:induction false} TakenBound(amount: seq<u8>, i: nat, j: nat)
    requires i < |amount| && j <= 8
    ensures Taken(amount, i, j) < Pow(2, 8 * i + j)
    decreases i, j
  {
    if j > 0 {
      TakenBound(amount, i, j - 1);
      TakeBit(amount, i, j - 1);
      PowStep(2, 8 * i + j - 1);
    } else if i > 0 {
      TakenBound(amount, i - 1, 8);
      TakeByte(amount, i - 1);
    } else {
      assert amount[..0] == [];
      assert Pow(2, 0) == 1;
    }
  }

  /** One bit doubles the number, and there is always room for it. */
  lemma NextBit(amount: seq<u8>, i: nat, j: nat, scratch: seq<nat>, smin: nat)
    requires |amount| == 8 && i < 8 && j < 8 && |scratch| == SCRATCH_SIZE && InBase(scratch, 10)
    requires Value(scratch, 10) == Taken(amount, i, j)
    ensures scratch[0] == 0
    ensures
      var next := Doubled(scratch, BitOf(amount[i], j));
      InBase(next, 10) && Value(next, 10) == Taken(amount, i, j + 1)
  {
    hide Value, Taken, BitOf, Doubled;
    TakenBound(amount, i, j);
    PowMonotone(2, 8 * i + j, 63);
    TwoTo63();
    TopIsZero(scratch);
    BitIsSmall(amount[i], j);
    DoubledValue(scratch, BitOf(amount[i], j));
    TakeBit(amount, i, j);
  }

  lemma BitIsSmall(byte: u8, j: nat)
    requires j < 8
    ensures BitOf(byte, j) <= 1
  {
  }

  lemma TwoTo63()
    ensures Pow(2, 63) == 0x8000_0000_0000_0000
  {
    assert Pow(2, 3) == 8;
    assert Pow(2, 7) == 128 by {
      PowAdd(2, 3, 4);
      assert Pow(2, 4) == 16;
    }
    PowAdd(2, 7, 7);
    PowAdd(2, 14, 14);
    PowAdd(2, 28, 28);
    PowAdd(2, 56, 7);
  }

  /** The double-dabble loop: scratch ends up with the digits of the amount. */
  method DoubleDabble(amount: seq<u8>) returns (scratch: array<u16>)
    requires |amount| == 8
    ensures fresh(scratch) && scratch[..] == FixedDigits(Value(amount, 0x100), 10, SCRATCH_SIZE)
  {
    hide Value, Taken, BitOf, Doubled, Pow;
    scratch := new u16[SCRATCH_SIZE](_ => 0);
    var smin: u8 := SCRATCH_SIZE - 2;
    NothingTaken(amount);
    assert scratch[..] == Zeros(SCRATCH_SIZE);
    ValueZeros(SCRATCH_SIZE, 10);
    for i := 0 to 8
      invariant InBase(scratch[..], 10) && Value(scratch[..], 10) == Taken(amount, i, 0)
      invariant smin <= 19 && scratch[..smin] == Zeros(smin)
    {
      for j := 0 to 8
        invariant InBase(scratch[..], 10) && Value(scratch[..], 10) == Taken(amount, i, j)
        invariant smin <= 19 && scratch[..smin] == Zeros(smin)
      {
        var shiftedIn := BitOf(amount[i], j);
        BitIsSmall(amount[i], j);
        NextBit(amount, i, j, scratch[..], smin);
        assert scratch[0] == scratch[..][0];
        smin := ShiftIn(scratch, smin, shiftedIn);
      }
      TakeByte(amount, i);
    }
    AllTaken(amount);
    FixedDigitsUnique(scratch[..], 10);
  }

  lemma NothingTaken(amount: seq<u8>)
    ensures Taken(amount, 0, 0) == 0
  {
    assert amount[..0] == [];
  }

  lemma AllTaken(amount: seq<u8>)
    ensures Taken(amount, |amount|, 0) == Value(amount, 0x100)
  {
    assert Pow(2, 0) == 1;
    assert amount[..|amount|] == amount;
  }

  // ---- Printing ----

  /** The 21 digits, split after 15. */
  lemma SplitDigits(v: nat, s: seq<nat>)
    requires s == FixedDigits(v, 10, SCRATCH_SIZE) && v < Pow(10, SCRATCH_SIZE)
    ensures Pow(10, LOOP2) > 0 && InBase(s, 10)
    ensures Value(s[..LOOP1], 10) == v / Pow(10, LOOP2)
    ensures s[LOOP1..] == FixedDigits(v % Pow(10, LOOP2), 10, LOOP2)
  {
    hide Value, FixedDigits, Pow;
    FixedDigitsValue(v, 10, SCRATCH_SIZE);
    var high, low := s[..LOOP1], s[LOOP1..];
    assert s == high + low;
    ValueConcat(high, low, 10);
    ValueBound(low, 10);
    PowPositive(10, LOOP2);
    DivStep(Value(high, 10), Pow(10, LOOP2), Value(low, 10));
    FixedDigitsUnique(low, 10);
  }

  lemma AmountFits(amount: seq<u8>)
    requires |amount| == 8
    ensures Value(amount, 0x100) < Pow(10, SCRATCH_SIZE)
  {
    hide Value;
    ValueBound(amount, 0x100);
    assert Pow(0x100, 4) == 0x1_0000_0000 by {
      assert Pow(0x100, 2) == 0x1_0000;
      PowAdd(0x100, 2, 2);
    }
    PowAdd(0x100, 4, 4);
    TenTo20();
    PowMonotone(10, 20, 21);
  }

  /** Without its leading zeros a numeral is the canonical one, but for zero itself. */
  lemma StrippedNumeral(s: seq<nat>, z: nat)
    requires InBase(s, 10) && z <= |s| && s[..z] == Zeros(z) && (z < |s| ==> s[z] != 0)
    ensures NumeralOf(Value(s, 10), 10) == if z == |s| then [0] else s[z..]
  {
    assert s == Zeros(z) + s[z..];
    ValueSkipsZeros(z, s[z..], 10);
    if z < |s| {
      OnlyNumeral(s[z..], Value(s, 10), 10);
    } else {
      assert s[z..] == [];
    }
  }

  /** The first printing loop: the digits before the point. */
  method PrintWhole(scratch: array<u16>, out: array<char>, ghost v: nat) returns (targetOffset: nat, offset: nat)
    requires scratch.Length == SCRATCH_SIZE && InBase(scratch[..], 10) && LOOP1 <= out.Length
    requires v == Value(scratch[..LOOP1], 10)
    modifies out
    ensures offset == LOOP1 && 0 < targetOffset <= LOOP1 && InBase(NumeralOf(v, 10), 16)
    ensures out[..targetOffset] == TextOf(NumeralOf(v, 10))
  {
    hide Value, NumeralOf;
    ghost var digits: seq<nat> := scratch[..LOOP1];
    assert forall i :: 0 <= i < SCRATCH_SIZE ==> scratch[i] == scratch[..][i] < 10;
    var nonZero := false;
    offset, targetOffset := 0, 0;
    ghost var z := 0;
    for i := 0 to LOOP1
      invariant offset == i && z <= i && digits[..z] == Zeros(z)
      invariant if nonZero then z < i && digits[z] != 0 && targetOffset == i - z else z == i && targetOffset == 0
      invariant forall k :: 0 <= k < targetOffset ==> out[k] == HexDigit(digits[z + k])
    {
      if !nonZero && scratch[offset] == 0 {
        offset := offset + 1;
        z := z + 1;
      } else {
        nonZero := true;
        out[targetOffset] := '0' + scratch[offset] as char;
        targetOffset, offset := targetOffset + 1, offset + 1;
      }
    }
    StrippedNumeral(digits, z);
    if targetOffset == 0 {
      out[targetOffset] := '0';
      targetOffset := targetOffset + 1;
    }
    assert NumeralOf(v, 10) == if z == LOOP1 then [0] else digits[z..];
  }

  /** The digits after the first i are all zero exactly when the stripped fraction ends by then. */
  lemma RestIsZero(s: seq<nat>, i: nat)
    requires i <= |s|
    ensures (forall j :: i <= j < |s| ==> s[j] == 0) <==> |WithoutTrailingZeros(s)| <= i
    ensures i <= |WithoutTrailingZeros(s)| ==> WithoutTrailingZeros(s)[..i] == s[..i]
  {
    var t := WithoutTrailingZeros(s);
    assert s == t + Zeros(|s| - |t|);
    if |t| > i {
      assert s[|t| - 1] == t[|t| - 1] != 0;
    }
  }

  method AllZeroFrom(scratch: array<u16>, workOffset: nat, i: nat) returns (allZero: bool)
    requires scratch.Length == SCRATCH_SIZE && workOffset == LOOP1 && i < LOOP2
    ensures allZero == forall k :: workOffset + i <= k < SCRATCH_SIZE ==> scratch[k] == 0
  {
    for j := i to LOOP2
      invariant forall k :: workOffset + i <= k < workOffset + j ==> scratch[k] == 0
    {
      if scratch[workOffset + j] != 0 {
        return false;
      }
    }
    allZero := true;
  }

  /** The point and the first i digits of the fraction. */
  function FractionText(frac: seq<nat>, i: nat): (text: string)
    requires i <= |frac| && InBase(frac, 10)
    ensures |text| == if i == 0 then 0 else i + 1
  {
    if i == 0 then "" else "." + TextOf(frac[..i])
  }

  lemma FractionGrows(frac: seq<nat>, i: nat)
    requires i < |frac| && InBase(frac, 10)
    ensures FractionText(frac, i + 1) == (if i == 0 then "." else FractionText(frac, i)) + [HexDigit(frac[i])]
  {
    assert frac[..i + 1] == frac[..i] + [frac[i]];
  }

  lemma FractionPrefix(s: seq<nat>)
    requires InBase(s, 10)
    ensures InBase(WithoutTrailingZeros(s), 10)
    ensures forall i :: 0 <= i < |WithoutTrailingZeros(s)| ==> WithoutTrailingZeros(s)[i] == s[i]
  {
    RestIsZero(s, |WithoutTrailingZeros(s)|);
    assert forall i :: 0 <= i < |WithoutTrailingZeros(s)| ==>
      WithoutTrailingZeros(s)[..|WithoutTrailingZeros(s)|][i] == WithoutTrailingZeros(s)[i];
  }

  /** One digit of the fraction, after the point if it is the first. */
  method PutDigit(out: array<char>, targetOffset0: nat, targetOffset1: nat, comma: bool, digit: u16,
                  ghost frac: seq<nat>, ghost i: nat)
      returns (targetOffset: nat)
    requires InBase(frac, 10) && i < |frac| && frac[i] == digit && comma == (i > 0)
    requires targetOffset0 <= targetOffset1 && targetOffset1 + 2 <= out.Length + (if comma then 1 else 0)
    requires out[targetOffset0..targetOffset1] == FractionText(frac, i)
    modifies out
    ensures targetOffset == targetOffset1 + (if comma then 1 else 2)
    ensures out[..targetOffset0] == old(out[..targetOffset0])
    ensures out[targetOffset0..targetOffset] == FractionText(frac, i + 1)
  {
    hide FractionText;
    FractionGrows(frac, i);
    NoFraction(frac);
    targetOffset := targetOffset1;
    if !comma {
      out[targetOffset] := '.';
      targetOffset := targetOffset + 1;
    }
    ghost var written := out[targetOffset0..targetOffset];
    out[targetOffset] := '0' + digit as char;
    targetOffset := targetOffset + 1;
    assert out[targetOffset0..targetOffset] == written + [HexDigit(frac[i])];
  }

  lemma NoFraction(frac: seq<nat>)
    requires InBase(frac, 10)
    ensures FractionText(frac, 0) == ""
  {
  }

  lemma SameRest(scratch: seq<nat>, digits: seq<nat>, i: nat)
    requires |scratch| == SCRATCH_SIZE && digits == scratch[LOOP1..] && i <= LOOP2
    ensures
      (forall k :: LOOP1 + i <= k < SCRATCH_SIZE ==> scratch[k] == 0)
      <==> forall j :: i <= j < LOOP2 ==> digits[j] == 0
  {
    assert forall j :: 0 <= j < LOOP2 ==> digits[j] == scratch[LOOP1 + j];
    assert forall k :: LOOP1 <= k < SCRATCH_SIZE ==> scratch[k] == digits[k - LOOP1];
  }

  /** The second printing loop: a point and the digits behind it, up to the last that is not zero. */
  method PrintFraction(scratch: array<u16>, out: array<char>, targetOffset0: nat, offset0: nat, ghost frac: seq<nat>)
      returns (targetOffset: nat)
    requires scratch.Length == SCRATCH_SIZE && InBase(scratch[LOOP1..], 10)
    requires offset0 == LOOP1 && targetOffset0 + 1 + LOOP2 <= out.Length
    requires frac == WithoutTrailingZeros(scratch[LOOP1..])
    modifies out
    ensures targetOffset0 <= targetOffset <= out.Length && out[..targetOffset0] == old(out[..targetOffset0])
    ensures InBase(frac, 10) && out[targetOffset0..targetOffset] == FractionText(frac, |frac|)
  {
    hide WithoutTrailingZeros, FractionText, InBase;
    ghost var digits: seq<nat> := scratch[LOOP1..];
    RestIsZero(digits, LOOP2);
    FractionPrefix(digits);
    targetOffset := targetOffset0;
    var offset := offset0;
    var comma := false;
    var i := 0;
    assert out[targetOffset0..targetOffset] == FractionText(frac, 0);
    while i < LOOP2
      invariant i <= |frac| <= LOOP2 && offset == LOOP1 + i && comma == (i > 0)
      invariant targetOffset == targetOffset0 + |FractionText(frac, i)|
      invariant out[..targetOffset0] == old(out[..targetOffset0])
      invariant out[targetOffset0..targetOffset] == FractionText(frac, i)
    {
      RestIsZero(digits, i);
      var allZero := AllZeroFrom(scratch, LOOP1, i);
      SameRest(scratch[..], digits, i);
      if allZero {
        break;
      }
      targetOffset := PutDigit(out, targetOffset0, targetOffset, comma, scratch[offset], frac, i);
      comma := true;
      offset := offset + 1;
      i := i + 1;
    }
  }

  /** The amount, from its 21 digits. */
  lemma AmountOfDigits(v: nat, s: seq<nat>)
    requires s == FixedDigits(v, 10, SCRATCH_SIZE) && v < Pow(10, SCRATCH_SIZE)
    ensures InBase(s, 10) && InBase(s[LOOP1..], 10) && InBase(NumeralOf(Value(s[..LOOP1], 10), 10), 16)
    ensures InBase(WithoutTrailingZeros(s[LOOP1..]), 10)
    ensures
      var frac := WithoutTrailingZeros(s[LOOP1..]);
      AmountText(v, LOOP2) == TextOf(NumeralOf(Value(s[..LOOP1], 10), 10)) + FractionText(frac, |frac|)
  {
    hide Value, FixedDigits, Pow, NumeralOf, WithoutTrailingZeros;
    SplitDigits(v, s);
    DigitsOfAmount(v, LOOP2);
    var frac := WithoutTrailingZeros(s[LOOP1..]);
    assert frac[..|frac|] == frac;
  }

  /** btchip_convert_hex_amount_to_displayable: exactly the amount in units of 10^-6. */
  method DisplayAmount(amount: seq<u8>, out: array<char>) returns (n: nat)
    requires |amount| == 8 && LOOP1 + 1 + LOOP2 <= out.Length
    modifies out
    ensures n <= out.Length && out[..n] == AmountText(Value(amount, 0x100), LOOP2)
  {
    hide Value, FixedDigits, Pow, NumeralOf, WithoutTrailingZeros, AmountText, TextOf, FractionText;
    var scratch := DoubleDabble(amount);
    AmountFits(amount);
    AmountOfDigits(Value(amount, 0x100), scratch[..]);
    assert scratch[..][..LOOP1] == scratch[..LOOP1] && scratch[..][LOOP1..] == scratch[LOOP1..];
    var targetOffset, offset := PrintWhole(scratch, out, Value(scratch[..LOOP1], 10));
    ghost var whole := out[..targetOffset];
    n := PrintFraction(scratch, out, targetOffset, offset, WithoutTrailingZeros(scratch[LOOP1..]));
    assert out[..n] == whole + out[targetOffset..n];
  }
}
