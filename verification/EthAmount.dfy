/** Token amounts, app/app-swap/src/eth/utils.c. */
module EthAmount {
  import opened Machine
  import opened Numerals
  import opened NumeralText
  import opened Decimals
  import opened Limbs
  import opened Uint256
  import opened Uint256Text

  // ---- What adjustDecimals computes ----

  /** The digits of v with k of them behind the point. */
  lemma ShortNumeral(v: nat, k: nat)
    requires v > 0 && |NumeralOf(v, 10)| <= k
    ensures
      var s := NumeralOf(v, 10);
      && InBase(s, 10) && IntDigits(v, k) == [0]
      && WithoutTrailingZeros(s) != [] && FracDigits(v, k) == Zeros(k - |s|) + WithoutTrailingZeros(s)
  {
    hide Value, Pow, FixedDigits, WithoutTrailingZeros;
    var s := NumeralOf(v, 10);
    NumeralDenotes(v, 10);
    ValueBound(s, 10);
    PowMonotone(10, |s|, k);
    PowPositive(10, k);
    DivStep(0, Pow(10, k), v);
    var all := Zeros(k - |s|) + s;
    ValueSkipsZeros(k - |s|, s, 10);
    FixedDigitsUnique(all, 10);
    var t := WithoutTrailingZeros(s);
    PositiveNumeral(v);
    NotAllZero(s);
    assert all == (Zeros(k - |s|) + t) + Zeros(|s| - |t|);
    TrailingZerosAre(Zeros(k - |s|) + t, |s| - |t|);
  }

  lemma PositiveNumeral(v: nat)
    requires v > 0
    ensures NumeralOf(v, 10) != [] && NumeralOf(v, 10)[0] != 0
  {
    DigitsDenote(v, 10);
  }

  lemma NotAllZero(s: seq<nat>)
    requires s != [] && s[0] != 0
    ensures WithoutTrailingZeros(s) != [] && NoTrailingZero(WithoutTrailingZeros(s))
  {
    var t := WithoutTrailingZeros(s);
    assert s == t + Zeros(|s| - |t|);
  }

  lemma LongNumeral(v: nat, k: nat)
    requires |NumeralOf(v, 10)| > k
    ensures
      var s := NumeralOf(v, 10);
      var n := |s| - k;
      InBase(s, 10) && IntDigits(v, k) == s[..n] && FracDigits(v, k) == WithoutTrailingZeros(s[n..])
  {
    hide Value, Pow, FixedDigits, WithoutTrailingZeros;
    var s := NumeralOf(v, 10);
    var n := |s| - k;
    NumeralDenotes(v, 10);
    assert s == s[..n] + s[n..];
    ValueConcat(s[..n], s[n..], 10);
    ValueBound(s[n..], 10);
    PowPositive(10, k);
    DivStep(Value(s[..n], 10), Pow(10, k), Value(s[n..], 10));
    OnlyNumeral(s[..n], Value(s[..n], 10), 10);
    FixedDigitsUnique(s[n..], 10);
  }

  /** What is written before the fraction is trimmed, and the part that is trimmed. */
  function Untrimmed(s: seq<nat>, k: nat): (string, seq<nat>)
    requires InBase(s, 10)
  {
    if |s| <= k then ("0." + TextOf(Zeros(k - |s|)), s)
    else (TextOf(s[..|s| - k]) + (if k == 0 then "" else "."), s[|s| - k..])
  }

  /** The text with its trailing zeros, and a point left over, cut off. */
  function Trimmed(prefix: string, tail: seq<nat>): string
    requires InBase(tail, 10)
  {
    FractionIsDigits(tail);
    var kept := WithoutTrailingZeros(tail);
    if kept == [] && tail != [] && prefix != "" && prefix[|prefix| - 1] == '.' then prefix[..|prefix| - 1]
    else prefix + TextOf(kept)
  }

  lemma FractionIsDigits(s: seq<nat>)
    requires InBase(s, 10)
    ensures InBase(WithoutTrailingZeros(s), 10)
  {
    var t := WithoutTrailingZeros(s);
    assert forall i :: 0 <= i < |t| ==> t[i] == s[i] by {
      assert forall i :: 0 <= i < |t| ==> (t + Zeros(|s| - |t|))[i] == t[i];
    }
  }

  lemma TrimmedShort(v: nat, k: nat)
    requires v > 0 && |NumeralOf(v, 10)| <= k
    ensures
      var s := NumeralOf(v, 10);
      InBase(s, 10) && Trimmed("0." + TextOf(Zeros(k - |s|)), s) == AmountText(v, k)
  {
    hide WithoutTrailingZeros, FixedDigits, NumeralOf, IntDigits, FracDigits;
    var s := NumeralOf(v, 10);
    ShortNumeral(v, k);
    DigitsOfAmount(v, k);
    FractionIsDigits(s);
    TextOfBoth(Zeros(k - |s|), WithoutTrailingZeros(s));
    assert TextOf([0]) == "0";
  }

  lemma TrimmedLong(v: nat, k: nat)
    requires |NumeralOf(v, 10)| > k
    ensures
      var s := NumeralOf(v, 10);
      var n := |s| - k;
      InBase(s, 10) && Trimmed(TextOf(s[..n]) + (if k == 0 then "" else "."), s[n..]) == AmountText(v, k)
  {
    hide WithoutTrailingZeros, FixedDigits, NumeralOf, IntDigits, FracDigits;
    var s := NumeralOf(v, 10);
    LongNumeral(v, k);
    DigitsOfAmount(v, k);
    FractionIsDigits(s[|s| - k..]);
    NothingTrimmed();
  }

  /** Trimming gives the amount. */
  lemma TrimmedIsAmount(v: nat, k: nat)
    requires v > 0
    ensures InBase(NumeralOf(v, 10), 10)
    ensures
      var (prefix, tail) := Untrimmed(NumeralOf(v, 10), k);
      InBase(tail, 10) && Trimmed(prefix, tail) == AmountText(v, k)
  {
    hide Trimmed, AmountText, NumeralOf;
    NumeralDenotes(v, 10);
    if |NumeralOf(v, 10)| <= k {
      TrimmedShort(v, k);
    } else {
      TrimmedLong(v, k);
    }
  }

  lemma NothingTrimmed()
    ensures WithoutTrailingZeros([]) == []
  {
  }

  lemma TextOfBoth(s: seq<nat>, t: seq<nat>)
    requires InBase(s, 16) && InBase(t, 16)
    ensures InBase(s + t, 16) && TextOf(s + t) == TextOf(s) + TextOf(t)
  {
  }

  // ---- adjustDecimals ----

  /** The loops that append characters to the text from `base` on. */
  method Append(target: array<char>, base: nat, at: nat, text: string)
    requires base <= at && at + |text| <= target.Length
    modifies target
    ensures target[..base] == old(target[..base])
    ensures target[base..at + |text|] == old(target[base..at]) + text
  {
    for i := 0 to |text|
      invariant target[..base] == old(target[..base])
      invariant target[base..at + i] == old(target[base..at]) + text[..i]
    {
      target[at + i] := text[i];
    }
    assert text[..|text|] == text;
  }

  lemma StripStep(s: seq<nat>, d: nat)
    ensures WithoutTrailingZeros(s + [d]) == if d == 0 then WithoutTrailingZeros(s) else s + [d]
  {
    assert (s + [d])[..|s|] == s;
  }

  lemma ZeroDigit(d: nat)
    requires d < 10
    ensures HexDigit(d) == '0' <==> d == 0
  {
  }

  /** The number of digits before the trailing zeros. */
  function Kept(tail: seq<nat>): nat {
    |WithoutTrailingZeros(tail)|
  }

  /** Where the trailing zeros start, or 0. */
  method FindTrailingZeros(target: array<char>, base: nat, startOffset: nat, offset: nat, ghost tail: seq<nat>)
      returns (lastZeroOffset: nat)
    requires 0 < startOffset <= offset && base + offset <= target.Length && InBase(tail, 10)
    requires target[base + startOffset..base + offset] == TextOf(tail)
    ensures lastZeroOffset == if Kept(tail) == |tail| then 0 else startOffset + Kept(tail)
  {
    hide WithoutTrailingZeros, HexDigit;
    lastZeroOffset := 0;
    var i := startOffset;
    NothingTrimmed();
    assert tail[..0] == [];
    while i < offset
      invariant startOffset <= i <= offset && offset - startOffset == |tail|
      invariant
        var kept := |WithoutTrailingZeros(tail[..i - startOffset])|;
        lastZeroOffset == if kept == i - startOffset then 0 else startOffset + kept
    {
      var k := i - startOffset;
      assert target[base + i] == target[base + startOffset..base + offset][k] == HexDigit(tail[k]);
      ZeroDigit(tail[k]);
      assert tail[..k + 1] == tail[..k] + [tail[k]];
      StripStep(tail[..k], tail[k]);
      if target[base + i] == '0' {
        if lastZeroOffset == 0 {
          lastZeroOffset := i;
        }
      } else {
        lastZeroOffset := 0;
      }
      i := i + 1;
    }
    assert tail[..|tail|] == tail;
  }

  /** The end of adjustDecimals: cuts the trailing zeros, and the point if nothing follows it. */
  method Trim(target: array<char>, base: nat, startOffset: nat, offset: nat, ghost prefix: string, ghost tail: seq<nat>)
    requires 0 < startOffset == |prefix| && offset == startOffset + |tail| && base + offset < target.Length
    requires InBase(tail, 10) && target[base..base + offset] == prefix + TextOf(tail) && target[base + offset] == '\0'
    modifies target
    ensures target[..base] == old(target[..base])
    ensures
      var text := Trimmed(prefix, tail);
      |text| <= offset && target[base..base + |text|] == text && target[base + |text|] == '\0'
  {
    hide HexDigit, Trimmed, TextOf, Kept;
    ghost var all := prefix + TextOf(tail);
    SuffixOf(target, base, offset, all, startOffset);
    assert all[startOffset..] == TextOf(tail);
    var lastZeroOffset := FindTrailingZeros(target, base, startOffset, offset, tail);
    TrimmedIs(prefix, tail);
    CutAt(target, base, lastZeroOffset, all);
  }

  lemma SuffixOf(target: array<char>, base: nat, offset: nat, all: string, at: nat)
    requires at <= offset && base + offset <= target.Length && target[base..base + offset] == all
    ensures target[base + at..base + offset] == all[at..]
  {
  }

  /** Ends a text at its trailing zeros, if there are any, or at the point before them. */
  method CutAt(target: array<char>, base: nat, at: nat, ghost all: string)
    requires at < |all| && base + |all| < target.Length && target[base..base + |all|] == all
    requires target[base + |all|] == '\0'
    modifies target
    ensures target[..base] == old(target[..base])
    ensures
      var text := if at == 0 then all else if all[at - 1] == '.' then all[..at - 1] else all[..at];
      target[base..base + |text|] == text && target[base + |text|] == '\0'
  {
    if at != 0 {
      target[base + at] := '\0';
      assert target[base..base + at] == old(target[base..base + |all|])[..at];
      assert target[base + at - 1] == target[base..base + at][at - 1];
      if target[base + at - 1] == '.' {
        target[base + at - 1] := '\0';
        assert target[base..base + at - 1] == all[..at][..at - 1] == all[..at - 1];
      }
    }
  }

  /** The trimmed text as a piece of the untrimmed one. */
  lemma TrimmedIs(prefix: string, tail: seq<nat>)
    requires prefix != "" && InBase(tail, 10)
    ensures
      var all, kept := prefix + TextOf(tail), Kept(tail);
      && kept <= |tail|
      && (kept == |tail| ==> Trimmed(prefix, tail) == all)
      && (kept < |tail| ==>
            var cut := |prefix| + kept;
            Trimmed(prefix, tail) == if all[cut - 1] == '.' then all[..cut - 1] else all[..cut])
  {
    hide HexDigit, TextOf, WithoutTrailingZeros;
    var kept := WithoutTrailingZeros(tail);
    FractionIsDigits(tail);
    assert tail[..|kept|] == kept;
    TextSlices(tail, |kept|);
    if |kept| > 0 {
      LastIsNoPoint(kept);
      assert (prefix + TextOf(tail))[|prefix| + |kept| - 1] == TextOf(tail)[..|kept|][|kept| - 1];
    }
  }

  lemma LastIsNoPoint(digits: seq<nat>)
    requires InBase(digits, 16) && digits != []
    ensures TextOf(digits)[|digits| - 1] != '.'
  {
    hide HexDigit;
    DigitIsNoPoint(digits[|digits| - 1]);
  }

  lemma DigitIsNoPoint(d: nat)
    requires d < 16
    ensures HexDigit(d) != '.'
  {
  }

  /** The room adjustDecimals asks for. */
  function RoomNeeded(n: nat, decimals: nat, isZero: bool): nat {
    if isZero then 2 else if n <= decimals then n + 1 + 2 + (decimals - n) else n + 1 + 1
  }

  /** A terminated text within the given room. */
  ghost predicate Printed(target: array<char>, base: nat, room: nat, text: string)
    requires base + room <= target.Length
    reads target
  {
    |text| < room && target[base..base + |text|] == text && target[base + |text|] == '\0'
  }

  /** adjustDecimals on the digits of a number. */
  method AdjustDecimals(src: string, target: array<char>, base: nat, targetLength: nat, decimals: u8, ghost v: nat)
      returns (ok: bool)
    requires InBase(NumeralOf(v, 10), 16) && src == TextOf(NumeralOf(v, 10)) && |src| < 0x1_0000
    requires base + targetLength <= target.Length
    modifies target
    ensures target[..base] == old(target[..base])
    ensures ok <==> targetLength >= RoomNeeded(|src|, decimals, v == 0)
    ensures ok ==> Printed(target, base, targetLength, AmountText(v, decimals))
  {
    hide NumeralOf, AmountText, Trimmed, Untrimmed, HexDigit;
    var srcLength := |src|;
    NumeralDenotes(v, 10);
    ZeroText(v, decimals);
    if srcLength == 1 && src[0] == '0' {
      if targetLength < 2 {
        return false;
      }
      target[base] := '0';
      target[base + 1] := '\0';
      return true;
    }
    if srcLength <= decimals {
      ok := AdjustShort(src, target, base, targetLength, decimals, v);
    } else {
      ok := AdjustLong(src, target, base, targetLength, decimals, v);
    }
  }

  /** The case of a number below one unit. */
  method AdjustShort(src: string, target: array<char>, base: nat, targetLength: nat, decimals: u8, ghost v: nat)
      returns (ok: bool)
    requires v > 0 && InBase(NumeralOf(v, 10), 16) && src == TextOf(NumeralOf(v, 10)) && |src| <= decimals
    requires base + targetLength <= target.Length
    modifies target
    ensures target[..base] == old(target[..base])
    ensures ok <==> targetLength >= |src| + 1 + 2 + (decimals - |src|)
    ensures ok ==> Printed(target, base, targetLength, AmountText(v, decimals))
  {
    hide NumeralOf, AmountText, Trimmed, HexDigit, TextOf;
    ghost var s := NumeralOf(v, 10);
    TrimmedIsAmount(v, decimals);
    var delta := decimals - |src|;
    if targetLength < |src| + 1 + 2 + delta {
      return false;
    }
    ghost var prefix := "0." + TextOf(Zeros(delta));
    ZeroTextOf(delta);
    assert target[base..base] == "";
    Append(target, base, base, "0.");
    Append(target, base, base + 2, seq(delta, i => '0'));
    var startOffset := 2 + delta;
    Append(target, base, base + startOffset, src);
    var offset := startOffset + |src|;
    target[base + offset] := '\0';
    Trim(target, base, startOffset, offset, prefix, s);
    ok := true;
  }

  /** The digits before the point, and the point if there is to be one. */
  method WriteWhole(target: array<char>, base: nat, whole: string, decimals: u8) returns (offset: nat)
    requires base + |whole| + 1 < target.Length
    modifies target
    ensures target[..base] == old(target[..base]) && base + offset < target.Length
    ensures target[base..base + offset] == whole + if decimals == 0 then "" else "."
  {
    assert target[base..base] == "";
    Append(target, base, base, whole);
    offset := |whole|;
    if decimals != 0 {
      Append(target, base, base + offset, ".");
      offset := offset + 1;
    }
  }

  /** The case of a number with digits before the point. */
  method AdjustLong(src: string, target: array<char>, base: nat, targetLength: nat, decimals: u8, ghost v: nat)
      returns (ok: bool)
    requires v > 0 && InBase(NumeralOf(v, 10), 16) && src == TextOf(NumeralOf(v, 10)) && |src| > decimals
    requires base + targetLength <= target.Length
    modifies target
    ensures target[..base] == old(target[..base])
    ensures ok <==> targetLength >= |src| + 1 + 1
    ensures ok ==> Printed(target, base, targetLength, AmountText(v, decimals))
  {
    hide NumeralOf, AmountText, Trimmed, HexDigit, TextOf;
    ghost var s := NumeralOf(v, 10);
    TrimmedIsAmount(v, decimals);
    var delta := |src| - decimals;
    if targetLength < |src| + 1 + 1 {
      return false;
    }
    TextSlices(s, delta);
    var whole, rest := src[..delta], src[delta..];
    var startOffset := WriteWhole(target, base, whole, decimals);
    ghost var prefix := whole + if decimals == 0 then "" else ".";
    var offset := startOffset;
    Append(target, base, base + offset, rest);
    offset := offset + decimals;
    target[base + offset] := '\0';
    Trim(target, base, startOffset, offset, prefix, s[delta..]);
    ok := true;
  }

  lemma ZeroText(v: nat, k: nat)
    ensures InBase(NumeralOf(v, 10), 10)
    ensures v == 0 <==> TextOf(NumeralOf(v, 10)) == "0"
    ensures v == 0 ==> AmountText(v, k) == "0"
    ensures NumeralOf(v, 10) != []
  {
    hide Value, Digits;
    NumeralDenotes(v, 10);
    ZeroDigit(0);
    assert TextOf([0]) == "0";
    if v == 0 {
      PowPositive(10, k);
      DivStep(0, Pow(10, k), 0);
      FixedDigitsZero(k);
      TrailingZerosAre([], k);
      assert [] + Zeros(k) == Zeros(k);
    } else {
      PositiveNumeral(v);
      ZeroDigit(NumeralOf(v, 10)[0]);
      assert TextOf(NumeralOf(v, 10))[0] == HexDigit(NumeralOf(v, 10)[0]);
    }
  }

  lemma {:induction false} FixedDigitsZero(k: nat)
    ensures FixedDigits(0, 10, k) == Zeros(k)
  {
    if k > 0 {
      FixedDigitsZero(k - 1);
    }
  }

  lemma ZeroTextOf(n: nat)
    ensures TextOf(Zeros(n)) == seq(n, i => '0')
  {
  }

  lemma TextSlices(s: seq<nat>, n: nat)
    requires InBase(s, 16) && n <= |s|
    ensures InBase(s[..n], 16) && InBase(s[n..], 16)
    ensures TextOf(s)[..n] == TextOf(s[..n]) && TextOf(s)[n..] == TextOf(s[n..])
  {
  }

  // ---- uint256_to_decimal ----

  const INT256_LENGTH := 32
  const LIMBS := 16

  function Limb(high: u8, low: u8): u16 {
    (high as int) * 0x100 + low
  }

  /** 16-bit limbs of an even number of big-endian bytes. */
  function Pairs(bytes: seq<u8>): (limbs: seq<u16>)
    requires |bytes| % 2 == 0
    ensures |limbs| == |bytes| / 2
  {
    if bytes == [] then [] else Pairs(bytes[..|bytes| - 2]) + [Limb(bytes[|bytes| - 2], bytes[|bytes| - 1])]
  }

  lemma {:induction false} PairsValue(bytes: seq<u8>)
    requires |bytes| % 2 == 0
    ensures InBase(Pairs(bytes), 0x1_0000) && Value(Pairs(bytes), 0x1_0000) == Value(bytes, 0x100)
  {
    if bytes != [] {
      var n := |bytes| - 2;
      PairsValue(bytes[..n]);
      ValueAppend(Pairs(bytes[..n]), Limb(bytes[n], bytes[n + 1]), 0x1_0000);
      assert bytes[..n + 1][..n] == bytes[..n];
      assert bytes == (bytes[..n] + [bytes[n]]) + [bytes[n + 1]];
      ValueAppend(bytes[..n], bytes[n], 0x100);
      ValueAppend(bytes[..n] + [bytes[n]], bytes[n + 1], 0x100);
    }
  }

  lemma {:induction false} PairsAt(bytes: seq<u8>, i: nat)
    requires |bytes| % 2 == 0 && 2 * i + 1 < |bytes|
    ensures Pairs(bytes)[i] == Limb(bytes[2 * i], bytes[2 * i + 1])
  {
    if 2 * i + 2 < |bytes| {
      PairsAt(bytes[..|bytes| - 2], i);
    }
  }

  /** The limbs of a number of at most 32 bytes: right-aligned, and each turned to its value. */
  method LoadLimbs(value: seq<u8>) returns (n: array<u16>)
    requires |value| <= INT256_LENGTH
    ensures fresh(n) && n.Length == LIMBS && InBase(n[..], 0x1_0000)
    ensures Value(n[..], 0x1_0000) == Value(value, 0x100)
  {
    hide Value, Limb, Pairs, InBase;
    ghost var z := INT256_LENGTH - |value|;
    var bytes := seq<u8>(INT256_LENGTH - |value|, i => 0) + value;
    n := new u16[LIMBS](_ => 0);
    for i := 0 to LIMBS
      invariant forall k :: 0 <= k < i ==> n[k] == Pairs(bytes)[k]
    {
      PairsAt(bytes, i);
      n[i] := Limb(bytes[2 * i], bytes[2 * i + 1]);
    }
    assert n[..] == Pairs(bytes);
    PairsValue(bytes);
    assert bytes == Zeros(z) + value;
    ValueSkipsZeros(z, value, 0x100);
  }

  /** allzeroes on the limbs. */
  method AllZeroes(n: array<u16>) returns (zero: bool)
    requires InBase(n[..], 0x1_0000)
    ensures zero <==> Value(n[..], 0x1_0000) == 0
  {
    hide Value;
    ghost var k := 0;
    for i := 0 to n.Length
      invariant n[..i] == Zeros(i)
    {
      if n[i] != 0 {
        NotZero(n[..], i);
        return false;
      }
    }
    assert n[..n.Length] == n[..];
    ValueZeros(n.Length, 0x1_0000);
    zero := true;
  }

  lemma NotZero(s: seq<nat>, i: nat)
    requires i < |s| && s[i] != 0 && s[..i] == Zeros(i)
    ensures Value(s, 0x1_0000) != 0
  {
    assert s == Zeros(i) + s[i..];
    ValueSkipsZeros(i, s[i..], 0x1_0000);
    ValueAtLeast(s[i..], 0x1_0000);
    PowPositive(0x1_0000, |s[i..]| - 1);
  }

  lemma LimbQuotient(dividend: nat, carry: nat, limb: nat)
    requires carry < 10 && limb < 0x1_0000 && dividend == carry * 0x1_0000 + limb
    ensures dividend / 10 < 0x1_0000 && dividend % 10 < 10 && carry * 0x1_0000 + limb == 10 * (dividend / 10) + dividend % 10
  {
  }

  /** The division loop: the number is divided by ten in place. */
  method DivideByTen(n: array<u16>) returns (carry: nat)
    requires InBase(n[..], 0x1_0000)
    modifies n
    ensures InBase(n[..], 0x1_0000) && carry == Value(old(n[..]), 0x1_0000) % 10
    ensures Value(n[..], 0x1_0000) == Value(old(n[..]), 0x1_0000) / 10
  {
    hide Value, Divided, InBase;
    ghost var before := n[..];
    carry := 0;
    NothingDivided(0x1_0000, 10);
    assert before[..0] == n[..0] == [];
    for i := 0 to n.Length
      invariant carry < 10 && n[i..] == before[i..]
      invariant Divided(before[..i], n[..i], 0x1_0000, 10, carry)
    {
      var dividend := carry * 0x1_0000 + n[i];
      assert n[i] == before[i];
      LimbQuotient(dividend, carry, n[i]);
      DivideDigit(before[..i], n[..i], 0x1_0000, 10, carry, before[i], dividend / 10, dividend % 10);
      assert before[..i + 1] == before[..i] + [before[i]];
      ghost var done := n[..i];
      n[i] := dividend / 10;
      carry := dividend % 10;
      assert n[..i + 1] == done + [n[i]];
    }
    assert before[..n.Length] == before && n[..n.Length] == n[..];
    DividedIs(before, n[..], 0x1_0000, 10, carry);
    QuotientInBase(before, n[..], carry);
  }

  lemma QuotientInBase(t: seq<nat>, t': seq<nat>, carry: nat)
    requires Divided(t, t', 0x1_0000, 10, carry)
    ensures InBase(t', 0x1_0000)
  {
  }

  /** A number of at most 32 bytes has at most 78 digits. */
  lemma AtMost78Digits(value: seq<u8>)
    requires |value| <= INT256_LENGTH
    ensures |NumeralOf(Value(value, 0x100), 10)| <= 78
  {
    hide Value, Digits;
    var v := Value(value, 0x100);
    ValueBound(value, 0x100);
    PowMonotone(0x100, |value|, INT256_LENGTH);
    Bits256Fit();
    DigitsLength(v, 10, 78);
  }

  lemma Bits256Fit()
    ensures Pow(0x100, 32) < Pow(10, 78)
  {
    hide Pow;
    Bits128Fit();
    PowAdd(0x100, 16, 16);
    PowAdd(10, 39, 39);
    SquaresLess(Pow(0x100, 16), Pow(10, 39));
  }

  lemma SquaresLess(x: nat, y: nat)
    requires x < y
    ensures x * x < y * y
  {
    MulMonotone(x, y, x);
    ProductBelow(x, y, 0, y);
  }

  lemma Bits128Fit()
    ensures Pow(0x100, 16) < Pow(10, 39)
  {
    BytePowers();
    TenPowers();
  }

  lemma BytePowers()
    ensures Pow(0x100, 16) == 340_282_366_920_938_463_463_374_607_431_768_211_456
  {
    assert Pow(0x100, 2) == 0x1_0000;
    PowAdd(0x100, 2, 2);
    PowAdd(0x100, 4, 4);
    PowAdd(0x100, 8, 8);
  }

  lemma TenPowers()
    ensures Pow(10, 39) == 1_000_000_000_000_000_000_000_000_000_000_000_000_000
  {
    assert Pow(10, 3) == 1000;
    PowAdd(10, 3, 3);
    PowAdd(10, 6, 6);
    PowAdd(10, 12, 1);
    PowAdd(10, 13, 13);
    PowAdd(10, 26, 13);
    assert Pow(10, 1) == 10;
  }

  /** The digits still to come, and those written from the end. */
  ghost predicate Pending(v: nat, rest: nat, written: string) {
    && v > 0 && InBase(Digits(v, 10), 16) && InBase(Digits(rest, 10), 16)
    && TextOf(Digits(v, 10)) == TextOf(Digits(rest, 10)) + written
  }

  lemma PendingStarts(v: nat)
    requires v > 0
    ensures Pending(v, v, "")
  {
    DigitsDenote(v, 10);
  }

  lemma PendingStep(v: nat, rest: nat, written: string)
    requires Pending(v, rest, written) && rest > 0
    ensures rest % 10 < 16 && Pending(v, rest / 10, [HexDigit(rest % 10)] + written)
  {
    hide HexDigit, TextOf;
    DigitsDenote(rest / 10, 10);
    LastDigit(rest, 10);
    TextOfBoth(Digits(rest / 10, 10), [rest % 10]);
    OneDigitText(rest % 10);
    assert TextOf(Digits(rest, 10)) + written == TextOf(Digits(rest / 10, 10)) + ([HexDigit(rest % 10)] + written);
  }

  lemma OneDigitText(d: nat)
    requires d < 16
    ensures TextOf([d]) == [HexDigit(d)]
  {
  }

  lemma PendingLength(v: nat, rest: nat, written: string)
    requires Pending(v, rest, written)
    ensures NumeralOf(v, 10) == Digits(v, 10) && InBase(NumeralOf(v, 10), 16)
    ensures rest > 0 ==> |NumeralOf(v, 10)| > |written|
    ensures rest == 0 ==> written == TextOf(NumeralOf(v, 10))
  {
  }

  /** The digit loop of uint256_to_decimal, from the end of the buffer. */
  method WriteFromEnd(n: array<u16>, out: array<char>, outLen: nat, ghost v: nat) returns (ok: bool, pos: nat)
    requires InBase(n[..], 0x1_0000) && v == Value(n[..], 0x1_0000) > 0 && outLen <= out.Length
    modifies n, out
    ensures pos <= outLen && InBase(NumeralOf(v, 10), 16)
    ensures ok <==> |NumeralOf(v, 10)| <= outLen
    ensures ok ==> out[pos..outLen] == TextOf(NumeralOf(v, 10))
  {
    hide Value, Pending, InBase, NumeralOf;
    pos := outLen;
    PendingStarts(v);
    assert out[pos..outLen] == "";
    var zero := AllZeroes(n);
    while !zero
      invariant pos <= outLen && InBase(n[..], 0x1_0000) && (zero <==> Value(n[..], 0x1_0000) == 0)
      invariant Pending(v, Value(n[..], 0x1_0000), out[pos..outLen])
      decreases Value(n[..], 0x1_0000)
    {
      ghost var rest, written := Value(n[..], 0x1_0000), out[pos..outLen];
      if pos == 0 {
        PendingLength(v, rest, written);
        return false, pos;
      }
      pos := pos - 1;
      PendingStep(v, rest, written);
      var carry := DivideByTen(n);
      out[pos] := '0' + carry as char;
      assert out[pos..outLen] == [HexDigit(rest % 10)] + written;
      zero := AllZeroes(n);
    }
    PendingLength(v, 0, out[pos..outLen]);
    ok := true;
  }

  /**
   uint256_to_decimal.  The terminator goes after the digits, so the buffer is longer than
   outLen or, as at its one caller, than any number.
   */
  method Uint256ToDecimal(value: seq<u8>, out: array<char>, outLen: nat) returns (ok: bool)
    requires outLen < out.Length || (79 <= outLen == out.Length)
    modifies out
    ensures
      var v := Value(value, 0x100);
      ok <==> |value| <= INT256_LENGTH && (if v == 0 then 2 else |NumeralOf(v, 10)|) <= outLen
    ensures ok ==>
      var digits := NumeralOf(Value(value, 0x100), 10);
      InBase(digits, 16) && |digits| < out.Length && out[..|digits|] == TextOf(digits) && out[|digits|] == '\0'
  {
    hide Value, NumeralOf, TextOf;
    if |value| > INT256_LENGTH {
      return false;
    }
    var n := LoadLimbs(value);
    ghost var v := Value(value, 0x100);
    AtMost78Digits(value);
    var zero := AllZeroes(n);
    if zero {
      if outLen < 2 {
        return false;
      }
      out[0] := '0';
      out[1] := '\0';
      ZeroIsOneDigit();
      return true;
    }
    var pos;
    ok, pos := WriteFromEnd(n, out, outLen, v);
    if !ok {
      return;
    }
    var length := outLen - pos;
    forall i | 0 <= i < length {
      out[i] := out[pos + i];
    }
    out[length] := '\0';
  }

  lemma ZeroIsOneDigit()
    ensures NumeralOf(0, 10) == [0] && TextOf([0]) == "0"
  {
  }

  // ---- amountToString and value_to_string ----

  const MAX_TICKER_LEN := 12
  const WEI_TO_ETHER := 18

  /** strnlen of a terminated text in a buffer. */
  method StrnLen(buffer: array<char>, ghost text: string) returns (n: nat)
    requires |text| < buffer.Length && buffer[..|text|] == text && buffer[|text|] == '\0' && '\0' !in text
    ensures n == |text|
  {
    n := 0;
    while n < buffer.Length && buffer[n] != '\0'
      invariant n <= |text|
    {
      assert n == |text| || buffer[n] == text[n];
      n := n + 1;
    }
  }

  lemma DigitsHaveNoTerminator(digits: seq<nat>)
    requires InBase(digits, 16)
    ensures '\0' !in TextOf(digits)
  {
  }

  /** What a 12-character limit leaves of the ticker. */
  function TickerPart(ticker: string): (shown: string)
    ensures |shown| <= MAX_TICKER_LEN
  {
    if |ticker| <= MAX_TICKER_LEN then ticker else ticker[..MAX_TICKER_LEN]
  }

  /** How amountToString ends; Outside means that its next write is at a position after the end of the buffer. */
  datatype AmountResult = Refused | Written | Outside(at: nat)

  /** The room left after the ticker wraps around for a buffer no longer than the ticker, and no amount is refused. */
  lemma WrappedRoomSuffices(amount: seq<u8>, decimals: u8, size: nat, tickerLength: nat)
    requires |amount| <= INT256_LENGTH && size <= tickerLength <= MAX_TICKER_LEN
    ensures
      var v := Value(amount, 0x100);
      Wrap32(size - tickerLength - 1) >= RoomNeeded(|NumeralOf(v, 10)|, decimals, v == 0)
  {
    hide Value, NumeralOf;
    AtMost78Digits(amount);
    assert Wrap32(size - tickerLength - 1) == 0x1_0000_0000 + (size - tickerLength - 1);
  }

  /** amountToString: the ticker, and exactly the amount in its units. */
  method AmountToString(amount: seq<u8>, decimals: u8, ticker: string, outBuffer: array<char>) returns (r: AmountResult)
    requires outBuffer.Length <= U32_MAX
    modifies outBuffer
    ensures r.Outside? <==> |amount| <= INT256_LENGTH && outBuffer.Length <= |TickerPart(ticker)|
    ensures r.Outside? ==> r.at == |TickerPart(ticker)| && outBuffer[..] == TickerPart(ticker)[..outBuffer.Length]
    ensures
      var v := Value(amount, 0x100);
      r.Written? <==> |amount| <= INT256_LENGTH
                      && |TickerPart(ticker)| + 1 + RoomNeeded(|NumeralOf(v, 10)|, decimals, v == 0) <= outBuffer.Length
    ensures r.Written? ==>
      Printed(outBuffer, 0, outBuffer.Length, TickerPart(ticker) + AmountText(Value(amount, 0x100), decimals))
  {
    hide Value, NumeralOf, AmountText, TextOf, TickerPart, RoomNeeded, Wrap32;
    var tmpBuffer := new char[100](_ => '\0');
    var ok := Uint256ToDecimal(amount, tmpBuffer, 100);
    ghost var v := Value(amount, 0x100);
    if |amount| <= INT256_LENGTH {
      AtMost78Digits(amount);
    }
    if !ok {
      return Refused;
    }
    ghost var digits := NumeralOf(v, 10);
    DigitsHaveNoTerminator(digits);
    var amountLen := StrnLen(tmpBuffer, TextOf(digits));
    var shown := TickerPart(ticker);
    var copied := if outBuffer.Length < |shown| then outBuffer.Length else |shown|;
    assert outBuffer[0..0] == "";
    Append(outBuffer, 0, 0, shown[..copied]);
    var targetLength := Wrap32(outBuffer.Length - |shown| - 1);
    if outBuffer.Length <= |shown| {
      // adjustDecimals takes targetLength for room and starts writing at the end of the ticker.
      WrappedRoomSuffices(amount, decimals, outBuffer.Length, |shown|);
      assert targetLength >= RoomNeeded(|digits|, decimals, v == 0);
      return Outside(|shown|);
    }
    WrapSmall(outBuffer.Length - |shown| - 1);
    ok := AdjustDecimals(tmpBuffer[..amountLen], outBuffer, |shown|, targetLength, decimals, v);
    if !ok {
      return Refused;
    }
    outBuffer[outBuffer.Length - 1] := '\0';
    BothPrinted(outBuffer, shown, AmountText(v, decimals));
    r := Written;
  }

  lemma BothPrinted(buffer: array<char>, first: string, second: string)
    requires |first| + |second| < buffer.Length && buffer[..|first|] == first
    requires buffer[|first|..|first| + |second|] == second && buffer[|first| + |second|] == '\0'
    ensures Printed(buffer, 0, buffer.Length, first + second)
  {
    assert buffer[0..|first + second|] == buffer[..|first|] + buffer[|first|..|first| + |second|];
  }

  /** snprintf of a text already put together. */
  method PrintInto(text: string, buffer: array<char>)
    requires 0 < buffer.Length
    modifies buffer
    ensures
      var m := if |text| < buffer.Length then |text| else buffer.Length - 1;
      buffer[..m] == text[..m] && buffer[m] == '\0'
  {
    var m := if |text| < buffer.Length then |text| else buffer.Length - 1;
    assert buffer[0..0] == "";
    Append(buffer, 0, 0, text[..m]);
    assert buffer[0..m] == buffer[..m];
    buffer[m] := '\0';
  }

  /** value_to_string: the ticker, a space and the value in ether, as far as the buffer goes. */
  method ValueToString(feeTicker: string, rawFee: Words, displayBuffer: array<char>)
    requires rawFee.Valid() && 0 < displayBuffer.Length
    modifies displayBuffer
    ensures
      var text := feeTicker + " " + AmountText(rawFee.Value(), WEI_TO_ETHER);
      var m := if |text| < displayBuffer.Length then |text| else displayBuffer.Length - 1;
      displayBuffer[..m] == text[..m] && displayBuffer[m] == '\0'
  {
    hide Value, NumeralOf, AmountText, TextOf, Words.Value;
    ghost var v := rawFee.Value();
    WordsAreShort(rawFee);
    var buf := new char[100](_ => '\0');
    var buf2 := new char[100](_ => '\0');
    var printed := ToString256(rawFee, 10, buf, 100);
    ghost var digits := NumeralOf(v, 10);
    DigitsHaveNoTerminator(digits);
    var length := StrnLen(buf, TextOf(digits));
    var adjusted := AdjustDecimals(buf[..length], buf2, 0, 100, WEI_TO_ETHER, v);
    ghost var text := AmountText(v, WEI_TO_ETHER);
    AmountHasNoTerminator(v, WEI_TO_ETHER);
    assert buf2[..|text|] == buf2[0..0 + |text|];
    var length2 := StrnLen(buf2, text);
    PrintInto(feeTicker + " " + buf2[..length2], displayBuffer);
    displayBuffer[displayBuffer.Length - 1] := '\0';
  }

  lemma WordsAreShort(w: Words)
    ensures |NumeralOf(w.Value(), 10)| <= 78
  {
    hide Digits;
    WordBound(w.Value());
    DigitsLength(w.Value(), 10, 78);
  }

  lemma WordBound(v: nat)
    requires v < W256
    ensures v < Pow(10, 78)
  {
    Bits256Fit();
    BytePowers();
    PowAdd(0x100, 16, 16);
  }

  lemma AmountHasNoTerminator(v: nat, k: nat)
    ensures '\0' !in AmountText(v, k)
  {
    hide IntDigits, FracDigits, TextOf;
    DigitsOfAmount(v, k);
    DigitsHaveNoTerminator(IntDigits(v, k));
    DigitsHaveNoTerminator(FracDigits(v, k));
  }
}
