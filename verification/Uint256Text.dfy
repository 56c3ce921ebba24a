/** Printing a uint256_t in base 2 to 16, vm/src/uint256.c. */
module Uint256Text {
  import opened Machine
  import opened Numerals
  import opened NumeralText
  import opened Uint128
  import opened Uint256

  function Reversed(s: string): (r: string)
    ensures |r| == |s|
  {
    seq(|s|, i requires 0 <= i < |s| => s[|s| - 1 - i])
  }

  /** reverseString: swaps from both ends. */
  method ReverseString(str: array<char>, length: u32)
    requires 0 < length <= str.Length
    modifies str
    ensures str[..length] == Reversed(old(str[..length])) && str[length..] == old(str[length..])
  {
    var i: u32, j: u32 := 0, length - 1;
    while i < j
      invariant i <= j + 1 && i + j == length - 1
      invariant forall k :: i <= k <= j ==> str[k] == old(str[k])
      invariant forall k :: 0 <= k < length && !(i <= k <= j) ==> str[k] == old(str[length - 1 - k])
      invariant forall k :: length <= k < str.Length ==> str[k] == old(str[k])
    {
      str[i], str[j] := str[j], str[i];
      i, j := i + 1, j - 1;
    }
  }

  /** Some digits are written, last one first, and `rest` still has to be. */
  ghost predicate Writing(v: nat, b: nat, rest: nat, written: string)
    requires b >= 2
  {
    && InBase(Digits(rest, b), 16) && InBase(NumeralOf(v, b), 16)
    && TextOf(Digits(rest, b)) + Reversed(written) == TextOf(NumeralOf(v, b))
  }

  lemma Appends(s: seq<nat>, d: nat, text: string)
    requires InBase(s, 16) && d < 16
    ensures InBase(s + [d], 16)
    ensures TextOf(s + [d]) + Reversed(text) == TextOf(s) + Reversed(text + [HexDigit(d)])
  {
    assert Reversed(text + [HexDigit(d)]) == [HexDigit(d)] + Reversed(text);
    assert TextOf(s + [d]) == TextOf(s) + [HexDigit(d)];
  }

  lemma InSixteen(s: seq<nat>, b: nat)
    requires InBase(s, b) && b <= 16
    ensures InBase(s, 16)
  {
  }

  lemma WriteDigit(v: nat, b: nat, rest: nat, written: string)
    requires 2 <= b <= 16
    requires if written == "" then rest == v else rest > 0 && Writing(v, b, rest, written)
    ensures rest % b < 16 && Writing(v, b, rest / b, written + [HexDigit(rest % b)])
  {
    hide TextOf, Reversed, HexDigit, InBase, Digits, NumeralOf;
    LastDigit(rest, b);
    NumeralDenotes(v, b);
    InSixteen(NumeralOf(v, b), b);
    DigitsDenote(rest / b, b);
    InSixteen(Digits(rest / b, b), b);
    Appends(Digits(rest / b, b), rest % b, written);
    if written == "" {
      ReversedNothing(TextOf(NumeralOf(v, b)));
    }
  }

  lemma ReversedNothing(text: string)
    ensures text + Reversed("") == text
  {
  }

  lemma WritingLength(v: nat, b: nat, rest: nat, written: string)
    requires b >= 2 && Writing(v, b, rest, written)
    ensures |NumeralOf(v, b)| == |Digits(rest, b)| + |written|
    ensures rest > 0 ==> |NumeralOf(v, b)| > |written|
    ensures rest == 0 ==> InBase(NumeralOf(v, b), 16) && Reversed(written) == TextOf(NumeralOf(v, b))
  {
  }

  lemma DigitWord(w: Words)
    requires w.Value() < 16
    ensures w.lower.lower as int % 0x100 == w.Value()
  {
  }

  lemma LowWord(w: Words, x: u64)
    requires w.upper.Value() == 0 && w.lower.upper == 0 && w.lower.lower == x
    ensures w.Value() == x
  {
  }

  lemma ClearedUpper(w: Words)
    requires w.Value() == 0
    ensures w.upper.Value() == 0
  {
  }

  /** What is left in rDiv, and what has been written, at the loop head of tostring256_implem. */
  ghost predicate PartWritten(v: nat, b: nat, rest: nat, written: string)
    requires b >= 2
  {
    if written == "" then rest == v else rest > 0 && Writing(v, b, rest, written)
  }

  lemma PartIsShort(v: nat, b: nat, rest: nat, written: string)
    requires b >= 2 && PartWritten(v, b, rest, written)
    ensures |NumeralOf(v, b)| > |written|
  {
    if written != "" {
      WritingLength(v, b, rest, written);
    } else {
      LastDigit(v, b);
    }
  }

  /** One digit: divides in place and writes the remainder. */
  method WriteOne(rDiv: Words, base: Words, rMod: Words, out: array<char>, offset: u32, ghost v: nat)
    requires rDiv.Valid() && base.Valid() && rMod.Valid() && rDiv.Parts() !! base.Parts() !! rMod.Parts()
    requires 2 <= base.Value() <= 16 && offset < out.Length
    requires PartWritten(v, base.Value(), rDiv.Value(), out[..offset])
    modifies rDiv.Parts(), rMod.Parts(), out
    ensures Writing(v, base.Value(), rDiv.Value(), out[..offset + 1])
  {
    hide Words.Value, Writing, HexDigit;
    ghost var rest, written := rDiv.Value(), out[..offset];
    WriteDigit(v, base.Value(), rest, written);
    DivMod256(rDiv, base, rDiv, rMod);
    DigitWord(rMod);
    out[offset] := HexDigit(rMod.lower.lower as int % 0x100);
    assert out[..offset + 1] == written + [HexDigit(rest % base.Value())];
  }

  /** The loop of tostring256_implem: least significant digit first. */
  method WriteDigits(rDiv: Words, base: Words, rMod: Words, out: array<char>, outLength: u32, ghost v: nat, ghost b: nat)
      returns (ok: bool, offset: u32)
    requires rDiv.Valid() && base.Valid() && rMod.Valid() && rDiv.Parts() !! base.Parts() !! rMod.Parts()
    requires 2 <= b <= 16 && base.Value() == b && rDiv.Value() == v && 0 < outLength <= out.Length
    modifies rDiv.Parts(), rMod.Parts(), out
    ensures offset <= outLength
    ensures ok ==> offset > 0 && Writing(v, b, 0, out[..offset])
    ensures !ok ==> |NumeralOf(v, b)| > outLength
  {
    hide Words.Value, Writing, NumeralOf;
    offset := 0;
    while true
      invariant base.Value() == b && offset <= outLength && PartWritten(v, b, rDiv.Value(), out[..offset])
      decreases outLength - offset
    {
      if offset > outLength - 1 {
        PartIsShort(v, b, rDiv.Value(), out[..offset]);
        return false, offset;
      }
      WriteOne(rDiv, base, rMod, out, offset, v);
      offset := offset + 1;
      if rDiv.IsZero() {
        return true, offset;
      }
    }
  }

  /** The base as a 256-bit number. */
  method SetBase(base: Words, baseParam: u32)
    requires base.Valid()
    modifies base.upper, base.lower
    ensures base.Valid() && base.Value() == baseParam
  {
    hide Words.Value;
    Clear256(base);
    ClearedUpper(base);
    base.lower.upper := 0;
    base.lower.lower := baseParam;
    LowWord(base, baseParam);
  }

  /**
   tostring256_implem.  The terminator goes after the digits, so the buffer is longer than
   outLength or than the digits.
   */
  method ToString256(number: Words, baseParam: u32, out: array<char>, outLength: u32) returns (ok: bool)
    requires number.Valid() && 0 < outLength <= out.Length
    requires outLength < out.Length || (2 <= baseParam ==> |NumeralOf(number.Value(), baseParam)| < out.Length)
    modifies out
    ensures ok <==> 2 <= baseParam <= 16 && |NumeralOf(number.Value(), baseParam)| <= outLength
    ensures ok ==>
      var digits := NumeralOf(number.Value(), baseParam);
      InBase(digits, 16) && out[..|digits|] == TextOf(digits) && out[|digits|] == '\0'
  {
    hide Words.Value, Writing, NumeralOf, TextOf, Join, Reversed, InBase;
    var rDiv := new Words();
    var rMod := new Words();
    var base := new Words();
    Copy256(rDiv, number);
    Clear256(rMod);
    SetBase(base, baseParam);
    if baseParam < 2 || baseParam > 16 {
      return false;
    }
    var offset;
    ok, offset := WriteDigits(rDiv, base, rMod, out, outLength, number.Value(), baseParam);
    if !ok {
      return;
    }
    WritingLength(number.Value(), baseParam, 0, out[..offset]);
    out[offset] := '\0';
    ReverseString(out, offset);
  }
}
