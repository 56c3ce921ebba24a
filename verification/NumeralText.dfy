/** Numbers as text in base 2 to 16. */
module NumeralText {
  import opened Machine
  import opened Numerals

  function HexDigit(d: nat): char
    requires d < 16
  {
    if d < 10 then '0' + d as char else 'a' + (d - 10) as char
  }

  /** The digits of a number, most significant first; zero is "0". */
  function NumeralOf(v: nat, b: nat): (s: seq<nat>)
    requires b >= 2
  {
    if v == 0 then [0] else Digits(v, b)
  }

  /** Digits that denote v, with no superfluous zero in front. */
  predicate IsNumeral(s: seq<nat>, v: nat, b: nat) {
    s != [] && InBase(s, b) && Value(s, b) == v && (s[0] == 0 ==> |s| == 1)
  }

  /** The numeral written by tostring256_implem is the only one without superfluous zeros that denotes the number. */
  lemma NumeralDenotes(v: nat, b: nat)
    requires b >= 2
    ensures IsNumeral(NumeralOf(v, b), v, b)
    ensures forall t :: IsNumeral(t, v, b) ==> t == NumeralOf(v, b)
  {
    DigitsDenote(v, b);
    ZeroNumeral(b);
    forall t | IsNumeral(t, v, b)
      ensures t == NumeralOf(v, b)
    {
      OnlyNumeral(t, v, b);
    }
  }

  lemma ZeroNumeral(b: nat)
    ensures Value([0], b) == 0
  {
    assert [0][..0] == [];
  }

  lemma OnlyNumeral(t: seq<nat>, v: nat, b: nat)
    requires b >= 2 && IsNumeral(t, v, b)
    ensures t == NumeralOf(v, b)
  {
    if t[0] == 0 {
      assert t == [0];
      ZeroNumeral(b);
    } else {
      ValueAtLeast(t, b);
      PowPositive(b, |t| - 1);
      DigitsUnique(t, b);
    }
  }

  function TextOf(digits: seq<nat>): (text: string)
    requires InBase(digits, 16)
    ensures |text| == |digits|
  {
    seq(|digits|, i requires 0 <= i < |digits| => HexDigit(digits[i]))
  }

  lemma LastDigit(v: nat, b: nat)
    requires b >= 2
    ensures v % b < b && NumeralOf(v, b) == Digits(v / b, b) + [v % b]
    ensures v > 0 ==> Digits(v, b) == Digits(v / b, b) + [v % b]
  {
    if v == 0 {
      DivStep(0, b, 0);
    }
  }
}
