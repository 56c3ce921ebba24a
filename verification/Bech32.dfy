/** Bech32 and Bech32m strings, app/app-swap/src/btc/segwit.c (BIP-173, BIP-350). */
module Bech32 {
  import opened Machine

  type Five = v: int | 0 <= v < 32

  datatype Encoding = NoEncoding | PlainBech32 | Bech32m

  // ---- The checksum ----

  /** bech32_polymod_step. */
  function Step(pre: bv32): bv32 {
    Shifted(pre) ^ Feedback(pre, 25, 0x3b6a57b2) ^ Feedback(pre, 26, 0x26508e6d) ^ Feedback(pre, 27, 0x1ea119fa)
    ^ Feedback(pre, 28, 0x3d4233dd) ^ Feedback(pre, 29, 0x2a1462b3)
  }

  function Shifted(pre: bv32): bv32 {
    (pre & 0x1FF_FFFF) << 5
  }

  /** One generator, if its bit is set. */
  function Feedback(pre: bv32, bit: bv5, generator: bv32): bv32 {
    if (pre >> bit) & 1 == 1 then generator else 0
  }

  function Xor32(x: bv32, y: bv32): bv32 {
    x ^ y
  }

  /** The step, written with one operator. */
  function Terms(pre: bv32): bv32 {
    Xor32(Xor32(Xor32(Xor32(Xor32(Shifted(pre), Feedback(pre, 25, 0x3b6a57b2)), Feedback(pre, 26, 0x26508e6d)),
                      Feedback(pre, 27, 0x1ea119fa)), Feedback(pre, 28, 0x3d4233dd)), Feedback(pre, 29, 0x2a1462b3))
  }

  lemma StepIsTerms(pre: bv32)
    ensures Step(pre) == Terms(pre)
  {
    hide Shifted, Feedback;
  }

  lemma FeedbackLinear(x: bv32, y: bv32, bit: bv5, generator: bv32)
    ensures Feedback(Xor32(x, y), bit, generator) == Xor32(Feedback(x, bit, generator), Feedback(y, bit, generator))
  {
    BitOfXor(x, y, bit);
    BitCases(x >> bit);
    BitCases(y >> bit);
  }

  lemma BitOfXor(x: bv32, y: bv32, bit: bv5)
    ensures ((x ^ y) >> bit) & 1 == ((x >> bit) & 1) ^ ((y >> bit) & 1)
  {
  }

  lemma BitCases(x: bv32)
    ensures x & 1 == 0 || x & 1 == 1
  {
  }

  lemma ShiftedLinear(x: bv32, y: bv32)
    ensures Shifted(Xor32(x, y)) == Xor32(Shifted(x), Shifted(y))
  {
  }

  lemma PairBits(a: bv32, b: bv32, c: bv32, d: bv32)
    ensures (a ^ b) ^ (c ^ d) == (a ^ c) ^ (b ^ d)
  {
  }

  lemma Pair(a: bv32, b: bv32, c: bv32, d: bv32)
    ensures Xor32(Xor32(a, b), Xor32(c, d)) == Xor32(Xor32(a, c), Xor32(b, d))
  {
    hide Xor32;
    PairBits(a, b, c, d);
    PairTerm(a, b, c, d);
    PairTerm(a, c, b, d);
  }

  lemma PairTerm(a: bv32, b: bv32, c: bv32, d: bv32)
    ensures Xor32(Xor32(a, b), Xor32(c, d)) == (a ^ b) ^ (c ^ d)
  {
  }

  /** One more generator. */
  lemma AddFeedback(x: bv32, y: bv32, x': bv32, y': bv32, z: bv32, bit: bv5, generator: bv32)
    requires z == Xor32(x', y')
    ensures
      Xor32(z, Feedback(Xor32(x, y), bit, generator))
      == Xor32(Xor32(x', Feedback(x, bit, generator)), Xor32(y', Feedback(y, bit, generator)))
  {
    hide Xor32, Feedback;
    FeedbackLinear(x, y, bit, generator);
    Pair(x', y', Feedback(x, bit, generator), Feedback(y, bit, generator));
  }

  /** The step is linear over exclusive or. */
  lemma StepLinear(x: bv32, y: bv32)
    ensures Step(Xor32(x, y)) == Xor32(Step(x), Step(y))
  {
    hide Feedback, Shifted, Step, Xor32;
    StepIsTerms(x);
    StepIsTerms(y);
    StepIsTerms(Xor32(x, y));
    ShiftedLinear(x, y);
    var a, b, z := Shifted(x), Shifted(y), Shifted(Xor32(x, y));
    AddFeedback(x, y, a, b, z, 25, 0x3b6a57b2);
    a, b := Xor32(a, Feedback(x, 25, 0x3b6a57b2)), Xor32(b, Feedback(y, 25, 0x3b6a57b2));
    z := Xor32(z, Feedback(Xor32(x, y), 25, 0x3b6a57b2));
    AddFeedback(x, y, a, b, z, 26, 0x26508e6d);
    a, b := Xor32(a, Feedback(x, 26, 0x26508e6d)), Xor32(b, Feedback(y, 26, 0x26508e6d));
    z := Xor32(z, Feedback(Xor32(x, y), 26, 0x26508e6d));
    AddFeedback(x, y, a, b, z, 27, 0x1ea119fa);
    a, b := Xor32(a, Feedback(x, 27, 0x1ea119fa)), Xor32(b, Feedback(y, 27, 0x1ea119fa));
    z := Xor32(z, Feedback(Xor32(x, y), 27, 0x1ea119fa));
    AddFeedback(x, y, a, b, z, 28, 0x3d4233dd);
    a, b := Xor32(a, Feedback(x, 28, 0x3d4233dd)), Xor32(b, Feedback(y, 28, 0x3d4233dd));
    z := Xor32(z, Feedback(Xor32(x, y), 28, 0x3d4233dd));
    AddFeedback(x, y, a, b, z, 29, 0x2a1462b3);
  }

  /** On 30-bit states the step loses nothing. */
  lemma StepInjective(x: bv32)
    requires x < 0x4000_0000 && Step(x) == 0
    ensures x == 0
  {
  }

  lemma StepBound(x: bv32)
    ensures Step(x) < 0x4000_0000
  {
  }

  lemma StepSmall(x: bv32)
    requires x < 0x200_0000
    ensures Step(x) == ShiftLeft5(x)
  {
  }

  function Charset(v: Five): char {
    match v
    case 0 => 'q' case 1 => 'p' case 2 => 'z' case 3 => 'r' case 4 => 'y' case 5 => '9' case 6 => 'x' case 7 => '8'
    case 8 => 'g' case 9 => 'f' case 10 => '2' case 11 => 't'
    case 12 => 'v' case 13 => 'd' case 14 => 'w' case 15 => '0'
    case 16 => 's' case 17 => '3' case 18 => 'j' case 19 => 'n'
    case 20 => '5' case 21 => '4' case 22 => 'k' case 23 => 'h'
    case 24 => 'c' case 25 => 'e' case 26 => '6' case 27 => 'm'
    case 28 => 'u' case 29 => 'a' case 30 => '7' case _ => 'l'
  }

  function Lower(c: char): char {
    if 'A' <= c <= 'Z' then c + 32 as char else c
  }

  /** charset_rev: both cases of a letter. */
  function CharsetRev(c: char): Option<Five> {
    match Lower(c)
    case 'q' => Some(0) case 'p' => Some(1) case 'z' => Some(2) case 'r' => Some(3)
    case 'y' => Some(4) case '9' => Some(5) case 'x' => Some(6) case '8' => Some(7)
    case 'g' => Some(8) case 'f' => Some(9) case '2' => Some(10) case 't' => Some(11)
    case 'v' => Some(12) case 'd' => Some(13) case 'w' => Some(14) case '0' => Some(15)
    case 's' => Some(16) case '3' => Some(17) case 'j' => Some(18) case 'n' => Some(19)
    case '5' => Some(20) case '4' => Some(21) case 'k' => Some(22) case 'h' => Some(23)
    case 'c' => Some(24) case 'e' => Some(25) case '6' => Some(26) case 'm' => Some(27)
    case 'u' => Some(28) case 'a' => Some(29) case '7' => Some(30) case 'l' => Some(31)
    case _ => None
  }

  lemma CharsetInverse(v: Five)
    ensures CharsetRev(Charset(v)) == Some(v)
    ensures Charset(v) != '1' && !('A' <= Charset(v) <= 'Z') && 33 <= Charset(v) as int <= 126
  {
  }

  lemma CharsetRevInverse(c: char)
    requires CharsetRev(c).Some?
    ensures Charset(CharsetRev(c).value) == Lower(c)
  {
  }

  function Word(v: Five): bv32 {
    v as bv32
  }

  function Unword(x: bv32): int {
    x as int
  }

  lemma WordBack(v: Five)
    ensures Word(v) < 32 && Unword(Word(v)) == v
  {
  }

  /** One value taken into the checksum state. */
  function Mix(chk: bv32, v: Five): bv32 {
    Xor32(Step(chk), Word(v))
  }

  /** The checksum state after some values. */
  function Polymod(chk: bv32, values: seq<Five>): bv32 {
    if values == [] then chk else Mix(Polymod(chk, values[..|values| - 1]), values[|values| - 1])
  }

  lemma PolymodAppend(chk: bv32, s: seq<Five>, v: Five)
    ensures Polymod(chk, s + [v]) == Mix(Polymod(chk, s), v)
  {
    hide Mix;
    assert (s + [v])[..|s|] == s;
  }

  lemma {:induction false} PolymodConcat(chk: bv32, s: seq<Five>, t: seq<Five>)
    ensures Polymod(chk, s + t) == Polymod(Polymod(chk, s), t)
  {
    hide Mix;
    if t == [] {
      assert s + t == s;
    } else {
      var rest := t[..|t| - 1];
      PolymodConcat(chk, s, rest);
      assert (s + t)[..|s + t| - 1] == s + rest;
    }
  }

  lemma MixBound(x: bv32, v: Five)
    ensures Mix(x, v) < 0x4000_0000
  {
    hide Step, Word, Xor32;
    StepBound(x);
    WordBack(v);
    MixBits(Step(x), Word(v));
  }

  lemma MixBits(x: bv32, v: bv32)
    requires x < 0x4000_0000 && v < 32
    ensures Xor32(x, v) < 0x4000_0000
  {
  }

  lemma PolymodBound(chk: bv32, s: seq<Five>)
    requires chk < 0x4000_0000
    ensures Polymod(chk, s) < 0x4000_0000
  {
    hide Mix;
    if s != [] {
      MixBound(Polymod(chk, s[..|s| - 1]), s[|s| - 1]);
    }
  }

  /** Different states stay different whatever follows. */
  lemma {:induction false} PolymodKeepsApart(x: bv32, y: bv32, s: seq<Five>)
    requires x < 0x4000_0000 && y < 0x4000_0000 && x != y
    ensures Polymod(x, s) != Polymod(y, s)
  {
    hide Mix;
    if s != [] {
      var rest, v := s[..|s| - 1], s[|s| - 1];
      PolymodKeepsApart(x, y, rest);
      PolymodBound(x, rest);
      PolymodBound(y, rest);
      MixKeepsApart(Polymod(x, rest), Polymod(y, rest), v);
    }
  }

  lemma MixKeepsApart(x: bv32, y: bv32, v: Five)
    requires x < 0x4000_0000 && y < 0x4000_0000 && x != y
    ensures Mix(x, v) != Mix(y, v)
  {
    hide Step, Word, Xor32;
    StepKeepsApart(x, y);
    XorKeepsApart(Step(x), Step(y), Word(v));
  }

  lemma StepKeepsApart(x: bv32, y: bv32)
    requires x < 0x4000_0000 && y < 0x4000_0000 && x != y
    ensures Step(x) != Step(y)
  {
    hide Step, Xor32;
    StepLinear(x, y);
    XorZero(x, y);
    XorBelow(x, y);
    XorZero(Step(x), Step(y));
    if Step(Xor32(x, y)) == 0 {
      StepInjective(Xor32(x, y));
    }
  }

  lemma XorZero(x: bv32, y: bv32)
    ensures Xor32(x, y) == 0 <==> x == y
  {
    XorCancels(x, y);
    hide Xor32;
  }

  lemma XorCancels(x: bv32, y: bv32)
    ensures Xor32(Xor32(x, y), y) == x && Xor32(0, y) == y && Xor32(x, x) == 0
  {
  }

  lemma XorBelow(x: bv32, y: bv32)
    requires x < 0x4000_0000 && y < 0x4000_0000
    ensures Xor32(x, y) < 0x4000_0000
  {
  }

  lemma XorKeepsApart(x: bv32, y: bv32, v: bv32)
    requires x != y
    ensures Xor32(x, v) != Xor32(y, v)
  {
  }

  /** A state with one value changed is a different state. */
  lemma ChangedValueChangesChecksum(chk: bv32, before: seq<Five>, v: Five, v': Five, after: seq<Five>)
    requires v != v'
    ensures Polymod(chk, before + [v] + after) != Polymod(chk, before + [v'] + after)
  {
    hide Mix, Polymod;
    PolymodAppend(chk, before, v);
    PolymodAppend(chk, before, v');
    PolymodConcat(chk, before + [v], after);
    PolymodConcat(chk, before + [v'], after);
    var x := Polymod(chk, before);
    MixBound(x, v);
    MixBound(x, v');
    MixTellsApart(x, v, v');
    PolymodKeepsApart(Mix(x, v), Mix(x, v'), after);
  }

  lemma MixTellsApart(x: bv32, v: Five, v': Five)
    requires v != v'
    ensures Mix(x, v) != Mix(x, v')
  {
    hide Step, Word, Unword, Xor32;
    WordBack(v);
    WordBack(v');
    XorKeepsApart(Word(v), Word(v'), Step(x));
    XorCommutes(Step(x), Word(v));
    XorCommutes(Step(x), Word(v'));
  }

  lemma XorCommutes(x: bv32, y: bv32)
    ensures Xor32(x, y) == Xor32(y, x)
  {
  }

  // ---- The six checksum symbols ----

  function ShiftRight5(x: bv32): bv32 {
    x >> 5
  }

  function ShiftLeft5(x: bv32): bv32 {
    x << 5
  }

  function Low5(x: bv32): bv32 {
    x & 31
  }

  /** The first k groups of a 30-bit checksum. */
  function Top(chk: bv32, k: nat): bv32
    requires k <= 6
    decreases 6 - k
  {
    if k == 6 then chk else ShiftRight5(Top(chk, k + 1))
  }

  /** Symbol i of the checksum. */
  function Group(chk: bv32, i: nat): (v: Five)
    requires i < 6
  {
    LowGroup(Top(chk, i + 1));
    Low5(Top(chk, i + 1)) as int
  }

  lemma LowGroup(x: bv32)
    ensures 0 <= Low5(x) as int < 32
  {
    assert Low5(x) < 32;
  }

  function Groups(chk: bv32, n: nat): (s: seq<Five>)
    requires n <= 6
    ensures |s| == n
  {
    if n == 0 then [] else Groups(chk, n - 1) + [Group(chk, n - 1)]
  }

  function NoValues(n: nat): (s: seq<Five>)
    ensures |s| == n
  {
    if n == 0 then [] else NoValues(n - 1) + [0]
  }

  /** Up to six values as one word. */
  function Pack(w: seq<Five>): bv32 {
    if w == [] then 0 else Xor32(ShiftLeft5(Pack(w[..|w| - 1])), Word(w[|w| - 1]))
  }

  /** Below 2^(5n). */
  predicate Fits(x: bv32, n: nat) {
    match n
    case 0 => x < 1 case 1 => x < 0x20 case 2 => x < 0x400 case 3 => x < 0x8000
    case 4 => x < 0x10_0000 case 5 => x < 0x200_0000 case _ => x < 0x4000_0000
  }

  lemma PackFits(w: seq<Five>)
    requires |w| <= 6
    ensures Fits(Pack(w), |w|)
  {
    hide Fits, Word, Xor32, ShiftLeft5;
    if w == [] {
      FitsNothing();
    } else {
      PackFits(w[..|w| - 1]);
      WordBack(w[|w| - 1]);
      FitsMore(Pack(w[..|w| - 1]), Word(w[|w| - 1]), |w| - 1);
    }
  }

  lemma FitsNothing()
    ensures Fits(0, 0)
  {
  }

  lemma FitsMore(x: bv32, v: bv32, n: nat)
    requires n < 6 && Fits(x, n) && v < 32
    ensures Fits(Xor32(ShiftLeft5(x), v), n + 1)
    ensures x < 0x200_0000
  {
  }

  /** Up to six values change the state by their word. */
  lemma {:induction false} PolymodPack(x: bv32, w: seq<Five>)
    requires |w| <= 6
    ensures Polymod(x, w) == Xor32(Polymod(x, NoValues(|w|)), Pack(w))
  {
    hide Step, Word, Xor32, ShiftLeft5, Fits;
    if w == [] {
      XorWithZero(x);
    } else {
      var n := |w| - 1;
      var rest, v := w[..n], w[n];
      PolymodPack(x, rest);
      PackFits(rest);
      WordBack(v);
      FitsMore(Pack(rest), Word(v), n);
      StepSmall(Pack(rest));
      PolymodAppend(x, NoValues(n), 0);
      MixSum(Polymod(x, NoValues(n)), Pack(rest), v);
    }
  }

  /** The symbols of a word pack to it again. */
  lemma {:induction false} PackGroups(chk: bv32, n: nat)
    requires n <= 6 && chk < 0x4000_0000
    ensures Pack(Groups(chk, n)) == Top(chk, n)
  {
    hide Word, Xor32, ShiftLeft5, Top, Group;
    if n == 0 {
      NoTop(chk);
    } else {
      PackGroups(chk, n - 1);
      TopShifts(chk, n - 1);
      GroupWord(chk, n - 1);
      ShiftsBack(Top(chk, n));
      assert Groups(chk, n)[..n - 1] == Groups(chk, n - 1);
    }
  }

  /** Packed values are the symbols of their word. */
  lemma {:induction false} GroupsOfPack(w: seq<Five>, n: nat)
    requires |w| == 6 && n <= 6
    ensures Groups(Pack(w), n) == w[..n]
  {
    hide Word, Unword, Xor32, ShiftLeft5, Top, Pack;
    if n > 0 {
      GroupsOfPack(w, n - 1);
      TopOfPack(w, n);
      PackedLast(w[..n]);
      WordBack(w[n - 1]);
      assert w[..n] == w[..n - 1] + [w[n - 1]];
    }
  }

  lemma {:induction false} TopOfPack(w: seq<Five>, n: nat)
    requires |w| == 6 && n <= 6
    ensures Top(Pack(w), n) == Pack(w[..n])
    decreases 6 - n
  {
    hide Pack, Top;
    if n == 6 {
      WholeTop(Pack(w));
      assert w[..6] == w;
    } else {
      TopOfPack(w, n + 1);
      TopShifts(Pack(w), n);
      PackedLast(w[..n + 1]);
      assert w[..n + 1][..n] == w[..n];
    }
  }

  lemma PackedLast(w: seq<Five>)
    requires 0 < |w| <= 6
    ensures ShiftRight5(Pack(w)) == Pack(w[..|w| - 1])
    ensures Low5(Pack(w)) as int == w[|w| - 1]
  {
    hide Fits, Word, Unword, Xor32, ShiftLeft5, ShiftRight5, Low5;
    PackFits(w[..|w| - 1]);
    WordBack(w[|w| - 1]);
    FitsMore(Pack(w[..|w| - 1]), Word(w[|w| - 1]), |w| - 1);
    Unpacks(Pack(w[..|w| - 1]), Word(w[|w| - 1]));
    UnwordIs(Word(w[|w| - 1]));
  }

  lemma UnwordIs(x: bv32)
    ensures Unword(x) == x as int
  {
  }

  lemma Unpacks(x: bv32, v: bv32)
    requires x < 0x200_0000 && v < 32
    ensures ShiftRight5(Xor32(ShiftLeft5(x), v)) == x && Low5(Xor32(ShiftLeft5(x), v)) == v
  {
  }

  lemma TopShifts(chk: bv32, k: nat)
    requires k < 6
    ensures Top(chk, k) == ShiftRight5(Top(chk, k + 1))
  {
  }

  lemma GroupWord(chk: bv32, k: nat)
    requires k < 6
    ensures Word(Group(chk, k)) == Low5(Top(chk, k + 1))
  {
    hide Top, Low5;
    LowGroup(Top(chk, k + 1));
    BackToWord(Low5(Top(chk, k + 1)));
  }

  lemma BackToWord(x: bv32)
    ensures 0 <= x as int < 0x1_0000_0000 && (x as int) as bv32 == x
  {
  }

  lemma ShiftsBack(low: bv32)
    ensures Xor32(ShiftLeft5(ShiftRight5(low)), Low5(low)) == low
  {
  }

  /** Mixing into a sum of states. */
  lemma MixSum(x: bv32, y: bv32, v: Five)
    ensures Mix(Xor32(x, y), v) == Xor32(Mix(x, 0), Mix(y, v))
  {
    hide Step, Word, Xor32;
    StepLinear(x, y);
    NoWord();
    Pair(Step(x), 0, Step(y), Word(v));
    XorWithZero(Step(x));
    XorWithZero(Word(v));
    XorCommutes(0, Word(v));
  }

  lemma NoWord()
    ensures Word(0) == 0
  {
  }

  lemma NoTop(chk: bv32)
    requires chk < 0x4000_0000
    ensures Top(chk, 0) == 0
  {
    hide Top, ShiftRight5, Xor32;
    TopShifts(chk, 0);
    TopShifts(chk, 1);
    TopShifts(chk, 2);
    TopShifts(chk, 3);
    TopShifts(chk, 4);
    TopShifts(chk, 5);
    WholeTop(chk);
    ShiftsAway(chk);
  }

  lemma WholeTop(chk: bv32)
    ensures Top(chk, 6) == chk
  {
  }

  lemma ShiftsAway(chk: bv32)
    requires chk < 0x4000_0000
    ensures ShiftRight5(ShiftRight5(ShiftRight5(ShiftRight5(ShiftRight5(ShiftRight5(chk)))))) == 0
  {
  }

  lemma XorWithZero(a: bv32)
    ensures Xor32(a, 0) == a
  {
  }

  /** bech32_final_constant. */
  function FinalConstant(enc: Encoding): bv32 {
    match enc
    case PlainBech32 => 1
    case Bech32m => 0x2bc830a3
    case NoEncoding => 0
  }

  /** The state after six zero values, with the constant mixed in. */
  function ChecksumWord(values: seq<Five>, enc: Encoding): bv32 {
    Xor32(Polymod(1, values + NoValues(6)), FinalConstant(enc))
  }

  /** The six symbols bring the state to the constant of the encoding. */
  lemma ChecksumCloses(values: seq<Five>, enc: Encoding)
    ensures Polymod(1, values + Groups(ChecksumWord(values, enc), 6)) == FinalConstant(enc)
  {
    hide Step, Groups, NoValues, Polymod, Xor32, FinalConstant, Top;
    var x, chk := Polymod(1, values), ChecksumWord(values, enc);
    PolymodConcat(1, values, NoValues(6));
    PolymodConcat(1, values, Groups(chk, 6));
    PolymodBound(1, values + NoValues(6));
    ConstantBound(Polymod(1, values + NoValues(6)), enc);
    PolymodPack(x, Groups(chk, 6));
    PackGroups(chk, 6);
    WholeTop(chk);
    XorBack(Polymod(x, NoValues(6)), FinalConstant(enc));
  }

  lemma ConstantBound(x: bv32, enc: Encoding)
    requires x < 0x4000_0000
    ensures Xor32(x, FinalConstant(enc)) < 0x4000_0000
  {
  }

  lemma XorBack(a: bv32, b: bv32)
    ensures Xor32(a, Xor32(a, b)) == b
  {
  }

  /** No other six symbols do. */
  lemma ChecksumUnique(values: seq<Five>, w: seq<Five>, enc: Encoding)
    requires |w| == 6 && Polymod(1, values + w) == FinalConstant(enc)
    ensures w == Groups(ChecksumWord(values, enc), 6)
  {
    hide Step, Groups, NoValues, Polymod, Xor32, FinalConstant, Pack;
    var x := Polymod(1, values);
    PolymodConcat(1, values, NoValues(6));
    PolymodConcat(1, values, w);
    PolymodPack(x, w);
    XorBack(Polymod(x, NoValues(6)), Pack(w));
    GroupsOfPack(w, 6);
    assert w[..6] == w;
  }
}
