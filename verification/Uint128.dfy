/** uint128_t of vm/src/uint256.c: two 64-bit limbs, updated in place. */
module Uint128 {
  import opened Machine
  import opened Numerals
  import opened Bits
  import opened Limbs

  const W64: nat := 0x1_0000_0000_0000_0000
  const W128: nat := 0x1_0000_0000_0000_0000_0000_0000_0000_0000

  // ---- uint64_t ----

  function Shl64(x: u64, v: nat): u64 {
    x * Pow(2, v) % W64
  }

  function Shr64(x: u64, v: nat): u64 {
    PowPositive(2, v);
    DivAtMost(x, Pow(2, v));
    x / Pow(2, v)
  }

  function Add64(x: int, y: int): u64 {
    (x + y) % W64
  }

  function Sub64(x: int, y: int): u64 {
    (x - y) % W64
  }

  function Or64(x: u64, y: u64): u64 {
    Powers();
    OrBound(x, y, 64);
    Or(x, y)
  }

  // ---- The value of two limbs ----

  function Join(upper: u64, lower: u64): (v: nat)
    ensures v < W128
  {
    upper * W64 + lower
  }

  /** number << value, modulo w. */
  function Left(x: nat, value: nat, w: nat): nat
    requires w > 0
  {
    x * Pow(2, value) % w
  }

  function Right(x: nat, value: nat): nat {
    PowPositive(2, value);
    x / Pow(2, value)
  }

  lemma Powers()
    ensures Pow(2, 64) == W64 && Pow(2, 128) == W128 && W64 * W64 == W128
  {
    assert Pow(2, 8) == 256 by {
      assert Pow(2, 4) == 16;
    }
    PowAdd(2, 8, 8);
    PowAdd(2, 16, 16);
    PowAdd(2, 32, 32);
    PowAdd(2, 64, 64);
  }

  lemma BelowModulus(x: nat)
    requires x < W64
    ensures x % W64 == x
  {
  }

  lemma LeftInside(u: u64, l: u64, v: nat)
    requires 0 < v < 64
    ensures Join(Add64(Shl64(u, v), Shr64(l, 64 - v)), Shl64(l, v)) == Left(Join(u, l), v, W128)
  {
    hide Pow;
    Powers();
    PowAdd(2, v, 64 - v);
    PowPositive(2, v);
    PowPositive(2, 64 - v);
    ShiftLeftInside(W64, Pow(2, v), Pow(2, 64 - v), u, l);
    BelowModulus(Shl64(u, v) + Shr64(l, 64 - v));
  }

  lemma LeftBeyond(u: u64, l: u64, v: nat)
    requires 64 <= v
    ensures Join(Shl64(l, v - 64), 0) == Left(Join(u, l), v, W128)
  {
    Powers();
    PowAdd(2, v - 64, 64);
    ShiftLeftBeyond(W64, Pow(2, v - 64), u, l);
  }

  lemma RightInside(u: u64, l: u64, v: nat)
    requires 0 < v < 64
    ensures Join(Shr64(u, v), Add64(Shl64(u, 64 - v), Shr64(l, v))) == Right(Join(u, l), v)
  {
    hide Pow;
    Powers();
    PowAdd(2, v, 64 - v);
    PowPositive(2, v);
    PowPositive(2, 64 - v);
    ShiftRightInside(W64, Pow(2, v), Pow(2, 64 - v), u, l);
    BelowModulus(Shl64(u, 64 - v) + Shr64(l, v));
  }

  lemma RightBeyond(u: u64, l: u64, v: nat)
    requires 64 <= v
    ensures Join(0, Shr64(u, v - 64)) == Right(Join(u, l), v)
  {
    Powers();
    PowAdd(2, v - 64, 64);
    PowPositive(2, v - 64);
    ShiftRightBeyond(W64, Pow(2, v - 64), u, l);
  }

  lemma ShiftsByNothing(x: nat)
    requires x < W128
    ensures Left(x, 0, W128) == x == Right(x, 0)
  {
    assert Pow(2, 0) == 1;
  }

  lemma ShiftsByOne(x: u64)
    ensures Shl64(x, 0) == x == Shr64(x, 0)
  {
    assert Pow(2, 0) == 1;
  }

  lemma ShiftsOut(x: nat, v: nat)
    requires x < W128 && 128 <= v
    ensures Left(x, v, W128) == 0 == Right(x, v)
  {
    Powers();
    PowAdd(2, v - 128, 128);
    PowMonotone(2, 128, v);
    Reassociate(x, Pow(2, v - 128), W128);
    DivStep(x * Pow(2, v - 128), W128, 0);
    DivStep(0, Pow(2, v), x);
  }

  class Word {
    var upper: u64
    var lower: u64

    constructor (upper: u64, lower: u64)
      ensures Value() == Join(upper, lower) && this.upper == upper && this.lower == lower
    {
      this.upper, this.lower := upper, lower;
    }

    ghost function Value(): (v: nat)
      reads this
      ensures v < W128
    {
      Join(upper, lower)
    }

    predicate IsZero()
      reads this
      ensures IsZero() <==> Value() == 0
    {
      lower == 0 && upper == 0
    }
  }

  method Copy128(target: Word, number: Word)
    modifies target
    ensures target.Value() == old(number.Value()) && target.lower == old(number.lower)
  {
    target.upper := number.upper;
    target.lower := number.lower;
  }

  method Clear128(target: Word)
    modifies target
    ensures target.Value() == 0
  {
    target.upper := 0;
    target.lower := 0;
  }

  predicate Equal128(x: Word, y: Word)
    reads x, y
    ensures Equal128(x, y) <==> x.Value() == y.Value()
  {
    x.upper == y.upper && x.lower == y.lower
  }

  predicate Greater128(x: Word, y: Word)
    reads x, y
    ensures Greater128(x, y) <==> x.Value() > y.Value()
  {
    if x.upper == y.upper then x.lower > y.lower else x.upper > y.upper
  }

  /** shiftl128, also in place. */
  method ShiftLeft128(number: Word, value: u32, target: Word)
    modifies target
    ensures target.Value() == Left(old(number.Value()), value, W128)
  {
    hide Join, Left, Shl64, Shr64, Add64;
    ghost var u, l := number.upper, number.lower;
    if value >= 128 {
      ShiftsOut(number.Value(), value);
      Clear128(target);
    } else if value == 64 {
      LeftBeyond(u, l, 64);
      ShiftsByOne(l);
      target.upper := number.lower;
      target.lower := 0;
    } else if value == 0 {
      ShiftsByNothing(number.Value());
      Copy128(target, number);
    } else if value < 64 {
      LeftInside(u, l, value);
      target.upper := Add64(Shl64(number.upper, value), Shr64(number.lower, 64 - value));
      target.lower := Shl64(number.lower, value);
    } else {
      LeftBeyond(u, l, value);
      target.upper := Shl64(number.lower, value - 64);
      target.lower := 0;
    }
  }

  /**
   shiftr128, also in place, except that shifting by 64 in place clears the upper limb
   before it has been moved: right exactly when there was nothing in it.
   */
  method ShiftRight128(number: Word, value: u32, target: Word)
    modifies target
    ensures
      target.Value() == Right(old(number.Value()), value)
      <==> !(number == target && value == 64 && old(number.upper) != 0)
  {
    hide Join, Right, Shl64, Shr64, Add64;
    ghost var u, l := number.upper, number.lower;
    if value >= 128 {
      ShiftsOut(number.Value(), value);
      Clear128(target);
    } else if value == 64 {
      RightBeyond(u, l, 64);
      ShiftsByOne(u);
      JoinZero(u);
      JoinZero(0);
      target.upper := 0;
      target.lower := number.upper;
    } else if value == 0 {
      ShiftsByNothing(number.Value());
      Copy128(target, number);
    } else if value < 64 {
      RightInside(u, l, value);
      var result := new Word(0, 0);
      result.upper := Shr64(number.upper, value);
      result.lower := Add64(Shl64(number.upper, 64 - value), Shr64(number.lower, value));
      Copy128(target, result);
    } else {
      RightBeyond(u, l, value);
      target.lower := Shr64(number.upper, value - 64);
      target.upper := 0;
    }
  }

  lemma JoinZero(x: u64)
    ensures Join(0, x) == x
  {
  }

  /** add128, also in place for either operand. */
  method Add128(x: Word, y: Word, target: Word)
    modifies target
    ensures target.Value() == (old(x.Value()) + old(y.Value())) % W128
  {
    hide Join;
    AddJoins(x.upper, x.lower, y.upper, y.lower);
    var carry := if Add64(x.lower, y.lower) < x.lower then 1 else 0;
    target.upper := Add64(x.upper + y.upper, carry);
    target.lower := Add64(x.lower, y.lower);
  }

  lemma AddJoins(u1: u64, l1: u64, u2: u64, l2: u64)
    ensures
      Join(Add64(u1 + u2, if Add64(l1, l2) < l1 then 1 else 0), Add64(l1, l2)) == (Join(u1, l1) + Join(u2, l2)) % W128
  {
    Powers();
    AddLimbs(W64, u1, l1, u2, l2);
  }

  /** minus128, also in place for either operand. */
  method Minus128(x: Word, y: Word, target: Word)
    modifies target
    ensures target.Value() == (old(x.Value()) - old(y.Value())) % W128
  {
    hide Join;
    SubtractJoins(x.upper, x.lower, y.upper, y.lower);
    var borrow := if Sub64(x.lower, y.lower) > x.lower then 1 else 0;
    target.upper := Sub64(x.upper - y.upper, borrow);
    target.lower := Sub64(x.lower, y.lower);
  }

  lemma SubtractJoins(u1: u64, l1: u64, u2: u64, l2: u64)
    ensures
      Join(Sub64(u1 - u2, if Sub64(l1, l2) > l1 then 1 else 0), Sub64(l1, l2)) == (Join(u1, l1) - Join(u2, l2)) % W128
  {
    Powers();
    SubtractLimbs(W64, u1, l1, u2, l2);
  }

  /** or128. */
  method Or128(x: Word, y: Word, target: Word)
    modifies target
    ensures target.Value() == Or(old(x.Value()), old(y.Value()))
  {
    hide Or;
    Powers();
    OrLimbs(x.upper, x.lower, y.upper, y.lower, 64);
    target.upper := Or64(x.upper, y.upper);
    target.lower := Or64(x.lower, y.lower);
  }
}
