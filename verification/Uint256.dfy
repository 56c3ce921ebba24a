/** uint256_t of vm/src/uint256.c: two 128-bit halves, updated in place. */
module Uint256 {
  import opened Machine
  import opened Numerals
  import opened Bits
  import opened Limbs
  import opened Uint128

  const W256: nat := W128 * W128

  class Words {
    const upper: Word
    const lower: Word

    constructor ()
      ensures Valid() && fresh(Parts()) && Value() == 0
    {
      upper := new Word(0, 0);
      lower := new Word(0, 0);
    }

    ghost predicate Valid() {
      upper != lower
    }

    ghost function Parts(): set<object> {
      {upper, lower}
    }

    ghost function Value(): (v: nat)
      reads upper, lower
      ensures v < W256
    {
      Join256(upper.Value(), lower.Value())
    }

    predicate IsZero()
      reads upper, lower
      ensures IsZero() <==> Value() == 0
    {
      lower.IsZero() && upper.IsZero()
    }
  }

  function Join256(upper: nat, lower: nat): (v: nat)
    ensures upper < W128 && lower < W128 ==> v < W256
  {
    upper * W128 + lower
  }

  /** Two pointers: the same number, or nothing in common. */
  ghost predicate Apart(x: Words, y: Words) {
    x.Valid() && y.Valid() && (x == y || x.Parts() !! y.Parts())
  }

  predicate Greater256(x: Words, y: Words)
    reads x.upper, x.lower, y.upper, y.lower
    ensures Greater256(x, y) <==> x.Value() > y.Value()
  {
    if Equal128(x.upper, y.upper) then Greater128(x.lower, y.lower) else Greater128(x.upper, y.upper)
  }

  predicate Equal256(x: Words, y: Words)
    reads x.upper, x.lower, y.upper, y.lower
    ensures Equal256(x, y) <==> x.Value() == y.Value()
  {
    Equal128(x.upper, y.upper) && Equal128(x.lower, y.lower)
  }

  predicate AtLeast256(x: Words, y: Words)
    reads x.upper, x.lower, y.upper, y.lower
    ensures AtLeast256(x, y) <==> x.Value() >= y.Value()
  {
    Greater256(x, y) || Equal256(x, y)
  }

  method Copy256(target: Words, number: Words)
    requires Apart(number, target)
    modifies target.Parts()
    ensures target.Value() == old(number.Value())
  {
    Copy128(target.upper, number.upper);
    Copy128(target.lower, number.lower);
  }

  method Clear256(target: Words)
    requires target.Valid()
    modifies target.Parts()
    ensures target.Value() == 0
  {
    Clear128(target.upper);
    Clear128(target.lower);
  }

  // ---- Shifts ----

  lemma Powers256()
    ensures Pow(2, 256) == W256
  {
    Powers();
    PowAdd(2, 128, 128);
  }

  lemma LeftInside256(u: nat, l: nat, v: nat)
    requires 0 < v < 128 && u < W128 && l < W128
    ensures Join256((Left(u, v, W128) + Right(l, 128 - v)) % W128, Left(l, v, W128)) == Left(Join256(u, l), v, W256)
  {
    Powers();
    PowAdd(2, v, 128 - v);
    PowPositive(2, v);
    PowPositive(2, 128 - v);
    ShiftLeftInside(W128, Pow(2, v), Pow(2, 128 - v), u, l);
    DivStep(0, W128, Left(u, v, W128) + Right(l, 128 - v));
  }

  lemma LeftBeyond256(u: nat, l: nat, v: nat)
    requires 128 <= v && u < W128 && l < W128
    ensures Join256(Left(l, v - 128, W128), 0) == Left(Join256(u, l), v, W256)
  {
    Powers();
    PowAdd(2, v - 128, 128);
    ShiftLeftBeyond(W128, Pow(2, v - 128), u, l);
  }

  lemma RightInside256(u: nat, l: nat, v: nat)
    requires 0 < v < 128 && u < W128 && l < W128
    ensures Join256(Right(u, v), (Right(l, v) + Left(u, 128 - v, W128)) % W128) == Right(Join256(u, l), v)
  {
    Powers();
    PowAdd(2, v, 128 - v);
    PowPositive(2, v);
    PowPositive(2, 128 - v);
    ShiftRightInside(W128, Pow(2, v), Pow(2, 128 - v), u, l);
    DivStep(0, W128, Right(l, v) + Left(u, 128 - v, W128));
  }

  lemma RightBeyond256(u: nat, l: nat, v: nat)
    requires 128 <= v && u < W128 && l < W128
    ensures Join256(0, Right(u, v - 128)) == Right(Join256(u, l), v)
  {
    Powers();
    PowAdd(2, v - 128, 128);
    PowPositive(2, v - 128);
    ShiftRightBeyond(W128, Pow(2, v - 128), u, l);
  }

  lemma ShiftsByNothing256(x: nat)
    requires x < W256
    ensures Left(x, 0, W256) == x == Right(x, 0)
  {
    assert Pow(2, 0) == 1;
  }

  lemma ShiftsOut256(x: nat, v: nat)
    requires x < W256 && 256 <= v
    ensures Left(x, v, W256) == 0 == Right(x, v)
  {
    Powers256();
    PowAdd(2, v - 256, 256);
    PowMonotone(2, 256, v);
    Reassociate(x, Pow(2, v - 256), W256);
    DivStep(x * Pow(2, v - 256), W256, 0);
    DivStep(0, Pow(2, v), x);
  }

  /** shiftl256, also in place. */
  method ShiftLeft256(number: Words, value: u32, target: Words)
    requires Apart(number, target)
    modifies target.Parts()
    ensures target.Value() == Left(old(number.Value()), value, W256)
  {
    hide Left, Right, Join256;
    ghost var u, l := number.upper.Value(), number.lower.Value();
    if value >= 256 {
      ShiftsOut256(number.Value(), value);
      Clear256(target);
    } else if value == 128 {
      LeftBeyond256(u, l, 128);
      ShiftsByNothing(l);
      Copy128(target.upper, number.lower);
      Clear128(target.lower);
    } else if value == 0 {
      ShiftsByNothing256(number.Value());
      Copy256(target, number);
    } else if value < 128 {
      LeftInside256(u, l, value);
      var tmp1 := new Word(0, 0);
      var tmp2 := new Word(0, 0);
      var result := new Words();
      ShiftLeft128(number.upper, value, tmp1);
      ShiftRight128(number.lower, 128 - value, tmp2);
      Add128(tmp1, tmp2, result.upper);
      ShiftLeft128(number.lower, value, result.lower);
      Copy256(target, result);
    } else {
      LeftBeyond256(u, l, value);
      ShiftLeft128(number.lower, value - 128, target.upper);
      Clear128(target.lower);
    }
  }

  /** shiftr256, also in place: its 128-bit shifts never shift by 64 in place. */
  method ShiftRight256(number: Words, value: u32, target: Words)
    requires Apart(number, target)
    modifies target.Parts()
    ensures target.Value() == Right(old(number.Value()), value)
  {
    hide Left, Right, Join256;
    ghost var u, l := number.upper.Value(), number.lower.Value();
    if value >= 256 {
      ShiftsOut256(number.Value(), value);
      Clear256(target);
    } else if value == 128 {
      RightBeyond256(u, l, 128);
      ShiftsByNothing(u);
      Copy128(target.lower, number.upper);
      Clear128(target.upper);
    } else if value == 0 {
      ShiftsByNothing256(number.Value());
      Copy256(target, number);
    } else if value < 128 {
      RightInside256(u, l, value);
      var tmp1 := new Word(0, 0);
      var tmp2 := new Word(0, 0);
      var result := new Words();
      ShiftRight128(number.upper, value, result.upper);
      ShiftRight128(number.lower, value, tmp1);
      ShiftLeft128(number.upper, 128 - value, tmp2);
      Add128(tmp1, tmp2, result.lower);
      Copy256(target, result);
    } else {
      RightBeyond256(u, l, value);
      ShiftRight128(number.upper, value - 128, target.lower);
      Clear128(target.upper);
    }
  }

  // ---- Addition, subtraction and or ----

  lemma CarryLater(a: int, c: int, w: nat)
    requires w > 0
    ensures (a % w + c) % w == (a + c) % w
  {
    var q, r := a / w, a % w;
    var q', r' := (r + c) / w, (r + c) % w;
    assert a == q * w + r && r + c == q' * w + r';
    assert a + c == (q + q') * w + r';
    ModOf(a + c, w, r', q + q');
  }

  /** The carry applied after the upper halves are added. */
  lemma AddCarries(w: nat, u1: nat, l1: nat, u2: nat, l2: nat)
    requires u1 < w && u2 < w && l1 < w && l2 < w
    ensures
      var low, high := (l1 + l2) % w, (u1 + u2) % w;
      (if l1 > low then (high + 1) % w else high) * w + low == (u1 * w + l1 + (u2 * w + l2)) % (w * w)
  {
    AddLimbs(w, u1, l1, u2, l2);
    CarryLater(u1 + u2, 1, w);
  }

  lemma AddJoins256(u1: nat, l1: nat, u2: nat, l2: nat)
    requires u1 < W128 && l1 < W128 && u2 < W128 && l2 < W128
    ensures
      var low, high := (l1 + l2) % W128, (u1 + u2) % W128;
      Join256(if l1 > low then (high + 1) % W128 else high, low) == (Join256(u1, l1) + Join256(u2, l2)) % W256
  {
    AddCarries(W128, u1, l1, u2, l2);
  }

  /** add256, also in place for either operand. */
  method Add256(x: Words, y: Words, target: Words)
    requires Apart(x, target) && Apart(y, target)
    modifies target.Parts()
    ensures target.Value() == (old(x.Value()) + old(y.Value())) % W256
  {
    hide Join256, Word.Value, Join;
    JoinZero(1);
    AddJoins256(x.upper.Value(), x.lower.Value(), y.upper.Value(), y.lower.Value());
    var tmp := new Word(0, 0);
    Add128(x.upper, y.upper, target.upper);
    Add128(x.lower, y.lower, tmp);
    if Greater128(x.lower, tmp) {
      var one := new Word(0, 1);
      Add128(target.upper, one, target.upper);
    }
    Add128(x.lower, y.lower, target.lower);
  }

  /** The borrow applied after the upper halves are subtracted. */
  lemma SubtractBorrows(w: nat, u1: nat, l1: nat, u2: nat, l2: nat)
    requires u1 < w && u2 < w && l1 < w && l2 < w
    ensures
      var low, high := (l1 - l2) % w, (u1 - u2) % w;
      (if low > l1 then (high - 1) % w else high) * w + low == (u1 * w + l1 - (u2 * w + l2)) % (w * w)
  {
    SubtractLimbs(w, u1, l1, u2, l2);
    CarryLater(u1 - u2, -1, w);
  }

  lemma SubtractJoins256(u1: nat, l1: nat, u2: nat, l2: nat)
    requires u1 < W128 && l1 < W128 && u2 < W128 && l2 < W128
    ensures
      var low, high := (l1 - l2) % W128, (u1 - u2) % W128;
      Join256(if low > l1 then (high - 1) % W128 else high, low) == (Join256(u1, l1) - Join256(u2, l2)) % W256
  {
    SubtractBorrows(W128, u1, l1, u2, l2);
  }

  /** minus256, also in place for either operand. */
  method Minus256(x: Words, y: Words, target: Words)
    requires Apart(x, target) && Apart(y, target)
    modifies target.Parts()
    ensures target.Value() == (old(x.Value()) - old(y.Value())) % W256
  {
    hide Join256, Word.Value, Join;
    JoinZero(1);
    SubtractJoins256(x.upper.Value(), x.lower.Value(), y.upper.Value(), y.lower.Value());
    var tmp := new Word(0, 0);
    Minus128(x.upper, y.upper, target.upper);
    Minus128(x.lower, y.lower, tmp);
    if Greater128(tmp, x.lower) {
      var one := new Word(0, 1);
      Minus128(target.upper, one, target.upper);
    }
    Minus128(x.lower, y.lower, target.lower);
  }

  /** or256, also in place for either operand. */
  method Or256(x: Words, y: Words, target: Words)
    requires Apart(x, target) && Apart(y, target)
    modifies target.Parts()
    ensures target.Value() == Or(old(x.Value()), old(y.Value()))
  {
    hide Or;
    Powers();
    OrLimbs(x.upper.Value(), x.lower.Value(), y.upper.Value(), y.lower.Value(), 128);
    Or128(x.upper, y.upper, target.upper);
    Or128(x.lower, y.lower, target.lower);
  }

  // ---- Bit length ----

  /** The counting loop of bits256, on a copy that it shifts in place. */
  method CountBits(number: Word, start: u32) returns (result: u32)
    requires start <= 128
    ensures result == start + BitLength(number.Value())
  {
    hide Pow;
    var copy := new Word(0, 0);
    Copy128(copy, number);
    ghost var total := BitLength(number.Value());
    BitLengthFits(number.Value(), 128);
    result := start;
    while !copy.IsZero()
      invariant result + BitLength(copy.Value()) == start + total
      decreases copy.Value()
    {
      HalfIsRight(copy.Value());
      ShiftRight128(copy, 1, copy);
      result := result + 1;
    }
  }

  lemma HalfIsRight(x: nat)
    ensures Right(x, 1) == x / 2
  {
    assert Pow(2, 1) == 2;
  }

  lemma BitLengthFits(x: nat, n: nat)
    requires n == 128 && x < W128
    ensures BitLength(x) <= n
  {
    Powers();
    if x > 0 {
      BitLengthBounds(x);
      if BitLength(x) > n {
        PowMonotone(2, n, BitLength(x) - 1);
      }
    }
  }

  lemma {:induction false} BitLengthUnique(x: nat, n: nat)
    requires n > 0 && Pow(2, n - 1) <= x < Pow(2, n)
    ensures BitLength(x) == n
  {
    BitLengthBounds(x);
    if BitLength(x) > n {
      PowMonotone(2, n, BitLength(x) - 1);
    } else if BitLength(x) < n {
      PowMonotone(2, BitLength(x), n - 1);
    }
  }

  lemma BitLengthJoin(u: nat, l: nat)
    requires u < W128 && l < W128
    ensures BitLength(Join256(u, l)) == if u == 0 then BitLength(l) else 128 + BitLength(u)
  {
    if u > 0 {
      var n := BitLength(u);
      BitLengthBounds(u);
      Powers();
      PowAdd(2, n - 1, 128);
      PowAdd(2, n, 128);
      ProductBelow(u, Pow(2, n), l, W128);
      MulMonotone(Pow(2, n - 1), u, W128);
      BitLengthUnique(Join256(u, l), 128 + n);
    }
  }

  /** bits256. */
  method Bits256(number: Words) returns (result: u32)
    ensures result == BitLength(number.Value()) <= 256
  {
    hide Join256, BitLength;
    BitLengthJoin(number.upper.Value(), number.lower.Value());
    BitLengthFits(number.upper.Value(), 128);
    BitLengthFits(number.lower.Value(), 128);
    if !number.upper.IsZero() {
      result := CountBits(number.upper, 128);
    } else {
      result := CountBits(number.lower, 0);
    }
  }

  // ---- Division ----

  /** The divisor shifted to the length of the dividend: it fits, and twice it is more than the dividend. */
  lemma ScaledDivisor(l: nat, r: nat)
    requires 0 < r <= l < W256
    ensures BitLength(r) <= BitLength(l)
    ensures
      var d := BitLength(l) - BitLength(r);
      && Left(r, d, W256) == r * Pow(2, d) && Left(1, d, W256) == Pow(2, d) && l < 2 * (r * Pow(2, d))
      && (d == 0 ==> r * Pow(2, d) <= l)
  {
    var n, m := BitLength(l), BitLength(r);
    BitLengthBounds(l);
    BitLengthBounds(r);
    Powers256();
    LongerIsMore(l, r);
    if n > 256 {
      PowMonotone(2, 256, n - 1);
    }
    ScaledBounds(l, r, n, m);
    PowMonotone(2, n, 256);
    DivStep(0, W256, r * Pow(2, n - m));
    MulMonotone(1, r, Pow(2, n - m));
    DivStep(0, W256, Pow(2, n - m));
    assert Pow(2, 0) == 1;
  }

  lemma LongerIsMore(x: nat, y: nat)
    requires x > 0 && y > 0
    ensures BitLength(x) < BitLength(y) ==> x < y
  {
    BitLengthBounds(x);
    BitLengthBounds(y);
    if BitLength(x) < BitLength(y) {
      PowMonotone(2, BitLength(x), BitLength(y) - 1);
    }
  }

  lemma ScaledBounds(l: nat, r: nat, n: nat, m: nat)
    requires 0 < m <= n && l < Pow(2, n) && Pow(2, m - 1) <= r < Pow(2, m)
    ensures r * Pow(2, n - m) < Pow(2, n) && l < 2 * (r * Pow(2, n - m))
  {
    var p := Pow(2, n - m);
    PowPositive(2, n - m);
    PowAdd(2, m, n - m);
    PowStep(2, m - 1);
    ProductBelow(r, Pow(2, m), 0, p);
    MulMonotone(Pow(2, m - 1), r, p);
    assert (2 * Pow(2, m - 1)) * p == 2 * (Pow(2, m - 1) * p);
  }

  /** Where the loop of divmod256 is: bit k is next; after bit 0 the remainder is below the divisor. */
  ghost predicate Dividing(l: nat, r: nat, k: int, copyd: nat, adder: nat, resDiv: nat, resMod: nat) {
    if k >= 0 then copyd == r * Pow(2, k) && adder == Pow(2, k) && Subtracting(l, r, k, resDiv, resMod)
    else resMod < r && l == resDiv * r + resMod
  }

  lemma DividingStarts(l: nat, r: nat, d: nat)
    requires r > 0 && l < 2 * (r * Pow(2, d)) && (d == 0 ==> r * Pow(2, d) <= l)
    ensures Dividing(l, r, d, r * Pow(2, d), Pow(2, d), 0, l)
    ensures
      r * Pow(2, d) > l ==>
        d > 0 && Dividing(l, r, d - 1, r * Pow(2, d) / 2, Pow(2, d) / 2, 0, l)
  {
    SubtractionStarts(l, r, d);
    if r * Pow(2, d) > l {
      LowBit(r, d);
      DoubleBit(r, d - 1);
      SubtractionStarts(l, r, d - 1);
    }
  }

  /** One round: subtract if it fits, then halve. */
  lemma DivideBit(l: nat, r: nat, k: int, copyd: nat, adder: nat, resDiv: nat, resMod: nat)
    requires Dividing(l, r, k, copyd, adder, resDiv, resMod) && resMod >= r > 0
    ensures k >= 0
    ensures
      var (q, m) := if resMod >= copyd then (Or(resDiv, adder), resMod - copyd) else (resDiv, resMod);
      Dividing(l, r, k - 1, copyd / 2, adder / 2, q, m)
  {
    hide Or, Subtracting;
    SubtractBit(l, r, k, resDiv, resMod);
    LowBit(r, k);
    if k > 0 {
      var (q, m) := SubtractedBit(r, k, resDiv, resMod);
      LowerBit(l, r, k, q, m);
    }
  }

  lemma DividingEnds(l: nat, r: nat, k: int, copyd: nat, adder: nat, resDiv: nat, resMod: nat)
    requires Dividing(l, r, k, copyd, adder, resDiv, resMod) && resMod < r
    ensures resDiv == l / r && resMod == l % r
  {
    Quotient(l, r, resDiv, resMod);
  }

  lemma SmallDividend(l: nat, r: nat)
    requires l < r
    ensures l / r == 0 && l % r == l
  {
    DivStep(0, r, l);
  }

  lemma DifferenceFits(x: nat, y: nat)
    requires y <= x < W256
    ensures (x - y) % W256 == x - y
  {
    DivStep(0, W256, x - y);
  }

  /** The operands of divmod256's loop share nothing. */
  ghost predicate Separate(r: Words, copyd: Words, adder: Words, resDiv: Words, resMod: Words) {
    && r.Valid() && copyd.Valid() && adder.Valid() && resDiv.Valid() && resMod.Valid()
    && r.Parts() !! copyd.Parts() !! adder.Parts() !! resDiv.Parts() !! resMod.Parts()
  }

  /** A round of the shift-and-subtract loop. */
  method DivideRound(r: Words, copyd: Words, adder: Words, resDiv: Words, resMod: Words, ghost k: int, ghost l: nat)
    requires Separate(r, copyd, adder, resDiv, resMod) && resMod.Value() >= r.Value() > 0
    requires Dividing(l, r.Value(), k, copyd.Value(), adder.Value(), resDiv.Value(), resMod.Value())
    modifies copyd.Parts(), adder.Parts(), resDiv.Parts(), resMod.Parts()
    ensures k >= 0
    ensures Dividing(l, r.Value(), k - 1, copyd.Value(), adder.Value(), resDiv.Value(), resMod.Value())
  {
    hide Dividing, Or, Words.Value, Right;
    DivideBit(l, r.Value(), k, copyd.Value(), adder.Value(), resDiv.Value(), resMod.Value());
    if AtLeast256(resMod, copyd) {
      DifferenceFits(resMod.Value(), copyd.Value());
      Minus256(resMod, copyd, resMod);
      Or256(resDiv, adder, resDiv);
    }
    HalfIsRight(copyd.Value());
    HalfIsRight(adder.Value());
    ShiftRight256(copyd, 1, copyd);
    ShiftRight256(adder, 1, adder);
  }

  /** The shift-and-subtract loop of divmod256, on copies. */
  method DivideLoop(r: Words, copyd: Words, adder: Words, resDiv: Words, resMod: Words, ghost k0: int, ghost l: nat)
    requires Separate(r, copyd, adder, resDiv, resMod) && r.Value() > 0
    requires Dividing(l, r.Value(), k0, copyd.Value(), adder.Value(), resDiv.Value(), resMod.Value())
    modifies copyd.Parts(), adder.Parts(), resDiv.Parts(), resMod.Parts()
    ensures resDiv.Value() == l / r.Value() && resMod.Value() == l % r.Value()
  {
    hide Dividing, Words.Value;
    ghost var k, divisor := k0, r.Value();
    while AtLeast256(resMod, r)
      invariant r.Value() == divisor
      invariant Dividing(l, divisor, k, copyd.Value(), adder.Value(), resDiv.Value(), resMod.Value())
      decreases k
    {
      DivideRound(r, copyd, adder, resDiv, resMod, k, l);
      k := k - 1;
    }
    DividingEnds(l, divisor, k, copyd.Value(), adder.Value(), resDiv.Value(), resMod.Value());
  }

  /** The divisor shifted up to the dividend, and the bit that goes with it. */
  method ScaleUp(r: Words, one: Words, diffBits: u32, copyd: Words, adder: Words, resDiv: Words, resMod: Words)
      returns (ghost k: int)
    requires Separate(r, copyd, adder, resDiv, resMod)
    requires one.Valid() && one.Parts() !! copyd.Parts() !! adder.Parts() && one.Value() == 1
    requires 0 < r.Value() <= resMod.Value() && resDiv.Value() == 0
    requires diffBits == BitLength(resMod.Value()) - BitLength(r.Value())
    modifies copyd.Parts(), adder.Parts()
    ensures Dividing(resMod.Value(), r.Value(), k, copyd.Value(), adder.Value(), resDiv.Value(), resMod.Value())
  {
    hide Dividing, Words.Value, Left, Right, BitLength, Pow;
    ScaledDivisor(resMod.Value(), r.Value());
    DividingStarts(resMod.Value(), r.Value(), diffBits);
    k := diffBits;
    ShiftLeft256(r, diffBits, copyd);
    ShiftLeft256(one, diffBits, adder);
    if Greater256(copyd, resMod) {
      HalfIsRight(copyd.Value());
      HalfIsRight(adder.Value());
      ShiftRight256(copyd, 1, copyd);
      ShiftRight256(adder, 1, adder);
      k := k - 1;
    }
  }

  /** The division proper, for a dividend that is not below the divisor. */
  method LongDivision(r: Words, resDiv: Words, resMod: Words)
    requires r.Valid() && resDiv.Valid() && resMod.Valid() && r.Parts() !! resDiv.Parts() !! resMod.Parts()
    requires 0 < r.Value() <= resMod.Value() && resDiv.Value() == 0
    modifies resDiv.Parts(), resMod.Parts()
    ensures resDiv.Value() == old(resMod.Value()) / r.Value() && resMod.Value() == old(resMod.Value()) % r.Value()
  {
    hide Words.Value, BitLength, Dividing;
    ghost var dividend := resMod.Value();
    var copyd := new Words();
    var adder := new Words();
    var one := new Words();
    SetOne(one);
    LongerIsMore(dividend, r.Value());
    var lengthL := Bits256(resMod);
    var lengthR := Bits256(r);
    WrapSmall(lengthL as int - lengthR as int);
    var diffBits := Wrap32(lengthL as int - lengthR as int);
    ghost var k := ScaleUp(r, one, diffBits, copyd, adder, resDiv, resMod);
    DivideLoop(r, copyd, adder, resDiv, resMod, k, dividend);
  }

  /** divmod256; the results may overwrite the operands. */
  method DivMod256(l: Words, r: Words, retDiv: Words, retMod: Words)
    requires l.Valid() && r.Valid() && r.Value() != 0
    requires Apart(l, retDiv) && Apart(l, retMod) && retDiv.Parts() !! retMod.Parts()
    modifies retDiv.Parts(), retMod.Parts()
    ensures retDiv.Value() == old(l.Value()) / old(r.Value())
    ensures retMod.Value() == old(l.Value()) % old(r.Value())
  {
    hide Words.Value;
    var resDiv := new Words();
    var resMod := new Words();
    Copy256(resMod, l);
    if Greater256(r, l) {
      SmallDividend(l.Value(), r.Value());
      Copy256(retMod, l);
      Clear256(retDiv);
    } else {
      LongDivision(r, resDiv, resMod);
      Copy256(retDiv, resDiv);
      Copy256(retMod, resMod);
    }
  }

  method SetOne(one: Words)
    requires one.Valid()
    modifies one.Parts()
    ensures one.Value() == 1
  {
    Clear256(one);
    one.lower.upper := 0;
    one.lower.lower := 1;
  }
}
