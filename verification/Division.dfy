/**
 The software division of guest programs, app/sdk/risc-v/div.S (32-bit build),
 run by the interpreter of vm/src/cpu.c.
 */
module Division {
  import opened Machine
  import opened Numerals
  import opened Bits
  import opened Flat
  import opened Cpu

  // Labels, as instruction numbers.
  const DIVDI3 := 0
  const UDIVDI3 := 2
  const L1 := 8
  const L2 := 12
  const L3 := 13
  const L4 := 16
  const L5 := 19
  const UMODDI3 := 20
  const L10 := 24
  const L11 := 28
  const L12 := 29
  const MODDI3 := 33
  const L30 := 36
  const L31 := 39
  const L32 := 41

  const SIZE := 45

  /** Offset from instruction k to a label. */
  function To(k: nat, target: nat): u32 {
    Wrap32(4 * (target as int - k as int))
  }

  /** The instructions of div.S, from __divdi3 on. */
  function Listing(k: nat): Insn
    requires k < SIZE
  {
    match k
    case 0 => Insn(BLT, ZERO, A0, ZERO, To(0, L10))
    case 1 => Insn(BLT, ZERO, A1, ZERO, To(1, L11))
    case 2 => Insn(ADDI, A2, A1, ZERO, 0)
    case 3 => Insn(ADDI, A1, A0, ZERO, 0)
    case 4 => Insn(ADDI, A0, ZERO, ZERO, Wrap32(-1))
    case 5 => Insn(BEQ, ZERO, A2, ZERO, To(5, L5))
    case 6 => Insn(ADDI, A3, ZERO, ZERO, 1)
    case 7 => Insn(BGEU, ZERO, A2, A1, To(7, L2))
    case 8 => Insn(BGE, ZERO, ZERO, A2, To(8, L2))
    case 9 => Insn(SLLI, A2, A2, ZERO, 1)
    case 10 => Insn(SLLI, A3, A3, ZERO, 1)
    case 11 => Insn(BLTU, ZERO, A2, A1, To(11, L1))
    case 12 => Insn(ADDI, A0, ZERO, ZERO, 0)
    case 13 => Insn(BLTU, ZERO, A1, A2, To(13, L4))
    case 14 => Insn(SUB, A1, A1, A2, 0)
    case 15 => Insn(OR, A0, A0, A3, 0)
    case 16 => Insn(SRLI, A3, A3, ZERO, 1)
    case 17 => Insn(SRLI, A2, A2, ZERO, 1)
    case 18 => Insn(BNE, ZERO, A3, ZERO, To(18, L3))
    case 19 => Insn(JALR, ZERO, RA, ZERO, 0)
    case 20 => Insn(ADDI, T0, RA, ZERO, 0)
    case 21 => Insn(JAL, RA, ZERO, ZERO, To(21, UDIVDI3))
    case 22 => Insn(ADDI, A0, A1, ZERO, 0)
    case 23 => Insn(JALR, ZERO, T0, ZERO, 0)
    case 24 => Insn(SUB, A0, ZERO, A0, 0)
    case 25 => Insn(BLT, ZERO, ZERO, A1, To(25, L12))
    case 26 => Insn(SUB, A1, ZERO, A1, 0)
    case 27 => Insn(JAL, ZERO, ZERO, ZERO, To(27, UDIVDI3))
    case 28 => Insn(SUB, A1, ZERO, A1, 0)
    case 29 => Insn(ADDI, T0, RA, ZERO, 0)
    case 30 => Insn(JAL, RA, ZERO, ZERO, To(30, UDIVDI3))
    case 31 => Insn(SUB, A0, ZERO, A0, 0)
    case 32 => Insn(JALR, ZERO, T0, ZERO, 0)
    case 33 => Insn(ADDI, T0, RA, ZERO, 0)
    case 34 => Insn(BLT, ZERO, A1, ZERO, To(34, L31))
    case 35 => Insn(BLT, ZERO, A0, ZERO, To(35, L32))
    case 36 => Insn(JAL, RA, ZERO, ZERO, To(36, UDIVDI3))
    case 37 => Insn(ADDI, A0, A1, ZERO, 0)
    case 38 => Insn(JALR, ZERO, T0, ZERO, 0)
    case 39 => Insn(SUB, A1, ZERO, A1, 0)
    case 40 => Insn(BGE, ZERO, A0, ZERO, To(40, L30))
    case 41 => Insn(SUB, A0, ZERO, A0, 0)
    case 42 => Insn(JAL, RA, ZERO, ZERO, To(42, UDIVDI3))
    case 43 => Insn(SUB, A0, ZERO, A1, 0)
    case _ => Insn(JALR, ZERO, T0, ZERO, 0)
  }

  lemma ListingIsEncodable(k: nat)
    requires k < SIZE
    ensures Encodable(Listing(k))
  {
    hide InSignedRange, To, Wrap32;
    OffsetsFit();
  }

  lemma OffsetsFit()
    ensures forall k, target :: 0 <= k < SIZE && 0 <= target < SIZE ==> InSignedRange(To(k, target), 0x1000) && To(k, target) % 2 == 0
    ensures forall k, target :: 0 <= k < SIZE && 0 <= target < SIZE ==> InSignedRange(To(k, target), 0x10_0000)
    ensures InSignedRange(0, 0x800) && InSignedRange(1, 0x800) && InSignedRange(Wrap32(-1), 0x800)
  {
  }

  lemma ListingIsPlain(k: nat)
    requires k < SIZE
    ensures !Ends(Listing(k).op) && forall regs :: AccessOf(Listing(k), regs).None?
  {
    hide To, Wrap32;
  }

  /** The assembled routines are in memory from `base` on. */
  ghost predicate Loaded(f: FlatMemory, base: u32) {
    && base % 4 == 0 && base + 4 * SIZE <= U32_MAX
    && (forall k :: 0 <= k < SIZE ==> Word(f, base + 4 * k) == Assembled(Listing(k)).Join())
  }

  /** A memory with the first n instructions in place. */
  function Image(base: u32, n: nat): FlatMemory
    requires n <= SIZE && base + 4 * SIZE <= U32_MAX
  {
    if n == 0 then (a: u32) => 0
    else Write(Image(base, n - 1), base + 4 * (n - 1), PagedState.ToLittleEndian(Assembled(Listing(n - 1)).Join(), 4))
  }

  lemma {:induction false} ImageHolds(base: u32, n: nat, k: nat)
    requires k < n <= SIZE && base + 4 * SIZE <= U32_MAX
    ensures Word(Image(base, n), base + 4 * k) == Assembled(Listing(k)).Join()
  {
    hide Listing, Assembled, Parts.Join, Word, Write, Encodable, Fields;
    var before, bytes := Image(base, n - 1), PagedState.ToLittleEndian(Assembled(Listing(n - 1)).Join(), 4);
    if k == n - 1 {
      ListingIsEncodable(k);
      DecodesAssembled(Listing(k));
      WordWritten(before, base + 4 * k, Assembled(Listing(k)).Join());
    } else {
      ImageHolds(base, n - 1, k);
      WordBeside(before, base + 4 * (n - 1), bytes, base + 4 * k);
    }
  }

  /** Wherever the routines are put, there is a memory that holds them. */
  lemma CanBeLoaded(base: u32)
    requires base % 4 == 0 && base + 4 * SIZE <= U32_MAX
    ensures Loaded(Image(base, SIZE), base)
  {
    forall k | 0 <= k < SIZE
      ensures Word(Image(base, SIZE), base + 4 * k) == Assembled(Listing(k)).Join()
    {
      ImageHolds(base, SIZE, k);
    }
  }

  /** The guest is about to execute instruction k. */
  ghost predicate At(m: Guest, base: u32, k: nat) {
    k < SIZE && Loaded(m.memory, base) && m.cpu.pc == base + 4 * k && m.cpu.regs[ZERO] == 0
  }

  /** The guest gets from one state to another in some number of instructions. */
  ghost predicate Leads(m: Guest, t: Guest) {
    exists n: nat :: Steps(m, n) == Some(t)
  }

  lemma LeadsNowhere(m: Guest)
    ensures Leads(m, m)
  {
    assert Steps(m, 0) == Some(m);
  }

  lemma LeadsOn(m: Guest, t: Guest, t': Guest)
    requires Leads(m, t) && Step(t) == Some(t')
    ensures Leads(m, t')
  {
    hide Step;
    var n: nat :| Steps(m, n) == Some(t);
    assert Steps(m, n + 1) == Some(t');
  }

  lemma Executes(m: Guest, base: u32, k: nat)
    requires At(m, base, k)
    ensures Step(m) == Some(Guest(Next(Listing(k), m.cpu, 0), m.memory))
  {
    hide Listing, Next, Encodable, Assembled, Fields;
    ListingIsEncodable(k);
    ListingIsPlain(k);
    DecodesAssembled(Listing(k));
  }

  /** One register has a new value. */
  ghost predicate Sets(regs: Registers, regs': Registers, rd: Reg, value: u32) {
    regs'[rd] == value && forall r: Reg :: r != rd ==> regs'[r] == regs[r]
  }

  lemma OffsetTo(base: u32, k: nat, target: nat)
    requires k < SIZE && target < SIZE && base + 4 * SIZE <= U32_MAX
    ensures Wrap32(base + 4 * k + To(k, target)) == base + 4 * target
  {
  }

  function Result(i: Insn, regs: Registers): u32
    requires i.op in {ADDI, SLLI, SRLI, SUB, OR}
  {
    Alu(i.op, regs[i.rs1], SecondOperand(i, regs)).value
  }

  /** An arithmetic instruction. */
  lemma Arithmetic(m0: Guest, m: Guest, base: u32, k: nat) returns (t: Guest)
    requires Leads(m0, m) && At(m, base, k) && k + 1 < SIZE
    requires Listing(k).op in {ADDI, SLLI, SRLI, SUB, OR} && Listing(k).rd != ZERO
    ensures Leads(m0, t) && At(t, base, k + 1) && t.memory == m.memory
    ensures
      Sets(m.cpu.regs, t.cpu.regs, Listing(k).rd, Result(Listing(k), m.cpu.regs))
  {
    hide Listing, Step, Steps, Leads, Loaded;
    Executes(m, base, k);
    t := Guest(Next(Listing(k), m.cpu, 0), m.memory);
    InBounds(m, base);
    WrapSmall(m.cpu.pc + 4);
    LeadsOn(m0, m, t);
  }

  lemma InBounds(m: Guest, base: u32)
    requires Loaded(m.memory, base)
    ensures base % 4 == 0 && base + 4 * SIZE <= U32_MAX
  {
  }

  /** A conditional branch. */
  lemma Branch(m0: Guest, m: Guest, base: u32, k: nat, target: nat) returns (t: Guest)
    requires Leads(m0, m) && At(m, base, k) && k + 1 < SIZE && target < SIZE
    requires Listing(k).op in {BEQ, BNE, BLT, BGE, BLTU, BGEU} && Listing(k).imm == To(k, target)
    ensures Leads(m0, t) && t.memory == m.memory && t.cpu.regs == m.cpu.regs
    ensures
      var i := Listing(k);
      At(t, base, if Taken(i.op, m.cpu.regs[i.rs1], m.cpu.regs[i.rs2]) == Some(true) then target else k + 1)
  {
    hide Listing, Step, Steps, Leads, Loaded, To;
    Executes(m, base, k);
    t := Guest(Next(Listing(k), m.cpu, 0), m.memory);
    InBounds(m, base);
    WrapSmall(m.cpu.pc + 4);
    OffsetTo(base, k, target);
    LeadsOn(m0, m, t);
  }

  /** A jump to a label, linking in rd. */
  lemma Call(m0: Guest, m: Guest, base: u32, k: nat, target: nat) returns (t: Guest)
    requires Leads(m0, m) && At(m, base, k) && k + 1 < SIZE && target < SIZE
    requires Listing(k).op == JAL && Listing(k).imm == To(k, target)
    ensures Leads(m0, t) && At(t, base, target) && t.memory == m.memory
    ensures Sets(m.cpu.regs, t.cpu.regs, Listing(k).rd, if Listing(k).rd == ZERO then 0 else base + 4 * (k + 1))
  {
    hide Listing, Step, Steps, Leads, Loaded, To;
    Executes(m, base, k);
    t := Guest(Next(Listing(k), m.cpu, 0), m.memory);
    InBounds(m, base);
    WrapSmall(m.cpu.pc + 4);
    OffsetTo(base, k, target);
    LeadsOn(m0, m, t);
  }

  /** A return through a register. */
  lemma Return(m0: Guest, m: Guest, base: u32, k: nat) returns (t: Guest)
    requires Leads(m0, m) && At(m, base, k)
    requires Listing(k).op == JALR && Listing(k).rd == ZERO && Listing(k).imm == 0
    ensures Leads(m0, t) && t.memory == m.memory && t.cpu == CpuState(Even(m.cpu.regs[Listing(k).rs1]), m.cpu.regs)
  {
    hide Listing, Step, Steps, Leads, Loaded;
    Executes(m, base, k);
    t := Guest(Next(Listing(k), m.cpu, 0), m.memory);
    WrapSmall(m.cpu.regs[Listing(k).rs1]);
    assert m.cpu.regs[0 := 0] == m.cpu.regs;
    LeadsOn(m0, m, t);
  }

  // ---- __udivdi3 ----

  /** Unsigned quotient and remainder, with what division by zero gives. */
  function Quot(a: u32, b: u32): u32 {
    if b == 0 then U32_MAX else (DivAtMost(a, b); a / b)
  }

  function Rem(a: u32, b: u32): u32 {
    if b == 0 then a else a % b
  }

  /** What the routine leaves: quotient, remainder and scratch in a0 to a3, the rest untouched. */
  ghost predicate Divides(regs: Registers, regs': Registers, a: u32, b: u32) {
    && regs'[A0] == Quot(a, b) && regs'[A1] == Rem(a, b)
    && (forall r: Reg :: r !in {A0, A1, A2, A3} ==> regs'[r] == regs[r])
  }

  ghost predicate SameOthers(regs: Registers, regs': Registers) {
    forall r: Reg :: r !in {A0, A1, A2, A3} ==> regs'[r] == regs[r]
  }

  ghost predicate DoubleLoop(m: Guest, base: u32, a: u32, b: u32, k: nat) {
    var regs := m.cpu.regs;
    && At(m, base, L1) && b > 0 && regs[A1] == a > regs[A2]
    && regs[A2] == b * Pow(2, k) && regs[A3] == Pow(2, k)
  }

  ghost predicate Doubled(m: Guest, base: u32, a: u32, b: u32, k: nat) {
    var regs := m.cpu.regs;
    && At(m, base, L2) && b > 0 && regs[A1] == a && a < 2 * (b * Pow(2, k))
    && regs[A2] == b * Pow(2, k) && regs[A3] == Pow(2, k)
  }

  lemma ShiftLeftOnce(x: u32)
    requires 2 * x <= U32_MAX
    ensures Alu(SLLI, x, 1) == Some(2 * x)
  {
    assert Pow(2, 1) == 2;
    WrapSmall(2 * x);
  }

  lemma ShiftRightOnce(x: u32)
    ensures Alu(SRLI, x, 1) == Some(x / 2)
  {
    assert Pow(2, 1) == 2;
  }

  /** .L1: doubles a2 and a3 until a2 is at least a1 or its top bit is set; neither overflows. */
  lemma {:induction false} Doubling(m0: Guest, m: Guest, base: u32, a: u32, b: u32, k: nat) returns (t: Guest, j: nat)
    requires Leads(m0, m) && DoubleLoop(m, base, a, b, k)
    ensures Leads(m0, t) && Doubled(t, base, a, b, j) && t.memory == m.memory && SameOthers(m.cpu.regs, t.cpu.regs)
    decreases U32_MAX - m.cpu.regs[A2]
  {
    hide Leads, Loaded, Alu, Pow, To;
    var regs := m.cpu.regs;
    DoubleBit(b, k);
    j := k;
    t := Branch(m0, m, base, L1, L2);
    if regs[A2] < 0x8000_0000 {
      var m1 := Arithmetic(m0, t, base, 9);
      ShiftLeftOnce(regs[A2]);
      var m2 := Arithmetic(m0, m1, base, 10);
      ShiftLeftOnce(regs[A3]);
      t := Branch(m0, m2, base, 11, L1);
      j := k + 1;
      if a > 2 * regs[A2] {
        t, j := Doubling(m0, t, base, a, b, k + 1);
      }
    }
  }

  ghost predicate SubtractLoop(m: Guest, base: u32, a: u32, b: u32, k: nat) {
    var regs := m.cpu.regs;
    && At(m, base, L3) && b > 0 && regs[A2] == b * Pow(2, k) && regs[A3] == Pow(2, k)
    && Subtracting(a, b, k, regs[A0], regs[A1])
  }

  ghost predicate Finished(m: Guest, base: u32, a: u32, b: u32) {
    At(m, base, L5) && b > 0 && m.cpu.regs[A0] == a / b && m.cpu.regs[A1] == a % b
  }

  /** .L3 to .L4: subtract and set the bit if the divisor fits. */
  lemma SubtractOnce(m0: Guest, m: Guest, base: u32, a: u32, b: u32, k: nat) returns (t: Guest)
    requires Leads(m0, m) && SubtractLoop(m, base, a, b, k)
    ensures Leads(m0, t) && At(t, base, L4) && t.memory == m.memory && SameOthers(m.cpu.regs, t.cpu.regs)
    ensures (t.cpu.regs[A0], t.cpu.regs[A1]) == SubtractedBit(b, k, m.cpu.regs[A0], m.cpu.regs[A1])
    ensures t.cpu.regs[A2] == m.cpu.regs[A2] && t.cpu.regs[A3] == m.cpu.regs[A3]
  {
    hide Leads, Loaded, Alu, Pow, To, Or, Subtracting;
    var regs := m.cpu.regs;
    SubtractBit(a, b, k, regs[A0], regs[A1]);
    t := Branch(m0, m, base, L3, L4);
    if regs[A1] >= regs[A2] {
      var m1 := Arithmetic(m0, t, base, 14);
      SubtractWords(regs[A1], regs[A2]);
      t := Arithmetic(m0, m1, base, 15);
      QuotientFits(regs[A0] + regs[A3], a, b);
      OrWords(regs[A0], regs[A3]);
    }
  }

  lemma SubtractWords(x: u32, y: u32)
    requires y <= x
    ensures Alu(SUB, x, y) == Some(x - y)
  {
    WrapSmall(x - y);
  }

  lemma QuotientFits(x: nat, a: nat, b: nat)
    requires x * b <= a && b > 0
    ensures x <= a
  {
    MulMonotone(1, b, x);
  }

  lemma OrWords(x: u32, y: u32)
    requires Or(x, y) == x + y <= U32_MAX
    ensures Alu(OR, x, y) == Some(x + y)
  {
    hide Or;
    WrapSmall(x + y);
  }

  /** .L3 to .L5: one bit of the quotient a round. */
  lemma {:induction false} Subtraction(m0: Guest, m: Guest, base: u32, a: u32, b: u32, k: nat) returns (t: Guest)
    requires Leads(m0, m) && SubtractLoop(m, base, a, b, k)
    ensures Leads(m0, t) && Finished(t, base, a, b) && t.memory == m.memory && SameOthers(m.cpu.regs, t.cpu.regs)
    decreases k
  {
    hide Leads, Loaded, Alu, Pow, To, Or, Subtracting, SubtractedBit;
    var regs := m.cpu.regs;
    SubtractBit(a, b, k, regs[A0], regs[A1]);
    var m1 := SubtractOnce(m0, m, base, a, b, k);
    var m2 := Arithmetic(m0, m1, base, L4);
    ShiftRightOnce(regs[A3]);
    var m3 := Arithmetic(m0, m2, base, 17);
    ShiftRightOnce(regs[A2]);
    t := Branch(m0, m3, base, 18, L3);
    LowBit(b, k);
    if k > 0 {
      LowerBit(a, b, k, m1.cpu.regs[A0], m1.cpu.regs[A1]);
      t := Subtraction(m0, t, base, a, b, k - 1);
    } else {
      Quotient(a, b, t.cpu.regs[A0], t.cpu.regs[A1]);
    }
  }

  ghost predicate Entered(m: Guest, base: u32, a: u32, b: u32) {
    At(m, base, 5) && m.cpu.regs[A0] == U32_MAX && m.cpu.regs[A1] == a && m.cpu.regs[A2] == b
  }

  /** The three moves at the entry. */
  lemma Entry(m0: Guest, m: Guest, base: u32) returns (t: Guest)
    requires Leads(m0, m) && At(m, base, UDIVDI3)
    ensures Leads(m0, t) && t.memory == m.memory && SameOthers(m.cpu.regs, t.cpu.regs)
    ensures Entered(t, base, m.cpu.regs[A0], m.cpu.regs[A1])
  {
    hide Leads, Loaded, Alu, To;
    var m1 := Arithmetic(m0, m, base, 2);
    AddZero(m.cpu.regs[A1]);
    var m2 := Arithmetic(m0, m1, base, 3);
    AddZero(m.cpu.regs[A0]);
    t := Arithmetic(m0, m2, base, 4);
    LoadMinusOne();
  }

  lemma AddZero(x: u32)
    ensures Alu(ADDI, x, 0) == Some(x) && Alu(ADDI, 0, x) == Some(x)
  {
    WrapSmall(x);
  }

  lemma LoadMinusOne()
    ensures Alu(ADDI, 0, Wrap32(-1)) == Some(U32_MAX)
  {
  }

  /** From the test for zero to .L2: the divisor is scaled up. */
  lemma Scale(m0: Guest, m: Guest, base: u32, a: u32, b: u32) returns (t: Guest, k: nat)
    requires Leads(m0, m) && Entered(m, base, a, b) && b > 0
    ensures Leads(m0, t) && Doubled(t, base, a, b, k) && t.memory == m.memory && SameOthers(m.cpu.regs, t.cpu.regs)
  {
    hide Leads, Loaded, Alu, To;
    var m1 := Branch(m0, m, base, 5, L5);
    var m2 := Arithmetic(m0, m1, base, 6);
    AddZero(1);
    k := 0;
    t := Branch(m0, m2, base, 7, L2);
    if b < a {
      t, k := Doubling(m0, t, base, a, b, 0);
    }
  }

  /** __udivdi3: quotient and remainder of every dividend and divisor. */
  lemma UnsignedDivision(m0: Guest, m: Guest, base: u32) returns (t: Guest)
    requires Leads(m0, m) && At(m, base, UDIVDI3)
    ensures Leads(m0, t) && t.memory == m.memory && t.cpu.pc == Even(m.cpu.regs[RA])
    ensures Divides(m.cpu.regs, t.cpu.regs, m.cpu.regs[A0], m.cpu.regs[A1])
  {
    hide Leads, Loaded, Alu, To, Even, Subtracting;
    var a, b := m.cpu.regs[A0], m.cpu.regs[A1];
    t := Entry(m0, m, base);
    if b == 0 {
      t := Branch(m0, t, base, 5, L5);
    } else {
      var k;
      t, k := Scale(m0, t, base, a, b);
      t := Arithmetic(m0, t, base, L2);
      AddZero(0);
      SubtractionStarts(a, b, k);
      t := Subtraction(m0, t, base, a, b, k);
    }
    t := Return(m0, t, base, L5);
  }

  // ---- The other entries ----

  /** What a caller can rely on: all but the argument, scratch and link registers. */
  ghost predicate Preserves(regs: Registers, regs': Registers) {
    forall r: Reg :: r !in {RA, T0, A0, A1, A2, A3} ==> regs'[r] == regs[r]
  }

  /** Calls __udivdi3 from instruction k with the return address saved in t0. */
  lemma NestedDivision(m0: Guest, m: Guest, base: u32, k: nat) returns (t: Guest)
    requires Leads(m0, m) && At(m, base, k) && k + 1 < SIZE
    requires Listing(k) == Insn(JAL, RA, ZERO, ZERO, To(k, UDIVDI3))
    ensures Leads(m0, t) && At(t, base, k + 1) && t.memory == m.memory && t.cpu.regs[T0] == m.cpu.regs[T0]
    ensures Preserves(m.cpu.regs, t.cpu.regs)
    ensures t.cpu.regs[A0] == Quot(m.cpu.regs[A0], m.cpu.regs[A1]) && t.cpu.regs[A1] == Rem(m.cpu.regs[A0], m.cpu.regs[A1])
  {
    hide Leads, Loaded, Alu, To, Listing, Quot, Rem;
    t := Call(m0, m, base, k, UDIVDI3);
    t := UnsignedDivision(m0, t, base);
    InBounds(m, base);
  }

  /** __umoddi3. */
  lemma UnsignedRemainder(m: Guest, base: u32) returns (t: Guest)
    requires At(m, base, UMODDI3)
    ensures Leads(m, t) && t.memory == m.memory && t.cpu.pc == Even(m.cpu.regs[RA]) && Preserves(m.cpu.regs, t.cpu.regs)
    ensures t.cpu.regs[A0] == Rem(m.cpu.regs[A0], m.cpu.regs[A1])
  {
    hide Leads, Loaded, Alu, To, Even;
    LeadsNowhere(m);
    t := Arithmetic(m, m, base, UMODDI3);
    AddZero(m.cpu.regs[RA]);
    t := NestedDivision(m, t, base, 21);
    AddZero(t.cpu.regs[A1]);
    t := Arithmetic(m, t, base, 22);
    t := Return(m, t, base, 23);
  }

  function Abs(x: int): nat {
    if x < 0 then -x else x
  }

  /** The remainder that goes with TruncDiv. */
  function TruncRem(a: int, b: int): int
    requires b != 0
  {
    a - b * TruncDiv(a, b)
  }

  /** q and r are the quotient rounded toward zero and its remainder. */
  predicate Truncates(a: int, b: int, q: int, r: int) {
    a == b * q + r && Abs(r) < Abs(b) && (r == 0 || (r < 0 <==> a < 0))
  }

  lemma TruncDivTruncates(a: int, b: int)
    requires b != 0
    ensures Truncates(a, b, TruncDiv(a, b), TruncRem(a, b))
  {
    if a >= 0 {
      assert a == b * (a / b) + a % b;
    } else {
      assert -a == b * (-a / b) + (-a) % b;
      assert b * -(-a / b) == -(b * (-a / b));
    }
  }

  /** Dividing the magnitudes gives the truncating quotient and remainder up to their signs. */
  lemma SignsOf(a: int, b: int)
    requires b != 0
    ensures TruncDiv(a, b) == if (a < 0) == (b < 0) then Abs(a) / Abs(b) else -(Abs(a) / Abs(b))
    ensures TruncRem(a, b) == if a < 0 then -(Abs(a) % Abs(b)) else Abs(a) % Abs(b)
  {
    var x, y := Abs(a), Abs(b);
    var q: int, r: int := x / y, x % y;
    assert x == y * q + r;
    if b < 0 {
      Euclid(x, y);
    }
    assert b * (0 - q) == 0 - b * q && b * q == (if b < 0 then 0 - y * q else y * q);
  }

  /** Euclidean division by a negative number. */
  lemma Euclid(x: nat, y: nat)
    requires y > 0
    ensures x / (0 - y) == 0 - x / y
  {
    var q, r := x / (0 - y), x % (0 - y);
    var p := 0 - q;
    assert x == (0 - y) * q + r && 0 <= r < y;
    assert (0 - y) * q == p * y;
    assert p * y > 0 - (y as int);
    DivStep(p, y, r);
  }

  function Negated(x: u32): u32 {
    Wrap32(0 - x)
  }

  lemma Negates(x: u32)
    ensures Alu(SUB, 0, x) == Some(Wrap32(-Signed(x))) == Some(Negated(x))
    ensures Signed(x) <= 0 ==> Wrap32(-Signed(x)) == Abs(Signed(x))
    ensures Signed(x) >= 0 ==> x == Abs(Signed(x))
  {
  }

  /** __divdi3: the quotient rounded toward zero, as the DIV instruction computes it but for INT_MIN / -1. */
  lemma SignedDivision(m: Guest, base: u32) returns (t: Guest)
    requires At(m, base, DIVDI3)
    ensures Leads(m, t) && t.memory == m.memory && t.cpu.pc == Even(m.cpu.regs[RA]) && Preserves(m.cpu.regs, t.cpu.regs)
    ensures
      var a, b := m.cpu.regs[A0], m.cpu.regs[A1];
      && t.cpu.regs[A0] == (if b == 0 then U32_MAX else Wrap32(TruncDiv(Signed(a), Signed(b))))
      && (!(a == 0x8000_0000 && b == U32_MAX) ==> Alu(DIV, a, b) == Some(t.cpu.regs[A0]))
  {
    hide Leads, Loaded, Alu, To, Even, TruncDiv, Quot, Rem, Negated;
    var a, b := m.cpu.regs[A0], m.cpu.regs[A1];
    Negates(a);
    Negates(b);
    QuotientOfMagnitudes(a, b);
    LeadsNowhere(m);
    t := Branch(m, m, base, 0, L10);
    if Signed(a) < 0 {
      t := NegativeNumerator(m, t, base);
    } else {
      t := Branch(m, t, base, 1, L11);
      if Signed(b) < 0 {
        t := Arithmetic(m, t, base, L11);
        t := NegatedDivision(m, t, base);
      } else {
        t := UnsignedDivision(m, t, base);
      }
    }
  }

  /** .L10: a negative dividend; zero counts as a negative divisor. */
  lemma NegativeNumerator(m0: Guest, m: Guest, base: u32) returns (t: Guest)
    requires Leads(m0, m) && At(m, base, L10)
    ensures Leads(m0, t) && t.memory == m.memory && t.cpu.pc == Even(m.cpu.regs[RA]) && Preserves(m.cpu.regs, t.cpu.regs)
    ensures
      var a, b := m.cpu.regs[A0], m.cpu.regs[A1];
      t.cpu.regs[A0] == if Signed(b) <= 0 then Quot(Negated(a), Negated(b)) else Negated(Quot(Negated(a), b))
  {
    hide Leads, Loaded, Alu, To, Even, Quot, Rem, Negated;
    SubtractFromZero(m.cpu.regs[A0]);
    SubtractFromZero(m.cpu.regs[A1]);
    t := Arithmetic(m0, m, base, L10);
    t := Branch(m0, t, base, 25, L12);
    if Signed(m.cpu.regs[A1]) <= 0 {
      t := Arithmetic(m0, t, base, 26);
      t := Call(m0, t, base, 27, UDIVDI3);
      t := UnsignedDivision(m0, t, base);
    } else {
      t := NegatedDivision(m0, t, base);
    }
  }

  /** The quotient of the magnitudes, negated when the signs differ. */
  lemma QuotientOfMagnitudes(a: u32, b: u32)
    ensures
      var q := if b == 0 then U32_MAX else Wrap32(TruncDiv(Signed(a), Signed(b)));
      && (Signed(a) < 0 && Signed(b) <= 0 ==> q == Quot(Negated(a), Negated(b)))
      && (Signed(a) < 0 && Signed(b) > 0 ==> q == Negated(Quot(Negated(a), b)))
      && (Signed(a) >= 0 && Signed(b) < 0 ==> q == Negated(Quot(a, Negated(b))))
      && (Signed(a) >= 0 && Signed(b) >= 0 ==> q == Quot(a, b))
      && (!(a == 0x8000_0000 && b == U32_MAX) ==> Alu(DIV, a, b) == Some(q))
  {
    hide TruncDiv, Quot, Negated, Wrap32;
    Negates(a);
    Negates(b);
    if b != 0 {
      SignsOf(Signed(a), Signed(b));
      QuotientWord(Abs(Signed(a)), Abs(Signed(b)));
    } else {
      QuotientByZero(a);
    }
    if !(a == 0x8000_0000 && b == U32_MAX) {
      DivAgrees(a, b);
    }
  }

  lemma QuotientWord(x: u32, y: u32)
    requires y > 0
    ensures Quot(x, y) == Wrap32(x / y) && Negated(Quot(x, y)) == Wrap32(0 - x / y)
  {
    DivAtMost(x, y);
    WrapSmall(x / y);
  }

  lemma QuotientByZero(a: u32)
    ensures Quot(a, 0) == U32_MAX && Negated(0) == 0
    ensures Quot(Negated(a), Negated(0)) == U32_MAX
  {
  }

  lemma DivAgrees(a: u32, b: u32)
    requires !(a == 0x8000_0000 && b == U32_MAX)
    ensures Alu(DIV, a, b) == Some(if b == 0 then U32_MAX else Wrap32(TruncDiv(Signed(a), Signed(b))))
  {
  }

  /** .L12: divides and negates the quotient. */
  lemma NegatedDivision(m0: Guest, m: Guest, base: u32) returns (t: Guest)
    requires Leads(m0, m) && At(m, base, L12)
    ensures Leads(m0, t) && t.memory == m.memory && t.cpu.pc == Even(m.cpu.regs[RA]) && Preserves(m.cpu.regs, t.cpu.regs)
    ensures t.cpu.regs[A0] == Negated(Quot(m.cpu.regs[A0], m.cpu.regs[A1]))
  {
    hide Leads, Loaded, Alu, To, Even, Quot, Rem, Negated;
    t := Arithmetic(m0, m, base, L12);
    AddZero(m.cpu.regs[RA]);
    t := NestedDivision(m0, t, base, 30);
    SubtractFromZero(t.cpu.regs[A0]);
    t := Arithmetic(m0, t, base, 31);
    t := Return(m0, t, base, 32);
  }

  lemma SubtractFromZero(x: u32)
    ensures Alu(SUB, 0, x) == Some(Negated(x))
  {
  }

  /** __moddi3: the remainder has the sign of the dividend. */
  lemma SignedRemainder(m: Guest, base: u32) returns (t: Guest)
    requires At(m, base, MODDI3)
    ensures Leads(m, t) && t.memory == m.memory && t.cpu.pc == Even(m.cpu.regs[RA]) && Preserves(m.cpu.regs, t.cpu.regs)
    ensures
      var a, b := m.cpu.regs[A0], m.cpu.regs[A1];
      t.cpu.regs[A0] == if b == 0 then a else Wrap32(TruncRem(Signed(a), Signed(b)))
  {
    hide Leads, Loaded, Alu, To, Even, Quot, Rem, TruncRem, Negated;
    var a, b := m.cpu.regs[A0], m.cpu.regs[A1];
    Negates(a);
    Negates(b);
    LeadsNowhere(m);
    t := Arithmetic(m, m, base, MODDI3);
    AddZero(m.cpu.regs[RA]);
    t := Branch(m, t, base, 34, L31);
    if Signed(b) < 0 {
      t := Arithmetic(m, t, base, L31);
      t := Branch(m, t, base, 40, L30);
    } else {
      t := Branch(m, t, base, 35, L32);
    }
    RemainderOfMagnitudes(a, b, t.cpu.regs[A1]);
    if Signed(a) < 0 {
      t := NegativeDividend(m, t, base);
    } else {
      t := PositiveDividend(m, t, base);
    }
  }

  /** .L30: the remainder itself. */
  lemma PositiveDividend(m0: Guest, m: Guest, base: u32) returns (t: Guest)
    requires Leads(m0, m) && At(m, base, L30)
    ensures Leads(m0, t) && t.memory == m.memory && t.cpu.pc == Even(m.cpu.regs[T0]) && Preserves(m.cpu.regs, t.cpu.regs)
    ensures t.cpu.regs[A0] == Rem(m.cpu.regs[A0], m.cpu.regs[A1])
  {
    hide Leads, Loaded, Alu, To, Even, Quot, Rem;
    t := NestedDivision(m0, m, base, L30);
    AddZero(t.cpu.regs[A1]);
    t := Arithmetic(m0, t, base, 37);
    t := Return(m0, t, base, 38);
  }

  /** .L32: the dividend is negated, and so is the remainder. */
  lemma NegativeDividend(m0: Guest, m: Guest, base: u32) returns (t: Guest)
    requires Leads(m0, m) && At(m, base, L32)
    ensures Leads(m0, t) && t.memory == m.memory && t.cpu.pc == Even(m.cpu.regs[T0]) && Preserves(m.cpu.regs, t.cpu.regs)
    ensures t.cpu.regs[A0] == Negated(Rem(Negated(m.cpu.regs[A0]), m.cpu.regs[A1]))
  {
    hide Leads, Loaded, Alu, To, Even, Quot, Rem, Negated;
    SubtractFromZero(m.cpu.regs[A0]);
    t := Arithmetic(m0, m, base, L32);
    t := NestedDivision(m0, t, base, 42);
    SubtractFromZero(t.cpu.regs[A1]);
    t := Arithmetic(m0, t, base, 43);
    t := Return(m0, t, base, 44);
  }

  /** The remainder of the magnitudes, with the sign of the dividend. */
  lemma RemainderOfMagnitudes(a: u32, b: u32, divisor: u32)
    requires divisor == (if Signed(b) < 0 then Negated(b) else b)
    ensures
      (if Signed(a) < 0 then Negated(Rem(Negated(a), divisor)) else Rem(a, divisor))
      == (if b == 0 then a else Wrap32(TruncRem(Signed(a), Signed(b))))
  {
    hide TruncRem, TruncDiv;
    Negates(a);
    Negates(b);
    if b != 0 {
      SignsOf(Signed(a), Signed(b));
      RemainderWord(a, divisor);
    }
  }

  lemma RemainderWord(a: u32, divisor: u32)
    requires divisor > 0
    ensures Wrap32(a % divisor) == a % divisor
  {
  }
}
