/** The RISC-V interpreter, vm/src/cpu.c and vm/src/rv_cpu.h, on a flat memory. */
module Cpu {
  import opened Machine
  import opened Numerals
  import opened Bits
  import opened PagedState
  import opened Flat
  import opened Runs

  datatype Op =
    | UNKNOWN | LUI | AUIPC | JAL | JALR
    | BEQ | BNE | BLT | BGE | BLTU | BGEU
    | LB | LH | LW | LBU | LHU | SB | SH | SW
    | ADDI | SLTI | SLTIU | XORI | ORI | ANDI | SLLI | SRLI | SRAI
    | ADD | SUB | SLL | SLT | SLTU | XOR | SRL | SRA | OR | AND
    | FENCE | FENCE_TSO | PAUSE | ECALL | EBREAK
    | MUL | MULH | MULHSU | MULHU | DIV | DIVU | REM | REMU

  type Reg = r: int | 0 <= r < 32

  const ZERO: Reg := 0
  const RA: Reg := 1
  const T0: Reg := 5
  const A0: Reg := 10
  const A1: Reg := 11
  const A2: Reg := 12
  const A3: Reg := 13

  // ---- union rv_inst ----

  /** The instruction word as the union's first struct splits it. */
  datatype Parts = Parts(opcode: nat, rd: Reg, funct3: nat, rs1: Reg, rs2: Reg, funct7: nat) {
    predicate Fits() {
      opcode < 128 && funct3 < 8 && funct7 < 128
    }

    function Join(): nat {
      opcode + 0x80 * (rd + 32 * (funct3 + 8 * (rs1 + 32 * (rs2 + 32 * funct7))))
    }
  }

  function Split(inst: u32): (p: Parts)
    ensures p.Fits()
  {
    var a := inst / 0x80;
    var b := a / 32;
    var c := b / 8;
    var d := c / 32;
    Parts(inst % 0x80, a % 32, b % 8, c % 32, d % 32, d / 32)
  }

  lemma SplitJoin(p: Parts)
    requires p.Fits()
    ensures p.Join() <= U32_MAX && Split(p.Join()) == p
  {
    var d := p.rs2 + 32 * p.funct7;
    var c := p.rs1 + 32 * d;
    var b := p.funct3 + 8 * c;
    var a := p.rd + 32 * b;
    Peel(a, 0x80, p.opcode, p.Join());
    Peel(b, 32, p.rd, a);
    Peel(c, 8, p.funct3, b);
    Peel(d, 32, p.rs1, c);
    Peel(p.funct7, 32, p.rs2, d);
  }

  lemma Peel(q: nat, b: nat, r: nat, x: nat)
    requires r < b && x == r + b * q
    ensures x / b == q && x % b == r
  {
    DivStep(q, b, r);
  }

  /** A field of `2 * half` values whose top bit is its sign. */
  function SignExtend(x: nat, half: nat): u32
    requires x < 2 * half <= 0x8000_0000
  {
    if x < half then x else x + 0x1_0000_0000 - 2 * half
  }

  // The immediates: struct i, u, s, b and j of the union overlap these parts.

  function ImmI(p: Parts): u32
    requires p.Fits()
  {
    SignExtend(p.funct7 * 32 + p.rs2, 0x800)
  }

  function ImmU(p: Parts): u32
    requires p.Fits()
  {
    p.funct7 * 0x200_0000 + p.rs2 * 0x10_0000 + p.rs1 * 0x8000 + p.funct3 * 0x1000
  }

  function ImmS(p: Parts): u32
    requires p.Fits()
  {
    SignExtend(p.funct7 * 32 + p.rd, 0x800)
  }

  function ImmB(p: Parts): u32
    requires p.Fits()
  {
    SignExtend(p.funct7 / 64 * 0x1000 + p.rd % 2 * 0x800 + p.funct7 % 64 * 32 + p.rd / 2 * 2, 0x1000)
  }

  function ImmJ(p: Parts): u32
    requires p.Fits()
  {
    SignExtend(p.funct7 / 64 * 0x10_0000 + p.rs1 * 0x8000 + p.funct3 * 0x1000 + p.rs2 % 2 * 0x800
               + p.funct7 % 64 * 32 + p.rs2 / 2 * 2, 0x10_0000)
  }

  function Decode(inst: u32): Op {
    var p := Split(inst);
    if p.opcode == 0x0f then
      if p.funct3 != 0 then UNKNOWN
      else if inst == 0x8330_000f then FENCE_TSO
      else if inst == 0x0100_000f then PAUSE
      else FENCE
    else if p.opcode == 0x73 then if inst == 0x73 then ECALL else if inst == 0x10_0073 then EBREAK else UNKNOWN
    else OpOf(p.opcode, p.funct3, p.funct7)
  }

  function OpOf(opcode: nat, f3: nat, f7: nat): Op {
    match opcode
    case 0x37 => LUI
    case 0x17 => AUIPC
    case 0x6f => JAL
    case 0x67 => if f3 == 0 then JALR else UNKNOWN
    case 0x63 =>
      (match f3
       case 0 => BEQ case 1 => BNE case 4 => BLT case 5 => BGE case 6 => BLTU case 7 => BGEU
       case _ => UNKNOWN)
    case 0x03 =>
      (match f3
       case 0 => LB case 1 => LH case 2 => LW case 4 => LBU case 5 => LHU
       case _ => UNKNOWN)
    case 0x23 =>
      (match f3
       case 0 => SB case 1 => SH case 2 => SW
       case _ => UNKNOWN)
    case 0x13 =>
      (match f3
       case 0 => ADDI case 2 => SLTI case 3 => SLTIU case 4 => XORI case 6 => ORI case 7 => ANDI
       case 1 => if f7 == 0 then SLLI else UNKNOWN
       case 5 => if f7 == 0 then SRLI else if f7 == 0x20 then SRAI else UNKNOWN
       case _ => UNKNOWN)
    case 0x33 => AluOp(f3, f7)
    case _ => UNKNOWN
  }

  function AluOp(f3: nat, f7: nat): Op {
    match (f7, f3)
    case (0, 0) => ADD case (0, 1) => SLL case (0, 2) => SLT case (0, 3) => SLTU
    case (0, 4) => XOR case (0, 5) => SRL case (0, 6) => OR case (0, 7) => AND
    case (0x20, 0) => SUB case (0x20, 5) => SRA
    case (1, 0) => MUL case (1, 1) => MULH case (1, 2) => MULHSU case (1, 3) => MULHU
    case (1, 4) => DIV case (1, 5) => DIVU case (1, 6) => REM case (1, 7) => REMU
    case _ => UNKNOWN
  }

  /** A decoded instruction; the fields its format does not have are zero. */
  datatype Insn = Insn(op: Op, rd: Reg, rs1: Reg, rs2: Reg, imm: u32)

  function Fields(inst: u32): Insn {
    Format(Decode(inst), Split(inst))
  }

  function Format(op: Op, p: Parts): Insn
    requires p.Fits()
  {
    match p.opcode
    case 0x37 => Insn(op, p.rd, 0, 0, ImmU(p))
    case 0x17 => Insn(op, p.rd, 0, 0, ImmU(p))
    case 0x6f => Insn(op, p.rd, 0, 0, ImmJ(p))
    case 0x63 => Insn(op, 0, p.rs1, p.rs2, ImmB(p))
    case 0x23 => Insn(op, 0, p.rs1, p.rs2, ImmS(p))
    case 0x33 => Insn(op, p.rd, p.rs1, p.rs2, 0)
    case _ => Insn(op, p.rd, p.rs1, 0, ImmI(p))
  }

  // ---- The assembler's side ----

  datatype Shape = R | I | S | B | U | J | Other

  function ShapeOf(op: Op): Shape {
    if op in {ADD, SUB, SLL, SLT, SLTU, XOR, SRL, SRA, OR, AND, MUL, MULH, MULHSU, MULHU, DIV, DIVU, REM, REMU} then R
    else if op in {JALR, LB, LH, LW, LBU, LHU, ADDI, SLTI, SLTIU, XORI, ORI, ANDI, SLLI, SRLI, SRAI} then I
    else if op in {SB, SH, SW} then S
    else if op in {BEQ, BNE, BLT, BGE, BLTU, BGEU} then B
    else if op in {LUI, AUIPC} then U
    else if op == JAL then J
    else Other
  }

  /** Opcode, funct3 and, for register formats, funct7 (the RV32I and RV32M instruction listings). */
  function Selector(op: Op): (nat, nat, nat) {
    match op
    case LUI => (0x37, 0, 0) case AUIPC => (0x17, 0, 0) case JAL => (0x6f, 0, 0) case JALR => (0x67, 0, 0)
    case BEQ => (0x63, 0, 0) case BNE => (0x63, 1, 0) case BLT => (0x63, 4, 0)
    case BGE => (0x63, 5, 0) case BLTU => (0x63, 6, 0) case BGEU => (0x63, 7, 0)
    case LB => (0x03, 0, 0) case LH => (0x03, 1, 0) case LW => (0x03, 2, 0) case LBU => (0x03, 4, 0) case LHU => (0x03, 5, 0)
    case SB => (0x23, 0, 0) case SH => (0x23, 1, 0) case SW => (0x23, 2, 0)
    case ADDI => (0x13, 0, 0) case SLTI => (0x13, 2, 0) case SLTIU => (0x13, 3, 0) case XORI => (0x13, 4, 0)
    case ORI => (0x13, 6, 0) case ANDI => (0x13, 7, 0) case SLLI => (0x13, 1, 0) case SRLI => (0x13, 5, 0) case SRAI => (0x13, 5, 0x20)
    case ADD => (0x33, 0, 0) case SUB => (0x33, 0, 0x20) case SLL => (0x33, 1, 0) case SLT => (0x33, 2, 0)
    case SLTU => (0x33, 3, 0) case XOR => (0x33, 4, 0) case SRL => (0x33, 5, 0) case SRA => (0x33, 5, 0x20)
    case OR => (0x33, 6, 0) case AND => (0x33, 7, 0)
    case MUL => (0x33, 0, 1) case MULH => (0x33, 1, 1) case MULHSU => (0x33, 2, 1) case MULHU => (0x33, 3, 1)
    case DIV => (0x33, 4, 1) case DIVU => (0x33, 5, 1) case REM => (0x33, 6, 1) case REMU => (0x33, 7, 1)
    case _ => (0, 0, 0)
  }

  /** imm is a signed value of `2 * half` possibilities. */
  predicate InSignedRange(imm: u32, half: nat) {
    imm < half || imm + half >= 0x1_0000_0000
  }

  /** An instruction its format can hold. */
  predicate Encodable(i: Insn) {
    match ShapeOf(i.op)
    case R => i.imm == 0
    case I =>
      && i.rs2 == 0
      && (if i.op in {SLLI, SRLI} then i.imm < 32 else if i.op == SRAI then 0x400 <= i.imm < 0x420 else InSignedRange(i.imm, 0x800))
    case S => i.rd == 0 && InSignedRange(i.imm, 0x800)
    case B => i.rd == 0 && i.imm % 2 == 0 && InSignedRange(i.imm, 0x1000)
    case U => i.rs1 == i.rs2 == 0 && i.imm % 0x1000 == 0
    case J => i.rs1 == i.rs2 == 0 && i.imm % 2 == 0 && InSignedRange(i.imm, 0x10_0000)
    case Other => false
  }

  /** Bits 1-4, 5-10, 11 and 12 up of a branch or jump offset. */
  function Pieces(imm: u32): (p: (nat, nat, nat, nat))
    ensures p.0 < 16 && p.1 < 64 && p.2 < 2
  {
    var a := imm / 2;
    var b := a / 16;
    var c := b / 64;
    (a % 16, b % 64, c % 2, c / 2)
  }

  lemma PiecesAddUp(imm: u32)
    requires imm % 2 == 0
    ensures
      var (low, mid, bit11, high) := Pieces(imm);
      imm == 0x1000 * high + 0x800 * bit11 + 32 * mid + 2 * low
  {
    var a := imm / 2;
    var b := a / 16;
    var c := b / 64;
    assert a == b * 16 + a % 16 && b == c * 64 + b % 64 && c == c / 2 * 2 + c % 2;
  }

  /** The fields of the instruction word. */
  function Assembled(i: Insn): (p: Parts)
    ensures p.Fits()
  {
    var (opcode, f3, f7) := Selector(i.op);
    match ShapeOf(i.op)
    case R => Parts(opcode, i.rd, f3, i.rs1, i.rs2, f7)
    case I => Parts(opcode, i.rd, f3, i.rs1, i.imm % 32, i.imm / 32 % 128)
    case S => Parts(opcode, i.imm % 32, f3, i.rs1, i.rs2, i.imm / 32 % 128)
    case B =>
      var (low, mid, bit11, high) := Pieces(i.imm);
      Parts(opcode, low * 2 + bit11, f3, i.rs1, i.rs2, high % 2 * 64 + mid)
    case U =>
      var a := i.imm / 0x1000;
      Parts(opcode, i.rd, a % 8, a / 8 % 32, a / 8 / 32 % 32, a / 8 / 32 / 32)
    case J =>
      var (low, mid, bit11, high) := Pieces(i.imm);
      Parts(opcode, i.rd, high % 8, high / 8 % 32, low * 2 + bit11, high / 8 / 32 % 2 * 64 + mid)
    case Other => Parts(opcode, i.rd, f3, i.rs1, i.rs2, f7)
  }

  lemma TwelveBits(imm: u32)
    requires InSignedRange(imm, 0x800)
    ensures SignExtend(imm / 32 % 128 * 32 + imm % 32, 0x800) == imm
  {
  }

  lemma ImmediateI(i: Insn)
    requires Encodable(i) && ShapeOf(i.op) == I
    ensures ImmI(Assembled(i)) == i.imm
  {
    TwelveBits(i.imm);
  }

  lemma ImmediateS(i: Insn)
    requires Encodable(i) && ShapeOf(i.op) == S
    ensures ImmS(Assembled(i)) == i.imm
  {
    TwelveBits(i.imm);
  }

  lemma ImmediateB(i: Insn)
    requires Encodable(i) && ShapeOf(i.op) == B
    ensures ImmB(Assembled(i)) == i.imm
  {
    var (low, mid, bit11, high) := Pieces(i.imm);
    PiecesAddUp(i.imm);
    var p := Assembled(i);
    Peel(low, 2, bit11, p.rd);
    Peel(high % 2, 64, mid, p.funct7);
    ThirteenBits(i.imm, low, mid, bit11, high);
  }

  lemma ThirteenBits(imm: u32, low: nat, mid: nat, bit11: nat, high: nat)
    requires InSignedRange(imm, 0x1000) && imm == 0x1000 * high + 0x800 * bit11 + 32 * mid + 2 * low
    requires low < 16 && mid < 64 && bit11 < 2
    ensures SignExtend(high % 2 * 0x1000 + bit11 * 0x800 + mid * 32 + low * 2, 0x1000) == imm
  {
  }

  lemma ImmediateU(i: Insn)
    requires Encodable(i) && ShapeOf(i.op) == U
    ensures ImmU(Assembled(i)) == i.imm
  {
    var a := i.imm / 0x1000;
    var b := a / 8;
    var c := b / 32;
    assert a == b * 8 + a % 8 && b == c * 32 + b % 32 && c == c / 32 * 32 + c % 32;
  }

  lemma ImmediateJ(i: Insn)
    requires Encodable(i) && ShapeOf(i.op) == J
    ensures ImmJ(Assembled(i)) == i.imm
  {
    var (low, mid, bit11, high) := Pieces(i.imm);
    PiecesAddUp(i.imm);
    var p := Assembled(i);
    Peel(low, 2, bit11, p.rs2);
    Peel(high / 8 / 32 % 2, 64, mid, p.funct7);
    TwentyBits(i.imm, low, mid, bit11, high);
  }

  lemma TwentyBits(imm: u32, low: nat, mid: nat, bit11: nat, high: nat)
    requires InSignedRange(imm, 0x10_0000) && imm == 0x1000 * high + 0x800 * bit11 + 32 * mid + 2 * low
    requires low < 16 && mid < 64 && bit11 < 2
    ensures
      SignExtend(high / 8 / 32 % 2 * 0x10_0000 + high / 8 % 32 * 0x8000 + high % 8 * 0x1000 + bit11 * 0x800 + mid * 32 + low * 2,
                 0x10_0000) == imm
  {
    var b := high / 8;
    assert high == b * 8 + high % 8 && b == b / 32 * 32 + b % 32;
  }

  /** The fields that select the operation, where its format has them. */
  lemma SelectorOf(i: Insn)
    requires Encodable(i)
    ensures
      var (p, (opcode, f3, f7), shape) := (Assembled(i), Selector(i.op), ShapeOf(i.op));
      && p.opcode == opcode
      && (shape in {R, I, S, B} ==> p.funct3 == f3)
      && (shape == R || i.op in {SLLI, SRLI, SRAI} ==> p.funct7 == f7)
  {
    if i.op in {SLLI, SRLI, SRAI} {
      ShiftSelector(i);
    } else {
      hide Pieces, Selector, ShapeOf, Encodable;
    }
  }

  lemma ShiftSelector(i: Insn)
    requires Encodable(i) && i.op in {SLLI, SRLI, SRAI}
    ensures
      var (p, (opcode, f3, f7)) := (Assembled(i), Selector(i.op));
      p.opcode == opcode && p.funct3 == f3 && p.funct7 == f7
  {
    assert ShapeOf(i.op) == I;
    assert i.op != SRAI ==> i.imm < 32;
    assert i.op == SRAI ==> 0x400 <= i.imm < 0x420;
    hide Pieces, ShapeOf, Encodable;
  }

  lemma AluSelected(op: Op)
    requires ShapeOf(op) == R
    ensures Selector(op).0 == 0x33 && AluOp(Selector(op).1, Selector(op).2) == op
  {
    match op {
      case ADD | SUB | SLL | SLT | SLTU | XOR | SRL | SRA | OR | AND =>
      case _ =>
    }
  }

  lemma OpSelected(op: Op, f3: nat, f7: nat)
    requires ShapeOf(op) != Other
    requires ShapeOf(op) in {R, I, S, B} ==> f3 == Selector(op).1
    requires ShapeOf(op) == R || op in {SLLI, SRLI, SRAI} ==> f7 == Selector(op).2
    ensures OpOf(Selector(op).0, f3, f7) == op && Selector(op).0 !in {0x0f, 0x73}
  {
    if ShapeOf(op) == R {
      hide AluOp, ShapeOf, Selector;
      AluSelected(op);
    } else {
      hide AluOp;
      match op {
        case LUI | AUIPC | JAL | JALR =>
        case BEQ | BNE | BLT | BGE | BLTU | BGEU =>
        case LB | LH | LW | LBU | LHU | SB | SH | SW =>
        case ADDI | SLTI | SLTIU | XORI | ORI | ANDI | SLLI | SRLI | SRAI =>
        case _ =>
      }
    }
  }

  lemma OpRecovered(i: Insn)
    requires Encodable(i)
    ensures
      var p := Assembled(i);
      p.opcode != 0x0f && p.opcode != 0x73 && OpOf(p.opcode, p.funct3, p.funct7) == i.op
  {
    assert ShapeOf(i.op) != Other;
    hide Assembled, OpOf, Selector, Encodable, ShapeOf;
    SelectorOf(i);
    OpSelected(i.op, Assembled(i).funct3, Assembled(i).funct7);
  }

  /** The decoder recovers every instruction from its word. */
  lemma DecodesAssembled(i: Insn)
    requires Encodable(i)
    ensures Assembled(i).Join() <= U32_MAX && Fields(Assembled(i).Join()) == i
  {
    var p := Assembled(i);
    SplitJoin(p);
    OpRecovered(i);
    ImmediateRecovered(i);
  }

  lemma ImmediateRecovered(i: Insn)
    requires Encodable(i)
    ensures Format(i.op, Assembled(i)) == i
  {
    hide ImmI, ImmS, ImmB, ImmU, ImmJ, InSignedRange, Pieces;
    match ShapeOf(i.op)
    case R =>
    case I => ImmediateI(i);
    case S => ImmediateS(i);
    case B => ImmediateB(i);
    case U => ImmediateU(i);
    case J => ImmediateJ(i);
  }

  // ---- Arithmetic of the instructions ----

  function Signed(x: u32): int {
    if x < 0x8000_0000 then x else x - 0x1_0000_0000
  }

  /** C's division of signed integers. */
  function TruncDiv(a: int, b: int): int
    requires b != 0
  {
    if a >= 0 then a / b else -(-a / b)
  }

  /** The value an arithmetic instruction computes from its two operands. */
  function Alu(op: Op, x: u32, y: u32): Option<u32> {
    match op
    case ADD | ADDI => Some(Wrap32(x + y))
    case SUB => Some(Wrap32(x - y))
    case AND | ANDI => Some(Wrap32(And(x, y)))
    case OR | ORI => Some(Wrap32(Or(x, y)))
    case XOR | XORI => Some(Wrap32(Xor(x, y)))
    case SLL | SLLI => Some(Wrap32(x * Pow(2, y % 32)))
    case SRL | SRLI => Some(ShiftRight(x, y % 32))
    case SRA | SRAI => Some(Wrap32(FloorShift(Signed(x), y % 32)))
    case SLT | SLTI => Some(if Signed(x) < Signed(y) then 1 else 0)
    case SLTU | SLTIU => Some(if x < y then 1 else 0)
    case MUL => Some(Wrap32(x * y))
    case MULH | MULHSU | MULHU => Some(Wrap32(x * y / 0x1_0000_0000))
    case DIV => Some(if y == 0 || (x == 0x8000_0000 && y == U32_MAX) then U32_MAX else Wrap32(TruncDiv(Signed(x), Signed(y))))
    case DIVU => Some(if y == 0 then U32_MAX else Wrap32(x / y))
    case _ => None
  }

  /**
   The casts of MULH and MULHSU do not extend the sign of the unsigned registers, so both compute
   the high word of the unsigned product.  It is the high word of the signed product, or of the signed
   by the unsigned operand, exactly when what the signs take off is a multiple of 2^32.
   */
  lemma HighWords(x: u32, y: u32)
    ensures
      Alu(MULH, x, y) == Some(Wrap32(Signed(x) * Signed(y) / 0x1_0000_0000))
      <==> ((if x >= 0x8000_0000 then y else 0) + (if y >= 0x8000_0000 then x else 0)) % 0x1_0000_0000 == 0
    ensures Alu(MULHSU, x, y) == Some(Wrap32(Signed(x) * y / 0x1_0000_0000)) <==> x < 0x8000_0000 || y == 0
  {
    var a, b := if x >= 0x8000_0000 then y else 0, if y >= 0x8000_0000 then x else 0;
    var d := if x >= 0x8000_0000 && y >= 0x8000_0000 then 0x1_0000_0000 else 0;
    SignedProducts(x, y);
    SameHighWord(x * y, Signed(x) * Signed(y), d - a - b);
    SameHighWord(x * y, Signed(x) * y, -a);
    MultipleOfWord(a + b, d);
    MultipleOfWord(a, 0);
  }

  lemma SignedProducts(x: u32, y: u32)
    ensures
      var a, b := if x >= 0x8000_0000 then y else 0, if y >= 0x8000_0000 then x else 0;
      var d := if x >= 0x8000_0000 && y >= 0x8000_0000 then 0x1_0000_0000 else 0;
      && Signed(x) * Signed(y) == x * y + 0x1_0000_0000 * (d - a - b)
      && Signed(x) * y == x * y - 0x1_0000_0000 * a
  {
  }

  lemma SameHighWord(p: int, q: int, c: int)
    requires q == p + 0x1_0000_0000 * c
    ensures Wrap32(p / 0x1_0000_0000) == Wrap32(q / 0x1_0000_0000) <==> c % 0x1_0000_0000 == 0
  {
    assert q / 0x1_0000_0000 == p / 0x1_0000_0000 + c;
  }

  lemma MultipleOfWord(c: int, d: int)
    requires d == 0 || d == 0x1_0000_0000
    ensures (d - c) % 0x1_0000_0000 == 0 <==> c % 0x1_0000_0000 == 0
  {
  }

  function ShiftRight(x: u32, n: nat): u32 {
    PowPositive(2, n);
    DivAtMost(x, Pow(2, n));
    x / Pow(2, n)
  }

  function FloorShift(x: int, n: nat): int {
    PowPositive(2, n);
    x / Pow(2, n)
  }

  /** Whether a branch is taken. */
  function Taken(op: Op, x: u32, y: u32): Option<bool> {
    match op
    case BEQ => Some(x == y)
    case BNE => Some(x != y)
    case BLT => Some(Signed(x) < Signed(y))
    case BGE => Some(Signed(x) >= Signed(y))
    case BLTU => Some(x < y)
    case BGEU => Some(x >= y)
    case _ => None
  }

  // ---- One instruction ----

  type Registers = r: seq<u32> | |r| == 32 witness seq<u32>(32, i => 0)

  datatype CpuState = CpuState(pc: u32, regs: Registers)

  /** Unimplemented instructions end the run; system calls are taken apart from the rest. */
  predicate Ends(op: Op) {
    op in {UNKNOWN, FENCE, FENCE_TSO, PAUSE, EBREAK, REM, ECALL}
  }

  function SecondOperand(i: Insn, regs: Registers): u32 {
    if i.op in {ADDI, SLTI, SLTIU, XORI, ORI, ANDI, SLLI, SRLI, SRAI} then i.imm else regs[i.rs2]
  }

  /** The load or store an instruction makes. */
  function AccessOf(i: Insn, regs: Registers): Option<Access> {
    var addr := Wrap32(regs[i.rs1] + i.imm);
    match i.op
    case LB | LBU => Some(Load(addr, 1))
    case LH | LHU => Some(Load(addr, 2))
    case LW => Some(Load(addr, 4))
    case SB => Some(Store(addr, 1, regs[i.rs2]))
    case SH => Some(Store(addr, 2, regs[i.rs2]))
    case SW => Some(Store(addr, 4, regs[i.rs2]))
    case _ => None
  }

  /** A loaded value as the register receives it. */
  function Extended(op: Op, value: nat): u32 {
    match op
    case LB => SignExtend(value % 0x100, 0x80)
    case LH => SignExtend(value % 0x1_0000, 0x8000)
    case _ => Wrap32(value)
  }

  /** The register an instruction writes and the value it gets. */
  function Written(i: Insn, pc: u32, regs: Registers, loaded: nat): Option<u32> {
    match i.op
    case LUI => Some(i.imm)
    case AUIPC => Some(Wrap32(pc + i.imm))
    case JAL | JALR => Some(Wrap32(pc + 4))
    case LB | LH | LW | LBU | LHU => Some(Extended(i.op, loaded))
    case REMU => if regs[i.rs2] == 0 then Some(0) else Some(Wrap32(regs[i.rs1] % regs[i.rs2]))
    case _ => Alu(i.op, regs[i.rs1], SecondOperand(i, regs))
  }

  function NextPc(i: Insn, pc: u32, regs: Registers): u32 {
    var taken := Taken(i.op, regs[i.rs1], regs[i.rs2]);
    if i.op == JAL || taken == Some(true) then Wrap32(pc + i.imm)
    else if i.op == JALR then Even(Wrap32(regs[i.rs1] + i.imm))
    else Wrap32(pc + 4)
  }

  /** `& ZERO_LSB`. */
  function Even(x: u32): u32 {
    x - x % 2
  }

  /** The state after an instruction; register 0 stays zero, and REMU by zero also clears the dividend. */
  function Next(i: Insn, s: CpuState, loaded: nat): CpuState {
    var value := Written(i, s.pc, s.regs, loaded);
    var divided := if i.op == REMU && s.regs[i.rs2] == 0 then s.regs[i.rs1 := 0] else s.regs;
    var regs := if value.Some? then divided[i.rd := value.value] else divided;
    CpuState(NextPc(i, s.pc, s.regs), regs[0 := 0])
  }

  /** The instruction word at an address. */
  function Word(f: FlatMemory, addr: u32): u32 {
    FourBytes(Bytes(f, addr, 4));
    FromLittleEndian(Bytes(f, addr, 4))
  }

  lemma FourBytes(bytes: seq<u8>)
    requires |bytes| == 4
    ensures FromLittleEndian(bytes) <= U32_MAX
  {
    LittleEndianBound(bytes);
    assert Pow(0x100, 4) == 0x1_0000_0000 by {
      assert Pow(0x100, 2) == 0x1_0000;
      assert Pow(0x100, 3) == 0x100_0000;
    }
  }

  lemma WordWritten(f: FlatMemory, addr: u32, word: u32)
    requires addr + 4 <= U32_MAX
    ensures Word(Write(f, addr, ToLittleEndian(word, 4)), addr) == word
  {
    hide Bytes, Write;
    BytesWritten(f, addr, ToLittleEndian(word, 4));
    LittleEndianRoundTrip(word, 4);
    assert Pow(0x100, 4) == 0x1_0000_0000 by {
      assert Pow(0x100, 2) == 0x1_0000;
      assert Pow(0x100, 3) == 0x100_0000;
    }
  }

  lemma WordBeside(f: FlatMemory, addr: u32, bytes: seq<u8>, a: u32)
    requires a + 4 <= U32_MAX && (a + 4 <= addr || addr + |bytes| <= a)
    ensures Word(Write(f, addr, bytes), a) == Word(f, a)
  {
    hide Bytes, Write;
    BytesBeside(f, addr, bytes, a, 4);
  }

  datatype Guest = Guest(cpu: CpuState, memory: FlatMemory)

  /** One round of stream_run_app on a flat memory; nothing once the run has ended. */
  function Step(m: Guest): Option<Guest> {
    var i := Fields(Word(m.memory, m.cpu.pc));
    var a := AccessOf(i, m.cpu.regs);
    if Ends(i.op) then None
    else if a.None? then Some(Guest(Next(i, m.cpu, 0), m.memory))
    else Some(Guest(Next(i, m.cpu, FlatResult(m.memory, a.value)), FlatAfter(m.memory, a.value)))
  }

  function Steps(m: Guest, n: nat): Option<Guest> {
    if n == 0 then Some(m)
    else
      var before := Steps(m, n - 1);
      if before.None? then None else Step(before.value)
  }
}
