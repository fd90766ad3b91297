/** The compressed instructions of RV64GC as chapter 16 of the RISC-V Unprivileged ISA lists them: each with its
    pattern, the place of every immediate bit, and the operation it expands to. */
module Rvc {
  import opened Types
  import opened Executor

  /** One immediate bit: the instruction bit `from` is worth `to`. */
  function Bit(x: bv32, from: bv32, to: bv32): bv32 { if x & from != 0 then to else 0 }

  /** The sign bit `from` is worth `to` and everything above it. */
  function SignBit(x: bv32, from: bv32, to: bv32): bv32 { if x & from != 0 then !(to - 1) else 0 }

  // Register fields.
  function Short(x: bv32, low: bv32, mid: bv32, high: bv32): bv32 { 8 | Bit(x, low, 1) | Bit(x, mid, 2) | Bit(x, high, 4) }

  function ShortHigh(x: bv32): bv32 { Short(x, 0x80, 0x100, 0x200) }

  function ShortLow(x: bv32): bv32 { Short(x, 0x4, 0x8, 0x10) }

  function LongHigh(x: bv32): bv32 { Bit(x, 0x80, 1) | Bit(x, 0x100, 2) | Bit(x, 0x200, 4) | Bit(x, 0x400, 8) | Bit(x, 0x800, 16) }

  function LongLow(x: bv32): bv32 { Bit(x, 0x4, 1) | Bit(x, 0x8, 2) | Bit(x, 0x10, 4) | Bit(x, 0x20, 8) | Bit(x, 0x40, 16) }

  // Immediate fields, most significant instruction bit first.
  function ImmAddi4spn(x: bv32): bv32 {
    Bit(x, 0x1000, 0x20) | Bit(x, 0x800, 0x10) | Bit(x, 0x400, 0x200) | Bit(x, 0x200, 0x100) | Bit(x, 0x100, 0x80) |
    Bit(x, 0x80, 0x40) | Bit(x, 0x40, 0x4) | Bit(x, 0x20, 0x8)
  }

  function ImmD(x: bv32): bv32 {
    Bit(x, 0x1000, 0x20) | Bit(x, 0x800, 0x10) | Bit(x, 0x400, 0x8) | Bit(x, 0x40, 0x80) | Bit(x, 0x20, 0x40)
  }

  function ImmW(x: bv32): bv32 {
    Bit(x, 0x1000, 0x20) | Bit(x, 0x800, 0x10) | Bit(x, 0x400, 0x8) | Bit(x, 0x40, 0x4) | Bit(x, 0x20, 0x40)
  }

  function ImmLow5(x: bv32): bv32 { LongLow(x) }

  function ImmSigned6(x: bv32): bv32 { SignBit(x, 0x1000, 0x20) | ImmLow5(x) }

  function ImmShamt(x: bv32): bv32 { Bit(x, 0x1000, 0x20) | ImmLow5(x) }

  function ImmAddi16sp(x: bv32): bv32 {
    SignBit(x, 0x1000, 0x200) | Bit(x, 0x40, 0x10) | Bit(x, 0x20, 0x40) | Bit(x, 0x10, 0x100) | Bit(x, 0x8, 0x80) | Bit(x, 0x4, 0x20)
  }

  function ImmLui(x: bv32): bv32 {
    SignBit(x, 0x1000, 0x2_0000) | Bit(x, 0x40, 0x1_0000) | Bit(x, 0x20, 0x8000) | Bit(x, 0x10, 0x4000) | Bit(x, 0x8, 0x2000) |
    Bit(x, 0x4, 0x1000)
  }

  function JumpLow(x: bv32): bv32 {
    Bit(x, 0x800, 0x10) | Bit(x, 0x400, 0x200) | Bit(x, 0x200, 0x100) | Bit(x, 0x100, 0x400) | Bit(x, 0x80, 0x40) |
    Bit(x, 0x40, 0x80) | Bit(x, 0x20, 0x8) | Bit(x, 0x10, 0x4) | Bit(x, 0x8, 0x2) | Bit(x, 0x4, 0x20)
  }

  function ImmJump(x: bv32): bv32 { SignBit(x, 0x1000, 0x800) | JumpLow(x) }

  function ImmBranch(x: bv32): bv32 {
    SignBit(x, 0x1000, 0x100) | Bit(x, 0x800, 0x10) | Bit(x, 0x400, 0x8) | Bit(x, 0x40, 0x80) | Bit(x, 0x20, 0x40) |
    Bit(x, 0x10, 0x4) | Bit(x, 0x8, 0x2) | Bit(x, 0x4, 0x20)
  }

  function ImmLdsp(x: bv32): bv32 {
    Bit(x, 0x1000, 0x20) | Bit(x, 0x40, 0x10) | Bit(x, 0x20, 0x8) | Bit(x, 0x10, 0x100) | Bit(x, 0x8, 0x80) | Bit(x, 0x4, 0x40)
  }

  function ImmLwsp(x: bv32): bv32 {
    Bit(x, 0x1000, 0x20) | Bit(x, 0x40, 0x10) | Bit(x, 0x20, 0x8) | Bit(x, 0x10, 0x4) | Bit(x, 0x8, 0x80) | Bit(x, 0x4, 0x40)
  }

  function ImmSdsp(x: bv32): bv32 {
    Bit(x, 0x1000, 0x20) | Bit(x, 0x800, 0x10) | Bit(x, 0x400, 0x8) | Bit(x, 0x200, 0x100) | Bit(x, 0x100, 0x80) | Bit(x, 0x80, 0x40)
  }

  function ImmSwsp(x: bv32): bv32 {
    Bit(x, 0x1000, 0x20) | Bit(x, 0x800, 0x10) | Bit(x, 0x400, 0x8) | Bit(x, 0x200, 0x4) | Bit(x, 0x100, 0x80) | Bit(x, 0x80, 0x40)
  }

  datatype Fields = Fields(
    shortHigh: bv32, shortLow: bv32, longHigh: bv32, longLow: bv32,
    addi4spn: bv32, offsetD: bv32, offsetW: bv32, imm6: bv32, shamt: bv32, addi16sp: bv32, lui: bv32, jump: bv32, branch: bv32,
    ldsp: bv32, lwsp: bv32, sdsp: bv32, swsp: bv32)

  function FieldsOf(x: bv32): Fields {
    Fields(ShortHigh(x), ShortLow(x), LongHigh(x), LongLow(x),
           ImmAddi4spn(x), ImmD(x), ImmW(x), ImmSigned6(x), ImmShamt(x), ImmAddi16sp(x), ImmLui(x), ImmJump(x), ImmBranch(x),
           ImmLdsp(x), ImmLwsp(x), ImmSdsp(x), ImmSwsp(x))
  }

  // The opcode map, by the bits each pattern fixes; None for reserved encodings. Hints are what they look like.

  function Table0(x: bv32, f: Fields): Option<Op> {
    var sp, rs1, rd := 2, f.shortHigh, f.shortLow;
    match x & 0xE003
    // C.ADDI4SPN, C.FLD, C.LW, C.LD, C.FSD, C.SW, C.SD
    case 0x0000 => if f.addi4spn == 0 then None else Some(Alu(Add, false, rd, sp, FromImm(f.addi4spn)))
    case 0x2000 => Some(MemLoad(true, 3, rd, rs1, f.offsetD))
    case 0x4000 => Some(MemLoad(false, 2, rd, rs1, f.offsetW))
    case 0x6000 => Some(MemLoad(false, 3, rd, rs1, f.offsetD))
    case 0xA000 => Some(MemStore(true, 3, rd, rs1, f.offsetD))
    case 0xC000 => Some(MemStore(false, 2, rd, rs1, f.offsetW))
    case 0xE000 => Some(MemStore(false, 3, rd, rs1, f.offsetD))
    case _ => None
  }

  /** C.SUB, C.XOR, C.OR, C.AND, C.SUBW, C.ADDW */
  function TableRegister(x: bv32, f: Fields): Option<Op> {
    var rd, rs2 := f.shortHigh, FromReg(f.shortLow);
    match x & 0xFC63
    case 0x8C01 => Some(Alu(Sub, false, rd, rd, rs2))
    case 0x8C21 => Some(Alu(Xor, false, rd, rd, rs2))
    case 0x8C41 => Some(Alu(Or, false, rd, rd, rs2))
    case 0x8C61 => Some(Alu(And, false, rd, rd, rs2))
    case 0x9C01 => Some(Alu(Sub, true, rd, rd, rs2))
    case 0x9C21 => Some(Alu(Add, true, rd, rd, rs2))
    case _ => None
  }

  /** C.SRLI, C.SRAI, C.ANDI, and the register forms */
  function TableArithmetic(x: bv32, f: Fields): Option<Op> {
    var rd := f.shortHigh;
    match x & 0xEC03
    case 0x8001 => Some(Alu(Srl, false, rd, rd, FromImm(f.shamt)))
    case 0x8401 => Some(Alu(Sra, false, rd, rd, FromImm(0x400 | f.shamt)))
    case 0x8801 => Some(Alu(And, false, rd, rd, FromImm(f.imm6)))
    case _ => TableRegister(x, f)
  }

  function Table1(x: bv32, f: Fields): Option<Op> {
    var sp, zero, rd := 2, 0, f.longHigh;
    match x & 0xE003
    // C.ADDI, C.ADDIW, C.LI, C.ADDI16SP, C.LUI
    case 0x0001 => Some(Alu(Add, false, rd, rd, FromImm(f.imm6)))
    case 0x2001 => if rd == 0 then None else Some(Alu(Add, true, rd, rd, FromImm(f.imm6)))
    case 0x4001 => Some(Alu(Add, false, rd, zero, FromImm(f.imm6)))
    case 0x6001 =>
      if rd == sp then if f.addi16sp == 0 then None else Some(Alu(Add, false, sp, sp, FromImm(f.addi16sp)))
      else if f.lui == 0 then None else Some(Upper(rd, f.lui, false))
    case 0x8001 => TableArithmetic(x, f)
    // C.J, C.BEQZ, C.BNEZ
    case 0xA001 => Some(JumpLink(zero, f.jump))
    case 0xC001 => Some(Branch(0, f.shortHigh, zero, f.branch))
    case _ => Some(Branch(1, f.shortHigh, zero, f.branch))
  }

  /** C.JR, C.MV, C.EBREAK, C.JALR, C.ADD */
  function TableJump(x: bv32, f: Fields): Option<Op> {
    var zero, ra, r := 0, 1, f.longHigh;
    if x & 0x107F == 0x0002 then if r == 0 then None else Some(JumpReg(zero, r, 0))
    else if x & 0x1003 == 0x0002 then Some(Alu(Add, false, r, zero, FromReg(f.longLow)))
    else if x & 0x1FFF == 0x1002 then Some(Breakpoint)
    else if x & 0x107F == 0x1002 then Some(JumpReg(ra, r, 0))
    else Some(Alu(Add, false, r, r, FromReg(f.longLow)))
  }

  function Table2(x: bv32, f: Fields): Option<Op> {
    var sp, rd, rs2 := 2, f.longHigh, f.longLow;
    match x & 0xE003
    // C.SLLI, C.FLDSP, C.LWSP, C.LDSP, C.FSDSP, C.SWSP, C.SDSP
    case 0x0002 => Some(Alu(Sll, false, rd, rd, FromImm(f.shamt)))
    case 0x2002 => Some(MemLoad(true, 3, rd, sp, f.ldsp))
    case 0x4002 => if rd == 0 then None else Some(MemLoad(false, 2, rd, sp, f.lwsp))
    case 0x6002 => if rd == 0 then None else Some(MemLoad(false, 3, rd, sp, f.ldsp))
    case 0x8002 => TableJump(x, f)
    case 0xA002 => Some(MemStore(true, 3, rs2, sp, f.sdsp))
    case 0xC002 => Some(MemStore(false, 2, rs2, sp, f.swsp))
    case _ => Some(MemStore(false, 3, rs2, sp, f.sdsp))
  }

  function TableOf(x: bv32, f: Fields): Option<Op> {
    match x & 3
    case 0 => Table0(x, f)
    case 1 => Table1(x, f)
    case 2 => Table2(x, f)
    case _ => None
  }

  /** The operation a compressed halfword stands for. */
  function Operation(h: bv16): Option<Op> { TableOf(h as bv32, FieldsOf(h as bv32)) }
}
