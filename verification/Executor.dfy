/** What the executor does with an instruction word, for the integer, memory and control instructions that compressed
    instructions expand to (rv_cpu.c, rv_impl/base.c). */
module Executor {
  import opened Bits
  import opened Types
  import opened InsnFormat
  import Decompress

  const EBREAK_WORD: bv32 := 0x0010_0073

  datatype AluKind = Add | Sub | Sll | Slt | Sltu | Xor | Srl | Sra | Or | And

  datatype Source = FromReg(r: bv32) | FromImm(imm: bv32)

  /** A decoded instruction; register numbers and sign-extended immediates are 32-bit values. */
  datatype Op =
    | Alu(kind: AluKind, narrow: bool, rd: bv32, rs1: bv32, src: Source)
    | MemLoad(fp: bool, funct3: bv32, rd: bv32, rs1: bv32, imm: bv32)
    | MemStore(fp: bool, funct3: bv32, rs2: bv32, rs1: bv32, imm: bv32)
    | Upper(rd: bv32, imm: bv32, relative: bool)
    | JumpLink(rd: bv32, imm: bv32)
    | JumpReg(rd: bv32, rs1: bv32, imm: bv32)
    | Branch(funct3: bv32, rs1: bv32, rs2: bv32, imm: bv32)
    | Breakpoint
    // Everything else: multiplication, other SYSTEM words, fences, atomics, floating point.
    | Other(w: bv32)

  function AluKindOf(funct3: bv32, alternate: bool, fromReg: bool): AluKind {
    match funct3
    case 0 => if alternate && fromReg then Sub else Add
    case 1 => Sll
    case 2 => Slt
    case 3 => Sltu
    case 4 => Xor
    case 5 => if alternate then Sra else Srl
    case 6 => Or
    case _ => And
  }

  /** `rv_forcefeed_insn` and the field extraction of the handlers it calls. */
  function Decode(w: bv32): Op {
    var maj := OpMaj(w);
    if maj == OP || maj == OP_IMM || maj == OP_32 || maj == OP_IMM_32 then
      var fromReg := maj & 0x8 != 0;
      if fromReg && Funct7(w) == 1 then Other(w)
      else
        Alu(AluKindOf(Funct3(w), w & 0x4000_0000 != 0, fromReg), maj & 0x2 != 0, Rd(w), Rs1(w),
            if fromReg then FromReg(Rs2(w)) else FromImm(ImmI(w)))
    else if maj == LOAD || maj == LOAD_FP then MemLoad(maj & 1 != 0, Funct3(w), Rd(w), Rs1(w), ImmI(w))
    else if maj == STORE || maj == STORE_FP then MemStore(maj & 1 != 0, Funct3(w), Rs2(w), Rs1(w), ImmS(w))
    else if maj == LUI || maj == AUIPC then Upper(Rd(w), ImmU(w), maj & 0x8 == 0)
    else if maj == JAL then JumpLink(Rd(w), ImmJ(w))
    else if maj == JALR then JumpReg(Rd(w), Rs1(w), ImmI(w))
    else if maj == BRANCH then Branch(Funct3(w), Rs1(w), Rs2(w), ImmB(w))
    else if maj == SYSTEM && w == EBREAK_WORD then Breakpoint
    else Other(w)
  }

  // ---- Execution ----

  /** Integer registers and program counters of a hart; x0 is always zero. */
  datatype CoreState = CoreState(x: seq<Word>, pc: Word, epc: Word) {
    predicate Valid() { |x| == 32 && x[0] == 0 }
  }

  type Core = c: CoreState | c.Valid() witness CoreState(seq(32, _ => 0), 0, 0)

  function Index(r: bv32): (i: nat)
    ensures i < 32
  {
    (r & 0x1f) as bv5 as nat
  }

  function Reg(c: Core, r: bv32): Word { c.x[Index(r)] }

  function WithReg(c: Core, r: bv32, v: Word): Core {
    if Index(r) == 0 then c else c.(x := c.x[Index(r) := v])
  }

  function Unsigned(v: bv32): nat { v as nat }

  /** A 32-bit value as a signed number. */
  function SignedImm(v: bv32): int { if v & 0x8000_0000 != 0 then Unsigned(v) - U32 else Unsigned(v) }

  function SextLow(v: nat): Word {
    if v % U32 < 0x8000_0000 then v % U32 else v % U32 + (U64 - U32)
  }

  function Signed(v: Word): int { if v < U64 / 2 then v else v - U64 }

  /** Two's complement of an integer. */
  function Wrap(v: int): Word { v % U64 }

  function Operand(c: Core, s: Source): Word {
    match s
    case FromReg(r) => Reg(c, r)
    case FromImm(i) => Wrap(SignedImm(i))
  }

  /** The low five or six bits of the second operand. */
  function ShiftAmount(c: Core, s: Source, narrow: bool): nat {
    match s
    case FromReg(r) => Reg(c, r) % (if narrow then 32 else 64)
    case FromImm(i) => Unsigned(i & (if narrow then 0x1f else 0x3f))
  }

  /** `rv_base_op`'s result switch on 64-bit operands, or on operands cut to 32 bits. */
  function AluResult(kind: AluKind, narrow: bool, a: Word, b: Word, shamt: nat): Word {
    var l, r := if narrow then a % U32 else a, if narrow then b % U32 else b;
    var ls, rs := if narrow then Signed(SextLow(a)) else Signed(a), if narrow then Signed(SextLow(b)) else Signed(b);
    Power2Positive(shamt);
    match kind
    case Add => Wrap(l + r)
    case Sub => Wrap(l - r)
    case Sll => Wrap(l * Power2(shamt))
    case Slt => if ls < rs then 1 else 0
    case Sltu => if l < r then 1 else 0
    case Xor => Value((Ones(l) - Ones(r)) + (Ones(r) - Ones(l)))
    case Srl => Wrap(l / Power2(shamt))
    case Sra => Wrap(ls / Power2(shamt))
    case Or => Value(Ones(l) + Ones(r))
    case And => Value(Ones(l) * Ones(r))
  }

  function AluValue(c: Core, kind: AluKind, narrow: bool, a: Word, s: Source): Word {
    var res := AluResult(kind, narrow, a, Operand(c, s), ShiftAmount(c, s, narrow));
    if narrow then SextLow(res) else res
  }

  /** What an instruction asks of the rest of the machine, with the registers and pc it leaves. */
  datatype Effect =
    | Done(c: Core)
    | LoadTo(fp: bool, funct3: bv32, rd: bv32, addr: Word, c: Core)
    | StoreFrom(fp: bool, funct3: bv32, rs2: bv32, addr: Word, c: Core)
    | Raise(cause: Word, epc: Word, tval: bv32, c: Core)
    | Unmodelled(w: bv32, c: Core)

  predicate Taken(c: Core, funct3: bv32, a: Word, b: Word) {
    match funct3
    case 0 => a == b
    case 1 => a != b
    case 4 => Signed(a) < Signed(b)
    case 5 => Signed(a) >= Signed(b)
    case 6 => a < b
    case _ => a >= b
  }

  function WithoutBit0(v: Word): Word { v - v % 2 }

  /** The handlers, once pc and epc have been advanced; `w` is the word for an illegal-instruction trap. */
  function Perform(c: Core, op: Op, w: bv32): Effect {
    match op
    case Alu(kind, narrow, rd, rs1, src) => Done(WithReg(c, rd, AluValue(c, kind, narrow, Reg(c, rs1), src)))
    case MemLoad(fp, funct3, rd, rs1, imm) => LoadTo(fp, funct3, rd, Wrap(Reg(c, rs1) + SignedImm(imm)), c)
    case MemStore(fp, funct3, rs2, rs1, imm) => StoreFrom(fp, funct3, rs2, Wrap(Reg(c, rs1) + SignedImm(imm)), c)
    case Upper(rd, imm, relative) => Done(WithReg(c, rd, if relative then Wrap(SignedImm(imm) + c.epc) else Wrap(SignedImm(imm))))
    case JumpLink(rd, imm) => Done(WithReg(c, rd, c.pc).(pc := Wrap(c.epc + SignedImm(imm))))
    case JumpReg(rd, rs1, imm) =>
      Done(WithReg(c, rd, c.pc).(pc := WithoutBit0(Wrap(Reg(c, rs1) + SignedImm(imm)))))
    case Branch(funct3, rs1, rs2, imm) =>
      if funct3 == 2 || funct3 == 3 then Raise(CAUSE_ILLEGAL, c.epc, w, c)
      else if Taken(c, funct3, Reg(c, rs1), Reg(c, rs2)) then Done(c.(pc := Wrap(c.epc + SignedImm(imm))))
      else Done(c)
    case Breakpoint => Raise(CAUSE_EBREAK, c.epc, 0, c)
    case Other(v) => Unmodelled(v, c)
  }

  /** The step on an expanded halfword, or on one that has no expansion. */
  function StepExpanded(c: Core, h: bv16, insn: Option<bv32>): Effect {
    match insn
    case None => Raise(CAUSE_ILLEGAL, c.pc, h as bv32, c.(epc := c.pc))
    case Some(w) => Perform(c.(epc := c.pc, pc := Wrap(c.pc + 2)), Decode(w), w)
  }

  /** `rv_step_insn` once a halfword that is not the start of a 32-bit instruction has been fetched. */
  function StepCompressed(c: Core, h: bv16): Effect
    requires h & 3 != 3
  {
    StepExpanded(c, h, Decompress.Expand(h))
  }
}
