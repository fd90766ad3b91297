/** A compressed instruction executed on a hart, field by field (rv_cpu.c, rv_impl/base.c). */
module Step {
  import opened Types
  import opened Hart
  import opened Privileged
  import opened Executor
  import Bits
  import Decompress

  predicate Steppable(cpu: Hart)
    reads cpu, cpu.tlb
  {
    cpu.Valid() && cpu.xregs[0] == 0
  }

  /** The part of a hart that these instructions work on. */
  function CoreOf(h: HartState): Core
    requires |h.xregs| == 32 && h.xregs[0] == 0
  {
    CoreState(h.xregs, h.pc, h.epc)
  }

  function WithCore(h: HartState, c: Core): HartState { h.(xregs := c.x, pc := c.pc, epc := c.epc) }

  /** The hart after an effect; memory accesses and other instructions are left to the rest of the machine. */
  function Settle(h: HartState, e: Effect): HartState {
    match e
    case Raise(cause, epc, tval, c) => DoTrap(WithCore(h, c), Trap(epc, cause, Low(tval)))
    case _ => WithCore(h, e.c)
  }

  function Low(v: bv32): Word { Unsigned(v) % Bits.U64 }

  method WriteRd(cpu: Hart, rd: bv32, v: Word)
    requires Steppable(cpu)
    modifies cpu`xregs
    ensures Steppable(cpu) && cpu.State() == WithCore(old(cpu.State()), WithReg(CoreOf(old(cpu.State())), rd, v))
  {
    if Index(rd) != 0 { cpu.xregs := cpu.xregs[Index(rd) := v]; }
  }

  /** `rv_base_op` */
  method BaseOp(cpu: Hart, kind: AluKind, narrow: bool, rd: bv32, rs1: bv32, src: Source, ghost w: bv32)
    requires Steppable(cpu)
    modifies cpu`xregs
    ensures Steppable(cpu) && cpu.State() == Settle(old(cpu.State()), Perform(CoreOf(old(cpu.State())), Alu(kind, narrow, rd, rs1, src), w))
  {
    var c := CoreState(cpu.xregs, cpu.pc, cpu.epc);
    WriteRd(cpu, rd, AluValue(c, kind, narrow, cpu.xregs[Index(rs1)], src));
  }

  /** `rv_base_lui` */
  method BaseLui(cpu: Hart, rd: bv32, imm: bv32, relative: bool, ghost w: bv32)
    requires Steppable(cpu)
    modifies cpu`xregs
    ensures Steppable(cpu) && cpu.State() == Settle(old(cpu.State()), Perform(CoreOf(old(cpu.State())), Upper(rd, imm, relative), w))
  {
    var res := SignedImm(imm);
    if relative { res := res + cpu.epc; }
    WriteRd(cpu, rd, Wrap(res));
  }

  /** `rv_base_jal` */
  method BaseJal(cpu: Hart, rd: bv32, imm: bv32, ghost w: bv32)
    requires Steppable(cpu)
    modifies cpu
    ensures Steppable(cpu) && cpu.State() == Settle(old(cpu.State()), Perform(CoreOf(old(cpu.State())), JumpLink(rd, imm), w))
  {
    WriteRd(cpu, rd, cpu.pc);
    cpu.pc := Wrap(cpu.epc + SignedImm(imm));
  }

  /** `rv_base_jalr`: the target is read before rd is written. */
  method BaseJalr(cpu: Hart, rd: bv32, rs1: bv32, imm: bv32, ghost w: bv32)
    requires Steppable(cpu)
    modifies cpu
    ensures Steppable(cpu) && cpu.State() == Settle(old(cpu.State()), Perform(CoreOf(old(cpu.State())), JumpReg(rd, rs1, imm), w))
  {
    var target := Wrap(cpu.xregs[Index(rs1)] + SignedImm(imm));
    WriteRd(cpu, rd, cpu.pc);
    cpu.pc := WithoutBit0(target);
  }

  /** `rv_base_branch` */
  method BaseBranch(cpu: Hart, funct3: bv32, rs1: bv32, rs2: bv32, imm: bv32, w: bv32)
    requires Steppable(cpu)
    modifies cpu
    ensures Steppable(cpu) && cpu.State() == Settle(old(cpu.State()), Perform(CoreOf(old(cpu.State())), Branch(funct3, rs1, rs2, imm), w))
  {
    if funct3 == 2 || funct3 == 3 {
      EnterTrap(cpu, Trap(cpu.epc, CAUSE_ILLEGAL, Low(w)));
    } else if Taken(CoreState(cpu.xregs, cpu.pc, cpu.epc), funct3, cpu.xregs[Index(rs1)], cpu.xregs[Index(rs2)]) {
      cpu.pc := Wrap(cpu.epc + SignedImm(imm));
    }
  }

  /** The dispatch of `rv_forcefeed_insn`; the effect returned says what is left to do. */
  method Execute(cpu: Hart, op: Op, w: bv32) returns (e: Effect)
    requires Steppable(cpu)
    modifies cpu
    ensures Steppable(cpu)
    ensures e == Perform(CoreOf(old(cpu.State())), op, w) && cpu.State() == Settle(old(cpu.State()), e)
  {
    e := Perform(CoreState(cpu.xregs, cpu.pc, cpu.epc), op, w);
    match op {
      case Alu(kind, narrow, rd, rs1, src) => BaseOp(cpu, kind, narrow, rd, rs1, src, w);
      case Upper(rd, imm, relative) => BaseLui(cpu, rd, imm, relative, w);
      case JumpLink(rd, imm) => BaseJal(cpu, rd, imm, w);
      case JumpReg(rd, rs1, imm) => BaseJalr(cpu, rd, rs1, imm, w);
      case Branch(funct3, rs1, rs2, imm) => BaseBranch(cpu, funct3, rs1, rs2, imm, w);
      case Breakpoint => EnterTrap(cpu, Trap(cpu.epc, CAUSE_EBREAK, Low(0)));
      case _ =>
    }
  }

  method FeedExpanded(cpu: Hart, half: bv16, insn: Option<bv32>) returns (e: Effect)
    requires Steppable(cpu)
    modifies cpu
    ensures Steppable(cpu)
    ensures e == StepExpanded(CoreOf(old(cpu.State())), half, insn) && cpu.State() == Settle(old(cpu.State()), e)
  {
    if insn.None? {
      e := Raise(CAUSE_ILLEGAL, cpu.pc, half as bv32, CoreState(cpu.xregs, cpu.pc, cpu.pc));
      cpu.epc := cpu.pc;
      EnterTrap(cpu, Trap(cpu.epc, CAUSE_ILLEGAL, Low(half as bv32)));
    } else {
      cpu.epc := cpu.pc;
      cpu.pc := Wrap(cpu.pc + 2);
      e := Execute(cpu, Decode(insn.value), insn.value);
    }
  }

  /** `rv_step_insn` after the fetch of a halfword that is a compressed instruction. */
  method StepHalfword(cpu: Hart, half: bv16) returns (e: Effect)
    requires Steppable(cpu) && half & 3 != 3
    modifies cpu
    ensures Steppable(cpu)
    ensures e == StepCompressed(CoreOf(old(cpu.State())), half) && cpu.State() == Settle(old(cpu.State()), e)
  {
    var insn := Decompress.Expand(half);
    e := FeedExpanded(cpu, half, insn);
  }
}
