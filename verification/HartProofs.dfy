/** What every run of traps, returns and CSR writes keeps. */
module HartProofs {
  import opened Types
  import opened Sv39
  import opened Tlb
  import opened Hart
  import opened Privileged
  import opened CsrAccess
  import opened BaseSystem

  /** Lines that devices drive: software timer and external interrupts of M, and the PLIC's S line. */
  function DeviceMask(): BitSet { {MSIP, MTIP, SEIP, MEIP} }

  datatype HartOp =
    | System(i: Insn, word: Word)
    // An exception raised by any other instruction.
    | Exception(t: Trap)
    | PollInterrupts
    // A PLIC or CLINT update.
    | Lines(raised: BitSet, lowered: BitSet)
    // The rest of an instruction: control flow, registers, and TLB fills while Sv39 is on.
    | Compute(pc: Word, epc: Word, xregs: seq<Word>, tlb: Tlb)

  predicate Enabled(h: Live, op: HartOp) {
    match op
    case System(i, _) => Survives(h, i)
    case Exception(t) => t.cause < 32
    case PollInterrupts => true
    case Lines(raised, lowered) => raised <= DeviceMask() && lowered <= DeviceMask()
    case Compute(_, _, xregs, tlb) => |xregs| == 32 && (SatpFields(h.csr.satp).mode == 8 || tlb == h.tlb)
  }

  function Step(h: Live, op: HartOp): Live
    requires Enabled(h, op)
  {
    match op
    case System(i, word) => Execute(h, i, word)
    case Exception(t) => DoTrap(h, t)
    case PollInterrupts => CheckInterrupts(h)
    case Lines(raised, lowered) => h.(irqPending := h.irqPending - lowered + raised)
    case Compute(pc, epc, xregs, tlb) => h.(pc := pc, epc := epc, xregs := xregs, tlb := tlb)
  }

  predicate Runnable(h: Live, ops: seq<HartOp>)
    decreases |ops|
  {
    ops == [] || (Enabled(h, ops[0]) && Runnable(Step(h, ops[0]), ops[1..]))
  }

  function Run(h: Live, ops: seq<HartOp>): Live
    requires Runnable(h, ops)
    decreases |ops|
  {
    if ops == [] then h else Run(Step(h, ops[0]), ops[1..])
  }

  // ---- The privilege invariant ----

  predicate PrivilegeOk(h: HartState) {
    && h.privilege <= 3
    && h.memPrivilege == EffectivePrivilege(h.csr.mstatus, h.privilege)
    && (h.privilege < 3 ==> MPRV !in h.csr.mstatus)
  }

  predicate InterruptsKnown(h: HartState) { h.irqPending <= IrqLines() }

  predicate TranslationOk(h: HartState) {
    var mode := SatpFields(h.csr.satp).mode;
    (mode == 8 || mode == 0) && (mode == 0 ==> h.tlb.valid == seq(SLOTS, _ => false))
  }

  predicate HartOk(h: HartState) { PrivilegeOk(h) && InterruptsKnown(h) && TranslationOk(h) }

  lemma TrapOk(h: HartState, t: Trap)
    requires HartOk(h)
    ensures HartOk(DoTrap(h, t))
  {}

  lemma MretOk(h: HartState)
    requires HartOk(h)
    ensures HartOk(DoMret(h))
  {}

  lemma SretOk(h: HartState)
    requires HartOk(h)
    ensures HartOk(DoSret(h))
  {}

  const CSR_SSTATUS := 0x100
  const CSR_SIP := 0x144
  const CSR_SATP := 0x180
  const CSR_MSTATUS := 0x300
  const CSR_MIP := 0x344

  /** The registers whose writes reach beyond their own field. */
  predicate Wide(index: nat) { index in {CSR_SSTATUS, CSR_SIP, CSR_SATP, CSR_MSTATUS, CSR_MIP} }

  /** Every other CSR write leaves status, privilege, interrupt lines and translation alone. */
  lemma NarrowWrite(h: HartState, index: nat, w: Word)
    requires !Wide(index) && CsrWrite(h, index, w).Some?
    ensures var h' := CsrWrite(h, index, w).value;
      && h'.csr.mstatus == h.csr.mstatus && h'.csr.satp == h.csr.satp
      && h' == h.(csr := h'.csr)
  {}

  lemma SatpWriteOk(h: HartState, w: Word)
    requires HartOk(h)
    ensures HartOk(WriteSatpCsr(h, w))
  {}

  lemma StatusWritesOk(h: HartState, w: Word)
    requires HartOk(h)
    ensures HartOk(WriteSstatus(h, w))
    ensures h.privilege == 3 ==> HartOk(WriteMstatus(h, w))
  {}

  lemma CsrWriteOk(h: HartState, index: nat, w: Word)
    requires HartOk(h) && CsrWrite(h, index, w).Some?
    ensures HartOk(CsrWrite(h, index, w).value)
  {
    if !Wide(index) {
      NarrowWrite(h, index, w);
    } else {
      SatpWriteOk(h, w);
      StatusWritesOk(h, w);
    }
  }

  lemma DoCsrOk(h: Live, f: nat, csr: nat, rs1: nat, rd: nat, word: Word)
    requires HartOk(h) && f < 8 && rs1 < 32 && rd < 32
    ensures HartOk(DoCsr(h, f, csr, rs1, rd, word))
  {
    TrapOk(h, Trap(h.epc, CAUSE_ILLEGAL, word));
    var w := CsrNewValue(h, f, csr, rs1, rd);
    if w.Some? && CsrWrite(h, csr, w.value).Some? { CsrWriteOk(h, csr, w.value); }
  }

  lemma FenceOk(h: HartState, vaddr: Word, asid: nat, wv: bool, wa: bool)
    requires HartOk(h)
    ensures HartOk(h.(tlb := Fence(h.tlb, SatpFields(h.csr.satp), vaddr, asid, wv, wa)))
  {
    var t := Fence(h.tlb, SatpFields(h.csr.satp), vaddr, asid, wv, wa);
    if SatpFields(h.csr.satp).mode == 0 { assert t.valid == seq(SLOTS, _ => false); }
  }

  lemma ExecuteOk(h: Live, i: Insn, word: Word)
    requires HartOk(h) && Survives(h, i)
    ensures HartOk(Execute(h, i, word))
  {
    TrapOk(h, Trap(h.epc, CAUSE_ILLEGAL, word));
    match i {
      case CsrOp(f, csr, rs1, rd) => DoCsrOk(h, f, csr, rs1, rd, word);
      case Mret => MretOk(h);
      case Sret => SretOk(h);
      case SfenceVma(rs1, rs2) => FenceOk(h, h.xregs[rs1], h.xregs[rs2] % 0x1_0000, rs1 != 0, rs2 != 0);
      case Ecall => TrapOk(h, Trap(h.epc, EcallCause(h.privilege), 0));
      case Ebreak => TrapOk(h, Trap(h.epc, CAUSE_EBREAK, 0));
      case _ =>
    }
  }

  lemma StepOk(h: Live, op: HartOp)
    requires HartOk(h) && Enabled(h, op)
    ensures HartOk(Step(h, op))
  {
    match op {
      case System(i, word) => ExecuteOk(h, i, word);
      case Exception(t) => TrapOk(h, t);
      case PollInterrupts =>
        var code := FirstFrom(Candidates(h), 0);
        if code.Some? && code.value < 64 { TrapOk(h, InterruptTrap(h, code.value)); }
      case _ =>
    }
  }

  /** In every state of every run: effective privilege follows MPRV and MPP, MPRV is off below M-mode, only
      the six interrupt bits occur, and the TLB is empty while translation is off. */
  lemma {:induction false} RunOk(h: Live, ops: seq<HartOp>)
    requires HartOk(h) && Runnable(h, ops)
    ensures HartOk(Run(h, ops))
    decreases |ops|
  {
    if ops != [] {
      StepOk(h, ops[0]);
      RunOk(Step(h, ops[0]), ops[1..]);
    }
  }

  lemma ResetOk(id: Word, t: Tlb)
    requires t.valid == seq(SLOTS, _ => false)
    ensures HartOk(HartState(ResetCsr(id), 0, 0, 3, 3, {}, seq(32, _ => 0), t))
  {}

  /** So the walker's permission check, which always uses the data privilege, is right for fetches too. */
  lemma FetchUsesOwnPrivilege(h: HartState)
    requires HartOk(h) && h.privilege != 3
    ensures h.memPrivilege == h.privilege
  {}
}
