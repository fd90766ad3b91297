/** The SYSTEM opcode: CSR instructions, mret, sret, sfence.vma, ecall, ebreak (rv_impl/base.c). */
module BaseSystem {
  import opened Types
  import opened Sv39
  import opened Tlb
  import opened Hart
  import opened Privileged
  import opened CsrAccess
  import Paging

  /** A SYSTEM instruction after field extraction; `rs1` and `rd` are register numbers. */
  datatype SystemInsn =
    | CsrOp(funct3: nat, csr: nat, rs1: nat, rd: nat)
    | Mret | Sret | Wfi | Ecall | Ebreak
    | SfenceVma(rs1: nat, rs2: nat)
    | Other

  /** Register numbers are five bits wide, and funct3 of a CSR instruction is not zero. */
  predicate WellFormed(i: SystemInsn) {
    match i
    case CsrOp(f, csr, rs1, rd) => 1 <= f < 8 && csr < 4096 && rs1 < 32 && rd < 32
    case SfenceVma(rs1, rs2) => rs1 < 32 && rs2 < 32
    case _ => true
  }

  type Insn = i: SystemInsn | WellFormed(i) witness Other

  type Live = h: HartState | |h.xregs| == 32 witness LiveReset()

  function LiveReset(): HartState {
    HartState(ResetCsr(0), 0, 0, 3, 3, {}, seq(32, _ => 0), TlbState(seq(SLOTS, _ => TlbEntry(0, 0, 0, Pte(0, 0, 0, 0))), seq(SLOTS, _ => false), 0))
  }

  function WriteReg(h: Live, rd: nat, w: Word): Live
    requires rd < 32
  {
    if rd == 0 then h else h.(xregs := h.xregs[rd := w])
  }

  /** `rv_do_iillegal` */
  function Illegal(h: Live, word: Word): Live { DoTrap(h, Trap(h.epc, CAUSE_ILLEGAL, word)) }

  /** Value a CSR instruction writes: replace, set bits or clear bits. */
  function Combine(op: nat, rdata: Word, operand: Word): Word {
    if op == 1 then operand
    else if op == 2 then Value(Ones(rdata) + Ones(operand))
    else Value(Ones(rdata) - Ones(operand))
  }

  /** Register operand, or the immediate in the rs1 field. */
  function CsrOperand(h: Live, funct3: nat, rs1: nat): Word
    requires rs1 < 32
  {
    if funct3 >= 4 then rs1 else h.xregs[rs1]
  }

  /** CSRRW without a destination does not read. */
  function CsrOldValue(h: Live, funct3: nat, csr: nat, rd: nat): Option<Word> {
    if rd != 0 || funct3 % 4 != 1 then CsrRead(h, csr) else Some(0)
  }

  /** CSRRS and CSRRC of x0 do not write. */
  predicate CsrWrites(funct3: nat, rs1: nat) { funct3 >= 4 || funct3 % 4 == 1 || rs1 != 0 }

  /** The value handed to the CSR write, when the instruction gets that far. */
  function CsrNewValue(h: Live, funct3: nat, csr: nat, rs1: nat, rd: nat): Option<Word>
    requires rs1 < 32
  {
    var old_ := CsrOldValue(h, funct3, csr, rd);
    if old_.None? || funct3 % 4 == 0 || !CsrWrites(funct3, rs1) then None
    else Some(Combine(funct3 % 4, old_.value, CsrOperand(h, funct3, rs1)))
  }

  /** `do_csr` */
  function DoCsr(h: Live, funct3: nat, csr: nat, rs1: nat, rd: nat, word: Word): Live
    requires funct3 < 8 && rs1 < 32 && rd < 32
  {
    var old_, new_ := CsrOldValue(h, funct3, csr, rd), CsrNewValue(h, funct3, csr, rs1, rd);
    if old_.None? || funct3 % 4 == 0 then Illegal(h, word)
    else if new_.None? then WriteReg(h, rd, old_.value)
    else
      var written := CsrWrite(h, csr, new_.value);
      if written.None? then Illegal(h, word) else WriteReg(written.value, rd, old_.value)
  }

  function DoMret(h: HartState): HartState {
    var status := h.csr.mstatus - {MIE} + (if MPIE in h.csr.mstatus then {MIE} else {}) + {MPIE};
    var privilege := Mpp(status);
    var cleared := status - {MPP_LOW, MPP_HIGH};
    var final := if privilege != 3 then cleared - {MPRV} else cleared;
    Sync(h.(csr := h.csr.(mstatus := final), privilege := privilege)).(pc := h.csr.mepc)
  }

  function DoSret(h: HartState): HartState {
    var status := h.csr.mstatus - {SIE} + (if SPIE in h.csr.mstatus then {SIE} else {}) - {SPP} + {SPIE} - {MPRV};
    Sync(h.(csr := h.csr.(mstatus := status), privilege := if SPP in h.csr.mstatus then 1 else 0)).(pc := h.csr.sepc)
  }

  predicate SretLegal(h: HartState) { !(h.privilege < 1 || (h.privilege == 1 && TSR in h.csr.mstatus)) }

  predicate SfenceLegal(h: HartState) { !(h.privilege < 1 || (h.privilege == 1 && TVM in h.csr.mstatus)) }

  predicate WfiLegal(h: HartState) { !(h.privilege < 3 && TW in h.csr.mstatus) }

  function EcallCause(privilege: nat): Word
    requires privilege in {0, 1, 3}
  {
    if privilege == 0 then CAUSE_ECALL_U else if privilege == 1 then CAUSE_ECALL_S else CAUSE_ECALL_M
  }

  /** The code aborts on an ecall from the reserved privilege level. */
  predicate Survives(h: HartState, i: Insn) { i.Ecall? ==> h.privilege in {0, 1, 3} }

  /** `rv_base_system` */
  function Execute(h: Live, i: Insn, word: Word): Live
    requires Survives(h, i)
  {
    match i
    case CsrOp(f, csr, rs1, rd) => DoCsr(h, f, csr, rs1, rd, word)
    case Mret => if h.privilege == 3 then DoMret(h) else Illegal(h, word)
    case Sret => if SretLegal(h) then DoSret(h) else Illegal(h, word)
    case Wfi => if WfiLegal(h) then h else Illegal(h, word)
    case SfenceVma(rs1, rs2) =>
      if !SfenceLegal(h) then Illegal(h, word)
      else h.(tlb := Fence(h.tlb, SatpFields(h.csr.satp), h.xregs[rs1], h.xregs[rs2] % 0x1_0000, rs1 != 0, rs2 != 0))
    case Ecall => DoTrap(h, Trap(h.epc, EcallCause(h.privilege), 0))
    case Ebreak => DoTrap(h, Trap(h.epc, CAUSE_EBREAK, 0))
    case Other => Illegal(h, word)
  }

  // ---- The return instructions, field by field ----

  method ReturnFromM(cpu: Hart)
    requires cpu.Valid() && cpu.privilege == 3
    modifies cpu
    ensures cpu.Valid() && cpu.State() == DoMret(old(cpu.State()))
  {
    var mpie := MPIE in cpu.csr.mstatus;
    var status := cpu.csr.mstatus - {MIE};
    status := status + (if mpie then {MIE} else {}) + {MPIE};
    cpu.privilege := Mpp(status);
    status := status - {MPP_LOW, MPP_HIGH};
    if cpu.privilege != 3 { status := status - {MPRV}; }
    cpu.csr := cpu.csr.(mstatus := status);
    SyncMemPrivilege(cpu);
    cpu.pc := cpu.csr.mepc;
  }

  method ReturnFromS(cpu: Hart)
    requires cpu.Valid() && SretLegal(cpu.State())
    modifies cpu
    ensures cpu.Valid() && cpu.State() == DoSret(old(cpu.State()))
  {
    var spp := SPP in cpu.csr.mstatus;
    var spie := SPIE in cpu.csr.mstatus;
    var status := cpu.csr.mstatus - {SIE};
    status := status + (if spie then {SIE} else {});
    status := status - {SPP};
    status := status + {SPIE};
    cpu.privilege := if spp then 1 else 0;
    status := status - {MPRV};
    cpu.csr := cpu.csr.(mstatus := status);
    SyncMemPrivilege(cpu);
    cpu.pc := cpu.csr.sepc;
  }

  method RaiseIllegal(cpu: Hart, word: Word)
    requires cpu.Valid()
    modifies cpu
    ensures cpu.Valid() && cpu.State() == Illegal(old(cpu.State()), word)
  {
    EnterTrap(cpu, Trap(cpu.epc, CAUSE_ILLEGAL, word));
  }

  method SetReg(cpu: Hart, rd: nat, w: Word)
    requires cpu.Valid() && rd < 32
    modifies cpu`xregs
    ensures cpu.Valid() && cpu.State() == WriteReg(old(cpu.State()), rd, w)
  {
    if rd != 0 { cpu.xregs := cpu.xregs[rd := w]; }
  }

  method ExecuteCsr(cpu: Hart, funct3: nat, csr: nat, rs1: nat, rd: nat, word: Word)
    requires cpu.Valid() && funct3 < 8 && rs1 < 32 && rd < 32
    modifies cpu, cpu.tlb.valid
    ensures cpu.Valid() && cpu.State() == DoCsr(old(cpu.State()), funct3, csr, rs1, rd, word)
  {
    var operand := if funct3 >= 4 then rs1 else cpu.xregs[rs1];
    var rdata: Option<Word> := Some(0);
    if rd != 0 || funct3 % 4 != 1 { rdata := CsrRead(cpu.State(), csr); }
    if rdata.None? || funct3 % 4 == 0 {
      RaiseIllegal(cpu, word);
      return;
    }
    if CsrWrites(funct3, rs1) {
      var ok := WriteCsr(cpu, csr, Combine(funct3 % 4, rdata.value, operand));
      if !ok {
        RaiseIllegal(cpu, word);
        return;
      }
    }
    SetReg(cpu, rd, rdata.value);
  }

  method ExecuteSystem(cpu: Hart, i: Insn, word: Word)
    requires cpu.Valid() && Survives(cpu.State(), i)
    modifies cpu, cpu.tlb.valid
    ensures cpu.Valid() && cpu.State() == Execute(old(cpu.State()), i, word)
  {
    match i {
      case CsrOp(f, csr, rs1, rd) => ExecuteCsr(cpu, f, csr, rs1, rd, word);
      case Mret =>
        if cpu.privilege == 3 { ReturnFromM(cpu); } else { RaiseIllegal(cpu, word); }
      case Sret =>
        if SretLegal(cpu.State()) { ReturnFromS(cpu); } else { RaiseIllegal(cpu, word); }
      case Wfi =>
        if !WfiLegal(cpu.State()) { RaiseIllegal(cpu, word); }
      case SfenceVma(rs1, rs2) =>
        if !SfenceLegal(cpu.State()) {
          RaiseIllegal(cpu, word);
        } else {
          Paging.InvalTlb(cpu.tlb, SatpFields(cpu.csr.satp), cpu.xregs[rs1], cpu.xregs[rs2] % 0x1_0000, rs1 != 0, rs2 != 0);
        }
      case Ecall => EnterTrap(cpu, Trap(cpu.epc, EcallCause(cpu.privilege), 0));
      case Ebreak => EnterTrap(cpu, Trap(cpu.epc, CAUSE_EBREAK, 0));
      case Other => RaiseIllegal(cpu, word);
    }
  }
}
