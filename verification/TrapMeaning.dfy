/** What a trap, an interrupt and a return leave in the registers, bit by bit (sections 3.1 and 4.1 of the RISC-V Privileged
    ISA), stated without the functions that compute it. */
module TrapMeaning {
  import opened Types
  import opened Tlb
  import opened Hart
  import opened Privileged
  import opened BaseSystem
  import opened HartProofs
  import HartTraps

  // ---- Words of the trap ----

  /** Bit 63 of the cause. */
  predicate Interrupt(cause: Word) { cause >= 0x8000_0000_0000_0000 }

  /** The trap goes to S-mode: raised in U or S, and its bit of the delegation register is set. */
  predicate ToS(h: HartState, cause: Word) {
    h.privilege <= 1 && cause % 64 in (if Interrupt(cause) then h.csr.mideleg else h.csr.medeleg)
  }

  /** The handler's address: the base with its mode bits cleared, and four bytes on for each interrupt number if bit 0 of
      the register asks for vectors. */
  predicate HandlerAt(pc: Word, tvec: Word, cause: Word) {
    if Interrupt(cause) && tvec % 2 == 1 then pc == (tvec / 4 * 4 + 4 * (cause % 64)) % 0x1_0000_0000_0000_0000
    else pc % 4 == 0 && tvec / 4 == pc / 4
  }

  /** All status bits but those named are as before. */
  predicate OtherBits(before: BitSet, after: BitSet, named: set<nat>) {
    forall i :: 0 <= i < 64 && i !in named ==> (i in after <==> i in before)
  }

  /** Privilege of data accesses: the field in bits 12 and 11 under bit 17, else the privilege. */
  predicate DataPrivilege(h: HartState) {
    if 17 in h.csr.mstatus then
      h.memPrivilege == (if 12 in h.csr.mstatus then 2 else 0) + (if 11 in h.csr.mstatus then 1 else 0)
    else h.memPrivilege == h.privilege
  }

  /** Nothing but the program counter, the two privileges and the named registers. */
  predicate OtherwiseSame(h: HartState, h': HartState) {
    && h'.xregs == h.xregs && h'.tlb == h.tlb && h'.irqPending == h.irqPending && h'.epc == h.epc
    && h'.csr == h.csr.(mstatus := h'.csr.mstatus, sepc := h'.csr.sepc, scause := h'.csr.scause, stval := h'.csr.stval,
                        mepc := h'.csr.mepc, mcause := h'.csr.mcause, mtval := h'.csr.mtval)
  }

  predicate MRegistersSame(h: HartState, h': HartState) {
    h'.csr.mepc == h.csr.mepc && h'.csr.mcause == h.csr.mcause && h'.csr.mtval == h.csr.mtval
  }

  predicate SRegistersSame(h: HartState, h': HartState) {
    h'.csr.sepc == h.csr.sepc && h'.csr.scause == h.csr.scause && h'.csr.stval == h.csr.stval
  }

  /** The hart after a trap to S-mode. */
  predicate TrappedToS(h: HartState, h': HartState, epc: Word, cause: Word, tval: Word) {
    var before, after := h.csr.mstatus, h'.csr.mstatus;
    && h'.privilege == 1 && HandlerAt(h'.pc, h.csr.stvec, cause)
    && h'.csr.sepc == epc && h'.csr.scause == cause && h'.csr.stval == tval && MRegistersSame(h, h')
    && (8 in after <==> h.privilege == 1) && (5 in after <==> 1 in before) && 1 !in after && OtherBits(before, after, {1, 5, 8})
    && DataPrivilege(h') && OtherwiseSame(h, h')
  }

  /** The hart after a trap to M-mode. */
  predicate TrappedToM(h: HartState, h': HartState, epc: Word, cause: Word, tval: Word) {
    var before, after := h.csr.mstatus, h'.csr.mstatus;
    && h'.privilege == 3 && HandlerAt(h'.pc, h.csr.mtvec, cause)
    && h'.csr.mepc == epc && h'.csr.mcause == cause && h'.csr.mtval == tval && SRegistersSame(h, h')
    && (11 in after <==> h.privilege in {1, 3}) && (12 in after <==> h.privilege in {2, 3})
    && (7 in after <==> 3 in before) && 3 !in after && OtherBits(before, after, {3, 7, 11, 12})
    && DataPrivilege(h') && OtherwiseSame(h, h')
  }

  lemma VectorIsHandler(tvec: Word, t: Trap)
    ensures HandlerAt(Vector(tvec, t), tvec, t.cause)
  {}

  /** A trap enters S-mode exactly when it is delegated, at that level's handler, with its three values in that level's
      registers, the old privilege and interrupt enable saved, and nothing else changed. */
  lemma TrapEntersExactly(h: HartState, t: Trap)
    requires h.privilege <= 3
    ensures if ToS(h, t.cause) then TrappedToS(h, DoTrap(h, t), t.epc, t.cause, t.tval)
      else TrappedToM(h, DoTrap(h, t), t.epc, t.cause, t.tval)
  {
    VectorIsHandler(h.csr.stvec, t);
    VectorIsHandler(h.csr.mtvec, t);
  }

  // ---- Interrupts ----

  /** Pending in the lines and enabled in mie. */
  predicate Waiting(h: HartState, code: nat) { code in h.irqPending && code in h.csr.mie }

  /** M-mode takes interrupts that are not delegated, from below always and from M-mode under MIE (bit 3). */
  predicate WaitsForM(h: HartState, code: nat) {
    Waiting(h, code) && code !in h.csr.mideleg && (h.privilege < 3 || 3 in h.csr.mstatus)
  }

  /** S-mode takes delegated ones, from U always and from S-mode under SIE (bit 1). */
  predicate WaitsForS(h: HartState, code: nat) {
    Waiting(h, code) && code in h.csr.mideleg && (h.privilege == 0 || (h.privilege == 1 && 1 in h.csr.mstatus))
  }

  /** 11, 3, 7, 9, 1, 5: external, software, timer, those of M first. */
  predicate MoreUrgent(a: nat, b: nat) {
    a == b || a == 11 || (a == 3 && b != 11) || (a == 7 && b !in {11, 3}) || (a == 9 && b in {1, 5}) || (a == 1 && b == 5)
  }

  lemma UrgencyIs(a: nat, b: nat)
    requires a in IrqLines() && b in IrqLines()
    ensures HartTraps.Urgency(a) <= HartTraps.Urgency(b) <==> MoreUrgent(a, b)
  {}

  lemma WaitingIs(h: HartState, code: nat)
    ensures HartTraps.DeliverableM(h, code) <==> WaitsForM(h, code)
    ensures HartTraps.DeliverableS(h, code) <==> WaitsForS(h, code)
  {}

  /** The interrupt is the most urgent of those the level takes. */
  predicate Chosen(h: HartState, toM: bool, code: nat) {
    && code in {1, 3, 5, 7, 9, 11} && (if toM then WaitsForM(h, code) else WaitsForS(h, code))
    && forall c :: c in {1, 3, 5, 7, 9, 11} && (if toM then WaitsForM(h, c) else WaitsForS(h, c)) ==> MoreUrgent(code, c)
  }

  lemma ChosenIs(h: HartState, toM: bool, code: nat)
    requires HartTraps.MostUrgent(h, toM, code)
    ensures Chosen(h, toM, code)
  {
    WaitingIs(h, code);
    forall c | c in {1, 3, 5, 7, 9, 11} && (if toM then WaitsForM(h, c) else WaitsForS(h, c)) ensures MoreUrgent(code, c) {
      WaitingIs(h, c);
      UrgencyIs(code, c);
    }
  }

  predicate SomeWaits(h: HartState, toM: bool) {
    exists c :: c in {1, 3, 5, 7, 9, 11} && (if toM then WaitsForM(h, c) else WaitsForS(h, c))
  }

  lemma SomeWaitsIs(h: HartState, toM: bool)
    ensures HartTraps.SomeDeliverable(h, toM) == SomeWaits(h, toM)
  {
    assert IrqLines() == {1, 3, 5, 7, 9, 11};
    forall c: nat ensures HartTraps.DeliverableM(h, c) == WaitsForM(h, c) && HartTraps.DeliverableS(h, c) == WaitsForS(h, c) {
      WaitingIs(h, c);
    }
    if SomeWaits(h, toM) {
      var c: nat :| c in {1, 3, 5, 7, 9, 11} && (if toM then WaitsForM(h, c) else WaitsForS(h, c));
      WaitingIs(h, c);
      assert c in IrqLines();
    }
  }

  lemma TakenBy(h: HartState, toM: bool, code: nat, h': HartState)
    requires h.privilege <= 3 && HartTraps.MostUrgent(h, toM, code)
    requires h' == if toM then TrapToM(h, InterruptTrap(h, code)) else TrapToS(h, InterruptTrap(h, code))
    ensures Chosen(h, toM, code)
    ensures toM ==> TrappedToM(h, h', h.pc, 0x8000_0000_0000_0000 + code, 0)
    ensures !toM ==> TrappedToS(h, h', h.pc, 0x8000_0000_0000_0000 + code, 0)
  {
    ChosenIs(h, toM, code);
    HartTraps.CauseOfCode(h, code);
    TrapEntersExactly(h, InterruptTrap(h, code));
  }

  /** Between instructions an interrupt is taken: to M-mode if that level takes one, and else to S-mode if that does, the
      most urgent one, with the interrupted pc as its return address, 2^63 plus its number as cause and 0 as value.
      Otherwise nothing happens. */
  lemma InterruptTakenExactly(h: HartState) returns (code: nat)
    requires InterruptsKnown(h) && h.privilege <= 3
    ensures SomeWaits(h, true) ==>
      Chosen(h, true, code) && TrappedToM(h, CheckInterrupts(h), h.pc, 0x8000_0000_0000_0000 + code, 0)
    ensures !SomeWaits(h, true) && SomeWaits(h, false) ==>
      Chosen(h, false, code) && TrappedToS(h, CheckInterrupts(h), h.pc, 0x8000_0000_0000_0000 + code, 0)
    ensures !SomeWaits(h, true) && !SomeWaits(h, false) ==> CheckInterrupts(h) == h
  {
    HartTraps.SelectionIsArchitectural(h);
    SomeWaitsIs(h, true);
    SomeWaitsIs(h, false);
    var h', toM := CheckInterrupts(h), SomeWaits(h, true);
    code := 0;
    if toM || SomeWaits(h, false) {
      code :| HartTraps.MostUrgent(h, toM, code) && h' == if toM then TrapToM(h, InterruptTrap(h, code)) else TrapToS(h, InterruptTrap(h, code));
      TakenBy(h, toM, code, h');
    }
  }

  // ---- Returns ----

  /** The hart after `mret` in M-mode: at mepc, in the saved level, with MIE restored, MPIE set, MPP cleared, and MPRV cleared
      when the level is not M. */
  lemma MretReturnsExactly(h: HartState)
    ensures var h' := DoMret(h); var before, after := h.csr.mstatus, h'.csr.mstatus;
      && h'.pc == h.csr.mepc
      && h'.privilege == (if 12 in before then 2 else 0) + (if 11 in before then 1 else 0)
      && (3 in after <==> 7 in before) && 7 in after && 11 !in after && 12 !in after
      && (17 in after <==> 17 in before && h'.privilege == 3) && OtherBits(before, after, {3, 7, 11, 12, 17})
      && DataPrivilege(h') && OtherwiseSame(h, h') && MRegistersSame(h, h') && SRegistersSame(h, h')
  {}

  /** The hart after a legal `sret`: at sepc, in the saved level, with SIE restored, SPIE set, SPP and MPRV cleared. */
  lemma SretReturnsExactly(h: HartState)
    ensures var h' := DoSret(h); var before, after := h.csr.mstatus, h'.csr.mstatus;
      && h'.pc == h.csr.sepc && h'.privilege == (if 8 in before then 1 else 0)
      && (1 in after <==> 5 in before) && 5 in after && 8 !in after && 17 !in after && OtherBits(before, after, {1, 5, 8, 17})
      && DataPrivilege(h') && OtherwiseSame(h, h') && MRegistersSame(h, h') && SRegistersSame(h, h')
  {}

  // ---- The privileged instructions ----

  /** The hart has trapped with the cause and value; the return address is that of the instruction. */
  predicate Trapped(h: HartState, h': HartState, cause: Word, tval: Word) {
    if ToS(h, cause) then TrappedToS(h, h', h.epc, cause, tval) else TrappedToM(h, h', h.epc, cause, tval)
  }

  /** mret, sret, wfi and sfence.vma are illegal exactly below their level or, in the level they belong to, under the status bit that
      traps them (TSR 22, TW 21, TVM 20). */
  predicate Allowed(h: HartState, i: Insn) {
    match i
    case Mret => h.privilege == 3
    case Sret => h.privilege >= 2 || (h.privilege == 1 && 22 !in h.csr.mstatus)
    case Wfi => h.privilege >= 3 || 21 !in h.csr.mstatus
    case SfenceVma(_, _) => h.privilege >= 2 || (h.privilege == 1 && 20 !in h.csr.mstatus)
    case _ => false
  }

  lemma TrapsWith(h: HartState, cause: Word, tval: Word)
    requires h.privilege <= 3
    ensures Trapped(h, DoTrap(h, Trap(h.epc, cause, tval)), cause, tval)
  {
    TrapEntersExactly(h, Trap(h.epc, cause, tval));
  }

  lemma TrappedBy(h: HartState, h': HartState, t: Trap)
    requires h.privilege <= 3 && t.epc == h.epc && h' == DoTrap(h, t)
    ensures Trapped(h, h', t.cause, t.tval)
  {
    TrapEntersExactly(h, t);
  }

  /** ecall traps with cause 8 plus the privilege and value 0. */
  lemma EcallExactly(h: Live, cause: Word, word: Word)
    requires h.privilege in {0, 1, 3} && cause == 8 + h.privilege
    ensures Trapped(h, Execute(h, Ecall, word), cause, 0)
  {
    TrappedBy(h, Execute(h, Ecall, word), Trap(h.epc, cause, 0));
  }

  /** ebreak traps with cause 3 and value 0. */
  lemma EbreakExactly(h: Live, cause: Word, word: Word)
    requires h.privilege <= 3 && cause == 3
    ensures Trapped(h, Execute(h, Ebreak, word), cause, 0)
  {
    TrappedBy(h, Execute(h, Ebreak, word), Trap(h.epc, cause, 0));
  }

  /** Refused privileged instructions and unknown words trap with cause 2 and the word as value; the allowed ones do what
      they are for. */
  lemma PrivilegedExactly(h: Live, i: Insn, word: Word)
    requires h.privilege <= 3 && !i.CsrOp? && !i.Ecall? && !i.Ebreak?
    ensures if !Allowed(h, i) then Trapped(h, Execute(h, i, word), 2, word)
      else Execute(h, i, word) == match i
        case Mret => DoMret(h)
        case Sret => DoSret(h)
        case SfenceVma(rs1, rs2) =>
          h.(tlb := Fence(h.tlb, SatpFields(h.csr.satp), h.xregs[rs1], h.xregs[rs2] % 0x1_0000, rs1 != 0, rs2 != 0))
        case _ => h
  {
    if !Allowed(h, i) {
      TrapsWith(h, 2, word);
      assert Execute(h, i, word) == DoTrap(h, Trap(h.epc, 2, word));
    }
  }
}
