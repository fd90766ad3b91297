/** The reserved privilege level, and M-level isolation. */
module HartIsolation {
  import opened Types
  import opened Sv39
  import opened Tlb
  import opened Hart
  import opened Privileged
  import opened CsrAccess
  import opened BaseSystem
  import opened HartProofs

  // ---- The reserved privilege level ----

  predicate LevelsLegal(h: HartState) { h.privilege in {0, 1, 3} && Mpp(h.csr.mstatus) != 2 }

  /** The guest writes the reserved value 2 to MPP. */
  predicate WritesReservedMpp(w: Word) { MPP_HIGH in Ones(w) && MPP_LOW !in Ones(w) }

  /** The code's fix-up never touches MPP: an mstatus write stores the reserved value exactly when asked to. */
  lemma MstatusWriteIsLegalExactly(h: HartState, w: Word)
    ensures Mpp(WriteMstatus(h, w).csr.mstatus) == 2 <==> WritesReservedMpp(w)
  {}

  /** The stored value is the masked written one exactly when bits 2 and 4, which do not exist, are zero or add nothing. */
  lemma MstatusStoredExactly(h: HartState, w: Word)
    ensures WriteMstatus(h, w).csr.mstatus == Ones(w) * MstatusMask()
       <==> (2 in Ones(w) ==> SIE in Ones(w)) && (4 in Ones(w) ==> MIE in Ones(w))
  {
    var stored, asked := WriteMstatus(h, w).csr.mstatus, Ones(w) * MstatusMask();
    if (2 in Ones(w) ==> SIE in Ones(w)) && (4 in Ones(w) ==> MIE in Ones(w)) {
      forall i ensures i in stored <==> i in asked {}
      assert stored == asked;
    } else {
      assert SIE in stored || MIE in stored;
      assert (2 in Ones(w) && SIE !in asked && SIE in stored) || (4 in Ones(w) && MIE !in asked && MIE in stored);
    }
  }

  /** `mret` reaches the reserved level exactly from a reserved MPP. */
  lemma MretLevel(h: HartState)
    ensures DoMret(h).privilege == Mpp(h.csr.mstatus)
    ensures Mpp(DoMret(h).csr.mstatus) == 0
  {}

  lemma TrapLegal(h: HartState, t: Trap)
    requires LevelsLegal(h)
    ensures LevelsLegal(DoTrap(h, t))
  {}

  lemma CsrWriteLegal(h: HartState, index: nat, w: Word)
    requires LevelsLegal(h) && CsrWrite(h, index, w).Some?
    requires index == CSR_MSTATUS ==> !WritesReservedMpp(w)
    ensures LevelsLegal(CsrWrite(h, index, w).value)
  {
    if !Wide(index) { NarrowWrite(h, index, w); }
  }

  lemma MstatusRefused(h: HartState, w: Word)
    requires h.privilege < 3
    ensures CsrWrite(h, CSR_MSTATUS, w).None?
  {}

  lemma CsrWriteKeepsLegal(h: HartState, index: nat, w: Word)
    requires LevelsLegal(h) && (h.privilege == 3 && index == CSR_MSTATUS ==> !WritesReservedMpp(w))
    ensures CsrWrite(h, index, w).Some? ==> LevelsLegal(CsrWrite(h, index, w).value)
  {
    if h.privilege < 3 && index == CSR_MSTATUS {
      MstatusRefused(h, w);
    } else if CsrWrite(h, index, w).Some? {
      CsrWriteLegal(h, index, w);
    }
  }

  /** The step does not write the reserved value to MPP; below M-mode it could not. */
  predicate NoReservedWrite(h: Live, op: HartOp) {
    h.privilege == 3 && op.System? && op.i.CsrOp? && op.i.csr == CSR_MSTATUS ==>
      var w := CsrNewValue(h, op.i.funct3, op.i.csr, op.i.rs1, op.i.rd);
      w.Some? ==> !WritesReservedMpp(w.value)
  }

  lemma DoCsrLegal(h: Live, i: Insn, word: Word)
    requires LevelsLegal(h) && i.CsrOp? && NoReservedWrite(h, System(i, word))
    ensures LevelsLegal(DoCsr(h, i.funct3, i.csr, i.rs1, i.rd, word))
  {
    TrapLegal(h, Trap(h.epc, CAUSE_ILLEGAL, word));
    var w := CsrNewValue(h, i.funct3, i.csr, i.rs1, i.rd);
    if w.Some? { CsrWriteKeepsLegal(h, i.csr, w.value); }
  }

  lemma ExecuteLegal(h: Live, i: Insn, word: Word)
    requires LevelsLegal(h) && Survives(h, i) && NoReservedWrite(h, System(i, word))
    ensures LevelsLegal(Execute(h, i, word))
  {
    TrapLegal(h, Trap(h.epc, CAUSE_ILLEGAL, word));
    match i {
      case CsrOp(f, csr, rs1, rd) => DoCsrLegal(h, i, word);
      case Ecall => TrapLegal(h, Trap(h.epc, EcallCause(h.privilege), 0));
      case Ebreak => TrapLegal(h, Trap(h.epc, CAUSE_EBREAK, 0));
      case _ =>
    }
  }

  lemma ReservedWriteIsIllegal(h: Live, op: HartOp)
    requires LevelsLegal(h) && Enabled(h, op) && !NoReservedWrite(h, op)
    ensures !LevelsLegal(Step(h, op))
  {
    var w := CsrNewValue(h, op.i.funct3, op.i.csr, op.i.rs1, op.i.rd).value;
    MstatusWriteIsLegalExactly(h, w);
    assert CsrWrite(h, CSR_MSTATUS, w) == Some(WriteMstatus(h, w));
    assert Step(h, op) == DoCsr(h, op.i.funct3, CSR_MSTATUS, op.i.rs1, op.i.rd, op.word);
    assert Step(h, op).csr == WriteMstatus(h, w).csr;
  }

  lemma StepLegal(h: Live, op: HartOp)
    requires LevelsLegal(h) && Enabled(h, op) && NoReservedWrite(h, op)
    ensures LevelsLegal(Step(h, op))
  {
    match op {
      case System(i, word) => ExecuteLegal(h, i, word);
      case Exception(t) => TrapLegal(h, t);
      case PollInterrupts =>
        var code := FirstFrom(Candidates(h), 0);
        if code.Some? && code.value < 64 { TrapLegal(h, InterruptTrap(h, code.value)); }
      case _ =>
    }
  }

  predicate NeverReserved(h: Live, ops: seq<HartOp>)
    requires Runnable(h, ops)
    decreases |ops|
  {
    ops == [] || (NoReservedWrite(h, ops[0]) && NeverReserved(Step(h, ops[0]), ops[1..]))
  }

  predicate AlwaysLegal(h: Live, ops: seq<HartOp>)
    requires Runnable(h, ops)
    decreases |ops|
  {
    LevelsLegal(h) && (ops == [] || AlwaysLegal(Step(h, ops[0]), ops[1..]))
  }

  /** Privilege and MPP stay legal in every state of a run exactly when M-mode never writes the reserved MPP. */
  lemma {:induction false} AlwaysLegalExactly(h: Live, ops: seq<HartOp>)
    requires LevelsLegal(h) && Runnable(h, ops)
    ensures AlwaysLegal(h, ops) <==> NeverReserved(h, ops)
    decreases |ops|
  {
    if ops != [] {
      if NoReservedWrite(h, ops[0]) {
        StepLegal(h, ops[0]);
        AlwaysLegalExactly(Step(h, ops[0]), ops[1..]);
      } else {
        ReservedWriteIsIllegal(h, ops[0]);
      }
    }
  }

  /** Without a reserved MPP write, privilege stays in {0, 1, 3}, so no ecall can abort. */
  lemma {:induction false} LevelsStayLegal(h: Live, ops: seq<HartOp>, i: Insn)
    requires LevelsLegal(h) && Runnable(h, ops) && NeverReserved(h, ops)
    ensures LevelsLegal(Run(h, ops)) && Survives(Run(h, ops), i)
    decreases |ops|
  {
    if ops != [] {
      StepLegal(h, ops[0]);
      LevelsStayLegal(Step(h, ops[0]), ops[1..], i);
    }
  }

  /** There are words that write the reserved value. */
  lemma ReservingWord()
    ensures WritesReservedMpp(Value({MPP_HIGH}))
  {
    OnesRoundTrip({MPP_HIGH});
  }

  /** The guest does reach the reserved level, from any M-mode state: `csrrw x0, mstatus, rs1` with the reserved MPP value in
      rs1, and then `mret`. The next ecall aborts. */
  lemma ReservedLevelReached(h: Live, rs1: nat, word: Word, word': Word)
    requires h.privilege == 3 && rs1 < 32 && WritesReservedMpp(h.xregs[rs1])
    ensures var h1 := Execute(h, CsrOp(1, CSR_MSTATUS, rs1, 0), word);
      var h2 := Execute(h1, Mret, word');
      h2.privilege == 2 && !Survives(h2, Ecall)
  {
    var w := h.xregs[rs1];
    MstatusWriteIsLegalExactly(h, w);
    assert Execute(h, CsrOp(1, CSR_MSTATUS, rs1, 0), word) == WriteMstatus(h, w);
    MretLevel(WriteMstatus(h, w));
  }

  // ---- M-level state below M-mode ----

  /** What only M-mode may change: the machine registers, and status outside sstatus. */
  function MLevel(h: HartState): Csr {
    h.csr.(mstatus := h.csr.mstatus - SstatusMask(),
           sie := 0, stvec := 0, scause := 0, stval := 0, sepc := 0, sscratch := 0, satp := 0, fcsr := 0)
  }

  lemma LowerCsrWrite(h: HartState, index: nat, w: Word)
    requires h.privilege < 3 && CsrWrite(h, index, w).Some?
    ensures MLevel(CsrWrite(h, index, w).value) == MLevel(h)
  {
    if index == CSR_SSTATUS { SstatusKeepsRest(h.csr.mstatus, Ones(w)); }
  }

  lemma SstatusKeepsRest(m: BitSet, w: BitSet)
    ensures (m - SstatusMask()) + (w * SstatusMask()) - SstatusMask() == m - SstatusMask()
  {}

  lemma TrapToSKeepsM(h: HartState, t: Trap)
    requires h.privilege <= 1
    ensures MLevel(TrapToS(h, t)) == MLevel(h)
  {
    assert StatusAfterTrapS(h.csr.mstatus, h.privilege) - SstatusMask() == h.csr.mstatus - SstatusMask();
  }

  lemma LowerTrap(h: HartState, t: Trap)
    requires DoTrap(h, t).privilege < 3
    ensures MLevel(DoTrap(h, t)) == MLevel(h)
  {
    TrapToSKeepsM(h, t);
  }

  lemma LowerSret(h: HartState)
    requires HartOk(h) && h.privilege < 3
    ensures MLevel(DoSret(h)) == MLevel(h)
  {
    assert DoSret(h).csr.mstatus - SstatusMask() == h.csr.mstatus - SstatusMask();
  }

  lemma LowerIllegal(h: Live, word: Word)
    requires Illegal(h, word).privilege < 3
    ensures MLevel(Illegal(h, word)) == MLevel(h)
  {
    LowerTrap(h, Trap(h.epc, CAUSE_ILLEGAL, word));
  }

  lemma LowerDoCsr(h: Live, f: nat, csr: nat, rs1: nat, rd: nat, word: Word)
    requires f < 8 && rs1 < 32 && rd < 32 && h.privilege < 3 && DoCsr(h, f, csr, rs1, rd, word).privilege < 3
    ensures MLevel(DoCsr(h, f, csr, rs1, rd, word)) == MLevel(h)
  {
    var w := CsrNewValue(h, f, csr, rs1, rd);
    if w.Some? && CsrWrite(h, csr, w.value).Some? { LowerCsrWrite(h, csr, w.value); }
    if DoCsr(h, f, csr, rs1, rd, word) == Illegal(h, word) { LowerIllegal(h, word); }
  }

  lemma LowerExecute(h: Live, i: Insn, word: Word)
    requires HartOk(h) && Survives(h, i) && h.privilege < 3 && Execute(h, i, word).privilege < 3
    ensures MLevel(Execute(h, i, word)) == MLevel(h)
  {
    match i {
      case CsrOp(f, csr, rs1, rd) => LowerDoCsr(h, f, csr, rs1, rd, word);
      case Sret =>
        if SretLegal(h) { LowerSret(h); } else { LowerIllegal(h, word); }
      case Ecall => LowerTrap(h, Trap(h.epc, EcallCause(h.privilege), 0));
      case Ebreak => LowerTrap(h, Trap(h.epc, CAUSE_EBREAK, 0));
      case Mret => LowerIllegal(h, word);
      case Other => LowerIllegal(h, word);
      case Wfi => if !WfiLegal(h) { LowerIllegal(h, word); }
      case SfenceVma(_, _) => if !SfenceLegal(h) { LowerIllegal(h, word); }
    }
  }

  lemma LowerStep(h: Live, op: HartOp)
    requires HartOk(h) && Enabled(h, op) && h.privilege < 3 && Step(h, op).privilege < 3
    ensures MLevel(Step(h, op)) == MLevel(h)
  {
    match op {
      case System(i, word) => LowerExecute(h, i, word);
      case Exception(t) => LowerTrap(h, t);
      case PollInterrupts =>
        var code := FirstFrom(Candidates(h), 0);
        if code.Some? && code.value < 64 { LowerTrap(h, InterruptTrap(h, code.value)); }
      case _ =>
    }
  }

  /** No step of the run enters M-mode. */
  predicate StaysBelowM(h: Live, ops: seq<HartOp>)
    requires Runnable(h, ops)
    decreases |ops|
  {
    h.privilege < 3 && (ops == [] || StaysBelowM(Step(h, ops[0]), ops[1..]))
  }

  /** Until the next trap into M-mode, no run below M-mode changes any M-level state. */
  lemma {:induction false} MLevelIsolated(h: Live, ops: seq<HartOp>)
    requires HartOk(h) && Runnable(h, ops) && StaysBelowM(h, ops)
    ensures MLevel(Run(h, ops)) == MLevel(h)
    decreases |ops|
  {
    if ops != [] {
      StepOk(h, ops[0]);
      LowerStep(h, ops[0]);
      MLevelIsolated(Step(h, ops[0]), ops[1..]);
    }
  }
}
