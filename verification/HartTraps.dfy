/** Nested traps undo each other, and interrupt selection follows the architecture (rv_privileged.c, base.c). */
module HartTraps {
  import opened Types
  import opened Sv39
  import opened Tlb
  import opened Hart
  import opened Privileged
  import opened CsrAccess
  import opened BaseSystem
  import opened HartProofs

  // ---- Interrupt selection: section 3.1.9 of the RISC-V Privileged ISA ----

  /** Interrupt `code` would trap to M-mode: enabled there, pending, and not delegated. */
  predicate DeliverableM(h: HartState, code: nat) {
    EnabledM(h) && code in h.irqPending && code in h.csr.mie && code !in h.csr.mideleg
  }

  /** Interrupt `code` would trap to S-mode. */
  predicate DeliverableS(h: HartState, code: nat) {
    EnabledS(h) && code in h.irqPending && code in h.csr.mie && code in h.csr.mideleg
  }

  /** Lower is more urgent: external before software before timer, M before S. */
  function Urgency(code: nat): nat {
    if code == MEIP then 0 else if code == MSIP then 1 else if code == MTIP then 2
    else if code == SEIP then 3 else if code == SSIP then 4 else 5
  }

  predicate MostUrgent(h: HartState, toM: bool, code: nat) {
    && code in IrqLines()
    && (if toM then DeliverableM(h, code) else DeliverableS(h, code))
    && (forall c :: c in IrqLines() && (if toM then DeliverableM(h, c) else DeliverableS(h, c)) ==> Urgency(code) <= Urgency(c))
  }

  lemma FirstIsMostUrgent(take: BitSet)
    requires take <= IrqLines()
    ensures FirstFrom(take, 0).None? <==> take == {}
    ensures FirstFrom(take, 0).Some? ==> var code := FirstFrom(take, 0).value;
      code in take && code in IrqLines() && forall c :: c in take ==> Urgency(code) <= Urgency(c)
  {
    assert FirstFrom(take, 6).None?;
    assert FirstFrom(take, 5) == if STIP in take then Some(STIP) else FirstFrom(take, 6);
    assert FirstFrom(take, 4) == if SSIP in take then Some(SSIP) else FirstFrom(take, 5);
    assert FirstFrom(take, 3) == if SEIP in take then Some(SEIP) else FirstFrom(take, 4);
    assert FirstFrom(take, 2) == if MTIP in take then Some(MTIP) else FirstFrom(take, 3);
    assert FirstFrom(take, 1) == if MSIP in take then Some(MSIP) else FirstFrom(take, 2);
    if take != {} {
      var c :| c in take;
      assert c in IrqLines();
    }
  }

  predicate SomeDeliverable(h: HartState, toM: bool) {
    exists c :: c in IrqLines() && (if toM then DeliverableM(h, c) else DeliverableS(h, c))
  }

  lemma CandidatesAre(h: HartState)
    requires InterruptsKnown(h)
    ensures SomeDeliverable(h, true) ==> forall c :: c in Candidates(h) <==> DeliverableM(h, c)
    ensures !SomeDeliverable(h, true) ==> forall c :: c in Candidates(h) <==> DeliverableS(h, c)
  {
    var pending := h.irqPending * h.csr.mie;
    var m, s := pending - h.csr.mideleg, pending * h.csr.mideleg;
    assert forall c :: EnabledM(h) && c in m <==> DeliverableM(h, c);
    assert forall c :: EnabledS(h) && c in s <==> DeliverableS(h, c);
    if EnabledM(h) && m != {} {
      var c :| c in m;
      assert c in IrqLines() && DeliverableM(h, c);
    }
  }

  /** An interrupt is taken exactly when one is deliverable; it is the most urgent of its mode, M before S, and
      the mode entered is the one it was selected for. */
  lemma SelectionIsArchitectural(h: HartState)
    requires InterruptsKnown(h) && h.privilege <= 3
    ensures var h' := CheckInterrupts(h);
      if SomeDeliverable(h, true) then
        exists code :: MostUrgent(h, true, code) && h' == TrapToM(h, InterruptTrap(h, code))
      else if SomeDeliverable(h, false) then
        exists code :: MostUrgent(h, false, code) && h' == TrapToS(h, InterruptTrap(h, code))
      else h' == h
  {
    CandidatesAre(h);
    FirstIsMostUrgent(Candidates(h));
    var first := FirstFrom(Candidates(h), 0);
    if first.Some? {
      var code := first.value;
      CauseOfCode(h, code);
      assert MostUrgent(h, SomeDeliverable(h, true), code);
    }
  }

  lemma CauseOfCode(h: HartState, code: nat)
    requires code < 64
    ensures IsInterrupt(InterruptTrap(h, code)) && CauseLow(InterruptTrap(h, code)) == code
  {}

  /** Checking again with unchanged lines does nothing. */
  lemma SecondCheckDoesNothing(h: HartState)
    requires InterruptsKnown(h) && h.privilege <= 3
    ensures CheckInterrupts(CheckInterrupts(h)) == CheckInterrupts(h)
  {
    var h' := CheckInterrupts(h);
    SelectionIsArchitectural(h);
    if h' != h {
      assert !SomeDeliverable(h', true) && !SomeDeliverable(h', false);
      SelectionIsArchitectural(h');
    }
  }

  /** The supervisor enable register is stored but never consulted: writing it cannot change what is taken. */
  lemma SieHasNoEffect(h: HartState, w: Word)
    ensures CheckInterrupts(h.(csr := h.csr.(sie := w))) ==
      var h' := CheckInterrupts(h); h'.(csr := h'.csr.(sie := w))
  {}

  // ---- Nesting ----

  /** A handler that does not touch status, return addresses or its privilege. */
  predicate HandlerKeeps(h: HartState, h': HartState) {
    && h'.privilege == h.privilege && h'.csr.mstatus == h.csr.mstatus
    && h'.csr.sepc == h.csr.sepc && h'.csr.mepc == h.csr.mepc
  }

  /** An M-mode trap and its mret leave an interrupted S-mode handler as it was. */
  lemma InnerTrapReturns(h: HartState, t: Trap, handled: HartState)
    requires HartOk(h) && h.privilege == 1 && !Delegated(h, t)
    requires HandlerKeeps(DoTrap(h, t), handled)
    ensures handled.privilege == 3
    ensures var back := DoMret(handled);
      && back.pc == t.epc && back.privilege == 1 && back.csr.sepc == handled.csr.sepc
      && (forall b :: b in {SIE, MIE, SPIE, SPP} ==> (b in back.csr.mstatus <==> b in h.csr.mstatus))
      && back.csr.scause == handled.csr.scause && back.csr.stval == handled.csr.stval
  {}

  /** A delegated trap and its sret. */
  lemma OuterTrapReturns(h: HartState, t: Trap, handled: HartState)
    requires HartOk(h) && Delegated(h, t)
    requires handled.privilege == 1 && handled.csr.sepc == t.epc
    requires forall b :: b in {SIE, MIE, SPIE, SPP} ==> (b in handled.csr.mstatus <==> b in DoTrap(h, t).csr.mstatus)
    ensures var back := DoSret(handled);
      && back.pc == t.epc && back.privilege == h.privilege
      && (SIE in back.csr.mstatus <==> SIE in h.csr.mstatus) && (MIE in back.csr.mstatus <==> MIE in h.csr.mstatus)
  {}

  /** A trap to S, a trap to M inside its handler, and the two returns restore pc, privilege, SIE and MIE;
      the inner pair leaves sepc, scause, stval, SPP and SPIE alone. */
  lemma NestedTrapsUndo(h: HartState, outer: Trap, inHandler: HartState, inner: Trap, inInner: HartState, resumed: HartState)
    requires HartOk(h) && Delegated(h, outer)
    requires HartOk(inHandler) && HandlerKeeps(DoTrap(h, outer), inHandler) && !Delegated(inHandler, inner)
    requires HandlerKeeps(DoTrap(inHandler, inner), inInner)
      && inInner.csr.scause == inHandler.csr.scause && inInner.csr.stval == inHandler.csr.stval
    requires HandlerKeeps(DoMret(inInner), resumed)
    ensures var mid := DoMret(inInner);
      && mid.pc == inner.epc && mid.privilege == 1
      && mid.csr.sepc == inHandler.csr.sepc && mid.csr.scause == inHandler.csr.scause && mid.csr.stval == inHandler.csr.stval
      && (forall b :: b in {SPP, SPIE} ==> (b in mid.csr.mstatus <==> b in inHandler.csr.mstatus))
    ensures var back := DoSret(resumed);
      && back.pc == outer.epc && back.privilege == h.privilege
      && (SIE in back.csr.mstatus <==> SIE in h.csr.mstatus) && (MIE in back.csr.mstatus <==> MIE in h.csr.mstatus)
  {
    InnerTrapReturns(inHandler, inner, inInner);
    OuterTrapReturns(h, outer, resumed);
  }

  /** CSR writes other than to the status and return-address registers are what a handler may do. */
  lemma HandlerMayWrite(h: HartState, index: nat, w: Word)
    requires CsrWrite(h, index, w).Some? && index !in {CSR_MSTATUS, CSR_SSTATUS, 0x141, 0x341}
    ensures HandlerKeeps(h, CsrWrite(h, index, w).value)
  {
    if !Wide(index) { NarrowWrite(h, index, w); }
  }

  // ---- satp ----

  /** The satp register and the TLB move together as the translation unit's own satp write. */
  lemma SatpWriteIsMmuWrite(h: HartState, w: Word)
    ensures var h' := WriteSatpCsr(h, w);
      Mmu(SatpFields(h'.csr.satp), h'.tlb) == WriteSatp(Mmu(SatpFields(h.csr.satp), h.tlb), SatpFields(w))
  {}
}
