/** Trap entry and interrupt selection (rv_privileged.c, rv_cpu.h). */
module Privileged {
  import opened Bits
  import opened Types
  import opened Hart

  /** Bit 63 of a cause marks an interrupt. */
  const CAUSE_INTR_FLAG := 0x8000_0000_0000_0000

  datatype Trap = Trap(epc: Word, cause: Word, tval: Word)

  /** The two-bit MPP field. */
  function Mpp(mstatus: BitSet): nat {
    (if MPP_LOW in mstatus then 1 else 0) + (if MPP_HIGH in mstatus then 2 else 0)
  }

  function MppBits(privilege: nat): BitSet {
    (if privilege % 2 == 1 then {MPP_LOW} else {}) + (if privilege / 2 % 2 == 1 then {MPP_HIGH} else {})
  }

  /** Effective privilege of data accesses: MPP while MPRV is set, else the privilege itself. */
  function EffectivePrivilege(mstatus: BitSet, privilege: nat): nat {
    if MPRV in mstatus then Mpp(mstatus) else privilege
  }

  /** `rv_sync_mem_privilege` */
  function Sync(h: HartState): HartState {
    h.(memPrivilege := EffectivePrivilege(h.csr.mstatus, h.privilege))
  }

  predicate IsInterrupt(t: Trap) { t.cause >= CAUSE_INTR_FLAG }

  function CauseLow(t: Trap): nat { t.cause % 64 }

  /** The trap is taken in S-mode: from S or U, and delegated. */
  predicate Delegated(h: HartState, t: Trap) {
    h.privilege <= 1 && CauseLow(t) in (if IsInterrupt(t) then h.csr.mideleg else h.csr.medeleg)
  }

  /** SPP is one bit wide; the code reaches here with privilege 0 or 1 only. */
  function StatusAfterTrapS(mstatus: BitSet, privilege: nat): BitSet {
    mstatus - {SPIE} - {SIE} - {SPP} + (if SIE in mstatus then {SPIE} else {}) + (if privilege == 1 then {SPP} else {})
  }

  function StatusAfterTrapM(mstatus: BitSet, privilege: nat): BitSet {
    mstatus - {MPIE} - {MIE} - {MPP_LOW, MPP_HIGH} + (if MIE in mstatus then {MPIE} else {}) + MppBits(privilege)
  }

  /** Handler address; interrupts are vectored when bit 0 of the base register is set. */
  function Vector(tvec: Word, t: Trap): Word {
    var base := tvec - tvec % 4;
    if IsInterrupt(t) && tvec % 2 == 1 then (base + 4 * CauseLow(t)) % U64 else base
  }

  function TrapToS(h: HartState, t: Trap): HartState {
    var csr := h.csr.(sepc := t.epc, scause := t.cause, stval := t.tval,
                      mstatus := StatusAfterTrapS(h.csr.mstatus, h.privilege));
    Sync(h.(csr := csr, privilege := 1)).(pc := Vector(csr.stvec, t))
  }

  function TrapToM(h: HartState, t: Trap): HartState {
    var csr := h.csr.(mepc := t.epc, mcause := t.cause, mtval := t.tval,
                      mstatus := StatusAfterTrapM(h.csr.mstatus, h.privilege));
    Sync(h.(csr := csr, privilege := 3)).(pc := Vector(csr.mtvec, t))
  }

  /** `rv_do_trap`, without hooks. */
  function DoTrap(h: HartState, t: Trap): HartState {
    if Delegated(h, t) then TrapToS(h, t) else TrapToM(h, t)
  }

  // ---- Interrupts ----

  /** MEI, MSI, MTI, SEI, SSI, STI. */
  function Priority(): seq<nat> { [MEIP, MSIP, MTIP, SEIP, SSIP, STIP] }

  /** First table entry from position `i` that is in `take`. */
  function FirstFrom(take: BitSet, i: nat): Option<nat>
    requires i <= 6
    decreases 6 - i
  {
    if i == 6 then None
    else if Priority()[i] in take then Some(Priority()[i])
    else FirstFrom(take, i + 1)
  }

  predicate EnabledM(h: HartState) { h.privilege < 3 || MIE in h.csr.mstatus }

  predicate EnabledS(h: HartState) { h.privilege < 1 || (h.privilege == 1 && SIE in h.csr.mstatus) }

  /** Pending, enabled bits to choose from: M-level ones first. */
  function Candidates(h: HartState): BitSet {
    var pending := h.irqPending * h.csr.mie;
    var m, s := pending - h.csr.mideleg, pending * h.csr.mideleg;
    if EnabledM(h) && m != {} then m else if EnabledS(h) && s != {} then s else {}
  }

  function InterruptTrap(h: HartState, code: nat): Trap
    requires code < 64
  {
    Trap(h.pc, CAUSE_INTR_FLAG + code, 0)
  }

  /** `rv_check_interrupts` */
  function CheckInterrupts(h: HartState): HartState {
    match FirstFrom(Candidates(h), 0)
    case None => h
    case Some(code) => if code < 64 then DoTrap(h, InterruptTrap(h, code)) else h
  }

  // ---- The code, field by field ----

  method SyncMemPrivilege(cpu: Hart)
    requires cpu.Valid()
    modifies cpu`memPrivilege
    ensures cpu.Valid() && cpu.State() == Sync(old(cpu.State()))
  {
    cpu.memPrivilege := if MPRV in cpu.csr.mstatus then Mpp(cpu.csr.mstatus) else cpu.privilege;
  }

  /** The S-mode branch: the status bits are saved and cleared one by one. */
  method EnterS(cpu: Hart, t: Trap)
    requires cpu.Valid()
    modifies cpu
    ensures cpu.Valid() && cpu.State() == TrapToS(old(cpu.State()), t)
  {
    var status := cpu.csr.mstatus;
    var spie := SIE in status;
    status := status - {SPIE};
    status := status - {SIE};
    status := status - {SPP};
    status := status + (if spie then {SPIE} else {});
    status := status + (if cpu.privilege == 1 then {SPP} else {});
    cpu.csr := cpu.csr.(sepc := t.epc, scause := t.cause, stval := t.tval, mstatus := status);
    cpu.privilege := 1;
    SyncMemPrivilege(cpu);
    cpu.pc := Vector(cpu.csr.stvec, t);
  }

  /** The M-mode branch. */
  method EnterM(cpu: Hart, t: Trap)
    requires cpu.Valid()
    modifies cpu
    ensures cpu.Valid() && cpu.State() == TrapToM(old(cpu.State()), t)
  {
    var status := cpu.csr.mstatus;
    var mpie := MIE in status;
    status := status - {MPIE};
    status := status - {MIE};
    status := status - {MPP_LOW, MPP_HIGH};
    status := status + (if mpie then {MPIE} else {});
    status := status + MppBits(cpu.privilege);
    cpu.csr := cpu.csr.(mepc := t.epc, mcause := t.cause, mtval := t.tval, mstatus := status);
    cpu.privilege := 3;
    SyncMemPrivilege(cpu);
    cpu.pc := Vector(cpu.csr.mtvec, t);
  }

  method EnterTrap(cpu: Hart, t: Trap)
    requires cpu.Valid()
    modifies cpu
    ensures cpu.Valid() && cpu.State() == DoTrap(old(cpu.State()), t)
  {
    var deleg := if IsInterrupt(t) then cpu.csr.mideleg else cpu.csr.medeleg;
    if cpu.privilege <= 1 && CauseLow(t) in deleg {
      EnterS(cpu, t);
    } else {
      EnterM(cpu, t);
    }
  }

  method TakeInterrupt(cpu: Hart)
    requires cpu.Valid()
    modifies cpu
    ensures cpu.Valid() && cpu.State() == CheckInterrupts(old(cpu.State()))
  {
    ghost var h := cpu.State();
    var pending := cpu.irqPending * cpu.csr.mie;
    var mPending, sPending := pending - cpu.csr.mideleg, pending * cpu.csr.mideleg;
    var mEnabled := cpu.privilege < 3 || MIE in cpu.csr.mstatus;
    var sEnabled := cpu.privilege < 1 || (cpu.privilege == 1 && SIE in cpu.csr.mstatus);
    var take: BitSet := {};
    if mEnabled && mPending != {} {
      take := mPending;
    } else if sEnabled && sPending != {} {
      take := sPending;
    }
    assert take == Candidates(h);
    for i := 0 to 6
      invariant cpu.Valid() && cpu.State() == h
      invariant FirstFrom(take, 0) == FirstFrom(take, i)
    {
      var code := Priority()[i];
      if code in take {
        EnterTrap(cpu, Trap(cpu.pc, CAUSE_INTR_FLAG + code, 0));
        return;
      }
    }
  }
}
