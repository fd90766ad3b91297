/** Hart state (rv_cpu.h, rv_csr.h). */
module Hart {
  import opened Types
  import opened Sv39
  import opened Tlb
  import Pmp
  import Bits

  /** Control and status registers. Mask registers are kept as their set bits, the PMP registers per byte. */
  datatype Csr = Csr(
    mhartid: Word, marchid: Word, mimpid: Word, mvendorid: Word,
    mstatus: BitSet, mie: BitSet, mideleg: BitSet, medeleg: BitSet, mtvec: Word,
    mcause: Word, mtval: Word, mepc: Word, mtinst: Word,
    pmp: Pmp.Regs,
    sie: Word, stvec: Word, scause: Word, stval: Word, sepc: Word,
    sscratch: Word, mscratch: Word, satp: Word, fcsr: Word)

  /** A snapshot of one hart. */
  datatype HartState = HartState(
    csr: Csr, pc: Word, epc: Word, privilege: nat, memPrivilege: nat, irqPending: BitSet, xregs: seq<Word>, tlb: Tlb)

  /** Bits 63..60, 59..44 and 43..0. */
  function SatpFields(satp: Word): (s: Satp)
    ensures s.ppn < PPN_LIMIT
  {
    Satp(satp / 0x1000_0000_0000_0000, satp / 0x1000_0000_0000 % 0x1_0000, satp % 0x1000_0000_0000)
  }

  /** The answer of the PMP check to the walker, which never asks as M-mode. */
  function WalkerPmp(r: Pmp.Regs): (nat, nat) -> bv8 {
    (addr: nat, size: nat) => Pmp.Check(r, addr % Bits.U64, size % Bits.U64, false)
  }

  function WalkContext(csr: Csr, memPrivilege: nat): Context {
    Context(memPrivilege, csr.mstatus, WalkerPmp(csr.pmp))
  }

  class TlbUnit {
    const entries: array<CachedEntry>
    const valid: array<bool>
    var nextColumn: nat

    constructor ()
      ensures Valid() && fresh(entries) && fresh(valid)
      ensures State().valid == seq(SLOTS, _ => false) && nextColumn == 0
    {
      entries := new CachedEntry[SLOTS](_ => TlbEntry(0, 0, 0, Pte(0, 0, 0, 0)));
      valid := new bool[SLOTS](_ => false);
      nextColumn := 0;
    }

    predicate Valid()
      reads this
    {
      entries.Length == SLOTS && valid.Length == SLOTS && nextColumn < 256
    }

    function State(): Tlb
      requires Valid()
      reads this, entries, valid
    {
      TlbState(entries[..], valid[..], nextColumn)
    }
  }

  class Hart {
    var csr: Csr
    var pc: Word
    var epc: Word
    var privilege: nat
    var memPrivilege: nat
    var irqPending: BitSet
    var xregs: seq<Word>
    const tlb: TlbUnit

    /** Reset state: everything zero but the hart id, and M-mode. */
    constructor (id: Word)
      ensures Valid() && fresh(tlb) && fresh(tlb.entries) && fresh(tlb.valid)
      ensures State() == HartState(ResetCsr(id), 0, 0, 3, 3, {}, seq(32, _ => 0), State().tlb)
      ensures State().tlb.valid == seq(SLOTS, _ => false) && State().tlb.nextColumn == 0
    {
      csr := ResetCsr(id);
      pc, epc, privilege, memPrivilege, irqPending := 0, 0, 3, 3, {};
      xregs := seq(32, _ => 0);
      tlb := new TlbUnit();
    }

    predicate Valid()
      reads this, tlb
    {
      tlb.Valid() && |xregs| == 32
    }

    function State(): HartState
      requires Valid()
      reads this, tlb, tlb.entries, tlb.valid
    {
      HartState(csr, pc, epc, privilege, memPrivilege, irqPending, xregs, tlb.State())
    }
  }

  function NoPmp(): Pmp.Regs { Pmp.PmpRegs(seq(Pmp.ENTRIES, _ => 0), seq(Pmp.ENTRIES, _ => 0)) }

  function ResetCsr(id: Word): Csr {
    Csr(id, 0, 0, 0, {}, {}, {}, {}, 0, 0, 0, 0, 0, NoPmp(), 0, 0, 0, 0, 0, 0, 0, 0, 0)
  }
}
