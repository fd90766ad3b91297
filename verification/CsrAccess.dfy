/** CSR reads and writes (rv_csr.c, rv_csr.h). */
module CsrAccess {
  import opened Bits
  import opened Types
  import opened Sv39
  import opened Tlb
  import opened Hart
  import opened Privileged
  import Pmp
  import Paging

  const MISA_VALUE := 0x8000_0000_0000_112D
  const PMPCFG0 := 0x3A0
  const PMPADDR0 := 0x3B0

  /** Lowest privilege that may access the register: bits 9..8 of its number. */
  function CsrPrivilege(index: nat): nat { index / 256 % 4 }

  predicate FloatEnabled(mstatus: BitSet) { 13 in mstatus || 14 in mstatus }

  /** In S-mode, TVM traps satp accesses. */
  predicate SatpTrapped(privilege: nat, mstatus: BitSet) { privilege == 1 && TVM in mstatus }

  // ---- PMP configuration words ----

  const CFG_WRITABLE: bv8 := 0x9F
  const CFG_A: bv8 := 0x18

  function ByteOf(w: nat, b: nat): bv8 {
    if b == 0 then (w % 256) as bv8 else ByteOf(w / 256, b - 1)
  }

  function Pack(bytes: seq<bv8>): nat {
    if bytes == [] then 0 else bytes[0] as nat + 256 * Pack(bytes[1..])
  }

  /** Reserved bits are cleared; TOR becomes OFF and NA4 becomes NAPOT. */
  function Normalize(b: bv8): bv8 {
    var n := b & CFG_WRITABLE;
    (n & !CFG_A) | (if n & Pmp.CFG_NAPOT_HIGH != 0 then CFG_A else 0)
  }

  /** Locked bytes keep their value. */
  function NewCfg(before: bv8, written: bv8): bv8 {
    if before & Pmp.CFG_LOCK != 0 then before else Normalize(written)
  }

  function WriteCfgWord(cfg: seq<bv8>, k: nat, w: Word): (r: seq<bv8>)
    requires |cfg| == Pmp.ENTRIES && k < 8
    ensures |r| == Pmp.ENTRIES
  {
    seq(Pmp.ENTRIES, i requires 0 <= i < Pmp.ENTRIES => if i / 8 == k then NewCfg(cfg[i], ByteOf(w, i % 8)) else cfg[i])
  }

  /** NAPOT addresses read their grain bits as ones, others as zeros. */
  function ReadAddr(r: Pmp.Regs, i: nat): Word
    requires i < Pmp.ENTRIES
  {
    if r.cfg[i] & CFG_A == CFG_A then r.addr[i] - r.addr[i] % 2048 + 2047 else r.addr[i] - r.addr[i] % 4096
  }

  // ---- Reads ----

  function PackedWord(r: Pmp.Regs, k: nat): Word
    requires k < 8
  {
    Pack(r.cfg[8 * k..8 * k + 8]) % U64
  }

  /** `rv_csr_read`; None is the illegal-instruction outcome. */
  function CsrRead(h: HartState, index: nat): Option<Word> {
    var c := h.csr;
    if CsrPrivilege(index) > h.privilege then None else
    match index
    case 0x301 => Some(MISA_VALUE)
    case 0xF14 => Some(c.mhartid)
    case 0xF12 => Some(c.marchid)
    case 0xF11 => Some(c.mvendorid)
    case 0xF13 => Some(c.mimpid)
    case 0x300 => Some(Value(c.mstatus + {33, 35}))
    case 0x304 => Some(Value(c.mie))
    case 0x344 => Some(Value(h.irqPending))
    case 0x303 => Some(Value(c.mideleg))
    case 0x302 => Some(Value(c.medeleg))
    case 0x305 => Some(c.mtvec)
    case 0x342 => Some(c.mcause)
    case 0x343 => Some(c.mtval)
    case 0x341 => Some(c.mepc)
    case 0x34A => Some(c.mtinst)
    case 0x340 => Some(c.mscratch)
    case 0x100 => Some(Value((c.mstatus * SstatusMask()) + {33}))
    case 0x104 => Some(c.sie)
    case 0x144 => Some(Value(h.irqPending * c.mideleg))
    case 0x105 => Some(c.stvec)
    case 0x142 => Some(c.scause)
    case 0x143 => Some(c.stval)
    case 0x141 => Some(c.sepc)
    case 0x140 => Some(c.sscratch)
    case 0x180 => if SatpTrapped(h.privilege, c.mstatus) then None else Some(c.satp)
    case 0x003 => if FloatEnabled(c.mstatus) then Some(c.fcsr) else None
    case 0x001 => if FloatEnabled(c.mstatus) then Some(c.fcsr % 32) else None
    case 0x002 => if FloatEnabled(c.mstatus) then Some(c.fcsr / 32 % 8) else None
    case _ =>
      if PMPCFG0 <= index <= 0x3AF then
        if index % 2 == 1 then None else Some(PackedWord(c.pmp, (index - PMPCFG0) / 2))
      else if PMPADDR0 <= index <= 0x3EF then Some(ReadAddr(c.pmp, index - PMPADDR0))
      else None
  }

  // ---- Writes ----

  /** `wdata |= (wdata >> 1) & RV_STATUS_MPP_BASE_BIT`: the mask is the number 11, so bits 1, 2 and 4 are
      copied one down, and MPP is left as written. */
  function FixMpp(w: BitSet): BitSet {
    w + (if 1 in w then {0} else {}) + (if 2 in w then {1} else {}) + (if 4 in w then {3} else {})
  }

  function WriteMstatus(h: HartState, w: Word): HartState {
    Sync(h.(csr := h.csr.(mstatus := FixMpp(Ones(w)) * MstatusMask())))
  }

  function WriteSstatus(h: HartState, w: Word): HartState {
    h.(csr := h.csr.(mstatus := (h.csr.mstatus - SstatusMask()) + (Ones(w) * SstatusMask())))
  }

  /** Write the bits of `mask`, keep the others. */
  function Masked(before: BitSet, mask: BitSet, w: BitSet): BitSet { (before - mask) + (w * mask) }

  function WriteSatpCsr(h: HartState, w: Word): HartState {
    var mode := SatpFields(w).mode;
    if mode != 8 && mode != 0 then h
    else if mode != 8 then h.(tlb := Flush(h.tlb), csr := h.csr.(satp := w))
    else h.(csr := h.csr.(satp := w))
  }

  function WritePmpcfg(h: HartState, k: nat, w: Word): HartState
    requires k < 8
  {
    h.(csr := h.csr.(pmp := h.csr.pmp.(cfg := WriteCfgWord(h.csr.pmp.cfg, k, w))))
  }

  function WritePmpaddr(h: HartState, i: nat, w: Word): HartState
    requires i < Pmp.ENTRIES
  {
    if h.csr.pmp.cfg[i] & Pmp.CFG_LOCK != 0 then h
    else h.(csr := h.csr.(pmp := h.csr.pmp.(addr := h.csr.pmp.addr[i := w])))
  }

  /** The exception flags replaced, the rest of fcsr kept. */
  function WithFlags(fcsr: Word, w: Word): Word { fcsr - fcsr % 32 + w % 32 }

  /** The rounding mode replaced, the rest of fcsr kept. */
  function WithRounding(fcsr: Word, w: Word): Word { fcsr % 32 + w % 8 * 32 + fcsr / 256 * 256 }

  /** `rv_csr_write`; None is the illegal-instruction outcome. */
  function CsrWrite(h: HartState, index: nat, w: Word): (r: Option<HartState>)
    ensures r.Some? ==> r.value.xregs == h.xregs && r.value.privilege == h.privilege && r.value.pc == h.pc
  {
    var c := h.csr;
    if CsrPrivilege(index) > h.privilege then None else
    match index
    case 0x301 => Some(h)
    case 0xF14 => Some(h)
    case 0xF12 => Some(h)
    case 0xF13 => Some(h)
    case 0xF11 => Some(h)
    case 0x300 => Some(WriteMstatus(h, w))
    case 0x304 => Some(h.(csr := c.(mie := Ones(w))))
    case 0x344 => Some(h.(irqPending := Masked(h.irqPending, SipMask(), Ones(w))))
    case 0x303 => Some(h.(csr := c.(mideleg := Ones(w))))
    case 0x302 => Some(h.(csr := c.(medeleg := Ones(w))))
    case 0x305 => Some(h.(csr := c.(mtvec := w)))
    case 0x342 => Some(h.(csr := c.(mcause := w)))
    case 0x343 => Some(h.(csr := c.(mtval := w)))
    case 0x341 => Some(h.(csr := c.(mepc := w)))
    case 0x34A => Some(h.(csr := c.(mtinst := w)))
    case 0x340 => Some(h.(csr := c.(mscratch := w)))
    case 0x100 => Some(WriteSstatus(h, w))
    case 0x104 => Some(h.(csr := c.(sie := w)))
    case 0x144 => Some(h.(irqPending := Masked(h.irqPending, c.mideleg * SipMask(), Ones(w))))
    case 0x105 => Some(h.(csr := c.(stvec := w)))
    case 0x142 => Some(h.(csr := c.(scause := w)))
    case 0x143 => Some(h.(csr := c.(stval := w)))
    case 0x141 => Some(h.(csr := c.(sepc := w)))
    case 0x140 => Some(h.(csr := c.(sscratch := w)))
    case 0x180 => if SatpTrapped(h.privilege, c.mstatus) then None else Some(WriteSatpCsr(h, w))
    case 0x003 => if FloatEnabled(c.mstatus) then Some(h.(csr := c.(fcsr := w % 256))) else None
    case 0x001 => if FloatEnabled(c.mstatus) then Some(h.(csr := c.(fcsr := WithFlags(c.fcsr, w)))) else None
    case 0x002 => if FloatEnabled(c.mstatus) then Some(h.(csr := c.(fcsr := WithRounding(c.fcsr, w)))) else None
    case _ =>
      if PMPCFG0 <= index <= 0x3AF then
        if index % 2 == 1 then None else Some(WritePmpcfg(h, (index - PMPCFG0) / 2, w))
      else if PMPADDR0 <= index <= 0x3EF then Some(WritePmpaddr(h, index - PMPADDR0, w))
      else None
  }

  // ---- The code, register by register ----

  /** The per-byte loop that builds the new configuration word. */
  method BuildCfg(cfg: seq<bv8>, k: nat, w: Word) returns (result: seq<bv8>)
    requires |cfg| == Pmp.ENTRIES && k < 8
    ensures result == WriteCfgWord(cfg, k, w)
  {
    result := cfg;
    for b := 0 to 8
      invariant |result| == Pmp.ENTRIES
      invariant forall i :: 0 <= i < Pmp.ENTRIES ==>
        result[i] == if 8 * k <= i < 8 * k + b then NewCfg(cfg[i], ByteOf(w, i % 8)) else cfg[i]
    {
      var oldByte := cfg[8 * k + b];
      var newByte := Normalize(ByteOf(w, b));
      assert (8 * k + b) % 8 == b;
      result := result[8 * k + b := if oldByte & Pmp.CFG_LOCK != 0 then oldByte else newByte];
    }
  }

  method WritePmp(cpu: Hart, index: nat, w: Word) returns (ok: bool)
    requires cpu.Valid() && PMPCFG0 <= index <= 0x3EF && CsrPrivilege(index) <= cpu.privilege
    modifies cpu
    ensures cpu.Valid()
    ensures match CsrWrite(old(cpu.State()), index, w)
      case Some(h) => ok && cpu.State() == h
      case None => !ok && cpu.State() == old(cpu.State())
  {
    if index <= 0x3AF {
      if index % 2 == 1 { return false; }
      var cfg := BuildCfg(cpu.csr.pmp.cfg, (index - PMPCFG0) / 2, w);
      cpu.csr := cpu.csr.(pmp := cpu.csr.pmp.(cfg := cfg));
    } else {
      var i := index - PMPADDR0;
      if cpu.csr.pmp.cfg[i] & Pmp.CFG_LOCK == 0 {
        cpu.csr := cpu.csr.(pmp := cpu.csr.pmp.(addr := cpu.csr.pmp.addr[i := w]));
      }
    }
    return true;
  }

  method StoreSatp(cpu: Hart, w: Word)
    requires cpu.Valid()
    modifies cpu, cpu.tlb.valid
    ensures cpu.Valid() && cpu.State() == WriteSatpCsr(old(cpu.State()), w)
  {
    var mode := SatpFields(w).mode;
    if mode != 8 && mode != 0 { return; }
    if mode != 8 { Paging.FlushTlb(cpu.tlb); }
    cpu.csr := cpu.csr.(satp := w);
  }

  /** The machine-mode registers that are plain fields, and the PMP registers. */
  method WriteMachineCsr(cpu: Hart, index: nat, w: Word) returns (ok: bool)
    requires cpu.Valid() && 0x300 <= index < 0x400 && CsrPrivilege(index) <= cpu.privilege
    modifies cpu
    ensures cpu.Valid()
    ensures match CsrWrite(old(cpu.State()), index, w)
      case Some(h) => ok && cpu.State() == h
      case None => !ok && cpu.State() == old(cpu.State())
  {
    ok := true;
    match index {
      case 0x301 =>
      case 0x300 =>
        var data := FixMpp(Ones(w));
        cpu.csr := cpu.csr.(mstatus := data * MstatusMask());
        SyncMemPrivilege(cpu);
      case 0x304 => cpu.csr := cpu.csr.(mie := Ones(w));
      case 0x344 => cpu.irqPending := Masked(cpu.irqPending, SipMask(), Ones(w));
      case 0x303 => cpu.csr := cpu.csr.(mideleg := Ones(w));
      case 0x302 => cpu.csr := cpu.csr.(medeleg := Ones(w));
      case 0x305 => cpu.csr := cpu.csr.(mtvec := w);
      case 0x342 => cpu.csr := cpu.csr.(mcause := w);
      case 0x343 => cpu.csr := cpu.csr.(mtval := w);
      case 0x341 => cpu.csr := cpu.csr.(mepc := w);
      case 0x34A => cpu.csr := cpu.csr.(mtinst := w);
      case 0x340 => cpu.csr := cpu.csr.(mscratch := w);
      case _ =>
        if PMPCFG0 <= index <= 0x3EF { ok := WritePmp(cpu, index, w); } else { ok := false; }
    }
  }

  /** The supervisor, user and read-only registers. */
  method WriteOtherCsr(cpu: Hart, index: nat, w: Word) returns (ok: bool)
    requires cpu.Valid() && !(0x300 <= index < 0x400) && CsrPrivilege(index) <= cpu.privilege
    modifies cpu, cpu.tlb.valid
    ensures cpu.Valid()
    ensures match CsrWrite(old(cpu.State()), index, w)
      case Some(h) => ok && cpu.State() == h
      case None => !ok && cpu.State() == old(cpu.State())
  {
    ok := true;
    match index {
      case 0xF14 =>
      case 0xF12 =>
      case 0xF13 =>
      case 0xF11 =>
      case 0x100 =>
        cpu.csr := cpu.csr.(mstatus := cpu.csr.mstatus - SstatusMask());
        cpu.csr := cpu.csr.(mstatus := cpu.csr.mstatus + (Ones(w) * SstatusMask()));
      case 0x104 => cpu.csr := cpu.csr.(sie := w);
      case 0x144 => cpu.irqPending := Masked(cpu.irqPending, cpu.csr.mideleg * SipMask(), Ones(w));
      case 0x105 => cpu.csr := cpu.csr.(stvec := w);
      case 0x142 => cpu.csr := cpu.csr.(scause := w);
      case 0x143 => cpu.csr := cpu.csr.(stval := w);
      case 0x141 => cpu.csr := cpu.csr.(sepc := w);
      case 0x140 => cpu.csr := cpu.csr.(sscratch := w);
      case 0x180 =>
        if SatpTrapped(cpu.privilege, cpu.csr.mstatus) { ok := false; } else { StoreSatp(cpu, w); }
      case 0x003 =>
        ok := FloatEnabled(cpu.csr.mstatus);
        if ok { cpu.csr := cpu.csr.(fcsr := w % 256); }
      case 0x001 =>
        ok := FloatEnabled(cpu.csr.mstatus);
        if ok { cpu.csr := cpu.csr.(fcsr := WithFlags(cpu.csr.fcsr, w)); }
      case 0x002 =>
        ok := FloatEnabled(cpu.csr.mstatus);
        if ok { cpu.csr := cpu.csr.(fcsr := WithRounding(cpu.csr.fcsr, w)); }
      case _ => ok := false;
    }
  }

  /** `rv_csr_write` on the hart. */
  method WriteCsr(cpu: Hart, index: nat, w: Word) returns (ok: bool)
    requires cpu.Valid()
    modifies cpu, cpu.tlb.valid
    ensures cpu.Valid()
    ensures match CsrWrite(old(cpu.State()), index, w)
      case Some(h) => ok && cpu.State() == h
      case None => !ok && cpu.State() == old(cpu.State())
  {
    if CsrPrivilege(index) > cpu.privilege { return false; }
    if 0x300 <= index < 0x400 {
      ok := WriteMachineCsr(cpu, index, w);
    } else {
      ok := WriteOtherCsr(cpu, index, w);
    }
  }
}
