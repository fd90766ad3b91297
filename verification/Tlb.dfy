/** The 16x16 TLB in front of the walk, and its fences (rv_paging.c, rv_paging.h). */
module Tlb {
  import opened Types
  import opened Sv39

  const ROWS := 16
  const COLUMNS := 16
  const SLOTS := 256

  /** Slot `row * COLUMNS + column`; `valid[slot]` is bit `column` of the row's valid word. */
  datatype TlbState = TlbState(entries: seq<TlbEntry>, valid: seq<bool>, nextColumn: nat)

  type Tlb = t: TlbState | |t.entries| == SLOTS && |t.valid| == SLOTS && t.nextColumn < 256
    witness TlbState(seq(SLOTS, _ => TlbEntry(0, 0, 0, Pte(0, 0, 0, 0))), seq(SLOTS, _ => false), 0)

  function Row(vpn: nat): nat { vpn % ROWS }

  predicate AsidMatches(e: TlbEntry, asid: nat) { e.pte.flags & PTE_G != 0 || e.asid == asid }

  datatype Probe = Hit(entry: TlbEntry) | Stale(slot: nat) | Miss

  /** Scan a row from `slot` to `end`; a match lacking A/D bits stops the scan and is invalidated. */
  function ProbeFrom(t: Tlb, slot: nat, end: nat, vpn: nat, asid: nat, fl: bv8): (p: Probe)
    requires slot <= end <= SLOTS
    ensures p.Stale? ==> slot <= p.slot < end && t.valid[p.slot]
    decreases end - slot
  {
    if slot == end then Miss else
    var e := t.entries[slot];
    if t.valid[slot] && e.tag == Tag(vpn) && AsidMatches(e, asid) then
      if e.pte.flags & fl == fl then Hit(e) else Stale(slot)
    else ProbeFrom(t, slot + 1, end, vpn, asid, fl)
  }

  function ProbeRow(t: Tlb, vpn: nat, asid: nat, fl: bv8): Probe {
    ProbeFrom(t, Row(vpn) * COLUMNS, Row(vpn) * COLUMNS + COLUMNS, vpn, asid, fl)
  }

  function FreeFrom(t: Tlb, slot: nat, end: nat): (f: nat)
    requires slot <= end <= SLOTS
    ensures slot <= f <= end
    ensures f < end ==> !t.valid[f]
    ensures f == end ==> forall k :: slot <= k < end ==> t.valid[k]
    decreases end - slot
  {
    if slot == end || !t.valid[slot] then slot else FreeFrom(t, slot + 1, end)
  }

  /** Either the new TLB, or an eviction that would write past the entry array. */
  datatype Filled = Filled(tlb: Tlb) | Overrun

  /** Insert into a free slot of the row, else over the slot the global counter names. The counter is
      an 8-bit field that is only ever incremented, so it can name a slot of a later row. */
  function Fill(t: Tlb, row: nat, e: TlbEntry): Filled
    requires row < ROWS
  {
    var first := row * COLUMNS;
    var free := FreeFrom(t, first, first + COLUMNS);
    if free < first + COLUMNS then
      Filled(t.(entries := t.entries[free := e], valid := t.valid[free := true]))
    else
      var victim := first + t.nextColumn;
      if victim >= SLOTS then Overrun
      else Filled(t.(entries := t.entries[victim := e], nextColumn := (t.nextColumn + 1) % 256))
  }

  datatype Outcome = Outcome(res: MemResult, out: Option<TlbEntry>, mem: Mem, filled: Filled)

  /** `rv_paging_lookup`. */
  function CachedLookup(mem: Mem, t: Tlb, c: Context, satp: Satp, vpn: nat, mode: Access): Outcome {
    match ProbeRow(t, vpn, satp.asid, Required(mode))
    case Hit(e) => Outcome(Ok, Some(e), mem, Filled(t))
    case Miss => Refill(mem, t, c, satp, vpn, mode)
    case Stale(slot) => Refill(mem, DropSlot(t, slot), c, satp, vpn, mode)
  }

  function DropSlot(t: Tlb, slot: nat): Tlb
    requires slot < SLOTS
  {
    t.(valid := t.valid[slot := false])
  }

  /** Walk the page table and cache a successful translation. */
  function Refill(mem: Mem, t: Tlb, c: Context, satp: Satp, vpn: nat, mode: Access): Outcome {
    var r := RawLookup(mem, c, satp, vpn, mode);
    if r.res != Ok || r.out.None? then Outcome(r.res, None, r.mem, Filled(t))
    else if r.out.value.pte.flags & PTE_V == 0 then Outcome(Ok, r.out, r.mem, Filled(t))
    else Outcome(Ok, r.out, r.mem, Fill(t, Row(vpn), r.out.value))
  }

  // ---- Fences ----

  function Flush(t: Tlb): Tlb { t.(valid := seq(SLOTS, _ => false)) }

  function InvalAsid(t: Tlb, asid: nat): Tlb {
    t.(valid := seq(SLOTS, i requires 0 <= i < SLOTS => t.valid[i] && t.entries[i].asid != asid))
  }

  predicate FenceMatches(e: TlbEntry, vpn: nat, asid: nat, withAsid: bool) {
    e.tag == Tag(vpn) && (withAsid ==> e.asid == asid)
  }

  function InvalVaddr(t: Tlb, vpn: nat, asid: nat, withAsid: bool): Tlb {
    t.(valid := seq(SLOTS, i requires 0 <= i < SLOTS =>
      t.valid[i] && !(i / COLUMNS == Row(vpn) && FenceMatches(t.entries[i], vpn, asid, withAsid))))
  }

  /** Bits 63..39 of a canonical address repeat bit 38; only Sv39 has canonical addresses. */
  predicate Canonical(satp: Satp, vaddr: nat) {
    satp.mode == 8 && (vaddr < 0x40_0000_0000 || 0xFFFF_FFC0_0000_0000 <= vaddr)
  }

  /** `rv_inval_tlb`. */
  function Fence(t: Tlb, satp: Satp, vaddr: nat, asid: nat, withVaddr: bool, withAsid: bool): Tlb {
    if withVaddr && !Canonical(satp, vaddr) then t
    else if withVaddr then InvalVaddr(t, vaddr / PAGE, asid, withAsid)
    else if withAsid then InvalAsid(t, asid)
    else Flush(t)
  }

  /** The hart's translation state; a satp write of an unsupported mode is dropped, one that leaves Sv39 flushes. */
  datatype Mmu = Mmu(satp: Satp, tlb: Tlb)

  function WriteSatp(m: Mmu, s: Satp): Mmu {
    if s.mode != 8 && s.mode != 0 then m
    else if s.mode != 8 then Mmu(s, Flush(m.tlb))
    else m.(satp := s)
  }
}
