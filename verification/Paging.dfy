/** The lookups and fences as they update RAM and the TLB in place (rv_paging.c). */
module Paging {
  import opened Bits
  import opened Types
  import opened Sv39
  import opened Tlb
  import opened Hart
  import opened Ram

  /** Read one aligned page-table word. */
  method LoadWord(m: Machine, addr: nat) returns (res: MemResult, pte: Pte)
    requires m.Bounded() && addr % 8 == 0 && addr + 8 < U64
    modifies m.ram
    ensures m.ram[..] == old(m.ram[..]) && m.Mem() == old(m.Mem())
    ensures res == (if addr in m.Mem() then Ok else AccessFault)
    ensures res == Ok ==> pte == m.Mem()[addr] && PteFits(pte) && InRam(m.ramStart, m.ram[..], addr, 8)
  {
    WordAt(m.ramStart, m.ram[..], addr);
    var buf, escaped := seq(8, _ => 0), false;
    res, buf, escaped := m.AccessPhys(addr, buf, Load);
    pte := DecodePte(LittleEndian(buf));
  }

  method StoreWord(m: Machine, addr: nat, pte: Pte) returns (res: MemResult)
    requires m.Bounded() && addr % 8 == 0 && PteFits(pte) && InRam(m.ramStart, m.ram[..], addr, 8)
    modifies m.ram
    ensures res == Ok && m.Mem() == old(m.Mem())[addr := pte]
    ensures m.ram[..] == StorePte(m.ramStart, old(m.ram[..]), addr, pte)
    ensures SameEdges(m.ramStart, old(m.ram[..]), m.ram[..])
  {
    StoreIsUpdate(m.ramStart, m.ram[..], addr, pte);
    StoreKeepsEdges(m.ramStart, m.ram[..], addr, pte);
    var buf, escaped;
    res, buf, escaped := m.AccessPhys(addr, Bytes(EncodePte(pte), 8), Store);
  }

  lemma SliceFits(leaf: Pte, vpn: nat, level: nat)
    requires level < LEVELS && leaf.ppn % Pages(level) == 0 && leaf.ppn < PPN_LIMIT
    ensures Slice(leaf, vpn, level).ppn < PPN_LIMIT
  {
    assert PPN_LIMIT % Pages(level) == 0;
    BelowMultiple(leaf.ppn / Pages(level), PPN_LIMIT / Pages(level), Pages(level), vpn % Pages(level));
  }

  lemma BelowMultiple(q: nat, k: nat, n: nat, r: nat)
    requires q * n < k * n && r < n
    ensures q * n + r < k * n
  {
    assert q + 1 <= k;
    assert (q + 1) * n <= k * n;
  }

  lemma PteAddrSmall(ppn: nat, part: nat)
    requires ppn < PPN_LIMIT && part < 512
    ensures PteAddr(ppn, part) % 8 == 0 && PteAddr(ppn, part) + 8 < U64
  {}

  /** Permissions at the leaf, and its A/D write. */
  method UseEntry(m: Machine, c: Context, entry: CachedEntry, mode: Access, pteAddr: nat, ptePmp: bv8, leaf: Pte)
    returns (res: MemResult, out: CachedEntry)
    requires m.Bounded() && pteAddr % 8 == 0 && PteFits(leaf) && InRam(m.ramStart, m.ram[..], pteAddr, 8)
    requires pteAddr in m.Mem() && m.Mem()[pteAddr] == leaf && ptePmp == c.pmp(pteAddr, 8)
    modifies m.ram
    ensures var r := UseLeaf(old(m.Mem()), c, entry, mode, pteAddr, leaf);
      res == r.res && m.Mem() == r.mem && r.out == (if res == Ok then Some(out) else None)
    ensures SameEdges(m.ramStart, old(m.ram[..]), m.ram[..])
  {
    var fl := Required(mode);
    out := entry;
    res := CheckAccess(c, entry, mode);
    if res != Ok { return; }
    if leaf.flags & fl != fl {
      if ptePmp & PMP_W == 0 { return AccessFault, out; }
      out := out.(pte := SetFlags(out.pte, fl));
      res := StoreWord(m, pteAddr, SetFlags(leaf, fl));
    }
  }

  method FinishLeaf(m: Machine, c: Context, asid: nat, vpn: nat, mode: Access, level: nat, pteAddr: nat, ptePmp: bv8, leaf: Pte)
    returns (res: MemResult, out: CachedEntry)
    requires m.Bounded() && level < LEVELS && pteAddr % 8 == 0 && PteFits(leaf) && leaf.ppn % Pages(level) == 0
    requires InRam(m.ramStart, m.ram[..], pteAddr, 8)
    requires pteAddr in m.Mem() && m.Mem()[pteAddr] == leaf && ptePmp == c.pmp(pteAddr, 8)
    modifies m.ram
    ensures var r := AtLeaf(old(m.Mem()), c, asid, vpn, mode, Leaf(pteAddr, level, leaf));
      res == r.res && m.Mem() == r.mem && r.out == (if res == Ok then Some(out) else None)
    ensures SameEdges(m.ramStart, old(m.ram[..]), m.ram[..])
  {
    SliceFits(leaf, vpn, level);
    out := TlbEntry(Tag(vpn), asid, c.pmp(leaf.ppn * PAGE, PAGE), Slice(leaf, vpn, level));
    res, out := UseEntry(m, c, out, mode, pteAddr, ptePmp, leaf);
  }

  /** The three-level walk. */
  method RawLookup(m: Machine, c: Context, satp: Satp, vaddr: nat, mode: Access) returns (res: MemResult, out: CachedEntry)
    requires m.Bounded() && satp.ppn < PPN_LIMIT
    modifies m.ram
    ensures var r := Sv39.RawLookup(old(m.Mem()), c, satp, vaddr / PAGE, mode);
      res == r.res && m.Mem() == r.mem && r.out == (if res == Ok then Some(out) else None)
    ensures SameEdges(m.ramStart, old(m.ram[..]), m.ram[..])
  {
    ghost var mem := m.Mem();
    var vpn: nat, ppn: nat := vaddr / PAGE, satp.ppn;
    var level := LEVELS - 1;
    out := TlbEntry(0, 0, 0, Pte(0, 0, 0, 0));
    while level >= 0
      invariant -1 <= level < LEVELS && ppn < PPN_LIMIT && m.ram[..] == old(m.ram[..]) && m.Mem() == mem
      invariant Sv39.RawLookup(mem, c, satp, vpn, mode) == RawFrom(mem, c, satp.asid, vpn, mode, ppn, level)
    {
      var pteAddr := PteAddr(ppn, VpnPart(vpn, level));
      PteAddrSmall(ppn, VpnPart(vpn, level));
      var ptePmp := c.pmp(pteAddr, 8);
      if ptePmp & PMP_R == 0 { return AccessFault, out; }
      var r, pte := LoadWord(m, pteAddr);
      if r != Ok { return r, out; }
      if pte.flags & PTE_V == 0 { return PageFault, out; }
      if pte.flags & PTE_RWX != 0 {
        if pte.ppn % Pages(level) != 0 { return PageFault, out; }
        res, out := FinishLeaf(m, c, satp.asid, vpn, mode, level, pteAddr, ptePmp, pte);
        return;
      }
      ppn := pte.ppn;
      level := level - 1;
    }
    return PageFault, out;
  }

  // ---- The TLB in front ----

  /** Scan the row; a match without the A/D bits is invalidated and ends the scan. */
  method ProbeTlb(t: TlbUnit, vpn: nat, asid: nat, fl: bv8) returns (hit: bool, out: CachedEntry)
    requires t.Valid()
    modifies t.valid
    ensures t.Valid()
    ensures match ProbeRow(old(t.State()), vpn, asid, fl)
      case Hit(e) => hit && out == e && t.State() == old(t.State())
      case Stale(slot) => !hit && t.State() == DropSlot(old(t.State()), slot)
      case Miss => !hit && t.State() == old(t.State())
  {
    var first := Row(vpn) * COLUMNS;
    ghost var s := t.State();
    for col := 0 to COLUMNS
      invariant t.Valid() && t.State() == s
      invariant ProbeRow(s, vpn, asid, fl) == ProbeFrom(s, first + col, first + COLUMNS, vpn, asid, fl)
    {
      var slot := first + col;
      if !t.valid[slot] { continue; }
      var entry := t.entries[slot];
      if entry.tag == Tag(vpn) {
        if entry.pte.flags & PTE_G == 0 && entry.asid != asid { continue; }
        if entry.pte.flags & fl != fl {
          t.valid[slot] := false;
          return false, entry;
        }
        return true, entry;
      }
    }
    return false, TlbEntry(0, 0, 0, Pte(0, 0, 0, 0));
  }

  /** Insert into a free slot of the row, else evict. Where the C program would write past the entry array, the entry is
      not `kept`, and nothing is said beyond that point. */
  method FillTlb(t: TlbUnit, row: nat, e: CachedEntry) returns (kept: bool)
    requires t.Valid() && row < ROWS
    modifies t, t.entries, t.valid
    ensures t.Valid() && kept == Fill(old(t.State()), row, e).Filled?
    ensures kept ==> t.State() == Fill(old(t.State()), row, e).tlb
  {
    var first := row * COLUMNS;
    for col := 0 to COLUMNS
      invariant t.Valid() && t.State() == old(t.State())
      invariant FreeFrom(t.State(), first, first + COLUMNS) == FreeFrom(t.State(), first + col, first + COLUMNS)
    {
      if !t.valid[first + col] {
        t.entries[first + col] := e;
        t.valid[first + col] := true;
        return true;
      }
    }
    if first + t.nextColumn >= SLOTS { return false; }
    t.entries[first + t.nextColumn] := e;
    t.nextColumn := (t.nextColumn + 1) % 256;
    return true;
  }

  ghost function CpuContext(cpu: Hart): Context
    reads cpu
  {
    WalkContext(cpu.csr, cpu.memPrivilege)
  }

  /** `rv_paging_lookup` on the hart's registers, its TLB and RAM. */
  method Lookup(m: Machine, cpu: Hart, vaddr: nat, mode: Access) returns (res: MemResult, out: CachedEntry, kept: bool)
    requires cpu.Valid() && m.Bounded()
    modifies m.ram, cpu.tlb, cpu.tlb.entries, cpu.tlb.valid
    ensures cpu.Valid()
    ensures var o := CachedLookup(old(m.Mem()), old(cpu.tlb.State()), CpuContext(cpu), SatpFields(cpu.csr.satp), vaddr / PAGE, mode);
      && res == o.res && m.Mem() == o.mem && (res == Ok ==> o.out == Some(out))
      && kept == o.filled.Filled? && (kept ==> cpu.tlb.State() == o.filled.tlb)
    ensures SameEdges(m.ramStart, old(m.ram[..]), m.ram[..])
  {
    res, out, kept := LookupIn(m, cpu.tlb, WalkContext(cpu.csr, cpu.memPrivilege), SatpFields(cpu.csr.satp), vaddr, mode);
  }

  method LookupIn(m: Machine, t: TlbUnit, c: Context, satp: Satp, vaddr: nat, mode: Access)
    returns (res: MemResult, out: CachedEntry, kept: bool)
    requires t.Valid() && m.Bounded() && satp.ppn < PPN_LIMIT
    modifies m.ram, t, t.entries, t.valid
    ensures t.Valid()
    ensures var o := CachedLookup(old(m.Mem()), old(t.State()), c, satp, vaddr / PAGE, mode);
      && res == o.res && m.Mem() == o.mem && (res == Ok ==> o.out == Some(out))
      && kept == o.filled.Filled? && (kept ==> t.State() == o.filled.tlb)
    ensures SameEdges(m.ramStart, old(m.ram[..]), m.ram[..])
  {
    var vpn := vaddr / PAGE;
    var hit, entry := ProbeTlb(t, vpn, satp.asid, Required(mode));
    if hit { return Ok, entry, true; }
    res, out, kept := RefillFrom(m, t, c, satp, vaddr, mode);
  }

  method RefillFrom(m: Machine, t: TlbUnit, c: Context, satp: Satp, vaddr: nat, mode: Access)
    returns (res: MemResult, out: CachedEntry, kept: bool)
    requires t.Valid() && m.Bounded() && satp.ppn < PPN_LIMIT
    modifies m.ram, t, t.entries, t.valid
    ensures t.Valid()
    ensures var o := Refill(old(m.Mem()), old(t.State()), c, satp, vaddr / PAGE, mode);
      && res == o.res && m.Mem() == o.mem && (res == Ok ==> o.out == Some(out))
      && kept == o.filled.Filled? && (kept ==> t.State() == o.filled.tlb)
    ensures SameEdges(m.ramStart, old(m.ram[..]), m.ram[..])
  {
    kept := true;
    res, out := RawLookup(m, c, satp, vaddr, mode);
    if res != Ok || out.pte.flags & PTE_V == 0 { return; }
    kept := FillTlb(t, Row(vaddr / PAGE), out);
  }

  // ---- Fences ----

  method FlushTlb(t: TlbUnit)
    requires t.Valid()
    modifies t.valid
    ensures t.Valid() && t.State() == Flush(old(t.State()))
  {
    for slot := 0 to SLOTS
      invariant forall i :: 0 <= i < slot ==> !t.valid[i]
    {
      t.valid[slot] := false;
    }
  }

  method InvalTlbAsid(t: TlbUnit, asid: nat)
    requires t.Valid()
    modifies t.valid
    ensures t.Valid() && t.State() == InvalAsid(old(t.State()), asid)
  {
    for slot := 0 to SLOTS
      invariant forall i :: 0 <= i < slot ==> t.valid[i] == (old(t.valid[i]) && t.entries[i].asid != asid)
      invariant forall i :: slot <= i < SLOTS ==> t.valid[i] == old(t.valid[i])
    {
      if t.entries[slot].asid == asid { t.valid[slot] := false; }
    }
  }

  method InvalTlbVaddr(t: TlbUnit, vaddr: nat, asid: nat, withAsid: bool)
    requires t.Valid()
    modifies t.valid
    ensures t.Valid() && t.State() == InvalVaddr(old(t.State()), vaddr / PAGE, asid, withAsid)
  {
    var vpn := vaddr / PAGE;
    var first := Row(vpn) * COLUMNS;
    for col := 0 to COLUMNS
      invariant forall i :: first <= i < first + col ==>
        t.valid[i] == (old(t.valid[i]) && !FenceMatches(t.entries[i], vpn, asid, withAsid))
      invariant forall i :: 0 <= i < SLOTS && !(first <= i < first + col) ==> t.valid[i] == old(t.valid[i])
    {
      if FenceMatches(t.entries[first + col], vpn, asid, withAsid) { t.valid[first + col] := false; }
    }
  }

  method InvalTlb(t: TlbUnit, satp: Satp, vaddr: nat, asid: nat, withVaddr: bool, withAsid: bool)
    requires t.Valid()
    modifies t.valid
    ensures t.Valid() && t.State() == Fence(old(t.State()), satp, vaddr, asid, withVaddr, withAsid)
  {
    if withVaddr && !Canonical(satp, vaddr) { return; }
    if withVaddr {
      InvalTlbVaddr(t, vaddr, asid, withAsid);
    } else if withAsid {
      InvalTlbAsid(t, asid);
    } else {
      FlushTlb(t);
    }
  }
}
