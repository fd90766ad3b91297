/** The TLB refines the walk, over every run of several harts sharing one memory. */
module TlbProofs {
  import opened Types
  import opened Sv39
  import opened Tlb

  /** Root page number of each ASID. */
  type Roots = nat -> nat

  /** Which half of the address space (value of bit 38) each TLB tag stands for. */
  type Halves = nat -> nat

  function FullVpn(half: Halves, tag: nat): nat { half(tag) * 0x400_0000 + tag }

  /** A cached entry is one slice of the leaf its ASID maps there, with no more A/D bits than memory has. */
  ghost predicate EntryOk(mem: Mem, roots: Roots, half: Halves, e: TlbEntry) {
    var vpn := FullVpn(half, e.tag);
    var t := Walk(mem, roots(e.asid), vpn);
    && e.tag == Tag(e.tag)
    && t.Leaf? && SamePteUpToAD(e.pte, Slice(t.pte, vpn, t.level)) && e.pte.flags & t.pte.flags == e.pte.flags
  }

  /** Section 4.3.1 of the RISC-V Privileged ISA: a global mapping exists in all address spaces. */
  ghost predicate GlobalsShared(mem: Mem, roots: Roots) {
    forall a1, a2, vpn ::
      var t := Walk(mem, roots(a1), vpn);
      t.Leaf? && t.pte.flags & PTE_G != 0 ==> Walk(mem, roots(a2), vpn) == t
  }

  predicate Conflict(e: TlbEntry, f: TlbEntry) {
    e.tag == f.tag && (e.pte.flags & PTE_G != 0 || f.pte.flags & PTE_G != 0 || e.asid == f.asid)
  }

  /** A live entry in the row where lookups of its page number search; no lookup ever reads any other. */
  predicate Home(t: Tlb, i: nat) { i < SLOTS && t.valid[i] && Row(t.entries[i].tag) == i / COLUMNS }

  /** No lookup can match two entries of its row. */
  ghost predicate Unique(t: Tlb) {
    forall i, j | 0 <= i < SLOTS && 0 <= j < SLOTS && i != j && i / COLUMNS == j / COLUMNS ::
      Home(t, i) && t.valid[j] ==> !Conflict(t.entries[i], t.entries[j])
  }

  ghost predicate EntriesOk(mem: Mem, roots: Roots, half: Halves, t: Tlb) {
    forall i :: 0 <= i < SLOTS && Home(t, i) ==> EntryOk(mem, roots, half, t.entries[i])
  }

  ghost predicate MmuOk(mem: Mem, roots: Roots, half: Halves, m: Mmu) {
    && (m.satp.mode == 8 || m.satp.mode == 0)
    && (m.satp.mode == 8 ==> m.satp.ppn == roots(m.satp.asid))
    && (m.satp.mode == 0 ==> forall i :: 0 <= i < SLOTS ==> !m.tlb.valid[i])
    && EntriesOk(mem, roots, half, m.tlb)
    && Unique(m.tlb)
  }

  // ---- Address arithmetic ----

  lemma LowBits2(q: nat, r: nat)
    ensures (q * 0x800_0000 + r) / 262144 % 512 == r / 262144 % 512
    ensures (q * 0x800_0000 + r) % 262144 == r % 262144
  {
    assert (q * 0x800_0000 + r) / 262144 == q * 512 + r / 262144;
  }

  lemma LowBits1(q: nat, r: nat)
    ensures (q * 0x800_0000 + r) / 512 % 512 == r / 512 % 512
    ensures (q * 0x800_0000 + r) % 512 == r % 512
  {
    assert (q * 0x800_0000 + r) / 512 == (q * 512) * 512 + r / 512;
  }

  lemma LowBitsDecide(vpn: nat, level: nat)
    requires level < LEVELS
    ensures VpnPart(vpn, level) == VpnPart(vpn % 0x800_0000, level)
    ensures vpn % Pages(level) == (vpn % 0x800_0000) % Pages(level)
  {
    var q, r := vpn / 0x800_0000, vpn % 0x800_0000;
    assert vpn == q * 0x800_0000 + r;
    LowBits2(q, r);
    LowBits1(q, r);
  }

  lemma {:induction false} WalkFromLowBits(mem: Mem, vpn: nat, ppn: nat, level: int)
    requires -1 <= level < LEVELS
    ensures WalkFrom(mem, vpn, ppn, level) == WalkFrom(mem, vpn % 0x800_0000, ppn, level)
    decreases level + 1
  {
    if level >= 0 {
      LowBitsDecide(vpn, level);
      var a := PteAddr(ppn, VpnPart(vpn, level));
      if a in mem { WalkFromLowBits(mem, vpn, mem[a].ppn, level - 1); }
    }
  }

  lemma TagAndHalf(half: Halves, vpn: nat)
    requires Bit38(vpn) == half(Tag(vpn))
    ensures FullVpn(half, Tag(vpn)) == vpn % 0x800_0000
  {
    assert vpn == (vpn / 0x800_0000) * 0x800_0000 + vpn % 0x800_0000;
    assert vpn / 0x400_0000 == 2 * (vpn / 0x800_0000) + (vpn % 0x800_0000) / 0x400_0000;
  }

  /** An address in the half its tag stands for walks like the tag's own address. */
  lemma WalkByTag(mem: Mem, root: nat, half: Halves, vpn: nat)
    requires Bit38(vpn) == half(Tag(vpn))
    ensures var w := FullVpn(half, Tag(vpn)); var t := Walk(mem, root, vpn);
      Walk(mem, root, w) == t && (t.Leaf? ==> Slice(t.pte, w, t.level) == Slice(t.pte, vpn, t.level))
  {
    TagAndHalf(half, vpn);
    WalkFromLowBits(mem, vpn, root, 2);
    var t := Walk(mem, root, vpn);
    if t.Leaf? { LowBitsDecide(vpn, t.level); }
  }

  lemma Shift16(k: nat, r: nat)
    ensures (16 * k + r) % 16 == r % 16
  {}

  lemma ModSixteen(q: nat, r: nat)
    ensures (q * 0x400_0000 + r) % 16 == r % 16
  {
    Shift16(q * 0x40_0000, r);
  }

  lemma RowOfTag(vpn: nat)
    ensures Row(Tag(vpn)) == Row(vpn)
  {
    ModSixteen(vpn / 0x400_0000, Tag(vpn));
  }

  // ---- A/D writes keep every cached entry right ----

  lemma FlagSubset(e: bv8, p: bv8, q: bv8)
    requires e & p == e && p & q == p
    ensures e & q == e
  {}

  lemma EntryOkUpToAD(mem: Mem, mem': Mem, roots: Roots, half: Halves, e: TlbEntry)
    requires OnlyADSet(mem, mem') && EntryOk(mem, roots, half, e)
    ensures EntryOk(mem', roots, half, e)
  {
    var vpn := FullVpn(half, e.tag);
    WalkUpToAD(mem, mem', roots(e.asid), vpn);
    var t, t' := Walk(mem, roots(e.asid), vpn), Walk(mem', roots(e.asid), vpn);
    FlagSubset(e.pte.flags, t.pte.flags, t'.pte.flags);
  }

  lemma GlobalsSharedUpToAD(mem: Mem, mem': Mem, roots: Roots)
    requires OnlyADSet(mem, mem') && GlobalsShared(mem, roots)
    ensures GlobalsShared(mem', roots)
  {
    forall a1, a2, vpn |
      var t := Walk(mem', roots(a1), vpn); t.Leaf? && t.pte.flags & PTE_G != 0
      ensures Walk(mem', roots(a2), vpn) == Walk(mem', roots(a1), vpn)
    {
      WalkUpToAD(mem, mem', roots(a1), vpn);
      WalkUpToAD(mem, mem', roots(a2), vpn);
      var t := Walk(mem, roots(a1), vpn);
      SameControlBits(t.pte, Walk(mem', roots(a1), vpn).pte);
      assert Walk(mem, roots(a2), vpn) == t;
    }
  }

  lemma MmuOkUpToAD(mem: Mem, mem': Mem, roots: Roots, half: Halves, m: Mmu)
    requires OnlyADSet(mem, mem') && MmuOk(mem, roots, half, m)
    ensures MmuOk(mem', roots, half, m)
  {
    forall i | 0 <= i < SLOTS && Home(m.tlb, i)
      ensures EntryOk(mem', roots, half, m.tlb.entries[i])
    {
      EntryOkUpToAD(mem, mem', roots, half, m.tlb.entries[i]);
    }
  }

  // ---- One lookup ----

  /** What a scan of a row tells about its slots. */
  lemma {:induction false} ProbeFinds(t: Tlb, slot: nat, end: nat, vpn: nat, asid: nat, fl: bv8)
    requires slot <= end <= SLOTS
    ensures var p := ProbeFrom(t, slot, end, vpn, asid, fl);
      match p
      case Hit(e) =>
        exists i :: slot <= i < end && t.valid[i] && t.entries[i] == e &&
          e.tag == Tag(vpn) && AsidMatches(e, asid) && e.pte.flags & fl == fl
      case Stale(i) => t.entries[i].tag == Tag(vpn) && AsidMatches(t.entries[i], asid)
      case Miss =>
        forall i :: slot <= i < end && t.valid[i] && t.entries[i].tag == Tag(vpn) ==> !AsidMatches(t.entries[i], asid)
    decreases end - slot
  {
    if slot < end { ProbeFinds(t, slot + 1, end, vpn, asid, fl); }
  }

  /** The result names the page the address map gives, and memory already has the A/D bits the access needs. */
  ghost predicate Refines(mem: Mem, root: nat, vpn: nat, mode: Access, out: TlbEntry) {
    var t := Walk(mem, root, vpn);
    && t.Leaf?
    && SamePteUpToAD(out.pte, Slice(t.pte, vpn, t.level))
    && out.pte.flags & t.pte.flags == out.pte.flags
    && out.pte.flags & Required(mode) == Required(mode)
    && t.pte.flags & Required(mode) == Required(mode)
  }

  lemma FlagsReach(e: bv8, p: bv8, fl: bv8)
    requires e & p == e && e & fl == fl
    ensures p & fl == fl
  {}

  /** A matching entry is a slice of the leaf the looked-up ASID maps, be it its own or a shared global one. */
  lemma EntryTranslates(mem: Mem, roots: Roots, half: Halves, asid: nat, vpn: nat, e: TlbEntry)
    requires EntryOk(mem, roots, half, e) && GlobalsShared(mem, roots)
    requires e.tag == Tag(vpn) && Bit38(vpn) == half(Tag(vpn)) && AsidMatches(e, asid)
    ensures var t := Walk(mem, roots(asid), vpn);
      && t.Leaf? && SamePteUpToAD(e.pte, Slice(t.pte, vpn, t.level))
      && e.pte.flags & t.pte.flags == e.pte.flags
  {
    WalkByTag(mem, roots(e.asid), half, vpn);
    var t := Walk(mem, roots(e.asid), vpn);
    if e.asid != asid {
      FlagBits(e.pte.flags, t.pte.flags);
      assert Walk(mem, roots(asid), vpn) == t;
    }
  }

  lemma HitRefines(mem: Mem, roots: Roots, half: Halves, asid: nat, vpn: nat, mode: Access, e: TlbEntry)
    requires EntryOk(mem, roots, half, e) && GlobalsShared(mem, roots)
    requires e.tag == Tag(vpn) && Bit38(vpn) == half(Tag(vpn)) && AsidMatches(e, asid)
    requires e.pte.flags & Required(mode) == Required(mode)
    ensures Refines(mem, roots(asid), vpn, mode, e)
  {
    EntryTranslates(mem, roots, half, asid, vpn, e);
    FlagsReach(e.pte.flags, Walk(mem, roots(asid), vpn).pte.flags, Required(mode));
  }

  lemma SliceFlags(p: Pte, vpn: nat, level: nat, fl: bv8)
    requires level < LEVELS && fl & !PTE_AD == 0
    ensures SamePteUpToAD(Slice(p, vpn, level), Slice(SetFlags(p, fl), vpn, level))
    ensures SamePteUpToAD(SetFlags(Slice(p, vpn, level), fl), Slice(SetFlags(p, fl), vpn, level))
    ensures SetFlags(Slice(p, vpn, level), fl).flags & SetFlags(p, fl).flags == SetFlags(p, fl).flags
  {
    SetFlagsBits(p.flags, fl);
    assert (p.flags | fl) & (p.flags | fl) == p.flags | fl;
  }

  /** A successful walk's result refines the address map of the memory it leaves. */
  lemma WalkRefines(mem: Mem, c: Context, satp: Satp, vpn: nat, mode: Access)
    requires RawLookup(mem, c, satp, vpn, mode).res == Ok
    ensures var r := RawLookup(mem, c, satp, vpn, mode);
      && r.out.Some? && r.out.value.tag == Tag(vpn) && r.out.value.asid == satp.asid
      && r.out.value.pte.flags & PTE_V != 0
      && Refines(r.mem, satp.ppn, vpn, mode, r.out.value)
  {
    var r, t := RawLookup(mem, c, satp, vpn, mode), Walk(mem, satp.ppn, vpn);
    RawLookupIsWalk(mem, c, satp, vpn, mode);
    RawWritesOnlyLeafAD(mem, c, satp, vpn, mode);
    WalkUpToAD(mem, r.mem, satp.ppn, vpn);
    RequiredIsAD(mode);
    SliceFlags(t.pte, vpn, t.level, Required(mode));
    NothingToSet(t.pte.flags, Required(mode));
    SetFlagsBits(t.pte.flags, Required(mode));
    WalkLeafIsValid(mem, vpn, satp.ppn, 2);
    FlagBits(t.pte.flags, t.pte.flags | Required(mode));
    assert r.out.value.pte == SetFlags(Slice(t.pte, vpn, t.level), Required(mode));
    assert Walk(r.mem, satp.ppn, vpn).pte == SetFlags(t.pte, Required(mode));
  }

  lemma {:induction false} WalkLeafIsValid(mem: Mem, vpn: nat, ppn: nat, level: int)
    requires -1 <= level < LEVELS
    ensures var t := WalkFrom(mem, vpn, ppn, level);
      t.Leaf? ==> t.pte.flags & PTE_V != 0 && t.pte.flags & PTE_RWX != 0 && t.pte.ppn % Pages(t.level) == 0
    decreases level + 1
  {
    if level >= 0 {
      var a := PteAddr(ppn, VpnPart(vpn, level));
      if a in mem { WalkLeafIsValid(mem, vpn, mem[a].ppn, level - 1); }
    }
  }

  // ---- Filling keeps the invariant ----

  lemma FillCases(t: Tlb, row: nat, e: TlbEntry)
    requires row < ROWS && Fill(t, row, e).Filled?
    ensures var t' := Fill(t, row, e).tlb;
      exists k :: 0 <= k < SLOTS && k / COLUMNS >= row && t'.entries == t.entries[k := e] &&
        ((t'.valid == t.valid[k := true] && k / COLUMNS == row) || t'.valid == t.valid)
  {
    var first := row * COLUMNS;
    var free := FreeFrom(t, first, first + COLUMNS);
    var k := if free < first + COLUMNS then free else first + t.nextColumn;
    assert k / COLUMNS >= row;
  }

  /** No live entry of the row would match the new one. */
  ghost predicate NoMatch(t: Tlb, vpn: nat, asid: nat) {
    forall i | 0 <= i < SLOTS && i / COLUMNS == Row(vpn) ::
      t.valid[i] && t.entries[i].tag == Tag(vpn) ==> !AsidMatches(t.entries[i], asid)
  }

  lemma NewEntryConflictsWithNone(mem: Mem, roots: Roots, half: Halves, t: Tlb, vpn: nat, e: TlbEntry, i: nat)
    requires EntriesOk(mem, roots, half, t) && GlobalsShared(mem, roots) && EntryOk(mem, roots, half, e)
    requires e.tag == Tag(vpn) && Bit38(vpn) == half(Tag(vpn)) && NoMatch(t, vpn, e.asid)
    requires i < SLOTS && i / COLUMNS == Row(vpn) && t.valid[i]
    ensures !Conflict(t.entries[i], e)
  {
    var f := t.entries[i];
    RowOfTag(vpn);
    if f.tag == e.tag && e.pte.flags & PTE_G != 0 {
      EntryTranslates(mem, roots, half, e.asid, vpn, e);
      EntryTranslates(mem, roots, half, f.asid, vpn, f);
    }
  }

  lemma FillKeepsUnique(mem: Mem, roots: Roots, half: Halves, t: Tlb, vpn: nat, e: TlbEntry)
    requires EntriesOk(mem, roots, half, t) && GlobalsShared(mem, roots) && EntryOk(mem, roots, half, e)
    requires e.tag == Tag(vpn) && Bit38(vpn) == half(Tag(vpn)) && NoMatch(t, vpn, e.asid)
    requires Unique(t) && Fill(t, Row(vpn), e).Filled?
    ensures Unique(Fill(t, Row(vpn), e).tlb)
  {
    var t' := Fill(t, Row(vpn), e).tlb;
    FillCases(t, Row(vpn), e);
    RowOfTag(vpn);
    forall i, j | 0 <= i < SLOTS && 0 <= j < SLOTS && i != j && i / COLUMNS == j / COLUMNS &&
                  Home(t', i) && t'.valid[j]
      ensures !Conflict(t'.entries[i], t'.entries[j])
    {
      if t'.entries[i].tag == e.tag && t'.entries[j].tag == e.tag {
        if t.valid[i] { NewEntryConflictsWithNone(mem, roots, half, t, vpn, e, i); }
        if t.valid[j] { NewEntryConflictsWithNone(mem, roots, half, t, vpn, e, j); }
      }
    }
  }

  lemma FillKeepsEntries(mem: Mem, roots: Roots, half: Halves, t: Tlb, row: nat, e: TlbEntry)
    requires EntriesOk(mem, roots, half, t) && EntryOk(mem, roots, half, e)
    requires row < ROWS && Fill(t, row, e).Filled?
    ensures EntriesOk(mem, roots, half, Fill(t, row, e).tlb)
  {
    FillCases(t, row, e);
  }

  // ---- Edited page tables and fences ----

  /** The walk reads the word at `a`. */
  predicate Visits(mem: Mem, a: nat, vpn: nat, ppn: nat, level: int)
    requires -1 <= level < LEVELS
    decreases level + 1
  {
    level >= 0 &&
    var b := PteAddr(ppn, VpnPart(vpn, level));
    b in mem && (b == a ||
                 (mem[b].flags & PTE_V != 0 && mem[b].flags & PTE_RWX == 0 && Visits(mem, a, vpn, mem[b].ppn, level - 1)))
  }

  lemma {:induction false} UnvisitedWalk(mem: Mem, a: nat, pte: Pte, vpn: nat, ppn: nat, level: int)
    requires -1 <= level < LEVELS && a in mem && !Visits(mem, a, vpn, ppn, level)
    ensures WalkFrom(mem[a := pte], vpn, ppn, level) == WalkFrom(mem, vpn, ppn, level)
    decreases level + 1
  {
    if level >= 0 {
      var b := PteAddr(ppn, VpnPart(vpn, level));
      if b in mem && mem[b].flags & PTE_V != 0 && mem[b].flags & PTE_RWX == 0 {
        UnvisitedWalk(mem, a, pte, vpn, mem[b].ppn, level - 1);
      }
    }
  }

  /** A fence: the operands of one sfence.vma. */
  datatype Operands = Operands(vaddr: nat, asid: nat, withVaddr: bool, withAsid: bool) {
    /** The named address lies in the Sv39 address space. */
    predicate Proper() { withVaddr ==> Canonical(Satp(8, 0, 0), vaddr) }

    predicate Names(e: TlbEntry) {
      (withVaddr ==> e.tag == Tag(vaddr / PAGE)) && (withAsid ==> e.asid == asid)
    }
  }

  function Fenced(m: Mmu, f: Operands): Mmu { m.(tlb := Fence(m.tlb, m.satp, f.vaddr, f.asid, f.withVaddr, f.withAsid)) }

  /** The cached entry was translated through the word at `a`. */
  predicate Through(mem: Mem, roots: Roots, half: Halves, a: nat, e: TlbEntry) {
    Visits(mem, a, FullVpn(half, e.tag), roots(e.asid), 2)
  }

  /** The fence names every entry of the hart that was translated through the word at `a`. */
  ghost predicate Covers(mem: Mem, roots: Roots, half: Halves, m: Mmu, a: nat, f: Operands) {
    forall i :: 0 <= i < SLOTS && Home(m.tlb, i) && Through(mem, roots, half, a, m.tlb.entries[i]) ==> f.Names(m.tlb.entries[i])
  }

  /** What a fence leaves of the entries that lookups can read. */
  lemma FenceLeaves(m: Mmu, f: Operands, i: nat)
    requires f.Proper() && m.satp.mode == 8 && i < SLOTS
    ensures Fenced(m, f).tlb.entries == m.tlb.entries
    ensures Home(Fenced(m, f).tlb, i) <==> Home(m.tlb, i) && !f.Names(m.tlb.entries[i])
  {
    RowOfTag(f.vaddr / PAGE);
  }

  /** Rewriting one word keeps a hart right if the hart's fence names everything translated through it. */
  lemma EditedHartOk(mem: Mem, roots: Roots, half: Halves, m: Mmu, a: nat, pte: Pte, f: Operands)
    requires MmuOk(mem, roots, half, m) && a in mem && f.Proper() && Covers(mem, roots, half, m, a, f)
    ensures MmuOk(mem[a := pte], roots, half, Fenced(m, f))
  {
    var m' := Fenced(m, f);
    if m.satp.mode == 8 {
      forall i | 0 <= i < SLOTS && Home(m'.tlb, i) ensures EntryOk(mem[a := pte], roots, half, m'.tlb.entries[i]) {
        FenceLeaves(m, f, i);
        var e := m.tlb.entries[i];
        UnvisitedWalk(mem, a, pte, FullVpn(half, e.tag), roots(e.asid), 2);
      }
      assert Unique(m'.tlb);
    }
  }

  // ---- Runs ----

  /** All harts share the memory; `roots` and `half` are how the operating system uses it. */
  datatype Sys = Sys(mem: Mem, harts: seq<Mmu>, roots: Roots, half: Halves)

  datatype Op =
    | Translate(h: nat, c: Context, vaddr: nat, mode: Access)
    | SetSatp(h: nat, satp: Satp)
    | SfenceVma(h: nat, vaddr: nat, asid: nat, withVaddr: bool, withAsid: bool)
    // The operating system rewrites one page-table word, and every hart executes the same fence.
    | Edit(a: nat, pte: Pte, fence: Operands)
    // The operating system rewrites page tables or roots at will and flushes every hart.
    | Remap(mem: Mem, roots: Roots, half: Halves)

  function LookupAt(s: Sys, op: Op): Outcome
    requires op.Translate? && op.h < |s.harts|
  {
    var m := s.harts[op.h];
    CachedLookup(s.mem, m.tlb, op.c, m.satp, op.vaddr / PAGE, op.mode)
  }

  /** Translation needs Sv39 and an address in its tag's half; a satp write uses the ASID's root; the fence of an edit
      names what was cached through the edited word; edited and remapped tables share global pages. */
  ghost predicate Enabled(s: Sys, op: Op) {
    match op
    case Translate(h, c, vaddr, mode) =>
      h < |s.harts| && s.harts[h].satp.mode == 8 && Bit38(vaddr / PAGE) == s.half(Tag(vaddr / PAGE))
    case SetSatp(h, satp) => h < |s.harts| && (satp.mode == 8 ==> satp.ppn == s.roots(satp.asid))
    case SfenceVma(h, _, _, _, _) => h < |s.harts|
    case Edit(a, pte, f) =>
      a in s.mem && f.Proper() && GlobalsShared(s.mem[a := pte], s.roots) &&
      forall h :: 0 <= h < |s.harts| ==> Covers(s.mem, s.roots, s.half, s.harts[h], a, f)
    case Remap(mem, roots, half) =>
      GlobalsShared(mem, roots) &&
      forall h :: 0 <= h < |s.harts| && s.harts[h].satp.mode == 8 ==> s.harts[h].satp.ppn == roots(s.harts[h].satp.asid)
  }

  function Edited(s: Sys, a: nat, pte: Pte, f: Operands): Sys {
    s.(mem := s.mem[a := pte], harts := seq(|s.harts|, h requires 0 <= h < |s.harts| => Fenced(s.harts[h], f)))
  }

  /** The operation is a lookup that writes past the entry array: what the program does afterwards is open. */
  predicate Overruns(s: Sys, op: Op) { op.Translate? && op.h < |s.harts| && LookupAt(s, op).filled == Overrun }

  ghost function Step(s: Sys, op: Op): Sys
    requires Enabled(s, op) && !Overruns(s, op)
  {
    match op
    case Translate(h, _, _, _) =>
      var o := LookupAt(s, op);
      s.(mem := o.mem, harts := s.harts[h := s.harts[h].(tlb := o.filled.tlb)])
    case SetSatp(h, satp) => s.(harts := s.harts[h := WriteSatp(s.harts[h], satp)])
    case SfenceVma(h, vaddr, asid, wv, wa) =>
      s.(harts := s.harts[h := s.harts[h].(tlb := Fence(s.harts[h].tlb, s.harts[h].satp, vaddr, asid, wv, wa))])
    case Edit(a, pte, f) => Edited(s, a, pte, f)
    case Remap(mem, roots, half) =>
      Sys(mem, seq(|s.harts|, h requires 0 <= h < |s.harts| => s.harts[h].(tlb := Flush(s.harts[h].tlb))), roots, half)
  }

  ghost predicate Inv(s: Sys) {
    && GlobalsShared(s.mem, s.roots)
    && forall h :: 0 <= h < |s.harts| ==> MmuOk(s.mem, s.roots, s.half, s.harts[h])
  }

  /** What a translation must deliver, judged against the memory it leaves. */
  ghost predicate Correct(s: Sys, op: Op)
    requires Enabled(s, op)
  {
    op.Translate? && LookupAt(s, op).res == Ok ==>
      var o, m := LookupAt(s, op), s.harts[op.h];
      o.out.Some? && Refines(o.mem, s.roots(m.satp.asid), op.vaddr / PAGE, op.mode, o.out.value)
  }

  /** A run goes on until its operations are over or one of them overruns. */
  ghost predicate Runnable(s: Sys, ops: seq<Op>)
    decreases |ops|
  {
    ops == [] || (Enabled(s, ops[0]) && (Overruns(s, ops[0]) || Runnable(Step(s, ops[0]), ops[1..])))
  }

  /** Every translation is right, up to and including the first that overruns. */
  ghost predicate AllCorrect(s: Sys, ops: seq<Op>)
    requires Runnable(s, ops)
    decreases |ops|
  {
    ops == [] || (Correct(s, ops[0]) && (Overruns(s, ops[0]) || AllCorrect(Step(s, ops[0]), ops[1..])))
  }

  /** No operation of the run overruns. */
  ghost predicate Completes(s: Sys, ops: seq<Op>)
    requires Runnable(s, ops)
    decreases |ops|
  {
    ops == [] || (!Overruns(s, ops[0]) && Completes(Step(s, ops[0]), ops[1..]))
  }

  lemma ShrinkKeepsOk(mem: Mem, roots: Roots, half: Halves, m: Mmu, t: Tlb)
    requires MmuOk(mem, roots, half, m)
    requires t.entries == m.tlb.entries
    requires forall i :: 0 <= i < SLOTS && t.valid[i] ==> m.tlb.valid[i]
    ensures MmuOk(mem, roots, half, m.(tlb := t))
  {}

  lemma ProbeHits(mem: Mem, roots: Roots, half: Halves, t: Tlb, vpn: nat, asid: nat, fl: bv8)
    requires EntriesOk(mem, roots, half, t) && ProbeRow(t, vpn, asid, fl).Hit?
    ensures var e := ProbeRow(t, vpn, asid, fl).entry;
      EntryOk(mem, roots, half, e) && e.tag == Tag(vpn) && AsidMatches(e, asid) && e.pte.flags & fl == fl
  {
    RowOfTag(vpn);
    ProbeFinds(t, Row(vpn) * COLUMNS, Row(vpn) * COLUMNS + COLUMNS, vpn, asid, fl);
  }

  lemma ProbeMisses(t: Tlb, vpn: nat, asid: nat, fl: bv8)
    requires ProbeRow(t, vpn, asid, fl).Miss?
    ensures NoMatch(t, vpn, asid)
  {
    ProbeFinds(t, Row(vpn) * COLUMNS, Row(vpn) * COLUMNS + COLUMNS, vpn, asid, fl);
  }

  lemma ProbeIsStale(t: Tlb, vpn: nat, asid: nat, fl: bv8)
    requires ProbeRow(t, vpn, asid, fl).Stale?
    ensures var slot := ProbeRow(t, vpn, asid, fl).slot;
      slot / COLUMNS == Row(vpn) && t.valid[slot] && t.entries[slot].tag == Tag(vpn) && AsidMatches(t.entries[slot], asid)
  {
    ProbeFinds(t, Row(vpn) * COLUMNS, Row(vpn) * COLUMNS + COLUMNS, vpn, asid, fl);
  }

  /** The result of a lookup refines the address map, and the hart's state stays right unless the lookup overruns. */
  lemma LookupOk(mem: Mem, roots: Roots, half: Halves, m: Mmu, c: Context, vpn: nat, mode: Access)
    requires MmuOk(mem, roots, half, m) && GlobalsShared(mem, roots) && m.satp.mode == 8
    requires Bit38(vpn) == half(Tag(vpn))
    ensures var o := CachedLookup(mem, m.tlb, c, m.satp, vpn, mode);
      && OnlyADSet(mem, o.mem)
      && (o.filled.Filled? ==> MmuOk(o.mem, roots, half, m.(tlb := o.filled.tlb)))
      && (o.res == Ok ==> o.out.Some? && Refines(o.mem, roots(m.satp.asid), vpn, mode, o.out.value))
  {
    match ProbeRow(m.tlb, vpn, m.satp.asid, Required(mode)) {
      case Hit(e) =>
        ProbeHits(mem, roots, half, m.tlb, vpn, m.satp.asid, Required(mode));
        HitRefines(mem, roots, half, m.satp.asid, vpn, mode, e);
        NothingIsOnlyAD(mem);
      case Miss =>
        ProbeMisses(m.tlb, vpn, m.satp.asid, Required(mode));
        RefillOk(mem, roots, half, m, c, vpn, mode);
      case Stale(slot) =>
        ProbeIsStale(m.tlb, vpn, m.satp.asid, Required(mode));
        StaleRefillOk(mem, roots, half, m, c, vpn, mode, slot);
    }
  }

  /** A match that lacks A/D bits is dropped, and the walk then refills the row. */
  lemma StaleRefillOk(mem: Mem, roots: Roots, half: Halves, m: Mmu, c: Context, vpn: nat, mode: Access, slot: nat)
    requires MmuOk(mem, roots, half, m) && GlobalsShared(mem, roots) && m.satp.mode == 8
    requires Bit38(vpn) == half(Tag(vpn)) && slot < SLOTS && slot / COLUMNS == Row(vpn) && m.tlb.valid[slot]
    requires m.tlb.entries[slot].tag == Tag(vpn) && AsidMatches(m.tlb.entries[slot], m.satp.asid)
    ensures var o := Refill(mem, DropSlot(m.tlb, slot), c, m.satp, vpn, mode);
      && OnlyADSet(mem, o.mem)
      && (o.filled.Filled? ==> MmuOk(o.mem, roots, half, m.(tlb := o.filled.tlb)))
      && (o.res == Ok ==> o.out.Some? && Refines(o.mem, roots(m.satp.asid), vpn, mode, o.out.value))
  {
    ShrinkKeepsOk(mem, roots, half, m, DropSlot(m.tlb, slot));
    StaleWasOnlyMatch(m.tlb, slot, vpn, m.satp.asid);
    RefillOk(mem, roots, half, m.(tlb := DropSlot(m.tlb, slot)), c, vpn, mode);
  }

  lemma StaleWasOnlyMatch(t: Tlb, slot: nat, vpn: nat, asid: nat)
    requires Unique(t) && slot < SLOTS && slot / COLUMNS == Row(vpn) && t.valid[slot]
    requires t.entries[slot].tag == Tag(vpn) && AsidMatches(t.entries[slot], asid)
    ensures NoMatch(DropSlot(t, slot), vpn, asid)
  {
    RowOfTag(vpn);
    assert Home(t, slot);
    forall i | 0 <= i < SLOTS && i / COLUMNS == Row(vpn) && i != slot &&
               t.valid[i] && t.entries[i].tag == Tag(vpn)
      ensures !AsidMatches(t.entries[i], asid)
    {
      assert !Conflict(t.entries[slot], t.entries[i]);
    }
  }

  /** What a successful walk returns may be cached. */
  lemma WalkedEntryOk(mem: Mem, roots: Roots, half: Halves, c: Context, satp: Satp, vpn: nat, mode: Access)
    requires RawLookup(mem, c, satp, vpn, mode).res == Ok && satp.ppn == roots(satp.asid) && Bit38(vpn) == half(Tag(vpn))
    ensures var r := RawLookup(mem, c, satp, vpn, mode);
      && r.out.Some? && r.out.value.tag == Tag(vpn) && r.out.value.asid == satp.asid
      && EntryOk(r.mem, roots, half, r.out.value)
  {
    WalkRefines(mem, c, satp, vpn, mode);
    WalkByTag(RawLookup(mem, c, satp, vpn, mode).mem, satp.ppn, half, vpn);
    TagOfTag(vpn);
  }

  lemma TagOfTag(vpn: nat)
    ensures Tag(Tag(vpn)) == Tag(vpn)
  {}

  lemma RefillOk(mem: Mem, roots: Roots, half: Halves, m: Mmu, c: Context, vpn: nat, mode: Access)
    requires MmuOk(mem, roots, half, m) && GlobalsShared(mem, roots) && m.satp.mode == 8
    requires Bit38(vpn) == half(Tag(vpn)) && NoMatch(m.tlb, vpn, m.satp.asid)
    ensures var o := Refill(mem, m.tlb, c, m.satp, vpn, mode);
      && OnlyADSet(mem, o.mem)
      && (o.filled.Filled? ==> MmuOk(o.mem, roots, half, m.(tlb := o.filled.tlb)))
      && (o.res == Ok ==> o.out.Some? && Refines(o.mem, roots(m.satp.asid), vpn, mode, o.out.value))
  {
    var r := RawLookup(mem, c, m.satp, vpn, mode);
    RawWritesOnlyLeafAD(mem, c, m.satp, vpn, mode);
    MmuOkUpToAD(mem, r.mem, roots, half, m);
    if r.res == Ok {
      WalkRefines(mem, c, m.satp, vpn, mode);
      GlobalsSharedUpToAD(mem, r.mem, roots);
      WalkedEntryOk(mem, roots, half, c, m.satp, vpn, mode);
      var e := r.out.value;
      if Fill(m.tlb, Row(vpn), e).Filled? {
        FillKeepsEntries(r.mem, roots, half, m.tlb, Row(vpn), e);
        FillKeepsUnique(r.mem, roots, half, m.tlb, vpn, e);
      }
    }
  }

  lemma TranslateOk(s: Sys, op: Op)
    requires Inv(s) && op.Translate? && Enabled(s, op)
    ensures Correct(s, op) && (!Overruns(s, op) ==> Inv(Step(s, op)))
  {
    var m := s.harts[op.h];
    LookupOk(s.mem, s.roots, s.half, m, op.c, op.vaddr / PAGE, op.mode);
    if !Overruns(s, op) {
      var s' := Step(s, op);
      GlobalsSharedUpToAD(s.mem, s'.mem, s.roots);
      forall k | 0 <= k < |s'.harts| && k != op.h ensures MmuOk(s'.mem, s.roots, s.half, s'.harts[k]) {
        MmuOkUpToAD(s.mem, s'.mem, s.roots, s.half, s.harts[k]);
      }
    }
  }

  lemma SatpOk(mem: Mem, roots: Roots, half: Halves, m: Mmu, satp: Satp)
    requires MmuOk(mem, roots, half, m) && (satp.mode == 8 ==> satp.ppn == roots(satp.asid))
    ensures MmuOk(mem, roots, half, WriteSatp(m, satp))
  {
    ShrinkKeepsOk(mem, roots, half, m, Flush(m.tlb));
  }

  lemma StepOk(s: Sys, op: Op)
    requires Inv(s) && Enabled(s, op)
    ensures Correct(s, op) && (!Overruns(s, op) ==> Inv(Step(s, op)))
  {
    match op {
      case Translate(_, _, _, _) => TranslateOk(s, op);
      case SetSatp(h, satp) => SatpOk(s.mem, s.roots, s.half, s.harts[h], satp);
      case SfenceVma(h, vaddr, asid, wv, wa) =>
        var m := s.harts[h];
        ShrinkKeepsOk(s.mem, s.roots, s.half, m, Fence(m.tlb, m.satp, vaddr, asid, wv, wa));
      case Edit(a, pte, f) =>
        forall h | 0 <= h < |s.harts| ensures MmuOk(s.mem[a := pte], s.roots, s.half, Fenced(s.harts[h], f)) {
          EditedHartOk(s.mem, s.roots, s.half, s.harts[h], a, pte, f);
        }
      case Remap(mem, roots, half) =>
    }
  }

  /** Whatever its outcome, a lookup changes memory in A/D bits only, and not at all when it faults or hits. */
  lemma CachedWritesOnlyAD(mem: Mem, t: Tlb, c: Context, satp: Satp, vpn: nat, mode: Access)
    ensures var o := CachedLookup(mem, t, c, satp, vpn, mode);
      OnlyADSet(mem, o.mem) && (o.res != Ok || ProbeRow(t, vpn, satp.asid, Required(mode)).Hit? ==> o.mem == mem)
  {
    RawWritesOnlyLeafAD(mem, c, satp, vpn, mode);
    NothingIsOnlyAD(mem);
  }

  /** Once the leaf has the bits an access needs, looking it up again, cached or not, writes nothing. */
  lemma SatisfiedLookupWritesNothing(mem: Mem, t: Tlb, c: Context, satp: Satp, vpn: nat, mode: Access)
    requires var leaf := Walk(mem, satp.ppn, vpn); leaf.Leaf? && leaf.pte.flags & Required(mode) == Required(mode)
    ensures CachedLookup(mem, t, c, satp, vpn, mode).mem == mem
  {
    RawLookupIsWalk(mem, c, satp, vpn, mode);
  }

  /** Two entries that refine one address map name the same frame. */
  lemma RefiningEntriesAgree(mem: Mem, root: nat, vpn: nat, mode: Access, e: TlbEntry, f: TlbEntry)
    requires Refines(mem, root, vpn, mode, e) && Refines(mem, root, vpn, mode, f)
    ensures e.pte.ppn == f.pte.ppn
  {}

  /** After a successful lookup the next one of the address, in the same mode, finds the same frame and writes nothing. */
  lemma LookupTwice(mem: Mem, roots: Roots, half: Halves, m: Mmu, c: Context, vpn: nat, mode: Access)
    requires MmuOk(mem, roots, half, m) && GlobalsShared(mem, roots) && m.satp.mode == 8
    requires Bit38(vpn) == half(Tag(vpn)) && CachedLookup(mem, m.tlb, c, m.satp, vpn, mode).filled.Filled?
    requires CachedLookup(mem, m.tlb, c, m.satp, vpn, mode).res == Ok
    ensures var o := CachedLookup(mem, m.tlb, c, m.satp, vpn, mode);
      var o' := CachedLookup(o.mem, o.filled.tlb, c, m.satp, vpn, mode);
      && o'.res == Ok && o'.mem == o.mem
      && o.out.Some? && o'.out.Some? && o'.out.value.pte.ppn == o.out.value.pte.ppn
  {
    var o := CachedLookup(mem, m.tlb, c, m.satp, vpn, mode);
    LookupOk(mem, roots, half, m, c, vpn, mode);
    GlobalsSharedUpToAD(mem, o.mem, roots);
    LookupOk(o.mem, roots, half, m.(tlb := o.filled.tlb), c, vpn, mode);
    SatisfiedLookupWritesNothing(o.mem, o.filled.tlb, c, m.satp, vpn, mode);
    SecondSucceeds(mem, m.tlb, c, m.satp, vpn, mode);
    var o' := CachedLookup(o.mem, o.filled.tlb, c, m.satp, vpn, mode);
    RefiningEntriesAgree(o.mem, m.satp.ppn, vpn, mode, o.out.value, o'.out.value);
  }

  lemma WalkSucceedsThenLookup(mem: Mem, t: Tlb, c: Context, satp: Satp, vpn: nat, mode: Access)
    requires RawLookup(mem, c, satp, vpn, mode).res == Ok
    ensures CachedLookup(mem, t, c, satp, vpn, mode).res == Ok
  {}

  lemma SecondSucceeds(mem: Mem, t: Tlb, c: Context, satp: Satp, vpn: nat, mode: Access)
    requires var o := CachedLookup(mem, t, c, satp, vpn, mode); o.res == Ok && o.filled.Filled?
    ensures var o := CachedLookup(mem, t, c, satp, vpn, mode); CachedLookup(o.mem, o.filled.tlb, c, satp, vpn, mode).res == Ok
  {
    var o := CachedLookup(mem, t, c, satp, vpn, mode);
    if !ProbeRow(t, vpn, satp.asid, Required(mode)).Hit? {
      SecondLookupWritesNothing(mem, c, satp, vpn, mode);
      WalkSucceedsThenLookup(o.mem, o.filled.tlb, c, satp, vpn, mode);
    }
  }

  /** Translating for the store half of an atomic instruction is translating for its load half. */
  lemma AmoTranslatesAsStore(mem: Mem, t: Tlb, c: Context, satp: Satp, vpn: nat)
    ensures CachedLookup(mem, t, c, satp, vpn, Amo) == CachedLookup(mem, t, c, satp, vpn, Store)
  {
    AmoWalksAsStore(mem, c, satp.asid, vpn, satp.ppn, 2);
  }

  lemma {:induction false} AmoWalksAsStore(mem: Mem, c: Context, asid: nat, vpn: nat, ppn: nat, level: int)
    requires -1 <= level < LEVELS
    ensures RawFrom(mem, c, asid, vpn, Amo, ppn, level) == RawFrom(mem, c, asid, vpn, Store, ppn, level)
    decreases level + 1
  {
    if level >= 0 {
      var a := PteAddr(ppn, VpnPart(vpn, level));
      if a in mem { AmoWalksAsStore(mem, c, asid, vpn, mem[a].ppn, level - 1); }
    }
  }

  /** So the store of an atomic instruction reaches the frame its load came from, and translating it writes nothing. */
  lemma AmoHalvesAgree(mem: Mem, roots: Roots, half: Halves, m: Mmu, c: Context, vpn: nat)
    requires MmuOk(mem, roots, half, m) && GlobalsShared(mem, roots) && m.satp.mode == 8
    requires Bit38(vpn) == half(Tag(vpn))
    requires var o := CachedLookup(mem, m.tlb, c, m.satp, vpn, Amo); o.res == Ok && o.filled.Filled?
    ensures var o := CachedLookup(mem, m.tlb, c, m.satp, vpn, Amo);
      var o' := CachedLookup(o.mem, o.filled.tlb, c, m.satp, vpn, Store);
      && o'.res == Ok && o'.mem == o.mem
      && o.out.Some? && o'.out.Some? && o'.out.value.pte.ppn == o.out.value.pte.ppn
  {
    var o := CachedLookup(mem, m.tlb, c, m.satp, vpn, Amo);
    LookupTwice(mem, roots, half, m, c, vpn, Amo);
    AmoTranslatesAsStore(o.mem, o.filled.tlb, c, m.satp, vpn);
  }

  /** A machine fresh from reset satisfies the invariant. */
  lemma ResetOk(s: Sys)
    requires GlobalsShared(s.mem, s.roots)
    requires forall h :: 0 <= h < |s.harts| ==>
      s.harts[h].satp.mode == 0 && s.harts[h].tlb.valid == seq(SLOTS, _ => false)
    ensures Inv(s)
  {}

  /** Every translation of every run is one the address map gives, the overrunning one included. */
  lemma {:induction false} TlbRefinesWalk(s: Sys, ops: seq<Op>)
    requires Inv(s) && Runnable(s, ops)
    ensures AllCorrect(s, ops)
    decreases |ops|
  {
    if ops != [] {
      StepOk(s, ops[0]);
      if !Overruns(s, ops[0]) { TlbRefinesWalk(Step(s, ops[0]), ops[1..]); }
    }
  }
}
