/** Exactly where the TLB's structure and tags suffice, and what its fences remove. */
module TlbLimits {
  import opened Types
  import opened Sv39
  import opened Tlb
  import opened TlbProofs

  // ---- Replacement ----

  /** Every live entry sits in the row of its page number. */
  ghost predicate Placed(t: Tlb) {
    forall i :: 0 <= i < SLOTS && t.valid[i] ==> Row(t.entries[i].tag) == i / COLUMNS
  }

  predicate RowFull(t: Tlb, row: nat)
    requires row < ROWS
  {
    FreeFrom(t, row * COLUMNS, row * COLUMNS + COLUMNS) == row * COLUMNS + COLUMNS
  }

  /** Filling keeps entries in their rows exactly when no live entry of a later row is overwritten. */
  lemma PlacementKeptExactly(t: Tlb, row: nat, e: TlbEntry)
    requires Placed(t) && row < ROWS && Row(e.tag) == row && Fill(t, row, e).Filled?
    ensures Placed(Fill(t, row, e).tlb) <==>
      (RowFull(t, row) && t.nextColumn >= COLUMNS ==> !t.valid[row * COLUMNS + t.nextColumn])
  {
    var t' := Fill(t, row, e).tlb;
    var first := row * COLUMNS;
    if RowFull(t, row) {
      var k := first + t.nextColumn;
      assert t'.entries[k] == e;
      if t.nextColumn < COLUMNS { assert k / COLUMNS == row; } else { assert k / COLUMNS > row; }
    } else {
      assert FreeFrom(t, first, first + COLUMNS) / COLUMNS == row;
    }
  }

  // ---- Fences ----

  /** After a fence the address can only hit through a global entry of another ASID, and only if ASIDs were named. */
  lemma FenceForgets(t: Tlb, satp: Satp, vaddr: nat, asid: nat, withVaddr: bool, withAsid: bool, hit: nat, fl: bv8)
    requires withVaddr ==> Canonical(satp, vaddr)
    requires withAsid ==> hit == asid
    ensures var t' := Fence(t, satp, vaddr, asid, withVaddr, withAsid); var vpn := vaddr / PAGE;
      var p := ProbeRow(t', vpn, hit, fl);
      p.Hit? ==> withAsid && p.entry.asid != asid && p.entry.pte.flags & PTE_G != 0
  {
    var t', vpn := Fence(t, satp, vaddr, asid, withVaddr, withAsid), vaddr / PAGE;
    ProbeFinds(t', Row(vpn) * COLUMNS, Row(vpn) * COLUMNS + COLUMNS, vpn, hit, fl);
  }

  function FencedBy(t: Tlb, satp: Satp, f: Operands): Tlb { Fence(t, satp, f.vaddr, f.asid, f.withVaddr, f.withAsid) }

  /** The fence drops the live entries its operands name and no others. */
  ghost predicate DropsExactly(t: Tlb, satp: Satp, f: Operands) {
    var t' := FencedBy(t, satp, f);
    t'.entries == t.entries && forall i :: 0 <= i < SLOTS ==> (t'.valid[i] <==> t.valid[i] && !f.Names(t.entries[i]))
  }

  /** A live entry that the operands name sits outside the row of its page. */
  ghost predicate NamesDisplaced(t: Tlb, f: Operands) {
    exists i :: 0 <= i < SLOTS && t.valid[i] && f.Names(t.entries[i]) && Row(t.entries[i].tag) != i / COLUMNS
  }

  /** A fence drops exactly the entries its operands name unless it names an address and a displaced entry of its page. */
  lemma FenceExactly(t: Tlb, satp: Satp, f: Operands)
    requires f.withVaddr ==> Canonical(satp, f.vaddr)
    ensures DropsExactly(t, satp, f) <==> !(f.withVaddr && NamesDisplaced(t, f))
  {
    RowOfTag(f.vaddr / PAGE);
    if f.withVaddr && NamesDisplaced(t, f) {
      var i :| 0 <= i < SLOTS && t.valid[i] && f.Names(t.entries[i]) && Row(t.entries[i].tag) != i / COLUMNS;
      assert FencedBy(t, satp, f).valid[i];
    }
  }

  /** The early return is sound: without Sv39 there is nothing to drop, and with it only canonical addresses are looked
      up, none of which lies in the named page. */
  lemma NonCanonicalFenceIsVacuous(mem: Mem, roots: Roots, half: Halves, m: Mmu, vaddr: nat, asid: nat, withAsid: bool)
    requires MmuOk(mem, roots, half, m) && !Canonical(m.satp, vaddr)
    ensures Fence(m.tlb, m.satp, vaddr, asid, true, withAsid) == m.tlb
    ensures m.satp.mode != 8 ==> forall i :: 0 <= i < SLOTS ==> !m.tlb.valid[i]
    ensures m.satp.mode == 8 ==> forall v: nat :: Canonical(m.satp, v) ==> v / PAGE != vaddr / PAGE
  {
    forall v: nat | Canonical(m.satp, v) && m.satp.mode == 8 ensures v / PAGE != vaddr / PAGE {
      CanonicalPages(v, vaddr);
    }
  }

  lemma CanonicalPages(v: nat, w: nat)
    requires v < 0x40_0000_0000 || 0xFFFF_FFC0_0000_0000 <= v
    requires 0x40_0000_0000 <= w < 0xFFFF_FFC0_0000_0000
    ensures v / PAGE != w / PAGE
  {}

  // ---- Bit 38 ----

  function EmptyTlb(): Tlb {
    TlbState(seq(SLOTS, _ => TlbEntry(0, 0, 0, Pte(0, 0, 0, 0))), seq(SLOTS, _ => false), 0)
  }

  /** Two addresses the TLB cannot tell apart although the walk can. */
  predicate Alias(v: nat, w: nat) { Tag(v) == Tag(w) && Bit38(v) != Bit38(w) }

  /** Looking `v` up from an empty TLB and then `w`. */
  ghost predicate SecondCorrect(mem: Mem, c: Context, satp: Satp, v: nat, w: nat, mode: Access) {
    var o1 := CachedLookup(mem, EmptyTlb(), c, satp, v, mode);
    o1.filled.Filled? ==>
      var o2 := CachedLookup(o1.mem, o1.filled.tlb, c, satp, w, mode);
      o2.res == Ok ==> o2.out.Some? && Refines(o2.mem, satp.ppn, w, mode, o2.out.value)
  }

  function OneRoot(ppn: nat): Roots { _ => ppn }

  lemma EmptyIsOk(mem: Mem, half: Halves, satp: Satp)
    requires satp.mode == 8
    ensures MmuOk(mem, OneRoot(satp.ppn), half, Mmu(satp, EmptyTlb())) && GlobalsShared(mem, OneRoot(satp.ppn))
  {}

  function PairHalves(tag: nat, here: nat, elsewhere: nat): Halves {
    (t: nat) => if t == tag then here else elsewhere
  }

  lemma UnaliasedIsCorrect(mem: Mem, c: Context, satp: Satp, v: nat, w: nat, mode: Access)
    requires !Alias(v, w) && satp.mode == 8
    ensures SecondCorrect(mem, c, satp, v, w, mode)
  {
    var half := PairHalves(Tag(v), Bit38(v), Bit38(w));
    var roots := OneRoot(satp.ppn);
    EmptyIsOk(mem, half, satp);
    var o1 := CachedLookup(mem, EmptyTlb(), c, satp, v, mode);
    if o1.filled.Filled? {
      LookupOk(mem, roots, half, Mmu(satp, EmptyTlb()), c, v, mode);
      GlobalsSharedUpToAD(mem, o1.mem, roots);
      LookupOk(o1.mem, roots, half, Mmu(satp, o1.filled.tlb), c, w, mode);
    }
  }

  /** A root table at page 0 that maps the gigapages of `v` and `w` to different frames. */
  function SplitHalves(v: nat, w: nat): Mem {
    map[PteAddr(0, VpnPart(v, 2)) := Pte(0xCF, 0, 0, 0), PteAddr(0, VpnPart(w, 2)) := Pte(0xCF, 0, 262144, 0)]
  }

  /** Supervisor mode, every PMP check granted. */
  function Permissive(): Context { Context(1, {}, (addr: nat, size: nat) => 7 as bv8) }

  lemma Gigapage(q: nat, r: nat)
    ensures (q * 0x400_0000 + r) / 262144 == q * 256 + r / 262144
    ensures (q * 0x400_0000 + r) % 262144 == r % 262144
  {
    assert q * 0x400_0000 + r == 262144 * (q * 256 + r / 262144) + r % 262144;
  }

  lemma AliasSplits(v: nat, w: nat)
    requires Alias(v, w)
    ensures VpnPart(v, 2) != VpnPart(w, 2) && v % 262144 == w % 262144
  {
    Gigapage(v / 0x400_0000, Tag(v));
    Gigapage(w / 0x400_0000, Tag(w));
    DifferentHalves(v / 0x400_0000, w / 0x400_0000, Tag(v) / 262144);
  }

  lemma DifferentHalves(p: nat, q: nat, r: nat)
    requires p % 2 != q % 2 && r < 256
    ensures (p * 256 + r) % 512 != (q * 256 + r) % 512
  {
    assert p * 256 + r == 512 * (p / 2) + (p % 2) * 256 + r;
    assert q * 256 + r == 512 * (q / 2) + (q % 2) * 256 + r;
  }

  lemma FirstFill(mem: Mem, c: Context, satp: Satp, v: nat, e: TlbEntry)
    requires RawLookup(mem, c, satp, v, Load) == Raw(Ok, Some(e), mem) && e.pte.flags & PTE_V != 0
    ensures var o := CachedLookup(mem, EmptyTlb(), c, satp, v, Load);
      o.mem == mem && o.filled.Filled? && o.filled.tlb.valid[Row(v) * COLUMNS] &&
      o.filled.tlb.entries[Row(v) * COLUMNS] == e
  {
    ProbeFinds(EmptyTlb(), Row(v) * COLUMNS, Row(v) * COLUMNS + COLUMNS, v, satp.asid, PTE_A);
  }

  lemma AliasedIsWrong(v: nat, w: nat)
    requires Alias(v, w)
    ensures !SecondCorrect(SplitHalves(v, w), Permissive(), Satp(8, 0, 0), v, w, Load)
  {
    AliasSplits(v, w);
    RowOfTag(v);
    RowOfTag(w);
    var mem, c, satp := SplitHalves(v, w), Permissive(), Satp(8, 0, 0);
    var e := TlbEntry(Tag(v), 0, 7, Pte(0xCF, 0, v % 262144, 0));
    assert RawLookup(mem, c, satp, v, Load) == Raw(Ok, Some(e), mem);
    FirstFill(mem, c, satp, v, e);
    var o1 := CachedLookup(mem, EmptyTlb(), c, satp, v, Load);
    assert ProbeRow(o1.filled.tlb, w, 0, PTE_A) == Hit(e);
    assert Walk(mem, 0, w).pte.ppn == 262144;
  }

  ghost predicate TagSuffices(v: nat, w: nat) {
    forall mem: Mem, c: Context, satp: Satp, mode: Access ::
      satp.mode == 8 ==> SecondCorrect(mem, c, satp, v, w, mode)
  }

  /** The 26-bit tag suffices for a pair of addresses, whatever the page tables, exactly when they do not alias in bit 38. */
  lemma TagSufficesExactly(v: nat, w: nat)
    ensures TagSuffices(v, w) <==> !Alias(v, w)
  {
    if Alias(v, w) {
      AliasedIsWrong(v, w);
    } else {
      forall mem: Mem, c: Context, satp: Satp, mode: Access | satp.mode == 8
        ensures SecondCorrect(mem, c, satp, v, w, mode)
      {
        UnaliasedIsCorrect(mem, c, satp, v, w, mode);
      }
    }
  }
}
