/** Which fence suffices after one page-table entry has been rewritten: exactly one that names every cached slice. */
module TlbShootdown {
  import opened Types
  import opened Sv39
  import opened Tlb
  import opened TlbProofs
  import opened TlbLimits

  predicate IsLeaf(p: Pte) { p.flags & PTE_V != 0 && p.flags & PTE_RWX != 0 }

  /** Neither a pointer to a further table nor, up to A and D, the entry it replaces. */
  predicate Replaces(p: Pte, q: Pte) { (q.flags & PTE_V == 0 || q.flags & PTE_RWX != 0) && !SamePteUpToAD(p, q) }

  /** A walk that reads a leaf ends there, at whatever level it was reached. */
  lemma {:induction false} VisitEndsAtLeaf(mem: Mem, a: nat, vpn: nat, ppn: nat, level: int)
    requires -1 <= level < LEVELS && a in mem && IsLeaf(mem[a]) && Visits(mem, a, vpn, ppn, level)
    ensures var t := WalkFrom(mem, vpn, ppn, level); t.Leaf? ==> t.addr == a && t.pte == mem[a]
    decreases level + 1
  {
    var b := PteAddr(ppn, VpnPart(vpn, level));
    if b != a { VisitEndsAtLeaf(mem, a, vpn, mem[b].ppn, level - 1); }
  }

  /** Neither a walk that stands at an entry which is no pointer, nor one that finds it invalid, goes further. */
  lemma NoPointerEnds(mem: Mem, vpn: nat, ppn: nat, level: int)
    requires 0 <= level < LEVELS
    requires var b := PteAddr(ppn, VpnPart(vpn, level)); b in mem && (mem[b].flags & PTE_V == 0 || mem[b].flags & PTE_RWX != 0)
    ensures var t := WalkFrom(mem, vpn, ppn, level);
      t.Leaf? ==> t.level == level && t.pte == mem[PteAddr(ppn, VpnPart(vpn, level))]
  {}

  lemma {:induction false} VisitSeesReplacement(mem: Mem, a: nat, pte: Pte, vpn: nat, ppn: nat, level: int)
    requires -1 <= level < LEVELS && a in mem && IsLeaf(mem[a]) && Replaces(mem[a], pte) && Visits(mem, a, vpn, ppn, level)
    ensures var t, t' := WalkFrom(mem, vpn, ppn, level), WalkFrom(mem[a := pte], vpn, ppn, level);
      t.Leaf? && t'.Leaf? ==> t'.pte == pte && t'.level == t.level
    decreases level + 1
  {
    var b := PteAddr(ppn, VpnPart(vpn, level));
    if b == a {
      NoPointerEnds(mem, vpn, ppn, level);
      NoPointerEnds(mem[a := pte], vpn, ppn, level);
    } else {
      VisitSeesReplacement(mem, a, pte, vpn, mem[b].ppn, level - 1);
    }
  }

  lemma SlicesDiffer(p: Pte, q: Pte, vpn: nat, level: nat)
    requires level < LEVELS && !SamePteUpToAD(p, q)
    ensures !SamePteUpToAD(Slice(p, vpn, level), Slice(q, vpn, level))
  {
    var s, s' := Slice(p, vpn, level), Slice(q, vpn, level);
    assert s.flags == p.flags && s'.flags == q.flags && s.rsw == p.rsw && s.reserved == p.reserved;
    assert s.ppn == s'.ppn ==> p.ppn == q.ppn;
  }

  /** A cached slice of the old leaf is wrong for the new one. */
  lemma StaleSlice(mem: Mem, roots: Roots, half: Halves, a: nat, pte: Pte, e: TlbEntry)
    requires a in mem && IsLeaf(mem[a]) && Replaces(mem[a], pte)
    requires EntryOk(mem, roots, half, e) && Through(mem, roots, half, a, e)
    ensures !EntryOk(mem[a := pte], roots, half, e)
  {
    var vpn := FullVpn(half, e.tag);
    VisitEndsAtLeaf(mem, a, vpn, roots(e.asid), 2);
    VisitSeesReplacement(mem, a, pte, vpn, roots(e.asid), 2);
    var t, t' := Walk(mem, roots(e.asid), vpn), Walk(mem[a := pte], roots(e.asid), vpn);
    if t'.Leaf? { SlicesDiffer(t.pte, t'.pte, vpn, t.level); }
  }

  /** After a leaf has been replaced and every hart has executed the fence, the TLBs are right for the new tables exactly
      when the fence names every slice of the old leaf that some hart has cached. */
  lemma ShootdownExactly(s: Sys, a: nat, pte: Pte, f: Operands)
    requires Inv(s) && a in s.mem && IsLeaf(s.mem[a]) && Replaces(s.mem[a], pte)
    requires f.Proper() && GlobalsShared(s.mem[a := pte], s.roots)
    ensures Inv(Edited(s, a, pte, f)) <==>
      forall h :: 0 <= h < |s.harts| ==> Covers(s.mem, s.roots, s.half, s.harts[h], a, f)
  {
    forall h | 0 <= h < |s.harts|
      ensures MmuOk(s.mem[a := pte], s.roots, s.half, Fenced(s.harts[h], f)) <==> Covers(s.mem, s.roots, s.half, s.harts[h], a, f)
    {
      HartShootdownExactly(s.mem, s.roots, s.half, s.harts[h], a, pte, f);
    }
    assert forall h :: 0 <= h < |s.harts| ==> Edited(s, a, pte, f).harts[h] == Fenced(s.harts[h], f);
  }

  lemma HartShootdownExactly(mem: Mem, roots: Roots, half: Halves, m: Mmu, a: nat, pte: Pte, f: Operands)
    requires MmuOk(mem, roots, half, m) && a in mem && IsLeaf(mem[a]) && Replaces(mem[a], pte) && f.Proper()
    ensures MmuOk(mem[a := pte], roots, half, Fenced(m, f)) <==> Covers(mem, roots, half, m, a, f)
  {
    if Covers(mem, roots, half, m, a, f) {
      EditedHartOk(mem, roots, half, m, a, pte, f);
    } else {
      var i :| 0 <= i < SLOTS && Home(m.tlb, i) && Through(mem, roots, half, a, m.tlb.entries[i]) && !f.Names(m.tlb.entries[i]);
      StaleSlice(mem, roots, half, a, pte, m.tlb.entries[i]);
      FenceLeaves(m, f, i);
    }
  }

  /** The word at `a` is read only by walks of the one page, in every address space. */
  ghost predicate ServesOnly(s: Sys, a: nat, vpn: nat) {
    forall asid: nat, tag: nat ::
      tag < 0x400_0000 && Visits(s.mem, a, FullVpn(s.half, tag), s.roots(asid), 2) ==> tag == Tag(vpn)
  }

  /** So for an entry that serves a single 4K page, as a level 0 leaf in unshared tables does, fencing the page's address
      on every hart always suffices, whatever is cached and whatever is written. */
  lemma SmallPageShootdown(s: Sys, a: nat, pte: Pte, vaddr: nat)
    requires Inv(s) && a in s.mem && GlobalsShared(s.mem[a := pte], s.roots)
    requires Canonical(Satp(8, 0, 0), vaddr) && ServesOnly(s, a, vaddr / PAGE)
    ensures Inv(Edited(s, a, pte, Operands(vaddr, 0, true, false)))
  {
    var f := Operands(vaddr, 0, true, false);
    forall h | 0 <= h < |s.harts| ensures Covers(s.mem, s.roots, s.half, s.harts[h], a, f) {
      forall i | 0 <= i < SLOTS && Home(s.harts[h].tlb, i) && Through(s.mem, s.roots, s.half, a, s.harts[h].tlb.entries[i])
        ensures f.Names(s.harts[h].tlb.entries[i])
      {
        assert EntryOk(s.mem, s.roots, s.half, s.harts[h].tlb.entries[i]);
      }
    }
    StepOk(s, Edit(a, pte, f));
  }

  /** Mapping a page through a word that was invalid needs no fence at all. */
  lemma NewMappingNeedsNoFence(s: Sys, a: nat, pte: Pte)
    requires Inv(s) && a in s.mem && s.mem[a].flags & PTE_V == 0 && GlobalsShared(s.mem[a := pte], s.roots)
    ensures Inv(s.(mem := s.mem[a := pte]))
  {
    forall h, i | 0 <= h < |s.harts| && 0 <= i < SLOTS && Home(s.harts[h].tlb, i)
      ensures EntryOk(s.mem[a := pte], s.roots, s.half, s.harts[h].tlb.entries[i])
    {
      var e := s.harts[h].tlb.entries[i];
      assert EntryOk(s.mem, s.roots, s.half, e);
      InvalidWordUnused(s.mem, a, FullVpn(s.half, e.tag), s.roots(e.asid), 2);
      UnvisitedWalk(s.mem, a, pte, FullVpn(s.half, e.tag), s.roots(e.asid), 2);
    }
  }

  lemma {:induction false} InvalidWordUnused(mem: Mem, a: nat, vpn: nat, ppn: nat, level: int)
    requires -1 <= level < LEVELS && a in mem && mem[a].flags & PTE_V == 0 && WalkFrom(mem, vpn, ppn, level).Leaf?
    ensures !Visits(mem, a, vpn, ppn, level)
    decreases level + 1
  {
    var b := PteAddr(ppn, VpnPart(vpn, level));
    if mem[b].flags & PTE_RWX == 0 { InvalidWordUnused(mem, a, vpn, mem[b].ppn, level - 1); }
  }
}
