/** What a page walk and the check at its leaf compute, table by table and bit by bit (section 4.4.1 of the RISC-V
    Privileged ISA), stated without the functions of the walk. */
module WalkMeaning {
  import opened Types
  import opened Sv39
  import opened Tlb
  import opened TlbProofs

  // ---- Three tables ----

  /** Address of the root table's word for the page, and of the words below it. */
  function RootWord(root: nat, vpn: nat): nat { root * 4096 + vpn / 262144 % 512 * 8 }

  function MiddleWord(table: nat, vpn: nat): nat { table * 4096 + vpn / 512 % 512 * 8 }

  function LastWord(table: nat, vpn: nat): nat { table * 4096 + vpn % 512 * 8 }

  /** A valid entry that points to a further table. */
  predicate Points(mem: Mem, a: nat) { a in mem && mem[a].flags & 0x01 != 0 && mem[a].flags & 0x1E == 0 }

  /** A valid entry that maps a page. */
  predicate MapsPage(mem: Mem, a: nat) { a in mem && mem[a].flags & 0x01 != 0 && mem[a].flags & 0x1E != 0 }

  /** The word at `a` is the page's gigapage leaf. */
  predicate Maps1G(mem: Mem, root: nat, vpn: nat, a: nat) {
    a == RootWord(root, vpn) && MapsPage(mem, a) && mem[a].ppn % 262144 == 0
  }

  /** The word at `a` is the page's megapage leaf, one table down. */
  predicate Maps2M(mem: Mem, root: nat, vpn: nat, a: nat) {
    var a2 := RootWord(root, vpn);
    Points(mem, a2) && a == MiddleWord(mem[a2].ppn, vpn) && MapsPage(mem, a) && mem[a].ppn % 512 == 0
  }

  /** The word at `a` is the page's own leaf, two tables down. */
  predicate Maps4K(mem: Mem, root: nat, vpn: nat, a: nat) {
    var a2 := RootWord(root, vpn);
    Points(mem, a2) &&
    var a1 := MiddleWord(mem[a2].ppn, vpn);
    Points(mem, a1) && a == LastWord(mem[a1].ppn, vpn) && MapsPage(mem, a)
  }

  /** The word at `a` is the page's leaf. */
  predicate IsLeafOf(mem: Mem, root: nat, vpn: nat, a: nat) {
    Maps4K(mem, root, vpn, a) || Maps2M(mem, root, vpn, a) || Maps1G(mem, root, vpn, a)
  }

  /** Some table word on the page's path lies outside memory. */
  predicate PathBroken(mem: Mem, root: nat, vpn: nat) {
    var a2 := RootWord(root, vpn);
    a2 !in mem || (Points(mem, a2) &&
      var a1 := MiddleWord(mem[a2].ppn, vpn);
      a1 !in mem || (Points(mem, a1) && LastWord(mem[a1].ppn, vpn) !in mem))
  }

  lemma PagesAre()
    ensures Pages(2) == 262144 && Pages(1) == 512 && Pages(0) == 1
  {}

  lemma WordsAre(ppn: nat, vpn: nat)
    ensures PteAddr(ppn, VpnPart(vpn, 2)) == RootWord(ppn, vpn)
    ensures PteAddr(ppn, VpnPart(vpn, 1)) == MiddleWord(ppn, vpn)
    ensures PteAddr(ppn, VpnPart(vpn, 0)) == LastWord(ppn, vpn)
  {}

  lemma LastTable(mem: Mem, vpn: nat, table: nat)
    ensures var a := LastWord(table, vpn);
      WalkFrom(mem, vpn, table, 0) ==
        if a !in mem then NoLeaf(AccessFault) else if MapsPage(mem, a) then Leaf(a, 0, mem[a]) else NoLeaf(PageFault)
  {
    WordsAre(table, vpn);
    assert forall p: nat :: WalkFrom(mem, vpn, p, -1) == NoLeaf(PageFault);
  }

  lemma MiddleTable(mem: Mem, vpn: nat, table: nat)
    ensures var a := MiddleWord(table, vpn);
      WalkFrom(mem, vpn, table, 1) ==
        if a !in mem then NoLeaf(AccessFault)
        else if Points(mem, a) then WalkFrom(mem, vpn, mem[a].ppn, 0)
        else if MapsPage(mem, a) && mem[a].ppn % 512 == 0 then Leaf(a, 1, mem[a])
        else NoLeaf(PageFault)
  {
    WordsAre(table, vpn);
  }

  lemma RootTable(mem: Mem, root: nat, vpn: nat)
    ensures var a := RootWord(root, vpn);
      Walk(mem, root, vpn) ==
        if a !in mem then NoLeaf(AccessFault)
        else if Points(mem, a) then WalkFrom(mem, vpn, mem[a].ppn, 1)
        else if MapsPage(mem, a) && mem[a].ppn % 262144 == 0 then Leaf(a, 2, mem[a])
        else NoLeaf(PageFault)
  {
    WordsAre(root, vpn);
  }

  /** The walk ends at a leaf of each size exactly when the tables hold that leaf for the page, and otherwise faults: with
      an access fault exactly when a table word lies outside memory. */
  lemma WalkReadsTables(mem: Mem, root: nat, vpn: nat, a: nat, p: Pte)
    ensures Walk(mem, root, vpn) == Leaf(a, 0, p) <==> Maps4K(mem, root, vpn, a) && mem[a] == p
    ensures Walk(mem, root, vpn) == Leaf(a, 1, p) <==> Maps2M(mem, root, vpn, a) && mem[a] == p
    ensures Walk(mem, root, vpn) == Leaf(a, 2, p) <==> Maps1G(mem, root, vpn, a) && mem[a] == p
    ensures Walk(mem, root, vpn) == NoLeaf(AccessFault) <==> PathBroken(mem, root, vpn)
    ensures Walk(mem, root, vpn).NoLeaf? ==> Walk(mem, root, vpn).why in {AccessFault, PageFault}
  {
    RootTable(mem, root, vpn);
    var a2 := RootWord(root, vpn);
    if Points(mem, a2) {
      MiddleTable(mem, vpn, mem[a2].ppn);
      var a1 := MiddleWord(mem[a2].ppn, vpn);
      if Points(mem, a1) { LastTable(mem, vpn, mem[a1].ppn); }
    }
  }

  // ---- Frames ----

  /** The tables map the page to the frame: the leaf's own, or the page's place in the leaf's block of frames. */
  ghost predicate MapsTo(mem: Mem, root: nat, vpn: nat, frame: nat) {
    exists a: nat ::
      || (Maps4K(mem, root, vpn, a) && frame == mem[a].ppn)
      || (Maps2M(mem, root, vpn, a) && frame == mem[a].ppn + vpn % 512)
      || (Maps1G(mem, root, vpn, a) && frame == mem[a].ppn + vpn % 262144)
  }

  lemma SliceIsFrame(mem: Mem, root: nat, vpn: nat)
    requires Walk(mem, root, vpn).Leaf?
    ensures var t := Walk(mem, root, vpn); MapsTo(mem, root, vpn, Slice(t.pte, vpn, t.level).ppn)
  {
    var t := Walk(mem, root, vpn);
    WalkReadsTables(mem, root, vpn, t.addr, t.pte);
    PagesAre();
    assert t == Leaf(t.addr, t.level, t.pte);
  }

  /** No page is mapped to two frames. */
  lemma MapsToOne(mem: Mem, root: nat, vpn: nat, f: nat, g: nat)
    requires MapsTo(mem, root, vpn, f) && MapsTo(mem, root, vpn, g)
    ensures f == g
  {}

  lemma MapsToIsWalk(mem: Mem, root: nat, vpn: nat, frame: nat)
    ensures MapsTo(mem, root, vpn, frame) <==>
      Walk(mem, root, vpn).Leaf? && frame == var t := Walk(mem, root, vpn); Slice(t.pte, vpn, t.level).ppn
  {
    var t := Walk(mem, root, vpn);
    if t.Leaf? { SliceIsFrame(mem, root, vpn); }
    if MapsTo(mem, root, vpn, frame) {
      var a: nat :|
        || (Maps4K(mem, root, vpn, a) && frame == mem[a].ppn)
        || (Maps2M(mem, root, vpn, a) && frame == mem[a].ppn + vpn % 512)
        || (Maps1G(mem, root, vpn, a) && frame == mem[a].ppn + vpn % 262144);
      WalkReadsTables(mem, root, vpn, a, mem[a]);
      if t.Leaf? { MapsToOne(mem, root, vpn, frame, Slice(t.pte, vpn, t.level).ppn); }
    }
  }

  lemma SameFrame(t: Translation, t': Translation, vpn: nat)
    requires t.Leaf? && t.level < LEVELS && SameUpToAD(t, t')
    ensures t'.Leaf? && t'.level == t.level && Slice(t'.pte, vpn, t.level).ppn == Slice(t.pte, vpn, t.level).ppn
  {}

  /** A and D bits do not matter to it. */
  lemma MapsToUpToAD(mem: Mem, mem': Mem, root: nat, vpn: nat, frame: nat)
    requires OnlyADSet(mem, mem') && MapsTo(mem', root, vpn, frame)
    ensures MapsTo(mem, root, vpn, frame)
  {
    WalkUpToAD(mem, mem', root, vpn);
    MapsToIsWalk(mem, root, vpn, frame);
    MapsToIsWalk(mem', root, vpn, frame);
    var t, t' := Walk(mem, root, vpn), Walk(mem', root, vpn);
    if t.Leaf? { SameFrame(t, t', vpn); }
  }

  /** In every state the TLB theorem reaches, a successful lookup, cached or not, names the frame the tables map. */
  lemma LookupNamesFrame(mem: Mem, roots: Roots, half: Halves, m: Mmu, c: Context, vpn: nat, mode: Access)
    requires MmuOk(mem, roots, half, m) && GlobalsShared(mem, roots) && m.satp.mode == 8
    requires Bit38(vpn) == half(Tag(vpn)) && CachedLookup(mem, m.tlb, c, m.satp, vpn, mode).res == Ok
    ensures var o := CachedLookup(mem, m.tlb, c, m.satp, vpn, mode);
      o.out.Some? && MapsTo(mem, m.satp.ppn, vpn, o.out.value.pte.ppn)
  {
    var o := CachedLookup(mem, m.tlb, c, m.satp, vpn, mode);
    LookupOk(mem, roots, half, m, c, vpn, mode);
    SliceIsFrame(o.mem, m.satp.ppn, vpn);
    MapsToUpToAD(mem, o.mem, m.satp.ppn, vpn, o.out.value.pte.ppn);
  }

  // ---- Which accesses a leaf grants ----

  /** PMP lets the walker read every table word on the page's path. */
  predicate PathGranted(mem: Mem, c: Context, root: nat, vpn: nat) {
    var a2 := RootWord(root, vpn);
    c.pmp(a2, 8) & 0x1 != 0 &&
    (Points(mem, a2) ==>
       var a1 := MiddleWord(mem[a2].ppn, vpn);
       c.pmp(a1, 8) & 0x1 != 0 && (Points(mem, a1) ==> c.pmp(LastWord(mem[a1].ppn, vpn), 8) & 0x1 != 0))
  }

  /** U pages are for U-mode, and for S-mode only under SUM (bit 18 of mstatus). */
  predicate PrivilegeAllows(c: Context, flags: bv8) {
    if c.memPrivilege == 0 then flags & 0x10 != 0 else flags & 0x10 == 0 || 18 in c.mstatus
  }

  /** Fetches need X (bit 3), loads R (bit 1), stores and atomic instructions W (bit 2). */
  predicate FlagsAllow(mode: Access, flags: bv8) {
    if mode == Insn then flags & 0x08 != 0 else if mode == Load then flags & 0x02 != 0 else flags & 0x04 != 0
  }

  /** The same of the PMP answer for the leaf's first page, whose bits are X 2, R 0 and W 1. */
  predicate PmpAllows(mode: Access, perm: bv8) {
    if mode == Insn then perm & 0x4 != 0 else if mode == Load then perm & 0x1 != 0 else perm & 0x2 != 0
  }

  /** Bits 6 and 7 an access leaves set: A, and for stores and atomic instructions D. */
  function AccessedBits(mode: Access): bv8 { if mode == Insn || mode == Load then 0x40 else 0xC0 }

  lemma PathIsReadable(mem: Mem, c: Context, root: nat, vpn: nat)
    ensures PathReadable(mem, c, vpn, root, 2) == PathGranted(mem, c, root, vpn)
  {
    WordsAre(root, vpn);
    var a2 := RootWord(root, vpn);
    if Points(mem, a2) {
      WordsAre(mem[a2].ppn, vpn);
      var a1 := MiddleWord(mem[a2].ppn, vpn);
      if Points(mem, a1) {
        WordsAre(mem[a1].ppn, vpn);
        assert forall p: nat :: PathReadable(mem, c, vpn, p, -1);
      }
    }
  }

  lemma CheckDecides(c: Context, e: TlbEntry, mode: Access)
    ensures CheckAccess(c, e, mode) ==
      if !(PrivilegeAllows(c, e.pte.flags) && FlagsAllow(mode, e.pte.flags)) then PageFault
      else if !PmpAllows(mode, e.pmp) then AccessFault else Ok
  {}

  /** The leaf of a walk, which is the word at its address. */
  ghost predicate LeafHere(mem: Mem, t: Translation) { t.Leaf? && t.level < LEVELS && t.addr in mem && mem[t.addr] == t.pte }

  predicate LeafAllows(c: Context, mode: Access, flags: bv8) { PrivilegeAllows(c, flags) && FlagsAllow(mode, flags) }

  /** The PMP answers for the leaf's page, and for the leaf's own word if a bit is missing there. */
  predicate LeafGranted(c: Context, mode: Access, a: nat, p: Pte) {
    && PmpAllows(mode, c.pmp(p.ppn * 4096, 4096))
    && (p.flags & AccessedBits(mode) == AccessedBits(mode) || c.pmp(a, 8) & 0x2 != 0)
  }

  lemma LeafDecides(mem: Mem, c: Context, asid: nat, vpn: nat, mode: Access, t: Translation)
    requires LeafHere(mem, t)
    ensures AtLeaf(mem, c, asid, vpn, mode, t).res ==
      if !LeafAllows(c, mode, t.pte.flags) then PageFault else if !LeafGranted(c, mode, t.addr, t.pte) then AccessFault else Ok
  {
    CheckDecides(c, TlbEntry(Tag(vpn), asid, c.pmp(t.pte.ppn * PAGE, PAGE), Slice(t.pte, vpn, t.level)), mode);
  }

  lemma LeafLeaves(mem: Mem, c: Context, asid: nat, vpn: nat, mode: Access, t: Translation)
    requires LeafHere(mem, t) && AtLeaf(mem, c, asid, vpn, mode, t).res == Ok
    ensures var r := AtLeaf(mem, c, asid, vpn, mode, t); var flags := t.pte.flags | AccessedBits(mode);
      && r.mem == mem[t.addr := t.pte.(flags := flags)]
      && r.out == Some(TlbEntry(vpn % 0x400_0000, asid, c.pmp(t.pte.ppn * 4096, 4096),
           t.pte.(flags := flags, ppn := Slice(t.pte, vpn, t.level).ppn)))
  {
    NothingToSet(t.pte.flags, AccessedBits(mode));
    assert mem[t.addr := t.pte] == mem;
  }

  /** A walk whose tables PMP lets it read, for a page that has a leaf: it is refused with a page fault exactly when
      privilege or the leaf's permissions refuse the access, then with an access fault exactly when PMP refuses the page or
      the write of missing A and D bits, and otherwise it succeeds. */
  lemma WalkGrantsExactly(mem: Mem, c: Context, satp: Satp, vpn: nat, mode: Access, a: nat)
    requires PathGranted(mem, c, satp.ppn, vpn)
    requires IsLeafOf(mem, satp.ppn, vpn, a)
    ensures RawLookup(mem, c, satp, vpn, mode).res ==
      if !LeafAllows(c, mode, mem[a].flags) then PageFault else if !LeafGranted(c, mode, a, mem[a]) then AccessFault else Ok
  {
    RawLookupIsWalk(mem, c, satp, vpn, mode);
    PathIsReadable(mem, c, satp.ppn, vpn);
    WalkReadsTables(mem, satp.ppn, vpn, a, mem[a]);
    LeafDecides(mem, c, satp.asid, vpn, mode, Walk(mem, satp.ppn, vpn));
  }

  /** Without a leaf, or without leave to read the tables, every walk is refused. */
  lemma WalkRefusedExactly(mem: Mem, c: Context, satp: Satp, vpn: nat, mode: Access)
    requires !PathGranted(mem, c, satp.ppn, vpn) || forall frame :: !MapsTo(mem, satp.ppn, vpn, frame)
    ensures RawLookup(mem, c, satp, vpn, mode) == Raw(
      if !PathGranted(mem, c, satp.ppn, vpn) || PathBroken(mem, satp.ppn, vpn) then AccessFault else PageFault, None, mem)
  {
    RawLookupIsWalk(mem, c, satp, vpn, mode);
    PathIsReadable(mem, c, satp.ppn, vpn);
    WalkReadsTables(mem, satp.ppn, vpn, 0, Pte(0, 0, 0, 0));
    if PathGranted(mem, c, satp.ppn, vpn) && Walk(mem, satp.ppn, vpn).Leaf? {
      SliceIsFrame(mem, satp.ppn, vpn);
    }
  }

  lemma LeafOfWalk(mem: Mem, root: nat, vpn: nat)
    requires Walk(mem, root, vpn).Leaf?
    ensures var t := Walk(mem, root, vpn); IsLeafOf(mem, root, vpn, t.addr) && LeafHere(mem, t)
  {
    var t := Walk(mem, root, vpn);
    WalkReadsTables(mem, root, vpn, t.addr, t.pte);
    assert t == Leaf(t.addr, t.level, t.pte);
  }

  /** What a successful walk caches and writes: the page's frame, the leaf's flags with A (and D) set, PMP's answer for the
      leaf's first page, and those bits in the leaf's word. */
  lemma WalkCaches(mem: Mem, c: Context, satp: Satp, vpn: nat, mode: Access) returns (a: nat, frame: nat)
    requires RawLookup(mem, c, satp, vpn, mode).res == Ok
    ensures MapsTo(mem, satp.ppn, vpn, frame) && a in mem && IsLeafOf(mem, satp.ppn, vpn, a)
    ensures var flags := mem[a].flags | AccessedBits(mode);
      RawLookup(mem, c, satp, vpn, mode) == Raw(Ok,
        Some(TlbEntry(vpn % 0x400_0000, satp.asid, c.pmp(mem[a].ppn * 4096, 4096), mem[a].(flags := flags, ppn := frame))),
        mem[a := mem[a].(flags := flags)])
  {
    var t := Walk(mem, satp.ppn, vpn);
    RawLookupIsWalk(mem, c, satp, vpn, mode);
    SliceIsFrame(mem, satp.ppn, vpn);
    LeafOfWalk(mem, satp.ppn, vpn);
    LeafLeaves(mem, c, satp.asid, vpn, mode, t);
    a, frame := t.addr, Slice(t.pte, vpn, t.level).ppn;
  }

  // ---- The TLB in front ----

  /** Entry `i` answers for the page: it is live, in the page's row, compares equal in address bits 12 to 37, and is global
      or of the address space. */
  predicate Answers(t: Tlb, vpn: nat, asid: nat, i: nat)
    requires i < 256
  {
    && i / 16 == vpn % 16 && t.valid[i] && t.entries[i].tag == vpn % 0x400_0000
    && (t.entries[i].pte.flags & 0x20 != 0 || t.entries[i].asid == asid)
  }

  /** The first entry of its row that answers. */
  ghost predicate AnswersFirst(t: Tlb, vpn: nat, asid: nat, i: nat) {
    i < 256 && Answers(t, vpn, asid, i) && forall j :: 0 <= j < i ==> !Answers(t, vpn, asid, j)
  }

  lemma InRow(vpn: nat, j: nat)
    requires vpn % 16 * 16 <= j < vpn % 16 * 16 + 16
    ensures j < 256 && j / 16 == vpn % 16
  {}

  lemma {:induction false} ScanFinds(t: Tlb, slot: nat, end: nat, vpn: nat, asid: nat, fl: bv8, i: nat)
    requires vpn % 16 * 16 <= slot <= i < end == vpn % 16 * 16 + 16 <= 256
    requires Answers(t, vpn, asid, i) && forall j :: slot <= j < i ==> !Answers(t, vpn, asid, j)
    ensures ProbeFrom(t, slot, end, vpn, asid, fl) == if t.entries[i].pte.flags & fl == fl then Hit(t.entries[i]) else Stale(i)
    decreases end - slot
  {
    InRow(vpn, slot);
    assert Answers(t, vpn, asid, slot) <==> slot == i;
    if slot < i { ScanFinds(t, slot + 1, end, vpn, asid, fl, i); }
  }

  lemma {:induction false} ScanMisses(t: Tlb, slot: nat, end: nat, vpn: nat, asid: nat, fl: bv8)
    requires vpn % 16 * 16 <= slot <= end == vpn % 16 * 16 + 16 <= 256
    requires forall j :: slot <= j < end ==> !Answers(t, vpn, asid, j)
    ensures ProbeFrom(t, slot, end, vpn, asid, fl) == Miss
    decreases end - slot
  {
    if slot < end {
      InRow(vpn, slot);
      assert !Answers(t, vpn, asid, slot);
      ScanMisses(t, slot + 1, end, vpn, asid, fl);
    }
  }

  /** A lookup is answered from the TLB, without any check, exactly by the first answering entry of the row if that has the
      A/D bits; an answering entry without them is dropped and the page walked; without one the page is walked. */
  lemma LookupAnsweredExactly(mem: Mem, t: Tlb, c: Context, satp: Satp, vpn: nat, mode: Access, i: nat)
    ensures AnswersFirst(t, vpn, satp.asid, i) ==>
      CachedLookup(mem, t, c, satp, vpn, mode) ==
        if t.entries[i].pte.flags & AccessedBits(mode) == AccessedBits(mode) then Outcome(Ok, Some(t.entries[i]), mem, Filled(t))
        else Refill(mem, t.(valid := t.valid[i := false]), c, satp, vpn, mode)
    ensures (forall j :: 0 <= j < 256 ==> !Answers(t, vpn, satp.asid, j)) ==>
      CachedLookup(mem, t, c, satp, vpn, mode) == Refill(mem, t, c, satp, vpn, mode)
  {
    var first := vpn % 16 * 16;
    if AnswersFirst(t, vpn, satp.asid, i) {
      ScanFinds(t, first, first + 16, vpn, satp.asid, AccessedBits(mode), i);
    }
    if forall j :: 0 <= j < 256 ==> !Answers(t, vpn, satp.asid, j) {
      ScanMisses(t, first, first + 16, vpn, satp.asid, AccessedBits(mode));
    }
  }

  /** Filling takes the first free column of the row, and without one the slot the counter names, if there is such a slot. */
  lemma FillsExactly(t: Tlb, row: nat, e: TlbEntry, column: nat)
    requires row < 16 && column < 16
    ensures !t.valid[row * 16 + column] && (forall j :: row * 16 <= j < row * 16 + column ==> t.valid[j]) ==>
      Fill(t, row, e) == Filled(t.(entries := t.entries[row * 16 + column := e], valid := t.valid[row * 16 + column := true]))
    ensures (forall j :: row * 16 <= j < row * 16 + 16 ==> t.valid[j]) ==>
      Fill(t, row, e) ==
        if row * 16 + t.nextColumn >= 256 then Overrun
        else Filled(t.(entries := t.entries[row * 16 + t.nextColumn := e], nextColumn := (t.nextColumn + 1) % 256))
  {
    var first := row * 16;
    if !t.valid[first + column] && forall j :: first <= j < first + column ==> t.valid[j] {
      FirstFree(t, first, first + 16, first + column);
    }
  }

  lemma {:induction false} FirstFree(t: Tlb, slot: nat, end: nat, i: nat)
    requires slot <= i < end <= 256 && !t.valid[i] && forall j :: slot <= j < i ==> t.valid[j]
    ensures FreeFrom(t, slot, end) == i
    decreases end - slot
  {
    if slot < i { FirstFree(t, slot + 1, end, i); }
  }

  /** A page that had to be walked is cached if the walk succeeds, in its row. */
  lemma WalkedIsCached(mem: Mem, t: Tlb, c: Context, satp: Satp, vpn: nat, mode: Access)
    ensures var r, o := RawLookup(mem, c, satp, vpn, mode), Refill(mem, t, c, satp, vpn, mode);
      && o.res == r.res && o.mem == r.mem && o.out == r.out
      && o.filled == (if r.res == Ok && r.out.Some? then Fill(t, vpn % 16, r.out.value) else Filled(t))
  {
    RawWritesOnlyLeafAD(mem, c, satp, vpn, mode);
    if RawLookup(mem, c, satp, vpn, mode).res == Ok { WalkRefines(mem, c, satp, vpn, mode); }
  }

  // ---- Addresses and satp ----

  /** The low 39 bits, sign-extended to 64. */
  function SignExtend39(v: nat): nat {
    var low := v % 0x80_0000_0000;
    if low < 0x40_0000_0000 then low else low + 0xFFFF_FF80_0000_0000
  }

  /** Under Sv39 an address is canonical exactly when its upper bits repeat bit 38, and in no other mode. */
  lemma CanonicalIsSignExtension(satp: Satp, vaddr: Word)
    ensures Canonical(satp, vaddr) <==> satp.mode == 8 && SignExtend39(vaddr) == vaddr
  {}
}
