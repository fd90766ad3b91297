/** Where the bytes of an access come from and go to: from the page tables to RAM (section 4.4 of the RISC-V Privileged
    ISA), stated without the functions of the access path. */
module AccessMeaning {
  import opened Bits
  import opened Types
  import opened Sv39
  import opened Tlb
  import opened Hart
  import opened Ram
  import opened TlbProofs
  import opened WalkMeaning
  import opened VirtualAccess
  import Pmp

  /** Every byte address lies in RAM. */
  predicate AllInRam(start: nat, size: nat, addrs: seq<nat>) {
    forall k :: 0 <= k < |addrs| ==> start <= addrs[k] < start + size
  }

  /** A store has put its bytes at the addresses and changed nothing else; any other access has read them and changed
      nothing. */
  ghost predicate Delivered(start: nat, ram: seq<byte>, ram': seq<byte>, addrs: seq<nat>, data: seq<byte>, out: seq<byte>, mode: Access)
    requires |addrs| == |data|
  {
    && |ram'| == |ram| && |out| == |data| && AllInRam(start, |ram|, addrs)
    && (mode == Store ==> out == data)
    && (mode != Store ==> ram' == ram && forall k :: 0 <= k < |addrs| ==> out[k] == ram[addrs[k] - start])
    && (mode == Store ==> forall k :: 0 <= k < |addrs| ==> ram'[addrs[k] - start] == data[k])
    && (mode == Store ==> forall i :: 0 <= i < |ram| && start + i !in addrs ==> ram'[i] == ram[i])
  }

  /** `size` consecutive addresses. */
  function Block(addr: nat, size: nat): seq<nat> { seq(size, k => addr + k) }

  lemma BlockHas(addr: nat, size: nat, x: nat)
    ensures x in Block(addr, size) <==> addr <= x < addr + size
  {
    if addr <= x < addr + size { assert Block(addr, size)[x - addr] == x; }
  }

  lemma SplicedBytes(start: nat, ram: seq<byte>, addr: nat, data: seq<byte>)
    requires InRam(start, ram, addr, |data|)
    ensures var ram' := Splice(ram, addr - start, data);
      && (forall k :: 0 <= k < |data| ==> ram'[addr + k - start] == data[k])
      && forall i :: 0 <= i < |ram| && !(addr <= start + i < addr + |data|) ==> ram'[i] == ram[i]
  {}

  lemma BlockStored(start: nat, ram: seq<byte>, addr: nat, data: seq<byte>)
    requires InRam(start, ram, addr, |data|)
    ensures Delivered(start, ram, Splice(ram, addr - start, data), Block(addr, |data|), data, data, Store)
  {
    SplicedBytes(start, ram, addr, data);
    var ram' := Splice(ram, addr - start, data);
    forall i | 0 <= i < |ram| && start + i !in Block(addr, |data|) ensures ram'[i] == ram[i] {
      BlockHas(addr, |data|, start + i);
    }
  }

  lemma BlockLoaded(start: nat, ram: seq<byte>, addr: nat, data: seq<byte>, mode: Access)
    requires InRam(start, ram, addr, |data|) && mode != Store
    ensures Delivered(start, ram, ram, Block(addr, |data|), data, ram[addr - start..addr - start + |data|], mode)
  {}

  lemma BlockInRam(start: nat, ram: seq<byte>, addr: nat, size: nat)
    requires size > 0
    ensures InRam(start, ram, addr, size) <==> AllInRam(start, |ram|, Block(addr, size))
  {
    var a := Block(addr, size);
    assert a[0] == addr && a[size - 1] == addr + size - 1;
  }

  /** A physical access succeeds exactly when all its bytes lie in RAM, and then delivers them. */
  lemma BlockDelivered(start: nat, ram: seq<byte>, addr: nat, data: seq<byte>, mode: Access)
    requires data != []
    ensures var (res, out, ram') := Accessed(start, ram, addr, data, mode);
      && res == (if AllInRam(start, |ram|, Block(addr, |data|)) then Ok else AccessFault)
      && (res == Ok ==> Delivered(start, ram, ram', Block(addr, |data|), data, out, mode))
      && (res != Ok ==> ram' == ram && out == data)
  {
    BlockInRam(start, ram, addr, |data|);
    if InRam(start, ram, addr, |data|) {
      if mode == Store { BlockStored(start, ram, addr, data); } else { BlockLoaded(start, ram, addr, data, mode); }
    }
  }

  // ---- Page-table words in memory ----

  /** Eight bytes as the number they spell, the first the least. */
  function WordOf(b: seq<byte>): nat
    requires |b| == 8
  {
    b[0] as nat + 0x100 * b[1] as nat + 0x1_0000 * b[2] as nat + 0x100_0000 * b[3] as nat +
    0x1_0000_0000 * b[4] as nat + 0x100_0000_0000 * b[5] as nat + 0x1_0000_0000_0000 * b[6] as nat + 0x100_0000_0000_0000 * b[7] as nat
  }

  lemma FourBytes(b: seq<byte>)
    requires |b| >= 4
    ensures LittleEndian(b) == b[0] as nat + 0x100 * b[1] as nat + 0x1_0000 * b[2] as nat + 0x100_0000 * b[3] as nat + 0x1_0000_0000 * LittleEndian(b[4..])
  {
    var b1 := b[1..];
    var b2 := b1[1..];
    var b3 := b2[1..];
    assert b3[1..] == b[4..];
    assert LittleEndian(b1) == b1[0] as nat + 256 * LittleEndian(b2) && LittleEndian(b2) == b2[0] as nat + 256 * LittleEndian(b3);
  }

  lemma WordSpelled(b: seq<byte>)
    requires |b| == 8
    ensures LittleEndian(b) == WordOf(b)
  {
    FourBytes(b);
    FourBytes(b[4..]);
    assert b[4..][4..] == [];
  }

  /** The flags of an entry are the bits of the byte, V at 0, R, W, X, U, G, A, and D at 7. */
  predicate FlagsShow(f: bv8, b: nat) {
    && Digit(f, 0x01) == b % 2 && Digit(f, 0x02) == b / 2 % 2 && Digit(f, 0x04) == b / 4 % 2 && Digit(f, 0x08) == b / 8 % 2
    && Digit(f, 0x10) == b / 16 % 2 && Digit(f, 0x20) == b / 32 % 2 && Digit(f, 0x40) == b / 64 % 2 && Digit(f, 0x80) == b / 128 % 2
  }

  lemma Halved(n: nat)
    ensures n / 4 == n / 2 / 2 && n / 8 == n / 2 / 2 / 2 && n / 16 == n / 2 / 2 / 2 / 2
    ensures n / 32 == n / 2 / 2 / 2 / 2 / 2 && n / 64 == n / 2 / 2 / 2 / 2 / 2 / 2 && n / 128 == n / 2 / 2 / 2 / 2 / 2 / 2 / 2
  {}

  lemma FlagsOf(n: nat, f: bv8)
    requires f == FlagByte(n)
    ensures FlagsShow(f, n)
  {
    DigitsOfByte(n);
    Halved(n);
  }

  lemma FieldsSpelled(w: nat, low: nat, p: Pte)
    requires low == w % 256 && p == DecodePte(w)
    ensures FlagsShow(p.flags, low) && p.ppn == w / 1024 % 0x1000_0000_0000
  {
    FlagsOf(low, p.flags);
  }

  lemma LowByteOf(b: seq<byte>)
    requires |b| == 8
    ensures WordOf(b) % 256 == b[0] as nat
  {}

  lemma EntryAt(start: nat, ram: seq<byte>, a: nat, b: seq<byte>)
    requires a % 8 == 0 && start <= a && a + 8 <= start + |ram| && b == ram[a - start..a - start + 8]
    ensures a in Words(start, ram) && Words(start, ram)[a] == DecodePte(LittleEndian(b))
  {
    WordAt(start, ram, a);
  }

  /** The entry that the walker sees at an aligned address is spelled by the eight bytes `b` there: the flags by the first of
      them, and the frame by bits 53 to 10 of all. */
  lemma EntrySpelled(start: nat, ram: seq<byte>, a: nat, b: seq<byte>, w: nat, p: Pte)
    requires a % 8 == 0 && start <= a && a + 8 <= start + |ram| && b == ram[a - start..a - start + 8] && w == WordOf(b)
    requires a in Words(start, ram) ==> p == Words(start, ram)[a]
    ensures a in Words(start, ram) && FlagsShow(p.flags, b[0]) && p.ppn == w / 1024 % 0x1000_0000_0000
  {
    EntryAt(start, ram, a, b);
    WordSpelled(b);
    LowByteOf(b);
    FieldsSpelled(w, b[0], p);
  }

  // ---- Untranslated accesses ----

  /** Without translation an access succeeds exactly when PMP grants it (X is bit 2, R bit 0, W bit 1) and its bytes, which
      are those at the address itself, lie in RAM; otherwise it is an access fault that changes nothing. */
  lemma UntranslatedExactly(start: nat, ram: seq<byte>, perm: bv8, addr: nat, data: seq<byte>, mode: Access)
    requires data != []
    ensures var (res, out, ram') := BareAccessed(start, ram, perm, addr, data, mode);
      && res == (if PmpAllows(mode, perm) && AllInRam(start, |ram|, Block(addr, |data|)) then Ok else AccessFault)
      && (res == Ok ==> Delivered(start, ram, ram', Block(addr, |data|), data, out, mode))
      && (res != Ok ==> ram' == ram && out == data)
  {
    BlockDelivered(start, ram, addr, data, mode);
  }

  // ---- Translated accesses ----

  /** The physical address of every byte: in the first frame up to the end of its page, then from the start of the second. */
  function ByteAddrs(f0: nat, f1: nat, vaddr: nat, size: nat): (a: seq<nat>)
    ensures |a| == size
  {
    seq(size, k requires 0 <= k < size =>
      var at := vaddr % 4096 + k;
      if at < 4096 then f0 * 4096 + at else f1 * 4096 + (at - 4096))
  }

  /** RAM once the pages have been walked: at most A and D bits of page-table words have been set. */
  ghost predicate OnlyMarked(start: nat, ram: seq<byte>, walked: seq<byte>) {
    OnlyADSet(Words(start, ram), Words(start, walked)) && SameEdges(start, ram, walked)
  }

  lemma BlockOfPage(f0: nat, f1: nat, vaddr: nat, size: nat)
    requires vaddr % 4096 + size <= 4096
    ensures ByteAddrs(f0, f1, vaddr, size) == Block(f0 * 4096 + vaddr % 4096, size)
  {}

  lemma AddrsOfPair(e0: TlbEntry, e1: TlbEntry, vaddr: nat, size: nat)
    requires vaddr % 4096 + size > 4096
    ensures PairAddrs(e0, e1, vaddr, size) == ByteAddrs(e0.pte.ppn, e1.pte.ppn, vaddr, size)
  {}

  lemma PairStored(start: nat, ram: seq<byte>, a: seq<nat>, data: seq<byte>)
    requires |a| == |data| && AllInRam(start, |ram|, a) && forall j, k :: 0 <= j < k < |a| ==> a[j] != a[k]
    ensures Delivered(start, ram, StoreBytes(start, ram, a, data), a, data, data, Store)
  {
    var ram' := StoreBytes(start, ram, a, data);
    forall k | 0 <= k < |a| ensures ram'[a[k] - start] == data[k] { StoreBytesReadBack(start, ram, a, data, k); }
    forall i | 0 <= i < |ram| && start + i !in a ensures ram'[i] == ram[i] { StoreBytesElsewhere(start, ram, a, data, i); }
  }

  lemma PairInRam(start: nat, ram: seq<byte>, e0: TlbEntry, e1: TlbEntry, vaddr: nat, size: nat)
    requires vaddr % 4096 + size > 4096
    ensures InRam(start, ram, Physical(e0, vaddr), 4096 - vaddr % 4096) && InRam(start, ram, e1.pte.ppn * 4096, size - (4096 - vaddr % 4096))
      <==> AllInRam(start, |ram|, PairAddrs(e0, e1, vaddr, size))
  {
    var a, size0 := PairAddrs(e0, e1, vaddr, size), 4096 - vaddr % 4096;
    assert a[0] == Physical(e0, vaddr) && a[size0 - 1] == Physical(e0, vaddr) + size0 - 1;
    assert a[size0] == e1.pte.ppn * 4096 && a[size - 1] == e1.pte.ppn * 4096 + (size - size0) - 1;
  }

  /** A crossing access through two translations succeeds exactly when all its bytes lie in RAM. */
  lemma PairDelivered(start: nat, ram: seq<byte>, e0: TlbEntry, e1: TlbEntry, vaddr: nat, data: seq<byte>, mode: Access)
    requires vaddr % 4096 + |data| > 4096 && |data| <= 8
    ensures var (res, out, ram') := PairAccessed(start, ram, e0, e1, vaddr, data, mode);
      var addrs := ByteAddrs(e0.pte.ppn, e1.pte.ppn, vaddr, |data|);
      && res == (if AllInRam(start, |ram|, addrs) then Ok else AccessFault)
      && (res == Ok ==> Delivered(start, ram, ram', addrs, data, out, mode))
  {
    var a := PairAddrs(e0, e1, vaddr, |data|);
    AddrsOfPair(e0, e1, vaddr, |data|);
    PairInRam(start, ram, e0, e1, vaddr, |data|);
    PairAddrsDistinct(e0, e1, vaddr, |data|);
    if AllInRam(start, |ram|, a) && mode == Store { PairStored(start, ram, a, data); }
  }

  lemma PageAddrs(e: TlbEntry, vaddr: nat, size: nat, addr: nat)
    requires vaddr % 4096 + size <= 4096 && addr == Physical(e, vaddr)
    ensures ByteAddrs(e.pte.ppn, e.pte.ppn, vaddr, size) == Block(addr, size)
  {
    BlockOfPage(e.pte.ppn, e.pte.ppn, vaddr, size);
  }

  lemma BlockDeliveredTo(start: nat, ram: seq<byte>, addr: nat, addrs: seq<nat>, data: seq<byte>, mode: Access)
    requires data != [] && addrs == Block(addr, |data|)
    ensures var (res, out, ram') := Accessed(start, ram, addr, data, mode);
      res == Ok ==> Delivered(start, ram, ram', addrs, data, out, mode)
  {
    BlockDelivered(start, ram, addr, data, mode);
  }

  /** The hart's translation state is right for the tables in RAM, and the page lies in the half its tag stands for. */
  ghost predicate Ready(start: nat, ram: seq<byte>, roots: Roots, half: Halves, m: Mmu, vpn: nat) {
    && MmuOk(Words(start, ram), roots, half, m) && GlobalsShared(Words(start, ram), roots) && m.satp.mode == 8
    && Bit38(vpn) == half(Tag(vpn))
  }

  /** Number of the page after the access's first; after the last page comes page 0. */
  function PageAfter(vpn: nat): nat { (vpn + 1) % 0x10_0000_0000_0000 }

  lemma NextPageNumber(vaddr: Word)
    ensures NextPage(vaddr) / PAGE == PageAfter(vaddr / 4096)
  {
    var vpn := vaddr / 4096;
    if vpn + 1 < 0x10_0000_0000_0000 { assert NextPage(vaddr) == (vpn + 1) * 4096; } else { assert NextPage(vaddr) == 0; }
  }

  /** A successful access within a page reaches the frame that the tables in RAM map the page to. */
  lemma SinglePageReachesFrame(start: nat, roots: Roots, half: Halves, c: Context, satp: Satp, vaddr: Word, data: seq<byte>, mode: Access, x: Trace)
    returns (frame: nat)
    requires vaddr % 4096 + |data| <= 4096 && data != [] && x.res == Ok
    requires Ready(start, x.ram0, roots, half, Mmu(satp, x.t0), vaddr / 4096) && SinglePageDone(start, c, satp, vaddr, data, mode, x)
    ensures MapsTo(Words(start, x.ram0), satp.ppn, vaddr / 4096, frame) && OnlyMarked(start, x.ram0, x.walked)
    ensures Delivered(start, x.walked, x.ram1, ByteAddrs(frame, frame, vaddr, |data|), data, x.out, mode)
  {
    var mem := Words(start, x.ram0);
    var o := CachedLookup(mem, x.t0, c, satp, vaddr / PAGE, mode);
    LookupNamesFrame(mem, roots, half, Mmu(satp, x.t0), c, vaddr / PAGE, mode);
    CachedWritesOnlyAD(mem, x.t0, c, satp, vaddr / PAGE, mode);
    frame := o.out.value.pte.ppn;
    PageAddrs(o.out.value, vaddr, |data|, Physical(o.out.value, vaddr));
    BlockDeliveredTo(start, x.walked, Physical(o.out.value, vaddr), ByteAddrs(frame, frame, vaddr, |data|), data, mode);
  }

  lemma MarkedTwice(mem: Mem, mem1: Mem, mem2: Mem)
    requires OnlyADSet(mem, mem1) && OnlyADSet(mem1, mem2)
    ensures OnlyADSet(mem, mem2)
  {
    forall a | a in mem ensures SamePteUpToAD(mem[a], mem2[a]) && mem[a].flags & mem2[a].flags == mem[a].flags {
      FlagSubset(mem[a].flags, mem1[a].flags, mem2[a].flags);
    }
  }

  /** A successful access across a page boundary reaches the two frames that the tables in RAM map its two pages to. */
  lemma CrossingReachesFrames(start: nat, roots: Roots, half: Halves, c: Context, satp: Satp, vaddr: Word, data: seq<byte>, mode: Access, x: Trace)
    returns (f0: nat, f1: nat)
    requires vaddr % 4096 + |data| > 4096 && |data| <= 8 && x.res == Ok
    requires Ready(start, x.ram0, roots, half, Mmu(satp, x.t0), vaddr / 4096)
    requires Bit38(PageAfter(vaddr / 4096)) == half(Tag(PageAfter(vaddr / 4096)))
    requires CrossingDone(start, c, satp, vaddr, data, mode, x)
    ensures MapsTo(Words(start, x.ram0), satp.ppn, vaddr / 4096, f0) && OnlyMarked(start, x.ram0, x.walked)
    ensures MapsTo(Words(start, x.ram0), satp.ppn, PageAfter(vaddr / 4096), f1)
    ensures Delivered(start, x.walked, x.ram1, ByteAddrs(f0, f1, vaddr, |data|), data, x.out, mode)
  {
    NextPageNumber(vaddr);
    var mem, vpn0, vpn1 := Words(start, x.ram0), vaddr / PAGE, NextPage(vaddr) / PAGE;
    var o0 := CachedLookup(mem, x.t0, c, satp, vpn0, mode);
    var o1 := CachedLookup(o0.mem, o0.filled.tlb, c, satp, vpn1, mode);
    LookupNamesFrame(mem, roots, half, Mmu(satp, x.t0), c, vpn0, mode);
    LookupOk(mem, roots, half, Mmu(satp, x.t0), c, vpn0, mode);
    GlobalsSharedUpToAD(mem, o0.mem, roots);
    LookupNamesFrame(o0.mem, roots, half, Mmu(satp, o0.filled.tlb), c, vpn1, mode);
    CachedWritesOnlyAD(o0.mem, o0.filled.tlb, c, satp, vpn1, mode);
    MarkedTwice(mem, o0.mem, o1.mem);
    f0, f1 := o0.out.value.pte.ppn, o1.out.value.pte.ppn;
    MapsToUpToAD(mem, o0.mem, satp.ppn, vpn1, f1);
    PairDelivered(start, x.walked, o0.out.value, o1.out.value, vaddr, data, mode);
  }

  /** Bits 63..60 of satp: the translation mode. */
  function ModeOf(satp: Word): nat { satp / 0x1000_0000_0000_0000 }

  /** Translation is off: for fetches by the privilege, for data by the effective privilege, and in Bare mode. */
  predicate Off(h: HartState, mode: Access) {
    (if mode == Insn then h.privilege else h.memPrivilege) == 3 || ModeOf(h.csr.satp) == 0
  }

  /** The walker's context is the hart's: its data privilege, its status, and PMP asked for less than M-mode. */
  lemma WalkerAsks(csr: Csr, memPrivilege: nat, addr: Word, size: Word)
    ensures var c := WalkContext(csr, memPrivilege);
      c.memPrivilege == memPrivilege && c.mstatus == csr.mstatus && c.pmp(addr, size) == Pmp.Check(csr.pmp, addr, size, false)
  {
    assert addr % U64 == addr && size % U64 == size;
  }

  /** The operating system's side of a translated access: the TLB is right, and both pages lie in their tags' halves. */
  ghost predicate Prepared(start: nat, roots: Roots, half: Halves, h: HartState, vaddr: Word, x: Trace) {
    && Ready(start, x.ram0, roots, half, Mmu(SatpFields(h.csr.satp), x.t0), vaddr / 4096)
    && Bit38(PageAfter(vaddr / 4096)) == half(Tag(PageAfter(vaddr / 4096)))
  }

  /** A successful untranslated access was granted by PMP for its own bytes, and moved them. */
  lemma BareAccessReachesItself(start: Word, end: Word, h: HartState, vaddr: Word, data: seq<byte>, mode: Access, x: Trace)
    requires |data| in {1, 2, 4, 8} && VirtDone(start, end, h, vaddr, data, mode, x, true) && x.res == Ok && Off(h, mode)
    ensures PmpAllows(mode, Pmp.Check(h.csr.pmp, vaddr, |data|, h.privilege == 3))
    ensures Delivered(start, x.ram0, x.ram1, Block(vaddr, |data|), data, x.out, mode) && x.t1 == x.t0
  {
    UntranslatedExactly(start, x.ram0, Pmp.Check(h.csr.pmp, vaddr, |data|, h.privilege == 3), vaddr, data, mode);
  }

  /** From registers and page tables to bytes: a successful translated access is at a canonical address, and every byte of
      it is the byte of RAM that the tables under satp's root map its address to. */
  lemma AccessReachesFrames(start: Word, end: Word, roots: Roots, half: Halves, h: HartState, vaddr: Word, data: seq<byte>, mode: Access, x: Trace)
    returns (f0: nat, f1: nat)
    requires |data| in {1, 2, 4, 8} && VirtDone(start, end, h, vaddr, data, mode, x, true) && x.res == Ok && !Off(h, mode)
    requires Prepared(start, roots, half, h, vaddr, x)
    ensures SignExtend39(vaddr) == vaddr && ModeOf(h.csr.satp) == 8
    ensures MapsTo(Words(start, x.ram0), h.csr.satp % 0x1000_0000_0000, vaddr / 4096, f0)
    ensures vaddr % 4096 + |data| > 4096 ==> MapsTo(Words(start, x.ram0), h.csr.satp % 0x1000_0000_0000, PageAfter(vaddr / 4096), f1)
    ensures OnlyMarked(start, x.ram0, x.walked)
    ensures Delivered(start, x.walked, x.ram1, ByteAddrs(f0, f1, vaddr, |data|), data, x.out, mode)
  {
    var c, satp := WalkContext(h.csr, h.memPrivilege), SatpFields(h.csr.satp);
    CanonicalIsSignExtension(satp, vaddr);
    if vaddr % 4096 + |data| > 4096 {
      f0, f1 := CrossingReachesFrames(start, roots, half, c, satp, vaddr, data, mode, x);
    } else {
      f0 := SinglePageReachesFrame(start, roots, half, c, satp, vaddr, data, mode, x);
      f1 := f0;
    }
  }

  /** At any other address a translated access is a page fault that touches neither RAM nor the TLB. */
  lemma NonCanonicalFaults(start: Word, end: Word, h: HartState, vaddr: Word, data: seq<byte>, mode: Access, x: Trace)
    requires |data| in {1, 2, 4, 8} && VirtDone(start, end, h, vaddr, data, mode, x, true) && !Off(h, mode)
    requires ModeOf(h.csr.satp) == 8 && SignExtend39(vaddr) != vaddr
    ensures x.res == PageFault && x.ram1 == x.ram0 && x.t1 == x.t0 && x.out == data
  {
    CanonicalIsSignExtension(SatpFields(h.csr.satp), vaddr);
  }
}
