/** Sv39 page tables and the walk without the TLB (rv_paging.c, rv_paging.h). */
module Sv39 {
  import opened Types

  const PAGE := 4096
  const LEVELS := 3

  // Flag byte of a PTE.
  const PTE_V: bv8 := 0x01
  const PTE_R: bv8 := 0x02
  const PTE_W: bv8 := 0x04
  const PTE_X: bv8 := 0x08
  const PTE_U: bv8 := 0x10
  const PTE_G: bv8 := 0x20
  const PTE_A: bv8 := 0x40
  const PTE_D: bv8 := 0x80
  const PTE_RWX: bv8 := 0x1E
  const PTE_AD: bv8 := 0xC0

  // Permission bits of a PMP answer.
  const PMP_R: bv8 := 0x1
  const PMP_W: bv8 := 0x2
  const PMP_X: bv8 := 0x4

  /** A 64-bit page-table entry: bits 7..0, 9..8, 53..10 and 63..54. */
  datatype Pte = Pte(flags: bv8, rsw: nat, ppn: nat, reserved: nat)

  /** The translation root: mode, ASID and root page number of `satp`. */
  datatype Satp = Satp(mode: nat, asid: nat, ppn: nat)

  /** One TLB entry; `tag`, `asid` and `pmp` are the three bit-fields packed into `vma`. */
  datatype TlbEntry = TlbEntry(tag: nat, asid: nat, pmp: bv8, pte: Pte)

  /** Page numbers have 44 bits. */
  const PPN_LIMIT := 0x1000_0000_0000

  /** An entry as the TLB's two words can hold it. */
  type CachedEntry = e: TlbEntry | e.pte.ppn < PPN_LIMIT witness TlbEntry(0, 0, 0, Pte(0, 0, 0, 0))

  /** What the walk reads from the hart besides satp: effective privilege, mstatus and the PMP answer. */
  datatype Context = Context(memPrivilege: nat, mstatus: BitSet, pmp: (nat, nat) -> bv8)

  /** The page-table words held in RAM, by physical address. */
  type Mem = map<nat, Pte>

  function Pages(level: nat): nat
    requires level < LEVELS
  {
    if level == 2 then 262144 else if level == 1 then 512 else 1
  }

  function VpnPart(vpn: nat, level: nat): nat
    requires level < LEVELS
  {
    vpn / Pages(level) % 512
  }

  /** Bits 37..12 of the address: what the TLB compares (RV_TLB_VPN_MASK). */
  function Tag(vpn: nat): nat { vpn % 0x400_0000 }

  /** Bit 38 of the address: translated by the walk, not compared by the TLB. */
  function Bit38(vpn: nat): nat { vpn / 0x400_0000 % 2 }

  function PteAddr(ppn: nat, part: nat): nat { ppn * PAGE + part * 8 }

  function Required(mode: Access): bv8 {
    if mode == Amo || mode == Store then PTE_AD else PTE_A
  }

  /** The leaf as cached for one 4K slice of its page. */
  function Slice(pte: Pte, vpn: nat, level: nat): Pte
    requires level < LEVELS
  {
    pte.(ppn := pte.ppn + vpn % Pages(level))
  }

  function SetFlags(pte: Pte, fl: bv8): Pte { pte.(flags := pte.flags | fl) }

  /** PTE and PMP permission bits, for the effective privilege. */
  function CheckAccess(c: Context, e: TlbEntry, mode: Access): MemResult {
    var user := e.pte.flags & PTE_U != 0;
    if c.memPrivilege == 0 && !user then PageFault
    else if c.memPrivilege != 0 && user && SUM !in c.mstatus then PageFault
    else
      match mode
      case Insn =>
        if e.pte.flags & PTE_X == 0 then PageFault else if e.pmp & PMP_X == 0 then AccessFault else Ok
      case Load =>
        if e.pte.flags & PTE_R == 0 then PageFault else if e.pmp & PMP_R == 0 then AccessFault else Ok
      case _ =>
        if e.pte.flags & PTE_W == 0 then PageFault else if e.pmp & PMP_W == 0 then AccessFault else Ok
  }

  datatype Raw = Raw(res: MemResult, out: Option<TlbEntry>, mem: Mem)

  datatype Translation = NoLeaf(why: MemResult) | Leaf(addr: nat, level: nat, pte: Pte)

  /** Permissions of a cached leaf, then the A/D write to its word if a bit is missing. */
  function UseLeaf(mem: Mem, c: Context, entry: TlbEntry, mode: Access, addr: nat, pte: Pte): Raw
    requires addr in mem
  {
    var res := CheckAccess(c, entry, mode);
    var fl := Required(mode);
    if res != Ok then Raw(res, None, mem)
    else if pte.flags & fl == fl then Raw(Ok, Some(entry), mem)
    else if c.pmp(addr, 8) & PMP_W == 0 then Raw(AccessFault, None, mem)
    else Raw(Ok, Some(entry.(pte := SetFlags(entry.pte, fl))), mem[addr := SetFlags(pte, fl)])
  }

  /** The leaf part of the walk. */
  function AtLeaf(mem: Mem, c: Context, asid: nat, vpn: nat, mode: Access, t: Translation): Raw
    requires t.Leaf? && t.level < LEVELS && t.addr in mem
  {
    UseLeaf(mem, c, TlbEntry(Tag(vpn), asid, c.pmp(t.pte.ppn * PAGE, PAGE), Slice(t.pte, vpn, t.level)), mode, t.addr, t.pte)
  }

  /** `rv_paging_raw_lookup` from the table at `ppn` for `level`; level -1 is past the last table. */
  function RawFrom(mem: Mem, c: Context, asid: nat, vpn: nat, mode: Access, ppn: nat, level: int): Raw
    requires -1 <= level < LEVELS
    decreases level + 1
  {
    if level < 0 then Raw(PageFault, None, mem) else
    var a := PteAddr(ppn, VpnPart(vpn, level));
    if c.pmp(a, 8) & PMP_R == 0 || a !in mem then Raw(AccessFault, None, mem) else
    var pte := mem[a];
    if pte.flags & PTE_V == 0 then Raw(PageFault, None, mem)
    else if pte.flags & PTE_RWX != 0 then
      if pte.ppn % Pages(level) != 0 then Raw(PageFault, None, mem)
      else AtLeaf(mem, c, asid, vpn, mode, Leaf(a, level, pte))
    else RawFrom(mem, c, asid, vpn, mode, pte.ppn, level - 1)
  }

  function RawLookup(mem: Mem, c: Context, satp: Satp, vpn: nat, mode: Access): Raw {
    RawFrom(mem, c, satp.asid, vpn, mode, satp.ppn, 2)
  }

  // ---- The address map: the walk alone, without PMP, permissions or A/D writes ----

  function WalkFrom(mem: Mem, vpn: nat, ppn: nat, level: int): (t: Translation)
    requires -1 <= level < LEVELS
    ensures t.Leaf? ==> t.level < LEVELS && t.addr in mem && mem[t.addr] == t.pte
    decreases level + 1
  {
    if level < 0 then NoLeaf(PageFault) else
    var a := PteAddr(ppn, VpnPart(vpn, level));
    if a !in mem then NoLeaf(AccessFault) else
    var pte := mem[a];
    if pte.flags & PTE_V == 0 then NoLeaf(PageFault)
    else if pte.flags & PTE_RWX == 0 then WalkFrom(mem, vpn, pte.ppn, level - 1)
    else if pte.ppn % Pages(level) != 0 then NoLeaf(PageFault)
    else Leaf(a, level, pte)
  }

  function Walk(mem: Mem, root: nat, vpn: nat): (t: Translation)
    ensures t.Leaf? ==> t.level < LEVELS && t.addr in mem && mem[t.addr] == t.pte
  {
    WalkFrom(mem, vpn, root, 2)
  }

  /** PMP lets the walker read every PTE it visits. */
  predicate PathReadable(mem: Mem, c: Context, vpn: nat, ppn: nat, level: int)
    requires -1 <= level < LEVELS
    decreases level + 1
  {
    level < 0 ||
    var a := PteAddr(ppn, VpnPart(vpn, level));
    c.pmp(a, 8) & PMP_R != 0 &&
    (a in mem && mem[a].flags & PTE_V != 0 && mem[a].flags & PTE_RWX == 0 ==>
       PathReadable(mem, c, vpn, mem[a].ppn, level - 1))
  }

  /** The lookup is exactly: a PMP fault on the path, else the walk's own fault, else permissions and A/D at the leaf. */
  lemma {:induction false} RawFromIsWalk(mem: Mem, c: Context, asid: nat, vpn: nat, mode: Access, ppn: nat, level: int)
    requires -1 <= level < LEVELS
    ensures RawFrom(mem, c, asid, vpn, mode, ppn, level) ==
      var t := WalkFrom(mem, vpn, ppn, level);
      if !PathReadable(mem, c, vpn, ppn, level) then Raw(AccessFault, None, mem)
      else if t.NoLeaf? then Raw(t.why, None, mem)
      else AtLeaf(mem, c, asid, vpn, mode, t)
    decreases level + 1
  {
    if level >= 0 {
      var a := PteAddr(ppn, VpnPart(vpn, level));
      if a in mem { RawFromIsWalk(mem, c, asid, vpn, mode, mem[a].ppn, level - 1); }
    }
  }

  lemma RawLookupIsWalk(mem: Mem, c: Context, satp: Satp, vpn: nat, mode: Access)
    ensures RawLookup(mem, c, satp, vpn, mode) ==
      var t := Walk(mem, satp.ppn, vpn);
      if !PathReadable(mem, c, vpn, satp.ppn, 2) then Raw(AccessFault, None, mem)
      else if t.NoLeaf? then Raw(t.why, None, mem)
      else AtLeaf(mem, c, satp.asid, vpn, mode, t)
  {
    RawFromIsWalk(mem, c, satp.asid, vpn, mode, satp.ppn, 2);
  }

  // ---- A/D writes keep the address map ----

  predicate SamePteUpToAD(p: Pte, q: Pte) {
    p.(flags := p.flags & !PTE_AD) == q.(flags := q.flags & !PTE_AD)
  }

  /** Equal words except that bits 6 and 7 may have been set. */
  ghost predicate OnlyADSet(mem: Mem, mem': Mem) {
    && mem'.Keys == mem.Keys
    && forall a :: a in mem ==> SamePteUpToAD(mem[a], mem'[a]) && mem[a].flags & mem'[a].flags == mem[a].flags
  }

  predicate SameUpToAD(t: Translation, t': Translation) {
    match t
    case NoLeaf(why) => t' == NoLeaf(why)
    case Leaf(a, l, p) => t'.Leaf? && t'.addr == a && t'.level == l && SamePteUpToAD(p, t'.pte)
  }

  lemma SameControlBits(p: Pte, q: Pte)
    requires SamePteUpToAD(p, q)
    ensures p.ppn == q.ppn
    ensures p.flags & PTE_V == q.flags & PTE_V
    ensures p.flags & PTE_RWX == q.flags & PTE_RWX
    ensures p.flags & PTE_G == q.flags & PTE_G
  {
    FlagBits(p.flags, q.flags);
  }

  lemma FlagBits(f: bv8, g: bv8)
    requires f & !PTE_AD == g & !PTE_AD
    ensures f & PTE_V == g & PTE_V && f & PTE_RWX == g & PTE_RWX && f & PTE_G == g & PTE_G
    ensures f & PTE_U == g & PTE_U
  {}

  /** Setting A and D bits anywhere, even in tables that map themselves, leaves every translation as it was. */
  lemma {:induction false} WalkFromUpToAD(mem: Mem, mem': Mem, vpn: nat, ppn: nat, level: int)
    requires -1 <= level < LEVELS && OnlyADSet(mem, mem')
    ensures SameUpToAD(WalkFrom(mem, vpn, ppn, level), WalkFrom(mem', vpn, ppn, level))
    decreases level + 1
  {
    if level >= 0 {
      var a := PteAddr(ppn, VpnPart(vpn, level));
      if a in mem {
        SameControlBits(mem[a], mem'[a]);
        WalkFromUpToAD(mem, mem', vpn, mem[a].ppn, level - 1);
      }
    }
  }

  lemma WalkUpToAD(mem: Mem, mem': Mem, root: nat, vpn: nat)
    requires OnlyADSet(mem, mem')
    ensures SameUpToAD(Walk(mem, root, vpn), Walk(mem', root, vpn))
  {
    WalkFromUpToAD(mem, mem', vpn, root, 2);
  }

  lemma SetFlagsBits(f: bv8, fl: bv8)
    requires fl & !PTE_AD == 0
    ensures (f | fl) & !PTE_AD == f & !PTE_AD
    ensures f & (f | fl) == f && (f | fl) & fl == fl
  {}

  lemma NothingIsOnlyAD(mem: Mem)
    ensures OnlyADSet(mem, mem)
  {
    forall b | b in mem ensures mem[b].flags & mem[b].flags == mem[b].flags {}
  }

  lemma SetFlagsOnlyAD(mem: Mem, a: nat, fl: bv8)
    requires a in mem && fl & !PTE_AD == 0
    ensures OnlyADSet(mem, mem[a := SetFlags(mem[a], fl)])
  {
    SetFlagsBits(mem[a].flags, fl);
    NothingIsOnlyAD(mem);
  }

  lemma RequiredIsAD(mode: Access)
    ensures Required(mode) & !PTE_AD == 0
  {}

  lemma AtLeafWrites(mem: Mem, c: Context, asid: nat, vpn: nat, mode: Access, t: Translation)
    requires t.Leaf? && t.level < LEVELS && t.addr in mem && mem[t.addr] == t.pte
    ensures var r := AtLeaf(mem, c, asid, vpn, mode, t);
      if r.res == Ok then r.out.Some? && r.mem == mem[t.addr := SetFlags(t.pte, Required(mode))]
      else r.mem == mem && r.out == None
  {
    NothingToSet(t.pte.flags, Required(mode));
    assert mem[t.addr := t.pte] == mem;
  }

  /** A lookup writes nothing unless it succeeds, and then at most bits 6 and 7 of the leaf. */
  lemma RawWritesOnlyLeafAD(mem: Mem, c: Context, satp: Satp, vpn: nat, mode: Access)
    ensures var r := RawLookup(mem, c, satp, vpn, mode); var t := Walk(mem, satp.ppn, vpn);
      if r.res == Ok then t.Leaf? && r.out.Some? && r.mem == mem[t.addr := SetFlags(t.pte, Required(mode))]
      else r.mem == mem && r.out == None
    ensures OnlyADSet(mem, RawLookup(mem, c, satp, vpn, mode).mem)
  {
    var t := Walk(mem, satp.ppn, vpn);
    RawLookupIsWalk(mem, c, satp, vpn, mode);
    NothingIsOnlyAD(mem);
    if t.Leaf? {
      AtLeafWrites(mem, c, satp.asid, vpn, mode, t);
      RequiredIsAD(mode);
      SetFlagsOnlyAD(mem, t.addr, Required(mode));
    }
  }

  lemma NothingToSet(f: bv8, fl: bv8)
    ensures f & fl == fl ==> f | fl == f
  {}

  /** Every address translates to the same page after a lookup as before it. */
  lemma LookupKeepsAddressMap(mem: Mem, c: Context, satp: Satp, vpn: nat, mode: Access, root: nat, other: nat)
    ensures SameUpToAD(Walk(mem, root, other), Walk(RawLookup(mem, c, satp, vpn, mode).mem, root, other))
  {
    RawWritesOnlyLeafAD(mem, c, satp, vpn, mode);
    WalkUpToAD(mem, RawLookup(mem, c, satp, vpn, mode).mem, root, other);
  }

  lemma {:induction false} PathUpToAD(mem: Mem, mem': Mem, c: Context, vpn: nat, ppn: nat, level: int)
    requires -1 <= level < LEVELS && OnlyADSet(mem, mem')
    ensures PathReadable(mem, c, vpn, ppn, level) == PathReadable(mem', c, vpn, ppn, level)
    decreases level + 1
  {
    if level >= 0 {
      var a := PteAddr(ppn, VpnPart(vpn, level));
      if a in mem {
        SameControlBits(mem[a], mem'[a]);
        PathUpToAD(mem, mem', c, vpn, mem[a].ppn, level - 1);
      }
    }
  }

  lemma AccessBits(f: bv8, fl: bv8)
    requires fl & !PTE_AD == 0
    ensures (f | fl) & PTE_U == f & PTE_U && (f | fl) & PTE_X == f & PTE_X
    ensures (f | fl) & PTE_R == f & PTE_R && (f | fl) & PTE_W == f & PTE_W
  {}

  /** Permissions do not look at the A and D bits. */
  lemma CheckIgnoresAD(c: Context, e: TlbEntry, mode: Access, fl: bv8)
    requires fl & !PTE_AD == 0
    ensures CheckAccess(c, e.(pte := SetFlags(e.pte, fl)), mode) == CheckAccess(c, e, mode)
  {
    AccessBits(e.pte.flags, fl);
  }

  /** Looking the same address up again in the same mode succeeds with the same entry and writes nothing. */
  lemma SecondLookupWritesNothing(mem: Mem, c: Context, satp: Satp, vpn: nat, mode: Access)
    requires RawLookup(mem, c, satp, vpn, mode).res == Ok
    ensures var r := RawLookup(mem, c, satp, vpn, mode);
      RawLookup(r.mem, c, satp, vpn, mode) == r
  {
    var r, t := RawLookup(mem, c, satp, vpn, mode), Walk(mem, satp.ppn, vpn);
    RawWritesOnlyLeafAD(mem, c, satp, vpn, mode);
    RawLookupIsWalk(mem, c, satp, vpn, mode);
    WalkUpToAD(mem, r.mem, satp.ppn, vpn);
    PathUpToAD(mem, r.mem, c, vpn, satp.ppn, 2);
    RawLookupIsWalk(r.mem, c, satp, vpn, mode);
    assert Walk(r.mem, satp.ppn, vpn) == t.(pte := SetFlags(t.pte, Required(mode)));
    SecondLeaf(mem, r.mem, c, satp.asid, vpn, mode, t);
  }

  lemma SecondLeaf(mem: Mem, mem': Mem, c: Context, asid: nat, vpn: nat, mode: Access, t: Translation)
    requires t.Leaf? && t.level < LEVELS && t.addr in mem && mem[t.addr] == t.pte
    requires AtLeaf(mem, c, asid, vpn, mode, t).res == Ok && mem' == AtLeaf(mem, c, asid, vpn, mode, t).mem
    ensures t.addr in mem' &&
      AtLeaf(mem', c, asid, vpn, mode, t.(pte := SetFlags(t.pte, Required(mode)))) == AtLeaf(mem, c, asid, vpn, mode, t)
  {
    var entry := TlbEntry(Tag(vpn), asid, c.pmp(t.pte.ppn * PAGE, PAGE), Slice(t.pte, vpn, t.level));
    RequiredIsAD(mode);
    SetFlagsBits(t.pte.flags, Required(mode));
    NothingToSet(t.pte.flags, Required(mode));
    CheckIgnoresAD(c, entry, mode, Required(mode));
    assert Slice(SetFlags(t.pte, Required(mode)), vpn, t.level) == SetFlags(Slice(t.pte, vpn, t.level), Required(mode));
  }
}
