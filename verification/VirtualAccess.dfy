/** Loads, stores and fetches through translation, and accesses that cross a page (rv_paging.c, emu_machine.c). */
module VirtualAccess {
  import opened Types
  import opened Sv39
  import opened Tlb
  import opened Hart
  import opened Ram
  import opened TlbProofs
  import opened Paging
  import Pmp
  import Bits

  // ---- The reference: one byte at a time ----

  function StoreBytes(start: nat, ram: seq<byte>, addrs: seq<nat>, data: seq<byte>): (r: seq<byte>)
    requires |addrs| == |data|
    requires forall k :: 0 <= k < |addrs| ==> start <= addrs[k] < start + |ram|
    ensures |r| == |ram|
    decreases |data|
  {
    if data == [] then ram
    else StoreBytes(start, ram[addrs[0] - start := data[0]], addrs[1..], data[1..])
  }

  function LoadBytes(start: nat, ram: seq<byte>, addrs: seq<nat>): seq<byte>
    requires forall k :: 0 <= k < |addrs| ==> start <= addrs[k] < start + |ram|
  {
    seq(|addrs|, k requires 0 <= k < |addrs| => ram[addrs[k] - start])
  }

  function Run(addr: nat, n: nat): (a: seq<nat>)
    ensures |a| == n && forall k :: 0 <= k < n ==> a[k] == addr + k
  {
    seq(n, k => addr + k)
  }

  function Physical(e: TlbEntry, vaddr: nat): nat { e.pte.ppn * PAGE + vaddr % PAGE }

  /** Physical address of every byte of a crossing access: the first page's up to its end, then the second's. */
  function PairAddrs(e0: TlbEntry, e1: TlbEntry, vaddr: nat, size: nat): (a: seq<nat>)
    requires size >= PAGE - vaddr % PAGE
    ensures |a| == size
  {
    var size0 := PAGE - vaddr % PAGE;
    Run(Physical(e0, vaddr), size0) + Run(e1.pte.ppn * PAGE, size - size0)
  }

  lemma {:induction false} StoreBytesSplit(start: nat, ram: seq<byte>, a0: seq<nat>, a1: seq<nat>, d0: seq<byte>, d1: seq<byte>)
    requires |a0| == |d0| && |a1| == |d1|
    requires forall k :: 0 <= k < |a0| ==> start <= a0[k] < start + |ram|
    requires forall k :: 0 <= k < |a1| ==> start <= a1[k] < start + |ram|
    ensures forall k :: 0 <= k < |a0 + a1| ==> start <= (a0 + a1)[k] < start + |ram|
    ensures StoreBytes(start, ram, a0 + a1, d0 + d1) == StoreBytes(start, StoreBytes(start, ram, a0, d0), a1, d1)
    decreases |d0|
  {
    if d0 == [] {
      assert a0 + a1 == a1 && d0 + d1 == d1;
    } else {
      assert (a0 + a1)[1..] == a0[1..] + a1 && (d0 + d1)[1..] == d0[1..] + d1;
      StoreBytesSplit(start, ram[a0[0] - start := d0[0]], a0[1..], a1, d0[1..], d1);
    }
  }

  /** A block copy is a run of byte stores. */
  lemma {:induction false} SpliceIsStoreBytes(start: nat, ram: seq<byte>, addr: nat, data: seq<byte>)
    requires InRam(start, ram, addr, |data|)
    ensures Splice(ram, addr - start, data) == StoreBytes(start, ram, Run(addr, |data|), data)
    decreases |data|
  {
    var at := addr - start;
    if data == [] {
      assert Splice(ram, at, data) == ram;
    } else {
      var ram' := ram[at := data[0]];
      assert Run(addr, |data|)[1..] == Run(addr + 1, |data| - 1);
      SpliceIsStoreBytes(start, ram', addr + 1, data[1..]);
      assert Splice(ram, at, data) == Splice(ram', at + 1, data[1..]);
    }
  }

  lemma {:induction false} StoreBytesElsewhere(start: nat, ram: seq<byte>, addrs: seq<nat>, data: seq<byte>, i: nat)
    requires |addrs| == |data| && i < |ram| && start + i !in addrs
    requires forall k :: 0 <= k < |addrs| ==> start <= addrs[k] < start + |ram|
    ensures StoreBytes(start, ram, addrs, data)[i] == ram[i]
    decreases |data|
  {
    if data != [] {
      StoreBytesElsewhere(start, ram[addrs[0] - start := data[0]], addrs[1..], data[1..], i);
    }
  }

  /** Stores to distinct addresses read back. */
  lemma {:induction false} StoreBytesReadBack(start: nat, ram: seq<byte>, addrs: seq<nat>, data: seq<byte>, k: nat)
    requires |addrs| == |data| && k < |data|
    requires forall j :: 0 <= j < |addrs| ==> start <= addrs[j] < start + |ram|
    requires forall i, j :: 0 <= i < j < |addrs| ==> addrs[i] != addrs[j]
    ensures StoreBytes(start, ram, addrs, data)[addrs[k] - start] == data[k]
    decreases |data|
  {
    var ram' := ram[addrs[0] - start := data[0]];
    if k == 0 {
      StoreBytesElsewhere(start, ram', addrs[1..], data[1..], addrs[0] - start);
    } else {
      StoreBytesReadBack(start, ram', addrs[1..], data[1..], k - 1);
    }
  }

  /** The bytes of a crossing access never collide, even when both pages are the same frame. */
  lemma PairAddrsDistinct(e0: TlbEntry, e1: TlbEntry, vaddr: nat, size: nat)
    requires PAGE - vaddr % PAGE <= size <= 8
    ensures forall j, k :: 0 <= j < k < size ==> PairAddrs(e0, e1, vaddr, size)[j] != PairAddrs(e0, e1, vaddr, size)[k]
  {
    var a, size0 := PairAddrs(e0, e1, vaddr, size), PAGE - vaddr % PAGE;
    forall j, k | 0 <= j < k < size ensures a[j] != a[k] {
      if j < size0 <= k {
        OffsetsApart(e0.pte.ppn, e1.pte.ppn, vaddr % PAGE + j, k - size0);
      }
    }
  }

  lemma OffsetsApart(p: nat, q: nat, i: nat, j: nat)
    requires i < PAGE && j < PAGE && i != j
    ensures p * PAGE + i != q * PAGE + j
  {}

  // ---- The access itself ----

  /** What a crossing access leaves: result, data buffer and RAM. Only the second frame's absence can split it. */
  function PairAccessed(start: nat, ram: seq<byte>, e0: TlbEntry, e1: TlbEntry, vaddr: nat, data: seq<byte>, mode: Access)
    : (MemResult, seq<byte>, seq<byte>)
    requires |data| >= PAGE - vaddr % PAGE
  {
    var size0 := PAGE - vaddr % PAGE;
    var a := PairAddrs(e0, e1, vaddr, |data|);
    if !InRam(start, ram, Physical(e0, vaddr), size0) then (AccessFault, data, ram)
    else if !InRam(start, ram, e1.pte.ppn * PAGE, |data| - size0) then
      if mode == Store then (AccessFault, data, StoreBytes(start, ram, a[..size0], data[..size0]))
      else (AccessFault, LoadBytes(start, ram, a[..size0]) + data[size0..], ram)
    else if mode == Store then (Ok, data, StoreBytes(start, ram, a, data))
    else (Ok, LoadBytes(start, ram, a), ram)
  }

  lemma PairIsBytes(start: nat, ram: seq<byte>, e0: TlbEntry, e1: TlbEntry, vaddr: nat, data: seq<byte>)
    requires |data| > PAGE - vaddr % PAGE
    requires InRam(start, ram, Physical(e0, vaddr), PAGE - vaddr % PAGE)
    ensures var size0 := PAGE - vaddr % PAGE; var a := PairAddrs(e0, e1, vaddr, |data|);
      var ram0 := Splice(ram, Physical(e0, vaddr) - start, data[..size0]);
      && ram0 == StoreBytes(start, ram, a[..size0], data[..size0])
      && ram[Physical(e0, vaddr) - start..Physical(e0, vaddr) - start + size0] == LoadBytes(start, ram, a[..size0])
      && (InRam(start, ram, e1.pte.ppn * PAGE, |data| - size0) ==>
            Splice(ram0, e1.pte.ppn * PAGE - start, data[size0..]) == StoreBytes(start, ram, a, data))
  {
    var size0 := PAGE - vaddr % PAGE;
    var a := PairAddrs(e0, e1, vaddr, |data|);
    var d0, d1 := data[..size0], data[size0..];
    SpliceIsStoreBytes(start, ram, Physical(e0, vaddr), d0);
    assert a[..size0] == Run(Physical(e0, vaddr), size0);
    assert a[size0..] == Run(e1.pte.ppn * PAGE, |data| - size0);
    assert a == a[..size0] + a[size0..] && data == d0 + d1;
    if InRam(start, ram, e1.pte.ppn * PAGE, |data| - size0) {
      var ram0 := Splice(ram, Physical(e0, vaddr) - start, d0);
      SpliceIsStoreBytes(start, ram0, e1.pte.ppn * PAGE, d1);
      StoreBytesSplit(start, ram, a[..size0], a[size0..], d0, d1);
    }
  }

  /** The two block accesses, one after the other. */
  function PairPartials(start: nat, ram: seq<byte>, e0: TlbEntry, e1: TlbEntry, vaddr: nat, data: seq<byte>, mode: Access)
    : (MemResult, seq<byte>, seq<byte>)
    requires |data| >= PAGE - vaddr % PAGE
  {
    var size0 := PAGE - vaddr % PAGE;
    var (r0, o0, ram0) := Accessed(start, ram, Physical(e0, vaddr), data[..size0], mode);
    if r0 != Ok then (r0, o0 + data[size0..], ram0) else
    var (r1, o1, ram1) := Accessed(start, ram0, e1.pte.ppn * PAGE, data[size0..], mode);
    (r1, o0 + o1, ram1)
  }

  lemma LoadPair(start: nat, ram: seq<byte>, e0: TlbEntry, e1: TlbEntry, vaddr: nat, size: nat)
    requires size > PAGE - vaddr % PAGE
    requires InRam(start, ram, Physical(e0, vaddr), PAGE - vaddr % PAGE)
    requires InRam(start, ram, e1.pte.ppn * PAGE, size - (PAGE - vaddr % PAGE))
    ensures var size0 := PAGE - vaddr % PAGE; var p0, p1 := Physical(e0, vaddr) - start, e1.pte.ppn * PAGE - start;
      LoadBytes(start, ram, PairAddrs(e0, e1, vaddr, size)) == ram[p0..p0 + size0] + ram[p1..p1 + (size - size0)]
  {}

  /** Page-crossing copies are byte-by-byte accesses through the two fixed translations. */
  lemma PairIsByteWise(start: nat, ram: seq<byte>, e0: TlbEntry, e1: TlbEntry, vaddr: nat, data: seq<byte>, mode: Access)
    requires |data| > PAGE - vaddr % PAGE
    ensures PairPartials(start, ram, e0, e1, vaddr, data, mode) == PairAccessed(start, ram, e0, e1, vaddr, data, mode)
  {
    var size0 := PAGE - vaddr % PAGE;
    if InRam(start, ram, Physical(e0, vaddr), size0) {
      PairIsBytes(start, ram, e0, e1, vaddr, data);
      if InRam(start, ram, e1.pte.ppn * PAGE, |data| - size0) {
        LoadPair(start, ram, e0, e1, vaddr, |data|);
      }
    }
    assert data[..size0] + data[size0..] == data;
  }

  /** Translated addresses have 56 bits, so no access through the TLB wraps. */
  lemma PhysicalSmall(e: CachedEntry, vaddr: nat)
    ensures e.pte.ppn * PAGE <= Physical(e, vaddr) && Physical(e, vaddr) + 8 < Bits.U64
  {}

  method AccessPair(m: Machine, e0: CachedEntry, e1: CachedEntry, vaddr: nat, data: seq<byte>, mode: Access)
    returns (res: MemResult, out: seq<byte>)
    requires m.Bounded() && PAGE - vaddr % PAGE < |data| <= 8
    modifies m.ram
    ensures (res, out, m.ram[..]) == PairAccessed(m.ramStart, old(m.ram[..]), e0, e1, vaddr, data, mode)
  {
    PairIsByteWise(m.ramStart, m.ram[..], e0, e1, vaddr, data, mode);
    PhysicalSmall(e0, vaddr);
    PhysicalSmall(e1, vaddr);
    var size0 := PAGE - vaddr % PAGE;
    var out0, out1;
    res, out0 := m.AccessPartial(Physical(e0, vaddr), data[..size0], mode);
    if res != Ok { return res, out0 + data[size0..]; }
    res, out1 := m.AccessPartial(e1.pte.ppn * PAGE, data[size0..], mode);
    out := out0 + out1;
  }

  /** A crossing store is read back by the crossing load through the same translations. */
  lemma PairRoundTrip(start: nat, ram: seq<byte>, e0: TlbEntry, e1: TlbEntry, vaddr: nat, data: seq<byte>, old_: seq<byte>)
    requires PAGE - vaddr % PAGE < |data| <= 8 && |old_| == |data|
    requires PairAccessed(start, ram, e0, e1, vaddr, data, Store).0 == Ok
    ensures var ram' := PairAccessed(start, ram, e0, e1, vaddr, data, Store).2;
      PairAccessed(start, ram', e0, e1, vaddr, old_, Load) == (Ok, data, ram')
  {
    var a := PairAddrs(e0, e1, vaddr, |data|);
    PairAddrsDistinct(e0, e1, vaddr, |data|);
    var ram' := StoreBytes(start, ram, a, data);
    forall k | 0 <= k < |data| ensures ram'[a[k] - start] == data[k] {
      StoreBytesReadBack(start, ram, a, data, k);
    }
    assert LoadBytes(start, ram', a) == data;
  }

  // ---- rv_access_virt ----

  /** Start of the page after the access's first page, in 64 bits: after the last page comes page 0. */
  function NextPage(vaddr: nat): nat { (vaddr / PAGE + 1) * PAGE % Bits.U64 }

  /** Neither lookup of a crossing access evicts past the entry array. */
  ghost predicate LookupsSafe(mem: Mem, t: Tlb, c: Context, satp: Satp, vaddr: nat, mode: Access) {
    Canonical(satp, NextPage(vaddr)) ==>
      var o0 := CachedLookup(mem, t, c, satp, vaddr / PAGE, mode);
      && o0.filled.Filled?
      && (o0.res == Ok ==> CachedLookup(o0.mem, o0.filled.tlb, c, satp, NextPage(vaddr) / PAGE, mode).filled.Filled?)
  }

  /** Everything an access depends on and leaves; `walked` is RAM once the translations are fixed. */
  datatype Trace = Trace(
    ghost ram0: seq<byte>, ghost t0: Tlb, ghost walked: seq<byte>, ghost ram1: seq<byte>, ghost t1: Tlb,
    ghost res: MemResult, ghost out: seq<byte>)

  /** RAM differs from before in page-table words only, and there as given. */
  ghost predicate WalkedTo(start: nat, ram: seq<byte>, ram': seq<byte>, mem': Mem) {
    Words(start, ram') == mem' && SameEdges(start, ram, ram')
  }

  ghost predicate CrossingDone(start: nat, c: Context, satp: Satp, vaddr: nat, data: seq<byte>, mode: Access, x: Trace)
    requires |data| > PAGE - vaddr % PAGE
  {
    if !Canonical(satp, NextPage(vaddr)) then x.res == PageFault && x.ram1 == x.ram0 && x.t1 == x.t0 && x.out == data else
    var o0 := CachedLookup(Words(start, x.ram0), x.t0, c, satp, vaddr / PAGE, mode);
    o0.filled.Filled? &&
    if o0.res != Ok then
      x.res == o0.res && WalkedTo(start, x.ram0, x.ram1, o0.mem) && x.t1 == o0.filled.tlb && x.out == data else
    var o1 := CachedLookup(o0.mem, o0.filled.tlb, c, satp, NextPage(vaddr) / PAGE, mode);
    o1.filled.Filled? && x.t1 == o1.filled.tlb &&
    if o1.res != Ok then x.res == o1.res && WalkedTo(start, x.ram0, x.ram1, o1.mem) && x.out == data else
    && o0.out.Some? && o1.out.Some? && WalkedTo(start, x.ram0, x.walked, o1.mem)
    && (x.res, x.out, x.ram1) == PairAccessed(start, x.walked, o0.out.value, o1.out.value, vaddr, data, mode)
  }

  ghost predicate SinglePageDone(start: nat, c: Context, satp: Satp, vaddr: nat, data: seq<byte>, mode: Access, x: Trace) {
    var o := CachedLookup(Words(start, x.ram0), x.t0, c, satp, vaddr / PAGE, mode);
    o.filled.Filled? && x.t1 == o.filled.tlb &&
    if o.res != Ok then x.res == o.res && WalkedTo(start, x.ram0, x.ram1, o.mem) && x.out == data else
    && o.out.Some? && WalkedTo(start, x.ram0, x.walked, o.mem)
    && (x.res, x.out, x.ram1) == Accessed(start, x.walked, Physical(o.out.value, vaddr), data, mode)
  }

  /** A crossing access that faults in either translation has changed no data: RAM differs in the A/D bits of page-table
      words and nowhere else. */
  lemma FaultWritesNoData(start: nat, c: Context, satp: Satp, vaddr: nat, data: seq<byte>, mode: Access, x: Trace)
    requires |data| > PAGE - vaddr % PAGE && CrossingDone(start, c, satp, vaddr, data, mode, x)
    requires var o0 := CachedLookup(Words(start, x.ram0), x.t0, c, satp, vaddr / PAGE, mode);
      !Canonical(satp, NextPage(vaddr)) || o0.res != Ok ||
      CachedLookup(o0.mem, o0.filled.tlb, c, satp, NextPage(vaddr) / PAGE, mode).res != Ok
    ensures OnlyADSet(Words(start, x.ram0), Words(start, x.ram1)) && SameEdges(start, x.ram0, x.ram1)
    ensures x.res != Ok && x.out == data
  {
    var mem := Words(start, x.ram0);
    NothingIsOnlyAD(mem);
    var o0 := CachedLookup(mem, x.t0, c, satp, vaddr / PAGE, mode);
    CachedWritesOnlyAD(mem, x.t0, c, satp, vaddr / PAGE, mode);
    if Canonical(satp, NextPage(vaddr)) && o0.res == Ok {
      CachedWritesOnlyAD(o0.mem, o0.filled.tlb, c, satp, NextPage(vaddr) / PAGE, mode);
    }
  }

  /** A fault in the first translation has changed no byte at all. */
  lemma FirstFaultWritesNothing(start: nat, c: Context, satp: Satp, vaddr: nat, data: seq<byte>, mode: Access, x: Trace)
    requires |data| > PAGE - vaddr % PAGE && CrossingDone(start, c, satp, vaddr, data, mode, x)
    requires CachedLookup(Words(start, x.ram0), x.t0, c, satp, vaddr / PAGE, mode).res != Ok
    ensures x.ram1 == x.ram0
  {
    CachedWritesOnlyAD(Words(start, x.ram0), x.t0, c, satp, vaddr / PAGE, mode);
    if Canonical(satp, NextPage(vaddr)) { WordsAndEdgesDetermine(start, x.ram0, x.ram1); }
  }

  lemma EdgesChain(start: nat, r: seq<byte>, r1: seq<byte>, r2: seq<byte>)
    requires SameEdges(start, r, r1) && SameEdges(start, r1, r2)
    ensures SameEdges(start, r, r2)
  {}

  /** `rv_access_virt_pageboundary`; not `kept` if one of its lookups overruns. */
  method AccessPageBoundary(m: Machine, t: TlbUnit, c: Context, satp: Satp, vaddr: nat, data: seq<byte>, mode: Access)
    returns (res: MemResult, out: seq<byte>, kept: bool, ghost walked: seq<byte>)
    requires t.Valid() && m.Bounded() && satp.ppn < PPN_LIMIT && PAGE - vaddr % PAGE < |data| <= 8
    modifies m.ram, t, t.entries, t.valid
    ensures t.Valid() && kept == LookupsSafe(old(m.Mem()), old(t.State()), c, satp, vaddr, mode)
    ensures kept ==> CrossingDone(m.ramStart, c, satp, vaddr, data, mode,
      Trace(old(m.ram[..]), old(t.State()), walked, m.ram[..], t.State(), res, out))
  {
    out, walked, kept := data, m.ram[..], true;
    var vaddr1 := NextPage(vaddr);
    if !Canonical(satp, vaddr1) { return PageFault, data, true, walked; }
    var e0, e1;
    res, e0, kept := LookupIn(m, t, c, satp, vaddr, mode);
    walked := m.ram[..];
    if !kept || res != Ok { return; }
    res, e1, kept := LookupIn(m, t, c, satp, vaddr1, mode);
    EdgesChain(m.ramStart, old(m.ram[..]), walked, m.ram[..]);
    walked := m.ram[..];
    if !kept || res != Ok { return; }
    res, out := AccessPair(m, e0, e1, vaddr, data, mode);
  }

  method AccessSinglePage(m: Machine, t: TlbUnit, c: Context, satp: Satp, vaddr: nat, data: seq<byte>, mode: Access)
    returns (res: MemResult, out: seq<byte>, kept: bool, ghost walked: seq<byte>)
    requires t.Valid() && m.Bounded() && satp.ppn < PPN_LIMIT && 1 <= |data| <= 8
    modifies m.ram, t, t.entries, t.valid
    ensures t.Valid() && kept == CachedLookup(old(m.Mem()), old(t.State()), c, satp, vaddr / PAGE, mode).filled.Filled?
    ensures kept ==> SinglePageDone(m.ramStart, c, satp, vaddr, data, mode,
      Trace(old(m.ram[..]), old(t.State()), walked, m.ram[..], t.State(), res, out))
  {
    var e, escaped;
    out := data;
    res, e, kept := LookupIn(m, t, c, satp, vaddr, mode);
    walked := m.ram[..];
    if !kept || res != Ok { return; }
    PhysicalSmall(e, vaddr);
    res, out, escaped := m.AccessPhys(Physical(e, vaddr), data, mode);
  }

  function PmpBit(mode: Access): bv8 {
    match mode case Insn => PMP_X case Load => PMP_R case _ => PMP_W
  }

  predicate Crosses(vaddr: nat, size: nat) { vaddr % PAGE + size > PAGE }

  /** Section 4.4.1 of the RISC-V Privileged ISA: translation is off in M-mode (for data, as adjusted by MPRV) and in Bare mode. */
  predicate Untranslated(privilege: nat, memPrivilege: nat, satp: Satp, mode: Access) {
    (if mode == Insn then privilege else memPrivilege) == 3 || satp.mode == 0
  }

  /** The translated part of `rv_access_virt`. */
  ghost predicate TranslatedDone(start: nat, c: Context, satp: Satp, vaddr: nat, data: seq<byte>, mode: Access, x: Trace) {
    if !Canonical(satp, vaddr) then x.res == PageFault && x.ram1 == x.ram0 && x.t1 == x.t0 && x.out == data
    else if Crosses(vaddr, |data|) then CrossingDone(start, c, satp, vaddr, data, mode, x)
    else SinglePageDone(start, c, satp, vaddr, data, mode, x)
  }

  /** The lookups of the access do not evict past the entry array. */
  ghost predicate AccessSafe(mem: Mem, t: Tlb, c: Context, satp: Satp, vaddr: nat, size: nat, mode: Access) {
    Canonical(satp, vaddr) ==>
      if Crosses(vaddr, size) then LookupsSafe(mem, t, c, satp, vaddr, mode)
      else CachedLookup(mem, t, c, satp, vaddr / PAGE, mode).filled.Filled?
  }

  /** The code's test, on the 64-bit address of the last byte, tells whether the access crosses a page, even the last one. */
  predicate EndsElsewhere(vaddr: Word, size: nat): (b: bool)
    requires 1 <= size <= 8
    ensures b <==> Crosses(vaddr, size)
  {
    CrossingMovesOn(vaddr, size);
    vaddr / PAGE != (vaddr + size - 1) % Bits.U64 / PAGE
  }

  lemma CrossingMovesOn(vaddr: Word, size: nat)
    requires 1 <= size <= 8
    ensures Crosses(vaddr, size) <==> vaddr / PAGE != (vaddr + size - 1) % Bits.U64 / PAGE
  {
    var q, r := vaddr / PAGE, vaddr % PAGE;
    assert vaddr == q * PAGE + r;
    if vaddr + size - 1 >= Bits.U64 {
      assert (vaddr + size - 1) % Bits.U64 < 8 && q == 0xF_FFFF_FFFF_FFFF;
    } else if Crosses(vaddr, size) {
      assert (vaddr + size - 1) == (q + 1) * PAGE + (r + size - 1 - PAGE);
    } else {
      assert (vaddr + size - 1) == q * PAGE + (r + size - 1);
    }
  }

  /** What the access does once its address is known to be canonical. */
  method AccessCanonical(m: Machine, t: TlbUnit, c: Context, satp: Satp, vaddr: Word, crosses: bool, data: seq<byte>, mode: Access)
    returns (res: MemResult, out: seq<byte>, kept: bool, ghost walked: seq<byte>)
    requires t.Valid() && m.Bounded() && satp.ppn < PPN_LIMIT && 1 <= |data| <= 8
    requires Canonical(satp, vaddr) && crosses == Crosses(vaddr, |data|)
    modifies m.ram, t, t.entries, t.valid
    ensures t.Valid() && kept == AccessSafe(old(m.Mem()), old(t.State()), c, satp, vaddr, |data|, mode)
    ensures kept ==> TranslatedDone(m.ramStart, c, satp, vaddr, data, mode,
      Trace(old(m.ram[..]), old(t.State()), walked, m.ram[..], t.State(), res, out))
  {
    if crosses {
      res, out, kept, walked := AccessPageBoundary(m, t, c, satp, vaddr, data, mode);
    } else {
      res, out, kept, walked := AccessSinglePage(m, t, c, satp, vaddr, data, mode);
    }
  }

  method AccessTranslated(m: Machine, t: TlbUnit, c: Context, satp: Satp, vaddr: Word, data: seq<byte>, mode: Access)
    returns (res: MemResult, out: seq<byte>, kept: bool, ghost walked: seq<byte>)
    requires t.Valid() && m.Bounded() && satp.ppn < PPN_LIMIT && 1 <= |data| <= 8
    modifies m.ram, t, t.entries, t.valid
    ensures t.Valid() && kept == AccessSafe(old(m.Mem()), old(t.State()), c, satp, vaddr, |data|, mode)
    ensures kept ==> TranslatedDone(m.ramStart, c, satp, vaddr, data, mode,
      Trace(old(m.ram[..]), old(t.State()), walked, m.ram[..], t.State(), res, out))
  {
    out, walked := data, m.ram[..];
    if !Canonical(satp, vaddr) { return PageFault, data, true, walked; }
    res, out, kept, walked := AccessCanonical(m, t, c, satp, vaddr, EndsElsewhere(vaddr, |data|), data, mode);
  }

  /** Without translation: PMP for the current privilege, then the physical access. */
  function BareAccessed(start: nat, ram: seq<byte>, perm: bv8, addr: nat, data: seq<byte>, mode: Access)
    : (MemResult, seq<byte>, seq<byte>)
  {
    if perm & PmpBit(mode) == 0 then (AccessFault, data, ram) else Accessed(start, ram, addr, data, mode)
  }

  /** PMP grants the access and RAM's bounds test lets it through although it lies outside RAM. */
  predicate BareEscapes(start: Word, end: Word, perm: bv8, addr: Word, size: nat, mode: Access) {
    perm & PmpBit(mode) != 0 && Escapes(start, end, addr, size)
  }

  method AccessBare(m: Machine, regs: Pmp.Regs, mMode: bool, addr: Word, data: seq<byte>, mode: Access)
    returns (res: MemResult, out: seq<byte>, inside: bool)
    requires m.Bounded() && 1 <= |data| <= 8
    modifies m.ram
    ensures var perm := Pmp.Check(regs, addr, |data|, mMode);
      && inside == !BareEscapes(m.ramStart, m.ramStart + m.ram.Length, perm, addr, |data|, mode)
      && (inside ==> (res, out, m.ram[..]) == BareAccessed(m.ramStart, old(m.ram[..]), perm, addr, data, mode))
  {
    var perm := Pmp.PmpCheck(regs, addr, |data|, mMode);
    if perm & PmpBit(mode) == 0 { return AccessFault, data, true; }
    var escaped;
    res, out, escaped := m.AccessPhys(addr, data, mode);
    inside := !escaped;
  }

  lemma {:induction false} NothingLocked(r: Pmp.Regs, i: nat, p0: Word, p1: Word)
    requires i <= Pmp.ENTRIES && forall k :: 0 <= k < Pmp.ENTRIES ==> r.cfg[k] == 0
    ensures Pmp.CheckFrom(r, i, p0, p1, true) == 7
    decreases Pmp.ENTRIES - i
  {
    if i < Pmp.ENTRIES { NothingLocked(r, i + 1, p0, p1); }
  }

  /** From reset, an M-mode access to the last eight bytes of the address space escapes, wherever RAM lies below them. */
  lemma LastWordEscapes(m: Machine, mode: Access)
    requires m.Bounded() && m.ramStart <= 0xFFFF_FFFF_FFFF_FFF8
    ensures BareEscapes(m.ramStart, m.ramStart + m.ram.Length, Pmp.Check(NoPmp(), 0xFFFF_FFFF_FFFF_FFF8, 8, true), 0xFFFF_FFFF_FFFF_FFF8, 8, mode)
    ensures !InRam(m.ramStart, m.ram[..], 0xFFFF_FFFF_FFFF_FFF8, 8)
  {
    NothingLocked(NoPmp(), 0, 0xFFFF_FFFF_FFFF_FFF8, 0xFFFF_FFFF_FFFF_FFFF);
  }

  /** What an access of hart `h` leaves, and whether it is `defined`: not when a lookup overruns or an untranslated access
      escapes RAM, where the C program writes or reads outside its arrays. */
  ghost predicate VirtDone(start: Word, end: Word, h: HartState, vaddr: Word, data: seq<byte>, mode: Access, x: Trace, defined: bool)
    requires |data| < 16
  {
    var c, satp := WalkContext(h.csr, h.memPrivilege), SatpFields(h.csr.satp);
    if Untranslated(h.privilege, h.memPrivilege, satp, mode) then
      var perm := Pmp.Check(h.csr.pmp, vaddr, |data|, h.privilege == 3);
      && defined == !BareEscapes(start, end, perm, vaddr, |data|, mode) && x.t1 == x.t0
      && (defined ==> (x.res, x.out, x.ram1) == BareAccessed(start, x.ram0, perm, vaddr, data, mode))
    else
      && defined == AccessSafe(Words(start, x.ram0), x.t0, c, satp, vaddr, |data|, mode)
      && (defined ==> TranslatedDone(start, c, satp, vaddr, data, mode, x))
  }

  /** `rv_access_virt` for an access of 1, 2, 4 or 8 bytes at any 64-bit address. */
  method AccessVirt(m: Machine, cpu: Hart, vaddr: Word, data: seq<byte>, mode: Access)
    returns (res: MemResult, out: seq<byte>, defined: bool, ghost walked: seq<byte>)
    requires cpu.Valid() && m.Bounded() && |data| in {1, 2, 4, 8}
    modifies m.ram, cpu.tlb, cpu.tlb.entries, cpu.tlb.valid
    ensures cpu.Valid()
    ensures VirtDone(m.ramStart, m.ramStart + m.ram.Length, old(cpu.State()), vaddr, data, mode,
      Trace(old(m.ram[..]), old(cpu.tlb.State()), walked, m.ram[..], cpu.tlb.State(), res, out), defined)
  {
    walked := m.ram[..];
    var satp := SatpFields(cpu.csr.satp);
    if Untranslated(cpu.privilege, cpu.memPrivilege, satp, mode) {
      res, out, defined := AccessBare(m, cpu.csr.pmp, cpu.privilege == 3, vaddr, data, mode);
    } else {
      var c := WalkContext(cpu.csr, cpu.memPrivilege);
      res, out, defined, walked := AccessTranslated(m, cpu.tlb, c, satp, vaddr, data, mode);
    }
  }
}
