/** Runs that break what sixteen evictions leave intact, and a fence that misses a superpage's other slices. */
module TlbWitness {
  import opened Types
  import opened Sv39
  import opened Tlb
  import opened TlbProofs
  import opened TlbLimits
  import opened TlbRuns
  import opened TlbShootdown

  // ---- One gigapage, read by one hart ----

  function GigaLeaf(ppn: nat): Pte { Pte(0xCF, 0, ppn, 0) }

  /** A root table at page 0 whose first entry maps the lowest gigabyte. */
  function OneGigapage(ppn: nat): Mem { map[0 := GigaLeaf(ppn)] }

  function RootZero(): Satp { Satp(8, 0, 0) }

  function LowHalf(): Halves { _ => 0 }

  /** The machine once the hart has turned translation on. */
  function Running(t: Tlb): Sys { Sys(OneGigapage(0), [Mmu(RootZero(), t)], OneRoot(0), LowHalf()) }

  function AtReset(): Sys { Sys(OneGigapage(0), [Mmu(Satp(0, 0, 0), EmptyTlb())], OneRoot(0), LowHalf()) }

  function Look(vpn: nat): Op { Translate(0, Permissive(), vpn * PAGE, Load) }

  /** What a lookup of the page caches. */
  function Cached(vpn: nat): TlbEntry { TlbEntry(vpn, 0, 7, GigaLeaf(vpn)) }

  lemma GigaWalk(ppn: nat, vpn: nat)
    requires vpn < 262144 && ppn % 262144 == 0
    ensures Walk(OneGigapage(ppn), 0, vpn) == Leaf(0, 2, GigaLeaf(ppn))
    ensures Tag(vpn) == vpn && Bit38(vpn) == 0
  {}

  lemma GigaLookup(vpn: nat)
    requires vpn < 262144
    ensures RawLookup(OneGigapage(0), Permissive(), RootZero(), vpn, Load) == Raw(Ok, Some(Cached(vpn)), OneGigapage(0))
  {
    GigaWalk(0, vpn);
    RawLookupIsWalk(OneGigapage(0), Permissive(), RootZero(), vpn, Load);
    assert PathReadable(OneGigapage(0), Permissive(), vpn, 0, 2);
  }

  /** A page that no live entry answers for is walked and cached. */
  lemma FreshLookup(t: Tlb, vpn: nat)
    requires vpn < 262144 && NoMatch(t, vpn, 0)
    ensures LookupAt(Running(t), Look(vpn)) == Outcome(Ok, Some(Cached(vpn)), OneGigapage(0), Fill(t, Row(vpn), Cached(vpn)))
  {
    GigaLookup(vpn);
    NoMatchMisses(t, vpn, 0, PTE_A);
    assert Look(vpn).vaddr / PAGE == vpn;
  }

  // ---- Sweeping one row ----

  /** Lookups of the first `k` pages of the row, in order. */
  function Sweep(row: nat, k: nat): seq<Op> {
    if k == 0 then [] else Sweep(row, k - 1) + [Look(row + 16 * (k - 1))]
  }

  /** The TLB after `k` lookups of the row have met `t0`, whose row was empty and whose counter was zero. */
  ghost predicate Swept(t0: Tlb, t: Tlb, row: nat, k: nat) {
    && (forall i :: 0 <= i < SLOTS && i / COLUMNS == row ==>
          (t.valid[i] <==> i < row * COLUMNS + k) && (t.valid[i] ==> t.entries[i].tag < row + 16 * k))
    && t.nextColumn == (if k <= COLUMNS then 0 else k - COLUMNS)
    && (forall i :: 0 <= i < SLOTS && i / COLUMNS != row ==> t.valid[i] == t0.valid[i] && t.entries[i] == t0.entries[i])
  }

  lemma {:induction false} FreeFromIs(t: Tlb, slot: nat, end: nat, m: nat)
    requires slot <= m < end <= SLOTS && !t.valid[m] && forall j :: slot <= j < m ==> t.valid[j]
    ensures FreeFrom(t, slot, end) == m
    decreases end - slot
  {
    if slot < m { FreeFromIs(t, slot + 1, end, m); }
  }

  lemma SweptFill(t0: Tlb, t: Tlb, row: nat, k: nat, e: TlbEntry)
    requires row < ROWS && k < 32 && Swept(t0, t, row, k) && e.tag == row + 16 * k
    ensures Fill(t, row, e).Filled? && Swept(t0, Fill(t, row, e).tlb, row, k + 1)
  {
    var first := row * COLUMNS;
    if k < COLUMNS { FreeFromIs(t, first, first + COLUMNS, first + k); }
  }

  lemma RowOf(row: nat, k: nat)
    requires row < ROWS
    ensures Row(row + 16 * k) == row
  {
    Shift16(k, row);
  }

  lemma SweptLookup(t0: Tlb, t: Tlb, row: nat, k: nat)
    requires row < ROWS && k <= 32 && Swept(t0, t, row, k)
    ensures LookupAt(Running(t), Look(row + 16 * k)) ==
      Outcome(Ok, Some(Cached(row + 16 * k)), OneGigapage(0), Fill(t, row, Cached(row + 16 * k)))
  {
    var vpn := row + 16 * k;
    RowOf(row, k);
    GigaWalk(0, vpn);
    assert NoMatch(t, vpn, 0);
    FreshLookup(t, vpn);
  }

  ghost predicate Whole(s: Sys, ops: seq<Op>) { Runnable(s, ops) && Completes(s, ops) }

  ghost function Run(s: Sys, ops: seq<Op>): Sys
    requires Whole(s, ops)
    decreases |ops|
  {
    if ops == [] then s else Run(Step(s, ops[0]), ops[1..])
  }

  lemma {:induction false} RunsJoin(s: Sys, a: seq<Op>, b: seq<Op>)
    requires Whole(s, a) && Whole(Run(s, a), b)
    ensures Whole(s, a + b) && Run(s, a + b) == Run(Run(s, a), b)
    decreases |a|
  {
    if a == [] {
      assert a + b == b;
    } else {
      RunsJoin(Step(s, a[0]), a[1..], b);
      assert (a + b)[0] == a[0] && (a + b)[1..] == a[1..] + b;
    }
  }

  lemma OneStep(s: Sys, op: Op)
    requires Enabled(s, op) && !Overruns(s, op)
    ensures Whole(s, [op]) && Run(s, [op]) == Step(s, op)
  {
    assert [op][1..] == [];
  }

  lemma LookStep(t: Tlb, vpn: nat)
    requires vpn < 262144 && LookupAt(Running(t), Look(vpn)).filled.Filled? && LookupAt(Running(t), Look(vpn)).mem == OneGigapage(0)
    ensures Enabled(Running(t), Look(vpn)) && !Overruns(Running(t), Look(vpn))
    ensures Step(Running(t), Look(vpn)) == Running(LookupAt(Running(t), Look(vpn)).filled.tlb)
  {
    GigaWalk(0, vpn);
    assert Look(vpn).vaddr / PAGE == vpn;
  }

  /** The operations lead the running machine from TLB `t0` to TLB `t`. */
  ghost predicate Leads(t0: Tlb, ops: seq<Op>, t: Tlb) { Whole(Running(t0), ops) && Run(Running(t0), ops) == Running(t) }

  lemma LeadsOn(t0: Tlb, a: seq<Op>, t1: Tlb, b: seq<Op>, t: Tlb, ops: seq<Op>)
    requires Leads(t0, a, t1) && Leads(t1, b, t) && ops == a + b
    ensures Leads(t0, ops, t)
  {
    RunsJoin(Running(t0), a, b);
  }

  lemma LeadsNowhere(t: Tlb)
    ensures Leads(t, [], t)
  {}

  lemma SweepOnce(t0: Tlb, before: Tlb, row: nat, k: nat, vpn: nat) returns (t: Tlb)
    requires row < ROWS && k < 32 && Swept(t0, before, row, k) && vpn == row + 16 * k
    ensures Leads(before, [Look(vpn)], t) && Swept(t0, t, row, k + 1)
  {
    SweptLookup(t0, before, row, k);
    SweptFill(t0, before, row, k, Cached(vpn));
    LookStep(before, vpn);
    OneStep(Running(before), Look(vpn));
    t := Fill(before, row, Cached(vpn)).tlb;
  }

  lemma SweepFurther(t0: Tlb, before: Tlb, row: nat, k: nat) returns (t: Tlb)
    requires row < ROWS && k < 32 && Leads(t0, Sweep(row, k), before) && Swept(t0, before, row, k)
    ensures Leads(t0, Sweep(row, k + 1), t) && Swept(t0, t, row, k + 1)
  {
    t := SweepOnce(t0, before, row, k, row + 16 * k);
    LeadsOn(t0, Sweep(row, k), before, [Look(row + 16 * k)], t, Sweep(row, k + 1));
  }

  lemma {:induction false} SweepRuns(t0: Tlb, row: nat, k: nat) returns (t: Tlb)
    requires row < ROWS && k <= 32 && Swept(t0, t0, row, 0)
    ensures Leads(t0, Sweep(row, k), t) && Swept(t0, t, row, k)
    decreases k
  {
    if k == 0 {
      t := t0;
      LeadsNowhere(t0);
    } else {
      var before := SweepRuns(t0, row, k - 1);
      t := SweepFurther(t0, before, row, k - 1);
    }
  }

  function TurnOn(): Op { SetSatp(0, RootZero()) }

  /** The operations lead from reset to the running machine with TLB `t`. */
  ghost predicate Reaches(ops: seq<Op>, t: Tlb) { Whole(AtReset(), ops) && Run(AtReset(), ops) == Running(t) }

  lemma TurnedOn()
    ensures Inv(AtReset()) && Reaches([TurnOn()], EmptyTlb())
  {
    ResetOk(AtReset());
    assert WriteSatp(Mmu(Satp(0, 0, 0), EmptyTlb()), RootZero()) == Mmu(RootZero(), EmptyTlb());
    assert Step(AtReset(), TurnOn()) == Running(EmptyTlb());
    OneStep(AtReset(), TurnOn());
  }

  lemma ReachesOn(ops: seq<Op>, t: Tlb, more: seq<Op>, t': Tlb)
    requires Reaches(ops, t) && Leads(t, more, t')
    ensures Reaches(ops + more, t')
  {
    RunsJoin(AtReset(), ops, more);
  }

  lemma ReachesLook(ops: seq<Op>, t: Tlb, vpn: nat)
    requires Reaches(ops, t) && vpn < 262144 && NoMatch(t, vpn, 0) && Fill(t, Row(vpn), Cached(vpn)).Filled?
    ensures Reaches(ops + [Look(vpn)], Fill(t, Row(vpn), Cached(vpn)).tlb)
  {
    FreshLookup(t, vpn);
    LookStep(t, vpn);
    OneStep(Running(t), Look(vpn));
    ReachesOn(ops, t, [Look(vpn)], Fill(t, Row(vpn), Cached(vpn)).tlb);
  }

  /** From reset, after 32 lookups of pages in the last row, sixteen of them evicting, the next one writes past the array. */
  lemma OverrunReached(row: nat, lookups: nat) returns (t: Tlb)
    requires row == 15 && lookups == 32
    ensures Reaches([TurnOn()] + Sweep(row, lookups), t) && LookupAt(Running(t), Look(row + 16 * lookups)).filled == Overrun
  {
    TurnedOn();
    t := SweepRuns(EmptyTlb(), row, lookups);
    ReachesOn([TurnOn()], EmptyTlb(), Sweep(row, lookups), t);
    SweptLookup(EmptyTlb(), t, row, lookups);
    SweptFull(EmptyTlb(), t, row, lookups);
  }

  /** The row has been filled, and the counter has run past the last slot. */
  lemma SweptFull(t0: Tlb, t: Tlb, row: nat, k: nat)
    requires row == 15 && k == 32 && Swept(t0, t, row, k)
    ensures Fill(t, row, Cached(row + 16 * k)) == Overrun
  {
    assert RowLive(t, row);
    FreeIsFirst(t, row);
  }

  lemma FirstPage() returns (t: Tlb)
    ensures Reaches([TurnOn()] + [Look(1)], t) && t.valid[16] && t.entries[16] == Cached(1) && Swept(t, t, 0, 0)
  {
    TurnedOn();
    assert NoMatch(EmptyTlb(), 1, 0);
    FreeFromIs(EmptyTlb(), 16, 32, 16);
    ReachesLook([TurnOn()], EmptyTlb(), 1);
    t := Fill(EmptyTlb(), 1, Cached(1)).tlb;
  }

  /** From reset, a page of row 1 and then 33 pages of row 0: the last eviction puts a live entry into row 1. */
  lemma DisplacementReached(row: nat, lookups: nat) returns (t: Tlb)
    requires row == 0 && lookups == 32
    ensures Reaches([TurnOn()] + [Look(1)] + Sweep(row, lookups) + [Look(512)], t) && !Placed(t)
  {
    var t1 := FirstPage();
    var t2 := SweepRuns(t1, row, lookups);
    ReachesOn([TurnOn()] + [Look(1)], t1, Sweep(row, lookups), t2);
    t := Displaced(t1, t2);
    ReachesLook([TurnOn()] + [Look(1)] + Sweep(row, lookups), t2, 512);
  }

  lemma Displaced(t0: Tlb, t: Tlb) returns (t': Tlb)
    requires t0.valid[16] && Swept(t0, t, 0, 32)
    ensures NoMatch(t, 512, 0) && Fill(t, 0, Cached(512)) == Filled(t') && Row(512) == 0 && !Placed(t')
  {
    RowOf(0, 32);
    GigaWalk(0, 512);
    assert RowLive(t, 0);
    FreeIsFirst(t, 0);
    t' := Fill(t, 0, Cached(512)).tlb;
    assert t'.valid[16] && t'.entries[16] == Cached(512);
  }

  // ---- A superpage ----

  /** Both pages are cached as slices of the gigapage. */
  ghost predicate TwoSlices(t: Tlb) {
    t.valid[16] && t.entries[16] == Cached(1) && t.valid[0] && t.entries[0] == Cached(0)
  }

  lemma TwoSlicesReached() returns (t: Tlb)
    ensures Reaches([TurnOn()] + [Look(1)] + [Look(0)], t) && TwoSlices(t)
  {
    var t1 := FirstPage();
    RowOf(0, 0);
    assert NoMatch(t1, 0, 0);
    FreeFromIs(t1, 0, 16, 0);
    ReachesLook([TurnOn()] + [Look(1)], t1, 0);
    t := Fill(t1, 0, Cached(0)).tlb;
  }

  /** The second page still translates to the old frame. */
  ghost predicate MissesSlice(t: Tlb) {
    var s := Edited(Running(t), 0, GigaLeaf(262144), Operands(0, 0, true, false));
    && Walk(s.mem, 0, 1) == Leaf(0, 2, GigaLeaf(262144))
    && LookupAt(s, Look(1)).res == Ok && LookupAt(s, Look(1)).out == Some(Cached(1))
  }

  lemma TwoSlicesMissed(t: Tlb)
    requires TwoSlices(t)
    ensures MissesSlice(t)
  {
    var m := Fenced(Mmu(RootZero(), t), Operands(0, 0, true, false));
    GigaWalk(262144, 1);
    assert m.tlb.valid[16] && m.tlb.entries[16] == Cached(1);
    assert OneGigapage(0)[0 := GigaLeaf(262144)] == OneGigapage(262144);
    assert Look(1).vaddr / PAGE == 1;
    FirstSlotHits(m.tlb);
  }

  /** From reset, two pages of one gigapage are looked up, the gigapage's entry is replaced and the first page's address
      fenced on the only hart: the second page still translates to the old frame. */
  lemma SuperpageFenceMissesSlice() returns (t: Tlb)
    ensures Reaches([TurnOn()] + [Look(1)] + [Look(0)], t) && MissesSlice(t)
  {
    t := TwoSlicesReached();
    TwoSlicesMissed(t);
  }

  lemma FirstSlotHits(t: Tlb)
    requires t.valid[16] && t.entries[16] == Cached(1)
    ensures ProbeRow(t, 1, 0, PTE_A) == Hit(Cached(1))
  {
    GigaWalk(0, 1);
  }
}
