/** The structure of the TLB over whole runs: right for sixteen evictions a hart, and broken by the next. */
module TlbRuns {
  import opened Types
  import opened Sv39
  import opened Tlb
  import opened TlbProofs
  import opened TlbLimits

  // ---- When a lookup evicts and when it overruns ----

  predicate RowLive(t: Tlb, row: nat)
    requires row < ROWS
  {
    forall i :: row * COLUMNS <= i < row * COLUMNS + COLUMNS ==> t.valid[i]
  }

  /** No live entry answers, the page walk succeeds, and every column of the row is live. */
  ghost predicate Evicts(mem: Mem, t: Tlb, c: Context, satp: Satp, vpn: nat, mode: Access) {
    NoMatch(t, vpn, satp.asid) && RawLookup(mem, c, satp, vpn, mode).res == Ok && RowLive(t, Row(vpn))
  }

  lemma FreeIsFirst(t: Tlb, row: nat)
    requires row < ROWS
    ensures RowFull(t, row) <==> RowLive(t, row)
  {
    var first := row * COLUMNS;
    assert FreeFrom(t, first, first + COLUMNS) < first + COLUMNS ==> !t.valid[FreeFrom(t, first, first + COLUMNS)];
  }

  lemma NoMatchMisses(t: Tlb, vpn: nat, asid: nat, fl: bv8)
    ensures NoMatch(t, vpn, asid) <==> ProbeRow(t, vpn, asid, fl).Miss?
  {
    ProbeFinds(t, Row(vpn) * COLUMNS, Row(vpn) * COLUMNS + COLUMNS, vpn, asid, fl);
    if ProbeRow(t, vpn, asid, fl).Miss? { ProbeMisses(t, vpn, asid, fl); }
    if ProbeRow(t, vpn, asid, fl).Stale? { ProbeIsStale(t, vpn, asid, fl); }
  }

  lemma DroppedRowNotLive(t: Tlb, slot: nat)
    requires slot < SLOTS
    ensures !RowLive(DropSlot(t, slot), slot / COLUMNS)
  {
    assert !DropSlot(t, slot).valid[slot];
  }

  lemma RefillCounts(mem: Mem, t: Tlb, c: Context, satp: Satp, vpn: nat, mode: Access)
    ensures var o := Refill(mem, t, c, satp, vpn, mode);
      var evicts := RawLookup(mem, c, satp, vpn, mode).res == Ok && RowLive(t, Row(vpn));
      && (o.filled == Overrun <==> evicts && Row(vpn) * COLUMNS + t.nextColumn >= SLOTS)
      && (o.filled.Filled? ==> o.filled.tlb.nextColumn == if evicts then (t.nextColumn + 1) % 256 else t.nextColumn)
  {
    if RawLookup(mem, c, satp, vpn, mode).res == Ok { WalkRefines(mem, c, satp, vpn, mode); }
    FreeIsFirst(t, Row(vpn));
  }

  /** A lookup writes past the entry array exactly when it evicts while the counter points beyond the last row; otherwise
      the counter counts evictions. */
  lemma LookupOverrunsExactly(mem: Mem, t: Tlb, c: Context, satp: Satp, vpn: nat, mode: Access)
    ensures var o := CachedLookup(mem, t, c, satp, vpn, mode); var evicts := Evicts(mem, t, c, satp, vpn, mode);
      && (o.filled == Overrun <==> evicts && Row(vpn) * COLUMNS + t.nextColumn >= SLOTS)
      && (o.filled.Filled? ==> o.filled.tlb.nextColumn == if evicts then (t.nextColumn + 1) % 256 else t.nextColumn)
  {
    NoMatchMisses(t, vpn, satp.asid, Required(mode));
    match ProbeRow(t, vpn, satp.asid, Required(mode)) {
      case Hit(_) =>
      case Miss => RefillCounts(mem, t, c, satp, vpn, mode);
      case Stale(slot) =>
        ProbeIsStale(t, vpn, satp.asid, Required(mode));
        DroppedRowNotLive(t, slot);
        RefillCounts(mem, DropSlot(t, slot), c, satp, vpn, mode);
    }
  }

  // ---- Placement over runs ----

  /** Every live entry sits in its row, and no two live entries could answer one lookup. */
  ghost predicate Structured(t: Tlb) {
    && Placed(t)
    && forall i, j :: 0 <= i < SLOTS && 0 <= j < SLOTS && i != j && t.valid[i] && t.valid[j] ==> !Conflict(t.entries[i], t.entries[j])
  }

  lemma PlacedIsStructured(t: Tlb)
    requires Placed(t) && Unique(t)
    ensures Structured(t)
  {
    forall i, j | 0 <= i < SLOTS && 0 <= j < SLOTS && i != j && t.valid[i] && t.valid[j]
      ensures !Conflict(t.entries[i], t.entries[j])
    {
      if t.entries[i].tag == t.entries[j].tag { assert Home(t, i) && i / COLUMNS == j / COLUMNS; }
    }
  }

  lemma RefillPlaced(mem: Mem, t: Tlb, c: Context, satp: Satp, vpn: nat, mode: Access)
    requires Placed(t) && (RowLive(t, Row(vpn)) ==> t.nextColumn < COLUMNS)
    ensures var o := Refill(mem, t, c, satp, vpn, mode); o.filled.Filled? ==> Placed(o.filled.tlb)
  {
    var r := RawLookup(mem, c, satp, vpn, mode);
    if r.res == Ok && Fill(t, Row(vpn), r.out.value).Filled? {
      WalkRefines(mem, c, satp, vpn, mode);
      RowOfTag(vpn);
      FreeIsFirst(t, Row(vpn));
      PlacementKeptExactly(t, Row(vpn), r.out.value);
    }
  }

  lemma StaleRefillPlaced(mem: Mem, t: Tlb, c: Context, satp: Satp, vpn: nat, mode: Access, slot: nat)
    requires Placed(t) && slot < SLOTS && slot / COLUMNS == Row(vpn)
    ensures var o := Refill(mem, DropSlot(t, slot), c, satp, vpn, mode); o.filled.Filled? ==> Placed(o.filled.tlb)
  {
    DroppedRowNotLive(t, slot);
    RefillPlaced(mem, DropSlot(t, slot), c, satp, vpn, mode);
  }

  lemma MissRefillPlaced(mem: Mem, t: Tlb, c: Context, satp: Satp, vpn: nat, mode: Access)
    requires Placed(t) && NoMatch(t, vpn, satp.asid) && (Evicts(mem, t, c, satp, vpn, mode) ==> t.nextColumn < COLUMNS)
    ensures var o := Refill(mem, t, c, satp, vpn, mode); o.filled.Filled? ==> Placed(o.filled.tlb)
  {
    if RawLookup(mem, c, satp, vpn, mode).res == Ok { RefillPlaced(mem, t, c, satp, vpn, mode); }
  }

  lemma LookupKeepsPlaced(mem: Mem, t: Tlb, c: Context, satp: Satp, vpn: nat, mode: Access)
    requires Placed(t) && (Evicts(mem, t, c, satp, vpn, mode) ==> t.nextColumn < COLUMNS)
    ensures var o := CachedLookup(mem, t, c, satp, vpn, mode); o.filled.Filled? ==> Placed(o.filled.tlb)
  {
    match ProbeRow(t, vpn, satp.asid, Required(mode)) {
      case Hit(_) =>
      case Miss =>
        NoMatchMisses(t, vpn, satp.asid, Required(mode));
        MissRefillPlaced(mem, t, c, satp, vpn, mode);
      case Stale(slot) =>
        ProbeIsStale(t, vpn, satp.asid, Required(mode));
        StaleRefillPlaced(mem, t, c, satp, vpn, mode, slot);
    }
  }

  lemma RoomSuffices(filled: Filled, t: Tlb, row: nat, evicts: bool)
    requires row < ROWS && (evicts ==> t.nextColumn < COLUMNS)
    requires filled == Overrun <==> evicts && row * COLUMNS + t.nextColumn >= SLOTS
    requires filled.Filled? ==> filled.tlb.nextColumn == if evicts then (t.nextColumn + 1) % 256 else t.nextColumn
    ensures filled.Filled? && filled.tlb.nextColumn == t.nextColumn + (if evicts then 1 else 0)
  {}

  lemma LookupHasRoom(mem: Mem, t: Tlb, c: Context, satp: Satp, vpn: nat, mode: Access)
    requires Evicts(mem, t, c, satp, vpn, mode) ==> t.nextColumn < COLUMNS
    ensures var filled := CachedLookup(mem, t, c, satp, vpn, mode).filled;
      && filled.Filled?
      && filled.tlb.nextColumn == t.nextColumn + (if Evicts(mem, t, c, satp, vpn, mode) then 1 else 0)
  {
    LookupOverrunsExactly(mem, t, c, satp, vpn, mode);
    RoomSuffices(CachedLookup(mem, t, c, satp, vpn, mode).filled, t, Row(vpn), Evicts(mem, t, c, satp, vpn, mode));
  }

  ghost function Next(s: Sys, op: Op): Sys { if Enabled(s, op) && !Overruns(s, op) then Step(s, op) else s }

  ghost predicate EvictsAt(s: Sys, op: Op, h: nat) {
    && op.Translate? && op.h == h && h < |s.harts|
    && Evicts(s.mem, s.harts[h].tlb, op.c, s.harts[h].satp, op.vaddr / PAGE, op.mode)
  }

  /** How often the run makes the hart evict. */
  ghost function Evictions(s: Sys, ops: seq<Op>, h: nat): nat
    decreases |ops|
  {
    if ops == [] then 0 else (if EvictsAt(s, ops[0], h) then 1 else 0) + Evictions(Next(s, ops[0]), ops[1..], h)
  }

  ghost predicate AllPlaced(s: Sys) { forall h :: 0 <= h < |s.harts| ==> Placed(s.harts[h].tlb) }

  /** The counters leave room for all evictions of the run. */
  ghost predicate Roomy(s: Sys, ops: seq<Op>) {
    forall h :: 0 <= h < |s.harts| ==> s.harts[h].tlb.nextColumn + Evictions(s, ops, h) <= COLUMNS
  }

  /** A fence drops exactly the live entries its operands name. */
  ghost predicate FenceExact(s: Sys, op: Op) {
    op.SfenceVma? && op.h < |s.harts| && (op.withVaddr ==> Canonical(s.harts[op.h].satp, op.vaddr)) ==>
      DropsExactly(s.harts[op.h].tlb, s.harts[op.h].satp, Operands(op.vaddr, op.asid, op.withVaddr, op.withAsid))
  }

  /** In every state of the run all TLBs are structured and fences are exact. */
  ghost predicate AllStructured(s: Sys, ops: seq<Op>)
    requires Runnable(s, ops) && Completes(s, ops)
    decreases |ops|
  {
    && (forall h :: 0 <= h < |s.harts| ==> Structured(s.harts[h].tlb))
    && (ops == [] || (FenceExact(s, ops[0]) && AllStructured(Step(s, ops[0]), ops[1..])))
  }

  lemma FenceIsExact(s: Sys, op: Op)
    requires AllPlaced(s)
    ensures FenceExact(s, op)
  {
    if op.SfenceVma? && op.h < |s.harts| && (op.withVaddr ==> Canonical(s.harts[op.h].satp, op.vaddr)) {
      FenceExactly(s.harts[op.h].tlb, s.harts[op.h].satp, Operands(op.vaddr, op.asid, op.withVaddr, op.withAsid));
    }
  }

  lemma TranslateRoomy(s: Sys, op: Op)
    requires AllPlaced(s) && Enabled(s, op) && op.Translate?
    requires EvictsAt(s, op, op.h) ==> s.harts[op.h].tlb.nextColumn < COLUMNS
    ensures !Overruns(s, op)
    ensures var t, t' := s.harts[op.h].tlb, Step(s, op).harts[op.h].tlb;
      Placed(t') && t'.nextColumn == t.nextColumn + (if EvictsAt(s, op, op.h) then 1 else 0)
    ensures |Step(s, op).harts| == |s.harts| && forall h :: 0 <= h < |s.harts| && h != op.h ==> Step(s, op).harts[h] == s.harts[h]
  {
    var m := s.harts[op.h];
    LookupHasRoom(s.mem, m.tlb, op.c, m.satp, op.vaddr / PAGE, op.mode);
    LookupKeepsPlaced(s.mem, m.tlb, op.c, m.satp, op.vaddr / PAGE, op.mode);
    var o := LookupAt(s, op);
    assert Step(s, op) == s.(mem := o.mem, harts := s.harts[op.h := m.(tlb := o.filled.tlb)]);
  }

  lemma StepRoomy(s: Sys, op: Op)
    requires AllPlaced(s) && Enabled(s, op)
    requires op.Translate? && EvictsAt(s, op, op.h) ==> s.harts[op.h].tlb.nextColumn < COLUMNS
    ensures !Overruns(s, op) && AllPlaced(Step(s, op)) && |Step(s, op).harts| == |s.harts|
    ensures forall h :: 0 <= h < |s.harts| ==>
      Step(s, op).harts[h].tlb.nextColumn == s.harts[h].tlb.nextColumn + (if EvictsAt(s, op, h) then 1 else 0)
  {
    if op.Translate? { TranslateRoomy(s, op); }
  }

  /** From TLBs in order, any run that makes no hart evict past its sixteenth column never overruns: every translation is
      right, in every state live entries sit in their rows and no two answer one lookup, and every fence is exact. */
  lemma {:induction false} SixteenEvictionsAreSafe(s: Sys, ops: seq<Op>)
    requires Inv(s) && AllPlaced(s) && Runnable(s, ops) && Roomy(s, ops)
    ensures Completes(s, ops) && AllCorrect(s, ops) && AllStructured(s, ops)
    decreases |ops|
  {
    forall h | 0 <= h < |s.harts| ensures Structured(s.harts[h].tlb) { PlacedIsStructured(s.harts[h].tlb); }
    if ops != [] {
      var op := ops[0];
      if op.Translate? && EvictsAt(s, op, op.h) {
        assert s.harts[op.h].tlb.nextColumn + Evictions(s, ops, op.h) <= COLUMNS;
      }
      StepRoomy(s, op);
      StepOk(s, op);
      FenceIsExact(s, op);
      var s' := Step(s, op);
      forall h | 0 <= h < |s'.harts| ensures s'.harts[h].tlb.nextColumn + Evictions(s', ops[1..], h) <= COLUMNS {
        assert s.harts[h].tlb.nextColumn + Evictions(s, ops, h) <= COLUMNS;
      }
      SixteenEvictionsAreSafe(s', ops[1..]);
    }
  }

  /** In particular from reset, for every run with at most sixteen evictions on each hart. */
  lemma ResetRunsAreSafe(s: Sys, ops: seq<Op>)
    requires GlobalsShared(s.mem, s.roots) && Runnable(s, ops)
    requires forall h :: 0 <= h < |s.harts| ==>
      && s.harts[h].satp.mode == 0 && s.harts[h].tlb.valid == seq(SLOTS, _ => false) && s.harts[h].tlb.nextColumn == 0
      && Evictions(s, ops, h) <= 16
    ensures Completes(s, ops) && AllCorrect(s, ops) && AllStructured(s, ops)
  {
    ResetOk(s);
    SixteenEvictionsAreSafe(s, ops);
  }
}
