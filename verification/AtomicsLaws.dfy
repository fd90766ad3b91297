/** What the serial order of atomic instructions means for cells and for SC. */
module AtomicsLaws {
  import opened Bits
  import opened Types
  import opened Atomics
  import opened AtomicsProofs

  // ---- Cells touched only by AMOs ----

  /** An AMO that completes on the cell. */
  predicate AmoOn(e: Entry, c: nat, narrow: bool) {
    && e.Done? && EarlyTrap(e.i).None? && Narrow(e.i) == narrow && e.i.funct5 != LR && e.i.funct5 != SC
    && e.i.load == Cell(c) && e.i.store == Cell(c) && NewValue(e.i, 0).Some?
  }

  function WriteSet(e: Entry): set<nat> {
    match e
    case Done(i) => if i.funct5 != LR && i.store.Cell? then Cells(i.store.index, Narrow(i)) else {}
    case Plain(index, _) => {index}
  }

  /** No entry writes the cell but AMOs of its width. */
  predicate OnlyAmos(log: seq<Entry>, c: nat, narrow: bool) {
    forall k :: 0 <= k < |log| ==> AmoOn(log[k], c, narrow) || WriteSet(log[k]) !! Cells(c, narrow)
  }

  /** The cell's value as a number of its own width, after the log's AMOs have been applied in order. */
  function Fold(v: Word, log: seq<Entry>, c: nat, narrow: bool): Word {
    if log == [] then v
    else
      var before, e := Fold(v, log[..|log| - 1], c, narrow), log[|log| - 1];
      if AmoOn(e, c, narrow) && NewValue(e.i, before).Some? then Truncated(NewValue(e.i, before).value, narrow) else before
  }

  /** Whether an AMO exists does not depend on what it reads. */
  lemma AmoExists(i: Instr, raw: Word)
    ensures NewValue(i, raw).Some? == NewValue(i, 0).Some?
  {}

  lemma SplitWord(v: Word)
    ensures v % U32 + U32 * (v / U32) == v
  {}

  lemma LoadStored(mem: seq<Word32>, c: nat, narrow: bool, v: Word)
    requires c + (if narrow then 1 else 2) <= |mem|
    ensures RawLoad(StoreCell(mem, c, narrow, v), c, narrow) == Truncated(v, narrow)
  {
    SplitWord(v);
  }

  lemma LoadUnwritten(mem: seq<Word32>, c: nat, narrow: bool, d: nat, wide: bool, v: Word)
    requires c + (if narrow then 1 else 2) <= |mem| && d + (if wide then 1 else 2) <= |mem|
    requires Cells(d, wide) !! Cells(c, narrow)
    ensures RawLoad(StoreCell(mem, d, wide, v), c, narrow) == RawLoad(mem, c, narrow)
  {
    assert c in Cells(c, narrow) && d in Cells(d, wide);
    if !narrow { assert c + 1 in Cells(c, narrow); }
    if !wide { assert d + 1 in Cells(d, wide); }
  }

  /** One entry changes the cell as the fold does. */
  lemma EffectOnCell(s: System, e: Entry, c: nat, narrow: bool)
    requires EntryFits(e, |s.res|, |s.mem|) && c + (if narrow then 1 else 2) <= |s.mem|
    requires AmoOn(e, c, narrow) || WriteSet(e) !! Cells(c, narrow)
    ensures var (s', out) := Effect(s, e); var v := RawLoad(s.mem, c, narrow);
      && RawLoad(s'.mem, c, narrow) == (if AmoOn(e, c, narrow) && NewValue(e.i, v).Some? then Truncated(NewValue(e.i, v).value, narrow) else v)
      && (AmoOn(e, c, narrow) ==> out == Wrote(Extended(v, narrow)))
  {
    var v := RawLoad(s.mem, c, narrow);
    if AmoOn(e, c, narrow) {
      AmoExists(e.i, v);
      LoadStored(s.mem, c, narrow, NewValue(e.i, v).value);
    } else {
      match e {
        case Plain(index, w) =>
          assert index !in Cells(c, narrow);
          LoadApart(s.mem, c, narrow, index, w);
        case Done(i) => UnwrittenCell(s, i, c, narrow);
      }
    }
  }

  lemma UnwrittenCell(s: System, i: Instr, c: nat, narrow: bool)
    requires Fits(i, |s.res|, |s.mem|) && c + (if narrow then 1 else 2) <= |s.mem| && WriteSet(Done(i)) !! Cells(c, narrow)
    ensures RawLoad(Atomic(s, i).0.mem, c, narrow) == RawLoad(s.mem, c, narrow)
  {
    if i.store.Cell? && i.funct5 != LR {
      LoadUnwritten(s.mem, c, narrow, i.store.index, Narrow(i), i.rs2);
      if i.load.Cell? {
        var n := NewValue(i, RawLoad(s.mem, i.load.index, Narrow(i)));
        if n.Some? { LoadUnwritten(s.mem, c, narrow, i.store.index, Narrow(i), n.value); }
      }
    }
  }

  /** A cell written only by AMOs ends as the fold of their operations in lock order. */
  lemma {:induction false} CellIsFold(s: System, log: seq<Entry>, c: nat, narrow: bool)
    requires LogFits(log, |s.res|, |s.mem|) && c + (if narrow then 1 else 2) <= |s.mem| && OnlyAmos(log, c, narrow)
    ensures RawLoad(After(s, log).mem, c, narrow) == Fold(RawLoad(s.mem, c, narrow), log, c, narrow)
    decreases |log|
  {
    if log != [] {
      var init, e := log[..|log| - 1], log[|log| - 1];
      CellIsFold(s, init, c, narrow);
      EffectOnCell(After(s, init), e, c, narrow);
    }
  }

  /** And every AMO on it returns the fold of the operations before it. */
  lemma AmoReturnsPrefix(s: System, log: seq<Entry>, c: nat, narrow: bool, k: nat)
    requires LogFits(log, |s.res|, |s.mem|) && c + (if narrow then 1 else 2) <= |s.mem| && OnlyAmos(log, c, narrow)
    requires k < |log| && AmoOn(log[k], c, narrow)
    ensures Effect(After(s, log[..k]), log[k]).1 == Wrote(Extended(RawLoad(After(s, log[..k]).mem, c, narrow), narrow))
    ensures RawLoad(After(s, log[..k]).mem, c, narrow) == Fold(RawLoad(s.mem, c, narrow), log[..k], c, narrow)
  {
    CellIsFold(s, log[..k], c, narrow);
    EffectOnCell(After(s, log[..k]), log[k], c, narrow);
  }

  function InRegister(v: Word, narrow: bool): Word { if narrow then SignExtend(v % U32) else v }

  lemma SerialResult(start: System, log: seq<Entry>, outs: seq<Outcome>, c: nat, narrow: bool, k: nat)
    requires LogFits(log, |start.res|, |start.mem|) && OutsAgree(start, log, outs)
    requires c + (if narrow then 1 else 2) <= |start.mem| && OnlyAmos(log, c, narrow) && k < |log| && AmoOn(log[k], c, narrow)
    ensures outs[k] == Wrote(InRegister(Fold(RawLoad(start.mem, c, narrow), log[..k], c, narrow), narrow))
  {
    AmoReturnsPrefix(start, log, c, narrow, k);
  }

  /** Both for interleaved runs: the memory at rest, and the values the instructions actually returned. */
  lemma InterleavedAmosFold(start: System, actions: seq<Action>, c: nat, narrow: bool)
    requires Runnable(Start(start), actions) && c + (if narrow then 1 else 2) <= |start.mem|
    requires var m := Run(Start(start), actions); m.lock.None? && OnlyAmos(m.log, c, narrow)
    ensures var m, v := Run(Start(start), actions), RawLoad(start.mem, c, narrow);
      && |m.sys.mem| == |start.mem| && |m.outs| == |m.log|
      && RawLoad(m.sys.mem, c, narrow) == Fold(v, m.log, c, narrow)
      && forall k :: 0 <= k < |m.log| && AmoOn(m.log[k], c, narrow) ==>
           m.outs[k] == Wrote(InRegister(Fold(v, m.log[..k], c, narrow), narrow))
  {
    InterleavingsAreSerial(start, actions);
    var m := Run(Start(start), actions);
    CellIsFold(start, m.log, c, narrow);
    forall k | 0 <= k < |m.log| && AmoOn(m.log[k], c, narrow)
      ensures m.outs[k] == Wrote(InRegister(Fold(RawLoad(start.mem, c, narrow), m.log[..k], c, narrow), narrow))
    {
      SerialResult(start, m.log, m.outs, c, narrow, k);
    }
  }

  // ---- What the operations compute ----

  /** XOR, OR and AND act bit by bit. */
  lemma AmoIsBitwise(narrow: bool, lhs: Word, rhs: Word, i: nat)
    ensures i in Ones(AmoValue(XOR, narrow, lhs, rhs).value) <==> (i in Ones(lhs) <==> i !in Ones(rhs))
    ensures i in Ones(AmoValue(OR, narrow, lhs, rhs).value) <==> i in Ones(lhs) || i in Ones(rhs)
    ensures i in Ones(AmoValue(AND, narrow, lhs, rhs).value) <==> i in Ones(lhs) && i in Ones(rhs)
  {
    OnesRoundTrip((Ones(lhs) - Ones(rhs)) + (Ones(rhs) - Ones(lhs)));
    OnesRoundTrip(Ones(lhs) + Ones(rhs));
    OnesRoundTrip(Ones(lhs) * Ones(rhs));
  }

  /** The signed and unsigned extremes, of operands cut to the access width. */
  lemma AmoIsExtreme(narrow: bool, lhs: Word, rhs: Word)
    ensures var low, high := AmoValue(MIN, narrow, lhs, rhs).value, AmoValue(MAX, narrow, lhs, rhs).value;
      && low in {lhs, rhs} && Signed(low, narrow) <= Signed(lhs, narrow) && Signed(low, narrow) <= Signed(rhs, narrow)
      && high in {lhs, rhs} && Signed(high, narrow) >= Signed(lhs, narrow) && Signed(high, narrow) >= Signed(rhs, narrow)
    ensures var low, high := AmoValue(MINU, narrow, lhs, rhs).value, AmoValue(MAXU, narrow, lhs, rhs).value;
      low in {lhs, rhs} && low <= lhs && low <= rhs && high in {lhs, rhs} && high >= lhs && high >= rhs
  {}

  // ---- Conservation of additions ----

  function Modulus(narrow: bool): nat { if narrow then U32 else U64 }

  function Added(log: seq<Entry>, c: nat, narrow: bool): nat {
    if log == [] then 0
    else Added(log[..|log| - 1], c, narrow) + (if AmoOn(log[|log| - 1], c, narrow) then log[|log| - 1].i.rs2 else 0)
  }

  lemma SumReduced(a: nat, x: nat, narrow: bool)
    ensures var m := Modulus(narrow); (a % m + x % m) % m == (a + x) % m
  {
    if narrow {
      Shift32(a % U32 + x % U32, a / U32 + x / U32);
      assert a + x == (a % U32 + x % U32) + (a / U32 + x / U32) * U32;
    } else {
      Shift64(a % U64 + x % U64, a / U64 + x / U64);
      assert a + x == (a % U64 + x % U64) + (a / U64 + x / U64) * U64;
    }
  }

  lemma AddStep(i: Instr, v: Word, narrow: bool)
    requires i.funct5 == ADD && Narrow(i) == narrow && v < Modulus(narrow)
    ensures NewValue(i, v).Some? && Truncated(NewValue(i, v).value, narrow) == (v + i.rs2 % Modulus(narrow)) % Modulus(narrow)
  {
    if narrow { assert v + i.rs2 % U32 < U64; }
  }

  /** Concurrent AMOADDs lose nothing: the cell ends as its first value plus every addend, modulo its width. */
  lemma {:induction false} AdditionsAreConserved(v: Word, log: seq<Entry>, c: nat, narrow: bool)
    requires v < Modulus(narrow)
    requires forall k :: 0 <= k < |log| && AmoOn(log[k], c, narrow) ==> log[k].i.funct5 == ADD
    ensures Fold(v, log, c, narrow) == (v + Added(log, c, narrow)) % Modulus(narrow)
    decreases |log|
  {
    if log != [] {
      var init, e := log[..|log| - 1], log[|log| - 1];
      AdditionsAreConserved(v, init, c, narrow);
      if AmoOn(e, c, narrow) {
        AddStep(e.i, Fold(v, init, c, narrow), narrow);
        SumReduced(v + Added(init, c, narrow), e.i.rs2, narrow);
      }
    }
  }

  /** For interleaved runs: what is in memory at rest is everything that was added. */
  lemma InterleavedAdditionsAreConserved(start: System, actions: seq<Action>, c: nat, narrow: bool)
    requires Runnable(Start(start), actions) && c + (if narrow then 1 else 2) <= |start.mem|
    requires var m := Run(Start(start), actions);
      && m.lock.None? && OnlyAmos(m.log, c, narrow)
      && forall k :: 0 <= k < |m.log| && AmoOn(m.log[k], c, narrow) ==> m.log[k].i.funct5 == ADD
    ensures var m := Run(Start(start), actions);
      && |m.sys.mem| == |start.mem|
      && RawLoad(m.sys.mem, c, narrow) == (RawLoad(start.mem, c, narrow) + Added(m.log, c, narrow)) % Modulus(narrow)
  {
    InterleavedAmosFold(start, actions, c, narrow);
    AdditionsAreConserved(RawLoad(start.mem, c, narrow), Run(Start(start), actions).log, c, narrow);
  }

  // ---- When an SC succeeds ----

  predicate CompletedLr(e: Entry, h: nat) { e.Done? && e.i.hart == h && e.i.funct5 == LR && EarlyTrap(e.i).None? && e.i.load.Cell? }

  predicate CompletedAmo(e: Entry, addr: Word) {
    && e.Done? && EarlyTrap(e.i).None? && e.i.funct5 != LR && e.i.funct5 != SC && e.i.addr == addr
    && e.i.load.Cell? && NewValue(e.i, 0).Some? && e.i.store.Cell?
  }

  predicate UnfaultingSc(e: Entry, h: nat, addr: Word) {
    e.Done? && EarlyTrap(e.i).None? && e.i.funct5 == SC && e.i.hart == h && e.i.addr == addr && e.i.store.Cell?
  }

  /** Since position `k`: no newer LR of the hart, no AMO to the address by anyone, no SC of the hart to it. */
  predicate Undisturbed(log: seq<Entry>, k: nat, h: nat, addr: Word) {
    forall j :: k < j < |log| ==> !CompletedLr(log[j], h) && !CompletedAmo(log[j], addr) && !UnfaultingSc(log[j], h, addr)
  }

  predicate LrStands(log: seq<Entry>, k: nat, h: nat, addr: Word) {
    k < |log| && CompletedLr(log[k], h) && log[k].i.addr == addr && Undisturbed(log, k, h, addr)
  }

  /** The hart's latest completed LR was to the address, and nothing since has cancelled it. */
  predicate HistoryReserves(log: seq<Entry>, h: nat, addr: Word) {
    exists k :: 0 <= k < |log| && LrStands(log, k, h, addr)
  }

  predicate NoReservations(s: System) { forall h :: 0 <= h < |s.res| ==> s.res[h] == None }

  lemma HistoryExtends(init: seq<Entry>, e: Entry, h: nat, addr: Word)
    ensures HistoryReserves(init + [e], h, addr) <==>
      if CompletedLr(e, h) then e.i.addr == addr
      else HistoryReserves(init, h, addr) && !CompletedAmo(e, addr) && !UnfaultingSc(e, h, addr)
  {
    var log := init + [e];
    if CompletedLr(e, h) {
      if e.i.addr == addr { assert LrStands(log, |init|, h, addr); }
      if k :| 0 <= k < |log| && LrStands(log, k, h, addr) { assert k == |init|; }
    } else {
      if k :| 0 <= k < |init| && LrStands(init, k, h, addr) {
        if !CompletedAmo(e, addr) && !UnfaultingSc(e, h, addr) { assert LrStands(log, k, h, addr); }
      }
      if k :| 0 <= k < |log| && LrStands(log, k, h, addr) {
        assert log[|init|] == e;
        assert LrStands(init, k, h, addr) by {
          forall j | k < j < |init| ensures !CompletedLr(init[j], h) && !CompletedAmo(init[j], addr) && !UnfaultingSc(init[j], h, addr) {
            assert log[j] == init[j];
          }
        }
      }
    }
  }

  lemma ReservationStep(s: System, e: Entry, h: nat, addr: Word)
    requires EntryFits(e, |s.res|, |s.mem|) && h < |s.res|
    ensures Effect(s, e).0.res[h] == Some(addr) <==>
      if CompletedLr(e, h) then e.i.addr == addr
      else s.res[h] == Some(addr) && !CompletedAmo(e, addr) && !UnfaultingSc(e, h, addr)
  {
    if e.Done? && e.i.load.Cell? { AmoExists(e.i, RawLoad(s.mem, e.i.load.index, Narrow(e.i))); }
  }

  /** The reservation table records exactly the history. */
  lemma {:induction false} ReservationIsHistory(s: System, log: seq<Entry>, h: nat, addr: Word)
    requires LogFits(log, |s.res|, |s.mem|) && h < |s.res| && NoReservations(s)
    ensures After(s, log).res[h] == Some(addr) <==> HistoryReserves(log, h, addr)
    decreases |log|
  {
    if log != [] {
      var init, e := log[..|log| - 1], log[|log| - 1];
      ReservationIsHistory(s, init, h, addr);
      ReservationStep(After(s, init), e, h, addr);
      HistoryExtends(init, e, h, addr);
      assert log == init + [e];
    }
  }

  /** An SC that is not refused succeeds exactly when the history reserves its address. */
  lemma ScSucceedsExactly(start: System, actions: seq<Action>, k: nat)
    requires Runnable(Start(start), actions) && NoReservations(start)
    requires var m := Run(Start(start), actions);
      k < |m.log| && m.log[k].Done? && m.log[k].i.funct5 == SC && EarlyTrap(m.log[k].i).None? && m.log[k].i.store.Cell?
    ensures var m := Run(Start(start), actions); var i := m.log[k].i;
      |m.outs| == |m.log| && m.outs[k] == Wrote(if HistoryReserves(m.log[..k], i.hart, i.addr) then 0 else 1)
  {
    InterleavingsAreSerial(start, actions);
    var m := Run(Start(start), actions);
    var i := m.log[k].i;
    assert LogFits(m.log[..k], |start.res|, |start.mem|);
    ReservationIsHistory(start, m.log[..k], i.hart, i.addr);
  }

  // ---- What the rule does not give ----

  function Simple(h: nat, funct5: nat, addr: Word, rs2: Word, c: nat): Instr {
    Instr(h, 0, 2, funct5, 0, addr, rs2, Cell(c), Cell(c))
  }

  /** Two harts that both read a cell with LR can both succeed with SC: the first update is lost. */
  lemma BothScsSucceed()
    ensures var s := System([5], [None, None]);
      var lr0, lr1, sc0, sc1 := Simple(0, LR, 0, 0, 0), Simple(1, LR, 0, 0, 0), Simple(0, SC, 0, 6, 0), Simple(1, SC, 0, 7, 0);
      var (s1, out1) := Atomic(s, lr0); var (s2, out2) := Atomic(s1, lr1); var (s3, out3) := Atomic(s2, sc0);
      out1 == out2 == Wrote(5) && out3 == Wrote(0) && s3.mem == [6] && Atomic(s3, sc1) == (System([7], [None, None]), Wrote(0))
  {
    var none, first, both, second: seq<Option<Word>> := [None, None], [Some(0), None], [Some(0), Some(0)], [None, Some(0)];
    assert none[0 := Some(0)] == first && first[1 := Some(0)] == both && both[0 := None] == second && second[1 := None] == none;
    var five, six, seven: seq<Word32> := [5], [6], [7];
    assert five[0 := 6] == six && six[0 := 7] == seven;
  }

  /** Reservations go by virtual address: an AMO to the same cell under another address does not cancel one. */
  lemma AliasedAmoKeepsReservation()
    ensures var s := System([5], [Some(0), None]);
      var swap := Simple(1, SWAP, 4096, 6, 0);
      Atomic(s, swap).0.mem == [6] && Atomic(Atomic(s, swap).0, Simple(0, SC, 0, 7, 0)).1 == Wrote(0)
  {}
}
