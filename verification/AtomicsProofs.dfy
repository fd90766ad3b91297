/** Interleavings of atomic instructions: lock order, AMO folds, and when an SC succeeds. */
module AtomicsProofs {
  import opened Bits
  import opened Types
  import opened Atomics

  // ---- Micro-steps ----

  /** Where a hart is inside `rv_atomic_op`; in every phase but Idle it holds the lock. */
  datatype Phase =
    | Idle
    | Held(i: Instr)
    | Loaded(i: Instr, raw: Word)
    | Stored(i: Instr, raw: Word, cleared: nat)
    | Finishing(i: Instr, out: Outcome)

  /** What took effect, in order: atomic instructions as they release the lock, and other harts' plain stores. */
  datatype Entry = Done(i: Instr) | Plain(index: nat, v: Word32)

  datatype Micro = Micro(sys: System, lock: Option<nat>, phases: seq<Phase>, log: seq<Entry>, outs: seq<Outcome>)

  datatype Action =
    | Begin(i: Instr)
    | Advance(hart: nat)
    | PlainStore(index: nat, v: Word32)

  /** Cells an instruction may access once it holds the lock. */
  function Footprint(i: Instr): set<nat> {
    (if i.load.Cell? then Cells(i.load.index, Narrow(i)) else {}) + (if i.store.Cell? then Cells(i.store.index, Narrow(i)) else {})
  }

  predicate Shaped(m: Micro) {
    && |m.phases| == |m.sys.res|
    && (forall h :: 0 <= h < |m.phases| && !m.phases[h].Idle? ==>
        m.phases[h].i.hart == h && Fits(m.phases[h].i, |m.sys.res|, |m.sys.mem|))
  }

  /** Plain stores race with no instruction in flight; beginning means obtaining the lock. */
  predicate Enabled(m: Micro, a: Action) {
    match a
    case Begin(i) =>
      Fits(i, |m.sys.res|, |m.sys.mem|) && |m.phases| == |m.sys.res| && m.phases[i.hart].Idle? && (EarlyTrap(i).Some? || m.lock.None?)
    case Advance(h) => h < |m.phases| && !m.phases[h].Idle?
    case PlainStore(index, v) =>
      index < |m.sys.mem| && forall h :: 0 <= h < |m.phases| && !m.phases[h].Idle? ==> index !in Footprint(m.phases[h].i)
  }

  /** One step of the hart that holds the lock. */
  function StepPhase(sys: System, p: Phase): (System, Phase)
    requires !p.Idle? && Fits(p.i, |sys.res|, |sys.mem|)
  {
    match p
    case Held(i) =>
      if i.funct5 == SC then
        if sys.res[i.hart] != Some(i.addr) then (sys, Finishing(i, Wrote(1)))
        else if i.store.Refused? then (sys, Finishing(i, Fault(i.store.fault, false, i.addr)))
        else (sys.(mem := StoreCell(sys.mem, i.store.index, Narrow(i), i.rs2)), Stored(i, 0, 0))
      else if i.load.Refused? then (sys, Finishing(i, Fault(i.load.fault, i.funct5 == LR, i.addr)))
      else (sys, Loaded(i, RawLoad(sys.mem, i.load.index, Narrow(i))))
    case Loaded(i, raw) =>
      if i.funct5 == LR then (sys.(res := sys.res[i.hart := Some(i.addr)]), Finishing(i, Wrote(Register(i, raw))))
      else
        var v := NewValue(i, raw);
        if v.None? then (sys, Finishing(i, Trapped(CAUSE_ILLEGAL, i.word)))
        else if i.store.Refused? then (sys, Finishing(i, Fault(i.store.fault, false, i.addr)))
        else (sys.(mem := StoreCell(sys.mem, i.store.index, Narrow(i), v.value)), Stored(i, raw, 0))
    case Stored(i, raw, k) =>
      if i.funct5 == SC then (sys.(res := sys.res[i.hart := None]), Finishing(i, Wrote(0)))
      else if k < |sys.res| then
        (sys.(res := if sys.res[k] == Some(i.addr) then sys.res[k := None] else sys.res), Stored(i, raw, k + 1))
      else (sys, Finishing(i, Wrote(Register(i, raw))))
    case Finishing(i, out) => (sys, Idle)
  }

  function Register(i: Instr, raw: Word): Word { if Narrow(i) then SignExtend(raw % U32) else raw }

  function Step(m: Micro, a: Action): Micro
    requires Shaped(m) && Enabled(m, a)
  {
    match a
    case Begin(i) =>
      var early := EarlyTrap(i);
      if early.Some? then m.(log := m.log + [Done(i)], outs := m.outs + [early.value])
      else m.(lock := Some(i.hart), phases := m.phases[i.hart := Held(i)])
    case Advance(h) =>
      var p := m.phases[h];
      var (sys, next) := StepPhase(m.sys, p);
      var m' := m.(sys := sys, phases := m.phases[h := next]);
      if p.Finishing? then m'.(lock := None, log := m.log + [Done(p.i)], outs := m.outs + [p.out]) else m'
    case PlainStore(index, v) =>
      m.(sys := m.sys.(mem := m.sys.mem[index := v]), log := m.log + [Plain(index, v)], outs := m.outs + [Wrote(0)])
  }

  // ---- The atomic reading ----

  predicate EntryFits(e: Entry, harts: nat, size: nat) {
    match e
    case Done(i) => Fits(i, harts, size)
    case Plain(index, _) => index < size
  }

  predicate LogFits(log: seq<Entry>, harts: nat, size: nat) {
    forall k :: 0 <= k < |log| ==> EntryFits(log[k], harts, size)
  }

  /** One entry as a single step, with its result. */
  function Effect(s: System, e: Entry): (r: (System, Outcome))
    requires EntryFits(e, |s.res|, |s.mem|)
    ensures |r.0.res| == |s.res| && |r.0.mem| == |s.mem|
  {
    match e
    case Done(i) => Atomic(s, i)
    case Plain(index, v) => (s.(mem := s.mem[index := v]), Wrote(0))
  }

  /** The state after the log's entries have been executed one at a time. */
  function After(s: System, log: seq<Entry>): (r: System)
    requires LogFits(log, |s.res|, |s.mem|)
    ensures |r.res| == |s.res| && |r.mem| == |s.mem|
  {
    if log == [] then s else Effect(After(s, log[..|log| - 1]), log[|log| - 1]).0
  }

  /** Every recorded result is the one its entry gives when it runs alone after all earlier entries. */
  ghost predicate OutsAgree(s: System, log: seq<Entry>, outs: seq<Outcome>)
    requires LogFits(log, |s.res|, |s.mem|)
  {
    && |outs| == |log|
    && forall k :: 0 <= k < |log| ==> outs[k] == Effect(After(s, log[..k]), log[k]).1
  }

  // ---- Refinement ----

  /** The first `k` reservations have been invalidated. */
  predicate PartlyCleared(before: seq<Option<Word>>, now: seq<Option<Word>>, addr: Word, k: nat) {
    && |now| == |before| && k <= |before|
    && forall j :: 0 <= j < |before| ==> now[j] == if j < k && before[j] == Some(addr) then None else before[j]
  }

  /** What an AMO in flight has read, and that it will not be refused. */
  predicate AmoRead(a: System, i: Instr, raw: Word)
    requires Fits(i, |a.res|, |a.mem|)
  {
    i.funct5 != LR && i.load.Cell? && raw == RawLoad(a.mem, i.load.index, Narrow(i)) && NewValue(i, raw).Some?
  }

  /** The concrete state is the atomic state `a` plus what the instruction in flight has done so far. */
  predicate Midway(a: System, sys: System, p: Phase)
    requires !p.Idle? && Fits(p.i, |a.res|, |a.mem|)
  {
    && EarlyTrap(p.i).None?
    && match p
       case Held(i) => sys == a
       case Loaded(i, raw) => sys == a && i.funct5 != SC && i.load.Cell? && raw == RawLoad(a.mem, i.load.index, Narrow(i))
       case Stored(i, raw, k) =>
         && i.store.Cell? && sys.mem == Atomic(a, i).0.mem
         && (i.funct5 == SC ==> sys.res == a.res && a.res[i.hart] == Some(i.addr))
         && (i.funct5 != SC ==> AmoRead(a, i, raw) && PartlyCleared(a.res, sys.res, i.addr, k))
       case Finishing(i, out) => (sys, out) == Atomic(a, i)
  }

  lemma RegisterIsExtended(mem: seq<Word32>, i: Instr, c: nat)
    requires InMemory(Cell(c), Narrow(i), |mem|)
    ensures Register(i, RawLoad(mem, c, Narrow(i))) == Extended(RawLoad(mem, c, Narrow(i)), Narrow(i))
  {}

  /** A step of the hart in flight stays within its atomic reading. */
  lemma PhaseStep(a: System, sys: System, p: Phase)
    requires !p.Idle? && !p.Finishing? && Fits(p.i, |a.res|, |a.mem|) && |sys.res| == |a.res| && |sys.mem| == |a.mem|
    requires Midway(a, sys, p)
    ensures var (sys', p') := StepPhase(sys, p);
      !p'.Idle? && p'.i == p.i && |sys'.res| == |a.res| && |sys'.mem| == |a.mem| && Midway(a, sys', p')
  {
    if p.i.load.Cell? { RegisterIsExtended(a.mem, p.i, p.i.load.index); }
    if p.Stored? && p.i.funct5 != SC && p.cleared == |sys.res| {
      assert sys.res == Invalidate(a.res, p.i.addr);
    }
  }

  lemma LoadApart(mem: seq<Word32>, c: nat, narrow: bool, index: nat, v: Word32)
    requires c + (if narrow then 1 else 2) <= |mem| && index < |mem| && index !in Cells(c, narrow)
    ensures RawLoad(mem[index := v], c, narrow) == RawLoad(mem, c, narrow)
  {}

  lemma StoreApart(mem: seq<Word32>, c: nat, narrow: bool, w: Word, index: nat, v: Word32)
    requires c + (if narrow then 1 else 2) <= |mem| && index < |mem| && index !in Cells(c, narrow)
    ensures StoreCell(mem[index := v], c, narrow, w) == StoreCell(mem, c, narrow, w)[index := v]
  {}

  /** A plain store outside its footprint commutes with an atomic instruction. */
  lemma PlainCommutes(s: System, i: Instr, index: nat, v: Word32)
    requires Fits(i, |s.res|, |s.mem|) && index < |s.mem| && index !in Footprint(i)
    ensures var (r, out) := Atomic(s, i);
      Atomic(s.(mem := s.mem[index := v]), i) == (r.(mem := r.mem[index := v]), out)
  {
    if i.load.Cell? { LoadApart(s.mem, i.load.index, Narrow(i), index, v); }
    if i.store.Cell? {
      StoreApart(s.mem, i.store.index, Narrow(i), i.rs2, index, v);
      if i.load.Cell? {
        var n := NewValue(i, RawLoad(s.mem, i.load.index, Narrow(i)));
        if n.Some? { StoreApart(s.mem, i.store.index, Narrow(i), n.value, index, v); }
      }
    }
  }

  lemma PlainMidway(a: System, sys: System, p: Phase, index: nat, v: Word32)
    requires !p.Idle? && Fits(p.i, |a.res|, |a.mem|) && |sys.mem| == |a.mem| && Midway(a, sys, p)
    requires index < |a.mem| && index !in Footprint(p.i)
    ensures Midway(a.(mem := a.mem[index := v]), sys.(mem := sys.mem[index := v]), p)
  {
    PlainCommutes(a, p.i, index, v);
    if p.i.load.Cell? { LoadApart(a.mem, p.i.load.index, Narrow(p.i), index, v); }
  }

  // ---- The invariant ----

  predicate LockOk(m: Micro) {
    match m.lock
    case None => forall h :: 0 <= h < |m.phases| ==> m.phases[h].Idle?
    case Some(o) =>
      o < |m.phases| && !m.phases[o].Idle? && forall h :: 0 <= h < |m.phases| && h != o ==> m.phases[h].Idle?
  }

  ghost predicate Sized(start: System, m: Micro) {
    Shaped(m) && |m.sys.res| == |start.res| && |m.sys.mem| == |start.mem| && LogFits(m.log, |start.res|, |start.mem|)
  }

  ghost predicate Inv(start: System, m: Micro) {
    && Sized(start, m) && LockOk(m) && OutsAgree(start, m.log, m.outs)
    && (m.lock.None? ==> m.sys == After(start, m.log))
    && (m.lock.Some? ==> Midway(After(start, m.log), m.sys, m.phases[m.lock.value]))
  }

  lemma Extend(start: System, log: seq<Entry>, outs: seq<Outcome>, e: Entry, out: Outcome)
    requires LogFits(log, |start.res|, |start.mem|) && OutsAgree(start, log, outs) && EntryFits(e, |start.res|, |start.mem|)
    requires out == Effect(After(start, log), e).1
    ensures LogFits(log + [e], |start.res|, |start.mem|)
    ensures OutsAgree(start, log + [e], outs + [out])
    ensures After(start, log + [e]) == Effect(After(start, log), e).0
  {
    var longer := log + [e];
    assert longer[..|log|] == log;
    forall k | 0 <= k < |longer| ensures (outs + [out])[k] == Effect(After(start, longer[..k]), longer[k]).1 {
      if k < |log| { assert longer[..k] == log[..k]; }
    }
  }

  lemma BeginStep(start: System, m: Micro, i: Instr)
    requires Inv(start, m) && Enabled(m, Begin(i))
    ensures Inv(start, Step(m, Begin(i)))
  {
    var early := EarlyTrap(i);
    if early.Some? { Extend(start, m.log, m.outs, Done(i), early.value); }
  }

  lemma AdvanceStep(start: System, m: Micro, h: nat)
    requires Inv(start, m) && Enabled(m, Advance(h))
    ensures Inv(start, Step(m, Advance(h)))
  {
    var p := m.phases[h];
    assert m.lock == Some(h);
    if p.Finishing? {
      Extend(start, m.log, m.outs, Done(p.i), p.out);
    } else {
      PhaseStep(After(start, m.log), m.sys, p);
    }
  }

  lemma PlainStep(start: System, m: Micro, index: nat, v: Word32)
    requires Inv(start, m) && Enabled(m, PlainStore(index, v))
    ensures Inv(start, Step(m, PlainStore(index, v)))
  {
    Extend(start, m.log, m.outs, Plain(index, v), Wrote(0));
    if m.lock.Some? { PlainMidway(After(start, m.log), m.sys, m.phases[m.lock.value], index, v); }
  }

  predicate Runnable(m: Micro, actions: seq<Action>)
    decreases |actions|
  {
    actions == [] || (Shaped(m) && Enabled(m, actions[0]) && Runnable(Step(m, actions[0]), actions[1..]))
  }

  function Run(m: Micro, actions: seq<Action>): Micro
    requires Runnable(m, actions)
    decreases |actions|
  {
    if actions == [] then m else Run(Step(m, actions[0]), actions[1..])
  }

  function Start(s: System): Micro { Micro(s, None, seq(|s.res|, _ => Idle), [], []) }

  lemma {:induction false} RunKeeps(start: System, m: Micro, actions: seq<Action>)
    requires Inv(start, m) && Runnable(m, actions)
    ensures Inv(start, Run(m, actions))
    decreases |actions|
  {
    if actions != [] {
      match actions[0] {
        case Begin(i) => BeginStep(start, m, i);
        case Advance(h) => AdvanceStep(start, m, h);
        case PlainStore(index, v) => PlainStep(start, m, index, v);
      }
      RunKeeps(start, Step(m, actions[0]), actions[1..]);
    }
  }

  /** Every interleaving is the lock-order run of whole instructions: at most one is in flight, each finished one
      returned what it returns alone, and with the lock free memory and reservations are those of the serial run. */
  lemma InterleavingsAreSerial(start: System, actions: seq<Action>)
    requires Runnable(Start(start), actions)
    ensures var m := Run(Start(start), actions);
      && LockOk(m) && LogFits(m.log, |start.res|, |start.mem|)
      && OutsAgree(start, m.log, m.outs)
      && (m.lock.None? ==> m.sys == After(start, m.log))
  {
    RunKeeps(start, Start(start), actions);
  }
}
