/** When the CLINT's timer is the architectural one, over whole runs. */
module ClintProofs {
  import opened Bits
  import opened Types
  import opened Clint

  // ---- mtime ----

  lemma WrittenThenElapsed(now: Word, later: Word, t: Word)
    requires now <= later
    ensures Minus(later, Minus(now, t)) == (t + (later - now)) % U64
  {}

  lemma DivideSum(v: nat, e: nat)
    ensures (NS_PER_TICK * v + e) / NS_PER_TICK == v + e / NS_PER_TICK
  {}

  lemma AddReduced(a: nat, e: nat)
    ensures (a % U64 + e) % U64 == (a + e) % U64
  {
    var q := a / U64;
    assert a + e == (a % U64 + e) + q * U64;
  }

  /** A written mtime counts on from the written value exactly while the count fits the nanosecond clock. */
  lemma MtimeCountsOnExactly(s: State, v: Word, now: Word, later: Word)
    requires now <= later
    ensures Mtime(SetMtime(s, v, now), later) == v + (later - now) / NS_PER_TICK <==> NS_PER_TICK * v + (later - now) < U64
  {
    var e := later - now;
    WrittenThenElapsed(now, later, Ticks(v));
    AddReduced(NS_PER_TICK * v, e);
    DivideSum(v, e);
    var total := NS_PER_TICK * v + e;
    if total >= U64 { assert total % U64 <= total - U64; }
  }

  // ---- Registers ----

  /** A comparison value or software interrupt reads back as written, and no other register of either kind changes. */
  lemma RegistersReadBack(s: State, offset: nat, size: nat, other: nat, otherSize: nat, v: Word, now: Word)
    requires var r := RegisterAt(offset, size, |s.irq|); r.Compare? || r.Software?
    requires var r := RegisterAt(other, otherSize, |s.irq|); (r.Compare? || r.Software?) && r != RegisterAt(offset, size, |s.irq|)
    ensures Write(s, offset, size, v, now).Some?
    ensures var s' := Write(s, offset, size, v, now).value;
      && Read(s', offset, size, now) == Some(if RegisterAt(offset, size, |s.irq|).Compare? then v else v % 2)
      && Read(s', other, otherSize, now) == Read(s, other, otherSize, now)
  {}

  // ---- Deadlines ----

  /** An armed timer's deadline is the nanosecond at which mtime reaches mtimecmp, cut to 64 bits. */
  ghost predicate DeadlinesOk(s: State) {
    forall h :: 0 <= h < |s.irq| && s.armed[h] ==> s.deadline[h] == Plus(s.epoch, NS_PER_TICK * s.mtimecmp[h])
  }

  /** The architectural timer condition. */
  predicate TimeReached(s: State, h: nat, now: Word)
    requires h < |s.irq|
  {
    Mtime(s, now) >= s.mtimecmp[h]
  }

  /** The uncut deadline. */
  function TrueDeadline(s: State, h: nat): nat
    requires h < |s.irq|
  {
    s.epoch + NS_PER_TICK * s.mtimecmp[h]
  }

  lemma TicksReached(x: nat, c: nat)
    ensures x / NS_PER_TICK >= c <==> x >= NS_PER_TICK * c
  {}

  /** Whole wraps of the clock that the uncut deadline lies ahead: the check is right with as many wraps as the
      clock itself has made since the epoch, and with more as long as the cut deadline has not passed. */
  lemma CheckIsRightExactly(s: State, h: nat, now: Word)
    requires h < |s.irq| && s.armed[h] && DeadlinesOk(s) && MTIP !in s.irq[h]
    ensures var wraps, made := TrueDeadline(s, h) / U64, if s.epoch <= now then 0 else 1;
      (MTIP in CheckTimer(s, h, now).irq[h] <==> TimeReached(s, h, now))
      <==> (wraps == made || (wraps > made && now < s.deadline[h]))
  {
    var d := TrueDeadline(s, h);
    assert s.deadline[h] == d - d / U64 * U64;
    TicksReached(Minus(now, s.epoch), s.mtimecmp[h]);
  }

  /** Programming a far-away time fires at once. */
  lemma FarDeadlineFires(now: Word)
    requires NS_PER_TICK <= now
    ensures var s := SetMtimecmp(Reset(1, now), 0, U64 - 1);
      MTIP in Poll(s, 0, now).irq[0] && !TimeReached(s, 0, now)
  {}

  /** After mtime was set ahead of the uptime, a time already reached does not fire at any check until the nanosecond
      clock is about to wrap. */
  lemma FutureMtimeNeverFires(now: Word, later: Word)
    requires 0 < now <= later < U64 - NS_PER_TICK
    ensures var v := now / NS_PER_TICK + 1; var s := SetMtimecmp(SetMtime(Reset(1, 0), v, now), 0, 0);
      && U64 - NS_PER_TICK <= s.deadline[0]
      && MTIP !in Poll(s, 0, later).irq[0] && TimeReached(s, 0, later)
  {
    var v := now / NS_PER_TICK + 1;
    assert now < NS_PER_TICK * v <= now + NS_PER_TICK;
    if NS_PER_TICK * v < U64 { assert Ticks(v) == NS_PER_TICK * v; }
  }

  // ---- Runs ----

  datatype Op =
    | Program(hart: nat, v: Word)
    | WriteTime(v: Word)
    | Software(hart: nat, on: bool)
    | Check(hart: nat)
    // The hart writes mip or sip, or the PLIC moves its lines.
    | OtherLines(hart: nat, raised: BitSet, lowered: BitSet)

  datatype Event = Event(op: Op, now: Word)

  predicate Enabled(s: State, op: Op) {
    match op
    case Program(h, _) => h < |s.irq|
    case WriteTime(_) => true
    case Software(h, _) => h < |s.irq|
    case Check(h) => h < |s.irq|
    case OtherLines(h, raised, lowered) => h < |s.irq| && MTIP !in raised && MTIP !in lowered
  }

  function Step(s: State, e: Event): State
    requires Enabled(s, e.op)
  {
    match e.op
    case Program(h, v) => SetMtimecmp(s, h, v)
    case WriteTime(v) => SetMtime(s, v, e.now)
    case Software(h, on) => SetMsip(s, h, on)
    case Check(h) => Poll(s, h, e.now)
    case OtherLines(h, raised, lowered) => s.(irq := s.irq[h := s.irq[h] - lowered + raised])
  }

  /** Events in time order, the first not before `from`. */
  predicate Runnable(s: State, events: seq<Event>, from: Word)
    decreases |events|
  {
    events == [] ||
    (from <= events[0].now && Enabled(s, events[0].op) && Runnable(Step(s, events[0]), events[1..], events[0].now))
  }

  function Run(s: State, events: seq<Event>, from: Word): State
    requires Runnable(s, events, from)
    decreases |events|
  {
    if events == [] then s else Run(Step(s, events[0]), events[1..], events[0].now)
  }

  lemma StepDeadlines(s: State, e: Event)
    requires Enabled(s, e.op) && DeadlinesOk(s)
    ensures DeadlinesOk(Step(s, e))
  {}

  /** In every reachable state, through mtime and mtimecmp writes, armed deadlines match epoch and mtimecmp. */
  lemma {:induction false} DeadlinesAlwaysOk(s: State, events: seq<Event>, from: Word)
    requires DeadlinesOk(s) && Runnable(s, events, from)
    ensures DeadlinesOk(Run(s, events, from))
    decreases |events|
  {
    if events != [] {
      StepDeadlines(s, events[0]);
      DeadlinesAlwaysOk(Step(s, events[0]), events[1..], events[0].now);
    }
  }

  lemma ResetDeadlines(harts: nat, now: Word)
    ensures DeadlinesOk(Reset(harts, now))
  {}

  /** In particular after every run from reset. */
  lemma DeadlinesFromReset(harts: nat, start: Word, events: seq<Event>, from: Word)
    requires Runnable(Reset(harts, start), events, from)
    ensures DeadlinesOk(Run(Reset(harts, start), events, from))
  {
    ResetDeadlines(harts, start);
    DeadlinesAlwaysOk(Reset(harts, start), events, from);
  }

  // ---- The timer line over runs ----

  /** The hart's timer has been programmed and its line lags the timer condition only while a check is due. */
  ghost predicate InStep(s: State, h: nat, now: Word)
    requires h < |s.irq|
  {
    && s.epoch <= now && TrueDeadline(s, h) < U64
    && (if s.armed[h] then MTIP !in s.irq[h] && s.deadline[h] == TrueDeadline(s, h)
        else MTIP in s.irq[h] && now >= TrueDeadline(s, h))
  }

  /** No wrap, and mtime is not set back below a comparison value that has already fired. */
  predicate Tame(s: State, e: Event, h: nat)
    requires h < |s.irq|
  {
    match e.op
    case Program(hart, v) => hart == h ==> s.epoch + NS_PER_TICK * v < U64
    case WriteTime(v) =>
      && NS_PER_TICK * v <= e.now && e.now - NS_PER_TICK * v + NS_PER_TICK * s.mtimecmp[h] < U64
      && (s.armed[h] || v >= s.mtimecmp[h])
    case _ => true
  }

  predicate AllTame(s: State, events: seq<Event>, from: Word, h: nat)
    requires Runnable(s, events, from) && h < |s.irq|
    decreases |events|
  {
    events == [] || (Tame(s, events[0], h) && AllTame(Step(s, events[0]), events[1..], events[0].now, h))
  }

  function LastTime(events: seq<Event>, from: Word): Word {
    if events == [] then from else events[|events| - 1].now
  }

  lemma TimeWriteInStep(s: State, v: Word, h: nat, from: Word, now: Word)
    requires h < |s.irq| && InStep(s, h, from) && from <= now && Tame(s, Event(WriteTime(v), now), h)
    ensures InStep(SetMtime(s, v, now), h, now)
  {
    var s' := SetMtime(s, v, now);
    assert s'.epoch == now - NS_PER_TICK * v;
    assert s'.deadline[h] == TrueDeadline(s', h);
  }

  lemma StepInStep(s: State, e: Event, h: nat, from: Word)
    requires Enabled(s, e.op) && h < |s.irq| && InStep(s, h, from) && from <= e.now && Tame(s, e, h)
    ensures InStep(Step(s, e), h, e.now)
  {
    if e.op.WriteTime? { TimeWriteInStep(s, e.op.v, h, from, e.now); }
  }

  lemma {:induction false} RunInStep(s: State, events: seq<Event>, from: Word, h: nat)
    requires h < |s.irq| && InStep(s, h, from) && Runnable(s, events, from) && AllTame(s, events, from, h)
    ensures |Run(s, events, from).irq| == |s.irq| && InStep(Run(s, events, from), h, LastTime(events, from))
    decreases |events|
  {
    if events != [] {
      var e := events[0];
      StepInStep(s, e, h, from);
      RunInStep(Step(s, e), events[1..], e.now, h);
    }
  }

  lemma CheckedLineIsRight(s: State, h: nat, now: Word)
    requires h < |s.irq| && InStep(s, h, now)
    ensures MTIP in Poll(s, h, now).irq[h] <==> TimeReached(s, h, now)
  {
    TicksReached(now - s.epoch, s.mtimecmp[h]);
  }

  /** From the moment a hart programs its timer, through any tame run, each check leaves MTIP up exactly when mtime
      has reached mtimecmp. */
  lemma TimerIsArchitectural(s: State, h: nat, v: Word, events: seq<Event>, now: Word, later: Word)
    requires h < |s.irq| && s.epoch <= now && s.epoch + NS_PER_TICK * v < U64
    requires var s0 := SetMtimecmp(s, h, v); Runnable(s0, events, now) && AllTame(s0, events, now, h)
    requires LastTime(events, now) <= later
    ensures var end := Run(SetMtimecmp(s, h, v), events, now);
      |end.irq| == |s.irq| && (MTIP in Poll(end, h, later).irq[h] <==> TimeReached(end, h, later))
  {
    var s0 := SetMtimecmp(s, h, v);
    RunInStep(s0, events, now, h);
    var end := Run(s0, events, now);
    CheckedLineIsRight(end, h, later);
  }

  /** A tame-looking mtime write keeps the timer in step exactly when it does not undo a timer that has fired. */
  lemma TimeWriteKeepsStepExactly(s: State, v: Word, h: nat, now: Word)
    requires h < |s.irq| && InStep(s, h, now)
    requires NS_PER_TICK * v <= now && now - NS_PER_TICK * v + NS_PER_TICK * s.mtimecmp[h] < U64
    ensures InStep(SetMtime(s, v, now), h, now) <==> s.armed[h] || v >= s.mtimecmp[h]
  {
    TicksReached(NS_PER_TICK * v, s.mtimecmp[h]);
  }
}
