/** The core-local interruptor: mtime, per-hart mtimecmp and software interrupts (rv_clint.c). */
module Clint {
  import opened Bits
  import opened Types

  const NS_PER_TICK := 100
  const MTIMECMP_BASE := 0x4000
  const MTIME_OFFSET := 0xBFF8

  /** Times are in nanoseconds. `armed` and `irq` are fields of the harts. */
  datatype ClintState = ClintState(epoch: Word, mtimecmp: seq<Word>, deadline: seq<Word>, armed: seq<bool>, irq: seq<BitSet>) {
    predicate Valid() { |mtimecmp| == |deadline| == |armed| == |irq| }
  }

  type State = s: ClintState | s.Valid() witness ClintState(0, [], [], [], [])

  // 64-bit arithmetic.
  function Plus(a: Word, b: nat): Word { (a + b) % U64 }

  function Minus(a: Word, b: Word): Word { if b <= a then a - b else a + U64 - b }

  function Ticks(n: Word): Word { n * NS_PER_TICK % U64 }

  function Reset(harts: nat, now: Word): State {
    ClintState(now, seq(harts, _ => 0), seq(harts, _ => U64 - 1), seq(harts, _ => false), seq(harts, _ => {}))
  }

  function Mtime(s: State, now: Word): Word { Minus(now, s.epoch) / NS_PER_TICK }

  function SetMtimecmp(s: State, h: nat, v: Word): State
    requires h < |s.irq|
  {
    s.(irq := s.irq[h := s.irq[h] - {MTIP}], mtimecmp := s.mtimecmp[h := v],
       deadline := s.deadline[h := Plus(s.epoch, NS_PER_TICK * v)], armed := s.armed[h := true])
  }

  /** Every hart's deadline moves with the epoch; armed flags and pending bits stay. */
  function SetMtime(s: State, v: Word, now: Word): State {
    var epoch := Minus(now, Ticks(v));
    s.(epoch := epoch, deadline := seq(|s.irq|, i requires 0 <= i < |s.irq| => Plus(epoch, NS_PER_TICK * s.mtimecmp[i])))
  }

  function CheckTimer(s: State, h: nat, now: Word): State
    requires h < |s.irq|
  {
    if now >= s.deadline[h] then s.(irq := s.irq[h := s.irq[h] + {MTIP}], armed := s.armed[h := false]) else s
  }

  /** After each instruction a hart checks its timer if it is armed. */
  function Poll(s: State, h: nat, now: Word): State
    requires h < |s.irq|
  {
    if s.armed[h] then CheckTimer(s, h, now) else s
  }

  function SetMsip(s: State, h: nat, on: bool): State
    requires h < |s.irq|
  {
    s.(irq := s.irq[h := if on then s.irq[h] + {MSIP} else s.irq[h] - {MSIP}])
  }

  // ---- Registers ----

  datatype Register = TimeRegister | Compare(hart: nat) | Software(hart: nat) | NoRegister

  function RegisterAt(offset: nat, size: nat, harts: nat): (r: Register)
    ensures (r.Compare? || r.Software?) ==> r.hart < harts
  {
    if offset == MTIME_OFFSET && size == 8 then TimeRegister
    else if offset >= MTIMECMP_BASE && size == 8 && (offset - MTIMECMP_BASE) / 8 < harts && (offset - MTIMECMP_BASE) % 8 == 0 then
      Compare((offset - MTIMECMP_BASE) / 8)
    else if offset < MTIMECMP_BASE && size == 4 && offset / 4 < harts && offset % 4 == 0 then Software(offset / 4)
    else NoRegister
  }

  /** `clint_read`: None is a refused access. */
  function Read(s: State, offset: nat, size: nat, now: Word): Option<Word> {
    match RegisterAt(offset, size, |s.irq|)
    case TimeRegister => Some(Mtime(s, now))
    case Compare(h) => Some(s.mtimecmp[h])
    case Software(h) => Some(if MSIP in s.irq[h] then 1 else 0)
    case NoRegister => None
  }

  /** `clint_write`: None is a refused access. */
  function Write(s: State, offset: nat, size: nat, v: Word, now: Word): Option<State> {
    match RegisterAt(offset, size, |s.irq|)
    case TimeRegister => Some(SetMtime(s, v, now))
    case Compare(h) => Some(SetMtimecmp(s, h, v))
    case Software(h) => Some(SetMsip(s, h, v % 2 == 1))
    case NoRegister => None
  }

  // ---- The device ----

  class Device {
    var epoch: Word
    var mtimecmp: seq<Word>
    var deadline: seq<Word>
    // clint_timer_armed and irq_pending of every hart
    var armed: seq<bool>
    var irq: seq<BitSet>

    constructor (harts: nat, now: Word)
      ensures Valid() && State() == Reset(harts, now)
    {
      epoch := now;
      mtimecmp, deadline := seq(harts, _ => 0), seq(harts, _ => U64 - 1);
      armed, irq := seq(harts, _ => false), seq(harts, _ => {});
    }

    predicate Valid()
      reads this
    {
      ClintState(epoch, mtimecmp, deadline, armed, irq).Valid()
    }

    function State(): State
      requires Valid()
      reads this
    {
      ClintState(epoch, mtimecmp, deadline, armed, irq)
    }

    method StoreMtimecmp(h: nat, v: Word)
      requires Valid() && h < |irq|
      modifies this
      ensures Valid() && State() == SetMtimecmp(old(State()), h, v)
    {
      irq := irq[h := irq[h] - {MTIP}];
      mtimecmp := mtimecmp[h := v];
      deadline := deadline[h := Plus(epoch, NS_PER_TICK * v)];
      armed := armed[h := true];
    }

    method PollTimer(h: nat, now: Word)
      requires Valid() && h < |irq|
      modifies this`irq, this`armed
      ensures Valid() && State() == Poll(old(State()), h, now)
    {
      if armed[h] {
        if now >= deadline[h] {
          irq := irq[h := irq[h] + {MTIP}];
          armed := armed[h := false];
        }
      }
    }

    method StoreMtime(v: Word, now: Word)
      requires Valid()
      modifies this`epoch, this`deadline
      ensures Valid() && State() == SetMtime(old(State()), v, now)
    {
      var newEpoch := Minus(now, Ticks(v));
      epoch := newEpoch;
      ghost var before := deadline;
      for i := 0 to |irq|
        invariant Valid() && epoch == newEpoch && |deadline| == |before|
        invariant forall k :: 0 <= k < |deadline| ==>
          deadline[k] == if k < i then Plus(newEpoch, NS_PER_TICK * mtimecmp[k]) else before[k]
      {
        deadline := deadline[i := Plus(newEpoch, NS_PER_TICK * mtimecmp[i])];
      }
      assert deadline == SetMtime(old(State()), v, now).deadline;
    }

    method MmioWrite(offset: nat, size: nat, v: Word, now: Word) returns (ok: bool)
      requires Valid()
      modifies this
      ensures Valid()
      ensures match Write(old(State()), offset, size, v, now)
        case Some(s) => ok && State() == s
        case None => !ok && State() == old(State())
    {
      if offset == MTIME_OFFSET && size == 8 {
        StoreMtime(v, now);
        return true;
      }
      if offset >= MTIMECMP_BASE && size == 8 {
        var idx := (offset - MTIMECMP_BASE) / 8;
        if idx < |irq| && (offset - MTIMECMP_BASE) % 8 == 0 {
          StoreMtimecmp(idx, v);
          return true;
        }
      }
      if offset < MTIMECMP_BASE && size == 4 {
        var idx := offset / 4;
        if idx < |irq| && offset % 4 == 0 {
          if v % 2 == 1 {
            irq := irq[idx := irq[idx] + {MSIP}];
          } else {
            irq := irq[idx := irq[idx] - {MSIP}];
          }
          return true;
        }
      }
      return false;
    }
  }
}
