/** LR, SC and AMO instructions under the atomic lock (rv_impl/atomics.c). */
module Atomics {
  import opened Bits
  import opened Types

  const LR := 0x02
  const SC := 0x03
  const SWAP := 0x01
  const ADD := 0x00
  const XOR := 0x04
  const OR := 0x08
  const AND := 0x0C
  const MIN := 0x10
  const MAX := 0x14
  const MINU := 0x18
  const MAXU := 0x1C

  /** Where one access of an instruction lands: the memory word its translation gives, or a fault. */
  datatype Target = Cell(index: nat) | Refused(fault: MemResult)

  /** One executed instruction: its fields and register operands, and the targets of its load and its store. */
  datatype Instr = Instr(hart: nat, word: Word, funct3: nat, funct5: nat, rs2Field: nat, addr: Word, rs2: Word,
                         load: Target, store: Target)

  /** The value written to rd, or the trap taken. */
  datatype Outcome = Wrote(value: Word) | Trapped(cause: Word, tval: Word)

  /** Memory as 32-bit words; the reservation of each hart, keyed by virtual address. */
  datatype System = System(mem: seq<Word32>, res: seq<Option<Word>>)

  predicate Narrow(i: Instr) { i.funct3 == 2 }

  function Cells(c: nat, narrow: bool): set<nat> { if narrow then {c} else {c, c + 1} }

  predicate InMemory(t: Target, narrow: bool, size: nat) {
    t.Cell? ==> t.index + (if narrow then 1 else 2) <= size
  }

  /** The instruction can run on a machine of this size. */
  predicate Fits(i: Instr, harts: nat, size: nat) {
    i.hart < harts && InMemory(i.load, Narrow(i), size) && InMemory(i.store, Narrow(i), size)
  }

  // ---- Values ----

  function SignExtend(v: Word32): Word { if v < 0x8000_0000 then v else v + (U64 - U32) }

  function Signed(v: Word, narrow: bool): int {
    if narrow then (if v < 0x8000_0000 then v else v - U32)
    else if v < U64 / 2 then v else v - U64
  }

  /** The unsigned value of a cell. */
  function RawLoad(mem: seq<Word32>, c: nat, narrow: bool): Word
    requires c + (if narrow then 1 else 2) <= |mem|
  {
    if narrow then mem[c] else mem[c] + U32 * mem[c + 1]
  }

  /** How a cell's value appears in a register. */
  function Extended(raw: Word, narrow: bool): Word
    requires narrow ==> raw < U32
  {
    if narrow then SignExtend(raw) else raw
  }

  function StoreCell(mem: seq<Word32>, c: nat, narrow: bool, v: Word): (r: seq<Word32>)
    requires c + (if narrow then 1 else 2) <= |mem|
    ensures |r| == |mem|
  {
    if narrow then mem[c := v % U32] else mem[c := v % U32][c + 1 := v / U32]
  }

  function Truncated(v: Word, narrow: bool): Word { if narrow then v % U32 else v }

  /** The new value; None for a funct5 that no AMO has. */
  function AmoValue(funct5: nat, narrow: bool, lhs: Word, rhs: Word): Option<Word> {
    if funct5 == SWAP then Some(rhs)
    else if funct5 == ADD then Some((lhs + rhs) % U64)
    else if funct5 == XOR then Some(Value((Ones(lhs) - Ones(rhs)) + (Ones(rhs) - Ones(lhs))))
    else if funct5 == OR then Some(Value(Ones(lhs) + Ones(rhs)))
    else if funct5 == AND then Some(Value(Ones(lhs) * Ones(rhs)))
    else if funct5 == MIN then Some(if Signed(lhs, narrow) < Signed(rhs, narrow) then lhs else rhs)
    else if funct5 == MAX then Some(if Signed(lhs, narrow) > Signed(rhs, narrow) then lhs else rhs)
    else if funct5 == MINU then Some(if lhs < rhs then lhs else rhs)
    else if funct5 == MAXU then Some(if lhs > rhs then lhs else rhs)
    else None
  }

  // ---- The instruction as one atomic step ----

  /** What is rejected before the lock is taken. */
  function EarlyTrap(i: Instr): Option<Outcome> {
    if i.funct3 != 2 && i.funct3 != 3 then Some(Trapped(CAUSE_ILLEGAL, i.word))
    else if i.addr % (if Narrow(i) then 4 else 8) != 0 then
      Some(Trapped(if i.funct5 == LR then CAUSE_LOAD_ALIGN else CAUSE_STORE_ALIGN, i.addr))
    else if i.funct5 == LR && i.rs2Field != 0 then Some(Trapped(CAUSE_ILLEGAL, i.word))
    else None
  }

  /** `rv_mem_cause` */
  function Fault(fault: MemResult, isLoad: bool, addr: Word): Outcome {
    Trapped(if fault == PageFault then (if isLoad then 13 else 15) else if isLoad then 5 else 7, addr)
  }

  function Invalidate(res: seq<Option<Word>>, addr: Word): (r: seq<Option<Word>>)
    ensures |r| == |res|
  {
    seq(|res|, k requires 0 <= k < |res| => if res[k] == Some(addr) then None else res[k])
  }

  function NewValue(i: Instr, raw: Word): Option<Word> {
    AmoValue(i.funct5, Narrow(i), raw, Truncated(i.rs2, Narrow(i)))
  }

  function AtomicAmo(s: System, i: Instr): (System, Outcome)
    requires Fits(i, |s.res|, |s.mem|)
  {
    if i.load.Refused? then (s, Fault(i.load.fault, false, i.addr))
    else
      var raw := RawLoad(s.mem, i.load.index, Narrow(i));
      var v := NewValue(i, raw);
      if v.None? then (s, Trapped(CAUSE_ILLEGAL, i.word))
      else if i.store.Refused? then (s, Fault(i.store.fault, false, i.addr))
      else
        (System(StoreCell(s.mem, i.store.index, Narrow(i), v.value), Invalidate(s.res, i.addr)), Wrote(Extended(raw, Narrow(i))))
  }

  function Atomic(s: System, i: Instr): (r: (System, Outcome))
    requires Fits(i, |s.res|, |s.mem|)
    ensures |r.0.res| == |s.res| && |r.0.mem| == |s.mem|
  {
    if EarlyTrap(i).Some? then (s, EarlyTrap(i).value)
    else if i.funct5 == LR then
      if i.load.Refused? then (s, Fault(i.load.fault, true, i.addr))
      else (s.(res := s.res[i.hart := Some(i.addr)]), Wrote(Extended(RawLoad(s.mem, i.load.index, Narrow(i)), Narrow(i))))
    else if i.funct5 == SC then
      if s.res[i.hart] != Some(i.addr) then (s, Wrote(1))
      else if i.store.Refused? then (s, Fault(i.store.fault, false, i.addr))
      else (System(StoreCell(s.mem, i.store.index, Narrow(i), i.rs2), s.res[i.hart := None]), Wrote(0))
    else AtomicAmo(s, i)
  }

  // ---- The code ----

  class Machine {
    const mem: array<Word32>
    const reservations: array<Option<Word>>

    constructor (harts: nat, size: nat)
      ensures fresh(mem) && fresh(reservations)
      ensures State() == System(seq(size, _ => 0), seq(harts, _ => None))
    {
      mem := new Word32[size](_ => 0);
      reservations := new Option<Word>[harts](_ => None);
    }

    function State(): System
      reads this, mem, reservations
    {
      System(mem[..], reservations[..])
    }

    method WriteCell(c: nat, narrow: bool, v: Word)
      requires c + (if narrow then 1 else 2) <= mem.Length
      modifies mem
      ensures mem[..] == StoreCell(old(mem[..]), c, narrow, v)
    {
      mem[c] := v % U32;
      if !narrow { mem[c + 1] := v / U32; }
    }

    /** The loop over all reservations after an AMO's store. */
    method InvalidateReservations(addr: Word)
      modifies reservations
      ensures reservations[..] == Invalidate(old(reservations[..]), addr)
    {
      ghost var before := reservations[..];
      for i := 0 to reservations.Length
        invariant forall k :: 0 <= k < i ==> reservations[k] == Invalidate(before, addr)[k]
        invariant forall k :: i <= k < reservations.Length ==> reservations[k] == before[k]
      {
        if reservations[i] == Some(addr) { reservations[i] := None; }
      }
      assert reservations[..] == Invalidate(before, addr);
    }

    /** `rv_atomic_op`, from its checks to the value for rd. */
    method AtomicOp(i: Instr) returns (out: Outcome)
      requires Fits(i, reservations.Length, mem.Length)
      modifies mem, reservations
      ensures (State(), out) == Atomic(old(State()), i)
    {
      var early := EarlyTrap(i);
      if early.Some? { return early.value; }
      if i.funct5 == LR {
        match i.load {
          case Refused(f) => return Fault(f, true, i.addr);
          case Cell(c) =>
            var val := RawLoad(mem[..], c, Narrow(i));
            reservations[i.hart] := Some(i.addr);
            return Wrote(Extended(val, Narrow(i)));
        }
      }
      if i.funct5 == SC {
        var success := reservations[i.hart] == Some(i.addr);
        if success {
          match i.store {
            case Refused(f) => return Fault(f, false, i.addr);
            case Cell(c) =>
              WriteCell(c, Narrow(i), i.rs2);
              reservations[i.hart] := None;
          }
        }
        return Wrote(if success then 0 else 1);
      }
      if i.load.Refused? { return Fault(i.load.fault, false, i.addr); }
      var raw := RawLoad(mem[..], i.load.index, Narrow(i));
      var newval := NewValue(i, raw);
      if newval.None? { return Trapped(CAUSE_ILLEGAL, i.word); }
      match i.store {
        case Refused(f) => return Fault(f, false, i.addr);
        case Cell(c) => WriteCell(c, Narrow(i), newval.value);
      }
      InvalidateReservations(i.addr);
      return Wrote(Extended(raw, Narrow(i)));
    }
  }
}
