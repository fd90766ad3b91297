/** What bus accesses and timer checks do to the core-local interruptor (its register map in the RISC-V ACLINT
    specification), stated on its fields and offsets in nanoseconds. */
module ClintMeaning {
  import opened Types
  import opened Clint

  /** Time since the epoch on a clock of 64 bits. */
  predicate SinceEpoch(s: State, now: Word, elapsed: Word) {
    (s.epoch + elapsed) % 0x1_0000_0000_0000_0000 == now
  }

  /** mtime is the 64-bit register at 0xBFF8: ticks of 100 ns since the epoch. */
  lemma TimeReadOnBus(s: State, now: Word, elapsed: Word)
    requires SinceEpoch(s, now, elapsed)
    ensures Read(s, 0xBFF8, 8, now) == Some(elapsed / 100)
  {}

  /** Writing it moves the epoch so that it reads as written, if the written time fits the clock, and moves every deadline to
      its comparison value counted from there; nothing else changes. */
  lemma TimeWrittenOnBus(s: State, v: Word, now: Word)
    ensures Write(s, 0xBFF8, 8, v, now).Some?
    ensures var s' := Write(s, 0xBFF8, 8, v, now).value;
      && (100 * v < 0x1_0000_0000_0000_0000 ==> SinceEpoch(s', now, 100 * v))
      && s' == s.(epoch := s'.epoch, deadline := s'.deadline)
      && forall h :: 0 <= h < |s.irq| ==>
        var compare: nat := s.mtimecmp[h]; s'.deadline[h] == (s'.epoch + 100 * compare) % 0x1_0000_0000_0000_0000
  {}

  lemma CompareAt(h: nat, harts: nat)
    requires h < harts
    ensures RegisterAt(0x4000 + 8 * h, 8, harts) == if h == 0xFFF then TimeRegister else Compare(h)
  {
    assert (8 * h) / 8 == h && (8 * h) % 8 == 0;
  }

  /** The comparison value of hart `h` is the 64-bit register at 0x4000 + 8 * h. Writing it takes line 7 down, arms the check
      and sets the deadline; no other hart is concerned. Hart 4095's register is hidden by mtime's. */
  lemma CompareOnBus(s: State, h: nat, offset: nat, v: Word, now: Word)
    requires h < |s.irq| && h != 0xFFF && offset == 0x4000 + 8 * h
    ensures Read(s, offset, 8, now) == Some(s.mtimecmp[h])
    ensures Write(s, offset, 8, v, now) == Some(s.(
      mtimecmp := s.mtimecmp[h := v], armed := s.armed[h := true], irq := s.irq[h := s.irq[h] - {7}],
      deadline := s.deadline[h := (s.epoch + 100 * v) % 0x1_0000_0000_0000_0000]))
  {
    CompareAt(h, |s.irq|);
  }

  lemma SoftwareAt(h: nat, harts: nat)
    requires h < harts && h < 0x1000
    ensures RegisterAt(4 * h, 4, harts) == Software(h)
  {}

  /** Bit 0 of the 32-bit register at 4 * h is line 3 of hart `h`. */
  lemma SoftwareOnBus(s: State, h: nat, offset: nat, v: Word, now: Word)
    requires h < |s.irq| && h < 0x1000 && offset == 4 * h
    ensures Read(s, offset, 4, now) == Some(if 3 in s.irq[h] then 1 else 0)
    ensures Write(s, offset, 4, v, now) == Some(s.(irq := s.irq[h := if v % 2 == 1 then s.irq[h] + {3} else s.irq[h] - {3}]))
  {
    SoftwareAt(h, |s.irq|);
  }

  /** Every other access is refused. */
  lemma RefusedExactly(s: State, offset: nat, size: nat, v: Word, now: Word)
    ensures var served :=
        || (size == 8 && (offset == 0xBFF8 || (offset >= 0x4000 && offset % 8 == 0 && offset < 0x4000 + 8 * |s.irq|)))
        || (size == 4 && offset < 0x4000 && offset % 4 == 0 && offset < 4 * |s.irq|);
      Read(s, offset, size, now).Some? == served && Write(s, offset, size, v, now).Some? == served
  {}

  /** A check raises line 7 and disarms itself exactly when it is armed and the clock has reached the deadline. */
  lemma CheckedExactly(s: State, h: nat, now: Word)
    requires h < |s.irq|
    ensures Poll(s, h, now) ==
      if s.armed[h] && now >= s.deadline[h] then s.(irq := s.irq[h := s.irq[h] + {7}], armed := s.armed[h := false]) else s
  {}
}
