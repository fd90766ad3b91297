/** The platform-level interrupt controller (rv_plic.c, rv_plic.h). */
module Plic {
  import opened Types

  const NUM_SOURCES := 64
  // Two 32-bit words hold the bits of ids 0..63; the priorities reach to 64.
  const REG_WORDS := 2
  const BITS := 64
  const LAST_SOURCE := 63
  const PRIORITIES := 65

  const PENDING_BASE := 0x001000
  const ENABLE_BASE := 0x002000
  const ENABLE_STRIDE := 0x80
  const CTX_BASE := 0x200000
  const CTX_STRIDE := 0x1000
  const OFF_THRESHOLD := 0
  const OFF_CLAIM := 4

  datatype ContextState = ContextState(threshold: Word32, enable: seq<bool>)

  type Context = c: ContextState | |c.enable| == BITS witness ContextState(0, seq(BITS, _ => false))

  /** Device registers, and the interrupt-pending register of every hart. Context 2h is hart h's M-mode, 2h+1 its S-mode. */
  datatype PlicState = PlicState(priority: seq<Word32>, pending: seq<bool>, contexts: seq<Context>, irq: seq<BitSet>) {
    predicate Valid() {
      |priority| == PRIORITIES && |pending| == BITS && |contexts| == 2 * |irq|
    }
  }

  type State = s: PlicState | s.Valid() witness PlicState(seq(PRIORITIES, _ => 0), seq(BITS, _ => false), [], [])

  /** Zeroed at initialisation. */
  function Reset(harts: nat): State {
    PlicState(seq(PRIORITIES, _ => 0), seq(BITS, _ => false), seq(2 * harts, _ => ContextState(0, seq(BITS, _ => false))),
              seq(harts, _ => {}))
  }

  /** Pending, enabled and above the context's threshold. */
  predicate Claimable(s: State, ctx: nat, src: nat)
    requires ctx < |s.contexts|
  {
    1 <= src <= LAST_SOURCE && s.pending[src] && s.contexts[ctx].enable[src] && s.priority[src] > s.contexts[ctx].threshold
  }

  predicate HasIrq(s: State, ctx: nat)
    requires ctx < |s.contexts|
  {
    exists src :: 1 <= src <= LAST_SOURCE && Claimable(s, ctx, src)
  }

  function WithLine(irq: BitSet, bit: nat, on: bool): BitSet
    requires bit < 64
  {
    if on then irq + {bit} else irq - {bit}
  }

  /** `plic_update_harts`: both external lines of every hart follow the controller. */
  function Updated(s: State): State {
    s.(irq := seq(|s.irq|, h requires 0 <= h < |s.irq| =>
      WithLine(WithLine(s.irq[h], MEIP, HasIrq(s, 2 * h)), SEIP, HasIrq(s, 2 * h + 1))))
  }

  /** The scan for the source to claim: strictly higher priority replaces the best so far. */
  function BestFrom(s: State, ctx: nat, src: nat, best: nat): (r: nat)
    requires ctx < |s.contexts| && 1 <= src <= LAST_SOURCE + 1 && best <= LAST_SOURCE
    ensures r <= LAST_SOURCE
    decreases LAST_SOURCE + 1 - src
  {
    if src > LAST_SOURCE then best
    else if Claimable(s, ctx, src) && s.priority[src] > (if best == 0 then 0 else s.priority[best]) then
      BestFrom(s, ctx, src + 1, src)
    else BestFrom(s, ctx, src + 1, best)
  }

  function Best(s: State, ctx: nat): nat
    requires ctx < |s.contexts|
  {
    BestFrom(s, ctx, 1, 0)
  }

  /** `plic_do_claim` */
  function Claim(s: State, ctx: nat): (nat, State) {
    if ctx >= |s.contexts| || Best(s, ctx) == 0 then (0, s)
    else (Best(s, ctx), Updated(s.(pending := s.pending[Best(s, ctx) := false])))
  }

  /** The code admits this source, whose bits lie past the end of its two-word arrays. */
  predicate OutOfBounds(src: nat) { src == NUM_SOURCES }

  /** `rv_plic_set_pending` */
  function SetPending(s: State, src: nat): State
    requires !OutOfBounds(src)
  {
    if src == 0 || src > NUM_SOURCES then s else Updated(s.(pending := s.pending[src := true]))
  }

  // ---- Registers ----

  function BitsOf(v: nat, n: nat): (b: seq<bool>)
    ensures |b| == n
    decreases n
  {
    if n == 0 then [] else [v % 2 == 1] + BitsOf(v / 2, n - 1)
  }

  function NumberOf(b: seq<bool>): nat {
    if b == [] then 0 else (if b[0] then 1 else 0) + 2 * NumberOf(b[1..])
  }

  function RegWord(bits: seq<bool>, word: nat): nat
    requires |bits| == BITS && word < REG_WORDS
  {
    NumberOf(bits[32 * word..32 * word + 32])
  }

  function WithWord(bits: seq<bool>, word: nat, v: nat): (r: seq<bool>)
    requires |bits| == BITS && word < REG_WORDS
    ensures |r| == BITS
  {
    bits[..32 * word] + BitsOf(v, 32) + bits[32 * word + 32..]
  }

  /** The register an offset addresses. */
  datatype Register = Priority(src: nat) | Pending(word: nat) | Enable(ctx: nat, word: nat) | Threshold(ctx: nat)
    | ClaimComplete(ctx: nat) | Unused

  function RegisterAt(offset: nat): Register {
    if offset < PENDING_BASE then Priority(offset / 4)
    else if offset < ENABLE_BASE then Pending((offset - PENDING_BASE) / 4)
    else if offset < CTX_BASE then
      Enable((offset - ENABLE_BASE) / ENABLE_STRIDE, (offset - ENABLE_BASE) % ENABLE_STRIDE / 4)
    else
      var ctx, reg := (offset - CTX_BASE) / CTX_STRIDE, (offset - CTX_BASE) % CTX_STRIDE;
      if reg == OFF_THRESHOLD then Threshold(ctx) else if reg == OFF_CLAIM then ClaimComplete(ctx) else Unused
  }

  /** What a 32-bit read returns; reading the claim register also claims. */
  function ReadRegister(s: State, reg: Register): nat {
    match reg
    case Priority(src) => if 1 <= src <= NUM_SOURCES then s.priority[src] else 0
    case Pending(word) => if word < REG_WORDS then RegWord(s.pending, word) else 0
    case Enable(ctx, word) => if ctx < |s.contexts| && word < REG_WORDS then RegWord(s.contexts[ctx].enable, word) else 0
    case Threshold(ctx) => if ctx < |s.contexts| then s.contexts[ctx].threshold else 0
    case ClaimComplete(ctx) => Claim(s, ctx).0
    case Unused => 0
  }

  /** `plic_read`: None is a refused size. */
  function Read(s: State, offset: nat, size: nat): (Option<nat>, State) {
    var reg := RegisterAt(offset);
    if size != 4 then (None, s)
    else (Some(ReadRegister(s, reg)), if reg.ClaimComplete? then Claim(s, reg.ctx).1 else s)
  }

  function WriteRegister(s: State, reg: Register, v: Word32): State {
    match reg
    case Priority(src) =>
      if 1 <= src <= NUM_SOURCES then Updated(s.(priority := s.priority[src := v])) else s
    case Enable(ctx, word) =>
      if ctx < |s.contexts| && word < REG_WORDS then
        var c := s.contexts[ctx].(enable := WithWord(s.contexts[ctx].enable, word, v));
        Updated(s.(contexts := s.contexts[ctx := c]))
      else s
    case Threshold(ctx) =>
      if ctx < |s.contexts| then Updated(s.(contexts := s.contexts[ctx := s.contexts[ctx].(threshold := v)])) else s
    case _ => s
  }

  /** `plic_write` past its size check. */
  function Write(s: State, offset: nat, v: Word32): State { WriteRegister(s, RegisterAt(offset), v) }

  /** Hart `h`'s lines when the update has reached context `ctx`. */
  function LinesBefore(s: State, h: nat, ctx: nat): BitSet
    requires h < |s.irq|
  {
    if ctx <= 2 * h then s.irq[h]
    else if ctx == 2 * h + 1 then WithLine(s.irq[h], MEIP, HasIrq(s, 2 * h))
    else Updated(s).irq[h]
  }

  // ---- The device ----

  class Device {
    var priority: seq<Word32>
    var pending: seq<bool>
    var contexts: seq<Context>
    // irq_pending of every hart of the machine
    var irq: seq<BitSet>

    constructor (harts: nat)
      ensures Valid() && State() == Reset(harts)
    {
      priority, pending := seq(PRIORITIES, _ => 0), seq(BITS, _ => false);
      contexts := seq(2 * harts, _ => ContextState(0, seq(BITS, _ => false)));
      irq := seq(harts, _ => {});
    }

    predicate Valid()
      reads this
    {
      PlicState(priority, pending, contexts, irq).Valid()
    }

    ghost function State(): State
      requires Valid()
      reads this
    {
      PlicState(priority, pending, contexts, irq)
    }

    /** The inner scan of an update: stop at the first claimable source. The code's last turn, for source 64, reads past
        the arrays and is not part of this model. */
    method ScanForIrq(ctx: nat) returns (hasIrq: bool)
      requires Valid() && ctx < |contexts|
      ensures hasIrq == HasIrq(State(), ctx)
    {
      var c := contexts[ctx];
      hasIrq := false;
      var src := 1;
      while src <= LAST_SOURCE && !hasIrq
        invariant 1 <= src <= LAST_SOURCE + 1
        invariant hasIrq ==> HasIrq(State(), ctx)
        invariant !hasIrq ==> forall k :: 1 <= k < src ==> !Claimable(State(), ctx, k)
      {
        if pending[src] && c.enable[src] && priority[src] > c.threshold {
          assert Claimable(State(), ctx, src);
          hasIrq := true;
        }
        src := src + 1;
      }
    }

    method UpdateHarts()
      requires Valid()
      modifies this`irq
      ensures Valid() && State() == Updated(old(State()))
    {
      ghost var s := State();
      for ctx := 0 to |contexts|
        invariant Valid() && |irq| == |s.irq|
        invariant forall h :: 0 <= h < |irq| ==> irq[h] == LinesBefore(s, h, ctx)
      {
        var hart, mode := ctx / 2, ctx % 2;
        var hasIrq := ScanForIrq(ctx);
        SameClaims(s, State(), ctx);
        var bit := if mode == 0 then MEIP else SEIP;
        if hasIrq {
          irq := irq[hart := irq[hart] + {bit}];
        } else {
          irq := irq[hart := irq[hart] - {bit}];
        }
      }
    }

    method DoClaim(ctx: nat) returns (best: nat)
      requires Valid()
      modifies this
      ensures Valid() && (best, State()) == Claim(old(State()), ctx)
    {
      if ctx >= |contexts| { return 0; }
      var c := contexts[ctx];
      var bestPri := 0;
      best := 0;
      for src := 1 to LAST_SOURCE + 1
        invariant best <= LAST_SOURCE && bestPri == (if best == 0 then 0 else priority[best])
        invariant Best(State(), ctx) == BestFrom(State(), ctx, src, best)
      {
        if !pending[src] || !c.enable[src] { continue; }
        if priority[src] <= c.threshold { continue; }
        if priority[src] > bestPri {
          bestPri := priority[src];
          best := src;
        }
      }
      if best != 0 {
        pending := pending[best := false];
        UpdateHarts();
      }
    }

    /** Not `inside` where the C program writes past the array; nothing is said beyond that point. */
    method RaiseSource(src: nat) returns (inside: bool)
      requires Valid()
      modifies this
      ensures Valid() && inside == !OutOfBounds(src)
      ensures State() == if inside then SetPending(old(State()), src) else old(State())
    {
      if src == 0 || src > NUM_SOURCES { return true; }
      if src / 32 >= REG_WORDS { return false; }
      inside := true;
      pending := pending[src := true];
      UpdateHarts();
    }

    method MmioRead(offset: nat, size: nat) returns (out: Option<nat>)
      requires Valid()
      modifies this
      ensures Valid() && (out, State()) == Read(old(State()), offset, size)
    {
      if size != 4 { return None; }
      out := Some(0);
      if offset < PENDING_BASE {
        var src := offset / 4;
        if 1 <= src <= NUM_SOURCES { out := Some(priority[src]); }
      } else if offset < ENABLE_BASE {
        var word := (offset - PENDING_BASE) / 4;
        if word < REG_WORDS { out := Some(RegWord(pending, word)); }
      } else if offset < CTX_BASE {
        var ctx, word := (offset - ENABLE_BASE) / ENABLE_STRIDE, (offset - ENABLE_BASE) % ENABLE_STRIDE / 4;
        if ctx < |contexts| && word < REG_WORDS { out := Some(RegWord(contexts[ctx].enable, word)); }
      } else {
        var ctx, reg := (offset - CTX_BASE) / CTX_STRIDE, (offset - CTX_BASE) % CTX_STRIDE;
        if ctx < |contexts| {
          if reg == OFF_THRESHOLD {
            out := Some(contexts[ctx].threshold);
          } else if reg == OFF_CLAIM {
            var src := DoClaim(ctx);
            out := Some(src);
          }
        }
      }
    }

    method MmioWrite(offset: nat, size: nat, v: Word32) returns (ok: bool)
      requires Valid()
      modifies this
      ensures Valid() && ok == (size == 4) && State() == if ok then Write(old(State()), offset, v) else old(State())
    {
      if size != 4 { return false; }
      ok := true;
      if offset < PENDING_BASE {
        var src := offset / 4;
        if 1 <= src <= NUM_SOURCES {
          priority := priority[src := v];
          UpdateHarts();
        }
      } else if offset < ENABLE_BASE {
      } else if offset < CTX_BASE {
        var ctx, word := (offset - ENABLE_BASE) / ENABLE_STRIDE, (offset - ENABLE_BASE) % ENABLE_STRIDE / 4;
        if ctx < |contexts| && word < REG_WORDS {
          contexts := contexts[ctx := contexts[ctx].(enable := WithWord(contexts[ctx].enable, word, v))];
          UpdateHarts();
        }
      } else {
        var ctx, reg := (offset - CTX_BASE) / CTX_STRIDE, (offset - CTX_BASE) % CTX_STRIDE;
        if ctx < |contexts| && reg == OFF_THRESHOLD {
          contexts := contexts[ctx := contexts[ctx].(threshold := v)];
          UpdateHarts();
        }
      }
    }
  }

  /** Claimability does not depend on the harts' lines. */
  lemma SameClaims(s: State, s': State, ctx: nat)
    requires s' == s.(irq := s'.irq) && ctx < |s.contexts|
    ensures HasIrq(s, ctx) == HasIrq(s', ctx)
  {
    assert forall src :: Claimable(s, ctx, src) == Claimable(s', ctx, src);
  }
}
