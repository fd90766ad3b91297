/** Claims, draining, conservation and the interrupt lines of the PLIC. */
module PlicProofs {
  import opened Types
  import opened Plic
  import opened Hart
  import opened CsrAccess

  // ---- A claim takes the most important source ----

  /** `a` is delivered before `b`: higher priority, or the lower number among equals. */
  predicate Before(priority: seq<Word32>, a: nat, b: nat) {
    && a < |priority| && b < |priority|
    && (priority[a] > priority[b] || (priority[a] == priority[b] && a < b))
  }

  /** Among the sources below `end`, `r` is the one a claim must take: 0 when none is claimable. */
  predicate Foremost(s: State, ctx: nat, r: nat, end: nat)
    requires ctx < |s.contexts|
  {
    if r == 0 then forall c :: 1 <= c < end ==> !Claimable(s, ctx, c)
    else r < end && Claimable(s, ctx, r) && forall c :: 1 <= c < end && c != r && Claimable(s, ctx, c) ==> Before(s.priority, r, c)
  }

  /** The scan keeps the foremost of what it has seen. */
  lemma {:induction false} ScanKeepsForemost(s: State, ctx: nat, src: nat, best: nat)
    requires ctx < |s.contexts| && 1 <= src <= LAST_SOURCE + 1 && best < src && Foremost(s, ctx, best, src)
    ensures Foremost(s, ctx, BestFrom(s, ctx, src, best), LAST_SOURCE + 1)
    decreases LAST_SOURCE + 1 - src
  {
    if src <= LAST_SOURCE {
      var take := Claimable(s, ctx, src) && s.priority[src] > (if best == 0 then 0 else s.priority[best]);
      ScanKeepsForemost(s, ctx, src + 1, if take then src else best);
    }
  }

  /** A claim returns 0 exactly when nothing is claimable, else the source delivered before all others. */
  lemma ClaimIsForemost(s: State, ctx: nat)
    requires ctx < |s.contexts|
    ensures Foremost(s, ctx, Claim(s, ctx).0, LAST_SOURCE + 1)
    ensures Claim(s, ctx).0 == 0 <==> !HasIrq(s, ctx)
  {
    ScanKeepsForemost(s, ctx, 1, 0);
  }

  /** A claim removes its source from what is claimable, in every context, and nothing else. */
  lemma ClaimRemoves(s: State, ctx: nat, other: nat, c: nat)
    requires ctx < |s.contexts| && other < |s.contexts| && 1 <= c <= LAST_SOURCE
    ensures var (src, s') := Claim(s, ctx);
      Claimable(s', other, c) == (Claimable(s, other, c) && c != src)
  {}

  // ---- Draining ----

  function PendingFrom(pending: seq<bool>): nat {
    if pending == [] then 0 else (if pending[0] then 1 else 0) + PendingFrom(pending[1..])
  }

  lemma {:induction false} ClearingReduces(pending: seq<bool>, i: nat)
    requires i < |pending| && pending[i]
    ensures PendingFrom(pending[i := false]) + 1 == PendingFrom(pending)
    decreases |pending|
  {
    if i == 0 {
      assert pending[0 := false][1..] == pending[1..];
    } else {
      assert pending[i := false][1..] == pending[1..][i - 1 := false];
      ClearingReduces(pending[1..], i - 1);
    }
  }

  lemma ClaimReduces(s: State, ctx: nat)
    requires ctx < |s.contexts| && Best(s, ctx) != 0
    ensures PendingFrom(Claim(s, ctx).1.pending) < PendingFrom(s.pending)
    ensures |Claim(s, ctx).1.contexts| == |s.contexts|
  {
    ClaimIsForemost(s, ctx);
    ClearingReduces(s.pending, Best(s, ctx));
  }

  /** Claim until 0 comes back; terminates because each claim clears a pending bit. */
  function Drain(s: State, ctx: nat): seq<nat>
    requires ctx < |s.contexts|
    decreases PendingFrom(s.pending)
  {
    if Best(s, ctx) == 0 then []
    else
      ClaimReduces(s, ctx);
      [Best(s, ctx)] + Drain(Claim(s, ctx).1, ctx)
  }

  /** Draining yields exactly the claimable sources. */
  lemma {:induction false} DrainIsExact(s: State, ctx: nat)
    requires ctx < |s.contexts|
    ensures forall c :: c in Drain(s, ctx) <==> 1 <= c <= LAST_SOURCE && Claimable(s, ctx, c)
    decreases PendingFrom(s.pending)
  {
    ClaimIsForemost(s, ctx);
    if Best(s, ctx) != 0 {
      ClaimReduces(s, ctx);
      var (src, s') := Claim(s, ctx);
      DrainIsExact(s', ctx);
      forall c ensures c in Drain(s, ctx) <==> 1 <= c <= LAST_SOURCE && Claimable(s, ctx, c) {
        if 1 <= c <= LAST_SOURCE { ClaimRemoves(s, ctx, ctx, c); }
      }
    }
  }

  /** Delivery order: descending priority, then ascending number; so without repetition. */
  predicate Ordered(priority: seq<Word32>, d: seq<nat>) {
    forall i, j :: 0 <= i < j < |d| ==> Before(priority, d[i], d[j])
  }

  lemma PrependOrdered(priority: seq<Word32>, x: nat, rest: seq<nat>)
    requires Ordered(priority, rest) && forall c :: c in rest ==> Before(priority, x, c)
    ensures Ordered(priority, [x] + rest)
  {
    var d := [x] + rest;
    forall i, j | 0 <= i < j < |d| ensures Before(priority, d[i], d[j]) {
      assert d[j] == rest[j - 1];
      if i > 0 { assert d[i] == rest[i - 1]; }
    }
  }

  lemma LaterAreBehind(s: State, ctx: nat, c: nat)
    requires ctx < |s.contexts| && Best(s, ctx) != 0 && c in Drain(Claim(s, ctx).1, ctx)
    ensures Before(s.priority, Best(s, ctx), c)
  {
    ClaimIsForemost(s, ctx);
    DrainIsExact(Claim(s, ctx).1, ctx);
    ClaimRemoves(s, ctx, ctx, c);
  }

  lemma {:induction false} DrainIsOrdered(s: State, ctx: nat)
    requires ctx < |s.contexts|
    ensures Ordered(s.priority, Drain(s, ctx))
    decreases PendingFrom(s.pending)
  {
    if Best(s, ctx) != 0 {
      ClaimReduces(s, ctx);
      var s' := Claim(s, ctx).1;
      DrainIsOrdered(s', ctx);
      forall c | c in Drain(s', ctx) ensures Before(s.priority, Best(s, ctx), c) { LaterAreBehind(s, ctx, c); }
      PrependOrdered(s.priority, Best(s, ctx), Drain(s', ctx));
    }
  }

  // ---- Runs ----

  datatype Op =
    // A device raises a source whose bits the arrays hold.
    | Raise(src: nat)
    | ReadReg(offset: nat, size: nat)
    | WriteReg(offset: nat, v: Word32)
    // A hart writes mip or sip: only the software-writable bits in `mask` change.
    | CsrIrq(hart: nat, mask: BitSet, w: BitSet)
    // The CLINT sets or clears software and timer lines.
    | ClintIrq(hart: nat, bit: nat, on: bool)

  predicate Enabled(s: State, op: Op) {
    match op
    case CsrIrq(h, mask, w) => h < |s.irq| && mask <= SipMask()
    case ClintIrq(h, bit, on) => h < |s.irq| && bit in {MSIP, MTIP}
    case Raise(src) => !OutOfBounds(src)
    case _ => true
  }

  function Step(s: State, op: Op): State
    requires Enabled(s, op)
  {
    match op
    case Raise(src) => SetPending(s, src)
    case ReadReg(offset, size) => Read(s, offset, size).1
    case WriteReg(offset, v) => Write(s, offset, v)
    case CsrIrq(h, mask, w) => s.(irq := s.irq[h := (s.irq[h] - mask) + (w * mask)])
    case ClintIrq(h, bit, on) => s.(irq := s.irq[h := WithLine(s.irq[h], bit, on)])
  }

  /** The context whose claim register an access reads, if any. */
  function ClaimedBy(s: State, op: Op): Option<nat> {
    if op.ReadReg? && op.size == 4 && RegisterAt(op.offset).ClaimComplete? && RegisterAt(op.offset).ctx < |s.contexts|
    then Some(RegisterAt(op.offset).ctx) else None
  }

  function ClaimsOf(s: State, op: Op, src: nat): nat {
    match ClaimedBy(s, op)
    case None => 0
    case Some(ctx) => if Claim(s, ctx).0 == src then 1 else 0
  }

  function RaisesOf(op: Op, src: nat): nat { if op == Raise(src) then 1 else 0 }

  predicate Runnable(s: State, ops: seq<Op>)
    decreases |ops|
  {
    ops == [] || (Enabled(s, ops[0]) && Runnable(Step(s, ops[0]), ops[1..]))
  }

  function Run(s: State, ops: seq<Op>): State
    requires Runnable(s, ops)
    decreases |ops|
  {
    if ops == [] then s else Run(Step(s, ops[0]), ops[1..])
  }

  /** How often a run, through whatever contexts, claims the source. */
  function Claims(s: State, ops: seq<Op>, src: nat): nat
    requires Runnable(s, ops)
    decreases |ops|
  {
    if ops == [] then 0 else ClaimsOf(s, ops[0], src) + Claims(Step(s, ops[0]), ops[1..], src)
  }

  function Raises(ops: seq<Op>, src: nat): nat {
    if ops == [] then 0 else RaisesOf(ops[0], src) + Raises(ops[1..], src)
  }

  function PendingBit(s: State, src: nat): nat
    requires src <= LAST_SOURCE
  {
    if s.pending[src] then 1 else 0
  }

  /** The only effect a register access has on the pending bits is that of the claim it may perform. */
  lemma PendingAfter(s: State, op: Op)
    requires Enabled(s, op) && (op.ReadReg? || op.WriteReg?)
    ensures Step(s, op).pending == match ClaimedBy(s, op) case None => s.pending case Some(ctx) => Claim(s, ctx).1.pending
  {}

  lemma StepConserves(s: State, op: Op, src: nat)
    requires Enabled(s, op) && 1 <= src <= LAST_SOURCE
    ensures ClaimsOf(s, op, src) + PendingBit(Step(s, op), src) <= RaisesOf(op, src) + PendingBit(s, src)
  {
    if op.ReadReg? || op.WriteReg? {
      PendingAfter(s, op);
      var ctx := ClaimedBy(s, op);
      if ctx.Some? { ClaimIsForemost(s, ctx.value); }
    }
  }

  /** Over any interleaving of contexts, a source is claimed at most as often as it was raised. */
  lemma {:induction false} ClaimsNeverExceedRaises(s: State, ops: seq<Op>, src: nat)
    requires Runnable(s, ops) && 1 <= src <= LAST_SOURCE
    ensures Claims(s, ops, src) + PendingBit(Run(s, ops), src) <= Raises(ops, src) + PendingBit(s, src)
    decreases |ops|
  {
    if ops != [] {
      StepConserves(s, ops[0], src);
      ClaimsNeverExceedRaises(Step(s, ops[0]), ops[1..], src);
    }
  }

  // ---- Lines ----

  /** Every hart's machine external line shows whether its M-mode context has an interrupt. */
  ghost predicate MeipOk(s: State) {
    forall h :: 0 <= h < |s.irq| ==> (MEIP in s.irq[h] <==> HasIrq(s, 2 * h))
  }

  ghost predicate SeipOk(s: State) {
    forall h :: 0 <= h < |s.irq| ==> (SEIP in s.irq[h] <==> HasIrq(s, 2 * h + 1))
  }

  lemma UpdatedLines(s: State)
    ensures MeipOk(Updated(s)) && SeipOk(Updated(s))
  {
    var s' := Updated(s);
    forall ctx | 0 <= ctx < |s.contexts| ensures HasIrq(s, ctx) == HasIrq(s', ctx) {
      SameClaims(s, s', ctx);
    }
  }

  ghost predicate Refreshed(s: State) { exists before: State :: s == Updated(before) }

  /** A controller step either re-evaluates every line as its last action or changes nothing. */
  lemma ControllerStep(s: State, op: Op)
    requires Enabled(s, op) && !op.CsrIrq? && !op.ClintIrq?
    ensures Step(s, op) == s || Refreshed(Step(s, op))
  {}

  lemma LineStep(s: State, op: Op)
    requires MeipOk(s) && Enabled(s, op)
    ensures MeipOk(Step(s, op))
    ensures !op.CsrIrq? && !op.ClintIrq? && Step(s, op) != s ==> SeipOk(Step(s, op))
  {
    var s' := Step(s, op);
    if op.CsrIrq? || op.ClintIrq? {
      forall h | 0 <= h < |s.irq| ensures HasIrq(s, 2 * h) == HasIrq(s', 2 * h) {
        SameClaims(s, s', 2 * h);
      }
    } else {
      ControllerStep(s, op);
      if s' != s {
        var before: State :| s' == Updated(before);
        UpdatedLines(before);
      }
    }
  }

  /** In every reachable state MEIP is the controller's answer; CSR and CLINT steps cannot break it. */
  lemma {:induction false} MeipAlwaysOk(s: State, ops: seq<Op>)
    requires MeipOk(s) && Runnable(s, ops)
    ensures MeipOk(Run(s, ops))
    decreases |ops|
  {
    if ops != [] {
      LineStep(s, ops[0]);
      MeipAlwaysOk(Step(s, ops[0]), ops[1..]);
    }
  }

  lemma ResetLines(harts: nat)
    ensures MeipOk(Reset(harts)) && SeipOk(Reset(harts))
  {}

  /** In particular after every run from reset. */
  lemma LinesFromReset(harts: nat, ops: seq<Op>)
    requires Runnable(Reset(harts), ops)
    ensures MeipOk(Run(Reset(harts), ops))
    ensures AlwaysSeipOk(Reset(harts), ops) <==> AllHonest(Reset(harts), ops)
  {
    ResetLines(harts);
    MeipAlwaysOk(Reset(harts), ops);
    SeipAlwaysOkExactly(Reset(harts), ops);
  }

  /** While the line is right, a claim by the hart's M-mode context finds a source exactly when MEIP is up. */
  lemma MeipMeansClaimSucceeds(s: State, hart: nat)
    requires MeipOk(s) && hart < |s.irq|
    ensures MEIP in s.irq[hart] <==> Claim(s, 2 * hart).0 != 0
  {
    ClaimIsForemost(s, 2 * hart);
  }

  /** A hart's own CSR write moves only software-writable lines, so it is a `CsrIrq` step and keeps MEIP right. */
  lemma CsrWriteKeepsMeip(s: State, hart: nat, h: HartState, index: nat, w: Word)
    requires MeipOk(s) && hart < |s.irq| && s.irq[hart] == h.irqPending
    ensures match CsrWrite(h, index, w)
      case None => true
      case Some(h') => MeipOk(s.(irq := s.irq[hart := h'.irqPending]))
  {
    var r := CsrWrite(h, index, w);
    if r.Some? {
      var mask := if index == 0x344 then SipMask() else if index == 0x144 then h.csr.mideleg * SipMask() else {};
      assert r.value.irqPending == (h.irqPending - mask) + (Ones(w) * mask);
      LineStep(s, CsrIrq(hart, mask, Ones(w)));
    }
  }

  /** A software write of the S-mode line writes the controller's own answer. */
  predicate Honest(s: State, op: Op)
    requires Enabled(s, op)
  {
    op.CsrIrq? && SEIP in op.mask ==> (SEIP in op.w <==> HasIrq(s, 2 * op.hart + 1))
  }

  /** A write of mip or sip keeps the S-mode line right exactly when it leaves it alone or writes the right value. */
  lemma SeipKeptExactly(s: State, h: nat, mask: BitSet, w: BitSet)
    requires SeipOk(s) && Enabled(s, CsrIrq(h, mask, w))
    ensures SeipOk(Step(s, CsrIrq(h, mask, w))) <==> (SEIP in mask ==> (SEIP in w <==> HasIrq(s, 2 * h + 1)))
  {
    var s' := Step(s, CsrIrq(h, mask, w));
    assert SEIP in s'.irq[h] <==> if SEIP in mask then SEIP in w else SEIP in s.irq[h];
    forall k | 0 <= k < |s.irq| ensures HasIrq(s, 2 * k + 1) == HasIrq(s', 2 * k + 1) {
      SameClaims(s, s', 2 * k + 1);
    }
  }

  lemma SeipStepExactly(s: State, op: Op)
    requires SeipOk(s) && Enabled(s, op)
    ensures SeipOk(Step(s, op)) <==> Honest(s, op)
  {
    var s' := Step(s, op);
    if op.CsrIrq? {
      SeipKeptExactly(s, op.hart, op.mask, op.w);
    } else if op.ClintIrq? {
      forall h | 0 <= h < |s.irq| ensures HasIrq(s, 2 * h + 1) == HasIrq(s', 2 * h + 1) {
        SameClaims(s, s', 2 * h + 1);
      }
    } else {
      ControllerStep(s, op);
      if s' != s {
        var before: State :| s' == Updated(before);
        UpdatedLines(before);
      }
    }
  }

  predicate AllHonest(s: State, ops: seq<Op>)
    requires Runnable(s, ops)
    decreases |ops|
  {
    ops == [] || (Honest(s, ops[0]) && AllHonest(Step(s, ops[0]), ops[1..]))
  }

  ghost predicate AlwaysSeipOk(s: State, ops: seq<Op>)
    requires Runnable(s, ops)
    decreases |ops|
  {
    SeipOk(s) && (ops == [] || AlwaysSeipOk(Step(s, ops[0]), ops[1..]))
  }

  /** SEIP is the controller's answer in every state of a run exactly when every software write of it is honest. */
  lemma {:induction false} SeipAlwaysOkExactly(s: State, ops: seq<Op>)
    requires SeipOk(s) && Runnable(s, ops)
    ensures AlwaysSeipOk(s, ops) <==> AllHonest(s, ops)
    decreases |ops|
  {
    if ops != [] {
      SeipStepExactly(s, ops[0]);
      if SeipOk(Step(s, ops[0])) { SeipAlwaysOkExactly(Step(s, ops[0]), ops[1..]); }
    }
  }

  /** From reset, one write of mip can make the S-mode line disagree with the controller. */
  lemma SeipCanBeOverwritten()
    ensures var s := Reset(1); SeipOk(s) && !SeipOk(Step(s, CsrIrq(0, {SEIP}, {SEIP})))
  {
    ResetLines(1);
    SeipKeptExactly(Reset(1), 0, {SEIP}, {SEIP});
  }

  // ---- Register words ----

  lemma {:induction false} BitsRoundTrip(v: nat, n: nat)
    ensures v < Power2(n) ==> NumberOf(BitsOf(v, n)) == v
    decreases n
  {
    if n > 0 { BitsRoundTrip(v / 2, n - 1); }
  }

  lemma Power2Is32()
    ensures Power2(32) == 0x1_0000_0000
  {
    assert Power2(4) == 16;
    Power2Sum(4, 4);
    Power2Sum(8, 8);
    Power2Sum(16, 16);
  }

  lemma SplicedWord(bits: seq<bool>, word: nat, mid: seq<bool>)
    requires |bits| == BITS && word < REG_WORDS && |mid| == 32
    ensures var after := bits[..32 * word] + mid + bits[32 * word + 32..];
      && after[32 * word..32 * word + 32] == mid
      && after[32 * (1 - word)..32 * (1 - word) + 32] == bits[32 * (1 - word)..32 * (1 - word) + 32]
  {
    if word == 0 {
    } else {
      assert word == 1;
    }
  }

  lemma WordReadBack(bits: seq<bool>, word: nat, v: Word32)
    requires |bits| == BITS && word < REG_WORDS
    ensures RegWord(WithWord(bits, word, v), word) == v
    ensures RegWord(WithWord(bits, word, v), 1 - word) == RegWord(bits, 1 - word)
  {
    var mid := BitsOf(v, 32);
    assert NumberOf(mid) == v by {
      Power2Is32();
      BitsRoundTrip(v, 32);
    }
    SplicedWord(bits, word, mid);
  }

  function EnableOffset(ctx: nat, word: nat): nat { ENABLE_BASE + ctx * ENABLE_STRIDE + 4 * word }

  lemma EnableAddress(ctx: nat, word: nat)
    requires ctx < 0x3FC0 && word < REG_WORDS
    ensures RegisterAt(EnableOffset(ctx, word)) == Enable(ctx, word)
  {
    assert (ctx * 0x80 + 4 * word) / 0x80 == ctx;
    assert (ctx * 0x80 + 4 * word) % 0x80 == 4 * word;
  }

  lemma EnableAfterWrite(s: State, ctx: nat, word: nat, v: Word32)
    requires ctx < |s.contexts| && word < REG_WORDS
    ensures var s' := WriteRegister(s, Enable(ctx, word), v);
      |s'.contexts| == |s.contexts| && s'.contexts[ctx].enable == WithWord(s.contexts[ctx].enable, word, v)
  {}

  /** An enable word reads back as written, and its neighbour is untouched. */
  lemma EnableWordReadBack(s: State, ctx: nat, word: nat, v: Word32)
    requires ctx < |s.contexts| && word < REG_WORDS
    ensures ReadRegister(WriteRegister(s, Enable(ctx, word), v), Enable(ctx, word)) == v
    ensures ReadRegister(WriteRegister(s, Enable(ctx, word), v), Enable(ctx, 1 - word)) == ReadRegister(s, Enable(ctx, 1 - word))
  {
    var bits := s.contexts[ctx].enable;
    WordReadBack(bits, word, v);
    EnableAfterWrite(s, ctx, word, v);
  }

  lemma ReadBackAt(s: State, at: nat, beside: nat, ctx: nat, word: nat, v: Word32)
    requires ctx < |s.contexts| && word < REG_WORDS
    requires RegisterAt(at) == Enable(ctx, word) && RegisterAt(beside) == Enable(ctx, 1 - word)
    ensures var s' := Write(s, at, v);
      Read(s', at, 4) == (Some(v), s') && Read(s', beside, 4).0 == Read(s, beside, 4).0
  {
    EnableWordReadBack(s, ctx, word, v);
  }

  /** The same on the bus: reading the word's offset gives what was written there, and the other word as before. */
  lemma EnableReadBackOnBus(s: State, ctx: nat, word: nat, at: nat, beside: nat, v: Word32)
    requires ctx < |s.contexts| && ctx < 0x3FC0 && word < REG_WORDS
    requires at == EnableOffset(ctx, word) && beside == EnableOffset(ctx, 1 - word)
    ensures var s' := Write(s, at, v);
      Read(s', at, 4) == (Some(v), s') && Read(s', beside, 4).0 == Read(s, beside, 4).0
  {
    EnableAddress(ctx, word);
    EnableAddress(ctx, 1 - word);
    ReadBackAt(s, at, beside, ctx, word, v);
  }

  predicate Exists(s: State, reg: Register) {
    match reg
    case Priority(src) => 1 <= src <= NUM_SOURCES
    case Threshold(ctx) => ctx < |s.contexts|
    case _ => false
  }

  /** Priorities and thresholds read back as written, and a write to one leaves every other register as it was. */
  lemma RegisterReadBack(s: State, reg: Register, other: Register, v: Word32)
    requires Exists(s, reg) && other != reg && !other.ClaimComplete?
    ensures ReadRegister(WriteRegister(s, reg, v), reg) == v
    ensures ReadRegister(WriteRegister(s, reg, v), other) == ReadRegister(s, other)
  {}
}
