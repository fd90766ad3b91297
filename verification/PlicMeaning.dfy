/** What bus accesses and device signals do to the interrupt controller (the RISC-V PLIC specification's register map),
    stated on its fields and offsets. */
module PlicMeaning {
  import opened Types
  import opened Plic
  import opened PlicProofs

  // ---- What can be claimed ----

  /** The source is pending, enabled for the context, and of higher priority than the context's threshold. */
  predicate Ready(s: State, ctx: nat, c: nat)
    requires ctx < |s.contexts|
  {
    1 <= c <= 63 && s.pending[c] && s.contexts[ctx].enable[c] && s.priority[c] > s.contexts[ctx].threshold
  }

  predicate SomeReady(s: State, ctx: nat)
    requires ctx < |s.contexts|
  {
    exists c :: 1 <= c <= 63 && Ready(s, ctx, c)
  }

  /** Line 11 of every hart shows its even context, line 9 its odd one. */
  ghost predicate LinesShow(s: State) {
    forall h :: 0 <= h < |s.irq| ==>
      (11 in s.irq[h] <==> SomeReady(s, 2 * h)) && (9 in s.irq[h] <==> SomeReady(s, 2 * h + 1))
  }

  ghost predicate OtherLinesSame(s: State, s': State) {
    |s'.irq| == |s.irq| && forall h :: 0 <= h < |s.irq| ==> s'.irq[h] - {9, 11} == s.irq[h] - {9, 11}
  }

  lemma ReadyIs(s: State, ctx: nat)
    requires ctx < |s.contexts|
    ensures forall c :: Ready(s, ctx, c) == Claimable(s, ctx, c)
    ensures SomeReady(s, ctx) == HasIrq(s, ctx)
  {
    assert forall c :: Ready(s, ctx, c) == Claimable(s, ctx, c);
  }

  lemma LinesShown(s: State)
    ensures LinesShow(Updated(s)) && OtherLinesSame(s, Updated(s))
  {
    var s' := Updated(s);
    UpdatedLines(s);
    forall h | 0 <= h < |s'.irq| ensures (11 in s'.irq[h] <==> SomeReady(s', 2 * h)) && (9 in s'.irq[h] <==> SomeReady(s', 2 * h + 1)) {
      ReadyIs(s', 2 * h);
      ReadyIs(s', 2 * h + 1);
    }
  }

  /** The state is as described by its registers, with every line showing them. */
  ghost predicate BecomesWith(s: State, s': State, priority: seq<Word32>, pending: seq<bool>, contexts: seq<Context>) {
    && s'.priority == priority && s'.pending == pending && s'.contexts == contexts
    && LinesShow(s') && OtherLinesSame(s, s')
  }

  // ---- Claims ----

  /** Nothing is claimed exactly when nothing is ready; else the source of highest priority and, among equals, lowest number. */
  ghost predicate ClaimedRightly(s: State, ctx: nat, r: nat)
    requires ctx < |s.contexts|
  {
    if r == 0 then !SomeReady(s, ctx)
    else Ready(s, ctx, r) && forall c :: 1 <= c <= 63 && c != r && Ready(s, ctx, c) ==>
      s.priority[c] < s.priority[r] || (s.priority[c] == s.priority[r] && r < c)
  }

  lemma ContextAt(ctx: nat, reg: nat)
    requires reg in {0, 4}
    ensures RegisterAt(0x20_0000 + 0x1000 * ctx + reg) == if reg == 0 then Threshold(ctx) else ClaimComplete(ctx)
  {
    assert (0x1000 * ctx + reg) / 0x1000 == ctx && (0x1000 * ctx + reg) % 0x1000 == reg;
  }

  lemma ClaimedState(s: State, ctx: nat)
    requires ctx < |s.contexts|
    ensures var (r, s') := Claim(s, ctx);
      && r <= 63 && ClaimedRightly(s, ctx, r)
      && if r == 0 then s' == s else BecomesWith(s, s', s.priority, s.pending[r := false], s.contexts)
  {
    var (r, s') := Claim(s, ctx);
    ClaimIsForemost(s, ctx);
    ReadyIs(s, ctx);
    if r != 0 { LinesShown(s.(pending := s.pending[r := false])); }
  }

  lemma ReadClaims(s: State, ctx: nat, offset: nat)
    requires ctx < |s.contexts| && offset == 0x20_0000 + 0x1000 * ctx + 4
    ensures Read(s, offset, 4) == (Some(Claim(s, ctx).0), Claim(s, ctx).1)
  {
    ContextAt(ctx, 4);
    ReadAt(s, ctx, offset);
  }

  lemma ReadAt(s: State, ctx: nat, offset: nat)
    requires RegisterAt(offset) == ClaimComplete(ctx)
    ensures Read(s, offset, 4) == (Some(Claim(s, ctx).0), Claim(s, ctx).1)
  {}

  /** A 32-bit read at offset 4 of a context's block claims: it returns the right source and clears its pending bit, and only
      that. */
  lemma ClaimOnBus(s: State, ctx: nat, offset: nat)
    requires ctx < |s.contexts| && offset == 0x20_0000 + 0x1000 * ctx + 4
    ensures var (out, s') := Read(s, offset, 4);
      && out.Some? && out.value <= 63 && ClaimedRightly(s, ctx, out.value)
      && if out.value == 0 then s' == s else BecomesWith(s, s', s.priority, s.pending[out.value := false], s.contexts)
  {
    ReadClaims(s, ctx, offset);
    ClaimedState(s, ctx);
  }

  /** A write there, completing, changes nothing. */
  lemma CompleteOnBus(s: State, ctx: nat, offset: nat, v: Word32)
    requires offset == 0x20_0000 + 0x1000 * ctx + 4
    ensures Write(s, offset, v) == s
  {
    ContextAt(ctx, 4);
  }

  /** A device's signal sets the source's pending bit and nothing else; other numbers do nothing. */
  lemma RaiseExactly(s: State, src: nat)
    requires src != 64
    ensures if 1 <= src <= 63 then BecomesWith(s, SetPending(s, src), s.priority, s.pending[src := true], s.contexts)
      else SetPending(s, src) == s
  {
    if 1 <= src <= 63 { LinesShown(s.(pending := s.pending[src := true])); }
  }

  // ---- Priorities and thresholds ----

  /** The priority of source `src` is the word at `4 * src`; that of 0 does not exist. */
  lemma PriorityOnBus(s: State, src: nat, v: Word32)
    requires src <= 64
    ensures Read(s, 4 * src, 4) == (Some(if src == 0 then 0 else s.priority[src]), s)
    ensures if src == 0 then Write(s, 0, v) == s
      else BecomesWith(s, Write(s, 4 * src, v), s.priority[src := v], s.pending, s.contexts)
  {
    assert RegisterAt(4 * src) == Priority(src);
    if src > 0 { LinesShown(s.(priority := s.priority[src := v])); }
  }

  /** A context's threshold is the first word of its block. */
  lemma ThresholdOnBus(s: State, ctx: nat, offset: nat, v: Word32)
    requires ctx < |s.contexts| && offset == 0x20_0000 + 0x1000 * ctx
    ensures Read(s, offset, 4) == (Some(s.contexts[ctx].threshold), s)
    ensures BecomesWith(s, Write(s, offset, v), s.priority, s.pending, s.contexts[ctx := s.contexts[ctx].(threshold := v)])
  {
    ContextAt(ctx, 0);
    LinesShown(s.(contexts := s.contexts[ctx := s.contexts[ctx].(threshold := v)]));
  }

  // ---- Words of bits ----

  lemma {:induction false} BitOfBits(v: nat, n: nat, k: nat)
    requires k < n
    ensures Power2(k) > 0 && (BitsOf(v, n)[k] <==> v / Power2(k) % 2 == 1)
    decreases n
  {
    if k == 0 {
      assert Power2(0) == 1;
    } else {
      BitOfBits(v / 2, n - 1, k - 1);
      HalvedFirst(v, Power2(k - 1));
      assert Power2(k) == 2 * Power2(k - 1) && BitsOf(v, n)[k] == BitsOf(v / 2, n - 1)[k - 1];
    }
  }

  lemma {:induction false} BitOfNumber(b: seq<bool>, k: nat)
    requires k < |b|
    ensures Power2(k) > 0 && (NumberOf(b) / Power2(k) % 2 == 1 <==> b[k])
    decreases |b|
  {
    if k == 0 {
      assert Power2(0) == 1;
    } else {
      BitOfNumber(b[1..], k - 1);
      HalvedFirst(NumberOf(b), Power2(k - 1));
      assert Power2(k) == 2 * Power2(k - 1) && NumberOf(b) / 2 == NumberOf(b[1..]);
    }
  }

  /** Bit `k` of the number is the bit at `32 * word + k`. */
  ghost predicate ShowsBits(v: nat, bits: seq<bool>, word: nat)
    requires |bits| == 64 && word < 2
  {
    forall k: nat :: k < 32 ==> Power2(k) > 0 && (v / Power2(k) % 2 == 1 <==> bits[32 * word + k])
  }

  lemma WordShowsBits(bits: seq<bool>, word: nat)
    requires |bits| == 64 && word < 2
    ensures ShowsBits(RegWord(bits, word), bits, word)
  {
    forall k: nat | k < 32 ensures Power2(k) > 0 && (RegWord(bits, word) / Power2(k) % 2 == 1 <==> bits[32 * word + k]) {
      BitOfNumber(bits[32 * word..32 * word + 32], k);
    }
  }

  lemma WrittenShowsBits(bits: seq<bool>, word: nat, v: Word32)
    requires |bits| == 64 && word < 2
    ensures ShowsBits(v, WithWord(bits, word, v), word)
    ensures forall k :: 0 <= k < 64 && k / 32 != word ==> WithWord(bits, word, v)[k] == bits[k]
  {
    var after := WithWord(bits, word, v);
    forall k: nat | k < 32 ensures Power2(k) > 0 && (v / Power2(k) % 2 == 1 <==> after[32 * word + k]) {
      BitOfBits(v, 32, k);
      assert after[32 * word + k] == BitsOf(v, 32)[k];
    }
  }

  /** The two words at 0x1000 show the pending bits, and cannot be written. */
  lemma PendingOnBus(s: State, word: nat, v: Word32)
    requires word < 2
    ensures var (out, s') := Read(s, 0x1000 + 4 * word, 4); out.Some? && ShowsBits(out.value, s.pending, word) && s' == s
    ensures Write(s, 0x1000 + 4 * word, v) == s
  {
    assert RegisterAt(0x1000 + 4 * word) == Pending(word);
    WordShowsBits(s.pending, word);
  }

  /** Two words of every 0x80 from 0x2000 on are the context's enable bits. */
  lemma EnableOnBus(s: State, ctx: nat, word: nat, offset: nat, v: Word32)
    requires ctx < |s.contexts| && ctx < 0x3FC0 && word < 2 && offset == 0x2000 + 0x80 * ctx + 4 * word
    ensures var (out, same) := Read(s, offset, 4); out.Some? && ShowsBits(out.value, s.contexts[ctx].enable, word) && same == s
    ensures var s' := Write(s, offset, v);
      && |s'.contexts| == |s.contexts|
      && BecomesWith(s, s', s.priority, s.pending, s.contexts[ctx := s.contexts[ctx].(enable := s'.contexts[ctx].enable)])
      && ShowsBits(v, s'.contexts[ctx].enable, word)
      && forall k :: 0 <= k < 64 && k / 32 != word ==> s'.contexts[ctx].enable[k] == s.contexts[ctx].enable[k]
  {
    EnableAt(s, ctx, word, offset);
    WordShowsBits(s.contexts[ctx].enable, word);
    var enable := WithWord(s.contexts[ctx].enable, word, v);
    WrittenShowsBits(s.contexts[ctx].enable, word, v);
    LinesShown(s.(contexts := s.contexts[ctx := s.contexts[ctx].(enable := enable)]));
  }

  lemma EnableAt(s: State, ctx: nat, word: nat, offset: nat)
    requires ctx < 0x3FC0 && word < 2 && offset == 0x2000 + 0x80 * ctx + 4 * word
    ensures RegisterAt(offset) == Enable(ctx, word)
  {
    EnableAddress(ctx, word);
  }

  /** Only 32-bit accesses are served. */
  lemma OtherSizesRefused(s: State, offset: nat, size: nat)
    requires size != 4
    ensures Read(s, offset, size) == (None, s)
  {}
}
