/** Physical memory protection (rv_pmp.c). */
module Pmp {
  import opened Bits
  import opened Types

  // pmpcfg byte fields.
  const CFG_RWX: bv8 := 0x07
  const CFG_NAPOT_HIGH: bv8 := 0x10
  const CFG_LOCK: bv8 := 0x80

  const ENTRIES := 64

  /** The PMP registers: the per-byte view of the configuration, and the addresses. */
  datatype PmpRegs = PmpRegs(cfg: seq<bv8>, addr: seq<Word>) {
    predicate Valid() { |cfg| == ENTRIES && |addr| == ENTRIES }

    /** Enabled for this check: A has its high bit set, and M-mode sees locked entries only. */
    predicate Considered(i: nat, mMode: bool)
      requires i < |cfg|
    {
      cfg[i] & CFG_NAPOT_HIGH != 0 && (!mMode || cfg[i] & CFG_LOCK != 0)
    }
  }

  type Regs = r: PmpRegs | r.Valid() witness PmpRegs(seq(ENTRIES, _ => 0), seq(ENTRIES, _ => 0))

  function QMask(v: Word): nat { Xor(v, (v + 1) % U64) }

  /** `(qmask << 2) | 3` in 64 bits; the shift leaves the two low bits clear. */
  function BMask(v: Word): nat { (4 * QMask(v)) % U64 + 3 }

  function Base(v: Word): nat { (4 * AndNot(v, QMask(v))) % U64 }

  /** The code's bit trick: `paddr` is in the NAPOT region encoded by `v`. */
  predicate AddrMatch(paddr: Word, v: Word) { AndNot(paddr, BMask(v)) == Base(v) }

  /** The code's scan from entry `i`, for an access whose first and last byte are `p0` and `p1`. */
  function CheckFrom(r: Regs, i: nat, p0: Word, p1: Word, mMode: bool): bv8
    requires i <= ENTRIES
    decreases ENTRIES - i
  {
    if i == ENTRIES then (if mMode then 7 else 0)
    else if !r.Considered(i, mMode) then CheckFrom(r, i + 1, p0, p1, mMode)
    else if AddrMatch(p0, r.addr[i]) != AddrMatch(p1, r.addr[i]) then 0
    else if !AddrMatch(p0, r.addr[i]) then CheckFrom(r, i + 1, p0, p1, mMode)
    else r.cfg[i] & CFG_RWX
  }

  function LastByte(paddr: Word, size: Word): Word { (paddr + size - 1) % U64 }

  function Check(r: Regs, paddr: Word, size: Word, mMode: bool): bv8 {
    CheckFrom(r, 0, paddr, LastByte(paddr, size), mMode)
  }

  /** The early-exit loop over the 64 entries. */
  method PmpCheck(r: Regs, paddr: Word, size: Word, mMode: bool) returns (perm: bv8)
    ensures perm == Check(r, paddr, size, mMode)
  {
    var paddr1 := LastByte(paddr, size);
    for i := 0 to ENTRIES
      invariant Check(r, paddr, size, mMode) == CheckFrom(r, i, paddr, paddr1, mMode)
    {
      var cfg := r.cfg[i];
      var locked := cfg & CFG_LOCK != 0;
      var enabled := cfg & CFG_NAPOT_HIGH != 0;
      if !enabled || (mMode && !locked) { continue; }
      var match0 := AddrMatch(paddr, r.addr[i]);
      var match1 := AddrMatch(paddr1, r.addr[i]);
      if match0 != match1 {
        return 0;
      } else if !match0 {
        continue;
      }
      return cfg & CFG_RWX;
    }
    return if mMode then 7 else 0;
  }

  // ---- The byte-wise rule of section 3.7.1 of the RISC-V Privileged ISA ----

  /** 2^(N+3) for N trailing ones. */
  function RegionSize(v: nat): (s: nat)
    ensures s >= 8 && s % 4 == 0
  {
    if v % 2 == 0 then 8 else 2 * RegionSize(v / 2)
  }

  function ClearTrailingOnes(v: nat): nat {
    if v % 2 == 0 then v else 2 * ClearTrailingOnes(v / 2)
  }

  /** First byte of the region; the address register counts in units of four bytes. */
  function RegionBase(v: nat): nat { (4 * ClearTrailingOnes(v)) % U64 }

  predicate InRegion(b: nat, v: nat) { RegionBase(v) <= b < RegionBase(v) + RegionSize(v) }

  ghost predicate Touches(v: nat, first: nat, last: nat) {
    exists b: nat :: first <= b <= last && InRegion(b, v)
  }

  ghost predicate Covers(v: nat, first: nat, last: nat) {
    forall b: nat :: first <= b <= last ==> InRegion(b, v)
  }

  /** Lowest-numbered entry touching any byte decides; it must cover every byte. */
  ghost function ByteRule(r: Regs, i: nat, first: nat, last: nat, mMode: bool): bv8
    requires i <= ENTRIES
    decreases ENTRIES - i
  {
    if i == ENTRIES then (if mMode then 7 else 0)
    else if r.Considered(i, mMode) && Touches(r.addr[i], first, last) then
      if Covers(r.addr[i], first, last) then r.cfg[i] & CFG_RWX else 0
    else ByteRule(r, i + 1, first, last, mMode)
  }

  /** The region lies strictly between the first and the last byte of the access. */
  predicate Swallowed(v: nat, first: nat, last: nat) {
    first < RegionBase(v) && RegionBase(v) + RegionSize(v) <= last
  }

  /** The entry that decides under the byte-wise rule is one the access swallows. */
  ghost predicate SwallowedDecides(r: Regs, i: nat, first: nat, last: nat, mMode: bool)
    requires i <= ENTRIES
    decreases ENTRIES - i
  {
    if i == ENTRIES then false
    else if r.Considered(i, mMode) && Touches(r.addr[i], first, last) then Swallowed(r.addr[i], first, last)
    else SwallowedDecides(r, i + 1, first, last, mMode)
  }

  // ---- The bit trick is an interval test ----

  lemma {:induction false} SizeIsPowerOfTwo(v: nat)
    ensures PowerOfTwo(RegionSize(v))
  {
    if v % 2 == 0 {
      assert PowerOfTwo(4);
    } else {
      SizeIsPowerOfTwo(v / 2);
    }
  }

  lemma {:induction false} XorSuccessor(v: nat)
    ensures Xor(v, v + 1) == RegionSize(v) / 4 - 1
  {
    if v % 2 == 0 {
      XorSame(v / 2);
    } else {
      SizeIsPowerOfTwo(v / 2);
      XorSuccessor(v / 2);
    }
  }

  lemma {:induction false} XorSame(x: nat)
    ensures Xor(x, x) == 0
  {
    if x != 0 { XorSame(x / 2); }
  }

  lemma {:induction false} ClearedByMask(v: nat)
    ensures AndNot(v, RegionSize(v) / 4 - 1) == ClearTrailingOnes(v)
  {
    if v % 2 == 0 {
      AndNotNone(v / 2);
    } else {
      SizeIsPowerOfTwo(v / 2);
      ClearedByMask(v / 2);
    }
  }

  lemma EightAligned(x: nat)
    ensures PowerOfTwo(8) && Aligned(8 * x, 8)
  {
    assert PowerOfTwo(1) && PowerOfTwo(2) && PowerOfTwo(4);
    assert Aligned(x, 1);
    assert Aligned(2 * x, 2);
    assert Aligned(4 * x, 4);
  }

  lemma {:induction false} BaseAligned(v: nat)
    ensures PowerOfTwo(RegionSize(v)) && Aligned(4 * ClearTrailingOnes(v), RegionSize(v))
  {
    SizeIsPowerOfTwo(v);
    if v % 2 == 0 {
      EightAligned(v / 2);
    } else {
      BaseAligned(v / 2);
    }
  }

  /** A word of 64 ones: the only address whose successor wraps. */
  lemma {:induction false} AllOnes(v: nat, s: nat)
    requires PowerOfTwo(s) && v == s - 1
    ensures RegionSize(v) == 8 * s && ClearTrailingOnes(v) == 0
    decreases s
  {
    if s > 1 { AllOnes(v / 2, s / 2); }
  }

  lemma ShiftedMask(size: nat)
    requires size >= 8 && size % 4 == 0 && (size > U64 ==> size % U64 == 0)
    ensures (4 * (size / 4 - 1)) % U64 + 3 == (if size <= U64 then size - 1 else U64 - 1)
  {
    assert 4 * (size / 4 - 1) == size - 4;
    if size > U64 {
      assert size - 4 == (size / U64 - 1) * U64 + (U64 - 4);
    }
  }

  lemma LastAddress()
    ensures QMask(U64 - 1) == U64 - 1 && RegionSize(U64 - 1) > U64
    ensures AndNot(U64 - 1, U64 - 1) == 0 && ClearTrailingOnes(U64 - 1) == 0
  {
    U64IsPowerOfTwo();
    XorZero(U64 - 1);
    AndNotSelf(U64 - 1);
    AllOnes(U64 - 1, U64);
  }

  lemma QMaskIsSize(v: Word)
    requires v != U64 - 1
    ensures QMask(v) == RegionSize(v) / 4 - 1
  {
    XorSuccessor(v);
    assert (v + 1) % U64 == v + 1;
  }

  /** The mask is the region size less one, where a region of 2^64 bytes or more is all of memory. */
  lemma MaskIsSize(v: Word)
    ensures BMask(v) == (if RegionSize(v) <= U64 then RegionSize(v) - 1 else U64 - 1)
  {
    if v == U64 - 1 {
      LastAddress();
    } else {
      QMaskIsSize(v);
      SizeModulo(v);
      ShiftedMask(RegionSize(v));
    }
  }

  lemma BaseIsRegionBase(v: Word)
    ensures Base(v) == RegionBase(v)
  {
    if v == U64 - 1 {
      LastAddress();
    } else {
      QMaskIsSize(v);
      ClearedByMask(v);
    }
  }

  lemma SizeModulo(v: nat)
    ensures RegionSize(v) > U64 ==> RegionSize(v) % U64 == 0
  {
    if RegionSize(v) > U64 {
      U64IsPowerOfTwo();
      SizeIsPowerOfTwo(v);
      PowersAligned(RegionSize(v), U64);
      var k := AlignedMultiple(RegionSize(v), U64);
    }
  }

  lemma BaseShape(v: nat)
    ensures PowerOfTwo(RegionSize(v))
    ensures RegionSize(v) <= U64 ==> Aligned(RegionBase(v), RegionSize(v))
    ensures RegionSize(v) >= U64 ==> RegionBase(v) == 0
  {
    BaseAligned(v);
    U64IsPowerOfTwo();
    if RegionSize(v) <= U64 {
      AlignedReduced(4 * ClearTrailingOnes(v), RegionSize(v));
    }
    if RegionSize(v) >= U64 {
      AlignedWeaken(4 * ClearTrailingOnes(v), RegionSize(v), U64);
      var k := AlignedMultiple(4 * ClearTrailingOnes(v), U64);
    }
  }

  /** `pmpaddr_match` holds exactly on the interval [base, base + 2^(N+3)) of the encoded region. */
  lemma MatchIsInterval(p: Word, v: Word)
    ensures AddrMatch(p, v) <==> InRegion(p, v)
  {
    MaskIsSize(v);
    BaseIsRegionBase(v);
    BaseShape(v);
    if RegionSize(v) <= U64 {
      ClearIsInterval(p, RegionBase(v), RegionSize(v));
    } else {
      U64IsPowerOfTwo();
      ZeroAligned(U64);
      ClearIsInterval(p, 0, U64);
    }
  }

  lemma MatchesDecide(v: Word, p0: Word, p1: Word)
    requires p0 <= p1
    ensures Touches(v, p0, p1) <==> AddrMatch(p0, v) || AddrMatch(p1, v) || Swallowed(v, p0, p1)
    ensures Covers(v, p0, p1) <==> AddrMatch(p0, v) && AddrMatch(p1, v)
    ensures Swallowed(v, p0, p1) ==> !AddrMatch(p0, v) && !AddrMatch(p1, v)
  {
    MatchIsInterval(p0, v);
    MatchIsInterval(p1, v);
    assert InRegion(p0, v) ==> Touches(v, p0, p1);
    assert InRegion(p1, v) ==> Touches(v, p0, p1);
    if Swallowed(v, p0, p1) {
      assert InRegion(RegionBase(v), v);
    }
  }

  // ---- What the check computes ----

  /** Entry `i` is considered, the access touches it, and it reaches the access's first or last byte. */
  ghost predicate Noticed(r: Regs, i: nat, first: nat, last: nat, mMode: bool)
    requires i < ENTRIES
  {
    r.Considered(i, mMode) && Touches(r.addr[i], first, last) && !Swallowed(r.addr[i], first, last)
  }

  /** The lowest-numbered entry from `i` on that the check notices, or ENTRIES. */
  ghost function FirstNoticed(r: Regs, i: nat, first: nat, last: nat, mMode: bool): (k: nat)
    requires i <= ENTRIES
    ensures i <= k <= ENTRIES
    decreases ENTRIES - i
  {
    if i == ENTRIES || Noticed(r, i, first, last, mMode) then i else FirstNoticed(r, i + 1, first, last, mMode)
  }

  /** The byte-wise rule over the entries that the access does not swallow. */
  ghost function SkippingRule(r: Regs, i: nat, first: nat, last: nat, mMode: bool): bv8
    requires i <= ENTRIES
  {
    var k := FirstNoticed(r, i, first, last, mMode);
    if k == ENTRIES then (if mMode then 7 else 0)
    else if Covers(r.addr[k], first, last) then r.cfg[k] & CFG_RWX
    else 0
  }

  lemma {:induction false} CheckFromSkips(r: Regs, i: nat, p0: Word, p1: Word, mMode: bool)
    requires i <= ENTRIES && p0 <= p1
    ensures CheckFrom(r, i, p0, p1, mMode) == SkippingRule(r, i, p0, p1, mMode)
    decreases ENTRIES - i
  {
    if i < ENTRIES {
      MatchesDecide(r.addr[i], p0, p1);
      CheckFromSkips(r, i + 1, p0, p1, mMode);
    }
  }

  /** For every non-wrapping access the check is the byte-wise rule that overlooks swallowed entries. */
  lemma CheckSkipsSwallowed(r: Regs, paddr: Word, size: Word, mMode: bool)
    requires size >= 1 && paddr + size <= U64
    ensures Check(r, paddr, size, mMode) == SkippingRule(r, 0, paddr, paddr + size - 1, mMode)
  {
    assert LastByte(paddr, size) == paddr + size - 1;
    CheckFromSkips(r, 0, paddr, LastByte(paddr, size), mMode);
  }

  /** The entry is on, and counts in M-mode only when locked: the mode field in bits 4 and 3 is NA4 or NAPOT, bit 7 the lock. */
  predicate Counts(cfg: bv8, mMode: bool) { FlagValue(cfg) / 8 % 4 >= 2 && (mMode ==> FlagValue(cfg) >= 128) }

  lemma ModeOfSum(d0: Bit, d1: Bit, d2: Bit, d3: Bit, d4: Bit, d5: Bit, d6: Bit, d7: Bit, n: nat)
    requires n == d0 + 2 * (d1 + 2 * (d2 + 2 * (d3 + 2 * (d4 + 2 * (d5 + 2 * (d6 + 2 * d7))))))
    ensures n / 8 % 4 == d3 + 2 * d4 && (n >= 128 <==> d7 == 1)
  {
    assert n / 8 == d3 + 2 * d4 + 4 * (d5 + 2 * (d6 + 2 * d7));
  }

  lemma ModeOfByte(f: bv8, n: nat)
    requires n == FlagValue(f)
    ensures n / 8 % 4 >= 2 <==> Digit(f, 16) == 1
    ensures n >= 128 <==> Digit(f, 128) == 1
  {
    ModeOfSum(Digit(f, 1), Digit(f, 2), Digit(f, 4), Digit(f, 8), Digit(f, 16), Digit(f, 32), Digit(f, 64), Digit(f, 128), n);
  }

  /** The entries that the check considers are those that count. */
  lemma CountsExactly(r: Regs, i: nat, mMode: bool)
    requires i < ENTRIES
    ensures r.Considered(i, mMode) == Counts(r.cfg[i], mMode)
  {
    ModeOfByte(r.cfg[i], FlagValue(r.cfg[i]));
  }

  lemma {:induction false} FirstIsNoticed(r: Regs, i: nat, first: nat, last: nat, mMode: bool)
    requires i <= ENTRIES
    ensures var k := FirstNoticed(r, i, first, last, mMode);
      (k < 64 ==> Noticed(r, k, first, last, mMode)) && forall j :: i <= j < k ==> !Noticed(r, j, first, last, mMode)
    decreases ENTRIES - i
  {
    if i < ENTRIES { FirstIsNoticed(r, i + 1, first, last, mMode); }
  }

  /** The whole answer of the check: the first entry it notices grants its low three bits if its region covers the access
      and nothing otherwise; without one M-mode is granted everything and others nothing. */
  lemma CheckExactly(r: Regs, paddr: Word, size: Word, last: Word, mMode: bool) returns (k: nat)
    requires size >= 1 && last == paddr + size - 1
    ensures k <= 64 && forall j :: 0 <= j < k ==> !Noticed(r, j, paddr, last, mMode)
    ensures k < 64 ==> Noticed(r, k, paddr, last, mMode)
    ensures Check(r, paddr, size, mMode) ==
      if k == 64 then (if mMode then 7 else 0) else if Covers(r.addr[k], paddr, last) then r.cfg[k] & 0x07 else 0
  {
    CheckSkipsSwallowed(r, paddr, size, mMode);
    k := FirstNoticed(r, 0, paddr, last, mMode);
    FirstIsNoticed(r, 0, paddr, last, mMode);
  }

  lemma {:induction false} RulesAgreeUnlessSwallowed(r: Regs, i: nat, first: nat, last: nat, mMode: bool)
    requires i <= ENTRIES && first <= last
    ensures ByteRule(r, i, first, last, mMode) ==
      if SwallowedDecides(r, i, first, last, mMode) then 0 else SkippingRule(r, i, first, last, mMode)
    decreases ENTRIES - i
  {
    if i < ENTRIES {
      if Swallowed(r.addr[i], first, last) { assert !InRegion(first, r.addr[i]); }
      RulesAgreeUnlessSwallowed(r, i + 1, first, last, mMode);
    }
  }

  /** The registers grant something through the entries the check notices: the first of them covers the whole access
      and carries a permission, or there is none and the access is M-mode's. */
  ghost predicate NoticedGrant(r: Regs, first: nat, last: nat, mMode: bool) {
    var k := FirstNoticed(r, 0, first, last, mMode);
    if k == ENTRIES then mMode else Covers(r.addr[k], first, last) && r.cfg[k] & CFG_RWX != 0
  }

  /** So the byte-wise rule is met exactly when no swallowed entry decides under it, or the noticed entries grant nothing. */
  lemma CheckIsByteRule(r: Regs, paddr: Word, size: Word, mMode: bool)
    requires size >= 1 && paddr + size <= U64
    ensures var last := paddr + size - 1;
      Check(r, paddr, size, mMode) == ByteRule(r, 0, paddr, last, mMode)
      <==> !SwallowedDecides(r, 0, paddr, last, mMode) || !NoticedGrant(r, paddr, last, mMode)
  {
    CheckSkipsSwallowed(r, paddr, size, mMode);
    RulesAgreeUnlessSwallowed(r, 0, paddr, paddr + size - 1, mMode);
  }

  lemma {:induction false} NoneSwallowed(r: Regs, i: nat, first: nat, last: nat, mMode: bool)
    requires i <= ENTRIES
    requires forall k :: i <= k < ENTRIES && r.Considered(k, mMode) ==> last < first + RegionSize(r.addr[k])
    ensures !SwallowedDecides(r, i, first, last, mMode)
    decreases ENTRIES - i
  {
    if i < ENTRIES { NoneSwallowed(r, i + 1, first, last, mMode); }
  }

  /** Accesses no larger than the smallest considered region follow the byte-wise rule. */
  lemma SmallAccessFollowsByteRule(r: Regs, paddr: Word, size: Word, mMode: bool)
    requires size >= 1 && paddr + size <= U64
    requires forall k :: 0 <= k < ENTRIES && r.Considered(k, mMode) ==> size <= RegionSize(r.addr[k])
    ensures Check(r, paddr, size, mMode) == ByteRule(r, 0, paddr, paddr + size - 1, mMode)
  {
    NoneSwallowed(r, 0, paddr, paddr + size - 1, mMode);
    CheckIsByteRule(r, paddr, size, mMode);
  }

  /** In particular every load, store, fetch and PTE access (at most eight bytes), whatever the registers hold. */
  lemma DataAccessFollowsByteRule(r: Regs, paddr: Word, size: Word, mMode: bool)
    requires 1 <= size <= 8 && paddr + size <= U64
    ensures Check(r, paddr, size, mMode) == ByteRule(r, 0, paddr, paddr + size - 1, mMode)
  {
    SmallAccessFollowsByteRule(r, paddr, size, mMode);
  }

  /** Entry 0 forbids bytes 8..15 and entry 1 grants everything. */
  function SmallRegion(): (r: Regs)
    ensures r.addr[0] == 2 && r.addr[1] == U64 - 1 && r.cfg[0] == 0x18 && r.cfg[1] == 0x1F
  {
    PmpRegs(seq(ENTRIES, i => if i == 0 then 0x18 else if i == 1 then 0x1F else 0),
            seq(ENTRIES, i => if i == 0 then 2 else if i == 1 then U64 - 1 else 0))
  }

  /** The page-sized check of a leaf's target does not: it grants a page in which an entry forbids eight bytes. */
  lemma PageCheckMissesSmallRegion()
    ensures Check(SmallRegion(), 0, 4096, false) == CFG_RWX
    ensures ByteRule(SmallRegion(), 0, 0, 4095, false) == 0
  {
    var r := SmallRegion();
    U64IsPowerOfTwo();
    AllOnes(U64 - 1, U64);
    assert RegionBase(2) == 8 && RegionSize(2) == 8;
    assert RegionBase(U64 - 1) == 0;
    MatchIsInterval(0, 2);
    MatchIsInterval(4095, 2);
    MatchIsInterval(0, U64 - 1);
    MatchIsInterval(4095, U64 - 1);
    SmallRegionTouched();
    assert CheckFrom(r, 1, 0, 4095, false) == CFG_RWX;
  }

  lemma SmallRegionTouched()
    ensures Touches(2, 0, 4095) && !Covers(2, 0, 4095)
  {
    assert InRegion(8, 2) && !InRegion(0, 2);
  }
}
