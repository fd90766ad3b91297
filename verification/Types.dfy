/** Enumerations, register bits and 64-bit words shared by the modules (emu_machine.h, rv_csr.h). */
module Types {
  import opened Bits

  /** Access mode; AMO is a load whose failures are reported as store faults. */
  datatype Access = Insn | Amo | Load | Store

  /** Result of a memory access attempt. */
  datatype MemResult = Ok | AccessFault | PageFault

  datatype Option<+T> = None | Some(value: T)

  /** A 64-bit register. */
  type Word = w: nat | w < U64

  type Word32 = w: nat | w < 0x1_0000_0000

  /** The bits that are set in a 64-bit register that is used as a mask: `&` is `*`, `|` is `+`, `& ~` is `-`. */
  type BitSet = s: set<nat> | forall i :: i in s ==> i < 64

  // Exception causes.
  const CAUSE_ILLEGAL := 2
  const CAUSE_EBREAK := 3
  const CAUSE_LOAD_ALIGN := 4
  const CAUSE_STORE_ALIGN := 6
  const CAUSE_ECALL_U := 8
  const CAUSE_ECALL_S := 9
  const CAUSE_ECALL_M := 11

  // Status register bits.
  const SIE := 1
  const MIE := 3
  const SPIE := 5
  const UBE := 6
  const MPIE := 7
  const SPP := 8
  const MPP_LOW := 11
  const MPP_HIGH := 12
  const MPRV := 17
  const SUM := 18
  const TVM := 20
  const TW := 21
  const TSR := 22

  function MstatusMask(): BitSet { {1, 3, 5, 6, 7, 8, 9, 10, 11, 12, 13, 14, 15, 16, 17, 18, 19, 20, 21, 22} }

  function SstatusMask(): BitSet { {1, 5, 6, 8, 9, 10, 13, 14, 15, 16, 18, 19} }

  // Interrupt bits (mip layout).
  const SSIP := 1
  const MSIP := 3
  const STIP := 5
  const MTIP := 7
  const SEIP := 9
  const MEIP := 11

  /** Interrupt bits that exist. */
  function IrqLines(): BitSet { {SSIP, MSIP, STIP, MTIP, SEIP, MEIP} }

  /** Interrupt bits software may write (RV_SIP_WMASK). */
  function SipMask(): BitSet { {SSIP, STIP, SEIP} }

  // ---- Words and their bits ----

  /** Positions of the ones of `w`, counted from `i`. */
  function OnesFrom(w: nat, i: nat): (s: set<nat>)
    ensures forall k :: k in s ==> k >= i
  {
    if w == 0 then {} else (if w % 2 == 1 then {i} else {}) + OnesFrom(w / 2, i + 1)
  }

  /** The number whose ones, counted from `i` and below `end`, are at the positions in `s`. */
  function ValueFrom(s: set<nat>, i: nat, end: nat): nat
    requires i <= end
    decreases end - i
  {
    if i == end then 0 else (if i in s then 1 else 0) + 2 * ValueFrom(s, i + 1, end)
  }

  function Ones(w: Word): BitSet {
    OnesBelow(w, 0, 64);
    OnesFrom(w, 0)
  }

  function Value(s: BitSet): Word {
    ValueBelow(s, 0, 64);
    ValueFrom(s, 0, 64)
  }

  function Power2(n: nat): nat { if n == 0 then 1 else 2 * Power2(n - 1) }

  function Power256(n: nat): nat { if n == 0 then 1 else 256 * Power256(n - 1) }

  lemma Power256Eight()
    ensures Power256(8) == U64
  {
    assert Power256(2) == 0x1_0000;
    assert Power256(4) == 0x1_0000_0000;
    assert Power256(6) == 0x1_0000_0000_0000;
  }

  lemma Power2Is64()
    ensures Power2(64) == U64
  {
    assert Power2(4) == 16;
    Power2Sum(4, 4);
    Power2Sum(8, 8);
    Power2Sum(16, 16);
    Power2Sum(32, 32);
  }

  lemma {:induction false} Power2Sum(m: nat, n: nat)
    ensures Power2(m + n) == Power2(m) * Power2(n)
  {
    if m > 0 { Power2Sum(m - 1, n); }
  }

  lemma {:induction false} OnesInRange(w: nat, i: nat, n: nat)
    requires w < Power2(n)
    ensures forall k :: k in OnesFrom(w, i) ==> k < i + n
    decreases n
  {
    if n > 0 { OnesInRange(w / 2, i + 1, n - 1); }
  }

  lemma OnesBelow(w: Word, i: nat, n: nat)
    requires n == 64
    ensures forall k :: k in OnesFrom(w, i) ==> k < i + n
  {
    Power2Is64();
    OnesInRange(w, i, n);
  }

  lemma {:induction false} ValueInRange(s: set<nat>, i: nat, end: nat)
    requires i <= end
    ensures ValueFrom(s, i, end) < Power2(end - i)
    decreases end - i
  {
    if i < end { ValueInRange(s, i + 1, end); }
  }

  lemma ValueBelow(s: set<nat>, i: nat, end: nat)
    requires i == 0 && end == 64
    ensures ValueFrom(s, i, end) < U64
  {
    Power2Is64();
    ValueInRange(s, i, end);
  }

  lemma {:induction false} ValueOfOnes(w: nat, i: nat, end: nat, s: set<nat>)
    requires i <= end && w < Power2(end - i)
    requires forall k :: k >= i ==> (k in s <==> k in OnesFrom(w, i))
    ensures ValueFrom(s, i, end) == w
    decreases end - i
  {
    if i < end {
      assert i in s <==> w % 2 == 1;
      forall k | k >= i + 1 ensures k in s <==> k in OnesFrom(w / 2, i + 1) {
        assert k in OnesFrom(w, i) <==> k in OnesFrom(w / 2, i + 1);
      }
      ValueOfOnes(w / 2, i + 1, end, s);
    }
  }

  /** Reading back a mask register gives the word that was written. */
  lemma ValueRoundTrip(w: Word)
    ensures Value(Ones(w)) == w
  {
    Power2Is64();
    ValueOfOnes(w, 0, 64, Ones(w));
  }

  lemma {:induction false} OnesOfValue(s: set<nat>, i: nat, end: nat)
    requires i <= end
    ensures OnesFrom(ValueFrom(s, i, end), i) == set k | k in s && i <= k < end
    decreases end - i
  {
    if i < end {
      OnesOfValue(s, i + 1, end);
      var v := ValueFrom(s, i, end);
      assert v / 2 == ValueFrom(s, i + 1, end);
      assert (set k | k in s && i <= k < end) == (if i in s then {i} else {}) + (set k | k in s && i + 1 <= k < end);
      if v == 0 { assert OnesFrom(v / 2, i + 1) == {}; }
    }
  }

  lemma OnesRoundTrip(s: BitSet)
    ensures Ones(Value(s)) == s
  {
    OnesOfValue(s, 0, 64);
  }

  lemma {:induction false} OneAt(w: nat, i: nat, k: nat)
    requires i <= k
    ensures Power2(k - i) > 0 && (k in OnesFrom(w, i) <==> w / Power2(k - i) % 2 == 1)
    decreases k - i
  {
    if i < k {
      Power2Positive(k - i - 1);
      HalvedFirst(w, Power2(k - i - 1));
      OneAt(w / 2, i + 1, k);
    }
  }

  lemma {:induction false} Power2Positive(n: nat)
    ensures Power2(n) > 0
  {
    if n > 0 { Power2Positive(n - 1); }
  }

  lemma HalvedFirst(w: nat, m: nat)
    requires m > 0
    ensures w / 2 / m == w / (2 * m)
  {
    var q := w / (2 * m);
    var r := w - q * (2 * m);
    assert 0 <= r < 2 * m;
    assert w / 2 == q * m + r / 2;
    QuotientIs(w / 2, m, q, r / 2);
  }

  lemma ScaledUp(x: int, y: int, m: nat)
    requires x <= y
    ensures x * m <= y * m
  {}

  lemma ScaledDown(x: int, y: int, m: nat)
    requires x * m < y * m
    ensures x < y
  {
    if y <= x { ScaledUp(y, x, m); }
  }

  lemma QuotientIs(x: nat, m: nat, q: nat, r: nat)
    requires m > 0 && x == q * m + r && r < m
    ensures x / m == q
  {
    var d := x / m;
    assert d * m <= x < d * m + m;
    ScaledDown(q, d + 1, m);
    ScaledDown(d, q + 1, m);
  }

  /** Position `k` of a mask register is bit `k` of its word. */
  lemma BitOfWord(w: Word, k: nat)
    requires k < 64
    ensures Power2(k) > 0 && (k in Ones(w) <==> w / Power2(k) % 2 == 1)
  {
    Power2Positive(k);
    OneAt(w, 0, k);
  }
}
