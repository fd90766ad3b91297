/** The M extension (rv_impl/muldiv.c) and its laws (sections 7.1 and 7.2 of the RISC-V Unprivileged ISA). */
module MulDiv {
  import opened Bits
  import opened Types
  import opened Executor

  // ---- The code ----

  /** Division and remainder as C defines them: the quotient is truncated toward zero. */
  function Quotient(a: int, b: int): int
    requires b != 0
  {
    if a >= 0 then (if b > 0 then a / b else -(a / -b)) else if b > 0 then -(-a / b) else -a / -b
  }

  function Remainder(a: int, b: int): int
    requires b != 0
  {
    a - b * Quotient(a, b)
  }

  function Modulus(narrow: bool): nat { if narrow then U32 else U64 }

  function Minimum(narrow: bool): int { -(Modulus(narrow) / 2) }

  /** Operands as the switch sees them. */
  function SignedOf(r: Word, narrow: bool): int { if narrow then Signed(SextLow(r)) else Signed(r) }

  function UnsignedOf(r: Word, narrow: bool): nat { r % Modulus(narrow) }

  /** Bits 127..64 of a 128-bit product. */
  function High(product: int): Word { product % (U64 * U64) / U64 }

  predicate Overflows(a: int, b: int, narrow: bool) { a == Minimum(narrow) && b == -1 }

  function DivSigned(a: int, b: int, narrow: bool): int {
    if b == 0 then -1 else if Overflows(a, b, narrow) then Minimum(narrow) else Quotient(a, b)
  }

  function RemSigned(a: int, b: int, narrow: bool): int {
    if b == 0 then a else if Overflows(a, b, narrow) then 0 else Remainder(a, b)
  }

  function DivUnsigned(a: nat, b: nat, narrow: bool): nat { if b == 0 then Modulus(narrow) - 1 else a / b }

  function RemUnsigned(a: nat, b: nat): nat { if b == 0 then a else a % b }

  datatype Kind = Mul | Mulh | Mulhsu | Mulhu | Div | Divu | Rem | Remu

  /** `rv_muldiv_op`: None is an illegal instruction. Signed products wrap. */
  function Result(kind: Kind, narrow: bool, rs1: Word, rs2: Word): Option<Word> {
    var a, b := SignedOf(rs1, narrow), SignedOf(rs2, narrow);
    var ua, ub := UnsignedOf(rs1, narrow), UnsignedOf(rs2, narrow);
    if narrow && (kind.Mulh? || kind.Mulhsu? || kind.Mulhu?) then None
    else
      var res := match kind
        case Mul => Wrap(a * b)
        case Mulh => High(a * b)
        case Mulhsu => High(a * ub)
        case Mulhu => High(ua * ub)
        case Div => Wrap(DivSigned(a, b, narrow))
        case Divu => Wrap(DivUnsigned(ua, ub, narrow))
        case Rem => Wrap(RemSigned(a, b, narrow))
        case Remu => Wrap(RemUnsigned(ua, ub));
      Some(if narrow then SextLow(res) else res)
  }

  // ---- Division ----

  function Magnitude(x: int): int { if x < 0 then -x else x }

  lemma NatDivision(a: int, b: int)
    requires a >= 0 && b > 0
    ensures a == a / b * b + a % b && 0 <= a % b < b
  {}

  /** Truncated division: exact, with a remainder smaller than the divisor and of the dividend's sign. */
  predicate Truncated(a: int, b: int, q: int, r: int) {
    a == q * b + r && -Magnitude(b) < r < Magnitude(b) && (a >= 0 ==> r >= 0) && (a <= 0 ==> r <= 0)
  }

  lemma QuotientTruncates(a: int, b: int)
    requires b != 0
    ensures Truncated(a, b, Quotient(a, b), Remainder(a, b))
  {
    NatDivision(Magnitude(a), Magnitude(b));
  }

  lemma MagnitudeOfProduct(k: int, b: int)
    ensures Magnitude(k * b) == Magnitude(k) * Magnitude(b)
  {
    var x, y := Magnitude(k), Magnitude(b);
    NonNegative(x, y);
    assert k * b == if (k < 0) == (b < 0) then x * y else -(x * y);
  }

  lemma {:induction false} NonNegative(x: nat, y: nat)
    ensures x * y >= 0
  {}

  lemma {:induction false} ProductGrows(x: nat, y: nat)
    requires x > 0
    ensures x * y >= y
    decreases x
  {
    if x > 1 {
      ProductGrows(x - 1, y);
      assert x * y == (x - 1) * y + y;
    }
  }

  /** No other pair meets that description. */
  lemma TruncatedIsUnique(a: int, b: int, q: int, r: int, q': int, r': int)
    requires b != 0 && Truncated(a, b, q, r) && Truncated(a, b, q', r')
    ensures q == q' && r == r'
  {
    assert (q - q') * b == r' - r;
    if q != q' {
      MagnitudeOfProduct(q - q', b);
      ProductGrows(Magnitude(q - q'), Magnitude(b));
    }
  }

  // ---- Words and the numbers they stand for ----

  lemma Shifted(x: int, k: int, narrow: bool)
    ensures (x + k * Modulus(narrow)) % Modulus(narrow) == x % Modulus(narrow)
  {
    if narrow { Shift32(x, k); } else { Shift64(x, k); }
  }

  lemma Congruent(x: int, y: int, narrow: bool) returns (k: int)
    requires x % Modulus(narrow) == y % Modulus(narrow)
    ensures x == y + k * Modulus(narrow)
  {
    k := if narrow then x / U32 - y / U32 else x / U64 - y / U64;
  }

  lemma Expand(x: int, y: int, i: int, j: int, m: int)
    ensures (x + i * m) * (y + j * m) == x * y + (x * j + i * y + i * j * m) * m
  {
    calc {
      (x + i * m) * (y + j * m);
      (x + i * m) * y + (x + i * m) * (j * m);
      x * y + i * m * y + x * (j * m) + i * m * (j * m);
    }
  }

  /** Congruent factors and summands give congruent results. */
  lemma ProductCongruent(x: int, y: int, x': int, y': int, narrow: bool)
    requires x % Modulus(narrow) == x' % Modulus(narrow) && y % Modulus(narrow) == y' % Modulus(narrow)
    ensures (x * y) % Modulus(narrow) == (x' * y') % Modulus(narrow)
  {
    var m := Modulus(narrow);
    var i := Congruent(x, x', narrow);
    var j := Congruent(y, y', narrow);
    Expand(x', y', i, j, m);
    Shifted(x' * y', x' * j + i * y' + i * j * m, narrow);
  }

  lemma SumCongruent(x: int, y: int, x': int, y': int, narrow: bool)
    requires x % Modulus(narrow) == x' % Modulus(narrow) && y % Modulus(narrow) == y' % Modulus(narrow)
    ensures (x + y) % Modulus(narrow) == (x' + y') % Modulus(narrow)
  {
    var i := Congruent(x, x', narrow);
    var j := Congruent(y, y', narrow);
    if narrow {
      assert x + y == (x' + y') + (i + j) * U32;
    } else {
      assert x + y == (x' + y') + (i + j) * U64;
    }
    Shifted(x' + y', i + j, narrow);
  }

  lemma OperandValues(r: Word, narrow: bool)
    ensures SignedOf(r, narrow) % Modulus(narrow) == r % Modulus(narrow)
    ensures Minimum(narrow) <= SignedOf(r, narrow) < -Minimum(narrow)
  {}

  function Finished(x: int, narrow: bool): Word { if narrow then SextLow(Wrap(x)) else Wrap(x) }

  lemma NarrowValue(x: int)
    ensures SextLow(Wrap(x)) % U32 == x % U32
    ensures Minimum(true) <= x < -Minimum(true) ==> SignedOf(SextLow(Wrap(x)), true) == x
  {
    assert Wrap(x) % U32 == x % U32 by { Shift32(Wrap(x), x / U64 * U32); }
  }

  /** A result is congruent to the number it was cut from, and is that number when that is in range. */
  lemma ResultValue(x: int, narrow: bool)
    ensures Finished(x, narrow) % Modulus(narrow) == x % Modulus(narrow)
    ensures Minimum(narrow) <= x < -Minimum(narrow) ==> SignedOf(Finished(x, narrow), narrow) == x
    ensures 0 <= x < Modulus(narrow) ==> UnsignedOf(Finished(x, narrow), narrow) == x
  {
    if narrow { NarrowValue(x); }
  }

  // ---- Laws of division ----

  function Rd(kind: Kind, narrow: bool, rs1: Word, rs2: Word): Word
    requires !narrow || kind in {Mul, Div, Divu, Rem, Remu}
  {
    Result(kind, narrow, rs1, rs2).value
  }

  /** Quotient and remainder rebuild the dividend, except that overflow is off by exactly one modulus. */
  lemma RebuildSigned(a: int, b: int, narrow: bool)
    ensures DivSigned(a, b, narrow) * b + RemSigned(a, b, narrow) == a + (if Overflows(a, b, narrow) then Modulus(narrow) else 0)
  {
    if b != 0 { QuotientTruncates(a, b); }
  }

  lemma RebuildUnsigned(a: nat, b: nat, narrow: bool)
    ensures DivUnsigned(a, b, narrow) * b + RemUnsigned(a, b) == a
  {
    if b != 0 { NatDivision(a, b); }
  }

  /** Words congruent to a quotient and remainder rebuild the dividend modulo the width. */
  lemma RebuildWords(q: Word, r: Word, rs1: Word, rs2: Word, d: int, m: int, a: int, b: int, k: int, narrow: bool)
    requires q % Modulus(narrow) == d % Modulus(narrow) && r % Modulus(narrow) == m % Modulus(narrow)
    requires rs1 % Modulus(narrow) == a % Modulus(narrow) && rs2 % Modulus(narrow) == b % Modulus(narrow)
    requires d * b + m == a + k * Modulus(narrow)
    ensures (q * rs2 + r) % Modulus(narrow) == rs1 % Modulus(narrow)
  {
    ProductCongruent(q, rs2, d, b, narrow);
    SumCongruent(q * rs2, r, d * b, m, narrow);
    Shifted(a, k, narrow);
  }

  /** For all operands, zero divisors and overflow included: DIV * rs2 + REM == rs1 modulo the width. */
  lemma DivRemRebuild(narrow: bool, rs1: Word, rs2: Word)
    ensures (Rd(Div, narrow, rs1, rs2) * rs2 + Rd(Rem, narrow, rs1, rs2)) % Modulus(narrow) == rs1 % Modulus(narrow)
  {
    var a, b := SignedOf(rs1, narrow), SignedOf(rs2, narrow);
    var d, m := DivSigned(a, b, narrow), RemSigned(a, b, narrow);
    OperandValues(rs1, narrow);
    OperandValues(rs2, narrow);
    ResultValue(d, narrow);
    ResultValue(m, narrow);
    RebuildSigned(a, b, narrow);
    RebuildWords(Finished(d, narrow), Finished(m, narrow), rs1, rs2, d, m, a, b, if Overflows(a, b, narrow) then 1 else 0, narrow);
  }

  lemma ReducedTwice(r: Word, narrow: bool)
    ensures UnsignedOf(r, narrow) % Modulus(narrow) == r % Modulus(narrow)
  {}

  lemma DivuRemuRebuild(narrow: bool, rs1: Word, rs2: Word)
    ensures (Rd(Divu, narrow, rs1, rs2) * rs2 + Rd(Remu, narrow, rs1, rs2)) % Modulus(narrow) == rs1 % Modulus(narrow)
  {
    var a, b := UnsignedOf(rs1, narrow), UnsignedOf(rs2, narrow);
    RebuildUnsigned(a, b, narrow);
    ReducedTwice(rs1, narrow);
    ReducedTwice(rs2, narrow);
    UnsignedWords(DivUnsigned(a, b, narrow), RemUnsigned(a, b), rs1, rs2, a, b, narrow);
  }

  lemma UnsignedWords(d: nat, m: nat, rs1: Word, rs2: Word, a: nat, b: nat, narrow: bool)
    requires rs1 % Modulus(narrow) == a % Modulus(narrow) && rs2 % Modulus(narrow) == b % Modulus(narrow) && d * b + m == a
    ensures (Finished(d, narrow) * rs2 + Finished(m, narrow)) % Modulus(narrow) == rs1 % Modulus(narrow)
  {
    ResultValue(d, narrow);
    ResultValue(m, narrow);
    RebuildWords(Finished(d, narrow), Finished(m, narrow), rs1, rs2, d, m, a, b, 0, narrow);
  }

  lemma QuotientShrinks(a: int, b: int)
    requires b != 0
    ensures Magnitude(Quotient(a, b)) <= Magnitude(a)
    ensures b == 1 || b == -1 || a == 0 || Magnitude(Quotient(a, b)) < Magnitude(a)
  {
    var x, y := Magnitude(a), Magnitude(b);
    NatDivision(x, y);
    assert Magnitude(Quotient(a, b)) == x / y;
    if y >= 2 && x > 0 { HalfAtMost(x, y); }
  }

  lemma HalfAtMost(x: nat, y: nat)
    requires x > 0 && y >= 2
    ensures x / y < x
  {
    NatDivision(x, y);
    var q := x / y;
    ProductGrows(y - 1, q);
    assert q * y == (y - 1) * q + q;
  }

  lemma QuotientInRange(a: int, b: int, narrow: bool)
    requires b != 0 && !Overflows(a, b, narrow) && Minimum(narrow) <= a < -Minimum(narrow)
    ensures Minimum(narrow) <= Quotient(a, b) < -Minimum(narrow)
  {
    QuotientShrinks(a, b);
  }

  /** Read back as signed numbers, DIV and REM are the one truncated quotient and remainder when there is one; a zero
      divisor gives -1 and the dividend, overflow gives the dividend and 0. */
  lemma SignedDivision(narrow: bool, rs1: Word, rs2: Word)
    ensures var a, b := SignedOf(rs1, narrow), SignedOf(rs2, narrow);
      var q, r := SignedOf(Rd(Div, narrow, rs1, rs2), narrow), SignedOf(Rd(Rem, narrow, rs1, rs2), narrow);
      if b == 0 then q == -1 && r == a else if Overflows(a, b, narrow) then q == a && r == 0 else Truncated(a, b, q, r)
  {
    var a, b := SignedOf(rs1, narrow), SignedOf(rs2, narrow);
    OperandValues(rs1, narrow);
    OperandValues(rs2, narrow);
    ResultValue(DivSigned(a, b, narrow), narrow);
    ResultValue(RemSigned(a, b, narrow), narrow);
    if b != 0 && !Overflows(a, b, narrow) {
      QuotientInRange(a, b, narrow);
      QuotientTruncates(a, b);
    }
  }

  /** DIVU and REMU on the zero-extended operands; a zero divisor gives all ones and the dividend. */
  lemma UnsignedDivision(narrow: bool, rs1: Word, rs2: Word)
    ensures var a, b := UnsignedOf(rs1, narrow), UnsignedOf(rs2, narrow);
      var q, r := UnsignedOf(Rd(Divu, narrow, rs1, rs2), narrow), UnsignedOf(Rd(Remu, narrow, rs1, rs2), narrow);
      if b == 0 then q == Modulus(narrow) - 1 && r == a else a == q * b + r && r < b
  {
    var a, b := UnsignedOf(rs1, narrow), UnsignedOf(rs2, narrow);
    ResultValue(DivUnsigned(a, b, narrow), narrow);
    ResultValue(RemUnsigned(a, b), narrow);
    if b != 0 {
      NatDivision(a, b);
      DividesDown(a, b);
    }
  }

  lemma DividesDown(a: nat, b: nat)
    requires b > 0
    ensures a / b <= a && a % b <= a
  {
    if b >= 2 && a > 0 { HalfAtMost(a, b); }
    NatDivision(a, b);
    NonNegative(a / b, b);
  }

  // ---- Laws of multiplication ----

  lemma SplitSigned(p: int)
    requires -(U64 * U64 / 2) <= p < U64 * U64 / 2
    ensures Signed(High(p)) * U64 + Wrap(p) == p
  {}

  lemma SplitUnsigned(p: nat)
    requires p < U64 * U64
    ensures High(p) * U64 + Wrap(p) == p
  {}

  lemma ProductBounded(a: int, b: int, m: nat, n: nat)
    requires Magnitude(a) <= m && Magnitude(b) <= n
    ensures Magnitude(a * b) <= m * n
  {
    MagnitudeOfProduct(a, b);
    var x, y := Magnitude(a), Magnitude(b);
    NonNegative(m - x, y);
    NonNegative(m, n - y);
    assert m * n == x * y + (m - x) * y + m * (n - y);
  }

  lemma JoinSigned(a: int, b: int)
    requires Magnitude(a) <= U64 / 2 && Magnitude(b) <= U64 / 2
    ensures Signed(High(a * b)) * U64 + Wrap(a * b) == a * b
  {
    ProductBounded(a, b, U64 / 2, U64 / 2);
    SplitSigned(a * b);
  }

  /** MULH and MUL join to the exact signed product. */
  lemma SignedProduct(rs1: Word, rs2: Word)
    ensures Signed(Rd(Mulh, false, rs1, rs2)) * U64 + Rd(Mul, false, rs1, rs2) == Signed(rs1) * Signed(rs2)
  {
    JoinSigned(Signed(rs1), Signed(rs2));
  }

  /** MULHSU and MUL join to the exact product of signed rs1 and unsigned rs2. */
  lemma MixedProduct(rs1: Word, rs2: Word)
    ensures Signed(Rd(Mulhsu, false, rs1, rs2)) * U64 + Rd(Mul, false, rs1, rs2) == Signed(rs1) * rs2
  {
    ProductBounded(Signed(rs1), rs2, U64 / 2, U64 - 1);
    SplitSigned(Signed(rs1) * rs2);
    OperandValues(rs2, false);
    ProductCongruent(Signed(rs1), Signed(rs2), Signed(rs1), rs2, false);
  }

  /** MULHU and MUL join to the exact unsigned product. */
  lemma UnsignedProduct(rs1: Word, rs2: Word)
    ensures Rd(Mulhu, false, rs1, rs2) * U64 + Rd(Mul, false, rs1, rs2) == rs1 * rs2
  {
    NonNegative(rs1, rs2);
    ProductBounded(rs1, rs2, U64 - 1, U64 - 1);
    SplitUnsigned(rs1 * rs2);
    OperandValues(rs1, false);
    OperandValues(rs2, false);
    ProductCongruent(Signed(rs1), Signed(rs2), rs1, rs2, false);
  }

  /** MULW is the low 32 bits of the product, sign-extended. */
  lemma NarrowProduct(rs1: Word, rs2: Word)
    ensures Rd(Mul, true, rs1, rs2) % U32 == (rs1 * rs2) % U32 && Rd(Mul, true, rs1, rs2) == SextLow(Rd(Mul, true, rs1, rs2))
  {
    OperandValues(rs1, true);
    OperandValues(rs2, true);
    var p := SignedOf(rs1, true) * SignedOf(rs2, true);
    ResultValue(p, true);
    ProductCongruent(SignedOf(rs1, true), SignedOf(rs2, true), rs1, rs2, true);
  }
}
