/** Widths, flag bytes, and bitwise operations on unsigned integers of any width by their binary recursion. */
module Bits {

  const U64 := 0x1_0000_0000_0000_0000

  const U32 := 0x1_0000_0000

  // ---- Flag bytes and the numbers they stand for ----

  function Digit(f: bv8, mask: bv8): nat { if f & mask != 0 then 1 else 0 }

  function FromDigit(n: nat, mask: bv8): bv8 { if n % 2 == 1 then mask else 0 }

  function FlagValue(f: bv8): (n: nat)
    ensures n < 256
  {
    Digit(f, 1) + 2 * (Digit(f, 2) + 2 * (Digit(f, 4) + 2 * (Digit(f, 8) + 2 * (Digit(f, 16) + 2 * (Digit(f, 32) + 2 * (
    Digit(f, 64) + 2 * Digit(f, 128)))))))
  }

  function FlagByte(n: nat): bv8 {
    var n1 := n / 2; var n2 := n1 / 2; var n3 := n2 / 2; var n4 := n3 / 2; var n5 := n4 / 2; var n6 := n5 / 2; var n7 := n6 / 2;
    FromDigit(n, 1) | FromDigit(n1, 2) | FromDigit(n2, 4) | FromDigit(n3, 8) | FromDigit(n4, 16) | FromDigit(n5, 32) |
    FromDigit(n6, 64) | FromDigit(n7, 128)
  }

  lemma DigitsOfByte(n: nat)
    ensures Digit(FlagByte(n), 1) == n % 2 && Digit(FlagByte(n), 2) == n / 2 % 2 && Digit(FlagByte(n), 4) == n / 2 / 2 % 2
    ensures Digit(FlagByte(n), 8) == n / 2 / 2 / 2 % 2 && Digit(FlagByte(n), 16) == n / 2 / 2 / 2 / 2 % 2
    ensures Digit(FlagByte(n), 32) == n / 2 / 2 / 2 / 2 / 2 % 2 && Digit(FlagByte(n), 64) == n / 2 / 2 / 2 / 2 / 2 / 2 % 2
    ensures Digit(FlagByte(n), 128) == n / 2 / 2 / 2 / 2 / 2 / 2 / 2 % 2
  {}

  lemma ValueOfFlagByte(n: nat)
    requires n < 256
    ensures FlagValue(FlagByte(n)) == n
  {
    DigitsOfByte(n);
  }

  lemma SameDigits(f: bv8, g: bv8)
    requires Digit(f, 1) == Digit(g, 1) && Digit(f, 2) == Digit(g, 2) && Digit(f, 4) == Digit(g, 4) && Digit(f, 8) == Digit(g, 8)
    requires Digit(f, 16) == Digit(g, 16) && Digit(f, 32) == Digit(g, 32) && Digit(f, 64) == Digit(g, 64)
    requires Digit(f, 128) == Digit(g, 128)
    ensures f == g
  {}

  type Bit = d: nat | d < 2

  lemma DigitsOfSum(d0: Bit, d1: Bit, d2: Bit, d3: Bit, d4: Bit, d5: Bit, d6: Bit, d7: Bit)
    ensures var n := d0 + 2 * (d1 + 2 * (d2 + 2 * (d3 + 2 * (d4 + 2 * (d5 + 2 * (d6 + 2 * d7))))));
      && n % 2 == d0 && n / 2 % 2 == d1 && n / 2 / 2 % 2 == d2 && n / 2 / 2 / 2 % 2 == d3 && n / 2 / 2 / 2 / 2 % 2 == d4
      && n / 2 / 2 / 2 / 2 / 2 % 2 == d5 && n / 2 / 2 / 2 / 2 / 2 / 2 % 2 == d6 && n / 2 / 2 / 2 / 2 / 2 / 2 / 2 % 2 == d7
  {}

  lemma Rebuilt(f: bv8, n: nat)
    requires n % 2 == Digit(f, 1) && n / 2 % 2 == Digit(f, 2) && n / 2 / 2 % 2 == Digit(f, 4)
    requires n / 2 / 2 / 2 % 2 == Digit(f, 8) && n / 2 / 2 / 2 / 2 % 2 == Digit(f, 16)
    requires n / 2 / 2 / 2 / 2 / 2 % 2 == Digit(f, 32) && n / 2 / 2 / 2 / 2 / 2 / 2 % 2 == Digit(f, 64)
    requires n / 2 / 2 / 2 / 2 / 2 / 2 / 2 % 2 == Digit(f, 128)
    ensures FlagByte(n) == f
  {
    DigitsOfByte(n);
    SameDigits(FlagByte(n), f);
  }

  lemma FlagByteOfSum(f: bv8, d0: Bit, d1: Bit, d2: Bit, d3: Bit, d4: Bit, d5: Bit, d6: Bit, d7: Bit, n: nat)
    requires d0 == Digit(f, 1) && d1 == Digit(f, 2) && d2 == Digit(f, 4) && d3 == Digit(f, 8)
    requires d4 == Digit(f, 16) && d5 == Digit(f, 32) && d6 == Digit(f, 64) && d7 == Digit(f, 128)
    requires n == d0 + 2 * (d1 + 2 * (d2 + 2 * (d3 + 2 * (d4 + 2 * (d5 + 2 * (d6 + 2 * d7))))))
    ensures FlagByte(n) == f
  {
    DigitsOfSum(d0, d1, d2, d3, d4, d5, d6, d7);
    Rebuilt(f, n);
  }

  lemma FlagByteOfValue(f: bv8)
    ensures FlagByte(FlagValue(f)) == f
  {
    FlagByteOfSum(f, Digit(f, 1), Digit(f, 2), Digit(f, 4), Digit(f, 8), Digit(f, 16), Digit(f, 32), Digit(f, 64), Digit(f, 128),
      FlagValue(f));
  }

  // ---- Residues ----

  lemma Shift32(x: int, k: int)
    ensures (x + k * U32) % U32 == x % U32
  {}

  lemma Shift64(x: int, k: int)
    ensures (x + k * U64) % U64 == x % U64
  {}

  // ---- Bitwise operations ----

  function Xor(x: nat, y: nat): nat {
    if x == 0 && y == 0 then 0
    else 2 * Xor(x / 2, y / 2) + (if x % 2 != y % 2 then 1 else 0)
  }

  /** `x & ~m` */
  function AndNot(x: nat, m: nat): nat {
    if x == 0 then 0
    else 2 * AndNot(x / 2, m / 2) + (if m % 2 == 1 then 0 else x % 2)
  }

  predicate PowerOfTwo(s: nat) {
    s == 1 || (s % 2 == 0 && s > 0 && PowerOfTwo(s / 2))
  }

  /** Divisible by the power of two `s`. */
  predicate Aligned(x: nat, s: nat)
    requires PowerOfTwo(s)
  {
    s == 1 || (x % 2 == 0 && Aligned(x / 2, s / 2))
  }

  lemma {:induction false} AndNotNone(x: nat)
    ensures AndNot(x, 0) == x
  {
    if x != 0 { AndNotNone(x / 2); }
  }

  lemma {:induction false} XorZero(x: nat)
    ensures Xor(x, 0) == x
  {
    if x != 0 { XorZero(x / 2); }
  }

  /** Clearing the bits below a power of two and comparing is an interval test. */
  lemma {:induction false} ClearIsInterval(p: nat, b: nat, s: nat)
    requires PowerOfTwo(s) && Aligned(b, s)
    ensures AndNot(p, s - 1) == b <==> b <= p < b + s
    decreases s
  {
    if s == 1 {
      AndNotNone(p);
    } else {
      assert (s - 1) / 2 == s / 2 - 1 && (s - 1) % 2 == 1;
      ClearIsInterval(p / 2, b / 2, s / 2);
    }
  }

  lemma {:induction false} AlignedMultiple(x: nat, s: nat) returns (k: nat)
    requires PowerOfTwo(s) && Aligned(x, s)
    ensures x == k * s
    decreases s
  {
    if s == 1 {
      k := x;
    } else {
      k := AlignedMultiple(x / 2, s / 2);
      assert s == 2 * (s / 2);
    }
  }

  lemma {:induction false} AlignedWeaken(x: nat, s: nat, t: nat)
    requires PowerOfTwo(s) && PowerOfTwo(t) && t <= s && Aligned(x, s)
    ensures Aligned(x, t)
    decreases s
  {
    if t != 1 { AlignedWeaken(x / 2, s / 2, t / 2); }
  }

  lemma Twice(x: nat)
    requires PowerOfTwo(x)
    ensures PowerOfTwo(2 * x)
  {
    assert (2 * x) / 2 == x;
  }

  lemma Times16(x: nat)
    requires PowerOfTwo(x)
    ensures PowerOfTwo(16 * x)
  {
    Twice(x);
    Twice(2 * x);
    Twice(4 * x);
    Twice(8 * x);
  }

  lemma TimesU16(x: nat)
    requires PowerOfTwo(x)
    ensures PowerOfTwo(0x1_0000 * x)
  {
    Times16(x);
    Times16(0x10 * x);
    Times16(0x100 * x);
    Times16(0x1000 * x);
  }

  lemma U64IsPowerOfTwo()
    ensures PowerOfTwo(U64)
  {
    TimesU16(1);
    TimesU16(0x1_0000);
    TimesU16(0x1_0000_0000);
    TimesU16(0x1_0000_0000_0000);
  }

  lemma {:induction false} PowersAligned(a: nat, s: nat)
    requires PowerOfTwo(a) && PowerOfTwo(s) && s <= a
    ensures Aligned(a, s)
    decreases s
  {
    if s != 1 { PowersAligned(a / 2, s / 2); }
  }

  lemma {:induction false} AlignedDifference(x: nat, y: nat, s: nat)
    requires PowerOfTwo(s) && Aligned(x, s) && Aligned(y, s) && y <= x
    ensures Aligned(x - y, s)
    decreases s
  {
    if s != 1 { AlignedDifference(x / 2, y / 2, s / 2); }
  }

  lemma ReducedOnce(x: nat)
    requires x >= U64
    ensures x % U64 == (x - U64) % U64
  {}

  lemma {:induction false} AlignedReduced(x: nat, s: nat)
    requires PowerOfTwo(s) && s <= U64 && Aligned(x, s)
    ensures Aligned(x % U64, s)
    decreases x
  {
    if x >= U64 {
      U64IsPowerOfTwo();
      PowersAligned(U64, s);
      AlignedDifference(x, U64, s);
      AlignedReduced(x - U64, s);
      ReducedOnce(x);
    }
  }

  lemma {:induction false} AndNotSelf(x: nat)
    ensures AndNot(x, x) == 0
  {
    if x != 0 { AndNotSelf(x / 2); }
  }

  lemma {:induction false} ZeroAligned(s: nat)
    requires PowerOfTwo(s)
    ensures Aligned(0, s)
    decreases s
  {
    if s != 1 { ZeroAligned(s / 2); }
  }
}
