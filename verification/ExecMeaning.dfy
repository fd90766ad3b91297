/** What the integer, jump and branch instructions leave in the registers (chapters 2 and 4 of the RISC-V Unprivileged ISA),
    stated in arithmetic without the functions of the executor. */
module ExecMeaning {
  import opened Bits
  import opened Types
  import opened InsnFormat
  import opened Executor
  import opened Hart
  import opened Privileged
  import opened TrapMeaning
  import Step

  // ---- Numbers ----

  /** The 64-bit value as a signed number. */
  function Signed64(v: Word): int { if v < 0x8000_0000_0000_0000 then v else v - 0x1_0000_0000_0000_0000 }

  /** The low 32 bits as a signed number. */
  function Signed32(v: Word): int {
    var low := v % 0x1_0000_0000;
    if low < 0x8000_0000 then low else low - 0x1_0000_0000
  }

  /** The upper half of the register repeats bit 31. */
  predicate SignExtended(v: Word) { v < 0x8000_0000 || v >= 0xFFFF_FFFF_8000_0000 }

  /** `q` is `a` divided by 2^n and rounded down. */
  predicate ShiftedDown(q: int, a: int, n: nat) { q * Power2(n) <= a < q * Power2(n) + Power2(n) }

  lemma DividesDown(a: int, n: nat)
    ensures Power2(n) > 0 && ShiftedDown(a / Power2(n), a, n)
  {
    Power2Positive(n);
    EuclideanDivision(a, Power2(n));
  }

  lemma EuclideanDivision(a: int, m: nat)
    requires m > 0
    ensures a / m * m <= a < a / m * m + m
  {}

  // ---- Results ----

  /** The 64-bit operations on operands `a` and `b` and shift amount `n`. */
  ghost predicate Wide(kind: AluKind, a: Word, b: Word, n: nat, v: Word) {
    match kind
    case Add => v == (a + b) % 0x1_0000_0000_0000_0000
    case Sub => (v + b) % 0x1_0000_0000_0000_0000 == a
    case Slt => v == if Signed64(a) < Signed64(b) then 1 else 0
    case Sltu => v == if a < b then 1 else 0
    case Xor => forall k :: k in Ones(v) <==> (k in Ones(a)) != (k in Ones(b))
    case Or => forall k :: k in Ones(v) <==> k in Ones(a) || k in Ones(b)
    case And => forall k :: k in Ones(v) <==> k in Ones(a) && k in Ones(b)
    case Sll => v == (a * Power2(n)) % 0x1_0000_0000_0000_0000
    case Srl => ShiftedDown(v, a, n)
    case Sra => ShiftedDown(Signed64(v), Signed64(a), n)
  }

  /** The 32-bit operations, which leave a sign-extended result. */
  ghost predicate Narrow(kind: AluKind, a: Word, b: Word, n: nat, v: Word) {
    SignExtended(v) &&
    match kind
    case Add => v % 0x1_0000_0000 == (a + b) % 0x1_0000_0000
    case Sub => (v + b) % 0x1_0000_0000 == a % 0x1_0000_0000
    case Sll => v % 0x1_0000_0000 == (a % 0x1_0000_0000 * Power2(n)) % 0x1_0000_0000
    case Srl => ShiftedDown(v % 0x1_0000_0000, a % 0x1_0000_0000, n)
    case Sra => ShiftedDown(Signed32(v), Signed32(a), n)
    case _ => true
  }

  lemma WideBits(a: Word, b: Word)
    ensures Wide(Xor, a, b, 0, AluResult(Xor, false, a, b, 0))
    ensures Wide(Or, a, b, 0, AluResult(Or, false, a, b, 0))
    ensures Wide(And, a, b, 0, AluResult(And, false, a, b, 0))
  {
    OnesRoundTrip((Ones(a) - Ones(b)) + (Ones(b) - Ones(a)));
    OnesRoundTrip(Ones(a) + Ones(b));
    OnesRoundTrip(Ones(a) * Ones(b));
  }

  lemma WideSums(kind: AluKind, a: Word, b: Word, n: nat)
    requires kind in {Add, Sub, Slt, Sltu, Sll}
    ensures Wide(kind, a, b, n, AluResult(kind, false, a, b, n))
  {}

  lemma SmallQuotient(a: nat, m: nat)
    requires m > 0
    ensures 0 <= a / m <= a
  {
    EuclideanDivision(a, m);
    QuotientSign(a, m);
    ScaledUp(1, m, a / m);
  }

  lemma QuotientSign(a: int, m: nat)
    requires m > 0
    ensures a >= 0 ==> a / m >= 0
    ensures a < 0 ==> a / m < 0
  {}

  lemma NegativeQuotient(a: int, m: nat)
    requires m > 0 && a < 0
    ensures a <= a / m < 0
  {
    var q := a / m;
    EuclideanDivision(a, m);
    QuotientSign(a, m);
    ScaledUp(1, m, -a);
    assert a * m == -(m * -a);
    assert q * m + m == (q + 1) * m;
    ScaledDown(a, q + 1, m);
  }

  lemma WideShifts(a: Word, b: Word, n: nat)
    ensures Wide(Srl, a, b, n, AluResult(Srl, false, a, b, n))
    ensures Wide(Sra, a, b, n, AluResult(Sra, false, a, b, n))
  {
    DividesDown(a, n);
    SmallQuotient(a, Power2(n));
    var s := Signed64(a);
    DividesDown(s, n);
    if s >= 0 { SmallQuotient(s, Power2(n)); } else { NegativeQuotient(s, Power2(n)); }
    WrappedBack(s / Power2(n));
  }

  lemma WrappedBack(s: int)
    ensures -0x8000_0000_0000_0000 <= s < 0x8000_0000_0000_0000 ==> Signed64(Wrap(s)) == s
  {}

  /** The 64-bit operations are what they are called. */
  lemma WideExactly(kind: AluKind, a: Word, b: Word, n: nat)
    ensures Wide(kind, a, b, n, AluResult(kind, false, a, b, n))
  {
    match kind {
      case Xor => WideBits(a, b);
      case Or => WideBits(a, b);
      case And => WideBits(a, b);
      case Srl => WideShifts(a, b, n);
      case Sra => WideShifts(a, b, n);
      case _ => WideSums(kind, a, b, n);
    }
  }

  /** What an operation of the 32-bit forms leaves: its result with the low half sign-extended. */
  function NarrowResult(kind: AluKind, a: Word, b: Word, n: nat): Word { SextLow(AluResult(kind, true, a, b, n)) }

  lemma ExtendedLow(v: nat)
    ensures SextLow(v) % 0x1_0000_0000 == v % 0x1_0000_0000 && SignExtended(SextLow(v))
  {}

  /** Sums and differences of low halves are those of the numbers, in the low half. */
  lemma LowSum(a: nat, b: nat, v: nat)
    ensures v % U32 == (a % U32 + b % U32) % U64 % U32 ==> v % U32 == (a + b) % U32
    ensures v % U32 == (a % U32 - b % U32) % U64 % U32 ==> (v + b) % U32 == a % U32
  {
    var x, y := a % U32 + b % U32, a % U32 - b % U32;
    ReducedTwice(x);
    ReducedTwice(y);
    Shift32(x, a / U32 + b / U32);
    assert a + b == x + (a / U32 + b / U32) * U32;
    if v % U32 == y % U32 {
      var k := v / U32 - y / U32;
      assert v == y + k * U32;
      Shift32(a % U32, k + b / U32);
      assert v + b == a % U32 + (k + b / U32) * U32;
    }
  }

  lemma NarrowSums(a: Word, b: Word, n: nat)
    ensures Narrow(Add, a, b, n, NarrowResult(Add, a, b, n))
    ensures Narrow(Sub, a, b, n, NarrowResult(Sub, a, b, n))
  {
    ExtendedLow(AluResult(Add, true, a, b, n));
    ExtendedLow(AluResult(Sub, true, a, b, n));
    LowSum(a, b, NarrowResult(Add, a, b, n));
    LowSum(a, b, NarrowResult(Sub, a, b, n));
  }

  lemma ReducedTwice(x: int)
    ensures x % 0x1_0000_0000_0000_0000 % 0x1_0000_0000 == x % 0x1_0000_0000
  {}

  lemma NarrowShiftLeft(a: Word, b: Word, n: nat)
    ensures Narrow(Sll, a, b, n, NarrowResult(Sll, a, b, n))
  {
    ExtendedLow(AluResult(Sll, true, a, b, n));
    ReducedTwice(a % 0x1_0000_0000 * Power2(n));
  }

  lemma SmallResult(q: nat)
    requires q < U32
    ensures SextLow(Wrap(q)) % U32 == q && SignExtended(SextLow(Wrap(q)))
  {}

  lemma NarrowShiftRight(a: Word, b: Word, n: nat)
    ensures Narrow(Srl, a, b, n, NarrowResult(Srl, a, b, n))
  {
    var low := a % U32;
    DividesDown(low, n);
    SmallQuotient(low, Power2(n));
    SmallResult(low / Power2(n));
    assert AluResult(Srl, true, a, b, n) == Wrap(low / Power2(n));
  }

  lemma NarrowShiftSigned(a: Word, b: Word, n: nat)
    ensures Narrow(Sra, a, b, n, NarrowResult(Sra, a, b, n))
  {
    var s := Signed32(a);
    DividesDown(s, n);
    if s >= 0 { SmallQuotient(s, Power2(n)); } else { NegativeQuotient(s, Power2(n)); }
    LowHalfIs(a);
    NarrowBack(s / Power2(n));
    assert AluResult(Sra, true, a, b, n) == Wrap(s / Power2(n));
  }

  lemma LowHalfIs(a: Word)
    ensures Signed(SextLow(a)) == Signed32(a)
  {}

  lemma NarrowBack(s: int)
    ensures -0x8000_0000 <= s < 0x8000_0000 ==> SignExtended(SextLow(Wrap(s))) && Signed32(SextLow(Wrap(s))) == s
  {}

  /** And so are the 32-bit ones. */
  lemma NarrowExactly(kind: AluKind, a: Word, b: Word, n: nat)
    requires kind in {Add, Sub, Sll, Srl, Sra}
    ensures Narrow(kind, a, b, n, NarrowResult(kind, a, b, n))
  {
    match kind {
      case Sll => NarrowShiftLeft(a, b, n);
      case Srl => NarrowShiftRight(a, b, n);
      case Sra => NarrowShiftSigned(a, b, n);
      case _ => NarrowSums(a, b, n);
    }
  }

  // ---- Registers and operands ----

  /** The number of a register is the low five bits of its field. */
  lemma RegisterNumber(r: bv32)
    requires IsReg(r)
    ensures Index(r) == Unsigned(r)
  {}

  /** Register 0 keeps its zero; any other takes the value. */
  predicate Written(c: Core, c': Core, rd: bv32, v: Word) {
    && |c'.x| == |c.x| && c'.x[0] == 0
    && forall k :: 0 < k < 32 ==> c'.x[k] == if k == Index(rd) then v else c.x[k]
  }

  /** A 32-bit immediate as a signed number. */
  function Immediate(i: bv32): int {
    if i & 0x8000_0000 != 0 then (i as nat) - 0x1_0000_0000 else i as nat
  }

  /** The second operand: a register, or the immediate modulo 2^64. */
  predicate SecondOperand(c: Core, s: Source, b: Word) {
    match s
    case FromReg(r) => b == c.x[Index(r)]
    case FromImm(i) => b == Immediate(i) % 0x1_0000_0000_0000_0000
  }

  /** Six bits of it, or five in the 32-bit forms, are the shift amount. */
  predicate ShiftOperand(c: Core, s: Source, narrow: bool, n: nat) {
    match s
    case FromReg(r) => n == c.x[Index(r)] % (if narrow then 32 else 64)
    case FromImm(i) => n == (i & (if narrow then 0x1f else 0x3f)) as nat
  }

  lemma ImmediateIs(i: bv32)
    ensures SignedImm(i) == Immediate(i)
  {}

  lemma RegisterWritten(c: Core, rd: bv32, v: Word)
    ensures Written(c, WithReg(c, rd, v), rd, v)
  {}

  lemma OperandsAre(c: Core, s: Source, narrow: bool)
    ensures SecondOperand(c, s, Operand(c, s)) && ShiftOperand(c, s, narrow, ShiftAmount(c, s, narrow))
  {
    if s.FromImm? { ImmediateIs(s.imm); }
  }

  lemma ResultIs(c: Core, kind: AluKind, narrow: bool, a: Word, s: Source, b: Word, n: nat)
    requires b == Operand(c, s) && n == ShiftAmount(c, s, narrow)
    ensures AluValue(c, kind, narrow, a, s) == if narrow then NarrowResult(kind, a, b, n) else AluResult(kind, false, a, b, n)
  {}

  /** An integer operation writes its result for the operands it names, and changes nothing else. */
  lemma AluExactly(c: Core, kind: AluKind, narrow: bool, rd: bv32, rs1: bv32, s: Source, w: bv32) returns (b: Word, n: nat, v: Word)
    requires !narrow || kind in {Add, Sub, Sll, Srl, Sra}
    ensures SecondOperand(c, s, b) && ShiftOperand(c, s, narrow, n)
    ensures if narrow then Narrow(kind, c.x[Index(rs1)], b, n, v) else Wide(kind, c.x[Index(rs1)], b, n, v)
    ensures var e := Perform(c, Alu(kind, narrow, rd, rs1, s), w);
      e.Done? && Written(c, e.c, rd, v) && e.c == c.(x := e.c.x)
  {
    var a := Reg(c, rs1);
    b, n, v := Operand(c, s), ShiftAmount(c, s, narrow), AluValue(c, kind, narrow, a, s);
    OperandsAre(c, s, narrow);
    ResultIs(c, kind, narrow, a, s, b, n);
    RegisterWritten(c, rd, v);
    if narrow { NarrowExactly(kind, a, b, n); } else { WideExactly(kind, a, b, n); }
  }

  // ---- Upper immediates, jumps and branches ----

  /** LUI writes its immediate, and AUIPC its own address plus the immediate. */
  lemma UpperExactly(c: Core, rd: bv32, imm: bv32, relative: bool, w: bv32, v: Word)
    requires v == (Immediate(imm) + (if relative then c.epc else 0)) % 0x1_0000_0000_0000_0000
    ensures var e := Perform(c, Upper(rd, imm, relative), w); e.Done? && e.c == c.(x := e.c.x) && Written(c, e.c, rd, v)
  {
    ImmediateIs(imm);
    RegisterWritten(c, rd, v);
  }

  /** JAL writes the address after the instruction and goes to its own address plus the offset. */
  lemma JalExactly(c: Core, rd: bv32, imm: bv32, w: bv32)
    ensures var e := Perform(c, JumpLink(rd, imm), w);
      e.Done? && Written(c, e.c, rd, c.pc) && e.c.pc == (c.epc + Immediate(imm)) % 0x1_0000_0000_0000_0000 && e.c.epc == c.epc
  {
    ImmediateIs(imm);
    RegisterWritten(c, rd, c.pc);
  }

  lemma BitCleared(target: Word)
    ensures WithoutBit0(target) / 2 == target / 2 && WithoutBit0(target) % 2 == 0
  {}

  /** JALR goes to the register plus the offset, read before the link is written, with bit 0 cleared. */
  lemma JalrExactly(c: Core, rd: bv32, rs1: bv32, imm: bv32, w: bv32, target: Word)
    requires target == (c.x[Index(rs1)] + Immediate(imm)) % 0x1_0000_0000_0000_0000
    ensures var e := Perform(c, JumpReg(rd, rs1, imm), w);
      e.Done? && Written(c, e.c, rd, c.pc) && e.c.pc / 2 == target / 2 && e.c.pc % 2 == 0 && e.c.epc == c.epc
  {
    ImmediateIs(imm);
    BitCleared(target);
    RegisterWritten(c, rd, c.pc);
    assert Perform(c, JumpReg(rd, rs1, imm), w) == Done(WithReg(c, rd, c.pc).(pc := WithoutBit0(target)));
  }

  /** beq, bne, blt, bge, bltu, bgeu. */
  predicate Holds(funct3: bv32, a: Word, b: Word)
    requires funct3 in {0, 1, 4, 5, 6, 7}
  {
    match funct3
    case 0 => a == b
    case 1 => a != b
    case 4 => Signed64(a) < Signed64(b)
    case 5 => !(Signed64(a) < Signed64(b))
    case 6 => a < b
    case _ => !(a < b)
  }

  /** A branch goes to its own address plus the offset exactly when its condition holds, and otherwise on; the two that do
      not exist are illegal. */
  lemma BranchExactly(c: Core, funct3: bv32, rs1: bv32, rs2: bv32, imm: bv32, w: bv32)
    requires funct3 < 8
    ensures Perform(c, Branch(funct3, rs1, rs2, imm), w) ==
      if funct3 in {2, 3} then Raise(2, c.epc, w, c)
      else if Holds(funct3, c.x[Index(rs1)], c.x[Index(rs2)]) then Done(c.(pc := (c.epc + Immediate(imm)) % 0x1_0000_0000_0000_0000))
      else Done(c)
  {
    assert funct3 in {0, 1, 2, 3, 4, 5, 6, 7};
    ImmediateIs(imm);
  }

  /** Loads and stores ask for the register plus the offset. */
  lemma LoadExactly(c: Core, fp: bool, funct3: bv32, rd: bv32, rs1: bv32, imm: bv32, w: bv32)
    ensures Perform(c, MemLoad(fp, funct3, rd, rs1, imm), w)
      == LoadTo(fp, funct3, rd, (c.x[Index(rs1)] + Immediate(imm)) % 0x1_0000_0000_0000_0000, c)
  {
    ImmediateIs(imm);
  }

  lemma StoreExactly(c: Core, fp: bool, funct3: bv32, rs2: bv32, rs1: bv32, imm: bv32, w: bv32)
    ensures Perform(c, MemStore(fp, funct3, rs2, rs1, imm), w)
      == StoreFrom(fp, funct3, rs2, (c.x[Index(rs1)] + Immediate(imm)) % 0x1_0000_0000_0000_0000, c)
  {
    ImmediateIs(imm);
  }

  // ---- Traps of instructions ----

  lemma RaiseSettles(h: HartState, cause: Word, epc: Word, tval: bv32, c: Core, h0: HartState, value: Word)
    requires |h.xregs| == 32 && h.xregs[0] == 0 && h0 == h.(xregs := c.x, pc := c.pc, epc := c.epc) && value == Step.Low(tval)
    ensures Step.Settle(h, Raise(cause, epc, tval, c)) == DoTrap(h0, Trap(epc, cause, value))
  {}

  /** An instruction that raises an exception traps with its cause, and the word it names as value. */
  lemma RaisedExactly(h: HartState, cause: Word, epc: Word, tval: bv32, c: Core, h0: HartState, h': HartState, value: Word)
    requires h.privilege <= 3 && |h.xregs| == 32 && h.xregs[0] == 0 && h' == Step.Settle(h, Raise(cause, epc, tval, c))
    requires h0 == h.(xregs := c.x, pc := c.pc, epc := c.epc) && value == (tval as nat) % 0x1_0000_0000_0000_0000
    ensures if ToS(h0, cause) then TrappedToS(h0, h', epc, cause, value) else TrappedToM(h0, h', epc, cause, value)
  {
    RaiseSettles(h, cause, epc, tval, c, h0, value);
    TrapEntersExactly(h0, Trap(epc, cause, value));
  }

  // ---- Known words, as an assembler writes them ----

  /** sll, slt, sltu, xor, srl, or and and of x6 and x7 into x5 */
  lemma KnownKinds()
    ensures Decode(0x0073_12B3) == Alu(Sll, false, 5, 6, FromReg(7)) && Decode(0x0073_22B3) == Alu(Slt, false, 5, 6, FromReg(7))
    ensures Decode(0x0073_32B3) == Alu(Sltu, false, 5, 6, FromReg(7)) && Decode(0x0073_42B3) == Alu(Xor, false, 5, 6, FromReg(7))
    ensures Decode(0x0073_52B3) == Alu(Srl, false, 5, 6, FromReg(7)) && Decode(0x0073_62B3) == Alu(Or, false, 5, 6, FromReg(7))
    ensures Decode(0x0073_72B3) == Alu(And, false, 5, 6, FromReg(7))
  {}

  /** addi x5, x6, -1; sub x5, x6, x7; addw x5, x6, x7; srai x5, x6, 5 */
  lemma KnownOperations()
    ensures Decode(0xFFF3_0293) == Alu(Add, false, 5, 6, FromImm(0xFFFF_FFFF))
    ensures Decode(0x4073_02B3) == Alu(Sub, false, 5, 6, FromReg(7))
    ensures Decode(0x0073_02BB) == Alu(Add, true, 5, 6, FromReg(7))
    ensures Decode(0x4053_5293) == Alu(Sra, false, 5, 6, FromImm(0x405))
  {}

  /** ld x5, 8(x6); sd x5, -8(x6) */
  lemma KnownAccesses()
    ensures Decode(0x0083_3283) == MemLoad(false, 3, 5, 6, 8)
    ensures Decode(0xFE53_3C23) == MemStore(false, 3, 5, 6, 0xFFFF_FFF8)
  {}

  /** lui x5, 0x12345; auipc x5, 0x12345 */
  lemma KnownUppers()
    ensures Decode(0x1234_52B7) == Upper(5, 0x1234_5000, false)
    ensures Decode(0x1234_5297) == Upper(5, 0x1234_5000, true)
  {}

  /** jal x1, 8; jalr x1, 4(x6); beq x5, x6, -4; ebreak */
  lemma KnownJumps()
    ensures Decode(0x0080_00EF) == JumpLink(1, 8)
    ensures Decode(0x0043_00E7) == JumpReg(1, 6, 4)
    ensures Decode(0xFE62_8EE3) == Branch(0, 5, 6, 0xFFFF_FFFC)
    ensures Decode(0x0010_0073) == Breakpoint
  {}
}
