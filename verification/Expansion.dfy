/** Expanding a compressed instruction preserves its meaning. */
module Expansion {
  import opened Bits
  import opened Types
  import opened InsnFormat
  import opened Executor
  import D = Decompress
  import R = Rvc

  // ---- Bits ----

  /** Hints of the manual that the code rejects: a shift of x0, and C.LUI of x0. */
  predicate RejectedHint(x: bv32) {
    x & 0xEF83 == 0x0002 || (x & 0xEF83 == 0x6001 && x & 0x107C != 0)
  }

  lemma SameShort(x: bv32)
    ensures R.ShortHigh(x) == D.Creg(x >> 7) && R.ShortLow(x) == D.Creg(x >> 2)
    ensures IsReg(D.Creg(x >> 7)) && IsReg(D.Creg(x >> 2))
  {}

  lemma SameLong(x: bv32)
    ensures R.LongHigh(x) == (x >> 7) & 0x1f && R.LongLow(x) == (x >> 2) & 0x1f
    ensures IsReg((x >> 7) & 0x1f) && IsReg((x >> 2) & 0x1f)
  {}

  lemma SameAddi4spn(x: bv32)
    ensures R.ImmAddi4spn(x) == D.OffsetAddi4spn(x)
    ensures FitsSigned(D.OffsetAddi4spn(x), SIGNED12)
  {}

  lemma SameD(x: bv32)
    ensures R.ImmD(x) == D.OffsetD(x)
    ensures FitsSigned(D.OffsetD(x), SIGNED12)
  {}

  lemma SameW(x: bv32)
    ensures R.ImmW(x) == D.OffsetW(x)
    ensures FitsSigned(D.OffsetW(x), SIGNED12)
  {}

  lemma SameLdsp(x: bv32)
    ensures R.ImmLdsp(x) == D.OffsetLdsp(x)
    ensures FitsSigned(D.OffsetLdsp(x), SIGNED12)
  {}

  lemma SameLwsp(x: bv32)
    ensures R.ImmLwsp(x) == D.OffsetLwsp(x)
    ensures FitsSigned(D.OffsetLwsp(x), SIGNED12)
  {}

  lemma SameSdsp(x: bv32)
    ensures R.ImmSdsp(x) == D.OffsetSdsp(x)
    ensures FitsSigned(D.OffsetSdsp(x), SIGNED12)
  {}

  lemma SameSwsp(x: bv32)
    ensures R.ImmSwsp(x) == D.OffsetSwsp(x)
    ensures FitsSigned(D.OffsetSwsp(x), SIGNED12)
  {}

  lemma SameSigned6(x: bv32)
    ensures R.ImmSigned6(x) == D.Imm6(x)
    ensures FitsSigned(D.Imm6(x), SIGNED12)
  {}

  lemma SameShamt(x: bv32)
    ensures R.ImmShamt(x) == D.Shamt(x)
    ensures D.Shamt(x) & 0xffff_ffc0 == 0
  {}

  lemma SameAddi16sp(x: bv32)
    ensures R.ImmAddi16sp(x) == D.Imm16sp(x)
    ensures FitsSigned(D.Imm16sp(x), SIGNED12)
  {}

  lemma SameJumpLow(x: bv32)
    ensures R.JumpLow(x) == D.JumpBits(x) & 0x7ff
  {}

  lemma SameJumpSign(x: bv32)
    ensures D.JumpBits(x) & 0x800 == (x & 0x1000) >> 1 && D.JumpBits(x) & 0xffff_f000 == 0
  {}

  lemma ExtendJoins(b: bv32, x: bv32)
    requires b & 0x800 == (x & 0x1000) >> 1 && b & 0xffff_f000 == 0
    ensures D.Extend(b, 0x800, 0xffff_f000) == R.SignBit(x, 0x1000, 0x800) | (b & 0x7ff)
  {}

  lemma SameJump(x: bv32)
    ensures R.ImmJump(x) == D.OffsetJ(x)
  {
    SameJumpLow(x);
    SameJumpSign(x);
    ExtendJoins(D.JumpBits(x), x);
  }

  lemma SameBranch(x: bv32)
    ensures R.ImmBranch(x) == D.OffsetB(x)
  {}

  lemma SameLui(x: bv32)
    ensures R.ImmLui(x) == D.Imm6(x) << 12
    ensures FitsSigned(D.Imm6(x), SIGNED20)
  {}

  // ---- The encoders' words, decoded ----

  lemma OpcodeGivesMajor(w: bv32, maj: bv32)
    requires Opcode(w) == D.Full(maj) && IsReg(maj)
    ensures OpMaj(w) == maj
  {}

  lemma DecodeOpImm(imm: bv32, rs1: bv32, funct3: bv32, rd: bv32, maj: bv32)
    requires FitsSigned(imm, SIGNED12) && IsReg(rs1) && IsReg(rd) && IsFunct3(funct3) && (maj == OP_IMM || maj == OP_IMM_32)
    ensures Decode(EncI(imm, rs1, funct3, rd, D.Full(maj)))
      == Alu(AluKindOf(funct3, imm & 0x400 != 0, false), maj == OP_IMM_32, rd, rs1, FromImm(imm))
  {
    var w := EncI(imm, rs1, funct3, rd, D.Full(maj));
    DecodesI(imm, rs1, funct3, rd, D.Full(maj));
    OpcodeGivesMajor(w, maj);
    AlternateBit(imm, rs1, funct3, rd, D.Full(maj));
  }

  lemma AlternateBit(imm: bv32, rs1: bv32, funct3: bv32, rd: bv32, opcode: bv32)
    requires IsReg(rs1) && IsReg(rd) && IsFunct3(funct3) && IsOpcode(opcode)
    ensures EncI(imm, rs1, funct3, rd, opcode) & 0x4000_0000 != 0 <==> imm & 0x400 != 0
  {}

  lemma DecodeOp(funct7: bv32, rs2: bv32, rs1: bv32, funct3: bv32, rd: bv32, maj: bv32)
    requires (funct7 == 0 || funct7 == 0x20) && IsReg(rs1) && IsReg(rs2) && IsReg(rd) && IsFunct3(funct3) && (maj == OP || maj == OP_32)
    ensures Decode(EncR(funct7, rs2, rs1, funct3, rd, D.Full(maj)))
      == Alu(AluKindOf(funct3, funct7 == 0x20, true), maj == OP_32, rd, rs1, FromReg(rs2))
  {
    var w := EncR(funct7, rs2, rs1, funct3, rd, D.Full(maj));
    DecodesR(funct7, rs2, rs1, funct3, rd, D.Full(maj));
    OpcodeGivesMajor(w, maj);
    AlternateIsFunct7(w);
  }

  lemma AlternateIsFunct7(w: bv32)
    ensures w & 0x4000_0000 != 0 <==> Funct7(w) & 0x20 != 0
  {}

  lemma DecodeLoad(imm: bv32, rs1: bv32, funct3: bv32, rd: bv32, maj: bv32)
    requires FitsSigned(imm, SIGNED12) && IsReg(rs1) && IsReg(rd) && IsFunct3(funct3) && (maj == LOAD || maj == LOAD_FP)
    ensures Decode(EncI(imm, rs1, funct3, rd, D.Full(maj))) == MemLoad(maj == LOAD_FP, funct3, rd, rs1, imm)
  {
    DecodesI(imm, rs1, funct3, rd, D.Full(maj));
    OpcodeGivesMajor(EncI(imm, rs1, funct3, rd, D.Full(maj)), maj);
  }

  lemma DecodeStore(imm: bv32, rs2: bv32, rs1: bv32, funct3: bv32, maj: bv32)
    requires FitsSigned(imm, SIGNED12) && IsReg(rs1) && IsReg(rs2) && IsFunct3(funct3) && (maj == STORE || maj == STORE_FP)
    ensures Decode(EncS(imm, rs2, rs1, funct3, D.Full(maj))) == MemStore(maj == STORE_FP, funct3, rs2, rs1, imm)
  {
    DecodesS(imm, rs2, rs1, funct3, D.Full(maj));
    OpcodeGivesMajor(EncS(imm, rs2, rs1, funct3, D.Full(maj)), maj);
  }

  lemma DecodeJalr(rs1: bv32, rd: bv32)
    requires IsReg(rs1) && IsReg(rd)
    ensures Decode(EncI(0, rs1, 0, rd, D.Full(JALR))) == JumpReg(rd, rs1, 0)
  {
    DecodesI(0, rs1, 0, rd, D.Full(JALR));
    OpcodeGivesMajor(EncI(0, rs1, 0, rd, D.Full(JALR)), JALR);
  }

  lemma DecodeLui(imm: bv32, rd: bv32)
    requires FitsSigned(imm, SIGNED20) && IsReg(rd)
    ensures Decode(EncU(imm, rd, D.Full(LUI))) == Upper(rd, imm << 12, false)
  {
    DecodesU(imm, rd, D.Full(LUI));
    OpcodeGivesMajor(EncU(imm, rd, D.Full(LUI)), LUI);
  }

  lemma DecodeJal(imm: bv32, rd: bv32)
    requires FitsSigned(imm, SIGNED21) && imm & 1 == 0 && IsReg(rd)
    ensures Decode(EncJ(imm, rd, D.Full(JAL))) == JumpLink(rd, imm)
  {
    DecodesJ(imm, rd, D.Full(JAL));
    OpcodeGivesMajor(EncJ(imm, rd, D.Full(JAL)), JAL);
  }

  lemma DecodeBranch(imm: bv32, rs1: bv32, funct3: bv32)
    requires FitsSigned(imm, SIGNED13) && imm & 1 == 0 && IsReg(rs1) && IsFunct3(funct3)
    ensures Decode(EncB(imm, 0, rs1, funct3, D.Full(BRANCH))) == Branch(funct3, rs1, 0, imm)
  {
    DecodesB(imm, 0, rs1, funct3, D.Full(BRANCH));
    OpcodeGivesMajor(EncB(imm, 0, rs1, funct3, D.Full(BRANCH)), BRANCH);
  }

  lemma DecodeEbreak()
    ensures Decode((1 << 20) | D.Full(SYSTEM)) == Breakpoint
  {}
  /** The operation an encoder call stands for. */
  function OpOf(e: D.Encoding): Op {
    match e
    case RType(funct7, rs2, rs1, funct3, rd, maj) => Alu(AluKindOf(funct3, funct7 == 0x20, true), maj == OP_32, rd, rs1, FromReg(rs2))
    case IType(imm, rs1, funct3, rd, maj) =>
      if maj == OP_IMM || maj == OP_IMM_32 then Alu(AluKindOf(funct3, imm & 0x400 != 0, false), maj == OP_IMM_32, rd, rs1, FromImm(imm))
      else if maj == JALR then JumpReg(rd, rs1, imm)
      else MemLoad(maj == LOAD_FP, funct3, rd, rs1, imm)
    case SType(imm, rs2, rs1, funct3, maj) => MemStore(maj == STORE_FP, funct3, rs2, rs1, imm)
    case UType(imm, rd, maj) => Upper(rd, imm << 12, false)
    case BType(imm, rs2, rs1, funct3, maj) => Branch(funct3, rs1, rs2, imm)
    case JType(imm, rd, maj) => JumpLink(rd, imm)
    case Literal(w) => Breakpoint
  }

  /** The arguments the expander may pass to each encoder. */
  predicate InRange(e: D.Encoding) {
    match e
    case RType(funct7, rs2, rs1, funct3, rd, maj) =>
      (funct7 == 0 || funct7 == 0x20) && IsReg(rs1) && IsReg(rs2) && IsReg(rd) && IsFunct3(funct3) && (maj == OP || maj == OP_32)
    case IType(imm, rs1, funct3, rd, maj) =>
      && FitsSigned(imm, SIGNED12) && IsReg(rs1) && IsReg(rd) && IsFunct3(funct3)
      && (maj == OP_IMM || maj == OP_IMM_32 || maj == LOAD || maj == LOAD_FP || (maj == JALR && imm == 0 && funct3 == 0))
    case SType(imm, rs2, rs1, funct3, maj) =>
      FitsSigned(imm, SIGNED12) && IsReg(rs1) && IsReg(rs2) && IsFunct3(funct3) && (maj == STORE || maj == STORE_FP)
    case UType(imm, rd, maj) => FitsSigned(imm, SIGNED20) && IsReg(rd) && maj == LUI
    case BType(imm, rs2, rs1, funct3, maj) =>
      FitsSigned(imm, SIGNED13) && imm & 1 == 0 && rs2 == 0 && IsReg(rs1) && IsFunct3(funct3) && maj == BRANCH
    case JType(imm, rd, maj) => FitsSigned(imm, SIGNED21) && imm & 1 == 0 && IsReg(rd) && maj == JAL
    case Literal(w) => w == (1 << 20) | D.Full(SYSTEM)
  }

  /** Decoding what an encoder call produces gives the operation with the very arguments of the call. */
  lemma DecodeEncode(e: D.Encoding)
    requires InRange(e)
    ensures Decode(D.Encode(e)) == OpOf(e)
  {
    match e
    case RType(funct7, rs2, rs1, funct3, rd, maj) => DecodeOp(funct7, rs2, rs1, funct3, rd, maj);
    case IType(imm, rs1, funct3, rd, maj) =>
      if maj == OP_IMM || maj == OP_IMM_32 { DecodeOpImm(imm, rs1, funct3, rd, maj); }
      else if maj == JALR { DecodeJalr(rs1, rd); }
      else { DecodeLoad(imm, rs1, funct3, rd, maj); }
    case SType(imm, rs2, rs1, funct3, maj) => DecodeStore(imm, rs2, rs1, funct3, maj);
    case UType(imm, rd, maj) => DecodeLui(imm, rd);
    case BType(imm, rs2, rs1, funct3, maj) => DecodeBranch(imm, rs1, funct3);
    case JType(imm, rd, maj) => DecodeJal(imm, rd);
    case Literal(w) => DecodeEbreak();
  }

  // ---- The table, row by row ----

  lemma JumpFits(x: bv32)
    ensures FitsSigned(D.OffsetJ(x), SIGNED21) && D.OffsetJ(x) & 1 == 0
  {}

  lemma BranchFits(x: bv32)
    ensures FitsSigned(D.OffsetB(x), SIGNED13) && D.OffsetB(x) & 1 == 0
  {}

  /** The encoder call and the table agree. */
  predicate Agree(e: Option<D.Encoding>, i: Option<Op>) {
    if e.None? || i.None? then e.None? && i.None? else InRange(e.value) && OpOf(e.value) == i.value
  }

  /** The two readings of the fields, and the ranges the encoders need. */
  predicate SameFields(x: bv32, f: D.Fields, g: R.Fields) {
    && g == R.Fields(f.shortHigh, f.shortLow, f.longHigh, f.longLow, f.addi4spn, f.offsetD, f.offsetW, f.imm6, f.shamt, f.addi16sp,
                     f.imm6 << 12, f.jump, f.branch, f.ldsp, f.lwsp, f.sdsp, f.swsp)
    && IsReg(f.shortHigh) && IsReg(f.shortLow) && IsReg(f.longHigh) && IsReg(f.longLow)
    && (f.longHigh == 0 <==> x & 0xF80 == 0) && (f.longLow == 0 <==> x & 0x7C == 0) && (f.imm6 == 0 <==> x & 0x107C == 0)
    && FitsSigned(f.addi4spn, SIGNED12) && FitsSigned(f.offsetD, SIGNED12) && FitsSigned(f.offsetW, SIGNED12)
    && FitsSigned(f.imm6, SIGNED12) && FitsSigned(f.imm6, SIGNED20) && f.shamt & 0xffff_ffc0 == 0
    && FitsSigned(f.addi16sp, SIGNED12)
    && FitsSigned(f.jump, SIGNED21) && f.jump & 1 == 0 && FitsSigned(f.branch, SIGNED13) && f.branch & 1 == 0
    && FitsSigned(f.ldsp, SIGNED12) && FitsSigned(f.lwsp, SIGNED12) && FitsSigned(f.sdsp, SIGNED12) && FitsSigned(f.swsp, SIGNED12)
  }

  /** The pattern of quadrant and funct3. */
  lemma Pattern(x: bv32)
    ensures x & 0xE003 == (((x >> 13) & 7) << 13) | (x & 3)
  {}

  lemma AgreeLoads(x: bv32, f: D.Fields, g: R.Fields)
    requires x & 3 == 0 && (x >> 13) & 7 in {0, 1, 2, 3} && SameFields(x, f, g)
    ensures Agree(D.Quadrant0(x, f), R.Table0(x, g))
  {
    Pattern(x);
  }

  lemma AgreeStores(x: bv32, f: D.Fields, g: R.Fields)
    requires x & 3 == 0 && (x >> 13) & 7 in {4, 5, 6, 7} && SameFields(x, f, g)
    ensures Agree(D.Quadrant0(x, f), R.Table0(x, g))
  {
    Pattern(x);
  }

  lemma AgreeImmediates(x: bv32, f: D.Fields, g: R.Fields)
    requires x & 3 == 1 && (x >> 13) & 7 in {0, 1, 2} && SameFields(x, f, g)
    ensures Agree(D.Quadrant1(x, f), R.Table1(x, g))
  {
    Pattern(x);
  }

  lemma AgreeUpper(x: bv32, f: D.Fields, g: R.Fields)
    requires x & 3 == 1 && (x >> 13) & 7 == 3 && !RejectedHint(x) && SameFields(x, f, g)
    ensures Agree(D.Quadrant1(x, f), R.Table1(x, g))
  {
    Pattern(x);
  }

  lemma AgreeBranches(x: bv32, f: D.Fields, g: R.Fields)
    requires x & 3 == 1 && (x >> 13) & 7 in {5, 6, 7} && SameFields(x, f, g)
    ensures Agree(D.Quadrant1(x, f), R.Table1(x, g))
  {
    Pattern(x);
  }

  lemma AgreeShifts(x: bv32, f: D.Fields, g: R.Fields)
    requires x & 0xE003 == 0x8001 && (x >> 10) & 3 != 3 && SameFields(x, f, g)
    ensures Agree(D.Arithmetic(x, f), R.TableArithmetic(x, g))
  {}

  lemma AgreeRegisterForms(x: bv32, f: D.Fields, g: R.Fields)
    requires x & 0xE003 == 0x8001 && (x >> 10) & 3 == 3 && (x >> 12) & 1 == 0 && SameFields(x, f, g)
    ensures Agree(D.Arithmetic(x, f), R.TableArithmetic(x, g))
  {}

  lemma AgreeWordForms(x: bv32, f: D.Fields, g: R.Fields)
    requires x & 0xE003 == 0x8001 && (x >> 10) & 3 == 3 && (x >> 12) & 1 != 0 && SameFields(x, f, g)
    ensures Agree(D.Arithmetic(x, f), R.TableArithmetic(x, g))
  {}

  lemma AgreeShiftLeft(x: bv32, f: D.Fields, g: R.Fields)
    requires x & 3 == 2 && (x >> 13) & 7 in {0, 1} && !RejectedHint(x) && SameFields(x, f, g)
    ensures Agree(D.Quadrant2(x, f), R.Table2(x, g))
  {
    Pattern(x);
  }

  lemma AgreeStackLoads(x: bv32, f: D.Fields, g: R.Fields)
    requires x & 3 == 2 && (x >> 13) & 7 in {2, 3} && SameFields(x, f, g)
    ensures Agree(D.Quadrant2(x, f), R.Table2(x, g))
  {
    Pattern(x);
  }

  lemma AgreeJumpMoveAdd(x: bv32, f: D.Fields, g: R.Fields)
    requires x & 0xE003 == 0x8002 && SameFields(x, f, g)
    ensures Agree(D.JumpMoveAdd(x, f), R.TableJump(x, g))
  {}

  lemma AgreeStackStores(x: bv32, f: D.Fields, g: R.Fields)
    requires x & 3 == 2 && (x >> 13) & 7 in {5, 6} && SameFields(x, f, g)
    ensures Agree(D.Quadrant2(x, f), R.Table2(x, g))
  {
    Pattern(x);
  }

  lemma AgreeStackStoreD(x: bv32, f: D.Fields, g: R.Fields)
    requires x & 3 == 2 && (x >> 13) & 7 == 7 && SameFields(x, f, g)
    ensures Agree(D.Quadrant2(x, f), R.Table2(x, g))
  {
    Pattern(x);
  }

  lemma FieldsAgree(x: bv32)
    ensures SameFields(x, D.FieldsOf(x), R.FieldsOf(x))
  {
    SameShort(x);
    SameLong(x);
    SameAddi4spn(x);
    SameD(x);
    SameW(x);
    SameSigned6(x);
    SameShamt(x);
    SameAddi16sp(x);
    SameLui(x);
    SameJump(x);
    JumpFits(x);
    SameBranch(x);
    BranchFits(x);
    SameLdsp(x);
    SameLwsp(x);
    SameSdsp(x);
    SameSwsp(x);
    ZeroFields(x);
  }

  lemma ZeroFields(x: bv32)
    ensures (x >> 7) & 0x1f == 0 <==> x & 0xF80 == 0
    ensures (x >> 2) & 0x1f == 0 <==> x & 0x7C == 0
    ensures D.Imm6(x) == 0 <==> x & 0x107C == 0
  {}

  lemma SelectAgrees(x: bv32, f: D.Fields, g: R.Fields)
    requires !RejectedHint(x) && SameFields(x, f, g)
    ensures Agree(D.Select(x, f), R.TableOf(x, g))
  {
    Pattern(x);
    var quadrant, funct3 := x & 3, (x >> 13) & 7;
    if quadrant == 0 {
      if funct3 in {0, 1, 2, 3} { AgreeLoads(x, f, g); } else { AgreeStores(x, f, g); }
    } else if quadrant == 1 {
      if funct3 == 4 {
        if (x >> 10) & 3 != 3 { AgreeShifts(x, f, g); }
        else if (x >> 12) & 1 == 0 { AgreeRegisterForms(x, f, g); }
        else { AgreeWordForms(x, f, g); }
      }
      else if funct3 in {0, 1, 2} { AgreeImmediates(x, f, g); }
      else if funct3 == 3 { AgreeUpper(x, f, g); }
      else { AgreeBranches(x, f, g); }
    } else if quadrant == 2 {
      if funct3 == 4 { AgreeJumpMoveAdd(x, f, g); }
      else if funct3 in {0, 1} { AgreeShiftLeft(x, f, g); }
      else if funct3 in {2, 3} { AgreeStackLoads(x, f, g); }
      else if funct3 == 7 { AgreeStackStoreD(x, f, g); }
      else { AgreeStackStores(x, f, g); }
    }
  }

  // ---- Meaning ----

  /** What the executor decodes from the expander's output. */
  function Decoded(w: Option<bv32>): Option<Op> {
    match w
    case None => None
    case Some(v) => Some(Decode(v))
  }

  lemma AcceptedMeaning(h: bv16)
    requires !RejectedHint(h as bv32)
    ensures Decoded(D.Expand(h)) == R.Operation(h)
  {
    var x := h as bv32;
    FieldsAgree(x);
    SelectAgrees(x, D.FieldsOf(x), R.FieldsOf(x));
    var e := D.Select(x, D.FieldsOf(x));
    if e.Some? { DecodeEncode(e.value); }
  }

  lemma HintsRejected(x: bv32, f: D.Fields, g: R.Fields)
    requires RejectedHint(x) && SameFields(x, f, g)
    ensures D.Select(x, f).None?
    ensures R.TableOf(x, g).Some? && var op := R.TableOf(x, g).value; (op.Alu? || op.Upper?) && op.rd == 0
  {
    assert x & 0xE003 == 0x0002 || x & 0xE003 == 0x6001;
    assert x & 0xF80 == 0;
    Pattern(x);
  }

  /** For every halfword, what the executor sees is the operation and operands the manual gives, and nothing exactly
      where the manual reserves the encoding, except that two kinds of hints are rejected. */
  lemma ExpansionPreservesMeaningExactly(h: bv16)
    ensures Decoded(D.Expand(h)) == R.Operation(h) <==> !RejectedHint(h as bv32)
  {
    var x := h as bv32;
    if RejectedHint(x) {
      FieldsAgree(x);
      HintsRejected(x, D.FieldsOf(x), R.FieldsOf(x));
    } else {
      AcceptedMeaning(h);
    }
  }

  /** The state in which a two-byte instruction's operation is performed. */
  function Advanced(c: Core): Core { c.(epc := c.pc, pc := Wrap(c.pc + 2)) }

  /** So in every hart state the step is the manual's operation, with the next instruction two bytes on. */
  lemma CompressedStep(c: Core, h: bv16)
    requires h & 3 != 3 && !RejectedHint(h as bv32)
    ensures match R.Operation(h)
      case None => StepCompressed(c, h) == Raise(CAUSE_ILLEGAL, c.pc, h as bv32, c.(epc := c.pc))
      case Some(op) => D.Expand(h).Some? && StepCompressed(c, h) == Perform(Advanced(c), op, D.Expand(h).value)
  {
    AcceptedMeaning(h);
  }

  lemma HintIsNotExpanded(h: bv16, x: bv32, e: Option<D.Encoding>)
    requires x == h as bv32 && e == D.Select(x, D.FieldsOf(x)) && e.None?
    ensures D.Expand(h).None?
  {}

  lemma HintStandsFor(h: bv16, x: bv32, o: Option<Op>)
    requires x == h as bv32 && o == R.TableOf(x, R.FieldsOf(x))
    ensures R.Operation(h) == o
  {}

  lemma HintsWriteNowhere(x: bv32) returns (op: Op)
    requires RejectedHint(x)
    ensures D.Select(x, D.FieldsOf(x)).None?
    ensures R.TableOf(x, R.FieldsOf(x)) == Some(op) && (op.Alu? || op.Upper?) && op.rd == 0
  {
    var f, g := D.FieldsOf(x), R.FieldsOf(x);
    FieldsAgree(x);
    HintsRejected(x, f, g);
    op := R.TableOf(x, g).value;
  }

  lemma NowhereIsNothing(c: Core, op: Op, w: bv32)
    requires (op.Alu? || op.Upper?) && op.rd == 0
    ensures Perform(c, op, w) == Done(c)
  {}

  /** The rejected hints would have advanced pc and done nothing else. */
  lemma RejectedHintsDoNothing(c: Core, h: bv16, w: bv32)
    requires h & 3 != 3 && RejectedHint(h as bv32)
    ensures R.Operation(h).Some? && Perform(Advanced(c), R.Operation(h).value, w) == Done(Advanced(c))
    ensures StepCompressed(c, h) == Raise(CAUSE_ILLEGAL, c.pc, h as bv32, c.(epc := c.pc))
  {
    var x := h as bv32;
    var op := HintsWriteNowhere(x);
    HintStandsFor(h, x, Some(op));
    HintIsNotExpanded(h, x, None);
    NowhereIsNothing(Advanced(c), op, w);
  }

  // ---- The operations that stand for something simpler ----

  lemma AddToZeroCopies(c: Core, rd: bv32, r: bv32, w: bv32)
    ensures Perform(c, Alu(Add, false, rd, 0, FromReg(r)), w) == Done(WithReg(c, rd, Reg(c, r)))
  {
    assert Reg(c, 0) == 0;
  }

  lemma AddToZeroLoads(c: Core, rd: bv32, imm: bv32, w: bv32)
    ensures Perform(c, Alu(Add, false, rd, 0, FromImm(imm)), w) == Done(WithReg(c, rd, Wrap(SignedImm(imm))))
  {
    assert Reg(c, 0) == 0;
  }

  /** C.JR and C.JALR jump to the register with bit 0 cleared and link the address two bytes after themselves. */
  lemma LinkIsNextHalfword(c: Core, rd: bv32, r: bv32, w: bv32)
    ensures Perform(Advanced(c), JumpReg(rd, r, 0), w)
      == Done(WithReg(Advanced(c), rd, Wrap(c.pc + 2)).(pc := WithoutBit0(Reg(c, r))))
  {
    assert SignedImm(0) == 0;
  }

  lemma LowSix(s: bv32)
    requires s & 0xffff_ffc0 == 0
    ensures (0x400 | s) & 0x3f == s && s & 0x3f == s
  {}

  /** The shift amount of C.SRAI survives the marker bit it is encoded with. */
  lemma ShiftAmountSurvives(c: Core, s: bv32)
    requires s & 0xffff_ffc0 == 0
    ensures ShiftAmount(c, FromImm(0x400 | s), false) == Unsigned(s) == ShiftAmount(c, FromImm(s), false)
  {
    LowSix(s);
  }

  // ---- Whole steps of three halfwords ----

  /** The step performs the operation the manual's table gives. */
  lemma StepPerforms(c: Core, h: bv16, op: Op) returns (w: bv32)
    requires h & 3 != 3 && !RejectedHint(h as bv32) && R.Operation(h) == Some(op)
    ensures StepCompressed(c, h) == Perform(Advanced(c), op, w)
  {
    CompressedStep(c, h);
    w := D.Expand(h).value;
  }

  lemma LowBits(h: bv16)
    ensures h & 3 != 3 <==> (h as bv32) & 3 != 3
  {}

  lemma RowStep(c: Core, h: bv16, x: bv32, op: Op) returns (w: bv32)
    requires x == h as bv32 && x & 3 != 3 && !RejectedHint(x) && R.TableOf(x, R.FieldsOf(x)) == Some(op)
    ensures h & 3 != 3 && StepCompressed(c, h) == Perform(Advanced(c), op, w)
  {
    LowBits(h);
    w := StepPerforms(c, h, op);
  }

  lemma JalrRow(x: bv32, g: R.Fields)
    requires x & 0xF07F == 0x9002 && x & 0xF80 != 0
    ensures R.TableOf(x, g) == Some(JumpReg(1, g.longHigh, 0)) && !RejectedHint(x) && x & 3 != 3
  {
    assert x & 3 == 2 && x & 0xE003 == 0x8002 && x & 0x107F == 0x1002;
    assert x & 0x1FFF != 0x1002 && x & 0x1003 != 0x0002;
  }

  lemma MvRow(x: bv32, g: R.Fields)
    requires x & 0xF003 == 0x8002 && x & 0x7C != 0
    ensures R.TableOf(x, g) == Some(Alu(Add, false, g.longHigh, 0, FromReg(g.longLow))) && !RejectedHint(x) && x & 3 != 3
  {
    assert x & 3 == 2 && x & 0xE003 == 0x8002 && x & 0x1003 == 0x0002;
    assert x & 0x107F != 0x0002;
  }

  lemma LiRow(x: bv32, g: R.Fields)
    requires x & 0xE003 == 0x4001
    ensures R.TableOf(x, g) == Some(Alu(Add, false, g.longHigh, 0, FromImm(g.imm6))) && !RejectedHint(x) && x & 3 != 3
  {
    assert x & 3 == 1;
  }

  /** C.JALR jumps to its register with bit 0 cleared and links x1 to the address two bytes after itself. */
  lemma JalrStep(c: Core, h: bv16, x: bv32)
    requires x == h as bv32 && x & 0xF07F == 0x9002 && x & 0xF80 != 0
    ensures h & 3 != 3
    ensures StepCompressed(c, h) == Done(WithReg(Advanced(c), 1, Wrap(c.pc + 2)).(pc := WithoutBit0(Reg(c, R.LongHigh(x)))))
  {
    JalrRow(x, R.FieldsOf(x));
    LowBits(h);
    var w := RowStep(c, h, x, JumpReg(1, R.LongHigh(x), 0));
    LinkIsNextHalfword(c, 1, R.LongHigh(x), w);
  }

  /** C.MV copies its second register into its first. */
  lemma MvStep(c: Core, h: bv16, x: bv32)
    requires x == h as bv32 && x & 0xF003 == 0x8002 && x & 0x7C != 0
    ensures h & 3 != 3
    ensures StepCompressed(c, h) == Done(WithReg(Advanced(c), R.LongHigh(x), Reg(c, R.LongLow(x))))
  {
    MvRow(x, R.FieldsOf(x));
    LowBits(h);
    var w := RowStep(c, h, x, Alu(Add, false, R.LongHigh(x), 0, FromReg(R.LongLow(x))));
    AddToZeroCopies(Advanced(c), R.LongHigh(x), R.LongLow(x), w);
  }

  /** C.LI loads its sign-extended immediate. */
  lemma LiStep(c: Core, h: bv16, x: bv32)
    requires x == h as bv32 && x & 0xE003 == 0x4001
    ensures h & 3 != 3
    ensures StepCompressed(c, h) == Done(WithReg(Advanced(c), R.LongHigh(x), Wrap(SignedImm(R.ImmSigned6(x)))))
  {
    LiRow(x, R.FieldsOf(x));
    LowBits(h);
    var w := RowStep(c, h, x, Alu(Add, false, R.LongHigh(x), 0, FromImm(R.ImmSigned6(x))));
    AddToZeroLoads(Advanced(c), R.LongHigh(x), R.ImmSigned6(x), w);
  }
}
