/** Fields and immediates of 32-bit instructions, and the six encoders (rv_insn.h, rv_decompress.h, rv_impl/base.c). */
module InsnFormat {
  // Major opcodes.
  const LOAD: bv32 := 0x00
  const LOAD_FP: bv32 := 0x01
  const OP_IMM: bv32 := 0x04
  const AUIPC: bv32 := 0x05
  const OP_IMM_32: bv32 := 0x06
  const STORE: bv32 := 0x08
  const STORE_FP: bv32 := 0x09
  const OP: bv32 := 0x0C
  const LUI: bv32 := 0x0D
  const OP_32: bv32 := 0x0E
  const BRANCH: bv32 := 0x18
  const JALR: bv32 := 0x19
  const JAL: bv32 := 0x1B
  const SYSTEM: bv32 := 0x1C

  function OpMaj(w: bv32): bv32 { (w >> 2) & 0x1f }

  function Opcode(w: bv32): bv32 { w & 0x7f }

  function Rs1(w: bv32): bv32 { (w >> 15) & 0x1f }

  function Rs2(w: bv32): bv32 { (w >> 20) & 0x1f }

  function Rd(w: bv32): bv32 { (w >> 7) & 0x1f }

  function Funct3(w: bv32): bv32 { (w >> 12) & 0x7 }

  function Funct7(w: bv32): bv32 { (w >> 25) & 0x7f }

  // ---- Immediates, as the executor extracts them ----

  /** Completes a right shift of the signed number `w`: its sign fills the vacated bits `ones`. */
  function Fill(w: bv32, shifted: bv32, ones: bv32): bv32 {
    if w & 0x8000_0000 != 0 then shifted | ones else shifted
  }

  function ImmI(w: bv32): bv32 { Fill(w, w >> 20, 0xffff_f000) }

  function ImmS(w: bv32): bv32 { Fill(w, (w & 0xfe00_0000) >> 20, 0xffff_f000) | ((w & 0xf80) >> 7) }

  function ImmU(w: bv32): bv32 { w & 0xffff_f000 }

  function ImmB(w: bv32): bv32 {
    ((w & 0x0000_0f00) >> 8 << 1) | ((w & 0x7e00_0000) >> 25 << 5) | ((w & 0x0000_0080) >> 7 << 11) |
    (Fill(w, w >> 31, 0xffff_fffe) << 12)
  }

  function ImmJ(w: bv32): bv32 {
    (((w >> 12) & 0xff) << 12) | (((w >> 20) & 0x1) << 11) | (((w >> 21) & 0x3ff) << 1) | (Fill(w, w >> 31, 0xffff_fffe) << 20)
  }

  // ---- Encoders; every shifted-out immediate bit is masked, so logical shifts do ----

  function EncR(funct7: bv32, rs2: bv32, rs1: bv32, funct3: bv32, rd: bv32, opcode: bv32): bv32 {
    (funct7 << 25) | (rs2 << 20) | (rs1 << 15) | (funct3 << 12) | (rd << 7) | opcode
  }

  function EncI(imm: bv32, rs1: bv32, funct3: bv32, rd: bv32, opcode: bv32): bv32 {
    ((imm & 0xfff) << 20) | (rs1 << 15) | (funct3 << 12) | (rd << 7) | opcode
  }

  function EncS(imm: bv32, rs2: bv32, rs1: bv32, funct3: bv32, opcode: bv32): bv32 {
    (((imm >> 5) & 0x7f) << 25) | (rs2 << 20) | (rs1 << 15) | (funct3 << 12) | ((imm & 0x1f) << 7) | opcode
  }

  function EncU(imm: bv32, rd: bv32, opcode: bv32): bv32 {
    ((imm & 0xfffff) << 12) | (rd << 7) | opcode
  }

  function EncB(imm: bv32, rs2: bv32, rs1: bv32, funct3: bv32, opcode: bv32): bv32 {
    (((imm >> 12) & 1) << 31) | (((imm >> 5) & 0x3f) << 25) | (rs2 << 20) | (rs1 << 15) | (funct3 << 12) |
    (((imm >> 1) & 0xf) << 8) | (((imm >> 11) & 1) << 7) | opcode
  }

  function EncJ(imm: bv32, rd: bv32, opcode: bv32): bv32 {
    (((imm >> 20) & 1) << 31) | (((imm >> 1) & 0x3ff) << 21) | (((imm >> 11) & 1) << 20) | (((imm >> 12) & 0xff) << 12) |
    (rd << 7) | opcode
  }

  // ---- Encoders and extractors are inverse ----

  predicate IsReg(r: bv32) { r & 0x1f == r }

  predicate IsFunct3(f: bv32) { f & 0x7 == f }

  predicate IsOpcode(o: bv32) { o & 0x7f == o }

  /** The sign bit and everything above it, `ones`, agree. */
  predicate FitsSigned(imm: bv32, ones: bv32) { imm & ones == 0 || imm & ones == ones }

  const SIGNED12: bv32 := 0xffff_f800
  const SIGNED13: bv32 := 0xffff_f000
  const SIGNED20: bv32 := 0xfff8_0000
  const SIGNED21: bv32 := 0xfff0_0000

  lemma DecodesR(funct7: bv32, rs2: bv32, rs1: bv32, funct3: bv32, rd: bv32, opcode: bv32)
    requires IsReg(rs1) && IsReg(rs2) && IsReg(rd) && IsFunct3(funct3) && IsOpcode(funct7) && IsOpcode(opcode)
    ensures var w := EncR(funct7, rs2, rs1, funct3, rd, opcode);
      Funct7(w) == funct7 && Rs2(w) == rs2 && Rs1(w) == rs1 && Funct3(w) == funct3 && Rd(w) == rd && Opcode(w) == opcode
  {}

  lemma DecodesI(imm: bv32, rs1: bv32, funct3: bv32, rd: bv32, opcode: bv32)
    requires FitsSigned(imm, SIGNED12) && IsReg(rs1) && IsReg(rd) && IsFunct3(funct3) && IsOpcode(opcode)
    ensures var w := EncI(imm, rs1, funct3, rd, opcode);
      ImmI(w) == imm && Rs1(w) == rs1 && Funct3(w) == funct3 && Rd(w) == rd && Opcode(w) == opcode
  {}

  lemma FieldsS(imm: bv32, rs2: bv32, rs1: bv32, funct3: bv32, opcode: bv32)
    requires IsReg(rs1) && IsReg(rs2) && IsFunct3(funct3) && IsOpcode(opcode)
    ensures var w := EncS(imm, rs2, rs1, funct3, opcode);
      Funct7(w) == (imm >> 5) & 0x7f && Rd(w) == imm & 0x1f && Rs1(w) == rs1 && Rs2(w) == rs2 && Funct3(w) == funct3 && Opcode(w) == opcode
  {}

  lemma ValueS(imm: bv32, w: bv32)
    requires FitsSigned(imm, SIGNED12) && Funct7(w) == (imm >> 5) & 0x7f && Rd(w) == imm & 0x1f
    ensures ImmS(w) == imm
  {}

  lemma DecodesS(imm: bv32, rs2: bv32, rs1: bv32, funct3: bv32, opcode: bv32)
    requires FitsSigned(imm, SIGNED12) && IsReg(rs1) && IsReg(rs2) && IsFunct3(funct3) && IsOpcode(opcode)
    ensures var w := EncS(imm, rs2, rs1, funct3, opcode);
      ImmS(w) == imm && Rs1(w) == rs1 && Rs2(w) == rs2 && Funct3(w) == funct3 && Opcode(w) == opcode
  {
    FieldsS(imm, rs2, rs1, funct3, opcode);
    ValueS(imm, EncS(imm, rs2, rs1, funct3, opcode));
  }

  /** A U-type immediate is placed in the upper 20 bits. */
  lemma DecodesU(imm: bv32, rd: bv32, opcode: bv32)
    requires FitsSigned(imm, SIGNED20) && IsReg(rd) && IsOpcode(opcode)
    ensures var w := EncU(imm, rd, opcode); ImmU(w) == imm << 12 && Rd(w) == rd && Opcode(w) == opcode
  {}

  lemma DecodesB(imm: bv32, rs2: bv32, rs1: bv32, funct3: bv32, opcode: bv32)
    requires FitsSigned(imm, SIGNED13) && imm & 1 == 0 && IsReg(rs1) && IsReg(rs2) && IsFunct3(funct3) && IsOpcode(opcode)
    ensures var w := EncB(imm, rs2, rs1, funct3, opcode);
      ImmB(w) == imm && Rs1(w) == rs1 && Rs2(w) == rs2 && Funct3(w) == funct3 && Opcode(w) == opcode
  {}

  lemma DecodesJ(imm: bv32, rd: bv32, opcode: bv32)
    requires FitsSigned(imm, SIGNED21) && imm & 1 == 0 && IsReg(rd) && IsOpcode(opcode)
    ensures var w := EncJ(imm, rd, opcode); ImmJ(w) == imm && Rd(w) == rd && Opcode(w) == opcode
  {}

  // Every word is the encoding of its own fields, in each format, and its immediate is in the format's range.

  lemma ReencodesR(w: bv32)
    ensures EncR(Funct7(w), Rs2(w), Rs1(w), Funct3(w), Rd(w), Opcode(w)) == w
  {}

  lemma ReencodesI(w: bv32)
    ensures EncI(ImmI(w), Rs1(w), Funct3(w), Rd(w), Opcode(w)) == w && FitsSigned(ImmI(w), SIGNED12)
  {}

  lemma PartsS(w: bv32)
    ensures (ImmS(w) >> 5) & 0x7f == Funct7(w) && ImmS(w) & 0x1f == Rd(w)
  {}

  lemma JoinS(imm: bv32, w: bv32)
    requires (imm >> 5) & 0x7f == Funct7(w) && imm & 0x1f == Rd(w)
    ensures EncS(imm, Rs2(w), Rs1(w), Funct3(w), Opcode(w)) == w
  {}

  lemma ReencodesS(w: bv32)
    ensures EncS(ImmS(w), Rs2(w), Rs1(w), Funct3(w), Opcode(w)) == w && FitsSigned(ImmS(w), SIGNED12)
  {
    PartsS(w);
    JoinS(ImmS(w), w);
  }

  lemma ReencodesU(w: bv32)
    ensures EncU(ImmU(w) >> 12, Rd(w), Opcode(w)) == w
  {}

  lemma PartsB(w: bv32)
    ensures (ImmB(w) >> 12) & 1 == w >> 31 && (ImmB(w) >> 5) & 0x3f == (w >> 25) & 0x3f
    ensures (ImmB(w) >> 1) & 0xf == (w >> 8) & 0xf && (ImmB(w) >> 11) & 1 == (w >> 7) & 1
  {}

  lemma ReencodesB(w: bv32)
    ensures EncB(ImmB(w), Rs2(w), Rs1(w), Funct3(w), Opcode(w)) == w
    ensures FitsSigned(ImmB(w), SIGNED13) && ImmB(w) & 1 == 0
  {
    PartsB(w);
  }

  lemma PartsJ(w: bv32)
    ensures (ImmJ(w) >> 20) & 1 == w >> 31 && (ImmJ(w) >> 1) & 0x3ff == (w >> 21) & 0x3ff
    ensures (ImmJ(w) >> 11) & 1 == (w >> 20) & 1 && (ImmJ(w) >> 12) & 0xff == (w >> 12) & 0xff
  {}

  lemma ReencodesJ(w: bv32)
    ensures EncJ(ImmJ(w), Rd(w), Opcode(w)) == w
    ensures FitsSigned(ImmJ(w), SIGNED21) && ImmJ(w) & 1 == 0
  {
    PartsJ(w);
  }
}
