/** The compressed-instruction expander (rv_decompress.c). */
module Decompress {
  import opened Types
  import opened InsnFormat

  /** Full opcode of a major opcode. */
  function Full(maj: bv32): bv32 { (maj << 2) | 3 }

  /** A call of one of the six encoders, by major opcode, or a word written out. */
  datatype Encoding =
    | RType(funct7: bv32, rs2: bv32, rs1: bv32, funct3: bv32, rd: bv32, maj: bv32)
    | IType(imm: bv32, rs1: bv32, funct3: bv32, rd: bv32, maj: bv32)
    | SType(imm: bv32, rs2: bv32, rs1: bv32, funct3: bv32, maj: bv32)
    | UType(imm: bv32, rd: bv32, maj: bv32)
    | BType(imm: bv32, rs2: bv32, rs1: bv32, funct3: bv32, maj: bv32)
    | JType(imm: bv32, rd: bv32, maj: bv32)
    | Literal(w: bv32)

  function Encode(e: Encoding): bv32 {
    match e
    case RType(funct7, rs2, rs1, funct3, rd, maj) => EncR(funct7, rs2, rs1, funct3, rd, Full(maj))
    case IType(imm, rs1, funct3, rd, maj) => EncI(imm, rs1, funct3, rd, Full(maj))
    case SType(imm, rs2, rs1, funct3, maj) => EncS(imm, rs2, rs1, funct3, Full(maj))
    case UType(imm, rd, maj) => EncU(imm, rd, Full(maj))
    case BType(imm, rs2, rs1, funct3, maj) => EncB(imm, rs2, rs1, funct3, Full(maj))
    case JType(imm, rd, maj) => EncJ(imm, rd, Full(maj))
    case Literal(w) => w
  }

  /** A three-bit register field names x8 to x15. */
  function Creg(x: bv32): bv32 { 8 + (x & 7) }

  /** Sign extension by a left and an arithmetic right shift; `ones` are the bits above the number. */
  function Extend(x: bv32, sign: bv32, ones: bv32): bv32 { if x & sign != 0 then x | ones else x }

  function Imm6(x: bv32): bv32 { Extend(((x >> 7) & 0x20) | ((x >> 2) & 0x1f), 0x20, 0xffff_ffc0) }

  function Shamt(x: bv32): bv32 { ((x >> 7) & 0x20) | ((x >> 2) & 0x1f) }

  function OffsetW(x: bv32): bv32 { (((x >> 10) & 0x7) << 3) | (((x >> 6) & 0x1) << 2) | (((x >> 5) & 0x1) << 6) }

  function OffsetD(x: bv32): bv32 { (((x >> 10) & 0x7) << 3) | (((x >> 5) & 0x3) << 6) }

  function OffsetAddi4spn(x: bv32): bv32 {
    (((x >> 11) & 0x3) << 4) | (((x >> 7) & 0xf) << 6) | (((x >> 6) & 0x1) << 2) | (((x >> 5) & 0x1) << 3)
  }

  function JumpBits(x: bv32): bv32 {
    (((x >> 12) & 0x1) << 11) | (((x >> 11) & 0x1) << 4) | (((x >> 9) & 0x3) << 8) | (((x >> 8) & 0x1) << 10) |
    (((x >> 7) & 0x1) << 6) | (((x >> 6) & 0x1) << 7) | (((x >> 3) & 0x7) << 1) | (((x >> 2) & 0x1) << 5)
  }

  function OffsetJ(x: bv32): bv32 { Extend(JumpBits(x), 0x800, 0xffff_f000) }

  function OffsetB(x: bv32): bv32 {
    Extend((((x >> 12) & 0x1) << 8) | (((x >> 10) & 0x3) << 3) | (((x >> 5) & 0x3) << 6) | (((x >> 3) & 0x3) << 1) |
           (((x >> 2) & 0x1) << 5), 0x100, 0xffff_fe00)
  }

  function Imm16sp(x: bv32): bv32 {
    Extend((((x >> 12) & 0x1) << 9) | (((x >> 6) & 0x1) << 4) | (((x >> 5) & 0x1) << 6) | (((x >> 3) & 0x3) << 7) |
           (((x >> 2) & 0x1) << 5), 0x200, 0xffff_fc00)
  }

  function OffsetLdsp(x: bv32): bv32 { (((x >> 12) & 0x1) << 5) | (((x >> 5) & 0x3) << 3) | (((x >> 2) & 0x7) << 6) }

  function OffsetLwsp(x: bv32): bv32 { (((x >> 12) & 0x1) << 5) | (((x >> 4) & 0x7) << 2) | (((x >> 2) & 0x3) << 6) }

  function OffsetSdsp(x: bv32): bv32 { (((x >> 10) & 0x7) << 3) | (((x >> 7) & 0x7) << 6) }

  function OffsetSwsp(x: bv32): bv32 { (((x >> 9) & 0xf) << 2) | (((x >> 7) & 0x3) << 6) }

  /** Every register and immediate field a compressed instruction can have. */
  datatype Fields = Fields(
    shortHigh: bv32, shortLow: bv32, longHigh: bv32, longLow: bv32,
    addi4spn: bv32, offsetD: bv32, offsetW: bv32, imm6: bv32, shamt: bv32, addi16sp: bv32, jump: bv32, branch: bv32,
    ldsp: bv32, lwsp: bv32, sdsp: bv32, swsp: bv32)

  function FieldsOf(x: bv32): Fields {
    Fields(Creg(x >> 7), Creg(x >> 2), (x >> 7) & 0x1f, (x >> 2) & 0x1f,
           OffsetAddi4spn(x), OffsetD(x), OffsetW(x), Imm6(x), Shamt(x), Imm16sp(x), OffsetJ(x), OffsetB(x),
           OffsetLdsp(x), OffsetLwsp(x), OffsetSdsp(x), OffsetSwsp(x))
  }

  function Quadrant0(x: bv32, f: Fields): Option<Encoding> {
    var rs1, rd := f.shortHigh, f.shortLow;
    match (x >> 13) & 7
    case 0 => if f.addi4spn == 0 then None else Some(IType(f.addi4spn, 2, 0, rd, OP_IMM))
    case 1 => Some(IType(f.offsetD, rs1, 3, rd, LOAD_FP))
    case 2 => Some(IType(f.offsetW, rs1, 2, rd, LOAD))
    case 3 => Some(IType(f.offsetD, rs1, 3, rd, LOAD))
    case 5 => Some(SType(f.offsetD, rd, rs1, 3, STORE_FP))
    case 6 => Some(SType(f.offsetW, rd, rs1, 2, STORE))
    case 7 => Some(SType(f.offsetD, rd, rs1, 3, STORE))
    case _ => None
  }

  /** Quadrant 1, funct3 4. */
  function Arithmetic(x: bv32, f: Fields): Option<Encoding> {
    var rd, rs2 := f.shortHigh, f.shortLow;
    match (x >> 10) & 3
    case 0 => Some(IType(f.shamt, rd, 5, rd, OP_IMM))
    case 1 => Some(IType(0x400 | f.shamt, rd, 5, rd, OP_IMM))
    case 2 => Some(IType(f.imm6, rd, 7, rd, OP_IMM))
    case _ =>
      if (x >> 12) & 1 == 0 then
        match (x >> 5) & 3
        case 0 => Some(RType(0x20, rs2, rd, 0, rd, OP))
        case 1 => Some(RType(0x00, rs2, rd, 4, rd, OP))
        case 2 => Some(RType(0x00, rs2, rd, 6, rd, OP))
        case _ => Some(RType(0x00, rs2, rd, 7, rd, OP))
      else
        match (x >> 5) & 3
        case 0 => Some(RType(0x20, rs2, rd, 0, rd, OP_32))
        case 1 => Some(RType(0x00, rs2, rd, 0, rd, OP_32))
        case _ => None
  }

  function Quadrant1(x: bv32, f: Fields): Option<Encoding> {
    var rd := f.longHigh;
    match (x >> 13) & 7
    case 0 => Some(IType(f.imm6, rd, 0, rd, OP_IMM))
    case 1 => if rd == 0 then None else Some(IType(f.imm6, rd, 0, rd, OP_IMM_32))
    case 2 => Some(IType(f.imm6, 0, 0, rd, OP_IMM))
    case 3 =>
      if rd == 2 then if f.addi16sp == 0 then None else Some(IType(f.addi16sp, 2, 0, 2, OP_IMM))
      else if rd != 0 then if f.imm6 == 0 then None else Some(UType(f.imm6, rd, LUI))
      else None
    case 4 => Arithmetic(x, f)
    case 5 => Some(JType(f.jump, 0, JAL))
    case 6 => Some(BType(f.branch, 0, f.shortHigh, 0, BRANCH))
    case _ => Some(BType(f.branch, 0, f.shortHigh, 1, BRANCH))
  }

  /** Quadrant 2, funct3 4. */
  function JumpMoveAdd(x: bv32, f: Fields): Option<Encoding> {
    var rd, rs2 := f.longHigh, f.longLow;
    if (x >> 12) & 1 == 0 then
      if rs2 == 0 then if rd == 0 then None else Some(IType(0, rd, 0, 0, JALR))
      else Some(RType(0, rs2, 0, 0, rd, OP))
    else if rs2 == 0 && rd == 0 then Some(Literal((1 << 20) | Full(SYSTEM)))
    else if rs2 == 0 then Some(IType(0, rd, 0, 1, JALR))
    else Some(RType(0, rs2, rd, 0, rd, OP))
  }

  function Quadrant2(x: bv32, f: Fields): Option<Encoding> {
    var rd, rs2 := f.longHigh, f.longLow;
    match (x >> 13) & 7
    case 0 => if rd == 0 then None else Some(IType(f.shamt, rd, 1, rd, OP_IMM))
    case 1 => Some(IType(f.ldsp, 2, 3, rd, LOAD_FP))
    case 2 => if rd == 0 then None else Some(IType(f.lwsp, 2, 2, rd, LOAD))
    case 3 => if rd == 0 then None else Some(IType(f.ldsp, 2, 3, rd, LOAD))
    case 4 => JumpMoveAdd(x, f)
    case 5 => Some(SType(f.sdsp, rs2, 2, 3, STORE_FP))
    case 6 => Some(SType(f.swsp, rs2, 2, 2, STORE))
    case _ => Some(SType(f.sdsp, rs2, 2, 3, STORE))
  }

  /** The encoder call a halfword with these fields leads to. */
  function Select(x: bv32, f: Fields): Option<Encoding> {
    match x & 3
    case 0 => Quadrant0(x, f)
    case 1 => Quadrant1(x, f)
    case 2 => Quadrant2(x, f)
    case _ => None
  }

  /** `rv_decompress` */
  function Expand(h: bv16): Option<bv32> {
    match Select(h as bv32, FieldsOf(h as bv32))
    case None => None
    case Some(e) => Some(Encode(e))
  }
}
