/** What a CSR instruction leaves in its destination and in the register it names, and what a guest reads after a trap
    (chapter 6 of the RISC-V Unprivileged ISA, section 3.1 of the Privileged ISA), stated without the functions of the
    instruction. */
module CsrMeaning {
  import opened Types
  import opened Hart
  import opened Privileged
  import opened CsrAccess
  import opened BaseSystem
  import opened TrapMeaning
  import CsrViews
  import Pmp
  import PmpCsr

  // ---- The instruction ----

  /** The register operand, or the five bits of its field in the immediate forms. */
  function Operand(h: Live, funct3: nat, rs1: nat): Word
    requires rs1 < 32
  {
    if funct3 < 4 then h.xregs[rs1] else rs1
  }

  /** All forms read except CSRRW and CSRRWI to x0. */
  predicate Reads(funct3: nat, rd: nat) { rd != 0 || funct3 !in {1, 5} }

  /** All forms write except CSRRS and CSRRC from x0. */
  predicate Writes(funct3: nat, rs1: nat) { funct3 !in {2, 3} || rs1 != 0 }

  /** The value for the register: the operand, or the old bits with the operand's set or cleared. */
  predicate Wanted(funct3: nat, before: Word, operand: Word, w: Word) {
    && (funct3 in {1, 5} ==> w == operand)
    && (funct3 in {2, 6} ==> Ones(w) == Ones(before) + Ones(operand))
    && (funct3 in {3, 7} ==> Ones(w) == Ones(before) - Ones(operand))
  }

  lemma FormIs(funct3: nat)
    requires 1 <= funct3 < 8
    ensures funct3 % 4 == 0 <==> funct3 == 4
    ensures funct3 % 4 == 1 <==> funct3 in {1, 5}
    ensures funct3 % 4 == 2 <==> funct3 in {2, 6}
    ensures funct3 % 4 == 3 <==> funct3 in {3, 7}
  {}

  lemma CombinedBits(funct3: nat, before: Word, operand: Word, op: nat, w: Word)
    requires 1 <= funct3 < 8 && funct3 != 4 && op == funct3 % 4 && w == Combine(op, before, operand)
    ensures Wanted(funct3, before, operand, w)
  {
    FormIs(funct3);
    CsrViews.SetAndClear(before, operand);
  }

  /** The instruction is refused: it has no meaning, or a read or write that it needs is refused. */
  predicate Refused(h: Live, funct3: nat, csr: nat, rs1: nat, rd: nat, w: Word) {
    funct3 == 4 || (Reads(funct3, rd) && CsrRead(h, csr).None?) || (Writes(funct3, rs1) && CsrWrite(h, csr, w).None?)
  }

  lemma DoCsrCases(h: Live, funct3: nat, csr: nat, rs1: nat, rd: nat, word: Word, before: Word, w: Word)
    requires 1 <= funct3 < 8 && rs1 < 32 && rd < 32
    requires before == if Reads(funct3, rd) && CsrRead(h, csr).Some? then CsrRead(h, csr).value else 0
    requires w == Combine(funct3 % 4, before, Operand(h, funct3, rs1))
    ensures DoCsr(h, funct3, csr, rs1, rd, word) ==
      if Refused(h, funct3, csr, rs1, rd, w) then Illegal(h, word)
      else WriteReg(if Writes(funct3, rs1) then CsrWrite(h, csr, w).value else h, rd, before)
  {
    FormIs(funct3);
  }

  /** What an instruction that is not refused leaves. */
  predicate Performed(h: Live, h': HartState, funct3: nat, csr: nat, rs1: nat, rd: nat, w: Word)
    requires rs1 < 32 && rd < 32 && (rd != 0 ==> CsrRead(h, csr).Some?) && (Writes(funct3, rs1) ==> CsrWrite(h, csr, w).Some?)
  {
    && h' == (if Writes(funct3, rs1) then CsrWrite(h, csr, w).value else h).(xregs := h'.xregs)
    && h'.xregs == (if rd == 0 then h.xregs else h.xregs[rd := CsrRead(h, csr).value])
  }

  /** A CSR instruction is illegal exactly for funct3 4, for a needed read that is refused, or for a needed write that is
      refused. Otherwise its destination gets what the register read before, and the register is written, if at all, with
      the value its form asks for. */
  lemma CsrInstructionExactly(h: Live, funct3: nat, csr: nat, rs1: nat, rd: nat, word: Word) returns (w: Word)
    requires h.privilege <= 3 && 1 <= funct3 < 8 && csr < 4096 && rs1 < 32 && rd < 32
    ensures funct3 != 4 && (Reads(funct3, rd) ==> CsrRead(h, csr).Some?) ==>
      Wanted(funct3, if Reads(funct3, rd) then CsrRead(h, csr).value else 0, Operand(h, funct3, rs1), w)
    ensures var h' := Execute(h, CsrOp(funct3, csr, rs1, rd), word);
      if Refused(h, funct3, csr, rs1, rd, w) then Trapped(h, h', 2, word) else Performed(h, h', funct3, csr, rs1, rd, w)
  {
    var before := if Reads(funct3, rd) && CsrRead(h, csr).Some? then CsrRead(h, csr).value else 0;
    w := Combine(funct3 % 4, before, Operand(h, funct3, rs1));
    DoCsrCases(h, funct3, csr, rs1, rd, word, before, w);
    if funct3 != 4 { CombinedBits(funct3, before, Operand(h, funct3, rs1), funct3 % 4, w); }
    if Refused(h, funct3, csr, rs1, rd, w) { TrapsWith(h, 2, word); }
  }

  // ---- The registers that hold all 64 bits ----

  /** Such a register is refused, for reading and for writing, exactly below the level of its number: 3 for those from
      0x300 on and 1 for those from 0x100 on. */
  lemma PlainRefusedExactly(h: HartState, csr: nat, w: Word)
    requires CsrViews.Plain(csr)
    ensures CsrRead(h, csr).None? <==> h.privilege < (if csr >= 0x300 then 3 else 1)
    ensures CsrWrite(h, csr, w).None? <==> h.privilege < (if csr >= 0x300 then 3 else 1)
  {
    assert CsrPrivilege(csr) == if csr >= 0x300 then 3 else 1;
  }

  lemma ReadIgnoresRegisters(h: HartState, csr: nat, x: seq<Word>)
    ensures CsrRead(h.(xregs := x), csr) == CsrRead(h, csr)
  {}

  lemma PlainAfter(h: Live, h': HartState, funct3: nat, csr: nat, rs1: nat, rd: nat, w: Word)
    requires CsrViews.Plain(csr) && h.privilege >= (if csr >= 0x300 then 3 else 1) && rs1 < 32 && rd < 32
    requires CsrRead(h, csr).Some? && CsrWrite(h, csr, w).Some? && Performed(h, h', funct3, csr, rs1, rd, w)
    ensures CsrRead(h', csr) == if Writes(funct3, rs1) then Some(w) else CsrRead(h, csr)
  {
    PlainRefusedExactly(h, csr, w);
    if Writes(funct3, rs1) {
      CsrViews.PlainReadBack(h, csr, w);
      ReadIgnoresRegisters(CsrWrite(h, csr, w).value, csr, h'.xregs);
    } else {
      ReadIgnoresRegisters(h, csr, h'.xregs);
    }
  }

  /** Everything about the instruction on such a register: the destination gets the old value, and the register, read back,
      holds the operand, or the old bits with the operand's set or cleared, or for the forms that do not write the old value. */
  predicate PlainDone(h: Live, h': HartState, funct3: nat, csr: nat, rs1: nat, rd: nat)
    requires rs1 < 32 && rd < 32
  {
    CsrRead(h, csr).Some? && CsrRead(h', csr).Some? &&
    var before, after := CsrRead(h, csr).value, CsrRead(h', csr).value;
    && h'.xregs == (if rd == 0 then h.xregs else h.xregs[rd := before])
    && (if Writes(funct3, rs1) then Wanted(funct3, before, Operand(h, funct3, rs1), after) else h' == h.(xregs := h'.xregs))
  }

  lemma PlainDoneBy(h: Live, h': HartState, funct3: nat, csr: nat, rs1: nat, rd: nat, before: Word, w: Word)
    requires rs1 < 32 && rd < 32 && CsrRead(h, csr) == Some(before) && (Writes(funct3, rs1) ==> CsrWrite(h, csr, w).Some?)
    requires Performed(h, h', funct3, csr, rs1, rd, w) && CsrRead(h', csr) == Some(if Writes(funct3, rs1) then w else before)
    requires Wanted(funct3, if Reads(funct3, rd) then before else 0, Operand(h, funct3, rs1), w)
    ensures PlainDone(h, h', funct3, csr, rs1, rd)
  {}

  lemma PlainDoneAt(h: Live, h': HartState, funct3: nat, csr: nat, rs1: nat, rd: nat, w: Word)
    requires CsrViews.Plain(csr) && h.privilege >= (if csr >= 0x300 then 3 else 1) && rs1 < 32 && rd < 32 && funct3 != 4
    requires !Refused(h, funct3, csr, rs1, rd, w) ==> Performed(h, h', funct3, csr, rs1, rd, w)
    requires CsrRead(h, csr).Some? ==>
      Wanted(funct3, if Reads(funct3, rd) then CsrRead(h, csr).value else 0, Operand(h, funct3, rs1), w)
    ensures PlainDone(h, h', funct3, csr, rs1, rd)
  {
    PlainRefusedExactly(h, csr, w);
    PlainAfter(h, h', funct3, csr, rs1, rd, w);
    PlainDoneBy(h, h', funct3, csr, rs1, rd, CsrRead(h, csr).value, w);
  }

  lemma PlainInstructionExactly(h: Live, h': HartState, funct3: nat, csr: nat, rs1: nat, rd: nat, word: Word)
    requires CsrViews.Plain(csr) && h.privilege <= 3 && csr < 4096 && rs1 < 32 && rd < 32 && funct3 in {1, 2, 3, 5, 6, 7}
    requires h.privilege >= (if csr >= 0x300 then 3 else 1) && h' == Execute(h, CsrOp(funct3, csr, rs1, rd), word)
    ensures PlainDone(h, h', funct3, csr, rs1, rd)
  {
    var w := CsrInstructionExactly(h, funct3, csr, rs1, rd, word);
    PlainDoneAt(h, h', funct3, csr, rs1, rd, w);
  }

  // ---- The other registers ----

  /** satp is refused exactly below S-mode, and in S-mode under TVM (bit 20). */
  lemma SatpRefusedExactly(h: HartState, w: Word)
    ensures CsrRead(h, 0x180).None? <==> h.privilege == 0 || (h.privilege == 1 && 20 in h.csr.mstatus)
    ensures CsrWrite(h, 0x180, w).None? <==> h.privilege == 0 || (h.privilege == 1 && 20 in h.csr.mstatus)
  {
    assert CsrPrivilege(0x180) == 1;
  }

  /** The floating-point registers are refused exactly while both bits of FS (13 and 14) are clear. */
  lemma FloatRefusedExactly(h: HartState, csr: nat, w: Word)
    requires csr in {1, 2, 3}
    ensures CsrRead(h, csr).None? <==> 13 !in h.csr.mstatus && 14 !in h.csr.mstatus
    ensures CsrWrite(h, csr, w).None? <==> 13 !in h.csr.mstatus && 14 !in h.csr.mstatus
  {
    assert CsrPrivilege(csr) == 0;
  }

  /** Bits 63..60, 59..44 and 43..0 of satp are the mode, the address space and the root table's page number. */
  lemma SatpFieldsAre(satp: Word)
    ensures var s := SatpFields(satp);
      && satp == s.mode * 0x1000_0000_0000_0000 + s.asid * 0x1000_0000_0000 + s.ppn
      && s.mode < 16 && s.asid < 0x1_0000 && s.ppn < 0x1000_0000_0000
  {}

  /** Any register is refused below the level that bits 9 and 8 of its number give. */
  lemma LevelRefused(h: HartState, csr: nat, w: Word)
    requires h.privilege < csr / 256 % 4
    ensures CsrRead(h, csr) == None && CsrWrite(h, csr, w) == None
  {}

  // ---- Which bits can be written ----

  /** The bits of a status or line register after a write: those that can be written as in the word, the others as before. */
  predicate BitsWritten(before: BitSet, w: Word, writable: set<nat>, after: BitSet) {
    forall i :: 0 <= i < 64 ==> (i in after <==> if i in writable then i in Ones(w) else i in before)
  }

  /** mip writes lines 1, 5 and 9, and sip those of them that are delegated. */
  lemma LinesWritten(h: HartState, w: Word, h': HartState)
    ensures CsrWrite(h, 0x344, w) == Some(h') ==>
      BitsWritten(h.irqPending, w, {1, 5, 9}, h'.irqPending) && h' == h.(irqPending := h'.irqPending)
    ensures CsrWrite(h, 0x144, w) == Some(h') ==>
      BitsWritten(h.irqPending, w, h.csr.mideleg * {1, 5, 9}, h'.irqPending) && h' == h.(irqPending := h'.irqPending)
  {
    assert SipMask() == {1, 5, 9};
  }

  /** sstatus writes SIE, SPIE, UBE, SPP, VS, FS, XS, SUM and MXR. */
  lemma SupervisorStatusWritten(h: HartState, w: Word, h': HartState)
    requires CsrWrite(h, 0x100, w) == Some(h')
    ensures BitsWritten(h.csr.mstatus, w, {1, 5, 6, 8, 9, 10, 13, 14, 15, 16, 18, 19}, h'.csr.mstatus)
    ensures h' == h.(csr := h.csr.(mstatus := h'.csr.mstatus))
  {
    assert h'.csr.mstatus == (h.csr.mstatus - SstatusMask()) + (Ones(w) * SstatusMask());
  }

  /** mstatus takes bits 1, 3 and 5 to 22 of the word, with bit 2 also copied to 1 and bit 4 to 3, and clears the others; the
      data privilege follows. */
  lemma StatusWritten(h: HartState, w: Word, h': HartState)
    requires CsrWrite(h, 0x300, w) == Some(h')
    ensures forall i :: 0 <= i < 64 ==> (i in h'.csr.mstatus <==>
      (i in {1, 3} || 5 <= i <= 22) && (i in Ones(w) || (i == 1 && 2 in Ones(w)) || (i == 3 && 4 in Ones(w))))
    ensures DataPrivilege(h')
    ensures h' == h.(csr := h.csr.(mstatus := h'.csr.mstatus), memPrivilege := h'.memPrivilege)
  {
    assert h'.csr.mstatus == FixMpp(Ones(w)) * MstatusMask();
  }

  lemma FloatReads(h: HartState, f: Word)
    requires 13 in h.csr.mstatus || 14 in h.csr.mstatus
    ensures h.csr.fcsr == f ==>
      CsrRead(h, 0x003) == Some(f) && CsrRead(h, 0x001) == Some(f % 32) && CsrRead(h, 0x002) == Some(f / 32 % 8)
  {}

  lemma FloatWritten(h: HartState, w: Word, h': HartState)
    requires CsrWrite(h, 0x003, w) == Some(h')
    ensures h' == h.(csr := h.csr.(fcsr := w % 256)) && (13 in h.csr.mstatus || 14 in h.csr.mstatus)
  {}

  lemma LowFields(w: nat)
    ensures w % 256 % 32 == w % 32 && w % 256 / 32 % 8 == w / 32 % 8
  {
    assert w == 32 * (8 * (w / 256) + w % 256 / 32) + w % 256 % 32;
  }

  /** fcsr keeps the eight bits of its two fields: the flags in bits 4 to 0 and the rounding mode above them. */
  lemma FloatRegisterWritten(h: HartState, w: Word, h': HartState, f: Word)
    requires CsrWrite(h, 0x003, w) == Some(h') && f == w % 256
    ensures CsrRead(h', 0x003) == Some(f) && CsrRead(h', 0x001) == Some(w % 32) && CsrRead(h', 0x002) == Some(w / 32 % 8)
  {
    FloatWritten(h, w, h');
    FloatReads(h', f);
    LowFields(w);
  }

  /** The bit of misa that announces an extension. */
  function Letter(c: char): nat
    requires 'A' <= c <= 'Z'
  {
    Power2(c as int - 'A' as int)
  }

  /** The identity registers: XLEN 64 with I, M, A, F, D and C, and the four numbers of the hart. They ignore writes. */
  lemma IdentityRead(h: HartState, misa: Word)
    requires h.privilege == 3 && CsrRead(h, 0x301) == Some(misa)
    ensures misa == 2 * 0x4000_0000_0000_0000 + Letter('I') + Letter('M') + Letter('A') + Letter('F') + Letter('D') + Letter('C')
    ensures CsrRead(h, 0xF11) == Some(h.csr.mvendorid) && CsrRead(h, 0xF12) == Some(h.csr.marchid)
    ensures CsrRead(h, 0xF13) == Some(h.csr.mimpid) && CsrRead(h, 0xF14) == Some(h.csr.mhartid)
    ensures forall csr: nat, w: Word :: csr in {0x301, 0xF11, 0xF12, 0xF13, 0xF14} ==> CsrWrite(h, csr, w) == Some(h)
  {
    assert Power2(2) == 4;
    assert Power2(3) == 8 && Power2(5) == 4 * Power2(3);
    assert Power2(8) == 8 * Power2(5);
    assert Power2(12) == 16 * Power2(8);
  }

  // ---- What a guest reads after a trap ----

  lemma TrapRegistersRead(h: HartState)
    ensures h.privilege == 3 ==> CsrRead(h, 0x341) == Some(h.csr.mepc) && CsrRead(h, 0x342) == Some(h.csr.mcause)
    ensures h.privilege == 3 ==> CsrRead(h, 0x343) == Some(h.csr.mtval) && CsrRead(h, 0x305) == Some(h.csr.mtvec)
    ensures h.privilege == 1 ==> CsrRead(h, 0x141) == Some(h.csr.sepc) && CsrRead(h, 0x142) == Some(h.csr.scause)
    ensures h.privilege == 1 ==> CsrRead(h, 0x143) == Some(h.csr.stval) && CsrRead(h, 0x105) == Some(h.csr.stvec)
  {}

  /** After a trap to M-mode: the three values at 0x341 to 0x343, and pc at the handler that 0x305 names. */
  lemma MTrapSeen(h: HartState, t: Trap)
    requires h.privilege <= 3 && !ToS(h, t.cause)
    ensures var h' := DoTrap(h, t);
      && CsrRead(h', 0x341) == Some(t.epc) && CsrRead(h', 0x342) == Some(t.cause) && CsrRead(h', 0x343) == Some(t.tval)
      && CsrRead(h', 0x305).Some? && HandlerAt(h'.pc, CsrRead(h', 0x305).value, t.cause)
  {
    TrapEntersExactly(h, t);
    TrapRegistersRead(DoTrap(h, t));
  }

  /** After a trap to S-mode: at 0x141 to 0x143, and the handler that 0x105 names. */
  lemma STrapSeen(h: HartState, t: Trap)
    requires ToS(h, t.cause)
    ensures var h' := DoTrap(h, t);
      && CsrRead(h', 0x141) == Some(t.epc) && CsrRead(h', 0x142) == Some(t.cause) && CsrRead(h', 0x143) == Some(t.tval)
      && CsrRead(h', 0x105).Some? && HandlerAt(h'.pc, CsrRead(h', 0x105).value, t.cause)
  {
    TrapEntersExactly(h, t);
    TrapRegistersRead(DoTrap(h, t));
  }

  lemma MaskRegistersRead(h: HartState)
    requires h.privilege == 3
    ensures CsrRead(h, 0x302) == Some(Value(h.csr.medeleg)) && CsrRead(h, 0x303) == Some(Value(h.csr.mideleg))
    ensures CsrRead(h, 0x304) == Some(Value(h.csr.mie)) && CsrRead(h, 0x344) == Some(Value(h.irqPending))
  {}

  /** M-mode reads the delegation of exceptions at 0x302 and of interrupts at 0x303, the enabled lines at 0x304 and the
      pending ones at 0x344. */
  lemma DelegationSeen(h: HartState, exceptions: Word, interrupts: Word, enabled: Word, pending: Word)
    requires h.privilege == 3
    requires CsrRead(h, 0x302) == Some(exceptions) && CsrRead(h, 0x303) == Some(interrupts)
    requires CsrRead(h, 0x304) == Some(enabled) && CsrRead(h, 0x344) == Some(pending)
    ensures forall low, cause: Word :: low <= 1 ==>
      (ToS(h.(privilege := low), cause) <==> cause % 64 in Ones(if Interrupt(cause) then interrupts else exceptions))
    ensures forall code :: Waiting(h, code) <==> code in Ones(pending) && code in Ones(enabled)
  {
    MaskRegistersRead(h);
    OnesRoundTrip(h.csr.medeleg);
    OnesRoundTrip(h.csr.mideleg);
    OnesRoundTrip(h.csr.mie);
    OnesRoundTrip(h.irqPending);
  }

  // ---- Physical memory protection ----

  /** A configuration byte is kept while its lock (bit 7) is set. Otherwise it takes R, W, X and the lock as written, with
      bits 6 and 5 clear, and with the mode 3 for modes 2 and 3 and 0 for modes 0 and 1. */
  lemma ConfigurationExactly(before: bv8, written: bv8)
    ensures var after := NewCfg(before, written);
      if before & 0x80 != 0 then after == before
      else after & 0x87 == written & 0x87 && after & 0x60 == 0 && after & 0x18 == if written & 0x10 != 0 then 0x18 else 0
  {}

  lemma CutFirst(w: nat, m: nat)
    requires m > 0
    ensures w / 256 / m == w / (256 * m)
  {
    var q := w / (256 * m);
    var r := w - q * (256 * m);
    assert 0 <= r < 256 * m;
    assert w / 256 == q * m + r / 256;
    QuotientIs(w / 256, m, q, r / 256);
  }

  lemma {:induction false} ByteAt(w: nat, b: nat)
    ensures Power256(b) > 0 && ByteOf(w, b) == (w / Power256(b) % 256) as bv8
  {
    if b > 0 {
      ByteAt(w / 256, b - 1);
      CutFirst(w, Power256(b - 1));
    }
  }

  lemma ConfigurationIs(h: HartState, k: nat, index: nat, w: Word)
    requires h.privilege == 3 && k < 8 && index == 0x3A0 + 2 * k
    ensures CsrRead(h, index) == Some(PackedWord(h.csr.pmp, k)) && CsrWrite(h, index, w) == Some(WritePmpcfg(h, k, w))
  {
    assert CsrPrivilege(index) == 3 && (index - 0x3A0) / 2 == k;
  }

  lemma PackedByte(r: Pmp.Regs, k: nat, b: nat, v: Word)
    requires k < 8 && b < 8 && v == PackedWord(r, k)
    ensures Power256(b) > 0 && (v / Power256(b) % 256) as bv8 == r.cfg[8 * k + b]
  {
    PmpCsr.PackedWordBytes(r, k, b);
    ByteAt(v, b);
  }

  /** Byte `b` of register 0x3A0 + 2 * k is the configuration of entry 8 * k + b. */
  lemma ConfigurationSeen(h: HartState, k: nat, b: nat, index: nat, v: Word)
    requires h.privilege == 3 && k < 8 && b < 8 && index == 0x3A0 + 2 * k
    ensures CsrRead(h, index).Some?
    ensures CsrRead(h, index) == Some(v) ==> Power256(b) > 0 && (v / Power256(b) % 256) as bv8 == h.csr.pmp.cfg[8 * k + b]
  {
    ConfigurationIs(h, k, index, v);
    PackedByte(h.csr.pmp, k, b, PackedWord(h.csr.pmp, k));
  }

  lemma ByteWritten(cfg: seq<bv8>, k: nat, b: nat, w: Word, written: bv8)
    requires |cfg| == 64 && k < 8 && b < 8 && Power256(b) > 0 && written == (w / Power256(b) % 256) as bv8
    ensures WriteCfgWord(cfg, k, w)[8 * k + b] == NewCfg(cfg[8 * k + b], written)
    ensures forall i :: 0 <= i < 64 && !(8 * k <= i < 8 * k + 8) ==> WriteCfgWord(cfg, k, w)[i] == cfg[i]
  {
    ByteAt(w, b);
    assert (8 * k + b) / 8 == k && (8 * k + b) % 8 == b;
  }

  /** Writing that register gives each of its entries its byte, by the rule above, and leaves the other entries alone. */
  lemma ConfigurationWritten(h: HartState, k: nat, b: nat, index: nat, w: Word, h': HartState, written: bv8)
    requires h.privilege == 3 && k < 8 && b < 8 && index == 0x3A0 + 2 * k && CsrWrite(h, index, w) == Some(h')
    requires Power256(b) > 0 && written == (w / Power256(b) % 256) as bv8
    ensures var before, after := h.csr.pmp.cfg[8 * k + b], h'.csr.pmp.cfg[8 * k + b];
      if before & 0x80 != 0 then after == before
      else after & 0x87 == written & 0x87 && after & 0x60 == 0 && after & 0x18 == if written & 0x10 != 0 then 0x18 else 0
    ensures forall i :: 0 <= i < 64 && !(8 * k <= i < 8 * k + 8) ==> h'.csr.pmp.cfg[i] == h.csr.pmp.cfg[i]
    ensures h'.csr.pmp.addr == h.csr.pmp.addr
  {
    ConfigurationIs(h, k, index, w);
    ByteWritten(h.csr.pmp.cfg, k, b, w, written);
    ConfigurationExactly(h.csr.pmp.cfg[8 * k + b], written);
  }

  lemma PmpAddressIs(h: HartState, i: nat, index: nat, w: Word)
    requires h.privilege == 3 && i < 64 && index == 0x3B0 + i
    ensures CsrRead(h, index) == Some(ReadAddr(h.csr.pmp, i)) && CsrWrite(h, index, w) == Some(WritePmpaddr(h, i, w))
  {
    assert CsrPrivilege(index) == 3;
  }

  /** A write of a locked entry's address changes nothing. Any other reads back with the bits above the grain as written, and
      those of the grain as ones exactly under the NAPOT mode (3 in bits 4 and 3 of the configuration). */
  lemma PmpAddressReadBack(h: HartState, i: nat, index: nat, w: Word, h': HartState, after: Word)
    requires h.privilege == 3 && i < 64 && index == 0x3B0 + i
    requires CsrWrite(h, index, w) == Some(h') && CsrRead(h', index) == Some(after)
    ensures var cfg := h.csr.pmp.cfg[i];
      if cfg & 0x80 != 0 then h' == h
      else if cfg & 0x18 == 0x18 then after / 2048 == w / 2048 && after % 2048 == 2047
      else after / 4096 == w / 4096 && after % 4096 == 0
  {
    PmpAddressIs(h, i, index, w);
    PmpAddressIs(h', i, index, w);
  }
}
