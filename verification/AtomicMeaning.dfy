/** What LR, SC and AMO instructions trap on, return and leave (chapter 13 of the RISC-V Unprivileged ISA), stated without
    the functions of the instruction. */
module AtomicMeaning {
  import opened Types
  import opened Atomics

  // ---- Cells, registers and alignment ----

  /** An address is a multiple of four for the 32-bit forms (funct3 2) and of eight for the 64-bit forms. */
  predicate AlignedFor(i: Instr) { if i.funct3 == 2 then i.addr % 4 == 0 else i.addr % 8 == 0 }

  /** A 32-bit cell is one word, a 64-bit cell two, the low one first. */
  predicate CellFits(mem: seq<Word32>, c: nat, funct3: nat) { if funct3 == 2 then c < |mem| else c + 1 < |mem| }

  function CellValue(mem: seq<Word32>, c: nat, funct3: nat): Word
    requires CellFits(mem, c, funct3)
  {
    var low: nat := mem[c];
    var high: nat := if funct3 == 2 then 0 else mem[c + 1];
    low + 0x1_0000_0000 * high
  }

  /** The register holds the cell's value, sign-extended if the cell has 32 bits. */
  predicate HoldsCell(r: Word, mem: seq<Word32>, c: nat, funct3: nat)
    requires CellFits(mem, c, funct3)
  {
    if funct3 == 2 then r % 0x1_0000_0000 == mem[c] && (r < 0x8000_0000 || r >= 0xFFFF_FFFF_8000_0000)
    else r == CellValue(mem, c, funct3)
  }

  /** The part of a register that fits the cell. */
  function Cut(r: Word, funct3: nat): Word { if funct3 == 2 then r % 0x1_0000_0000 else r }

  /** Only the cell has changed, and it has the value. */
  predicate CellBecomes(mem: seq<Word32>, mem': seq<Word32>, c: nat, funct3: nat, v: Word)
    requires CellFits(mem, c, funct3)
  {
    && |mem'| == |mem| && CellValue(mem', c, funct3) == v
    && forall k :: 0 <= k < |mem| && k != c && (funct3 == 2 || k != c + 1) ==> mem'[k] == mem[k]
  }

  predicate Sized(s: System, i: Instr) {
    && i.hart < |s.res|
    && (i.load.Cell? ==> CellFits(s.mem, i.load.index, i.funct3)) && (i.store.Cell? ==> CellFits(s.mem, i.store.index, i.funct3))
  }

  lemma SizedFits(s: System, i: Instr)
    requires Sized(s, i) && i.funct3 in {2, 3}
    ensures Fits(i, |s.res|, |s.mem|)
  {}

  lemma Loaded(mem: seq<Word32>, c: nat, funct3: nat)
    requires CellFits(mem, c, funct3) && funct3 in {2, 3}
    ensures RawLoad(mem, c, funct3 == 2) == CellValue(mem, c, funct3)
    ensures funct3 == 2 ==> CellValue(mem, c, funct3) < 0x1_0000_0000
    ensures HoldsCell(Extended(CellValue(mem, c, funct3), funct3 == 2), mem, c, funct3)
  {}

  lemma Stored(mem: seq<Word32>, c: nat, funct3: nat, v: Word)
    requires CellFits(mem, c, funct3) && funct3 in {2, 3}
    ensures CellBecomes(mem, StoreCell(mem, c, funct3 == 2, v), c, funct3, Cut(v, funct3))
  {}

  // ---- Traps ----

  /** Only funct3 2 and 3 exist. With them an instruction is refused for its alignment exactly at an address that is no
      multiple of its width: with cause 4 for LR and 6 for the others, the address as value, and nothing changed. */
  lemma MisalignedExactly(s: System, i: Instr)
    requires Sized(s, i) && i.funct3 in {2, 3}
    ensures Fits(i, |s.res|, |s.mem|)
    ensures !AlignedFor(i) ==> Atomic(s, i) == (s, Trapped(if i.funct5 == 0x02 then 4 else 6, i.addr))
    ensures AlignedFor(i) ==> Atomic(s, i).1 != Trapped(4, i.addr) && Atomic(s, i).1 != Trapped(6, i.addr)
  {
    SizedFits(s, i);
  }

  lemma UnknownWidth(s: System, i: Instr)
    requires Fits(i, |s.res|, |s.mem|) && i.funct3 !in {2, 3}
    ensures Atomic(s, i) == (s, Trapped(2, i.word))
  {}

  /** LR is `lr` only with a zero rs2 field. */
  predicate LoadReserved(i: Instr) { i.funct5 == 0x02 && i.rs2Field == 0 }

  /** swap, add, xor, or, and, min, max, minu, maxu. */
  predicate Amo(i: Instr) { i.funct5 in {0x00, 0x01, 0x04, 0x08, 0x0C, 0x10, 0x14, 0x18, 0x1C} }

  /** So the laws of whole runs, which speak of instructions that are not trapped early, speak of these. */
  lemma EarlyTrapExactly(i: Instr)
    ensures EarlyTrap(i).None? <==> i.funct3 in {2, 3} && AlignedFor(i) && (i.funct5 != 0x02 || i.rs2Field == 0)
  {}

  /** An aligned instruction of no known kind is illegal, at the latest once its load has been granted. */
  lemma UnknownIsIllegal(s: System, i: Instr)
    requires Sized(s, i) && i.funct3 in {2, 3} && AlignedFor(i) && i.load.Cell?
    requires !LoadReserved(i) && !Amo(i) && i.funct5 != 0x03
    ensures Fits(i, |s.res|, |s.mem|) && Atomic(s, i) == (s, Trapped(2, i.word))
  {
    SizedFits(s, i);
  }

  /** Refused memory: page faults are cause 13 for LR and 15 for the others, access faults 5 and 7; nothing has changed. */
  predicate FaultsWith(out: Outcome, fault: MemResult, ofLr: bool, addr: Word) {
    out == Trapped(if fault == PageFault then (if ofLr then 13 else 15) else (if ofLr then 5 else 7), addr)
  }

  lemma RefusedMemory(s: System, i: Instr)
    requires Sized(s, i) && i.funct3 in {2, 3} && AlignedFor(i) && (LoadReserved(i) || Amo(i) || i.funct5 == 0x03)
    ensures Fits(i, |s.res|, |s.mem|)
    ensures i.funct5 != 0x03 && i.load.Refused? ==>
      Atomic(s, i).0 == s && FaultsWith(Atomic(s, i).1, i.load.fault, LoadReserved(i), i.addr)
    ensures i.funct5 == 0x03 && s.res[i.hart] == Some(i.addr) && i.store.Refused? ==>
      Atomic(s, i).0 == s && FaultsWith(Atomic(s, i).1, i.store.fault, false, i.addr)
    ensures Amo(i) && i.load.Cell? && i.store.Refused? ==>
      Atomic(s, i).0 == s && FaultsWith(Atomic(s, i).1, i.store.fault, false, i.addr)
  {
    SizedFits(s, i);
  }

  // ---- LR and SC ----

  /** LR returns the cell and reserves its address for the hart. */
  lemma LrExactly(s: System, i: Instr)
    requires Sized(s, i) && i.funct3 in {2, 3} && AlignedFor(i) && LoadReserved(i) && i.load.Cell?
    ensures Fits(i, |s.res|, |s.mem|)
    ensures var (s', out) := Atomic(s, i);
      out.Wrote? && HoldsCell(out.value, s.mem, i.load.index, i.funct3) && s' == s.(res := s.res[i.hart := Some(i.addr)])
  {
    SizedFits(s, i);
    Loaded(s.mem, i.load.index, i.funct3);
  }

  /** SC stores rs2 and returns 0 exactly if the hart's reservation is for its address, and then gives it up; otherwise it
      returns 1 and changes nothing. */
  lemma ScExactly(s: System, i: Instr)
    requires Sized(s, i) && i.funct3 in {2, 3} && AlignedFor(i) && i.funct5 == 0x03 && i.store.Cell?
    ensures Fits(i, |s.res|, |s.mem|)
    ensures var (s', out) := Atomic(s, i);
      if s.res[i.hart] == Some(i.addr) then
        out == Wrote(0) && CellBecomes(s.mem, s'.mem, i.store.index, i.funct3, Cut(i.rs2, i.funct3)) && s'.res == s.res[i.hart := None]
      else out == Wrote(1) && s' == s
  {
    SizedFits(s, i);
    Stored(s.mem, i.store.index, i.funct3, i.rs2);
  }

  // ---- AMOs ----

  function AsSigned(v: Word, funct3: nat): int {
    if funct3 == 2 then (if v < 0x8000_0000 then v else v - 0x1_0000_0000)
    else if v < 0x8000_0000_0000_0000 then v else v - 0x1_0000_0000_0000_0000
  }

  /** Bit `k` of a register. */
  predicate BitSetIn(w: Word, k: nat) { k in Ones(w) }

  predicate EachBit(funct5: nat, a: bool, b: bool, r: bool) {
    && (funct5 == 0x04 ==> r == (a != b)) && (funct5 == 0x08 ==> r == (a || b)) && (funct5 == 0x0C ==> r == (a && b))
  }

  /** `v` is the operation on the cell's old value and the operand, both of the cell's width. */
  ghost predicate AmoOf(funct5: nat, funct3: nat, before: Word, operand: Word, v: Word) {
    && (funct5 == 0x01 ==> v == operand)
    && (funct5 == 0x00 ==> v == (before + operand) % (if funct3 == 2 then 0x1_0000_0000 else 0x1_0000_0000_0000_0000))
    && (funct5 in {0x04, 0x08, 0x0C} ==>
          forall k :: 0 <= k < (if funct3 == 2 then 32 else 64) ==>
            EachBit(funct5, BitSetIn(before, k), BitSetIn(operand, k), BitSetIn(v, k)))
    && (funct5 in {0x10, 0x14, 0x18, 0x1C} ==> v in {before, operand})
    && (funct5 == 0x10 ==> AsSigned(v, funct3) <= AsSigned(before, funct3) && AsSigned(v, funct3) <= AsSigned(operand, funct3))
    && (funct5 == 0x14 ==> AsSigned(v, funct3) >= AsSigned(before, funct3) && AsSigned(v, funct3) >= AsSigned(operand, funct3))
    && (funct5 == 0x18 ==> v <= before && v <= operand)
    && (funct5 == 0x1C ==> v >= before && v >= operand)
  }

  lemma HalfOfRest(w: nat, m: nat)
    requires m > 0
    ensures w % (2 * m) / 2 == w / 2 % m && w % (2 * m) % 2 == w % 2
  {
    var q := w / (2 * m);
    var r := w % (2 * m);
    assert w == 2 * (q * m) + r;
    assert w / 2 == q * m + r / 2;
    RestIs(w / 2, m, q, r / 2);
  }

  lemma RestIs(x: nat, m: nat, q: nat, r: nat)
    requires m > 0 && x == q * m + r && r < m
    ensures x % m == r
  {
    QuotientIs(x, m, q, r);
  }

  lemma {:induction false} OnesOfRest(w: nat, i: nat, n: nat, k: nat)
    requires i <= k < i + n
    ensures Power2(n) > 0 && (k in OnesFrom(w % Power2(n), i) <==> k in OnesFrom(w, i))
    decreases n
  {
    Power2Positive(n);
    Power2Positive(n - 1);
    HalfOfRest(w, Power2(n - 1));
    if k > i { OnesOfRest(w / 2, i + 1, n - 1, k); }
  }

  lemma LowBitsOfWord(w: Word, k: nat)
    requires k < 32
    ensures k in Ones(w % 0x1_0000_0000) <==> k in Ones(w)
  {
    OnesOfRest(w, 0, 32, k);
    assert Power2(32) == 0x1_0000_0000 by {
      assert Power2(8) == 256;
      Power2Sum(8, 8);
      Power2Sum(16, 16);
    }
  }

  lemma BitsOfAmo(funct5: nat, narrow: bool, before: Word, operand: Word, k: nat)
    requires funct5 in {0x04, 0x08, 0x0C}
    ensures AmoValue(funct5, narrow, before, operand).Some?
    ensures EachBit(funct5, BitSetIn(before, k), BitSetIn(operand, k), BitSetIn(AmoValue(funct5, narrow, before, operand).value, k))
  {
    OnesRoundTrip((Ones(before) - Ones(operand)) + (Ones(operand) - Ones(before)));
    OnesRoundTrip(Ones(before) + Ones(operand));
    OnesRoundTrip(Ones(before) * Ones(operand));
  }

  lemma AmoIsArithmetic(funct5: nat, funct3: nat, before: Word, operand: Word)
    requires funct3 in {2, 3} && funct5 in {0x00, 0x01}
    requires funct3 == 2 ==> before < 0x1_0000_0000 && operand < 0x1_0000_0000
    ensures AmoValue(funct5, funct3 == 2, before, operand).Some?
    ensures AmoOf(funct5, funct3, before, operand, Cut(AmoValue(funct5, funct3 == 2, before, operand).value, funct3))
  {}

  lemma AmoIsExtremum(funct5: nat, funct3: nat, before: Word, operand: Word)
    requires funct3 in {2, 3} && funct5 in {0x10, 0x14, 0x18, 0x1C}
    requires funct3 == 2 ==> before < 0x1_0000_0000 && operand < 0x1_0000_0000
    ensures AmoValue(funct5, funct3 == 2, before, operand).Some?
    ensures AmoOf(funct5, funct3, before, operand, Cut(AmoValue(funct5, funct3 == 2, before, operand).value, funct3))
  {}

  lemma AmoIsBits(funct5: nat, funct3: nat, before: Word, operand: Word)
    requires funct3 in {2, 3} && funct5 in {0x04, 0x08, 0x0C}
    ensures AmoValue(funct5, funct3 == 2, before, operand).Some?
    ensures AmoOf(funct5, funct3, before, operand, Cut(AmoValue(funct5, funct3 == 2, before, operand).value, funct3))
  {
    BitsOfAmo(funct5, funct3 == 2, before, operand, 0);
    var v := AmoValue(funct5, funct3 == 2, before, operand).value;
    forall k | 0 <= k < (if funct3 == 2 then 32 else 64)
      ensures EachBit(funct5, BitSetIn(before, k), BitSetIn(operand, k), BitSetIn(Cut(v, funct3), k))
    {
      BitsOfAmo(funct5, funct3 == 2, before, operand, k);
      if funct3 == 2 { LowBitsOfWord(v, k); }
    }
  }

  lemma AmoIs(funct5: nat, funct3: nat, before: Word, operand: Word)
    requires funct3 in {2, 3} && funct5 in {0x00, 0x01, 0x04, 0x08, 0x0C, 0x10, 0x14, 0x18, 0x1C}
    requires funct3 == 2 ==> before < 0x1_0000_0000 && operand < 0x1_0000_0000
    ensures AmoValue(funct5, funct3 == 2, before, operand).Some?
    ensures AmoOf(funct5, funct3, before, operand, Cut(AmoValue(funct5, funct3 == 2, before, operand).value, funct3))
  {
    if funct5 in {0x00, 0x01} { AmoIsArithmetic(funct5, funct3, before, operand); }
    else if funct5 in {0x04, 0x08, 0x0C} { AmoIsBits(funct5, funct3, before, operand); }
    else { AmoIsExtremum(funct5, funct3, before, operand); }
  }

  /** An AMO returns the cell as it was, stores the operation's result in it, and takes the address's reservations from all
      harts. */
  lemma AmoExactly(s: System, i: Instr) returns (v: Word)
    requires Sized(s, i) && i.funct3 in {2, 3} && AlignedFor(i) && Amo(i) && i.load.Cell? && i.store.Cell?
    ensures Fits(i, |s.res|, |s.mem|)
    ensures var (s', out) := Atomic(s, i);
      && out.Wrote? && HoldsCell(out.value, s.mem, i.load.index, i.funct3)
      && AmoOf(i.funct5, i.funct3, CellValue(s.mem, i.load.index, i.funct3), Cut(i.rs2, i.funct3), v)
      && CellBecomes(s.mem, s'.mem, i.store.index, i.funct3, v)
      && |s'.res| == |s.res| && forall h :: 0 <= h < |s.res| ==> s'.res[h] == if s.res[h] == Some(i.addr) then None else s.res[h]
  {
    SizedFits(s, i);
    var before, operand := CellValue(s.mem, i.load.index, i.funct3), Cut(i.rs2, i.funct3);
    Loaded(s.mem, i.load.index, i.funct3);
    AmoIs(i.funct5, i.funct3, before, operand);
    var w := AmoValue(i.funct5, i.funct3 == 2, before, operand).value;
    Stored(s.mem, i.store.index, i.funct3, w);
    v := Cut(w, i.funct3);
  }
}
