/** PMP configuration through CSR accesses: the packed view, normal form and locks (rv_csr.c). */
module PmpCsr {
  import opened Bits
  import opened Types
  import opened Hart
  import opened Privileged
  import opened CsrAccess
  import opened BaseSystem
  import opened HartProofs
  import Pmp

  // ---- Packed words ----

  lemma ByteValue(b: bv8)
    ensures 0 <= b as int < 256 && (b as int) as bv8 == b
  {}

  lemma Digit(v: nat, rest: nat)
    requires v < 256
    ensures (v + 256 * rest) % 256 == v && (v + 256 * rest) / 256 == rest
  {}

  lemma {:induction false} ByteOfPack(bytes: seq<bv8>, b: nat)
    requires b < |bytes|
    ensures ByteOf(Pack(bytes), b) == bytes[b]
    decreases |bytes|
  {
    ByteValue(bytes[0]);
    Digit(bytes[0] as int, Pack(bytes[1..]));
    if b > 0 { ByteOfPack(bytes[1..], b - 1); }
  }

  lemma {:induction false} PackFits(bytes: seq<bv8>)
    ensures Pack(bytes) < Power256(|bytes|)
    decreases |bytes|
  {
    if bytes != [] {
      ByteValue(bytes[0]);
      PackFits(bytes[1..]);
    }
  }

  lemma EightFit(bytes: seq<bv8>)
    requires |bytes| == 8
    ensures Pack(bytes) < U64
  {
    PackFits(bytes);
    Power256Eight();
  }

  lemma Reduced(v: nat)
    requires v < U64
    ensures v % U64 == v
  {}

  /** The packed word and the per-byte view of the union agree. */
  lemma PackedWordBytes(r: Pmp.Regs, k: nat, b: nat)
    requires k < 8 && b < 8
    ensures ByteOf(PackedWord(r, k), b) == r.cfg[8 * k + b]
  {
    var bytes := r.cfg[8 * k..8 * k + 8];
    EightFit(bytes);
    Reduced(Pack(bytes));
    ByteOfPack(bytes, b);
  }

  /** Reading a configuration word after writing it: locked bytes are the old ones, the others normalised. */
  lemma CfgWordReadBack(h: HartState, index: nat, w: Word, b: nat)
    requires h.privilege == 3 && PMPCFG0 <= index <= 0x3AF && index % 2 == 0 && b < 8
    ensures CsrWrite(h, index, w).Some?
    ensures var h' := CsrWrite(h, index, w).value; var k := (index - PMPCFG0) / 2;
      CsrRead(h', index).Some? && ByteOf(CsrRead(h', index).value, b) == NewCfg(h.csr.pmp.cfg[8 * k + b], ByteOf(w, b))
  {
    var k := (index - PMPCFG0) / 2;
    var h' := CsrWrite(h, index, w).value;
    PackedWordBytes(h'.csr.pmp, k, b);
    assert (8 * k + b) / 8 == k && (8 * k + b) % 8 == b;
  }

  // ---- Locks and normal form over runs ----

  /** Reserved bits are zero and the matching mode is OFF or NAPOT. */
  predicate NormalCfg(b: bv8) { b & 0x60 == 0 && (b & CFG_A == 0 || b & CFG_A == CFG_A) }

  predicate Locked(r: Pmp.Regs, i: nat)
    requires i < Pmp.ENTRIES
  {
    r.cfg[i] & Pmp.CFG_LOCK != 0
  }

  ghost predicate AllNormal(r: Pmp.Regs) { forall i :: 0 <= i < Pmp.ENTRIES ==> NormalCfg(r.cfg[i]) }

  lemma NormalizeIsNormal(b: bv8)
    ensures NormalCfg(Normalize(b))
  {}

  /** A step keeps locked entries and the normal form. */
  ghost predicate PmpKept(r: Pmp.Regs, r': Pmp.Regs) {
    && (AllNormal(r) ==> AllNormal(r'))
    && forall i | 0 <= i < Pmp.ENTRIES :: Locked(r, i) ==> Locked(r', i) && r'.cfg[i] == r.cfg[i] && r'.addr[i] == r.addr[i]
  }

  lemma CfgWriteKept(r: Pmp.Regs, k: nat, w: Word)
    requires k < 8
    ensures PmpKept(r, r.(cfg := WriteCfgWord(r.cfg, k, w)))
  {
    var cfg := WriteCfgWord(r.cfg, k, w);
    forall i | 0 <= i < Pmp.ENTRIES ensures NormalCfg(r.cfg[i]) ==> NormalCfg(cfg[i]) {
      NormalizeIsNormal(ByteOf(w, i % 8));
    }
  }

  lemma PmpWriteKept(h: HartState, index: nat, w: Word)
    requires PMPCFG0 <= index <= 0x3EF && CsrWrite(h, index, w).Some?
    ensures PmpKept(h.csr.pmp, CsrWrite(h, index, w).value.csr.pmp)
  {
    if index <= 0x3AF { CfgWriteKept(h.csr.pmp, (index - PMPCFG0) / 2, w); }
  }

  lemma CsrWriteKept(h: HartState, index: nat, w: Word)
    requires CsrWrite(h, index, w).Some?
    ensures PmpKept(h.csr.pmp, CsrWrite(h, index, w).value.csr.pmp)
  {
    if PMPCFG0 <= index <= 0x3EF {
      PmpWriteKept(h, index, w);
    } else {
      assert CsrWrite(h, index, w).value.csr.pmp == h.csr.pmp;
    }
  }

  lemma StepKept(h: Live, op: HartOp)
    requires Enabled(h, op)
    ensures PmpKept(h.csr.pmp, Step(h, op).csr.pmp)
  {
    if op.System? && op.i.CsrOp? {
      var w := CsrNewValue(h, op.i.funct3, op.i.csr, op.i.rs1, op.i.rd);
      if w.Some? && CsrWrite(h, op.i.csr, w.value).Some? { CsrWriteKept(h, op.i.csr, w.value); }
    }
  }

  /** Once an entry is locked its configuration and address never change, and every configuration byte stays normal. */
  lemma {:induction false} LocksPersist(h: Live, ops: seq<HartOp>)
    requires Runnable(h, ops)
    ensures PmpKept(h.csr.pmp, Run(h, ops).csr.pmp)
    decreases |ops|
  {
    if ops != [] {
      StepKept(h, ops[0]);
      LocksPersist(Step(h, ops[0]), ops[1..]);
    }
  }
}
