/** What a guest sees of the CSRs: read-back, independence, and the shared views (rv_csr.c). */
module CsrViews {
  import opened Types
  import opened Hart
  import opened Privileged
  import opened CsrAccess
  import opened BaseSystem

  const SSTATUS := 0x100
  const SIP := 0x144
  const SATP := 0x180
  const MSTATUS := 0x300
  const MIDELEG := 0x303
  const MIP := 0x344
  const FFLAGS := 0x001
  const FRM := 0x002

  /** Registers that hold all 64 written bits. */
  predicate Plain(index: nat) {
    index in {0x302, 0x303, 0x304, 0x305, 0x340, 0x341, 0x342, 0x343, 0x34A} || index in {0x104, 0x105, 0x140, 0x141, 0x142, 0x143}
  }

  function Written(h: HartState, index: nat, w: Word): HartState
    requires CsrWrite(h, index, w).Some?
  {
    CsrWrite(h, index, w).value
  }

  /** A plain register reads back as written. */
  lemma PlainReadBack(h: HartState, index: nat, w: Word)
    requires Plain(index) && CsrPrivilege(index) <= h.privilege
    ensures CsrWrite(h, index, w).Some? && CsrRead(Written(h, index, w), index) == Some(w)
  {
    ValueRoundTrip(w);
  }

  lemma DelegationIsLocal(h: HartState, index: nat, other: nat, w: Word)
    requires index in {0x302, 0x303, 0x304} && CsrPrivilege(index) <= h.privilege && other != index
    ensures CsrRead(Written(h, index, w), other) == CsrRead(h, other) || (index == MIDELEG && other == SIP)
  {}

  lemma MachineVectorIsLocal(h: HartState, index: nat, other: nat, w: Word)
    requires index in {0x305, 0x340, 0x341} && CsrPrivilege(index) <= h.privilege && other != index
    ensures CsrRead(Written(h, index, w), other) == CsrRead(h, other) || (index == MIDELEG && other == SIP)
  {}

  lemma MachineCauseIsLocal(h: HartState, index: nat, other: nat, w: Word)
    requires index in {0x342, 0x343, 0x34A} && CsrPrivilege(index) <= h.privilege && other != index
    ensures CsrRead(Written(h, index, w), other) == CsrRead(h, other) || (index == MIDELEG && other == SIP)
  {}

  lemma SupervisorVectorIsLocal(h: HartState, index: nat, other: nat, w: Word)
    requires index in {0x104, 0x105, 0x140} && CsrPrivilege(index) <= h.privilege && other != index
    ensures CsrRead(Written(h, index, w), other) == CsrRead(h, other) || (index == MIDELEG && other == SIP)
  {}

  lemma SupervisorCauseIsLocal(h: HartState, index: nat, other: nat, w: Word)
    requires index in {0x141, 0x142, 0x143} && CsrPrivilege(index) <= h.privilege && other != index
    ensures CsrRead(Written(h, index, w), other) == CsrRead(h, other) || (index == MIDELEG && other == SIP)
  {}

  /** And no other register shows the write, except that sip is mip through the delegation mask. */
  lemma PlainWriteIsLocal(h: HartState, index: nat, other: nat, w: Word)
    requires Plain(index) && CsrPrivilege(index) <= h.privilege && other != index && CsrWrite(h, index, w).Some?
    ensures CsrRead(Written(h, index, w), other) == CsrRead(h, other) || (index == MIDELEG && other == SIP)
  {
    if index in {0x302, 0x303, 0x304} { DelegationIsLocal(h, index, other, w); }
    else if index in {0x305, 0x340, 0x341} { MachineVectorIsLocal(h, index, other, w); }
    else if index in {0x342, 0x343, 0x34A} { MachineCauseIsLocal(h, index, other, w); }
    else if index in {0x104, 0x105, 0x140} { SupervisorVectorIsLocal(h, index, other, w); }
    else { SupervisorCauseIsLocal(h, index, other, w); }
  }

  /** satp reads back as written exactly when the mode is supported; otherwise it keeps its value. */
  lemma SatpReadBack(h: HartState, w: Word)
    requires h.privilege == 3
    ensures var m := SatpFields(w).mode;
      CsrRead(Written(h, SATP, w), SATP) == Some(if m == 0 || m == 8 then w else h.csr.satp)
  {}

  lemma HardwiredOutside()
    ensures 33 !in SstatusMask() && 35 !in SstatusMask()
  {}

  lemma ViewOfMask(m: set<nat>, s: set<nat>)
    requires 33 !in s && 35 !in s
    ensures ((m * s) + {33}) - {33} == (m + {33, 35}) * s
  {}

  lemma MaskedBesideHardwired(m: BitSet, s: BitSet, w: BitSet)
    requires 33 !in s && 35 !in s
    ensures Masked(m, s, w) + {33, 35} == Masked(m + {33, 35}, s, w)
  {}

  function StatusShown(mstatus: BitSet): BitSet { mstatus + {33, 35} }

  lemma ReadMstatus(h: HartState)
    requires h.privilege == 3
    ensures CsrRead(h, MSTATUS).Some? && Ones(CsrRead(h, MSTATUS).value) == StatusShown(h.csr.mstatus)
  {
    OnesRoundTrip(h.csr.mstatus + {33, 35});
  }

  lemma ReadSstatus(h: HartState)
    requires h.privilege == 3
    ensures CsrRead(h, SSTATUS).Some? && Ones(CsrRead(h, SSTATUS).value) == (h.csr.mstatus * SstatusMask()) + {33}
  {
    OnesRoundTrip((h.csr.mstatus * SstatusMask()) + {33});
  }

  lemma ReadPending(h: HartState)
    requires h.privilege == 3
    ensures CsrRead(h, MIP).Some? && Ones(CsrRead(h, MIP).value) == h.irqPending
    ensures CsrRead(h, MIDELEG).Some? && Ones(CsrRead(h, MIDELEG).value) == h.csr.mideleg
  {
    OnesRoundTrip(h.irqPending);
    OnesRoundTrip(h.csr.mideleg);
  }

  /** sstatus shows exactly the S-level bits of mstatus, besides the hardwired U-mode width. */
  lemma SstatusIsView(h: HartState)
    requires h.privilege == 3 && CsrRead(h, SSTATUS).Some? && CsrRead(h, MSTATUS).Some?
    ensures Ones(CsrRead(h, SSTATUS).value) - {33} == Ones(CsrRead(h, MSTATUS).value) * SstatusMask()
  {
    ReadSstatus(h);
    ReadMstatus(h);
    HardwiredOutside();
    ViewOfMask(h.csr.mstatus, SstatusMask());
  }

  lemma SstatusWritten(h: HartState, w: Word)
    requires h.privilege == 3
    ensures CsrWrite(h, SSTATUS, w).Some?
    ensures Written(h, SSTATUS, w).csr.mstatus == Masked(h.csr.mstatus, SstatusMask(), Ones(w)) && Written(h, SSTATUS, w).privilege == 3
  {}

  /** A write of sstatus shows in mstatus in the S-level bits only. */
  lemma SstatusWriteSeen(h: HartState, h': HartState, w: Word)
    requires h.privilege == 3 && CsrWrite(h, SSTATUS, w) == Some(h')
    ensures CsrRead(h, MSTATUS).Some? && CsrRead(h', MSTATUS).Some?
    ensures Ones(CsrRead(h', MSTATUS).value) == Masked(Ones(CsrRead(h, MSTATUS).value), SstatusMask(), Ones(w))
  {
    SstatusWritten(h, w);
    ReadMstatus(h);
    ReadMstatus(h');
    HardwiredOutside();
    MaskedBesideHardwired(h.csr.mstatus, SstatusMask(), Ones(w));
  }

  lemma ReadSip(h: HartState)
    requires h.privilege == 3
    ensures CsrRead(h, SIP).Some? && Ones(CsrRead(h, SIP).value) == h.irqPending * h.csr.mideleg
  {
    OnesRoundTrip(h.irqPending * h.csr.mideleg);
  }

  /** sip is mip restricted to delegated interrupts. */
  lemma SipIsView(h: HartState)
    requires h.privilege == 3
    ensures CsrRead(h, SIP).Some? && CsrRead(h, MIP).Some? && CsrRead(h, MIDELEG).Some?
    ensures Ones(CsrRead(h, SIP).value) == Ones(CsrRead(h, MIP).value) * Ones(CsrRead(h, MIDELEG).value)
  {
    ReadPending(h);
    ReadSip(h);
  }

  /** Software changes exactly the software-writable lines through mip... */
  lemma MipWriteSeen(h: HartState, h': HartState, w: Word)
    requires h.privilege == 3 && CsrWrite(h, MIP, w) == Some(h')
    ensures CsrRead(h, MIP).Some? && CsrRead(h', MIP).Some?
    ensures Ones(CsrRead(h', MIP).value) == Masked(Ones(CsrRead(h, MIP).value), SipMask(), Ones(w))
  {
    ReadPending(h);
    ReadPending(h');
  }

  /** ...and through sip only the delegated ones among them. */
  lemma SipWriteSeen(h: HartState, h': HartState, w: Word)
    requires h.privilege == 3 && CsrWrite(h, SIP, w) == Some(h')
    ensures CsrRead(h, MIP).Some? && CsrRead(h', MIP).Some? && CsrRead(h, MIDELEG).Some?
    ensures Ones(CsrRead(h', MIP).value)
      == Masked(Ones(CsrRead(h, MIP).value), Ones(CsrRead(h, MIDELEG).value) * SipMask(), Ones(w))
  {
    ReadPending(h);
    ReadPending(h');
  }

  /** fflags and frm are disjoint fields of fcsr: each reads back, and neither write disturbs the other. */
  lemma FlagsField(h: HartState, w: Word)
    requires FloatEnabled(h.csr.mstatus)
    ensures CsrWrite(h, FFLAGS, w).Some?
    ensures CsrRead(Written(h, FFLAGS, w), FFLAGS) == Some(w % 32) && CsrRead(Written(h, FFLAGS, w), FRM) == CsrRead(h, FRM)
  {
    FieldsApart(h.csr.fcsr, w);
  }

  lemma RoundingField(h: HartState, w: Word)
    requires FloatEnabled(h.csr.mstatus)
    ensures CsrWrite(h, FRM, w).Some?
    ensures CsrRead(Written(h, FRM, w), FRM) == Some(w % 8) && CsrRead(Written(h, FRM, w), FFLAGS) == CsrRead(h, FFLAGS)
  {
    FieldsApart(h.csr.fcsr, w);
  }

  lemma FieldsApart(f: Word, w: Word)
    ensures WithFlags(f, w) % 32 == w % 32 && WithFlags(f, w) / 32 == f / 32
    ensures WithRounding(f, w) % 32 == f % 32 && WithRounding(f, w) / 32 % 8 == w % 8
  {
    var q := f / 32;
    assert f - f % 32 == 32 * q;
    assert f % 32 + w % 8 * 32 + f / 256 * 256 == 32 * (w % 8 + 8 * (f / 256)) + f % 32;
  }

  /** CSRRS sets the operand's bits and CSRRC clears them. */
  lemma SetAndClear(rdata: Word, operand: Word)
    ensures Ones(Combine(2, rdata, operand)) == Ones(rdata) + Ones(operand)
    ensures Ones(Combine(3, rdata, operand)) == Ones(rdata) - Ones(operand)
  {
    OnesRoundTrip(Ones(rdata) + Ones(operand));
    OnesRoundTrip(Ones(rdata) - Ones(operand));
  }
}
