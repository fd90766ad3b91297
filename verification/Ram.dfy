/** RAM as a byte buffer, and the page-table words in it (emu_machine.c). */
module Ram {
  import opened Bits
  import opened Types
  import opened Sv39

  type byte = b: int | 0 <= b < 256

  function LittleEndian(b: seq<byte>): nat {
    if b == [] then 0 else b[0] as int + 256 * LittleEndian(b[1..])
  }

  function Bytes(w: nat, n: nat): (b: seq<byte>)
    ensures |b| == n
    decreases n
  {
    if n == 0 then [] else [w % 256] + Bytes(w / 256, n - 1)
  }

  lemma {:induction false} BytesRoundTrip(w: nat, n: nat)
    requires w < Power256(n)
    ensures LittleEndian(Bytes(w, n)) == w
    decreases n
  {
    if n > 0 { BytesRoundTrip(w / 256, n - 1); }
  }

  /** The bit-fields of a page-table word. */
  function DecodePte(w: nat): Pte {
    Pte(FlagByte(w % 256), w / 0x100 % 4, w / 0x400 % 0x1000_0000_0000, w / 0x40_0000_0000_0000 % 1024)
  }

  predicate PteFits(p: Pte) { p.rsw < 4 && p.ppn < PPN_LIMIT && p.reserved < 1024 }

  function EncodePte(p: Pte): nat {
    FlagValue(p.flags) + 0x100 * p.rsw + 0x400 * p.ppn + 0x40_0000_0000_0000 * p.reserved
  }

  lemma DecodeFits(w: nat)
    ensures PteFits(DecodePte(w))
  {}

  lemma Fields(f: nat, rsw: nat, ppn: nat, reserved: nat)
    requires f < 256 && rsw < 4 && ppn < 0x1000_0000_0000 && reserved < 1024
    ensures var w := f + 0x100 * rsw + 0x400 * ppn + 0x40_0000_0000_0000 * reserved;
      w % 256 == f && w / 0x100 % 4 == rsw && w / 0x400 % 0x1000_0000_0000 == ppn &&
      w / 0x40_0000_0000_0000 % 1024 == reserved && w < 0x1_0000_0000_0000_0000
  {
    var w := f + 0x100 * rsw + 0x400 * ppn + 0x40_0000_0000_0000 * reserved;
    assert w / 0x100 == rsw + 4 * ppn + 0x4000_0000_0000 * reserved;
    assert w / 0x400 == ppn + 0x1000_0000_0000 * reserved;
  }

  lemma Unpacked(w: nat, f: nat, rsw: nat, ppn: nat, reserved: nat)
    requires w % 256 == f && w / 0x100 % 4 == rsw && w / 0x400 % 0x1000_0000_0000 == ppn
    requires w / 0x40_0000_0000_0000 % 1024 == reserved
    ensures DecodePte(w) == Pte(FlagByte(f), rsw, ppn, reserved)
  {}

  /** Packing and unpacking a page-table word gives it back. */
  lemma PteRoundTrip(p: Pte)
    requires PteFits(p)
    ensures DecodePte(EncodePte(p)) == p && EncodePte(p) < 0x1_0000_0000_0000_0000
  {
    RoundTripWith(p, FlagValue(p.flags), EncodePte(p));
  }

  lemma RoundTripWith(p: Pte, f: nat, w: nat)
    requires PteFits(p) && f == FlagValue(p.flags) && f < 256
    requires w == f + 0x100 * p.rsw + 0x400 * p.ppn + 0x40_0000_0000_0000 * p.reserved
    ensures DecodePte(w) == p && w < U64
  {
    FlagByteOfValue(p.flags);
    Fields(f, p.rsw, p.ppn, p.reserved);
    Unpacked(w, f, p.rsw, p.ppn, p.reserved);
  }

  lemma FieldsRebuild(w: nat)
    requires w < U64
    ensures w % 256 + 0x100 * (w / 0x100 % 4) + 0x400 * (w / 0x400 % 0x1000_0000_0000) +
      0x40_0000_0000_0000 * (w / 0x40_0000_0000_0000 % 1024) == w
  {
    assert w / 0x400 == w / 0x100 / 4 && w / 0x40_0000_0000_0000 == w / 0x400 / 0x1000_0000_0000;
    assert w / 0x40_0000_0000_0000 < 1024;
  }

  /** And the other way round: unpacking a word and packing its fields gives the word. */
  lemma PteUnpackRoundTrip(w: nat)
    requires w < U64
    ensures EncodePte(DecodePte(w)) == w
  {
    ValueOfFlagByte(w % 256);
    FieldsRebuild(w);
  }

  lemma EightBytes(w: nat)
    requires w < U64
    ensures LittleEndian(Bytes(w, 8)) == w
  {
    Power256Eight();
    BytesRoundTrip(w, 8);
  }

  // ---- The buffer ----

  predicate InRam(start: nat, ram: seq<byte>, addr: nat, size: nat) {
    start <= addr && addr + size <= start + |ram|
  }

  function LoadPte(start: nat, ram: seq<byte>, addr: nat): Pte
    requires InRam(start, ram, addr, 8)
  {
    DecodePte(LittleEndian(ram[addr - start..addr - start + 8]))
  }

  /** All page-table words: the aligned 8-byte cells of RAM. */
  function Words(start: nat, ram: seq<byte>): Mem {
    map a: nat | a < start + |ram| && a % 8 == 0 && InRam(start, ram, a, 8) :: LoadPte(start, ram, a)
  }

  /** The cell of an aligned address, and that its fields fit. */
  lemma WordAt(start: nat, ram: seq<byte>, addr: nat)
    requires addr % 8 == 0
    ensures addr in Words(start, ram) <==> InRam(start, ram, addr, 8)
    ensures InRam(start, ram, addr, 8) ==> Words(start, ram)[addr] == LoadPte(start, ram, addr) && PteFits(LoadPte(start, ram, addr))
  {
    if InRam(start, ram, addr, 8) { DecodeFits(LittleEndian(ram[addr - start..addr - start + 8])); }
  }

  /** The bounds test as the code writes it, in 64-bit arithmetic. */
  predicate GuardAsWritten(start: Word, end: Word, addr: Word, size: nat) { addr >= start && (addr + size) % U64 <= end }

  /** The access starts at or above RAM's start and its 64-bit end wraps round to RAM's end or below. */
  predicate Escapes(start: Word, end: Word, addr: Word, size: nat) { start <= addr && U64 <= addr + size <= U64 + end }

  /** The test as written is the intended one exactly for accesses that do not escape. */
  lemma GuardIsRightExactly(start: Word, ram: seq<byte>, addr: Word, size: nat)
    requires start + |ram| < U64 && size <= 8
    ensures var end := start + |ram|;
      (GuardAsWritten(start, end, addr, size) == InRam(start, ram, addr, size)) == !Escapes(start, end, addr, size)
  {
    if addr + size >= U64 { assert (addr + size) % U64 == addr + size - U64; }
  }

  function Splice(ram: seq<byte>, at: nat, data: seq<byte>): (r: seq<byte>)
    requires at + |data| <= |ram|
    ensures |r| == |ram|
  {
    ram[..at] + data + ram[at + |data|..]
  }

  lemma SplicedCell(ram: seq<byte>, at: nat, data: seq<byte>, i: nat)
    requires at + |data| <= |ram| && |data| == 8 && i + 8 <= |ram|
    requires i == at || i + 8 <= at || at + 8 <= i
    ensures Splice(ram, at, data)[i..i + 8] == if i == at then data else ram[i..i + 8]
  {}

  lemma AlignedApart(start: nat, a: nat, b: nat)
    requires a % 8 == 0 && b % 8 == 0 && a != b
    ensures a + 8 <= b || b + 8 <= a
  {}

  function StorePte(start: nat, ram: seq<byte>, addr: nat, p: Pte): (r: seq<byte>)
    requires InRam(start, ram, addr, 8)
    ensures |r| == |ram|
  {
    Splice(ram, addr - start, Bytes(EncodePte(p), 8))
  }

  lemma LoadElsewhere(start: nat, ram: seq<byte>, addr: nat, data: seq<byte>, a: nat)
    requires InRam(start, ram, addr, 8) && InRam(start, ram, a, 8) && addr % 8 == 0 && a % 8 == 0
    requires |data| == 8 && a != addr
    ensures LoadPte(start, Splice(ram, addr - start, data), a) == LoadPte(start, ram, a)
  {
    AlignedApart(start, a, addr);
    SplicedCell(ram, addr - start, data, a - start);
  }

  lemma LoadBack(start: nat, ram: seq<byte>, addr: nat, w: nat)
    requires InRam(start, ram, addr, 8) && w < 0x1_0000_0000_0000_0000
    ensures LoadPte(start, Splice(ram, addr - start, Bytes(w, 8)), addr) == DecodePte(w)
  {
    SplicedCell(ram, addr - start, Bytes(w, 8), addr - start);
    EightBytes(w);
  }

  lemma LoadAfterStore(start: nat, ram: seq<byte>, addr: nat, p: Pte, a: nat)
    requires InRam(start, ram, addr, 8) && InRam(start, ram, a, 8) && addr % 8 == 0 && a % 8 == 0 && PteFits(p)
    ensures LoadPte(start, StorePte(start, ram, addr, p), a) == if a == addr then p else LoadPte(start, ram, a)
  {
    PteRoundTrip(p);
    if a == addr {
      LoadBack(start, ram, addr, EncodePte(p));
    } else {
      LoadElsewhere(start, ram, addr, Bytes(EncodePte(p), 8), a);
    }
  }

  /** Writing one aligned word changes that word only. */
  lemma StoreIsUpdate(start: nat, ram: seq<byte>, addr: nat, p: Pte)
    requires InRam(start, ram, addr, 8) && addr % 8 == 0 && PteFits(p)
    ensures Words(start, StorePte(start, ram, addr, p)) == Words(start, ram)[addr := p]
  {
    var w, w' := Words(start, ram), Words(start, StorePte(start, ram, addr, p));
    assert w'.Keys == w.Keys && addr in w;
    forall a | a in w ensures w'[a] == w[addr := p][a] {
      LoadAfterStore(start, ram, addr, p, a);
    }
  }

  // ---- Bytes outside the page-table words ----

  /** Byte `i` belongs to an aligned word that lies in RAM. */
  predicate InCell(start: nat, size: nat, i: nat) {
    var a := start + i - (start + i) % 8;
    start <= a && a + 8 <= start + size
  }

  /** The bytes at the two ends of RAM that belong to no aligned word are the same. */
  predicate SameEdges(start: nat, r: seq<byte>, r': seq<byte>) {
    |r| == |r'| && forall i :: 0 <= i < |r| && !InCell(start, |r|, i) ==> r[i] == r'[i]
  }

  lemma CellOf(start: nat, ram: seq<byte>, addr: nat, i: nat)
    requires InRam(start, ram, addr, 8) && addr % 8 == 0 && addr <= start + i < addr + 8
    ensures InCell(start, |ram|, i)
  {
    assert (start + i) % 8 == start + i - addr;
  }

  lemma StoreKeepsEdges(start: nat, ram: seq<byte>, addr: nat, p: Pte)
    requires InRam(start, ram, addr, 8) && addr % 8 == 0
    ensures SameEdges(start, ram, StorePte(start, ram, addr, p))
  {
    forall i | 0 <= i < |ram| && !InCell(start, |ram|, i) ensures StorePte(start, ram, addr, p)[i] == ram[i] {
      if addr <= start + i < addr + 8 { CellOf(start, ram, addr, i); }
    }
  }

  lemma {:induction false} BytesDetermined(b: seq<byte>, b': seq<byte>)
    requires |b| == |b'| && LittleEndian(b) == LittleEndian(b')
    ensures b == b'
    decreases |b|
  {
    if b != [] {
      assert b[0] == LittleEndian(b) % 256 && b'[0] == LittleEndian(b') % 256;
      BytesDetermined(b[1..], b'[1..]);
      assert b == [b[0]] + b[1..] && b' == [b'[0]] + b'[1..];
    }
  }

  lemma {:induction false} LittleEndianFits(b: seq<byte>)
    ensures LittleEndian(b) < Power256(|b|)
    decreases |b|
  {
    if b != [] { LittleEndianFits(b[1..]); }
  }

  lemma CellDetermined(b: seq<byte>, b': seq<byte>)
    requires |b| == |b'| == 8 && DecodePte(LittleEndian(b)) == DecodePte(LittleEndian(b'))
    ensures b == b'
  {
    LittleEndianFits(b);
    LittleEndianFits(b');
    Power256Eight();
    PteUnpackRoundTrip(LittleEndian(b));
    PteUnpackRoundTrip(LittleEndian(b'));
    BytesDetermined(b, b');
  }

  lemma SameCell(start: nat, r: seq<byte>, r': seq<byte>, a: nat)
    requires |r| == |r'| && Words(start, r) == Words(start, r') && a % 8 == 0 && InRam(start, r, a, 8)
    ensures r[a - start..a - start + 8] == r'[a - start..a - start + 8]
  {
    WordAt(start, r, a);
    WordAt(start, r', a);
    CellDetermined(r[a - start..a - start + 8], r'[a - start..a - start + 8]);
  }

  lemma SliceAt(r: seq<byte>, k: nat, i: nat)
    requires k <= i < k + 8 <= |r|
    ensures r[k..k + 8][i - k] == r[i]
  {}

  /** The page-table words and the edges are all of RAM. */
  lemma WordsAndEdgesDetermine(start: nat, r: seq<byte>, r': seq<byte>)
    requires SameEdges(start, r, r') && Words(start, r) == Words(start, r')
    ensures r == r'
  {
    forall i | 0 <= i < |r| ensures r[i] == r'[i] {
      if InCell(start, |r|, i) {
        var a := start + i - (start + i) % 8;
        SameCell(start, r, r', a);
        SliceAt(r, a - start, i);
        SliceAt(r', a - start, i);
      }
    }
  }

  /** All-or-nothing access: result, data buffer and RAM afterwards. */
  function Accessed(start: nat, ram: seq<byte>, addr: nat, data: seq<byte>, mode: Access): (MemResult, seq<byte>, seq<byte>) {
    if !InRam(start, ram, addr, |data|) then (AccessFault, data, ram)
    else if mode == Store then (Ok, data, Splice(ram, addr - start, data))
    else (Ok, ram[addr - start..addr - start + |data|], ram)
  }

  class Machine {
    const ramStart: nat
    const ram: array<byte>

    constructor (start: nat, size: nat)
      requires 8 <= start + size < U64
      ensures ramStart == start && ram.Length == size && fresh(ram) && Bounded()
      ensures forall i :: 0 <= i < size ==> ram[i] == 0
    {
      ramStart := start;
      ram := new byte[size](_ => 0);
    }

    /** RAM ends below 2^64, and not within the first eight bytes of the address space. */
    predicate Bounded() { 8 <= ramStart + ram.Length < U64 }

    ghost function Mem(): Mem
      reads ram
    {
      Words(ramStart, ram[..])
    }

    /** One pass of `misaligned_access`. Without `commit` it only looks for a byte outside RAM. The data
        position is never advanced, so a committing pass is right only when one chunk covers everything. */
    method MisalignedPass(addr0: Word, data: seq<byte>, commit: bool, mode: Access)
      returns (res: MemResult, out: seq<byte>)
      requires Bounded() && |data| <= 8 && !Escapes(ramStart, ramStart + ram.Length, addr0, |data|)
      modifies ram
      ensures !commit ==> ram[..] == old(ram[..]) && out == data
      ensures res == Ok <==> data == [] || InRam(ramStart, ram[..], addr0, |data|)
      ensures res == Ok || res == AccessFault
      ensures commit && res == Ok && mode == Store && data != [] ==>
        ram[..] == Splice(old(ram[..]), addr0 - ramStart, data) && out == data
      ensures commit && res == Ok && mode != Store && data != [] ==>
        ram[..] == old(ram[..]) && out == ram[addr0 - ramStart..addr0 - ramStart + |data|]
      ensures data == [] ==> ram[..] == old(ram[..]) && out == data
    {
      var ramEnd: Word := ramStart + ram.Length;
      var addr, size := addr0, |data|;
      out := data;
      while size > 0
        invariant addr + size == addr0 + |data| && 0 <= size <= |data|
        invariant size == |data| ==> ram[..] == old(ram[..]) && out == data
        invariant |out| == |data|
        invariant size < |data| ==> ramStart <= addr0 && (size == 0 || addr == ramEnd)
        invariant size < |data| && size == 0 ==> InRam(ramStart, ram[..], addr0, |data|)
        invariant !commit ==> ram[..] == old(ram[..]) && out == data
        invariant commit && size == 0 && data != [] && mode == Store ==>
          ram[..] == Splice(old(ram[..]), addr0 - ramStart, data) && out == data
        invariant commit && size == 0 && data != [] && mode != Store ==>
          ram[..] == old(ram[..]) && out == ram[addr0 - ramStart..addr0 - ramStart + |data|]
        decreases size
      {
        if addr < ramStart || (addr + 1) % U64 > ramEnd {
          return AccessFault, out;
        }
        var part := size;
        if (addr + part) % U64 > ramEnd { part := ramEnd - addr; }
        var at := addr - ramStart;
        if commit && mode == Store {
          forall i | 0 <= i < part { ram[at + i] := data[i]; }
        } else if commit {
          out := ram[at..at + part] + out[part..];
        }
        addr, size := (addr + part) % U64, size - part;
      }
      return Ok, out;
    }

    /** `rv_access_phys_partial` past its PMP check: the first pass checks, the second commits. */
    method AccessPartial(addr: Word, data: seq<byte>, mode: Access) returns (res: MemResult, out: seq<byte>)
      requires Bounded() && 1 <= |data| <= 8 && !Escapes(ramStart, ramStart + ram.Length, addr, |data|)
      modifies ram
      ensures res == (if InRam(ramStart, ram[..], addr, |data|) then Ok else AccessFault)
      ensures (res, out, ram[..]) == Accessed(ramStart, old(ram[..]), addr, data, mode)
    {
      res, out := MisalignedPass(addr, data, false, mode);
      if res == Ok {
        res, out := MisalignedPass(addr, data, true, mode);
      }
    }

    /** `rv_access_phys` past its PMP check, with RAM as the only region. When the bounds test lets an escaping access
        through, the C program touches memory outside RAM: the outcome is `escaped`, and nothing is said beyond it. */
    method AccessPhys(addr: Word, data: seq<byte>, mode: Access) returns (res: MemResult, out: seq<byte>, escaped: bool)
      requires Bounded() && 1 <= |data| <= 8
      modifies ram
      ensures escaped <==> Escapes(ramStart, ramStart + ram.Length, addr, |data|)
      ensures !escaped ==> (res, out, ram[..]) == Accessed(ramStart, old(ram[..]), addr, data, mode)
    {
      var ramEnd: Word := ramStart + ram.Length;
      GuardIsRightExactly(ramStart, ram[..], addr, |data|);
      escaped := false;
      if addr >= ramStart && (addr + |data|) % U64 <= ramEnd {
        if addr + |data| > ramEnd { return Ok, data, true; }
        var at := addr - ramStart;
        if mode == Store {
          forall i | 0 <= i < |data| { ram[at + i] := data[i]; }
          assert ram[..] == Splice(old(ram[..]), at, data);
          return Ok, data, false;
        }
        return Ok, ram[at..at + |data|], false;
      }
      if addr % |data| != 0 {
        res, out := AccessPartial(addr, data, mode);
        return;
      }
      return AccessFault, data, false;
    }
  }
}
