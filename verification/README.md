# A verified model of the RV64GC hart emulator

These Dafny modules model the emulator's memory core (Sv39 walk, software TLB, PMP, RAM, page-crossing accesses), its
privilege and interrupt core (traps, returns, CSRs, PLIC, CLINT, atomics under one lock), its multiplication and division,
and its compressed-instruction expander. `dafny verify dfyconfig.toml` checks everything.

Where the code updates state in place, the model has a class with the same fields and methods with the same loops (`Hart`,
`TlbUnit`, `Ram.Machine`, `Plic.Device`, `Clint.Device`, `Atomics.Machine`), each method tied by its postcondition to a
function from old state to new. Properties of runs are proved about those functions.

What those functions compute is stated a second time, without them, in the modules named `Meaning`: table addresses and frames
as numbers, permissions as flag bits, handler addresses, register numbers, bus offsets and exception causes as the
manuals print them, each as an exact condition over all inputs. A wrong index, flag, register or offset in a function
contradicts one of those lemmas.

| files | what they hold |
|---|---|
| `Bits`, `Types` | bit operations on unbounded numbers, flag bytes, words, mask registers as sets of bit positions |
| `Pmp` | NAPOT matching, the check, the byte-wise rule |
| `Sv39`, `Tlb`, `TlbProofs` | the walk, the TLB, refinement over runs |
| `TlbLimits`, `TlbRuns`, `TlbShootdown`, `TlbWitness` | where tags and fences suffice, the TLB's structure over runs, targeted shootdown, runs that show the limits |
| `Ram`, `Hart`, `Paging`, `VirtualAccess` | the byte buffer, the hart's fields, the walk and TLB as loops, accesses that cross pages |
| `Privileged`, `CsrAccess`, `BaseSystem`, `Step` | traps, interrupts, CSRs, SYSTEM instructions, the compressed step |
| `HartProofs`, `HartIsolation`, `HartTraps`, `PmpCsr`, `CsrViews` | invariants of every run, isolation of M-level state, nesting, locks, what CSR reads show |
| `Plic`, `PlicProofs`, `Clint`, `ClintProofs` | the two interrupt devices and their runs |
| `Atomics`, `AtomicsProofs`, `AtomicsLaws` | LR, SC and AMO, their interleavings, what the lock order means |
| `InsnFormat`, `Decompress`, `Executor`, `Rvc`, `Expansion` | encoders, expander, decoder, the manual's table, their agreement |
| `MulDiv` | the M extension |
| `WalkMeaning`, `AccessMeaning` | which words a walk reads, which accesses a leaf grants, what a cached lookup names, which bytes an access reaches |
| `TrapMeaning`, `CsrMeaning` | trap entry, interrupts and returns in handler addresses and status bits, CSR instructions register by register |
| `PlicMeaning`, `ClintMeaning` | the two devices as the guest sees them on the bus |
| `AtomicMeaning`, `ExecMeaning` | every outcome of an atomic instruction, every effect of an integer instruction |

## Modelling choices

- Bit 38. The TLB compares address bits 12 to 37 (rv_paging.h:31), the walk uses bit 38 too. `TlbRefinesWalk` therefore
  fixes, for each tag, which half of the address space it stands for; `TagSufficesExactly` shows that this is exactly needed.
- Replacement counter. rv_paging.c:206-208 increments an 8-bit counter that nothing reduces, although the header calls it a
  column. The model keeps it as written. An eviction that would leave the entry array is the outcome `Overrun`: the
  translation it returns is still proved right, and a run ends with it, because what the program does afterwards is not
  defined. An eviction into a later row is part of the runs and does not break refinement. `TlbRuns` shows that sixteen
  evictions per hart are harmless and `TlbWitness` runs the next ones.
- TLB hits return without a permission check, as in the code. Refinement is about translation and A/D bits.
- The PMP bits cached with a superpage come from its first 4K page, as in the code.
- Global pages are covered, on the condition of section 4.3.1 of the RISC-V Privileged ISA that a global mapping is the
  same in all address spaces. The operating system changes page tables in one of two ways: one word at a time, with the
  same fence executed by every hart before the next translation, or at will with a flush of every hart. Which fence
  suffices after one word is `TlbShootdown.ShootdownExactly`.
- PLIC source 64. The code admits it (rv_plic.h:18-20), but its bits lie in a third word that the two-word arrays do not
  have. The model has sources 1 to 63. Raising 64 is an out-of-bounds outcome that runs leave out, and so is the last turn of
  the two scans, which reads that word. The priority register of 64 exists and is modelled.
- MPP. The fix-up of mstatus writes masks with the bit number 11 instead of bit 11 (rv_csr.c:135). The model follows the
  code; `HartIsolation.AlwaysLegalExactly` says when privilege stays in {0, 1, 3}, and `ReservedLevelReached` leaves it.
- RAM is the only memory region; it ends below 2^64 and not within the first eight bytes of the address space. Bounds tests
  are in 64 bits as written. An access that they let through although it lies outside RAM is an outcome of its own
  (`Ram.Escapes`); translated addresses have 56 bits and cannot be among them. The host is little-endian.
- The clock is an input that does not decrease. The lock of the atomics and that of the PLIC are abstract; each relaxed
  atomic update of `irq_pending` is one step. No trap hook is installed.
- Signed 64-bit products of MUL wrap. Machine words are numbers below 2^64 with explicit reduction.
- Where code and documentation disagree the model follows the code: sie is stored but never consulted, and two kinds of
  compressed hints (C.SLLI and C.LUI of x0) are rejected as illegal.

## Model

| member | source | states |
|---|---|---|
| `Pmp.PmpCheck` | emulator/src/cpu/rv_pmp.c:28-53 | The early-exit loop over 64 entries answers as the scan defined entry by entry, with the last byte computed in 64 bits. |
| `Pmp.MatchIsInterval` | emulator/src/cpu/rv_pmp.c:17-24 | The XOR/AND bit trick matches exactly the addresses in [base, base + 2^(N+3)) of the encoded NAPOT region, for every address and register value. |
| `Pmp.CheckSkipsSwallowed` | emulator/src/cpu/rv_pmp.c:28-53 | For every non-wrapping access the check computes the byte-wise rule over the entries that do not lie strictly inside the access. |
| `Pmp.CountsExactly` | emulator/src/cpu/rv_pmp.c:31-38 | An entry takes part exactly when its mode field is NA4 or NAPOT and, for M-mode, its lock bit is set. |
| `Pmp.CheckExactly` | emulator/src/cpu/rv_pmp.c:28-53 | The answer is the low three bits of the first entry the access meets and does not swallow, if that entry's region covers the access, and 0 if not; without such an entry it is 7 for M-mode and 0 for the others. |
| `Pmp.CheckIsByteRule` | emulator/src/cpu/rv_pmp.c:28-53 | For every non-wrapping access the check gives the byte-wise answer of section 3.7.1 of the RISC-V Privileged ISA if and only if no entry lying strictly inside the access decides under that rule, or the entries not so swallowed grant nothing: the first of them leaves a byte uncovered or carries no permission, or there is none and the access is not M-mode's. |
| `Pmp.SmallAccessFollowsByteRule` | emulator/src/cpu/rv_pmp.c:28-53 | An access no larger than the smallest considered region always follows the byte-wise rule: the lowest-numbered entry touching any byte decides, partial overlap gives 0. |
| `Pmp.DataAccessFollowsByteRule` | emulator/src/cpu/rv_pmp.c:28-53 | Every access of at most eight bytes follows the byte-wise rule whatever the registers hold. |
| `Pmp.PageCheckMissesSmallRegion` | emulator/src/cpu/rv_paging.c:105-106 | The page-sized check cached with a leaf does not: registers are given for which it grants a page holding eight forbidden bytes. |
| `Sv39.RawLookupIsWalk` | emulator/src/cpu/rv_paging.c:65-143 | The lookup equals: a PMP fault on the path, else the fault of the pure walk, else permissions and A/D handling at the leaf the walk names. |
| `Sv39.WalkUpToAD` | emulator/src/cpu/rv_paging.c:118-129 | Setting A and D bits anywhere, even in tables that map themselves, leaves the walk of every address the same up to A/D. |
| `Sv39.RawWritesOnlyLeafAD` | emulator/src/cpu/rv_paging.c:114-130 | A lookup writes nothing unless it succeeds, and then changes at most bits 6 and 7 of the one leaf it used. |
| `Sv39.LookupKeepsAddressMap` | emulator/src/cpu/rv_paging.c:65-143 | After a lookup every address, under every root, still translates to the same page. |
| `Sv39.SecondLookupWritesNothing` | emulator/src/cpu/rv_paging.c:65-143 | Repeating a successful lookup in the same mode succeeds with the same entry and writes nothing. |
| `WalkMeaning.WalkReadsTables` | emulator/src/cpu/rv_paging.c:79-141 | In literal table addresses: the walk ends at a 4K, 2M or 1G leaf if and only if the root word, the middle word and the last word for the page are valid pointers down to that aligned leaf; otherwise it is an access fault if and only if a table word on the path lies outside memory, and else a page fault. |
| `WalkMeaning.WalkGrantsExactly` | emulator/src/cpu/rv_paging.c:18-60 | A walk that PMP lets read the tables and that has a leaf is a page fault if and only if U, SUM, X, R or W refuse the access, then an access fault if and only if PMP refuses the page or the write of missing A and D bits, and else succeeds. |
| `WalkMeaning.WalkRefusedExactly` | emulator/src/cpu/rv_paging.c:79-143 | Without a leaf, or without leave to read a table word, the walk is refused, with an access fault exactly when a word is unreadable or outside memory, and writes nothing. |
| `WalkMeaning.WalkCaches` | emulator/src/cpu/rv_paging.c:104-135 | A successful walk returns the frame the tables map, the leaf's flags with A (and D) set and PMP's answer for the leaf's first page, and sets those bits in the leaf's word. |
| `WalkMeaning.LookupNamesFrame` | emulator/src/cpu/rv_paging.c:147-211 | In every state the TLB theorem reaches, a successful lookup, cached or not, names the frame the tables map: the leaf's own, or the page's place in the leaf's block. |
| `WalkMeaning.LookupAnsweredExactly` | emulator/src/cpu/rv_paging.c:159-183 | A lookup is answered without a check by the first live entry of row vpn mod 16 with equal address bits 12 to 37 that is global or of the ASID, if it has the A/D bits; without them it is dropped and the page walked; without such an entry the page is walked. |
| `WalkMeaning.FillsExactly` | emulator/src/cpu/rv_paging.c:195-208 | Filling takes the first free column of the row, else the slot the counter names unless that lies past slot 255. |
| `WalkMeaning.WalkedIsCached` | emulator/src/cpu/rv_paging.c:185-208 | A page that had to be walked is cached in row vpn mod 16 if the walk succeeds, and the TLB stays as it was if not. |
| `WalkMeaning.CanonicalIsSignExtension` | emulator/src/cpu/rv_paging.c:348-356 | Under Sv39 an address is canonical if and only if it is the sign extension of its low 39 bits; in other modes none is. |
| `TlbProofs.LookupOk` | emulator/src/cpu/rv_paging.c:147-211 | The result of one cached lookup (hit, stale hit or refill) refines the address map, even when its eviction leaves the entry array; otherwise its hart's TLB stays a cache of the map without double matches. |
| `TlbProofs.StepOk` | emulator/src/cpu/rv_paging.c:147-345 | Translations, satp writes, fences, remaps, and rewriting one page-table word under a fence that names what was cached through it, by any hart, keep the invariant of all harts, and each translation is right. |
| `TlbProofs.TlbRefinesWalk` | emulator/src/cpu/rv_paging.c:147-211 | Over every run of several harts sharing one memory, each successful translation, up to and including the first that writes past the entry array, has the page a fresh walk of the memory it leaves gives, and that leaf already has A (and D for stores and AMOs). |
| `TlbProofs.ResetOk` | emulator/src/emu_machine.c:34-60 | The zeroed reset state satisfies the invariant. |
| `TlbProofs.CachedWritesOnlyAD` | emulator/src/cpu/rv_paging.c:147-211 | Whatever its outcome, a cached lookup changes memory in A/D bits only, and not at all when it faults or hits. |
| `TlbProofs.SatisfiedLookupWritesNothing` | emulator/src/cpu/rv_paging.c:147-211 | Once the leaf has the bits an access needs, looking it up, cached or not, writes nothing. |
| `TlbProofs.LookupTwice` | emulator/src/cpu/rv_paging.c:147-211 | After a successful lookup the next one of the address in the same mode succeeds with the same frame and writes nothing, cached or not. |
| `TlbProofs.AmoHalvesAgree` | emulator/src/cpu/rv_impl/atomics.c:184-252 | The store half of an atomic instruction reaches the frame its load half came from, and translating it writes nothing. |
| `TlbLimits.FenceForgets` | emulator/src/cpu/rv_paging.c:302-345 | After a fence the named address can hit only through a global entry of another ASID, and only if ASIDs were named. |
| `TlbLimits.FenceExactly` | emulator/src/cpu/rv_paging.c:295-345 | For every TLB, a fence drops exactly the live entries its operands name if and only if it names no address or no named entry has been displaced from the row of its page. |
| `TlbLimits.NonCanonicalFenceIsVacuous` | emulator/src/cpu/rv_paging.c:333-337 | The early return of a fence is sound: with translation off there is nothing to drop, and with Sv39 no address that can be looked up lies in the named page. |
| `TlbLimits.UnaliasedIsCorrect` | emulator/src/cpu/rv_paging.c:160-182 | Two addresses that do not differ in bit 38 alone among the compared bits are translated rightly one after the other, for all page tables. |
| `TlbLimits.AliasedIsWrong` | emulator/src/cpu/rv_paging.c:160-182 | For two addresses that share the tag and differ in bit 38, page tables are given on which the second lookup returns the first one's page. |
| `TlbLimits.TagSufficesExactly` | emulator/include/cpu/rv_paging.h:31 | The 26-bit tag suffices for a pair of addresses, whatever the page tables, if and only if they do not alias in bit 38. |
| `TlbRuns.LookupOverrunsExactly` | emulator/src/cpu/rv_paging.c:147-211 | A lookup writes past the entry array if and only if no live entry answers, the walk succeeds, the row is full of live entries and the counter points beyond the last row; otherwise the counter has counted exactly the evictions. |
| `TlbRuns.SixteenEvictionsAreSafe` | emulator/src/cpu/rv_paging.c:147-345 | From TLBs in order, a run that makes no hart evict past its sixteenth column never overruns: in every state live entries sit in their rows, no two answer one lookup, every fence drops exactly what it names, and every translation is right. |
| `TlbRuns.ResetRunsAreSafe` | emulator/src/emu_machine.c:34-60 | In particular every run from reset with at most sixteen evictions on each hart. |
| `TlbWitness.OverrunReached` | emulator/src/cpu/rv_paging.c:205-208 | From reset, after 32 lookups of pages in the last row, sixteen of them evicting, the next one writes past the entry array. |
| `TlbWitness.DisplacementReached` | emulator/src/cpu/rv_paging.c:205-208 | From reset, a page of row 1 and then 33 pages of row 0: the last eviction puts a live entry into another page's row. |
| `TlbShootdown.ShootdownExactly` | emulator/src/cpu/rv_paging.c:315-345 | After a leaf entry has been replaced and every hart has executed one fence, all TLBs are right for the new tables if and only if the fence names every slice of the old leaf that some hart has cached. |
| `TlbShootdown.SmallPageShootdown` | emulator/src/cpu/rv_paging.c:315-330 | For an entry that serves a single 4K page, fencing the page's address on every hart always suffices, whatever is cached and whatever is written. |
| `TlbShootdown.NewMappingNeedsNoFence` | emulator/src/cpu/rv_paging.c:188-194 | Mapping a page through a word that was invalid needs no fence, for the code caches no faults. |
| `TlbWitness.SuperpageFenceMissesSlice` | emulator/src/cpu/rv_paging.c:107-113 | A superpage is cached as separate 4K slices: from reset, after two of its pages are looked up, its entry is replaced and one page's address fenced, the other page still translates to the old frame. |
| `Paging.RawLookup` | emulator/src/cpu/rv_paging.c:65-143 | The three-level loop on RAM and the hart's PMP registers returns and writes what the specification of the walk says. |
| `Paging.ProbeTlb` | emulator/src/cpu/rv_paging.c:159-183 | The column scan finds the first match, and a match without the A/D bits is invalidated and ends the scan. |
| `Paging.FillTlb` | emulator/src/cpu/rv_paging.c:195-208 | Insertion uses the first free column, else the slot the counter names, and advances the counter; it reports when that slot lies past the entry array. |
| `Paging.Lookup` | emulator/src/cpu/rv_paging.c:147-211 | The lookup on the hart's TLB arrays, satp and RAM equals the specified cached lookup in result, memory, TLB and overrun, and no RAM byte outside page-table words changes. |
| `Paging.FlushTlb` | emulator/src/cpu/rv_paging.c:295-299 | Every valid bit is cleared and nothing else changes. |
| `Paging.InvalTlbAsid` | emulator/src/cpu/rv_paging.c:302-312 | Exactly the entries of the ASID lose their valid bit. |
| `Paging.InvalTlbVaddr` | emulator/src/cpu/rv_paging.c:315-330 | Exactly the matching entries of the address's row lose their valid bit. |
| `Paging.InvalTlb` | emulator/src/cpu/rv_paging.c:333-345 | The dispatch over the two operands equals the specified fence. |
| `Ram.PteRoundTrip` | emulator/include/cpu/rv_paging.h:15-28 | Packing the fields of a page-table word and unpacking the word gives the fields back. |
| `Ram.PteUnpackRoundTrip` | emulator/include/cpu/rv_paging.h:15-28 | Unpacking any 64-bit word and packing its fields gives the word back. |
| `Ram.StoreIsUpdate` | emulator/src/emu_machine.c:240-248 | Writing an aligned page-table word into the byte buffer changes that word and no other. |
| `Ram.WordsAndEdgesDetermine` | emulator/src/emu_machine.c:240-248 | The page-table words and the bytes at the two ends of RAM that belong to no aligned word determine every byte of RAM. |
| `Ram.GuardIsRightExactly` | emulator/src/emu_machine.c:240-241 | The 64-bit bounds test equals the intended one if and only if the access does not start at or above RAM's start and end where its address has wrapped back to RAM's end or below. |
| `Ram.Machine.MisalignedPass` | emulator/src/emu_machine.c:137-184 | One pass over the pieces of an access: it ends because the remaining size shrinks, a checking pass changes nothing, a committing pass copies exactly the access. |
| `Ram.Machine.AccessPartial` | emulator/src/emu_machine.c:201-220 | A RAM access of any size is all or nothing. |
| `Ram.Machine.AccessPhys` | emulator/src/emu_machine.c:223-279 | For every 64-bit address, fast path, misaligned path and fault together are the all-or-nothing access, unless the bounds test lets an access outside RAM through, which it reports exactly. |
| `VirtualAccess.SpliceIsStoreBytes` | emulator/src/emu_machine.c:150-156 | A block copy is a run of single-byte stores. |
| `VirtualAccess.PairAddrsDistinct` | emulator/src/cpu/rv_paging.c:220-244 | The bytes of a page-crossing access never collide, even when both pages are one frame. |
| `VirtualAccess.PairIsByteWise` | emulator/src/cpu/rv_paging.c:240-253 | The two block accesses of a crossing access are byte-by-byte accesses through the two fixed translations. |
| `VirtualAccess.PairRoundTrip` | emulator/src/cpu/rv_paging.c:240-253 | A crossing load returns what a crossing store through the same translations wrote. |
| `VirtualAccess.FaultWritesNoData` | emulator/src/cpu/rv_paging.c:225-238 | If either translation of a crossing access faults, RAM has changed in A/D bits of page-table words and in no other byte. |
| `VirtualAccess.FirstFaultWritesNothing` | emulator/src/cpu/rv_paging.c:229-233 | If the first translation faults, no byte of RAM has changed. |
| `VirtualAccess.AccessPageBoundary` | emulator/src/cpu/rv_paging.c:214-256 | The crossing access fixes both translations first and then performs the byte-wise access; after the last page of the address space comes page 0, and an overrunning lookup is reported. |
| `VirtualAccess.AccessVirt` | emulator/src/cpu/rv_paging.c:259-292 | The whole access at every 64-bit address: untranslated, non-canonical, single-page and crossing cases with their results and every byte of RAM, and exactly when a lookup overruns or an untranslated access escapes RAM. |
| `VirtualAccess.LastWordEscapes` | emulator/src/emu_machine.c:240-241 | From reset an M-mode access to the last eight bytes of the address space passes PMP and the bounds test although it lies outside RAM. |
| `AccessMeaning.EntrySpelled` | emulator/include/cpu/rv_paging.h:15-28 | The entry the walker sees at an aligned address is spelled by the eight bytes there, least first: flags V to D in the first byte, the frame in bits 53 to 10. |
| `AccessMeaning.UntranslatedExactly` | emulator/src/emu_machine.c:186-199 | Without translation an access succeeds if and only if PMP grants X, R or W and its bytes lie in RAM, and then moves exactly the bytes at its own address; otherwise it is an access fault that changes nothing. |
| `AccessMeaning.BareAccessReachesItself` | emulator/src/cpu/rv_paging.c:262-267 | So for every successful access in M-mode (by the fetch or the data privilege) or Bare mode, with PMP asked for the hart's privilege. |
| `AccessMeaning.PairDelivered` | emulator/src/cpu/rv_paging.c:240-253 | A crossing access through two frames succeeds if and only if all its bytes lie in RAM, and then moves exactly them. |
| `AccessMeaning.AccessReachesFrames` | emulator/src/cpu/rv_paging.c:259-292 | From satp and page tables to bytes: a successful translated access is at a canonical address, and each of its bytes is the RAM byte at the page offset in the frame that the tables in RAM map the byte's page to, page 0 following the last; a load returns them, a store writes them and no others. |
| `AccessMeaning.NonCanonicalFaults` | emulator/src/cpu/rv_paging.c:268-271 | At any other address it is a page fault that touches neither RAM nor TLB. |
| `AccessMeaning.WalkerAsks` | emulator/src/cpu/rv_paging.c:83-86 | The walker uses the data privilege and mstatus of the hart and asks PMP as below M-mode. |
| `Privileged.EnterS` | emulator/src/cpu/rv_privileged.c:33-47 | The field-by-field S-mode entry gives the specified status, cause, return address, privilege and pc. |
| `Privileged.EnterM` | emulator/src/cpu/rv_privileged.c:49-64 | The field-by-field M-mode entry gives the specified state. |
| `Privileged.EnterTrap` | emulator/src/cpu/rv_privileged.c:17-65 | Delegation picks S-mode exactly from S or U with the delegation bit set. |
| `Privileged.TakeInterrupt` | emulator/src/cpu/rv_privileged.c:92-140 | The selection loop takes the first table entry among the candidates, or nothing. |
| `TrapMeaning.TrapEntersExactly` | emulator/src/cpu/rv_privileged.c:17-65 | A trap enters S-mode if and only if it comes from U or S and its delegation bit is set, else M-mode: pc is that level's tvec without its mode bits, plus four times the number for interrupts under vectored mode; that level's epc, cause and tval hold the trap's values; the old privilege and interrupt enable are saved and the enable cleared; nothing else changes. |
| `TrapMeaning.InterruptTakenExactly` | emulator/src/cpu/rv_privileged.c:92-140 | Between instructions the most urgent waiting interrupt of M, else of S, is taken with the interrupted pc, cause 2^63 plus its number and value 0; without one nothing happens. |
| `TrapMeaning.MretReturnsExactly` | emulator/src/cpu/rv_impl/base.c:260-271 | mret goes to mepc in the saved level, restores MIE, sets MPIE, clears MPP and, below M, MPRV, and changes nothing else. |
| `TrapMeaning.SretReturnsExactly` | emulator/src/cpu/rv_impl/base.c:272-289 | sret goes to sepc in the saved level, restores SIE, sets SPIE, clears SPP and MPRV, and changes nothing else. |
| `TrapMeaning.PrivilegedExactly` | emulator/src/cpu/rv_impl/base.c:257-346 | mret, sret, wfi and sfence.vma are illegal exactly below their level or under TSR, TW and TVM, with cause 2 and the word as value; else they do what they are for. |
| `TrapMeaning.EcallExactly` | emulator/src/cpu/rv_impl/base.c:306-325 | ecall traps with cause 8 plus the privilege and value 0. |
| `TrapMeaning.EbreakExactly` | emulator/src/cpu/rv_impl/base.c:326-336 | ebreak traps with cause 3 and value 0. |
| `HartTraps.SelectionIsArchitectural` | emulator/src/cpu/rv_privileged.c:82-140 | A trap is taken if and only if an enabled interrupt is deliverable; it is the most urgent of its mode by section 3.1.9 of the RISC-V Privileged ISA, M before S, and delegation in the trap agrees with the mode chosen. |
| `HartTraps.SecondCheckDoesNothing` | emulator/src/cpu/rv_privileged.c:92-140 | Checking again with unchanged lines does nothing. |
| `HartTraps.SieHasNoEffect` | emulator/src/cpu/rv_csr.c:168 | Writing sie cannot change which interrupt is taken: the register is stored but never consulted. |
| `HartTraps.InnerTrapReturns` | emulator/src/cpu/rv_impl/base.c:260-271 | An M-mode trap and its mret leave the interrupted S-mode handler's pc, privilege and S-level trap state as they were. |
| `HartTraps.OuterTrapReturns` | emulator/src/cpu/rv_impl/base.c:272-289 | A delegated trap and its sret restore pc, privilege, SIE and MIE. |
| `HartTraps.NestedTrapsUndo` | emulator/src/cpu/rv_privileged.c:17-65 | A trap to S, a trap to M inside its handler and the two returns undo each other. |
| `HartTraps.HandlerMayWrite` | emulator/src/cpu/rv_csr.c:121-265 | Every CSR write other than to the status and return-address registers is allowed to such a handler. |
| `HartTraps.SatpWriteIsMmuWrite` | emulator/src/cpu/rv_csr.c:189-205 | A satp write moves the register and the TLB together as the translation unit of the TLB theorem does. |
| `CsrAccess.BuildCfg` | emulator/src/cpu/rv_csr.c:230-249 | The per-byte loop builds the word whose locked bytes are old and whose others are the normalised written ones. |
| `CsrAccess.StoreSatp` | emulator/src/cpu/rv_csr.c:189-205 | An unsupported mode writes nothing; leaving Sv39 flushes the TLB. |
| `CsrAccess.WriteCsr` | emulator/src/cpu/rv_csr.c:121-265 | The write on the hart's fields equals the specified one for every register number and privilege, and a refused write changes nothing. |
| `CsrViews.PlainReadBack` | emulator/src/cpu/rv_csr.c:139-188 | Every register that holds 64 bits reads back as written. |
| `CsrViews.PlainWriteIsLocal` | emulator/src/cpu/rv_csr.c:139-188 | Such a write shows in no other register, except mideleg in sip. |
| `CsrViews.SatpReadBack` | emulator/src/cpu/rv_csr.c:189-205 | satp reads back as written for a supported mode and keeps its value otherwise. |
| `CsrViews.SstatusIsView` | emulator/src/cpu/rv_csr.c:46-58 | sstatus shows exactly the S-level bits of mstatus. |
| `CsrViews.SstatusWriteSeen` | emulator/src/cpu/rv_csr.c:163-167 | An sstatus write shows in mstatus in the S-level bits only. |
| `CsrViews.SipIsView` | emulator/src/cpu/rv_csr.c:60-62 | sip is mip restricted to delegated interrupts. |
| `CsrViews.MipWriteSeen` | emulator/src/cpu/rv_csr.c:140-153 | An mip write changes exactly the software-writable lines. |
| `CsrViews.SipWriteSeen` | emulator/src/cpu/rv_csr.c:169-183 | An sip write changes exactly the delegated ones among them. |
| `CsrViews.FlagsField` | emulator/src/cpu/rv_csr.c:213-219 | fflags reads back and its write leaves frm alone. |
| `CsrViews.RoundingField` | emulator/src/cpu/rv_csr.c:220-226 | frm reads back and its write leaves fflags alone. |
| `CsrViews.SetAndClear` | emulator/src/cpu/rv_impl/base.c:239-244 | CSRRS sets exactly the operand's bits, CSRRC clears exactly them. |
| `PmpCsr.PackedWordBytes` | emulator/src/cpu/rv_csr.c:96-100 | The packed-word and per-byte views of the configuration union agree. |
| `PmpCsr.CfgWordReadBack` | emulator/src/cpu/rv_csr.c:230-249 | Reading a configuration word after writing it shows old locked bytes and normalised others. |
| `PmpCsr.LocksPersist` | emulator/src/cpu/rv_csr.c:228-257 | Over every run, a locked entry's configuration and address never change and every configuration byte stays normal. |
| `BaseSystem.ExecuteCsr` | emulator/src/cpu/rv_impl/base.c:218-254 | Read, combine, write and rd update of a CSR instruction, with its two illegal-instruction exits. |
| `BaseSystem.ExecuteSystem` | emulator/src/cpu/rv_impl/base.c:257-346 | mret, sret, wfi, sfence.vma, ecall, ebreak and CSR instructions as specified, with their privilege checks. |
| `CsrMeaning.CsrInstructionExactly` | emulator/src/cpu/rv_impl/base.c:218-254 | A CSR instruction traps with cause 2 if and only if funct3 is 4 or a read or write it needs is refused; else rd gets what the register read before, no other x register changes, and the register is written, if at all, with the operand or the old bits with the operand's set or cleared. |
| `CsrMeaning.PlainInstructionExactly` | emulator/src/cpu/rv_csr.c:139-188 | For the full-width registers, read back: the operand, old bits plus operand bits, old bits minus operand bits; CSRRS and CSRRC from x0 leave every CSR alone. |
| `CsrMeaning.PlainRefusedExactly` | emulator/src/cpu/rv_csr.c:121-125 | Those are refused, read and written, exactly below M-mode from number 0x300 on and below S-mode from 0x100 on. |
| `CsrMeaning.LevelRefused` | emulator/src/cpu/rv_csr.c:121-125 | Every register is refused below the level in bits 9 and 8 of its number. |
| `CsrMeaning.SatpRefusedExactly` | emulator/src/cpu/rv_csr.c:189-193 | satp is refused exactly below S-mode, and in S-mode under TVM. |
| `CsrMeaning.FloatRefusedExactly` | emulator/src/cpu/rv_csr.c:207-226 | The three floating-point registers are refused exactly while FS is off. |
| `CsrMeaning.SatpFieldsAre` | emulator/include/cpu/rv_csr.h:175-177 | satp is its mode, address space and root page number in bits 63..60, 59..44 and 43..0. |
| `CsrMeaning.LinesWritten` | emulator/src/cpu/rv_csr.c:140-183 | mip writes exactly lines 1, 5 and 9, sip exactly the delegated ones of them. |
| `CsrMeaning.SupervisorStatusWritten` | emulator/src/cpu/rv_csr.c:163-167 | sstatus writes exactly SIE, SPIE, UBE, SPP, VS, FS, XS, SUM and MXR. |
| `CsrMeaning.StatusWritten` | emulator/src/cpu/rv_csr.c:133-138 | mstatus takes bits 1, 3 and 5 to 22, with bits 2 and 4 copied one down, and the data privilege follows. |
| `CsrMeaning.FloatRegisterWritten` | emulator/src/cpu/rv_csr.c:207-212 | fcsr keeps eight bits, which fflags and frm show. |
| `CsrMeaning.IdentityRead` | emulator/include/cpu/rv_csr.h:78-81 | The identity registers read XLEN 64 with I, M, A, F, D and C, and the hart's four numbers, and ignore writes. |
| `CsrMeaning.ConfigurationSeen` | emulator/src/cpu/rv_csr.c:96-100 | Byte b of register 0x3A0 + 2k is the PMP configuration of entry 8k + b. |
| `CsrMeaning.ConfigurationWritten` | emulator/src/cpu/rv_csr.c:228-249 | A write of it leaves locked entries and other registers' entries alone; any other entry takes R, W, X and the lock from its byte, with reserved bits clear and the mode OFF or NAPOT. |
| `CsrMeaning.PmpAddressReadBack` | emulator/src/cpu/rv_csr.c:101-108 | A PMP address reads back above its grain as written, with ones in the grain exactly under NAPOT; a locked one does not change. |
| `CsrMeaning.MTrapSeen` | emulator/src/cpu/rv_csr.c:34-70 | After a trap to M-mode the guest reads its three values at 0x341 to 0x343 and pc at the handler 0x305 names. |
| `CsrMeaning.STrapSeen` | emulator/src/cpu/rv_csr.c:34-70 | After a trap to S-mode likewise at 0x141 to 0x143 and 0x105. |
| `CsrMeaning.DelegationSeen` | emulator/src/cpu/rv_csr.c:34-70 | Delegation, enabled and pending interrupts are what M-mode reads at 0x302, 0x303, 0x304 and 0x344. |
| `Types.BitOfWord` | emulator/src/cpu/rv_csr.c:42-62 | Position k of a register kept as a set is bit k of its word. |
| `HartProofs.RunOk` | emulator/include/cpu/rv_cpu.h:65-70 | In every state of every run of traps, returns, CSR writes and device lines: the data privilege is MPP under MPRV else the privilege, MPRV is 0 below M-mode, only existing lines are pending, satp mode is 0 or 8, and mode 0 means an empty TLB. |
| `HartProofs.ResetOk` | emulator/src/emu_machine.c:48-52 | Reset satisfies that invariant. |
| `HartProofs.FetchUsesOwnPrivilege` | emulator/src/cpu/rv_paging.c:18-33 | So the permission check, which uses the data privilege, is right for instruction fetches below M-mode. |
| `HartIsolation.MstatusWriteIsLegalExactly` | emulator/src/cpu/rv_csr.c:133-138 | An mstatus write stores the reserved MPP value 2 if and only if the guest asks for it: the fix-up with mask 11 never touches MPP. |
| `HartIsolation.MstatusStoredExactly` | emulator/src/cpu/rv_csr.c:133-138 | The stored value is the masked written one if and only if the stray bits 2 and 4 add nothing. |
| `HartIsolation.ReservingWord` | emulator/src/cpu/rv_csr.c:133-138 | The word whose one set bit is the upper bit of MPP asks for the reserved value. |
| `HartIsolation.AlwaysLegalExactly` | emulator/src/cpu/rv_impl/base.c:260-271 | Privilege and MPP stay out of the reserved level in every state of a run if and only if M-mode never writes the reserved MPP in it. |
| `HartIsolation.ReservedLevelReached` | emulator/src/cpu/rv_impl/base.c:260-271 | From any M-mode state, a CSR write of the reserved MPP and an mret reach the reserved level, where an ecall aborts. |
| `HartIsolation.LevelsStayLegal` | emulator/src/cpu/rv_impl/base.c:306-315 | Without a reserved MPP write by M-mode, privilege stays in {0, 1, 3} over every run, so no ecall can abort. |
| `HartIsolation.MLevelIsolated` | emulator/src/cpu/rv_csr.c:121-265 | From leaving M-mode to the next trap into it, no run of steps changes any M-level register, M-level status bit or PMP register. |
| `Plic.Device.ScanForIrq` | emulator/src/device/rv_plic.c:39-47 | The inner loop over sources 1 to 63 finds whether one is pending, enabled and above threshold. |
| `Plic.Device.UpdateHarts` | emulator/src/device/rv_plic.c:29-57 | The loop over contexts sets every hart's MEIP and SEIP to that answer and touches no other line. |
| `Plic.Device.DoClaim` | emulator/src/device/rv_plic.c:62-91 | The scan's best source is claimed and its pending bit cleared, then lines are updated. |
| `Plic.Device.RaiseSource` | emulator/src/device/rv_plic.c:213-221 | Raising a source sets its bit and updates lines, other numbers do nothing, and source 64, whose bit lies past the array, is reported. |
| `Plic.Device.MmioRead` | emulator/src/device/rv_plic.c:93-137 | The register map on reads, the claim register's effect and refused sizes. |
| `Plic.Device.MmioWrite` | emulator/src/device/rv_plic.c:139-187 | The register map on writes, including what is ignored. |
| `PlicProofs.ClaimIsForemost` | emulator/src/device/rv_plic.c:62-91 | A claim returns 0 if and only if nothing is claimable, else the source of highest priority and, among equals, lowest number. |
| `PlicProofs.DrainIsExact` | emulator/src/device/rv_plic.c:62-91 | Claiming until 0 ends and yields exactly the pending, enabled, above-threshold sources. |
| `PlicProofs.DrainIsOrdered` | emulator/src/device/rv_plic.c:62-91 | They come in descending priority, then ascending number, without repetition. |
| `PlicProofs.ClaimsNeverExceedRaises` | emulator/src/device/rv_plic.c:62-91 | Over any interleaving of contexts, claims of a source plus its pending bit never exceed the times it was raised. |
| `PlicProofs.MeipAlwaysOk` | emulator/src/device/rv_plic.c:29-57 | In every reachable state each hart's MEIP equals whether its M-mode context has a claimable source; CSR and CLINT steps cannot break it. |
| `PlicProofs.LineStep` | emulator/src/device/rv_plic.c:29-57 | Each step keeps MEIP right, and SEIP is right after every step that changes the controller. |
| `PlicProofs.MeipMeansClaimSucceeds` | emulator/src/device/rv_plic.c:62-91 | While the line is right a claim finds a source exactly when MEIP is up. |
| `PlicProofs.CsrWriteKeepsMeip` | emulator/src/cpu/rv_csr.c:140-183 | A hart's own mip or sip write, as the CSR model defines it, keeps MEIP right. |
| `PlicProofs.LinesFromReset` | emulator/src/device/rv_plic.c:189-204 | After every run from reset MEIP is right, and SEIP has been right throughout if and only if every software write of it was the controller's own answer. |
| `PlicProofs.SeipKeptExactly` | emulator/src/cpu/rv_csr.c:140-183 | A write of mip or sip keeps SEIP right if and only if it leaves the bit alone or writes whether the S-mode context has a claimable source. |
| `PlicProofs.SeipAlwaysOkExactly` | emulator/src/device/rv_plic.c:29-57 | SEIP is right in every state of a run if and only if every software write of it in the run is of that kind. |
| `PlicProofs.SeipCanBeOverwritten` | emulator/src/cpu/rv_csr.c:140-153 | From reset one mip write makes SEIP disagree with the controller. |
| `PlicProofs.EnableWordReadBack` | emulator/src/device/rv_plic.c:113-119 | An enable word reads back as written and its neighbour is untouched. |
| `PlicProofs.EnableReadBackOnBus` | emulator/src/device/rv_plic.c:113-167 | The same at bus offsets: a read at the word's offset returns what was written there and the other word's offset what it returned before. |
| `PlicProofs.RegisterReadBack` | emulator/src/device/rv_plic.c:139-187 | Priorities and thresholds read back as written and leave every other register as it was. |
| `PlicMeaning.ClaimOnBus` | emulator/src/device/rv_plic.c:121-131 | A 32-bit read at 0x200004 + 0x1000 * context returns 0 if and only if no source is pending, enabled and above the threshold, else the one of highest priority and lowest number, whose pending bit alone is cleared, and then every line 11 and 9 shows its context. |
| `PlicMeaning.CompleteOnBus` | emulator/src/device/rv_plic.c:178-181 | A write there changes nothing. |
| `PlicMeaning.RaiseExactly` | emulator/src/device/rv_plic.c:213-221 | A device's signal sets that pending bit alone and updates the lines. |
| `PlicMeaning.PriorityOnBus` | emulator/src/device/rv_plic.c:101-154 | The priority of a source is the word at four times its number; 0 has none. |
| `PlicMeaning.ThresholdOnBus` | emulator/src/device/rv_plic.c:121-177 | A context's threshold is the first word of its block at 0x200000. |
| `PlicMeaning.PendingOnBus` | emulator/src/device/rv_plic.c:107-157 | The words at 0x1000 show the pending bits and ignore writes. |
| `PlicMeaning.EnableOnBus` | emulator/src/device/rv_plic.c:113-167 | The words at 0x2000 + 0x80 * context show and set exactly that word's 32 enable bits. |
| `PlicMeaning.OtherSizesRefused` | emulator/src/device/rv_plic.c:93-98 | Reads of any other size are refused and claim nothing. |
| `Clint.Device.StoreMtimecmp` | emulator/src/device/rv_clint.c:76-92 | Clears MTIP, stores the value and its deadline, and arms the check. |
| `Clint.Device.StoreMtime` | emulator/src/device/rv_clint.c:142-154 | Moves the epoch and every hart's deadline in the loop, nothing else. |
| `Clint.Device.PollTimer` | emulator/src/device/rv_clint.c:94-101 | An armed check past its deadline raises MTIP and disarms. |
| `Clint.Device.MmioWrite` | emulator/src/device/rv_clint.c:139-184 | The register map on writes, with refused accesses changing nothing. |
| `ClintMeaning.TimeReadOnBus` | emulator/src/device/rv_clint.c:71-74 | 0xBFF8 reads the 100 ns ticks elapsed since the epoch on the 64-bit clock. |
| `ClintMeaning.TimeWrittenOnBus` | emulator/src/device/rv_clint.c:142-154 | Writing it moves the epoch so that it reads as written and every deadline to epoch plus 100 times the comparison value. |
| `ClintMeaning.CompareOnBus` | emulator/src/device/rv_clint.c:76-92 | Writing 0x4000 + 8 * hart takes line 7 of that hart down, arms its check and sets value and deadline; no other hart is concerned. |
| `ClintMeaning.SoftwareOnBus` | emulator/src/device/rv_clint.c:162-178 | Bit 0 at 4 * hart is line 3 of that hart. |
| `ClintMeaning.RefusedExactly` | emulator/src/device/rv_clint.c:105-184 | All other accesses, and only they, are refused. |
| `ClintMeaning.CheckedExactly` | emulator/src/device/rv_clint.c:94-101 | A check raises line 7 and disarms itself exactly when armed at or past the deadline. |
| `ClintProofs.MtimeCountsOnExactly` | emulator/src/device/rv_clint.c:71-74 | A written mtime reads back as value plus elapsed ticks if and only if the nanosecond count fits 64 bits. |
| `ClintProofs.RegistersReadBack` | emulator/src/device/rv_clint.c:105-184 | mtimecmp and msip read back as written and leave all others alone. |
| `ClintProofs.CheckIsRightExactly` | emulator/src/device/rv_clint.c:94-101 | A check raises MTIP as mtime >= mtimecmp demands if and only if the uncut deadline wraps as often as the clock has, or more often with the cut deadline still ahead. |
| `ClintProofs.FarDeadlineFires` | emulator/src/device/rv_clint.c:84-90 | Programming the largest mtimecmp fires at once. |
| `ClintProofs.FutureMtimeNeverFires` | emulator/src/device/rv_clint.c:142-154 | After mtime is set ahead of the uptime, a reached comparison value does not fire at any check until the nanosecond clock is within one tick of wrapping. |
| `ClintProofs.DeadlinesAlwaysOk` | emulator/src/device/rv_clint.c:76-154 | In every reachable state an armed hart's deadline is epoch + 100 * mtimecmp modulo 2^64. |
| `ClintProofs.DeadlinesFromReset` | emulator/src/device/rv_clint.c:76-154 | In particular after every run from reset. |
| `ClintProofs.TimerIsArchitectural` | emulator/src/device/rv_clint.c:76-154 | From the moment a hart programs its timer, through any run without wraps or backward mtime writes past a fired timer, each check leaves MTIP up if and only if mtime has reached mtimecmp. |
| `ClintProofs.TimeWriteKeepsStepExactly` | emulator/src/device/rv_clint.c:142-154 | Such an mtime write keeps the timer in step if and only if the timer has not fired or the new time is still past its comparison value. |
| `Atomics.Machine.InvalidateReservations` | emulator/src/cpu/rv_impl/atomics.c:261-266 | The loop clears exactly the reservations on the address. |
| `Atomics.Machine.AtomicOp` | emulator/src/cpu/rv_impl/atomics.c:30-271 | LR, SC and AMO on memory and reservations equal the one-step specification, with every trap. |
| `AtomicMeaning.MisalignedExactly` | emulator/src/cpu/rv_impl/atomics.c:41-55 | With funct3 2 or 3 an instruction traps for alignment if and only if its address is no multiple of 4 or 8, with cause 4 for LR and 6 else, the address as value and nothing changed. |
| `AtomicMeaning.UnknownWidth` | emulator/src/cpu/rv_impl/atomics.c:30-39 | Any other funct3 is illegal. |
| `AtomicMeaning.UnknownIsIllegal` | emulator/src/cpu/rv_impl/atomics.c:222-226 | An aligned instruction that is no LR, SC or AMO is illegal and changes nothing. |
| `AtomicMeaning.EarlyTrapExactly` | emulator/src/cpu/rv_impl/atomics.c:30-65 | The laws over runs speak of exactly the aligned instructions of known width whose rs2 field is 0 if they are LR. |
| `AtomicMeaning.RefusedMemory` | emulator/src/cpu/rv_impl/atomics.c:60-259 | Page faults are cause 13 for LR and 15 else, access faults 5 and 7, with nothing changed. |
| `AtomicMeaning.LrExactly` | emulator/src/cpu/rv_impl/atomics.c:60-111 | An aligned LR returns the cell, sign-extended from 32 bits, and reserves its address for the hart. |
| `AtomicMeaning.ScExactly` | emulator/src/cpu/rv_impl/atomics.c:112-161 | An aligned SC stores rs2 and returns 0 if and only if the hart's reservation is for its address, and gives it up; else it returns 1 and changes nothing. |
| `AtomicMeaning.AmoExactly` | emulator/src/cpu/rv_impl/atomics.c:163-271 | An aligned AMO returns the cell as it was, leaves in it the operation named by funct5 on the old value and the operand of the cell's width, and cancels the address's reservations of all harts. |
| `AtomicsProofs.PlainCommutes` | emulator/src/cpu/rv_impl/atomics.c:168-266 | A plain store outside its cells commutes with an atomic instruction. |
| `AtomicsProofs.PhaseStep` | emulator/src/cpu/rv_impl/atomics.c:60-271 | Each micro-step under the lock (read, write, invalidate one reservation, finish) stays within the instruction's atomic reading. |
| `AtomicsProofs.InterleavingsAreSerial` | emulator/src/cpu/rv_impl/atomics.c:60-271 | Every interleaving of the harts' micro-steps is the run of whole instructions in lock order: same results, and same memory and reservations whenever the lock is free. |
| `AtomicsLaws.CellIsFold` | emulator/src/cpu/rv_impl/atomics.c:212-259 | A cell written only by AMOs ends as the fold of their operations in lock order. |
| `AtomicsLaws.InterleavedAmosFold` | emulator/src/cpu/rv_impl/atomics.c:168-271 | The same for interleaved runs, and every AMO returns the fold of those before it. |
| `AtomicsLaws.AmoIsBitwise` | emulator/src/cpu/rv_impl/atomics.c:215-217 | AMOXOR, AMOOR and AMOAND act bit by bit. |
| `AtomicsLaws.AmoIsExtreme` | emulator/src/cpu/rv_impl/atomics.c:218-221 | The four extremes pick the smaller or larger operand under the signed or unsigned reading of the access width. |
| `AtomicsLaws.AdditionsAreConserved` | emulator/src/cpu/rv_impl/atomics.c:214 | AMOADDs lose nothing: the cell is its first value plus all addends modulo its width. |
| `AtomicsLaws.InterleavedAdditionsAreConserved` | emulator/src/cpu/rv_impl/atomics.c:168-271 | The same for every interleaving. |
| `AtomicsLaws.ReservationIsHistory` | emulator/src/cpu/rv_impl/atomics.c:104-155 | The reservation table records exactly the history of completed LRs, AMOs and SCs. |
| `AtomicsLaws.ScSucceedsExactly` | emulator/src/cpu/rv_impl/atomics.c:112-166 | In every interleaving, an SC that is not refused by memory succeeds if and only if the hart's latest completed LR was to its address and since then no hart completed an AMO to it and the hart completed no SC to it. |
| `AtomicsLaws.BothScsSucceed` | emulator/src/cpu/rv_impl/atomics.c:117-155 | Two harts can both succeed with SC after reading the same value, losing one update. |
| `AtomicsLaws.AliasedAmoKeepsReservation` | emulator/src/cpu/rv_impl/atomics.c:261-266 | Reservations go by virtual address: an AMO through an alias cancels nothing. |
| `InsnFormat.DecodesS` | emulator/include/cpu/rv_decompress.h:26-29 | On its immediate range the S-type encoder's immediate and fields are read back by the extractors. |
| `InsnFormat.ReencodesS` | emulator/include/cpu/rv_insn.h:88-89 | Every word is the S-type encoding of its own fields, and its immediate is in the S-type range. |
| `InsnFormat.DecodesI` | emulator/include/cpu/rv_decompress.h:22-24 | The same for the I type. |
| `InsnFormat.DecodesR` | emulator/include/cpu/rv_decompress.h:17-20 | The same for the R type. |
| `InsnFormat.DecodesU` | emulator/include/cpu/rv_decompress.h:31-33 | The same for the U type. |
| `InsnFormat.DecodesB` | emulator/include/cpu/rv_decompress.h:35-38 | The same for the B type and the executor's branch offset. |
| `InsnFormat.DecodesJ` | emulator/include/cpu/rv_decompress.h:40-43 | The same for the J type and the executor's jump offset. |
| `InsnFormat.ReencodesR` | emulator/include/cpu/rv_insn.h:70-80 | Every word is the R-type encoding of its own fields. |
| `InsnFormat.ReencodesI` | emulator/include/cpu/rv_insn.h:87 | Every word is the I-type encoding of its own fields, and its immediate is in the I-type range. |
| `InsnFormat.ReencodesU` | emulator/src/cpu/rv_impl/base.c:206-209 | Every word is the U-type encoding of its own fields. |
| `InsnFormat.ReencodesB` | emulator/src/cpu/rv_impl/base.c:352-357 | Every word is the B-type encoding of its own fields, and its offset is even and in range. |
| `InsnFormat.ReencodesJ` | emulator/src/cpu/rv_impl/base.c:180-185 | Every word is the J-type encoding of its own fields, and its offset is even and in range. |
| `Expansion.DecodeEncode` | emulator/src/cpu/rv_decompress.c:17-341 | Decoding what an encoder call produces gives the operation with the call's own arguments. |
| `Expansion.SelectAgrees` | emulator/src/cpu/rv_decompress.c:17-341 | The nested switches choose the operation of the manual's pattern table, operand for operand. |
| `Expansion.FieldsAgree` | emulator/src/cpu/rv_decompress.c:17-341 | The grouped field extraction equals the manual's placement of every single immediate bit, and every immediate fits its encoder. |
| `Expansion.ExpansionPreservesMeaningExactly` | emulator/src/cpu/rv_decompress.c:334-341 | For every halfword, the executor decodes from the expansion the operation and operands of chapter 16 of the RISC-V Unprivileged ISA, and nothing exactly where that reserves the encoding, if and only if the halfword is not one of two kinds of rejected hints. |
| `Expansion.CompressedStep` | emulator/src/cpu/rv_cpu.c:47-97 | In every hart state the step performs that operation with pc advanced by two. |
| `Expansion.RejectedHintsDoNothing` | emulator/src/cpu/rv_decompress.c:137 | The rejected hints raise illegal-instruction traps where the manual's operation would only advance pc. |
| `Expansion.LinkIsNextHalfword` | emulator/src/cpu/rv_impl/base.c:194-203 | A compressed jump to a register links the address two bytes after itself. |
| `Expansion.ShiftAmountSurvives` | emulator/src/cpu/rv_decompress.c:150-154 | The marker bit of an expanded arithmetic shift does not disturb its amount. |
| `Expansion.JalrStep` | emulator/src/cpu/rv_cpu.c:47-97 | For every halfword that is a C.JALR the step jumps to its register with bit 0 cleared and links x1 to the address two bytes on. |
| `Expansion.MvStep` | emulator/src/cpu/rv_cpu.c:47-97 | For every C.MV the step copies the second register into the first and advances pc by two. |
| `Expansion.LiStep` | emulator/src/cpu/rv_cpu.c:47-97 | For every C.LI the step loads the sign-extended immediate and advances pc by two. |
| `Step.Execute` | emulator/src/cpu/rv_cpu.c:18-42 | The handlers' field updates on a hart equal the specified effect of the decoded operation. |
| `Step.StepHalfword` | emulator/src/cpu/rv_cpu.c:62-73 | Expansion, epc and pc updates and dispatch on a hart equal the specified step. |
| `ExecMeaning.WideExactly` | emulator/src/cpu/rv_impl/base.c:21-86 | The 64-bit operations are sum, difference, comparisons, bitwise operations and shifts of the operands as numbers. |
| `ExecMeaning.NarrowExactly` | emulator/src/cpu/rv_impl/base.c:21-86 | The 32-bit ones are those of the low halves, sign-extended. |
| `ExecMeaning.AluExactly` | emulator/src/cpu/rv_impl/base.c:21-86 | An integer operation reads the register or immediate it names, writes that result to rd unless rd is x0, and changes nothing else. |
| `ExecMeaning.RegisterNumber` | emulator/include/cpu/rv_insn.h:70-76 | The register a field names is the field's own number. |
| `ExecMeaning.UpperExactly` | emulator/src/cpu/rv_impl/base.c:206-215 | LUI writes its immediate, AUIPC its own address plus it. |
| `ExecMeaning.JalExactly` | emulator/src/cpu/rv_impl/base.c:177-191 | JAL links the address after it and goes to its own address plus the offset. |
| `ExecMeaning.JalrExactly` | emulator/src/cpu/rv_impl/base.c:194-203 | JALR goes to the register plus the offset, read before the link is written, with bit 0 cleared. |
| `ExecMeaning.BranchExactly` | emulator/src/cpu/rv_impl/base.c:349-378 | A branch goes to its own address plus the offset if and only if its comparison holds; funct3 2 and 3 are illegal. |
| `ExecMeaning.LoadExactly` | emulator/src/cpu/rv_impl/base.c:89-143 | A load asks for the register plus the offset modulo 2^64. |
| `ExecMeaning.StoreExactly` | emulator/src/cpu/rv_impl/base.c:146-174 | So does a store. |
| `ExecMeaning.RaisedExactly` | emulator/src/cpu/rv_privileged.c:68-78 | An exception of an instruction enters the trap with its cause, return address and value. |
| `ExecMeaning.KnownOperations` | emulator/src/cpu/rv_cpu.c:18-42 | Words of the assembler's decode to the operations, registers and immediates they spell. |
| `ExecMeaning.KnownKinds` | emulator/src/cpu/rv_cpu.c:18-42 | So do the seven other register operations. |
| `ExecMeaning.KnownAccesses` | emulator/src/cpu/rv_cpu.c:18-42 | And a load and a store. |
| `ExecMeaning.KnownUppers` | emulator/src/cpu/rv_cpu.c:18-42 | And LUI and AUIPC. |
| `ExecMeaning.KnownJumps` | emulator/src/cpu/rv_cpu.c:18-42 | And jumps, a branch and EBREAK. |
| `MulDiv.TruncatedIsUnique` | emulator/src/cpu/rv_impl/muldiv.c:61-91 | Exactness, remainder bound and remainder sign determine quotient and remainder. |
| `MulDiv.SignedDivision` | emulator/src/cpu/rv_impl/muldiv.c:61-91 | DIV, REM and their W forms give that quotient and remainder, -1 and the dividend for a zero divisor, the dividend and 0 on overflow. |
| `MulDiv.UnsignedDivision` | emulator/src/cpu/rv_impl/muldiv.c:73-99 | DIVU, REMU and their W forms: exact with remainder below the divisor, all ones and the dividend for a zero divisor. |
| `MulDiv.DivRemRebuild` | emulator/src/cpu/rv_impl/muldiv.c:61-91 | DIV * rs2 + REM equals rs1 modulo the width for all operands. |
| `MulDiv.DivuRemuRebuild` | emulator/src/cpu/rv_impl/muldiv.c:73-99 | The same for the unsigned forms. |
| `MulDiv.SignedProduct` | emulator/src/cpu/rv_impl/muldiv.c:39-47 | MULH and MUL join to the exact 128-bit signed product. |
| `MulDiv.MixedProduct` | emulator/src/cpu/rv_impl/muldiv.c:49-53 | MULHSU and MUL join to the exact mixed product. |
| `MulDiv.UnsignedProduct` | emulator/src/cpu/rv_impl/muldiv.c:55-59 | MULHU and MUL join to the exact unsigned product. |
| `MulDiv.NarrowProduct` | emulator/src/cpu/rv_impl/muldiv.c:39-41 | MULW is the sign-extended low half of the product. |

## Left out

- TlbProofs.TlbRefinesWalk: a run ends with an eviction that writes past the entry array, because what the C program does
  then is not defined; `TlbRuns.LookupOverrunsExactly` says when that is.
- TlbProofs.StepOk: the rewriting of a page-table word and the fences of all harts that follow it are one step, so a
  translation between them is not covered.
- TlbShootdown.SmallPageShootdown: asks that the word serves one page; for superpages the condition is
  `TlbShootdown.ShootdownExactly`.
- HartIsolation.LevelsStayLegal: assumes no write of the reserved MPP value by M-mode, since the code then does reach the
  reserved level, as `HartIsolation.ReservedLevelReached` shows; `HartIsolation.AlwaysLegalExactly` has both directions.
- Plic.Device.RaiseSource: says nothing beyond the write of source 64, which lies past the array, and the scans stop at 63.
- PlicProofs.ClaimsNeverExceedRaises: runs that raise source 64 are left out, as above.
- Atomics.Machine.AtomicOp: the two translations of an instruction are inputs (a cell or a fault) rather than calls into the
  page walk, so A/D writes during an atomic instruction are not part of it; that both name one frame is
  `TlbProofs.AmoHalvesAgree`. Memory is 32-bit words, not bytes.
- AtomicsProofs.InterleavingsAreSerial: plain stores by other harts to the cells of an instruction in flight are excluded,
  as the emulator's design notes exclude them.
- Step.StepHalfword: covers compressed instructions after their fetch; loads, stores and the instructions handled elsewhere
  are returned as effects still to be carried out, and the interrupt check that ends a step is `Privileged.TakeInterrupt`.
- Ram.Machine.MisalignedPass: with one region the data pointer that the C loop fails to advance does not matter; accesses
  that span two regions are not modelled.
- Ram.Machine.AccessPartial: the PMP check that precedes it is skipped on every call the core makes and is left out.
- CsrAccess.WriteCsr: the compare-and-swap loops on the pending register are single assignments.
- Step.Execute: loads, stores and the instructions handled elsewhere are returned as effects.
- BaseSystem.ExecuteSystem: takes the extracted fields of a SYSTEM word instead of the word.
- MMIO dispatch between devices and page tables read from MMIO.
- Floating point (rv_impl/float.c): depends on the host's floating-point environment and a library.
- Thread creation, memory orders, races between CLINT writers: runs are interleavings of whole steps, or of the atomics'
  micro-steps.
- Fences, pause and wfi hints, CSR names: nothing hard to state.
- The command-line program, its loader and build files.
