# Verified models of an RV64GC emulator

The emulator runs RISC-V guests by interpreting decoded instructions and by
compiling hot blocks to x86-64 code that is cached, chained and invalidated
when the guest rewrites its own text. This project models its cores in Dafny
and proves what they promise.

* **The block compiler** (`Words`, `Guest`, `Host`, `Translators`, `AluCode`,
  `MulCode`, `InlineTlb`, `RegisterCache`, `Outcomes`, `AluEmission`,
  `MemEmission`, `ExitEmission`, `Emitter`, `Blocks`). `Guest` holds the
  interpreter handlers, the reference semantics. `Host` gives meaning to the
  host operations the emitter uses, as a left fold over registers, flags, GPR
  memory, RAM and the hart context. `Emitter.BlockEmitter` is the emitter with
  its six-register cache. `Blocks.Compile` compiles a stream and promises that,
  from every state of every environment it suits (its mode and flags, and with
  translation off no live TLB entry that leads elsewhere), the block leaves
  through a chain exit after n instructions, or through a miss stub before
  instruction n, with exactly the interpreter's registers, memory and pc, and n
  charged to the budget.
* **Chains** (`Chains`): one epoch stamp for three keys, hops through private
  links and the jump cache, and whole chains as interpreter steps.
* **The code cache** (`CodeCache`): SMC epochs, page marks, arenas, lookup,
  salvage and install.
* **The pieces together** (`Decoding`, `DecodeTables`, `Fetching`, `CodeSafety`,
  `WholeRuns`, `StaleHops`, `SalvageMarks`). `Decoding` reads instruction words,
  `DecodeTables` shows that the decoder's tables read them the same way, and
  `Fetching` reads the text of an address space through the Sv39 walk.
  `CodeSafety` shows that what a chain writes never makes a cached block stale,
  because every run of the MMU keeps W^X. `WholeRuns.Runner` holds the code
  cache, the MMU and the chain and drives dispatches, chains, stores and fences:
  while page tables change only together with a full SFENCE.VMA, every chain is
  the interpreter on what memory holds. `Fetching.FaithfulExactly` states the
  exact condition on installed blocks for this, and `StaleHops` is a run in
  which an address fence leaves it broken.
* **Address translation** (`TlbEntries`, `PageMarks`, `Tlbs`, `Paging`, `Mmus`):
  the Sv39 walk of section 4.3.2 of the RISC-V Privileged Architecture (20211203), the
  direct-mapped TLB in front of it, the writable-page census and W^X.
* **Decoder tables and block running** (`BitExtract`, `Decoder`, `BlockRunner`).
* **Devices and firmware tables**: the PLIC (`Plics`), the split virtqueue of
  section 2.6 of VirtIO 1.1 (`Virtqueues`), and the device-tree serializer with
  a parser for sections 5.4 and 5.5 of the Devicetree Specification v0.4 (`Fdt`,
  `FdtWriter`).

Machine words are integers in 0 .. 2^64 - 1 with wrap-around written out, and
bitwise operators are defined bit by bit. Counters that only ever grow (the SMC
epoch, the arena generation, the chain epoch) are unbounded; the TLB generation
is a word and its flushes require that it does not wrap.

Where the code and its own comments disagree, the model follows the code:

* `note_exec` is described as flushing whenever a wide mapping prevents a proof
  that the page is clean (include/tlb.hpp:213-217). The code skips the flush
  (include/tlb.hpp:135). `Tlbs.WideMappingSurvives` shows the surviving entry
  and `Tlbs.Tlb.NoteExec` states exactly when the page ends up uncovered.
* A stamp with the current chain epoch is described as exactly as valid as
  checking the three keys (include/jit/rvjit_ctx.hpp:84-87). It is stricter:
  `Chains.StampIsStricter` and `Chains.SameEpochExactly`.
* Claiming or completing a PLIC source recomputes one context, so another
  context's line may stay raised with nothing to claim: `Plics.SpuriousLine`
  and `Plics.OtherLineExactly`. The bound checks admit one source more than the
  pending words hold when the maximum is a multiple of 32:
  `Plics.LastSourceExactly`.
* Completing a PLIC source clears its pending bit once more, so a request raised
  between claim and complete is dropped. `Plics.Plic.Complete` states exactly
  which requests go and `Plics.LateRequestIsDropped` is such a run.
* The SMC check of a store looks at its first page only, and a store that
  crosses a page is split only while satp selects a paging mode
  (src/mmio.cpp:34-36). `CodeCache.CrossingStoreIsMissed` is a run in which
  lookup hands out stale text; `CodeCache.StoreSafeExactly` states exactly which
  stores are safe.
* A fence by address or ASID is said to need no new epoch, because the checks
  baked into every block see the removed entries (src/sets/priv.cpp:103-109).
  They guard data accesses; no hop translates the pc. Generation, epoch and ASID
  stay as they are, so the chain keys still match (src/block.cpp:339-345).
  `StaleHops.HopAfterAddressFence` is a run in which a hop enters the block of
  the page mapped before; `Fetching.FaithfulExactly` states exactly when no hop
  can, and `WholeRuns.Runner.Remap` that a full fence always restores it.
* Salvage marks the page of a revived block (src/jit/rvjit.cpp:232-242) without
  the note_exec that compile makes (src/jit/rvjit.cpp:440-454).
  `SalvageMarks.SalvageLeavesStores` is a run in which a store still hits the
  page; `Tlbs.MarkExactly` states exactly when W^X holds.
* The interpreter skips the TLB when translation is off, because entries filled
  under translation may be live (include/mmu.inl:34-35); entering machine mode
  flushes nothing, and the flush on a satp write is never reached, since satp
  already holds the new value where it is compared (src/hart.cpp:273-282). The
  inline check asks only whether the entry is live.
  `MemEmission.StaleEntryMisleads` is a load that reads another byte than its
  handler; `InlineTlb.HandlerAgreesExactly` and `InlineTlb.CoherentExactly` state
  exactly when code and handler agree.

## Model

| member | source | states |
|---|---|---|
| Guest.HandleShape | src/sets/rv64i.cpp:30-488 | a handler that completes keeps the size of RAM and leaves x0 zero |
| Translators.TranslatedOk | src/jit/arch/x86_64/rv64c.cpp:28-246 | every translator meets the emitter's demands: a destination other than x0 for register forms, immediates that fit a sign-extended 32-bit field |
| Translators.TranslatedMatchesHandler | src/jit/arch/x86_64/rv64i.cpp:28-273 | what a translator asks the emitter for is what the handler does, for every registered RV64I, M and C instruction and every state |
| AluCode.RFullComputes | src/jit/arch/x86_64/emit.cpp:621-845 | for every operation and every aliasing of rd, rs1, rs2 and x0 the code leaves the handler's value in the destination and disturbs nothing else |
| AluCode.IFullComputes | src/jit/arch/x86_64/emit.cpp:1121-1232 | the same for immediate forms |
| AluCode.PcRelativeComputes | src/jit/arch/x86_64/emit.cpp:1233-1252 | AUIPC from the run-time entry pc gives pc + imm without overflowing the 32-bit immediate |
| MulCode.MixedHigh | src/jit/arch/x86_64/emit.cpp:947-972 | the unsigned high word less the multiplier when the multiplicand is negative is the high word of the mixed product |
| MulCode.NoDivisorComputes | src/jit/arch/x86_64/emit.cpp:855-884 | the x0-divisor shortcuts give the handler's value, REMUW's full rs1 included |
| MulCode.MCodeComputes | src/jit/arch/x86_64/emit.cpp:899-1119 | multiply, divide and remainder code gives the handler's value for every operand pair, and no emitted divide faults |
| InlineTlb.CheckRefinesLookup | src/jit/arch/x86_64/emit.cpp:101-163 | the check passes for exactly the accesses `Passes` describes; then TLB::lookup with the same ASID, mode, MXR and SUM succeeds and the register holds the host address of that RAM byte, the access inside the page; otherwise it leaves through one of its own sites with only scratch registers changed |
| InlineTlb.HandlerAgreesExactly | include/mmu.inl:34-53 | where the check passes, the handler reaches the byte lookup answers exactly if translation is on or the indexed entry maps its page to itself |
| InlineTlb.CoherentExactly | include/mmu.inl:34-53 | code and handler reach the same byte for every address, width and direction exactly in the coherent environments |
| RegisterCache.SixIsAll | src/jit/arch/x86_64/emit.cpp:442-455 | six dirty registers fill the six slots, so stopping the snapshot at six loses none |
| RegisterCache.CommitRestores | src/jit/arch/x86_64/emit.cpp:411-416 | storing the snapshot brings all of GPR memory up to date and leaves x0's cell alone |
| Emitter.BlockEmitter.FreeSlot | src/jit/arch/x86_64/emit.cpp:176-211 | a free slot, else a clean unprotected one, else a dirty unprotected one spilled first; protected operands are never evicted |
| Emitter.BlockEmitter.HregForRead | src/jit/arch/x86_64/emit.cpp:218-232 | the register is cached afterwards, the appended code preserves every guest value, the kept operand stays |
| Emitter.BlockEmitter.HregForWrite | src/jit/arch/x86_64/emit.cpp:234-244 | a slot for a new value; every other guest value is preserved and both kept operands stay |
| Emitter.BlockEmitter.FlushGuest | src/jit/arch/x86_64/emit.cpp:246-254 | writes one register back and preserves every guest value |
| Emitter.BlockEmitter.FlushAll | src/jit/arch/x86_64/emit.cpp:256-260 | no register is dirty afterwards, slots stay, values are preserved |
| Emitter.BlockEmitter.EmitR | src/jit/arch/x86_64/emit.cpp:621-845 | the appended code implements the instruction from every machine the register cache describes |
| Emitter.BlockEmitter.EmitI | src/jit/arch/x86_64/emit.cpp:1121-1232 | as EmitR, for immediate forms |
| Emitter.BlockEmitter.EmitU | src/jit/arch/x86_64/emit.cpp:1233-1252 | as EmitR, for LUI and AUIPC |
| Emitter.BlockEmitter.EmitM | src/jit/arch/x86_64/emit.cpp:847-1119 | as EmitR, for multiply and divide |
| Emitter.BlockEmitter.SnapshotDirty | src/jit/arch/x86_64/emit.cpp:442-455 | the list is exactly the dirty registers with their slots |
| Emitter.BlockEmitter.PushMiss | src/jit/arch/x86_64/emit.cpp:430-440 | records the instruction, the bytes before it and the dirty registers |
| Emitter.BlockEmitter.EmitTlbChecks | src/jit/arch/x86_64/emit.cpp:101-163 | appends the inline check; all its sites carry this instruction's snapshot |
| Emitter.BlockEmitter.EmitProbe | src/jit/arch/x86_64/emit.cpp:313-323 | a load into x0 keeps its miss behaviour and changes no register |
| Emitter.BlockEmitter.EmitLoad | src/jit/arch/x86_64/emit.cpp:304-356 | the load, or a miss from which the registers before it are recovered |
| Emitter.BlockEmitter.EmitStore | src/jit/arch/x86_64/emit.cpp:358-388 | the store, or a miss with memory and registers as before it |
| MemEmission.AccessStage | src/jit/arch/x86_64/emit.cpp:318-330 | after address computation and check: missed precisely, or at the host address of the interpreter's byte |
| MemEmission.LoadImplements | src/jit/arch/x86_64/emit.cpp:324-355 | the emitted load implements the load action, misses precise for every spill pattern |
| MemEmission.StoreImplements | src/jit/arch/x86_64/emit.cpp:365-387 | the emitted store implements the store action |
| MemEmission.LoadReadsLookup | src/jit/arch/x86_64/emit.cpp:324-355 | in any environment, coherent or not, a load that passes its check reads the RAM bytes of the address lookup answers |
| MemEmission.StaleEntryMisleads | src/jit/arch/x86_64/emit.cpp:101-163 | a machine-mode environment with a live Sv39 entry in which the emitted load gives 0 and the handler 1 |
| ExitEmission.TailLeaves | src/jit/arch/x86_64/emit.cpp:44-73 | from flushed registers with the exit pc in RAX, the tail leaves through its link with every register and all of RAM committed, both pcs set and the count charged |
| Emitter.BlockEmitter.EmitBlockExit | src/jit/arch/x86_64/emit.cpp:457-466 | flushes and leaves at entry plus delta |
| Emitter.BlockEmitter.EmitBlockExitRax | src/jit/arch/x86_64/emit.cpp:468-473 | flushes and leaves at the pc in RAX |
| Emitter.BlockEmitter.EmitCondExit | src/jit/arch/x86_64/emit.cpp:503-582 | both branch forms implement the branch; the superblock form goes on inline, the final form never falls off its end; exits never exceed six |
| ExitEmission.SuperImplements | src/jit/arch/x86_64/emit.cpp:518-538 | taken side leaves, fall-through continues with the same register image, a misaligned target is a precise miss |
| ExitEmission.FinalImplements | src/jit/arch/x86_64/emit.cpp:540-552 | both sides leave with the interpreter's state |
| Emitter.BlockEmitter.EmitJump | src/jit/arch/x86_64/emit.cpp:584-619 | JAL and JALR with link, rs1 aliasing link included, or a precise miss on a misaligned target |
| ExitEmission.JumpImplements | src/jit/arch/x86_64/emit.cpp:588-618 | the jump's code leaves at the handler's target with the link committed |
| Emitter.BlockEmitter.EmitAction | src/jit/arch/x86_64/rv64i.cpp:28-60 | whatever a translator asks for is implemented, and the emitter stays ready or has closed the block |
| Blocks.EmitMissStubs | src/jit/arch/x86_64/emit.cpp:390-428 | every miss site jumps to a stub built from its own snapshot although one stub serves all sites of an instruction |
| Blocks.StubRuns | src/jit/arch/x86_64/emit.cpp:411-427 | a stub stores the listed registers, sets exit_pc to entry plus the bytes and charges the instruction count |
| Blocks.SimulatesStep | src/jit/rvjit.cpp:320-358 | appending an instruction's code to a block that simulates a prefix simulates the longer prefix, earlier exits and misses included |
| Blocks.FinishedCorrect | src/jit/rvjit.cpp:368-374 | a finished block with its stubs is correct at every exit and every miss |
| Blocks.CompileOne | src/jit/rvjit.cpp:345-357 | emitting one more instruction keeps the whole simulation: the code for prog + [d] meets the handlers' run of prog + [d] at every exit and miss, and either stays open or is closed for good |
| Blocks.Compile | src/jit/rvjit.cpp:304-375 | in every environment the block suits, it runs n instructions of the stream exactly as the handlers do, each fetched at its own pc, at every chain exit and every miss, with at most six exits and 128 instructions |
| Chains.SameEpochExactly | src/block.cpp:339-345 | two dispatches share a chain epoch exactly when no dispatch between them saw another key |
| Chains.StampIsStricter | include/jit/rvjit_ctx.hpp:83-92 | after a change of key and back, an old stamp is refused although all three keys are equal |
| Chains.ModeKeyInjective | src/block.cpp:215-217 | comparing mode keys compares mode, MXR and SUM |
| Chains.HartChain.Dispatch | src/block.cpp:339-361 | folds the keys into the epoch and installs the block, keeping every current stamp backed by an install |
| Chains.HartChain.Hop | src/jit/rvjit.cpp:82-138 | a hop through a private link or the jump cache enters only a block installed for that pc, mode and key, and restamps the link |
| Chains.ReachesInterprets | src/hart.cpp:103-142 | the first n instructions of a block that fits the text are n interpreter steps fetching by pc |
| Chains.AfterBlock | src/block.cpp:364-372 | one more block extends the run by the instructions it charges |
| Chains.HartChain.RunChain | src/block.cpp:351-388 | a whole chain terminates, equals as many interpreter steps as the budget it released, releases at most 0x3000 + 128, and releases 0 only with the pc unmoved |
| CodeCache.MarkedSound | include/self_mod.hpp:36-57 | growing page marks keeps every current block live |
| CodeCache.BumpedSound | src/jit/rvjit.cpp:456-459 | a new epoch makes the cache sound whatever else changed |
| CodeCache.DroppedSound | include/self_mod.hpp:66-67 | dropping a stale mark keeps every current block live |
| CodeCache.WroteSound | include/self_mod.hpp:59-70 | memory written off the watched pages keeps every current block live |
| CodeCache.StoreSafeExactly | src/mmio.cpp:214-244 | a store of at most 8 bytes, on one page or across two, leaves every sound cache sound exactly unless its first page is not watched, the second is, and a byte there changes |
| CodeCache.CrossingStoreIsMissed | src/mmio.cpp:34-66 | a concrete run: code compiled on a page, a store from the page before, and lookup returns text memory no longer holds |
| CodeCache.ReleasedDead | src/jit/rvjit.cpp:31-61 | once the arenas are released at a new epoch, nothing installed or handed out before is current or live |
| CodeCache.JitContext.MarkPageExecuted | include/self_mod.hpp:36-42 | marks the page and no other |
| CodeCache.JitContext.MarkPageCode | include/self_mod.hpp:44-57 | records the epoch, re-arms the mark, leaves other pages alone |
| CodeCache.JitContext.SmcStoreHit | include/self_mod.hpp:59-70 | a new epoch exactly if the page hosts current code, else no mark is left; the cache stays sound |
| CodeCache.JitContext.StoreChecked | src/mmio.cpp:214-244 | the first page is reported and exactly the store's bytes are written, crossing or not; every current block still matches memory unless the store is overlooked |
| CodeCache.JitContext.StoreDirect | src/jit/arch/x86_64/emit.cpp:371-387 | the same for a store that bypasses the check, on an unmarked page |
| CodeCache.JitContext.ArenaAlloc | src/jit/rvjit.cpp:31-51 | an aligned chunk inside an arena, after the previous ones; epoch and arena generation move together or not at all |
| CodeCache.JitContext.Lookup | src/jit/rvjit.cpp:149-170 | a hit exactly if a way has the key at this epoch; the code's text equals memory now, its pages are watched and its arena is live |
| CodeCache.JitContext.MarkPages | src/jit/rvjit.cpp:440-454 | every page of the block is marked with the current epoch |
| CodeCache.JitContext.Salvage | src/jit/rvjit.cpp:210-250 | revives exactly when a stale way's code still exists and its text is back; what it returns is live |
| CodeCache.JitContext.Victim | src/jit/rvjit.cpp:400-416 | the first free way, else the first of those hit least |
| CodeCache.JitContext.Compile | src/jit/rvjit.cpp:291-437 | the installed block is live, keyed at the current epoch and found in its bucket, even if allocation released every arena |
| CodeCache.JitContext.Handle | src/block.cpp:300-324 | one event of any run keeps the cache sound |
| CodeCache.JitContext.Drive | src/block.cpp:300-324 | over any run of lookups, salvages, compiles, invalidations, marks and stores that are not overlooked, every block handed out matched memory and lay in a live arena |
| CodeSafety.StoreOffCode | src/tlb.cpp:82-107 | a store that hits a W^X TLB changes only bytes on pages without the executed mark |
| CodeSafety.RunOffCode | src/tlb.cpp:82-107 | so does any number of interpreter steps |
| CodeSafety.GuardedProtects | src/tlb.cpp:82-107 | an MMU whose run kept its guard leaves no store path to an executed page |
| CodeSafety.ProtectedRun | src/tlb.cpp:70-110 | from an empty TLB, every run of translations through leaves up to 2 MiB, fences, marks and cleared marks ends protected unless a page has had more than 255 writable entries since the last full flush |
| CodeSafety.ChainKeepsCacheSound | src/jit/rvjit.cpp:440-454 | after a chain every block keyed at the current epoch still matches memory, by the invariant every MMU run keeps |
| CodeSafety.BareKeepsPlain | include/mmu.inl:36-50 | the entries machine mode and a bare satp seed keep every live entry an identity entry |
| CodeSafety.PlainIsCoherent | include/mmu.inl:36-50 | with translation on, or with identity entries only, an environment is coherent |
| Decoding.DecodeExactly | src/sets/rv64i.cpp:522-578 | a word decodes to exactly the instruction whose registered fixed bits it carries, the more specific of two overlapping patterns winning |
| DecodeTables.WideMatches | src/sets/rv64i.cpp:522-578 | a 32-bit word matches a registered mask and value exactly if it carries the fields |
| DecodeTables.NarrowMatches | src/sets/rv64c.cpp:359-392 | the same for 16-bit words |
| DecodeTables.Hashed | src/decode.cpp:150-156 | the hash sees all that a 32-bit encoding fixes |
| DecodeTables.Overlap | src/sets/rv64c.cpp:359-392 | a compressed word that matches an encoding decodes to it or to one with more fixed bits; only C.EBREAK takes a word from them |
| DecodeTables.TablesDecode | src/decode.cpp:25-65 | with tables built from the registered encodings and any further patterns that leave those words alone, decode_inst_slow picks for every 32-bit word the handler of the instruction it decodes to, or none of them |
| DecodeTables.ApartIsClear | src/decode.cpp:150-156 | a further pattern leaves them alone if it differs from each of theirs on a hashed bit both fix |
| DecodeTables.Init | src/decode.cpp:123-185 | registering RV64I, M and C, in any order, and building the tables gives such a decoder |
| Fetching.DecodeStream | src/jit/rvjit.cpp:320-358 | the stream is exactly the text's instructions up to the limit or the first that cannot be taken |
| Fetching.WalkIsPaged | include/mmu.inl:92-160 | the Sv39 walk for instruction fetch moves with the pc inside a page, at all three sizes |
| Fetching.FitsExactly | src/jit/rvjit.cpp:314-345 | a block's instructions are what the address space holds from its pc on exactly if the address space shows there the text the block was decoded from |
| Fetching.FaithfulExactly | src/block.cpp:339-365 | every block a hop may enter was compiled from what the address space holds now exactly if every pc installed under the present keys still leads to the text its block was made from |
| WholeRuns.CompileUnit | src/jit/rvjit.cpp:291-437 | the unit is correct code for the instructions of the text the cache keeps and hands out |
| WholeRuns.FreshStands | src/sets/priv.cpp:103-111 | after a later generation or epoch no install is current, so whatever the tables, none is stale |
| WholeRuns.StandingShown | src/block.cpp:339-365 | in a sound cache, installs whose pc still walks to where their code was made meet the condition for faithful chains |
| WholeRuns.Runner.Recall | src/block.cpp:305 | what lookup returns for a physical pc comes with the unit compiled from its text |
| WholeRuns.Runner.Build | src/jit/rvjit.cpp:291-437 | a block compiled now is marked and noted; fails only where memory holds no instruction; every install still stands |
| WholeRuns.Runner.Dispatch | src/block.cpp:300-365 | translates, finds or compiles, installs; fails only if the pc does not walk or holds no instruction; every install of the present keys walks to its text |
| WholeRuns.Runner.RunGuestChain | src/block.cpp:351-388 | under that exact condition, on the MMU's own walk, a chain equals as many interpreter steps on the instructions memory holds as the budget it releases, and leaves the cache sound for the memory it leaves |
| WholeRuns.Runner.Execute | src/block.cpp:300-388 | dispatch and chain keep the runner's invariant; the chain is exact, or the pc unrunnable |
| WholeRuns.Runner.Store | src/mmio.cpp:214-244 | the interpreter's store keeps the invariant and writes its bytes |
| WholeRuns.Runner.Fence | src/sets/priv.cpp:93-111 | every form of SFENCE.VMA keeps the invariant while the tables stay |
| WholeRuns.Runner.Remap | src/sets/priv.cpp:93-111 | new tables and a full fence establish the invariant, whatever the TLB held and however stale the installs were |
| WholeRuns.Runner.Run | src/block.cpp:175-388 | over any run of dispatches, stores, translations, fences and new tables each followed by a full fence, every chain is exactly its interpreter steps on the instructions memory held then, and memory is what chains and stores made of it; it stops early only at a dispatch with a saturated credit |
| StaleHops.HopAfterAddressFence | src/sets/priv.cpp:93-111 | a concrete run: a block is installed, its page's leaf is changed, the address is fenced; the keys are unchanged, the next hop enters the block, and the address space holds another instruction; the state is one that `Runner.Remap` restores |
| SalvageMarks.SalvageLeavesStores | src/jit/rvjit.cpp:210-250 | a concrete run: compile, invalidate, a store of the same byte, a writable TLB entry, salvage; the page is marked and a store lookup still hits it |
| Tlbs.HitLands | include/tlb.hpp:201 | a hit in a 4 KiB or 2 MiB entry lands in the one 4 KiB page its slot stands for |
| Tlbs.NoStoreHit | src/tlb.cpp:38-42 | under W^X no store hit, through any virtual alias, lands on an executed page |
| Tlbs.MarkExactly | src/jit/rvjit.cpp:232-242 | marking a page without note_exec keeps W^X exactly when no resident writable entry serves it |
| Tlbs.FilledOk | src/tlb.cpp:76-107 | the entry insert builds is well formed and not writable for an executed page |
| Tlbs.CensusStep | src/tlb.cpp:70-110 | replacing an entry keeps every credit equal to the number of covering writable entries |
| Tlbs.Tlb.AddWritable | include/tlb.hpp:222-238 | one credit for each covered page, saturating, or the oversized flag |
| Tlbs.Tlb.DropWritable | include/tlb.hpp:242-260 | one credit back for each covered page |
| Tlbs.OverflowsExactly | include/tlb.hpp:222-238 | a credit overflows exactly if a page would have more than 255 writable entries |
| Tlbs.Tlb.Insert | src/tlb.cpp:70-110 | the slot holds the filled entry; census and W^X are kept unless a credit has overflowed since the last full flush, which is recorded |
| Tlbs.Tlb.FlushAll | include/tlb.hpp:147-153 | nothing is resident, the census is exact again and no credit counts as overflowed |
| Tlbs.Tlb.FlushAddr | include/tlb.hpp:166-174 | exactly the fenced resident entries go; census and W^X are kept |
| Tlbs.Tlb.FlushAsid | include/tlb.hpp:178-186 | exactly the non-global entries of the ASID go; census and W^X are kept |
| Tlbs.Tlb.FlushAddrAsid | include/tlb.hpp:190-198 | exactly the slot's non-global entry of the ASID goes; census and W^X are kept |
| Tlbs.Tlb.NoteExec | include/tlb.hpp:132-142 | with an honest census the page ends up uncovered exactly if the oversized flag is clear or it was uncovered before |
| Tlbs.Tlb.MarkExecuted | src/jit/rvjit.cpp:440-454 | marking a page and noting it keeps the census exact and W^X with the new mark |
| Tlbs.WideMappingSurvives | include/tlb.hpp:132-142 | a concrete run: a 1 GiB writable mapping still covers the page after note_exec |
| Paging.SameFields | include/mmu.hpp:118-148 | entries that differ only in A and D have the same mapping fields |
| Paging.WriteBackKeepsWalks | include/mmu.inl:197-228 | an A/D write-back changes no walk's answer, for any root, address, access and mode |
| Paging.SamePageMapped | include/mmu.inl:92-160 | one leaf maps its whole page, at all three sizes |
| Paging.HitAgrees | src/tlb.cpp:24-68 | every TLB hit is the walk's physical address and never grants what the walk faults |
| Paging.FillAgrees | include/mmu.inl:230-260 | an entry filled from a leaf agrees with the walk for every address of its page and every address space it answers for |
| Mmus.Mmu.WalkTables | include/mmu.inl:89-149 | the walk loop terminates and finds the leaf the recursive definition finds |
| Mmus.Mmu.TranslateImpl | include/mmu.inl:73-261 | the miss path answers the walk, changes only A and D bits and keeps the TLB in agreement and guarded |
| Mmus.Mmu.FillTlb | include/mmu.inl:230-260 | filling a slot from a leaf keeps the TLB in agreement, and guarded unless the leaf is 1 GiB or a credit saturates |
| Mmus.Mmu.Translate | include/mmu.inl:25-63 | hit or miss, translation answers what a fresh walk answers |
| Mmus.Mmu.Fence | include/tlb.hpp:147-198 | SFENCE.VMA in its four forms removes exactly the fenced entries and keeps the TLB in agreement and guarded |
| Mmus.Mmu.Remap | src/sets/priv.cpp:93-94 | other tables and a full flush leave a TLB in agreement with them and guarded |
| Mmus.Mmu.Executing | src/jit/rvjit.cpp:440-454 | marking an executed page marks no other, and keeps the TLB in agreement, the census exact and W^X |
| Mmus.Mmu.Clearing | include/self_mod.hpp:59-70 | dropping a stale mark drops no other and keeps the guard |
| Mmus.GuardedStores | src/tlb.cpp:24-68 | under the guard no store hit reaches a marked page through any address, address space or mode |
| Mmus.Mmu.Run | include/mmu.inl:25-261 | over any run every answer is that of a fresh walk of the initial tables; without 1 GiB leaves and without a credit overflowed since the last full flush the census stays exact and no store hit can reach a marked page |
| BitExtract.SuffixIsParity | include/decode.hpp:44-48 | five xor-shifts compute the parity of all lower bits |
| BitExtract.NextMarkers | include/decode.hpp:53 | dropping odd markers halves every remaining distance |
| BitExtract.RoundPlaces | include/decode.hpp:49-52 | a round moves every selected bit by its next distance bit, and no two bits meet |
| BitExtract.PextU32 | include/decode.hpp:34-57 | the result is the bit-by-bit gather, for every word and mask |
| BitExtract.GatherInjective | include/decode.hpp:34-57 | equal results mean equal masked words |
| Decoder.NextBits | src/decode.cpp:182 | subtracting and masking gives the next subset in gather order |
| Decoder.NextGather | src/decode.cpp:182-183 | the enumeration visits the subsets in order and returns to zero after the last |
| Decoder.VisitStep | src/decode.cpp:160-180 | one visit serves exactly one table word |
| Decoder.AddPattern | src/decode.cpp:146-183 | offering one pattern to its subsets leaves every slot with its best pattern |
| Decoder.BuildLut | src/decode.cpp:144-185 | for every pattern list each slot holds the compatible pattern with the most fixed bits, the earliest on ties, or none; indices stay in the tables |
| Decoder.CompressedExact | src/decode.cpp:150-156 | for 16-bit words compatible on the hash means matching |
| Decoder.PextIsGather | include/decode.hpp:283-290 | the index pext computes is the gather of the word |
| BlockRunner.CompileBlock | src/block.cpp:123-173 | the block is the text from pc on, ends where the source says, and holds no instruction that writes x0 |
| BlockRunner.RunBlock | src/block.cpp:87-120 | running a block equals ticking its instructions, for any handlers of which only block-ending ones jump; a fault leaves the pc at the faulting instruction with the completed count and cause |
| BlockRunner.HandlersBehave | src/block.cpp:52-83 | the decoded handlers are of that kind: only block-ending instructions move the pc other than by their size, and failures leave it |
| BlockRunner.TicksInterpret | src/hart.cpp:103-142 | n ticks of the decoded handlers are n interpreter steps, stopping where they stop |
| BlockRunner.RunGuestBlock | src/block.cpp:87-120 | on the modelled handlers a block that completes is as many interpreter steps as it has instructions; at a failure those before it are and the next is not |
| BlockRunner.ControlEndsBlocks | src/block.cpp:52-83 | every control instruction's encoding ends a block |
| BlockRunner.OthersFallThrough | src/sets/rv64i.cpp:30-488 | every other modelled handler moves the pc by the instruction's size |
| Fdt.CellRoundTrip | src/libfdt.cpp:24-43 | a 32-bit cell reads back |
| Fdt.StructSizeExact | src/libfdt.cpp:253-271 | the precomputed structure size is what is written, wherever the strings land |
| Fdt.StringsSizeExact | src/libfdt.cpp:253-271 | likewise for the strings block |
| Fdt.RoundNode | src/libfdt.cpp:310-330 | parsing a node's blocks gives the node back |
| FdtWriter.Writer.SerTree | src/libfdt.cpp:310-330 | the two cursors write exactly the subtree's structure and names and stop where the sizes say |
| FdtWriter.Serialize | src/libfdt.cpp:342-381 | for NUL-free names and a size below 2^32 the buffer starts with the blob, the rest is untouched, and nothing is written if it does not fit |
| FdtWriter.RoundTrip | src/libfdt.cpp:342-381 | parsing the blob recovers the same tree for NUL-free names and sizes below 2^32 |
| Plics.Plic.FindHighest | src/devices/plic.cpp:253-287 | the source with the highest priority above the threshold, lowest id on ties, 0 exactly if none asks |
| Plics.Plic.UpdateContext | src/devices/plic.cpp:311-320 | the line is raised exactly if some source asks |
| Plics.Plic.UpdateAll | src/devices/plic.cpp:322-326 | every line is exact |
| Plics.Plic.SetPending | src/devices/plic.cpp:119-135 | done exactly if the source's bit exists; then the bit is set, no other, every line is exact and nothing but lines changed |
| Plics.Plic.Claim | src/devices/plic.cpp:289-300 | returns the best source and clears its bit; every context still asked for has its line raised |
| Plics.Plic.Complete | src/devices/plic.cpp:302-309 | drops a request exactly if the completed source's bit is pending, and no other; the context's line is exact |
| Plics.Plic.WritePriority | src/devices/plic.cpp:204-213 | stores the low 31 bits and makes every line exact |
| Plics.Plic.WriteEnable | src/devices/plic.cpp:219-231 | replaces the word and makes the context's line exact |
| Plics.Plic.WriteThreshold | src/devices/plic.cpp:239-244 | stores the low 31 bits and makes the context's line exact |
| Plics.Plic.Read | src/devices/plic.cpp:142-195 | each register reads its state; only the claim register has an effect |
| Plics.Plic.Write | src/devices/plic.cpp:197-251 | each register write changes its state and nothing else of that kind; every context asked for has its line raised |
| Plics.Plic.Drive | src/devices/plic.cpp:119-326 | over any run the registers are what the events make of them, reads are answered from them, and every context some source asks for has its line raised; it runs to the end exactly if every event is fine, and otherwise stops, in order, before the first that is not |
| Plics.FineExactly | src/devices/plic.cpp:38-44 | an event is fine unless the maximum is a multiple of 32 and the event raises, lowers or completes the last source |
| Plics.PickIsBest | src/devices/plic.cpp:253-287 | the scan's pick is the source with the highest priority above the threshold, lowest id on ties |
| Plics.OtherLineExactly | src/devices/plic.cpp:289-309 | after a claim another context's line is right exactly if the source was not its only one |
| Plics.SpuriousLine | src/devices/plic.cpp:289-300 | a run: two contexts enabled for one source, the first claims it, the second's line stays raised with nothing asking |
| Plics.LateRequestIsDropped | src/devices/plic.cpp:302-309 | a run: a source raised again between claim and complete is never handed out |
| Plics.LastSourceExactly | src/devices/plic.cpp:38-44 | every admitted source has a pending bit exactly if the maximum is not a multiple of 32 |
| Plics.WordRoundTrip | src/devices/plic.cpp:219-231 | a word written to an enable register reads back |
| Virtqueues.FollowExactly | src/devices/virtio/virtio_rng.cpp:102-127 | the bounded walk finds exactly the chains of at most queue-size descriptors |
| Virtqueues.LoopRefused | src/devices/virtio/virtio_rng.cpp:102-127 | a head from which the walk comes back to a descriptor is refused at every bound |
| Virtqueues.RefusedExactly | src/devices/virtio/virtio_rng.cpp:102-127 | a head is refused at every bound exactly if its walk reaches a cycle |
| Virtqueues.LaidOutSeparate | src/devices/virtio/virtio_rng.cpp:130-174 | a table and two rings apart from each other and from the buffers on offer, however tightly packed, are all a pass needs |
| Virtqueues.RngDevice.FetchChain | src/devices/virtio/virtio_rng.cpp:102-127 | returns that chain, or none |
| Virtqueues.RngDevice.FillChain | src/devices/virtio/virtio_rng.cpp:150-160 | writes only the chain's writable buffers and counts their bytes modulo 2^32 |
| Virtqueues.RngDevice.HandleEntry | src/devices/virtio/virtio_rng.cpp:138-173 | one entry is consumed, and served and published exactly if its chain is well formed |
| Virtqueues.RngDevice.ProcessQueue | src/devices/virtio/virtio_rng.cpp:130-174 | terminates across 16-bit wrap, consumes each entry once and publishes one element per well-formed chain, in order, with the bytes written |

## Left out

- F and D extensions, LR/SC and atomics, system instructions, CSRs and traps: the block compiler gives them to the interpreter, and floating point relies on the host.
- x86 byte encodings, jump displacements, the prologue and the code buffer's byte size: code is a sequence of abstract operations, and whether the buffer is full is an arbitrary answer at each question.
- Threads: one hart, so the spin lock of compile and the atomics are not modelled.
- The dispatch memo, hotness counters and give-up slots: dispatch goes through lookup, salvage and compile.
- CodeCache.JitContext.Compile: the recorded digest is the text itself, that is, the digest is taken as injective, and text outside RAM is not modelled.
- CodeCache.JitContext.Drive: an overlooked store, the one that breaks the cache, does not take place.
- CodeCache.JitContext.StoreDirect: requires the page's executed mark to be clear; `CodeSafety` derives this for compiled stores in Sv39 mode from W^X, not for Machine and Bare mode.
- Chains.HartChain.RunChain: takes as given that blocks installed under the present keys were compiled from what the address space holds; that fails after some address and ASID fences, as `Fetching.FaithfulExactly` states exactly. `WholeRuns.Runner` derives it while tables change only with a full fence.
- WholeRuns.Runner.Run: Supervisor and User mode with Sv39 and no 1 GiB leaf on an accessed address; page tables, and the root of an address space, change only together with a full fence; MPRV does not make data accesses differ from fetches; salvage is not a step, a store the SMC check overlooks does not take place, and a dispatch with a saturated credit ends the run.
- WholeRuns.Runner.RunGuestChain: translation is on; a chain in machine mode needs `Coherent` and its W^X is not derived.
- WholeRuns.Runner.Store: a store the SMC check overlooks does not take place.
- WholeRuns.CompileUnit: for a pc without current code; a cached block's unit is the one compiled for it.
- Blocks.Compile: says nothing of an environment with translation off in which a live entry maps an accessible page elsewhere; there it fails, as `InlineTlb.CoherentExactly` states. The stream offered is what fetching gave, up to one page; fetch failures only shorten it.
- Tlbs.Tlb.Insert: the census is stated until a page has had more than 255 writable entries, and again after the next full flush; W^X is stated for mappings up to 2 MiB.
- Mmus.Mmu.FillTlb: likewise.
- Tlbs.Tlb.FlushAll: requires fewer than 2^64 flushes.
- Mmus.Mmu.Run: Supervisor and User mode with Sv39 only; the identity entries of Machine and Bare mode are not mixed in, and guest stores do not change mapping bits.
- Pages whose mark salvage sets again, without note_exec: no step of `Mmus.Mmu.Run`.
- Plics.Plic.SetPending: what the code does past the end of the pending words, where it looks for the last of a multiple of 32 sources, is not modelled; the call is not done.
- Plics.Plic.Drive: likewise; the run stops before such an event.
- Plics.Plic.Complete: likewise.
- Plics.Plic.Write: likewise, when it completes a source.
- Virtqueues.RngDevice.ProcessQueue: requires that in one pass the used ring and the buffers the device fills overlap neither the available ring nor the descriptors the walks from the offered heads read; the random bytes themselves are arbitrary.
- Virtqueues.RngDevice.HandleEntry: likewise.
- BlockRunner.RunBlock: text and translations are fixed during the block and no interrupt is due.
- BlockRunner.RunGuestBlock: traps, page walks and device accesses count as failures at the instruction; the other instruction sets do not decode.
- Decoding.DecodeExactly: RV64I, RV64M and RV64C without their floating-point loads and stores; ECALL, EBREAK and FENCE do not decode.
- DecodeTables.Init: registers the three sets only; for the other sets `DecodeTables.TablesDecode` asks that none of their patterns can be looked up for a word that decodes here, which `DecodeTables.ApartIsClear` reduces to comparing masks. The masks are given by their fields, not read from the registration strings.
- Consoles, disks, USB, PCI, CLINT and display devices, file loading and argument parsing: register plumbing and I/O.
