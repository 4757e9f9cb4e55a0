# MSIM in Dafny

A model of the parts of MSIM, a simulator of MIPS R4000, RISC-V and SH-2E
machines, where a mistake would be hardest to see: address translation with
its buffers, physical memory with the caches and trackers that depend on it,
the devices that write memory by themselves, and interrupt delivery. Each part
is stated on values, where its laws are proved for every input or every run;
the parts that the simulator keeps in linked lists, tables, arrays or object
fields are also modelled as classes with loops, proved to do what the values
say.

## Parts

Address translation.

- `PageTable` is the level-recursive algorithm of section 4.3.2 of the RISC-V
  Privileged Architecture, stated once for any number of levels.
- `Sv32` and `Sv39` are the unrolled walks and their comparison with it.
- `Tlb` is the translation buffer as a sequence in order of use; `Transparency`
  relates one translation to a walk and `Translation` to the standard, from the
  mode of the hart to the name of the fault; `Retention` shows that the buffer
  remembers; `MmuRuns` does so for whole runs of
  machines with many harts; `CopiedGlobals` covers kernels that copy global
  mappings, and `Shootdown` kernels that edit tables first and fence later.
- `LinkedList`, `TlbHeap` and `Mmu` are the doubly linked lists, the buffer on
  them, and translation on the frame table; `Recency` shows that the order is
  least recent use.

Physical memory.

- `Memory` is a byte map with read-only frames and decode flags; `PhysMem` is
  the two-level frame table that refines it.
- `InstrCache` and `InstrCacheHeap` are the cache of decoded instructions;
  `ScTracker` tracks links and reservations; `LinkedMemory` joins memory and
  tracker.

Devices.

- `Dmac`, `DmacCopy` and `DmacDevice` are the SH-2E direct memory access
  controller: its reachable states, what a transfer does to memory, and the
  object. `DmacUnit` is one unit, `DmacRequests` transfers at the request of a
  peripheral, `DmacReload` is the source reload of channel 2, `DmacWitness` holds
  runs from power-on that break a promise.
- `Disk` and `DiskDevice` are the disk; `Cmt` is the compare-match timer.

Processors and text.

- `Status`, `Interrupts` and `InterruptCore` are RV32 traps and interrupts;
  `Traps` states them on single bits, which `Bits` defines. `R4kTlb` and
  `R4kTlbDevice` are the R4000 TLB, and `R4kMapping` says what it translates
  in terms of its registers. `NumberText` prints and reads numbers.

## Conventions

Registers are bit vectors, addresses and counts are natural numbers with their
wrap-around written out. The host is little-endian. Memory accesses by
processors and devices are naturally aligned unless a contract says otherwise.
An address without memory reads as all ones and ignores writes. Device
registers are addressed by offset and hold the value after byte swapping.
Clocks, timers and the content of files are parameters.

## Where the code and its documentation part

The model follows the code.

- The comment on the RV32 TLB lookup promises priority to megapages; it takes
  the most recently used match (`Tlb.PageBeforeMegapage`). In a coherent buffer
  the two cannot be told apart (`Transparency.PriorityIsMoot`).
- The Sv32 and Sv39 walks ignore the reserved bits of pointer entries, the
  Sv39 walk also bits 54 to 63 and non-canonical addresses
  (`Sv32.WalkIsStandardIff`, `Sv32.MarkedPointerFollowed`,
  `Sv39.WalkIsStandardIff`, `Sv39.ReservedIgnored`).
- A quiet translation caches accessed and dirty bits that memory does not have
  yet (`Transparency.QuietTranslation`, `CopiedGlobals.QuietLeavesStale`).
- MPRV governs fetches below M mode too (`Translation.AnswerIsStandardIff`,
  `Translation.MisgovernedDiffers`); no run gets there
  (`Translation.ReachableIsStandard`).
- An R4000 link is remembered by its exact address but compared by line, and a
  64-bit RISC-V reservation is tracked for four bytes
  (`ScTracker.HitSoundIff`, `ScTracker.UntrackableMissed`,
  `ScTracker.LinkMissed`).
- DMAC channel 2 reloads its source every four units whatever its RO bit says
  (`DmacWitness.RoClearIgnored`), and with RO set it reloads at the wrong units
  when a transfer starts with a counter left over from another
  (`DmacWitness.RoSetMissed`); `DmacReload.RoHonouredIff` is the exact
  condition.
- A DMAC burst with an even count runs past its end (`DmacCopy.BurstStopsIff`,
  `DmacWitness.BurstOverruns`), and disabling the channel being served by
  clearing its control register trips an assertion (`Dmac.CancelTrips`).
- Acknowledging a disk interrupt while the sector register is out of range
  raises it again (`Disk.AckSilencesIff`, `Disk.AckInterrupts`).
- WFI does not resume on an enabled interrupt that cannot be taken
  (`Interrupts.WakesIff`), and a write to `mip` drops pending machine
  interrupts (`Interrupts.MipWriteIff`, `Interrupts.MipDropsTimer`). A write to
  `sstatus` clears every field of `mstatus` that belongs to M mode
  (`Interrupts.SstatusWriteIff`, `Interrupts.SstatusDropsMie`).
- TSR and TVM stop SRET and SFENCE.VMA in M mode too, where the standard lets
  them through (`Traps.SretRefusedIff`, `Traps.SretRefusedInMachine`,
  `Tlb.SfenceRefusedIff`, `Tlb.SfenceRefusedInMachine`).
- The R4000 TLB drops bit 35 of a physical frame
  (`R4kTlb.PhysIsFrameAndOffsetIff`, `R4kTlb.TopPageMissed`), and MTC0 accepts
  values of Wired that leave wired entries exposed
  (`R4kTlb.RandomAboveWiredIff`, `R4kTlb.WiredOverwritten`).
- The hexadecimal prefix alone is read as 0 instead of being reported as an
  invalid number (`NumberText.BarePrefixIff`).
- The overflow test of the number parser misses some overflows, of digits and
  of suffixes; `NumberText.ReadDecimal` and `NumberText.ReadHex` say which
  (`NumberText.OverflowMissed`, `NumberText.SuffixOverflowMissed`).

## Model

| member | source | states |
|---|---|---|
| `Sv32.WalkIsReference` | src/device/cpu/riscv_rv32ima/cpu.c:188-241 | The unrolled two-level walk and the level-recursive algorithm of section 4.3.2 of the RISC-V Privileged Architecture agree for every memory, root and address: same page faults (misaligned megapages included), same leaf entry at the same address, same page size, same global flag. |
| `Sv32.PhysIsReference` | src/device/cpu/riscv_rv32ima/cpu.c:166-175 | For every leaf found, the physical address is that of step 8 of the standard: page number part from the entry, the rest from the virtual address. |
| `Sv32.AccessIsReference` | src/device/cpu/riscv_rv32ima/cpu.c:128-161 | The access check is step 6 of the standard for every entry, access kind, privilege, SUM and MXR, in both directions. |
| `Sv32.WalkIsStandardIff` | src/device/cpu/riscv_rv32ima/cpu.c:188-241 | Read strictly, with the reserved D, A and U bits of pointer entries faulting, the standard agrees with the walk if and only if the walk faults itself or the first entry has none of them set. |
| `Sv32.MarkedPointerFollowed` | src/device/cpu/riscv_rv32ima/cpu.c:188-241 | A concrete table whose pointer entry has its D bit set: the walk finds the page behind it, the strict standard faults. |
| `Sv32.WriteBack` | src/device/cpu/riscv_rv32ima/cpu.c:247-259 | After a leaf is written back with its accessed and dirty bits, every aligned word of memory is as before except the leaf itself, which gains exactly the bits of the access. |
| `Sv32.GrowthKeepsWalks` | src/device/cpu/riscv_rv32ima/cpu.c:247-259 | If words change only by growing accessed and dirty bits, every walk from every root for every address finds the same leaf, up to those bits, even when tables alias. |
| `Sv32.PagewalkGrows` | src/device/cpu/riscv_rv32ima/cpu.c:188-267 | A noisy walk changes memory only by growing accessed and dirty bits of aligned words; the shape of memory and its read-only frames stay. |
| `Sv32.PagewalkKeepsWalks` | src/device/cpu/riscv_rv32ima/cpu.c:188-267 | What a noisy walk does to memory never changes the outcome of any other walk, whatever tables share or alias the leaf. |
| `Sv39.WalkIsReference` | src/device/cpu/riscv_rv64ima/cpu.c:214-296 | The unrolled three-level walk is the level-recursive algorithm: same faults (misaligned gigapages and megapages included), leaf, size and global flag, for all tables and addresses. |
| `Sv39.PhysIsReference` | src/device/cpu/riscv_rv64ima/cpu.c:163-199 | The physical address of a page, megapage or gigapage is that of step 8. |
| `Sv39.AccessIsReference` | src/device/cpu/riscv_rv64ima/cpu.c:125-158 | The access check is step 6 for every entry, access kind, privilege and status bit. |
| `Sv39.WalkIsStandardIff` | src/device/cpu/riscv_rv64ima/cpu.c:214-296 | The walk finds what the strict standard finds if and only if it faults itself, or the address is canonical and no entry on the way has a reserved bit set: 54 to 63, and D, A and U of a pointer (the code checks none of these). |
| `Sv39.ReservedIgnored` | src/device/cpu/riscv_rv64ima/cpu.c:214-296 | A concrete table and two addresses: a gigapage entry with bit 63 set, and an address outside the 39-bit space, are translated where the strict standard faults. |
| `Tlb.FlushExactly` | src/device/cpu/riscv_rv32ima/tlb.c:143-224 | Each of the four flushes removes exactly its set of entries, with multiplicity: all; non-global of an ASID; every entry mapping an address, global ones included; non-global of an ASID mapping an address. |
| `Tlb.FlushKeepsOrder` | src/device/cpu/riscv_rv32ima/tlb.c:143-224 | Survivors of a flush keep their order of use: a flush distributes over any split of the buffer. |
| `Tlb.FlushedLookup` | src/device/cpu/riscv_rv32ima/tlb.c:77-105 | After a flush no lookup returns an entry the flush was to remove. |
| `Tlb.SparedLookup` | src/device/cpu/riscv_rv32ima/tlb.c:77-105 | A flush does not disturb a lookup whose entry it spares. |
| `Tlb.SfenceSelects` | src/device/cpu/riscv_rv32ima/instr.c:273-297 | From the operands: the fence is refused under TVM and in U mode, and else removes an entry if and only if (rs1 is x0 or its page or megapage contains the address) and (rs2 is x0 or it is not global and of the address space in the low nine bits). |
| `Tlb.SfenceRefusedIff` | src/device/cpu/riscv_rv32ima/instr.c:275-277 | The fence is refused as the standard asks if and only if it is not executed in M mode with TVM set, where the code refuses it too. |
| `Tlb.SfenceRefusedInMachine` | src/device/cpu/riscv_rv32ima/instr.c:275-277 | The full fence in M mode with TVM set is an illegal instruction. |
| `Tlb.PageBeforeMegapage` | src/device/cpu/riscv_rv32ima/tlb.c:74-105 | A page and a megapage that match the same address: whichever was used last is found, so megapages have no priority. |
| `Transparency.HitIsWalk` | src/device/cpu/riscv_rv32ima/cpu.c:316-319 | On a hit that needs no update, the walk would give the same physical address and write nothing. |
| `Transparency.DeniedIsWalk` | src/device/cpu/riscv_rv32ima/cpu.c:302-314 | On a hit whose access is denied, the walk would fault in the same way. |
| `Transparency.WalkKeepsCoherence` | src/device/cpu/riscv_rv32ima/cpu.c:261-266 | Filling the buffer after a walk keeps every buffer coherent: each entry equals the leaf the walk would find, its accessed and dirty bits at most lagging memory. |
| `Transparency.TranslationTransparent` | src/device/cpu/riscv_rv32ima/cpu.c:280-328 | One noisy translation through any coherent buffer yields the physical address, the fault and the memory of a translation without a buffer, and leaves the buffer coherent. |
| `Transparency.QuietTranslation` | src/device/cpu/riscv_rv32ima/cpu.c:256-264 | A quiet translation gives the same answer and no memory change; it leaves the buffer coherent if and only if no accessed or dirty bit was still to be recorded. |
| `Transparency.QuietAfterNoisy` | src/device/cpu/riscv_rv_ima/instructions/mem_ops.c:271-314 | After a noisy translation nothing is left to record, so the quiet translation that tracks a reservation is harmless and repeating the translation changes nothing. |
| `Transparency.MatchesAgree` | src/device/cpu/riscv_rv32ima/tlb.c:74-105 | In a coherent buffer all entries that match an address have one page size, scope, target and set of permissions. |
| `Transparency.PriorityIsMoot` | src/device/cpu/riscv_rv32ima/tlb.c:74-105 | So in a coherent buffer the match found is a megapage if and only if any match is: the priority the comment promises could not be observed. |
| `Translation.Layout` | src/device/cpu/riscv_rv32ima/cpu.c:120-182 | The eight flags of an entry are its bits 0 to 7 in the order V, R, W, X, U, G, A, D. |
| `Translation.AnswerIsStandardIff` | src/device/cpu/riscv_rv32ima/cpu.c:280-328 | A whole translation, from mode, MPRV, MPP, SUM, MXR, bare mode and kind of access to the address or the named fault, is the one of the standard for all tables and addresses if and only if it is not a fetch below M mode with MPRV set and a different previous mode. |
| `Translation.MisgovernedDiffers` | src/device/cpu/riscv_rv32ima/cpu.c:288 | For each such hart a concrete table on which the fetch is answered differently. |
| `Translation.MemoryIsStandard` | src/device/cpu/riscv_rv32ima/cpu.c:188-328 | Each word of memory after a translation: the leaf is marked accessed, and dirty by a store, if it can be written; every other word, and all memory when there is a fault or no translation, is as before. |
| `Translation.BufferedIsStandard` | src/device/cpu/riscv_rv32ima/cpu.c:280-328 | Through every coherent buffer the answer is the standard one. |
| `Translation.ReachableIsStandard` | src/device/cpu/riscv_rv32ima/cpu.c:280-328 | Over every run that starts with MPRV clear or in M mode the processor answers as the standard asks, since MPRV is never set below M mode. |
| `Retention.FrontAnswers` | src/device/cpu/riscv_rv32ima/cpu.c:261-319 | After a translation the entry in front of the buffer is that of the leaf, with nothing left to record. |
| `Retention.Remembered` | src/device/cpu/riscv_rv32ima/tlb.c:77-105 | A translation once made is answered from the buffer for every address of its page and every address space it serves, with whatever memory and tables, and changes nothing. |
| `Retention.ConvertKeepsSingle` | src/device/cpu/riscv_rv32ima/cpu.c:316-327 | No translation of any address in any address space is ever held by two entries of a buffer. |
| `MmuRuns.FullFenceRestores` | src/device/cpu/riscv_rv32ima/instr.c:273-297 | The full SFENCE.VMA makes any buffer coherent with any page tables, after arbitrary edits. |
| `MmuRuns.StoreKeepsWalks` | src/physmem.c:648-679 | A store that touches no entry a walk consults leaves every walk as it was. |
| `MmuRuns.StepTransparent` | src/device/cpu/riscv_rv32ima/cpu.c:280-328 | Every event on a machine with many harts (translation, store, change of address space, any fence, resize, page-table edit with fences) keeps the coherence of all buffers and has the effect it has without buffers. |
| `MmuRuns.RunTransparent` | src/device/cpu/riscv_rv32ima/cpu.c:188-328 | TLB transparency over whole runs: for any number of harts and any sequence of events in which software leaves page tables alone between fences, uses one root per ASID and shares global leaves, all translations, faults and the final memory are those of a machine without buffers. |
| `Shootdown.FenceClears` | src/device/cpu/riscv_rv32ima/tlb.c:143-224 | Every form of the fence removes every outdated entry of exactly the translations it names, for any set of outdated translations. |
| `Shootdown.FenceSuffices` | src/device/cpu/riscv_rv32ima/instr.c:273-297 | After an edit of the tables any fence that covers the translations it changed, selective or full, makes a coherent buffer coherent with the new tables. |
| `Shootdown.CurrentTransparent` | src/device/cpu/riscv_rv32ima/cpu.c:280-328 | Between an edit and its fences, a translation that the edits did not touch is the walk of the new tables, whatever else is outdated in the buffer. |
| `Shootdown.ProceedTransparent` | src/device/cpu/riscv_rv32ima/cpu.c:280-328 | Every event, edits without fences included, keeps each buffer current up to the translations still outdated in it and acts as without buffers. |
| `Shootdown.ShootdownTransparent` | src/device/cpu/riscv_rv32ima/cpu.c:188-328 | Whole runs in which every hart fences at its own time, by any forms of the fence, and until then translates only what is not outdated in its own buffer: all translations, faults and memory are those of a machine without buffers. |
| `CopiedGlobals.RunLooselyTransparent` | src/device/cpu/riscv_rv32ima/cpu.c:188-328 | When global mappings are copied into each root instead of shared, whole runs still give the same translations and faults; memory agrees up to accessed and dirty bits. |
| `CopiedGlobals.HitMemoryIff` | src/device/cpu/riscv_rv32ima/cpu.c:316-319 | On a hit that has nothing to record, memory agrees exactly with a walk if and only if the leaf in the current tables has nothing to record either or cannot be written. |
| `CopiedGlobals.CopiedLeafDiverges` | src/device/cpu/riscv_rv32ima/cpu.c:316-319 | Two concrete root tables with copies of one global superpage: the second address space is answered from the buffer and its copy stays unaccessed, where the walk would have marked it. |
| `CopiedGlobals.QuietLeavesStale` | src/device/cpu/riscv_rv32ima/cpu.c:256-264 | A concrete table on which a quiet translation from an empty buffer leaves an entry that disagrees with memory. |
| `LinkedList.List.Append` | src/list.c:41-63 | Appending keeps the doubly linked structure well formed and adds the item at the end. |
| `LinkedList.List.Push` | src/list.c:70-91 | Pushing keeps the structure well formed and adds the item in front. |
| `LinkedList.List.Remove` | src/list.c:99-122 | Removing keeps the structure well formed, takes out that item and leaves the others in order. |
| `TlbHeap.Buffer.constructor` | src/device/cpu/riscv_rv32ima/tlb.c:227-241 | A new buffer has every entry on the free list and none in use. |
| `TlbHeap.Buffer.OnOneList` | src/device/cpu/riscv_rv32ima/tlb.c:115-118 | In every valid buffer each entry is on exactly one of the two lists, and its list pointer says which. |
| `TlbHeap.Buffer.AddMapping` | src/device/cpu/riscv_rv32ima/tlb.c:18-49 | Insertion on the linked lists is insertion in front of the abstract buffer, giving up the last entry when full. |
| `TlbHeap.Buffer.MoveToFront` | src/device/cpu/riscv_rv32ima/tlb.c:51-64 | Relinking an entry in front permutes the list as move-to-front and touches no entry. |
| `TlbHeap.Buffer.GetMapping` | src/device/cpu/riscv_rv32ima/tlb.c:77-105 | The loop over the list finds the first entry in order of use that serves the address space and maps the address; a noisy use makes it the most recent. |
| `TlbHeap.Buffer.RemoveMapping` | src/device/cpu/riscv_rv32ima/tlb.c:120-138 | The first matching entry, and no other, goes to the free list. |
| `TlbHeap.Buffer.Flush` | src/device/cpu/riscv_rv32ima/tlb.c:143-224 | The loop over the entries array leaves exactly the survivors of the fence, in order of use. |
| `TlbHeap.Buffer.Resize` | src/device/cpu/riscv_rv32ima/tlb.c:249-264 | Resizing yields an empty buffer of the new size whose lists and entries are all new objects. |
| `Recency.RunOrdered` | src/device/cpu/riscv_rv32ima/tlb.c:18-264 | In every buffer reachable by lookups, insertions, removals, fences and resizings the list is in order of latest noisy use. |
| `Recency.EvictsLeastRecentlyUsed` | src/device/cpu/riscv_rv32ima/tlb.c:18-49 | Over every run, an insertion removes an entry if and only if the buffer, of the size of the latest resizing, is full and that entry has the oldest latest use. |
| `Recency.ConvertIsUse` | src/device/cpu/riscv_rv32ima/cpu.c:280-328 | What a translation does to the buffer is a lookup, the removal of a lagging entry and an insertion, each only when called for, so the laws of recency are laws of translations. |
| `Mmu.Hart.FindLeaf` | src/device/cpu/riscv_rv32ima/cpu.c:188-241 | The walk on the frame table finds the leaf the value-level walk finds in flat memory. |
| `Mmu.Hart.Pagewalk` | src/device/cpu/riscv_rv32ima/cpu.c:188-267 | The walk on the frame table and the linked lists is the walk on flat memory and the abstract buffer. |
| `Mmu.Hart.ConvertAddr` | src/device/cpu/riscv_rv32ima/cpu.c:280-328 | Translation on the frame table and the linked lists is translation on flat memory and the abstract buffer, so transparency holds of it. |
| `Mmu.Hart.Sfence` | src/device/cpu/riscv_rv32ima/instr.c:273-297 | The instruction on the linked lists removes exactly the entries its operands address, with multiplicity, or is refused in U mode and under TVM and then changes nothing. |
| `Memory.WriteByteAt` | src/physmem.c:548-729 | After a write of any width every byte of memory is known: the written byte if the write was accepted and covers it, the old byte otherwise; frames and read-only frames stay. |
| `Memory.ReadOwnWrite` | src/physmem.c:249-386 | An aligned read of any width returns the bytes of an accepted write to the same place. |
| `Memory.Read32AfterWrite32` | src/physmem.c:648-679 | The 32-bit view after an aligned 32-bit write: the written word at its place, every other aligned word unchanged. |
| `Memory.AlignedStays` | src/physmem.c:249-386 | An aligned access stays in its frame and does not wrap around the 36-bit space. |
| `Memory.WriteLandsIff` | src/physmem.c:548-729 | A byte of an aligned write is stored if and only if there is memory and either the write ignores protection or the frame can be written. |
| `Memory.UnwiredReadsOnes` | src/physmem.c:326-336 | A word read where there is no memory is all ones. |
| `Memory.ProtectedWriteSparesRom` | src/physmem.c:560-563 | A protected aligned write changes no byte of a read-only frame. |
| `Memory.RomNeverChanges` | src/physmem.c:548-729 | No sequence of protected aligned writes changes read-only memory. |
| `PhysMem.LookupFindsLastWired` | src/physmem.c:46-82 | After any sequence of wires a frame is found if and only if some area covers it, and then it is the last such area, at the right displacement. |
| `PhysMem.FlatWrite` | src/physmem.c:648-679 | A write through the frame table is the write of flat memory when areas have their own data. |
| `PhysMem.FlatAccepts` | src/physmem.c:552-563 | The frame table lets a write through if and only if flat memory does. |
| `PhysMem.Space.Wire` | src/physmem.c:46-82 | The wiring loop over the two-level table adds exactly the frames of the area, replacing earlier ones, and clears their decode flags. |
| `PhysMem.Space.FindFrame` | src/physmem.c:122-133 | The two-level lookup finds the last wired area covering the address, at the right data offset, or nothing. |
| `PhysMem.Space.Read` | src/physmem.c:249-386 | Aligned mixed-width reads return what the flat byte map holds. |
| `PhysMem.Space.Write` | src/physmem.c:548-729 | The store of an aligned mixed-width write is that of flat memory: only its own bytes, refused on read-only frames when protected, decode flag cleared; the result tells whether it was accepted. The notification before it is in `LinkedMemory.Board.Write`. |
| `InstrCache.FetchCurrent` | src/device/cpu/riscv_rv32ima/cpu.c:401-426 | A fetch returns the decoding of the word now in memory and keeps the cache current. |
| `InstrCache.WriteKeepsCurrent` | src/physmem.c:572-578 | A write by a processor or a device keeps the cache current: a page it hits loses its decode flag. |
| `InstrCache.WireKeepsCurrent` | src/physmem.c:76-81 | Wiring memory over a cached frame keeps the cache current. |
| `InstrCache.StepCurrent` | src/device/cpu/riscv_rv32ima/cpu.c:344-426 | Each fetch, write or wire keeps pages unique and current and answers as a machine that decodes afresh. |
| `InstrCache.RunCurrent` | src/device/cpu/riscv_rv32ima/cpu.c:344-426 | For every interleaving of fetches, aligned writes and wires the instructions fetched are the decodings of memory at the time. |
| `InstrCache.DecodedOnce` | src/device/cpu/riscv_rv32ima/cpu.c:344-426 | After a fetch the next one from the page takes its instruction from the cache, whatever the decoder, and changes nothing. |
| `InstrCacheHeap.Cache.Fetch` | src/device/cpu/riscv_rv32ima/cpu.c:401-426 | The fetch on the linked list of pages is the abstract fetch and returns the decoding of the word in memory. |
| `ScTracker.HitSoundIff` | src/device/cpu/mips_r4000/cpu.c:3189-3198 | The hit test catches every write to the protected bytes if and only if the link is trackable: an R4000 link to the start of a 64-byte line, a RISC-V reservation of 4 bytes. |
| `ScTracker.HitExact` | src/device/cpu/mips_r4000/cpu.c:3189-3198 | For a trackable link the test hits if and only if the write touches a protected byte. |
| `ScTracker.HitUntracked` | src/device/cpu/mips_r4000/cpu.c:3189-3198 | For any other link: on the R4000 nothing hits it, on RISC-V a write hits if and only if it touches the first four bytes. |
| `ScTracker.StepSound` | src/physmem.c:475-529 | The tracking list never holds a processor twice and always holds those with a link. |
| `ScTracker.ControlExact` | src/physmem.c:513-529 | One write drops exactly the listed processors it hits and breaks their links; every other processor is untouched. |
| `ScTracker.SparedKeepsOrder` | src/physmem.c:513-529 | The processors a write spares keep their order in the list. |
| `ScTracker.LinkIntact` | src/physmem.c:475-529 | Over every interleaving of links and writes by many processors, a processor whose trackable link is still set has seen no accepted write into what it protects since it linked; `LinkedMemory.HeldLinkMeansUnchanged` says so of memory. |
| `ScTracker.UntrackableMissed` | src/physmem.c:475-529 | The converse, for every link that is not trackable: there is a byte it protects whose write leaves it set. |
| `ScTracker.LinkMissed` | src/device/cpu/mips_r4000/instr/ll.c:20-23 | A concrete run in which an R4000 link to the second word of a line survives a write to that word. |
| `ScTracker.Tracker.Register` | src/physmem.c:475-491 | Registering appends the processor unless it is listed. |
| `ScTracker.Tracker.Unregister` | src/physmem.c:496-508 | Unregistering removes the processor and keeps the order of the others. |
| `ScTracker.Tracker.ControlAll` | src/physmem.c:513-529 | The loop that removes items while walking the list has exactly the abstract effect on list and links. |
| `LinkedMemory.HeldLinkMeansUnchanged` | src/physmem.c:513-729 | Memory and tracker together, over every run of links, ends of links and stores by any processor or device: if a trackable link is still held, the bytes it protects are those of the start of the run. |
| `LinkedMemory.HitBreaksLink` | src/physmem.c:513-729 | A store breaks the link of a processor if and only if memory accepts the store and it hits the link. |
| `LinkedMemory.Board.Write` | src/physmem.c:548-729 | The write on the frame table with its walk of the tracking list stores and notifies as the joint state machine does, and only when the frame table accepts it. |
| `Dmac.ReachableInvariant` | src/device/dsh2edmac.c:132-882 | From power-on, under any mix of 16- and 32-bit register writes, resets, NMI, requests, configuration and cycles on any memory: outside the initial phase a channel 0 to 3 is picked, the reload counter is 1 to 4, DI is 0 outside channel 3, RO is 0 outside channel 2, reserved CHCR and DMAOR bits are 0, and no cycle ends in the transferring phase. |
| `Dmac.StepKeeps` | src/device/dsh2edmac.c:482-601 | Each single event keeps that invariant. |
| `Dmac.Choose` | src/device/dsh2edmac.c:829-836 | The channel chosen is the lowest one enabled and not ended; with none, every channel is disabled or ended. |
| `Dmac.CycleDiesIff` | src/device/dsh2edmac.c:772-823 | A cycle trips an assertion if and only if the channel it serves names no request source (even when it has just been disabled), or has a request to serve and the reserved transfer size. |
| `Dmac.DisciplineIff` | src/device/dsh2edmac.c:132-157 | A write to CHCR keeps every enabled or served channel usable if and only if the written value is usable whenever it leaves the channel enabled or the channel is being served. |
| `Dmac.RunDiesIff` | src/device/dsh2edmac.c:772-882 | Corollary of `Dmac.CycleDiesIff`: a run trips an assertion if and only if it gets to a cycle in such a state. |
| `Dmac.OrderlyRunNeverDies` | src/device/dsh2edmac.c:772-882 | Under software that is disciplined in that sense no run trips an assertion. |
| `Dmac.CancelTrips` | src/device/dsh2edmac.c:785-791 | In every waiting state, clearing the control register of the served channel makes the next cycle trip an assertion. |
| `Dmac.StoppedMovesNothing` | src/device/dsh2edmac.c:689-700 | While NMI or address error is flagged or the controller is off, a cycle changes neither memory nor any channel register, and signals nothing. |
| `DmacUnit.ChcrLayout` | src/device/dsh2edmac.c:132-157 | The fields of CHCR by their places in the register. |
| `DmacUnit.UnitMoves` | src/device/dsh2edmac.c:603-687 | One unit in full, direct or indirect: the bytes copied or, from a misaligned source, the address error flagged and signalled; SAR and DAR by their modes, TCR one less, everything else as before. |
| `DmacUnit.AfterUnit` | src/device/dsh2edmac.c:717-750 | What follows a unit: given up uncounted and unfinished under NMI, address error or when switched off, else counted, and ended with its flag and signal when the count is nought. |
| `DmacUnit.HalvesMakeLong` | src/device/dsh2edmac.c:482-543 | Two 16-bit writes make one 32-bit write of SAR, DAR or TCR. |
| `DmacRequests.RequestedUnits` | src/device/dsh2edmac.c:793-817 | At the requests of a peripheral, n requests each followed by a cycle move exactly n units, use up the requests, and end the transfer with the last. |
| `DmacRequests.RequestedBlock` | src/device/dsh2edmac.c:603-882 | A whole block transferred so: every destination unit holds what its source held and the rest of memory is kept. |
| `DmacRequests.OneRequestOneUnit` | src/device/dsh2edmac.c:802-817 | One request moves one unit, however many cycles follow. |
| `DmacRequests.UnitsNeedRequests` | src/device/dsh2edmac.c:202-882 | Over every run of events the units moved at a request source are at most the times it asked, and in burst mode twice as many. |
| `DmacCopy.UnitStep` | src/device/dsh2edmac.c:651-750 | One transfer takes registers, reload counter, statistics, signals and memory from k moved units to k + 1, for all address modes and sizes. |
| `DmacCopy.StealCycles` | src/device/dsh2edmac.c:752-882 | In cycle-steal mode with automatic request, after k cycles exactly k units have moved, with SAR, DAR and TCR at their positions modulo 2^32, and after the last one TE is set and the controller is idle. |
| `DmacCopy.BlockCopied` | src/device/dsh2edmac.c:603-882 | A transfer of n units between separate blocks takes n cycles; every destination unit then holds what its source unit held, every other byte is as before, TCR is 0, TE is set, the end is signalled if enabled, other channels are untouched. |
| `DmacReload.ReloadEveryFour` | src/device/dsh2edmac.c:708-715 | After k cycles of a transfer on channel 2, in every source mode and from every value of the counter, SAR has gone back after as many units as the counter started with and every four from then on, whatever the RO bit. |
| `DmacReload.ReloadHarmlessIff` | src/device/dsh2edmac.c:708-715 | For every source mode and counter value, channel 2 reads consecutive units if and only if its source stands still or its count does not exceed the counter. |
| `DmacReload.RoHonouredIff` | src/device/dsh2edmac.c:708-715 | Channel 2 reads what is promised, unit k from offset k mod 4 with RO set and from offset k with RO clear, if and only if the source stands still, the count does not exceed the counter, or RO is set and the counter starts full. |
| `DmacReload.CycleFullIff` | src/device/dsh2edmac.c:772-823 | The counter is full outside transfers of channel 2, and a cycle breaks this if and only if channel 2 gives up between reloads: the request it waits for is not configured, or comes for another address. |
| `DmacReload.PersistentHonoursRo` | src/device/dsh2edmac.c:482-882 | Over every run from power-on in which channel 2 never gives up between reloads, each transfer it starts with RO set has a full counter and reads what is promised. |
| `DmacReload.Channel2Copied` | src/device/dsh2edmac.c:603-882 | What a whole transfer of channel 2 leaves in memory, in every source mode and from every counter value: unit k holds the source unit its reloads lead to, under the condition above the promised one, and the rest of memory is kept. |
| `DmacWitness.ProgrammingReaches` | src/device/dsh2edmac.c:482-601 | Switching the controller on and writing the four registers of any channel after power-on leaves exactly those values, with CHCR as its write rules make it. |
| `DmacWitness.RoClearIgnored` | src/device/dsh2edmac.c:708-715 | A run from power-on that copies five bytes with RO clear: the fifth byte written is the first byte of the source. |
| `DmacWitness.CounterLeftOver` | src/device/dsh2edmac.c:797-817 | A channel 2 interrupted after one unit, by waiting for a request that is not configured, starts again with its counter at 3. |
| `DmacWitness.RoSetMissed` | src/device/dsh2edmac.c:708-715 | That run from power-on with RO set: the fourth byte of the new transfer is its first source byte where the fourth was promised. |
| `DmacWitness.BurstOverruns` | src/device/dsh2edmac.c:764-769 | A run from power-on with a burst of two units: the first cycle moves both without stopping, the second wraps the count. |
| `DmacCopy.BurstCycles` | src/device/dsh2edmac.c:764-769 | In burst mode two units move per cycle and the controller is always left waiting. |
| `DmacCopy.BurstStopsIff` | src/device/dsh2edmac.c:764-769 | A burst stops when its count runs out if and only if the count is odd; an even one goes on past its end and its count wraps around. |
| `DmacDevice.Controller.AssignFields` | src/device/dsh2edmac.c:132-157 | Assigning CHCR field by field, with the flags that can only be cleared and the fields only some channels have, gives the register value of the state machine. |
| `DmacDevice.Controller.ControlWrite` | src/device/dsh2edmac.c:132-157 | The control register write on the object is that of the state machine and keeps its invariant. |
| `DmacDevice.Controller.WriteLong` | src/device/dsh2edmac.c:553-601 | The 32-bit register write on the object, by offset, is that of the state machine and keeps its invariant. |
| `DmacDevice.Controller.WriteWord` | src/device/dsh2edmac.c:482-543 | The 16-bit register write, which replaces half of a register and applies the write rules to the whole, is that of the state machine and keeps its invariant. |
| `DmacDevice.Controller.Conclude` | src/device/dsh2edmac.c:717-750 | What follows a unit on the object is that of the state machine: abort, end with flag and signal, or wait. |
| `DmacDevice.Controller.Transfer` | src/device/dsh2edmac.c:752-770 | The transfer step on the object, with its second unit in burst mode, is that of the state machine. |
| `DmacDevice.Controller.Wait` | src/device/dsh2edmac.c:772-823 | The waiting step on the object is that of the state machine, assertions included. |
| `DmacDevice.Controller.Pick` | src/device/dsh2edmac.c:829-836 | The priority loop finds the channel the state machine chooses. |
| `DmacDevice.Controller.Step` | src/device/dsh2edmac.c:856-882 | The loop over the granted cycles runs the state machine that many cycles, or stops where an assertion trips. |
| `Disk.ReachableInBounds` | src/device/ddisk.c:642-791 | In every reachable state, across commands, rejected commands and reconfiguration, an action in progress has moved fewer than 128 words and its next word lies inside the image. |
| `Disk.AckSilencesIff` | src/device/ddisk.c:667-719 | Acknowledging an interrupt leaves none pending if and only if the sector register is in range (the bound check runs for a mere acknowledgement and raises the interrupt again). |
| `Disk.AckInterrupts` | src/device/ddisk.c:667-719 | On a disk of one sector with sector register 1, an acknowledgement is rejected and raises the interrupt again. |
| `Disk.BusyRefuses` | src/device/ddisk.c:667-719 | A command to a busy disk is reported as an error and leaves the action in progress as it was. |
| `Disk.TakesIff` | src/device/ddisk.c:667-741 | An idle disk starts reading or writing if and only if exactly one of the two is asked for and its sector exists. |
| `Disk.ReadSector` | src/device/ddisk.c:750-791 | 128 undisturbed steps of a read bring the sector to memory word for word where memory is writable, change no other word, advance the pointer by 512 modulo 2^64, and leave the disk idle and reported. |
| `Disk.WriteSector` | src/device/ddisk.c:750-791 | 128 undisturbed steps of a write store the memory block in the sector and change neither memory nor any other sector, when no word of the block crosses the end of a frame. |
| `Disk.UnbrokenIff` | src/physmem.c:326-348 | No word of a block crosses the end of a frame if and only if the pointer is word aligned or the block lies in one frame. |
| `Disk.SectorRoundTrip` | src/device/ddisk.c:642-791 | By register writes: a block stored to sector a, another stored to sector b, then sector a loaded to a third place gives back the first block, or the second when the sectors are the same, whatever memory is in between. |
| `DiskDevice.Drive.Configure` | src/device/ddisk.c:296-328 | Establishing a memory disk cancels the action, resets the pointer and gives a zero image; refused sizes change nothing. |
| `DiskDevice.Drive.Execute` | src/device/ddisk.c:667-741 | The command register on the object: acknowledgement, the three rejections, and the start of a command. |
| `DiskDevice.Drive.WriteRegister` | src/device/ddisk.c:642-743 | A register write on the object is that of the state machine; an unconfigured disk ignores it. |
| `DiskDevice.Drive.StepWord` | src/device/ddisk.c:750-791 | One step on the object, with the image in an array, moves the word the state machine moves and keeps the invariant. |
| `Cmt.ProcessAdds` | src/device/dsh2ecmt.c:546-562 | Processing a cycles and then b cycles is processing a + b cycles. |
| `Cmt.ClosedForm` | src/device/dsh2ecmt.c:548-561 | From a count below the constant c (65536 when CMCOR is 0), n counts make (CMCNT + n) div c matches and leave CMCNT at (CMCNT + n) mod c; flag and interrupts follow. |
| `Cmt.ClosedFormAbove` | src/device/dsh2ecmt.c:548-561 | From the constant or above, the counter first wraps around without a match. |
| `Cmt.ProcessClosedForm` | src/device/dsh2ecmt.c:546-562 | A batch of cycles in closed form: counts and residue are quotient and remainder by the period, matches and CMCNT quotient and remainder by the constant. |
| `Cmt.AdvanceAnyhow` | src/device/dsh2ecmt.c:569-598 | For both channels it makes no difference how cycles are split into batches. |
| `Cmt.AdvanceCounts` | src/device/dsh2ecmt.c:569-598 | Each channel runs if and only if its own start bit is set; counts, matches, flag, interrupts and rests are then those of division by the period and the constant. |
| `Cmt.Counter.WriteControl` | src/device/dsh2ecmt.c:61-75 | A control write sets clock and interrupt enable and can clear the flag but never set it. |
| `Cmt.Counter.Update` | src/device/dsh2ecmt.c:497-562 | The prescaler loop computes the batch of counts. |
| `Interrupts.SelectIsHighest` | src/device/cpu/riscv_rv32ima/cpu.c:578-630 | The tests take the highest-priority eligible interrupt of section 3.1.9, M mode before S mode, and take none only when none is eligible. |
| `Interrupts.HighestIsUnique` | src/device/cpu/riscv_rv32ima/cpu.c:590-591 | The choice the standard asks for is unique, so soundness and completeness determine it. |
| `Interrupts.SupervisorTrapsAreDelegated` | src/device/cpu/riscv_rv32ima/cpu.c:615-628 | An interrupt taken in S mode is delegated and never taken from M mode, although the S tests do not read `mideleg`. |
| `Interrupts.RunSelectsHighest` | src/device/cpu/riscv_rv32ima/cpu.c:754-783 | Over every run of instructions, traps, returns, line changes and writes to machine and supervisor CSRs (`sstatus`, `sie` and `sip` included) only S interrupts are delegated, vector modes and MPP stay legal, and every state selects as the standard asks. |
| `Interrupts.SavedPc` | src/device/cpu/riscv_rv32ima/cpu.c:754-783 | The saved program counter is that of the instruction the step would have run next, or the one after WFI in standby, or for an exception the faulting one; cause, trap value and mode match, an exception going to S mode exactly by its bit of `medeleg`. |
| `Interrupts.TrapsRaise` | src/device/cpu/riscv_rv32ima/cpu.c:452-574 | No trap lowers the privilege. |
| `Interrupts.PrivilegeDropsOnlyByReturn` | src/device/cpu/riscv_rv32ima/cpu.c:754-783 | A step lowers the privilege only by MRET or SRET. |
| `Status.EnterMSpares` | src/device/cpu/riscv_rv32ima/cpu.c:464-481 | A trap to M mode leaves the S-mode enable, previous enable and previous mode alone. |
| `Status.EnterSSpares` | src/device/cpu/riscv_rv32ima/cpu.c:518-535 | A trap to S mode leaves the M-mode enable, previous enable and previous mode alone. |
| `Status.EnterMBits` | src/device/cpu/riscv_rv32ima/cpu.c:464-481 | Every bit of `mstatus` after a trap to M mode. |
| `Status.EnterSBits` | src/device/cpu/riscv_rv32ima/cpu.c:518-535 | Every bit of `mstatus` after a trap to S mode. |
| `Status.LeaveMBits` | src/device/cpu/riscv_rv_ima/instructions/system.c:135-169 | Every bit of `mstatus` after MRET. |
| `Status.LeaveSBits` | src/device/cpu/riscv_rv_ima/instructions/system.c:93-129 | Every bit of `mstatus` after SRET. |
| `Traps.ExceptionTaken` | src/device/cpu/riscv_rv32ima/cpu.c:452-574 | An exception is handled in S mode if and only if the hart is below M mode and the bit of `medeleg` with its number is set; entry address, saved program counter, cause, value and every bit of `mstatus` and `mip` follow, other registers stay. |
| `Traps.InterruptTaken` | src/device/cpu/riscv_rv32ima/cpu.c:452-630 | The interrupt taken after an instruction, by number: the first in the order 11, 3, 7, 9, 1, 5 that is pending, enabled and not delegated, else the first delegated one, else none; with vectored entry and all that is saved. |
| `Traps.ForbiddenIff` | src/device/cpu/riscv_rv_ima/instructions/system.c:93-188 | A return, wait or CSR write is refused if and only if the mode, TSR or TW forbids it, and then reports its encoding and does nothing. |
| `Traps.SretRefusedIff` | src/device/cpu/riscv_rv_ima/instructions/system.c:93-100 | SRET is refused as the standard asks if and only if it is not executed in M mode with TSR set, where the code refuses it too. |
| `Traps.SretRefusedInMachine` | src/device/cpu/riscv_rv_ima/instructions/system.c:93-100 | SRET in M mode with TSR set is an illegal instruction. |
| `Traps.InstructionsNeverRaise` | src/device/cpu/riscv_rv32ima/cpu.c:754-783 | No instruction raises the privilege; only traps do. |
| `Traps.MachineStateSpared` | src/device/cpu/riscv_rv_ima/csr.c:400-520 | Below M mode an instruction leaves delegation, vector and trap registers of M mode alone, and in U mode every register. |
| `Traps.MretGoes` | src/device/cpu/riscv_rv_ima/instructions/system.c:135-173 | MRET goes to the mode in MPP and to `mepc`, and what it leaves of every bit of `mstatus`. |
| `Traps.SretGoes` | src/device/cpu/riscv_rv_ima/instructions/system.c:93-133 | SRET goes to the mode in SPP and to `sepc`, and what it leaves of every bit of `mstatus`. |
| `Traps.CsrBits` | src/device/cpu/riscv_rv_ima/csr.c:410-1075 | Every bit of a register after a write, set or clear, by the bits each register lets through; no other register changes. |
| `Traps.StatusBits` | src/device/cpu/riscv_rv_ima/csr.c:811-870 | Every bit of `mstatus` after a write, set or clear; the reserved mode never gets into MPP. |
| `Traps.RunKeepsMprv` | src/device/cpu/riscv_rv_ima/instructions/system.c:93-173 | Over every run MPRV is set at most in M mode. |
| `Traps.LineBits` | src/device/cpu/riscv_rv32ima/cpu.c:803-857 | What raising or lowering a line does to each bit of `mip` and to the external line of S mode. |
| `Interrupts.MretUndoesTrap` | src/device/cpu/riscv_rv_ima/instructions/system.c:135-173 | MRET after a trap to M mode restores mode, interrupt enable and program counter; the handler runs with interrupts disabled. |
| `Interrupts.SretUndoesTrap` | src/device/cpu/riscv_rv_ima/instructions/system.c:93-133 | SRET after a trap to S mode restores mode, interrupt enable and program counter. |
| `Interrupts.WakesIff` | src/device/cpu/riscv_rv32ima/cpu.c:754-783 | A processor in standby wakes if and only if an interrupt is eligible to be taken; otherwise it stays where it is. |
| `Interrupts.SleepsWhenDisabled` | src/device/cpu/riscv_rv_ima/instructions/system.c:175-188 | A processor waiting in M mode with interrupts disabled sleeps through pending enabled interrupts (the standard would resume it). |
| `Interrupts.MipWriteIff` | src/device/cpu/riscv_rv_ima/csr.c:1022-1042 | A machine interrupt stays pending across a change of `mip` if and only if the change is not a plain write. |
| `Interrupts.MipDropsTimer` | src/device/cpu/riscv_rv_ima/csr.c:1022-1042 | With the machine timer interrupt pending, a write of 0 to `mip` drops it. |
| `Interrupts.SstatusWriteIff` | src/device/cpu/riscv_rv_ima/csr.c:410-434 | A change of `sstatus` leaves the fields of M mode in `mstatus` alone if and only if it sets or clears bits, or they are all zero. |
| `Interrupts.SstatusDropsMie` | src/device/cpu/riscv_rv_ima/csr.c:410-418 | In S mode, writing 0 to `sstatus` disables the interrupts of M mode. |
| `InterruptCore.Core.Target` | src/device/cpu/riscv_rv32ima/cpu.c:485-498 | The trap address for direct and vectored modes; a reserved mode, and nothing else, trips the assertion. |
| `InterruptCore.Core.TrapToM` | src/device/cpu/riscv_rv32ima/cpu.c:452-499 | The trap to M mode on the object is that of the state machine, and trips its assertion if and only if the vector mode is reserved. |
| `InterruptCore.Core.TrapToS` | src/device/cpu/riscv_rv32ima/cpu.c:506-553 | The trap to S mode on the object is that of the state machine, and trips its assertion if and only if the vector mode is reserved. |
| `InterruptCore.Core.TryInterrupt` | src/device/cpu/riscv_rv32ima/cpu.c:578-630 | The chain of early returns on the object is the selection followed by its trap, assertion included. |
| `InterruptCore.Core.Exception` | src/device/cpu/riscv_rv32ima/cpu.c:558-574 | The exception on the object goes to S mode if and only if the bit of `medeleg` with its number is set and the hart is below M mode, assertion included. |
| `InterruptCore.Core.Step` | src/device/cpu/riscv_rv32ima/cpu.c:754-783 | The step on the object is the step of the state machine; in every reachable state it keeps the invariant and trips no assertion. |
| `R4kTlb.HintIrrelevantIff` | src/device/cpu/mips_r4000/cpu.c:307-356 | The hint never changes the result of a lookup if and only if all matching entries give the same answer; with at most one match they do. |
| `R4kTlb.OddIsUpperHalf` | src/device/cpu/mips_r4000/cpu.c:331-333 | For every legal page size the subpage selected is the upper half of the pair exactly when the address is in it. |
| `R4kTlb.PhysIsFrameAndOffsetIff` | src/device/cpu/mips_r4000/cpu.c:344-346 | For every legal page size the translation is frame plus offset if and only if bit 35 of the frame is clear (the mask of physical bits stops short of it). |
| `R4kTlb.TopPageMissed` | src/device/cpu/mips_r4000/cpu.c:344-346 | The topmost page of the 36-bit space is translated to an address without bit 35. |
| `R4kTlb.VerdictIsMeaning` | src/device/cpu/mips_r4000/cpu.c:324-351 | For every legal page size and frames below bit 35, a matching entry answers invalid, modified or frame plus offset for the half of the pair the address is in. |
| `R4kTlb.EntryIsLegal` | src/device/cpu/mips_r4000/instr/mtc0.c:23-36 | The page masks MTC0 admits give exactly the legal entry masks, and every frame is a 36-bit address. |
| `R4kTlb.WriteAfterMiss` | src/device/cpu/mips_r4000/cpu.c:1071 | A probe that misses sets only the P bit, so a TLBWI after it overwrites entry 0. |
| `R4kTlb.ProbeFindsSame` | src/device/cpu/mips_r4000/cpu.c:1066-1096 | With at most one match, a probe finds the entry a lookup in that pair of pages uses, whatever the hint. |
| `R4kTlb.WriteThenRead` | src/device/cpu/mips_r4000/cpu.c:1102-1177 | Reading back a written entry returns PageMask, EntryHi and EntryLo up to unimplemented bits, with G the conjunction of the two G bits. |
| `R4kMapping.WriteThenLookup` | src/device/cpu/mips_r4000/cpu.c:1145-1177 | After a miss, an entry written from the registers answers by its EntryLo for exactly the addresses in the pair of pages EntryHi and PageMask name, in every address space if both G bits are set and else in that of EntryHi; all else is still missing. |
| `R4kMapping.LookupByRegisters` | src/device/cpu/mips_r4000/cpu.c:307-356 | A TLB written from registers translates an address if and only if some of them map it, and when just one does, by its EntryLo: invalid, modified, or frame and offset without bit 35. |
| `R4kMapping.ProbeByRegisters` | src/device/cpu/mips_r4000/cpu.c:1066-1096 | A probe finds the first entry whose registers map the pair in EntryHi for its address space, or none. |
| `R4kTlb.RandomAboveWiredIff` | src/device/cpu/mips_r4000/instr/mtc0.c:37-43 | In every reachable state TLBWR is aimed above the wired entries if and only if Wired is at most 47 (MTC0 accepts up to 63). |
| `R4kTlb.WiredOverwritten` | src/device/cpu/mips_r4000/instr/mtc0.c:37-43 | From every reachable state, setting Wired to 48 and then TLBWR overwrites entry 47, which is wired. |
| `R4kTlb.WiredEntriesSafe` | src/device/cpu/mips_r4000/cpu.c:3123-3130 | Over a whole run in which Wired stays in range no TLBWR overwrites a wired entry. |
| `R4kTlb.ExecuteKeeps` | src/device/cpu/mips_r4000/cpu.c:1066-1177 | Every TLB instruction and MTC0 keeps Random and Wired in that relation, the number of entries and their masks. |
| `R4kTlb.ManageKeeps` | src/device/cpu/mips_r4000/cpu.c:3123-3130 | Random counts down to Wired and then starts again from 47; with Wired out of range it stays at 47. |
| `R4kTlb.StepKeeps` | src/device/cpu/mips_r4000/cpu.c:3106-3130 | Every instruction step keeps Random within 47 and not below Wired, or pinned to 47 when Wired is out of range. |
| `R4kTlbDevice.Unit.Lookup` | src/device/cpu/mips_r4000/cpu.c:307-356 | The rotated loop returns the lookup from the hint, moves the hint only on success, and keeps the invariant of the unit. |
| `R4kTlbDevice.Unit.ProbeTlb` | src/device/cpu/mips_r4000/cpu.c:1066-1096 | The probe loop sets Index to the first match, or only its P bit for none, and keeps the invariant. |
| `R4kTlbDevice.Unit.WriteTlb` | src/device/cpu/mips_r4000/cpu.c:1145-1177 | The write replaces exactly the entry named by Random or Index; an index out of range writes nothing; the invariant is kept. |
| `R4kTlbDevice.Unit.ReadTlb` | src/device/cpu/mips_r4000/cpu.c:1102-1138 | The read fills the registers from the entry, or clears them for an index out of range, and keeps the invariant. |
| `R4kTlbDevice.Unit.MoveTo` | src/device/cpu/mips_r4000/instr/mtc0.c:9-43 | A move to a TLB register keeps six bits of Index and Wired, restarts Random when Wired is written, and keeps the invariant. |
| `R4kTlbDevice.Unit.CountDown` | src/device/cpu/mips_r4000/cpu.c:3123-3130 | Random becomes one less, or 47 once it has reached Wired; while Wired is in range it stays between Wired and 47. |
| `R4kTlbDevice.Unit.Step` | src/device/cpu/mips_r4000/cpu.c:3106-3130 | One instruction and the countdown after it are one step of the state machine and keep the invariant. |
| `NumberText.RoundTrip` | src/utils.c:382-402 | For every 64-bit value the printed text is read back, all of it, as the same value with no overflow report. |
| `NumberText.ReadDecimal` | src/parser.c:179-249 | The complete result for any decimal digits and any rest: overflow exactly when the value modulo 2^64 falls below its predecessor at some digit or at the suffix, else an invalid number exactly when a letter or digit follows, else the value modulo 2^64 and the length read. |
| `NumberText.ReadExactIff` | src/parser.c:179-249 | A decimal text, with leading zeros or not and with any suffix, is read exactly if and only if its value times the suffix fits in 64 bits. |
| `NumberText.ReadHex` | src/parser.c:188-212 | The complete result for any hexadecimal digits and any rest, overflow by the same test at each digit. |
| `NumberText.ReadHexExactIff` | src/parser.c:188-212 | A hexadecimal text is read exactly if and only if its value fits in 64 bits. |
| `NumberText.BarePrefixIff` | src/parser.c:188-212 | The prefix without digits is rejected if and only if a letter or digit follows; otherwise it reads as 0. |
| `NumberText.OneDigitMore` | src/parser.c:216-228 | For one digit too many the general condition is that the rest modulo 2^64 is smaller than the number before the digit. |
| `NumberText.OverflowMissed` | src/parser.c:216-228 | A concrete text above 2^64 is accepted with a wrapped value. |
| `NumberText.SuffixOverflowMissed` | src/parser.c:233-240 | A concrete number with suffix K above 2^64 is accepted with a wrapped value. |
| `NumberText.ReadNumber` | src/parser.c:179-249 | The loops with their early returns compute the token and the consumed length, hexadecimal numbers included. |
| `NumberText.ReadMultiply` | src/parser.c:50-81 | The suffix character gives its factor and is consumed. |
| `NumberText.HumanReadable` | src/utils.c:382-402 | The branches of the printer produce a text that reads back as the number. |

## Left out

- `list_insert_after`: it does not restore the back link of the old successor and serves only the command line.
- `physmem_unwire`: it frees an empty second-level table without clearing its slot; it is teardown outside modelled runs.
- Devices behind addresses without memory, memory breakpoints, misaligned accesses, a big-endian host.
- Translations that use a mapping edited but not yet fenced: the architecture allows either answer, and nothing is claimed.
- The RV64 TLB, the accessed and dirty write-back of the RV64 walk, RV64 interrupts.
- Mixed processor families sharing one decode flag, and host-side load and fill, which bypass it.
- Instruction decoding and execution: instructions appear as the events that touch the modelled state; decoding is a parameter of the instruction cache.
- CSR reads, the upper half of `mstatus`, and performance counters.
- DMAC transfers in indirect mode appear in the invariants and the step functions, not in the block copy; address errors of a misaligned destination are not modelled because the code does not raise them.
- DmacCopy.BlockCopied: requires both ends aligned, the destination advancing and separate from the source, and a count from 1 to 2^24 - 1; a fixed destination is a peripheral, and overlapping blocks are described by the unit-by-unit memory of DmacCopy.StealCycles instead.
- Dmac.OrderlyRunNeverDies: gives one direction, a discipline software can follow; Dmac.RunDiesIff gives both for every run.
- ScTracker.LinkIntact: excludes links that the hit test cannot track; ScTracker.UntrackableMissed shows that it fails for every one of them.
- R4kTlb.WiredEntriesSafe: gives one direction over runs; RandomAboveWiredIff gives both for a state.
- TLB shutdown of the R4000 and its 64-bit address spaces.
- File mapping of the disk beyond the content of the file, and its register reads.
- The width of the CMT prescaler, which the source keeps in an unsigned integer of at least 16 bits: it is a natural number here.
- CMT and DMAC register reads, byte accesses and interrupt numbers.
- LinkedMemory.HeldLinkMeansUnchanged: takes store addresses below 2^36, the physical space of the simulator.
- Disk.WriteSector: claims nothing when a word of the block crosses the end of a frame, which only an unaligned pointer can cause; the source then reads host memory beyond the frame.
- Disk.SectorRoundTrip: the same for the place it writes from.
- Disk.ReadSector: takes an aligned pointer, since memory afterwards is described word by word.
- The SH-2E processor and its interrupt controller, watchdog, LCD, printer, keyboard and clock devices, the debugger interfaces and the command line: input and output, tables, or easy members.
