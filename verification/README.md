# RIVET: models and proofs

A Dafny model of the parts of RIVET that hold state machines, codecs and invariants: the page tables
and the frame allocator, the two-pass assembler with its x86_64 and RV32 backends and disassemblers,
the intrusive lists, scheduler and wait queues, the lock-free byte ring, the hash table, the heap, the
block cache, streaming SHA-256, the Intel HEX converter and the periodic task scheduler.

`dafny verify dfyconfig.toml` checks the whole project.

## How it is built

Each component has three layers. *Specification functions* say what a call does to a value. *Laws*
are lemmas about those functions: invariants over every run, refinements of plain maps, sets and
sequences, round trips. *Code* is a class or a method in the form of the C source (loops, arrays,
fields changed in place, linked nodes, headers in memory), proved equal to the specification, so that
the laws hold of it.

| component | specification | laws | code |
|---|---|---|---|
| frames and page tables | `Frames`, `PageTable`, `PageTree`, `PageMaps` | `PageMaps`, `PageRights`, `PagingRuns` | `Frames.Pmm`, `Paging` |
| assembler | `AsmSpec` | `AsmLengths`, `AsmTwoPass`, `AsmExact`, `AsmBranches`, `AsmNames`, `AsmListing`, `AsmData`, `AsmEdges` | `Assembler` |
| x86_64 | `X86Syntax`, `X86Encode`, `X86Decode` | `X86RoundTrip`, `X86Sweep` | `X86Decoder`, `Sweep` |
| RV32 | `Rv32Syntax`, `Rv32Encode`, `Rv32Decode` | `Rv32RoundTrip` | |
| lists, processes, wait queues | `SchedSpec` | `SchedInvariant`, `SchedRuns` | `Lists`, `Kernel` |
| ring | `RingSteps` | `RingIndex`, `RingSteps`, `RingCount` | `RingBuffer` |
| hash table | `HashSpec` | `HashMap`, `HashDelete`, `HashRuns` | `HashTable` |
| heap | `HeapSpec` | `HeapLaws`, `HeapRuns` | `Heap` |
| block cache | `BufSpec` | `BufLaws`, `BufRuns` | `Buf` |
| SHA-256 | `Sha256Spec` | `Sha256Laws`, `Sha256Meaning` | `Sha256` |
| Intel HEX | `IhexText`, `IhexSpec` | `IhexRoundTrip` | `Ihex` |
| periodic tasks | `TaskSpec` | `TaskLaws` | `TaskScheduler` |

Machine words are modelled where their width shows: bit vectors in the codecs and in SHA-256, explicit
remainders for wrapping counters, sizes and addresses. Masks and shifts on table indices and slots are
reduced to quotients and remainders by lemmas in `Bits`. A guarded body (`spin_locked`) is one atomic
step; `riv_waitq_sleep` and `riv_proc_exit` are two steps each, with anything allowed in between; in
the ring every single load, store and buffer access is one step.

Disk answers, the file's lines and the parsed operands of source lines are parameters. Where the code
stops with an error message, the model returns `None`, `false` or -1.

## What turned out not to hold

The code is modelled as it is. Where a property one would expect fails, there is a lemma with a
concrete input and one with the exact condition.

- *Hash table, delete.* The shift stops at the first entry that is at home, even if a later entry of
  the cluster needs the freed slot: `HashRuns.EntryLost`. It is right exactly when no remaining probe
  path crosses the slot finally emptied: `HashDelete.DelExact`.
- *Hash table, long keys.* Keys of 32 characters and more are stored cut and never found again:
  `HashRuns.LongKeyLost`, exactly those: `HashRuns.SetThenGet`.
- *Exit after a sleep that did not switch.* A process that sleeps when nothing else is ready goes on
  running while it is queued; if it then exits, a wake-up runs the zombie: `SchedRuns.LonelySleep`,
  `SchedRuns.ZombieRevived`, with the exact condition in `SchedInvariant.DieExact`.
- *Frame count.* Freeing a free frame counts it twice: `Frames.DoubleFree`, with the exact condition in
  `Frames.ReleaseCounts` and `Frames.Pmm.Free`.
- *Frames, large regions.* With more than 2^32 - 32 frames the word count wraps to 0 and no frame is ever
  handed out, although all are counted free: `Frames.LargestRegion`, `Frames.FreshHandsOut`.
- *Frames, far addresses.* The index of a freed address keeps 32 bits, so an address far outside the region
  can free a frame inside it: `Frames.FarRelease`, `Frames.OutsideExact`.
- *Page rights, x86_64.* A page mapped for user mode under a table first made for a kernel page cannot be
  reached from user mode: `PageRights.UserPageShutOut`, `PageRights.KernelTableShuts`, with the exact
  condition in `PageRights.ReachesExact`.
- *Page rights, Sv32.* No mapping is executable, whatever its flags: `PageRights.Sv32LeafRights`.
- *Assembler, layout.* A forward reference in `mov reg, sym`, in a displacement, in `.org`, `.zero` or an
  alignment can move everything behind it: `AsmEdges.ForwardMoveDisagrees`, `AsmEdges.ForwardDispDisagrees`,
  `AsmEdges.ForwardFillDisagrees`, with the exact condition for every line in `AsmExact.BodyExact` and for
  whole programs in `AsmExact.AgreementExact`.
- *Assembler, backend.* `.arch` is not reset between the passes: `AsmEdges.LateArchDisagrees`, with the
  exact condition in `AsmTwoPass.ArchStableExact`.
- *x86_64 operands.* rsp as an index, r12 as an index in the listing, and a displacement without a base
  are not reproduced: `X86RoundTrip.RspIndexLost`, `X86RoundTrip.R12IndexLost`,
  `X86RoundTrip.BareDisplacementLost`, and exactly those families: `X86RoundTrip.SeenAsWritten`.
- *RV32 offsets.* Out-of-range branch and jal offsets are reduced, not refused: `Rv32RoundTrip.FarJump`,
  `Rv32RoundTrip.FarBranch`, with the exact condition in `Rv32RoundTrip.BranchTargetExact`.
- *Heap, rounding.* A request within 8 bytes of the word size rounds to 0, so any free block serves it:
  `HeapRuns.HugeRequestGranted`, with the exact condition in `HeapSpec.RoundExact` and `Heap.Heap.Alloc`.
- *Heap, short arena.* An arena without room for a header gets a first block larger than itself:
  `HeapSpec.ShortArena`, exactly then: `HeapSpec.FirstSizeExact`.
- *Intel HEX.* An image of more than one record that ends at 2^32 or beyond makes the reader write
  outside its buffer: `IhexRoundTrip.TopOfMemory`; a single record that does so is read back. The exact
  condition is `IhexRoundTrip.ReadBackExact`.
- *Periodic tasks.* A task whose lateness modulo 2^32 is 2^31 or more counts as early, and one with a period
  above 2^31 runs again at once: `TaskLaws.LateTask`, `TaskLaws.RunsAtOnce`, with the exact condition
  in `TaskLaws.DueExact`.

The block cache's header speaks of clock-sweep eviction; the code takes the first block that is clean
and unreferenced, and so does the model. The hash table's header calls its delete tombstone-free
shifting of the probe cluster; the code shifts only up to the first entry at home.

## Model

| member | source | states |
|---|---|---|
| Frames.WordCountExact | include/rivet/paging.h:43-47 | the 32-bit word count gives one bit a frame if and only if there are at most 2^32 - 32 frames; above that it is 0 |
| Frames.Pmm.constructor | include/rivet/paging.h:37-44 | for every 32-bit number of frames: up to 2^32 - 32 every frame is free, although the bits beyond the last frame are set as well, and the count is the size of the free set; above that no bit is touched while all frames are counted free |
| Frames.Pmm.Search | include/rivet/paging.h:47-52 | the word-by-word scan with count-trailing-zeros finds the lowest free frame, or `nframes` when there is none, also when `nframes` is not a multiple of 32; above 2^32 - 32 frames it finds nothing |
| Frames.Pmm.Alloc | include/rivet/paging.h:46-62 | the bitmap operation is removal of the lowest address from a set of free frames, with the frame zeroed; the count stays the size of the set |
| Frames.Pmm.TakeBit | include/rivet/paging.h:53-54 | clearing one bit takes one frame from the free set and leaves every other frame as it was |
| Frames.Pmm.GiveBit | include/rivet/paging.h:68-69 | setting one bit adds one frame to the free set and leaves every other frame as it was |
| Frames.Pmm.Free | include/rivet/paging.h:64-70 | freeing adds the frame that the low 32 bits of the index name, if the region has it; the count stays exact if and only if that frame was not free already |
| Frames.AllocateIsExclusive | include/rivet/paging.h:46-62 | allocation returns a frame that was free, zeroed, and removes just that one; it returns 0 exactly when nothing is free or the region has more than 2^32 - 32 frames |
| Frames.FreshHandsOut | include/rivet/paging.h:37-62 | a region just initialised hands out a frame if and only if it has at most 2^32 - 32 frames |
| Frames.LargestRegion | include/rivet/paging.h:43-52 | 2^32 - 1 frames, all counted free, and none to be had |
| Frames.OutsideExact | include/rivet/paging.h:64-67 | an address outside the region changes nothing if and only if it lies below the region or its distance from the base, modulo 2^44, is not that of a frame in the region |
| Frames.FarRelease | include/rivet/paging.h:66-69 | an address 2^44 bytes above a one-frame region frees the frame that is in use |
| Frames.DoubleFree | include/rivet/paging.h:68-69 | one of two frames is free; freed again, the count says two |
| Frames.ReleaseCounts | include/rivet/paging.h:64-70 | a release keeps the count equal to the number of free frames if and only if the frame was not free already |
| Bits.SetBitEffect | include/rivet/paging.h:68 | or-ing with `1 << b` sets bit `b` and no other |
| Bits.ClearBitEffect | include/rivet/paging.h:53 | `x & ~(1 << b)` clears bit `b` and no other |
| Bits.CtzIsLowestSetBit | include/rivet/paging.h:50 | count-trailing-zeros is the position of a set bit with no set bit below it |
| PageTable.SamePathSamePage | include/rivet/paging.h:104-109 | two addresses take the same path through the tables exactly when they lie on the same page, for both architectures |
| PageTable.X86Indices | include/rivet/paging.h:104-109 | the shifts and masks of the four levels are the base-512 digits of the page number |
| PageTable.Sv32Indices | include/rivet/paging.h:200-201 | the two Sv32 indices are the base-1024 digits of the page number |
| PageTable.EntryDecodes | include/rivet/paging.h:115-119 | the table entry written for a frame is present and leads to that frame |
| PageTable.LeafDecodes | include/rivet/paging.h:122-139 | the leaf entry is present and gives back the physical page, whatever the flags, reduced modulo 2^52 on x86_64 |
| PageTree.LinkIsLocal | include/rivet/paging.h:110-121 | in a tree without sharing, writing one entry changes only the paths that go through that entry |
| PageTree.OtherFramesInvisible | include/rivet/paging.h:126-139 | what stands in frames that are no tables of a tree does not matter to it |
| PageTree.HangTable | include/rivet/paging.h:112-117 | hanging a fresh zeroed frame under an empty entry adds exactly one table, shares none and changes no translation |
| PageTree.SetLeaf | include/rivet/paging.h:122 | writing a last-level entry changes exactly one translation and no table |
| PageMaps.EnterCorrect | include/rivet/paging.h:110-121 | one level of `map` keeps the tree well formed and all translations, whether the table exists, is allocated, or no frame is left |
| PageMaps.MapFromCorrect | include/rivet/paging.h:110-123 | from any level down, `map` changes the translation of its own path and no other, and a failure part way changes none |
| PageMaps.MapFromCounts | include/rivet/paging.h:110-123 | from any level down, success, the frames taken and the count are given by the number of absent tables on the path |
| PageMaps.MapRefinesUpdate | include/rivet/paging.h:101-124 | map succeeds if and only if there is a free frame for every table the path lacks, and takes just those; then every address of the page translates to the physical page plus its offset and every other address as before. After a failure every address translates as before and no frame is free. The count stays exact |
| PageMaps.UnmapRefinesRemoval | include/rivet/paging.h:142-155 | unmap removes the translation of the page it names and of no other; it succeeds if and only if a last-level table covers the address, and otherwise nothing is mapped there and nothing changes |
| PageRights.MapEntries | include/rivet/paging.h:110-123 | from any level down, `map` writes the leaf entry of its own path, fills the absent entries above it with tables made for its user flag, and leaves every other entry at every level alone |
| PageRights.MapSetsLeaf | include/rivet/paging.h:101-124 | a successful map writes the leaf entry of its page, flags included, and no map changes the leaf entry of another page |
| PageRights.UnmapClearsLeaf | include/rivet/paging.h:142-155 | unmap clears the leaf entry of its page and of no other |
| PageRights.X86LeafRights | include/rivet/paging.h:84-91 | the leaf entry is writable, open to user mode and global exactly as the flags ask, and closed to execution exactly when they ask or the address has bit 63 |
| PageRights.Sv32LeafRights | include/rivet/paging.h:183-189 | the leaf entry is readable, and writable, open to user mode and global exactly as the flags ask; it is never executable |
| PageRights.ReachesExact | include/rivet/paging.h:110-123 | a page just mapped can be written, or used in user mode, if and only if the flags ask for it and every table that stood on its path before gives that right |
| PageRights.OthersReachAlike | include/rivet/paging.h:101-124 | no map changes whether any other page can be written or used in user mode |
| PageRights.KernelTableShuts | include/rivet/paging.h:110-123 | a table made for a kernel page shuts user mode out of every page mapped under it later |
| PageRights.UserPageShutOut | include/rivet/paging.h:110-123 | a kernel page at 0 and then a user page at 0x1000, in an address space with nothing mapped near 0: both calls succeed, the leaf is open to user mode, and user mode cannot reach it |
| Paging.EnterTable | include/rivet/paging.h:111-120 | the loop body of map on bitmap and memory is the one-level step of the specification, count included, and keeps the count exact |
| Paging.X86PageMap.Init | include/rivet/paging.h:94-99 | a zeroed frame becomes the root, -1 when there is none; on a pool just initialised the run invariant holds and nothing is mapped |
| Paging.X86PageMap.Map | include/rivet/paging.h:101-124 | the four-level loop on memory is the specified map, including -1 when frames run out, and keeps `free_count` the number of free frames |
| Paging.X86PageMap.Walk | include/rivet/paging.h:126-140 | the four-level walk returns the specified translation, 0 when there is none |
| Paging.X86PageMap.Unmap | include/rivet/paging.h:142-155 | the four-level unmap is the specified removal |
| Paging.Sv32PageMap.Init | include/rivet/paging.h:191-196 | the same for Sv32 |
| Paging.Sv32PageMap.Map | include/rivet/paging.h:198-214 | the two-level Sv32 map is the specified map and keeps `free_count` the number of free frames |
| Paging.Sv32PageMap.Walk | include/rivet/paging.h:216-225 | the two-level Sv32 walk returns the specified translation |
| Paging.Sv32PageMap.Unmap | include/rivet/paging.h:227-235 | the two-level Sv32 unmap is the specified removal |
| PagingRuns.MapUntouched | include/rivet/paging.h:101-155 | a step that leaves the tables of a page map alone leaves the page map and its translations alone |
| PagingRuns.MapKept | include/rivet/paging.h:101-124 | map in one of any number of page maps over the pool keeps the partition and the count, changes that page map as its plain map and no other page map |
| PagingRuns.UnmapKept | include/rivet/paging.h:142-155 | the same for unmap |
| PagingRuns.NewKept | include/rivet/paging.h:94-99 | creating a page map adds one that translates nothing, if there is a frame, and disturbs no other |
| PagingRuns.TakeKept | include/rivet/paging.h:46-62 | a frame taken from the allocator disturbs no page map |
| PagingRuns.WriteKept | include/rivet/paging.h:46-155 | what a holder writes into its own frame changes no translation |
| PagingRuns.StepKept | include/rivet/paging.h:46-235 | every call keeps the partition (each frame of the region is free, held by a caller, or a table of exactly one page map reached along one path, and only one of these), keeps `free_count` the number of free frames, and changes the translations as it changes the plain maps |
| PagingRuns.GiveKeeps | include/rivet/paging.h:64-70 | giving back a held frame keeps all this, never frees a frame twice, and the count grows by one with the free set |
| PagingRuns.RunRefines | include/rivet/paging.h:46-235 | over every run of creating page maps, map, unmap, allocation, release and writing of held frames, on both architectures, every page map is its plain map, the partition holds and `free_count` is the number of free frames |
| PagingRuns.Isolation | include/rivet/paging.h:46-235 | over every run only a page map's own map and unmap calls change what it translates |
| PagingRuns.FreshPool | include/rivet/paging.h:37-44 | what `riv_pmm_init` makes of a page-aligned region meets the demands of `riv_pgmap_init` |
| PagingRuns.InitIsEmpty | include/rivet/paging.h:94-99 | such a pool satisfies the run invariant without page maps, and the first page map made on it translates nothing |
| X86RoundTrip.SeenAsWritten | src/arch/x86_64_as.c:179-209 | the listing shows the operand that was written if and only if it has an index other than rsp and r12 (or none) and a base register, or an index without displacement |
| X86RoundTrip.MemoryOperandRoundTrip | src/arch/x86_64_as.c:171-209 | for every base, index, scale and 32-bit displacement, ModR/M, SIB and displacement decode to the operand and consume just the bytes emitted, with the forced SIB and zero byte; equality with what was written holds exactly for expressible operands |
| X86RoundTrip.StatementRoundTrip | src/arch/x86_64_as.c:286-492 | every statement the encoder accepts decodes, whatever bytes follow, to its own mnemonic and operands and to exactly its own length; where the mnemonic is a digit it is the one the disassembler's tables name |
| X86RoundTrip.DigitNames | src/arch/x86_64_disas.c:161-173 | every digit the assembler writes for add, or, and, sub, xor, cmp, inc, dec, not, neg, mul, div, idiv, shl, shr and sar is the one under which the disassembler's tables hold that name |
| X86RoundTrip.FormsExact | src/arch/x86_64_disas.c:124-141 | an opcode is listed in one of the two operand orders exactly if it is the one the assembler writes for that mnemonic and order |
| X86RoundTrip.RefusedExactly | src/arch/x86_64_as.c:212-240 | the assembler refuses exactly two memory operands, an immediate destination, `test` with an immediate, and an immediate into memory other than by `mov` |
| X86RoundTrip.ShortMoveExact | src/arch/x86_64_as.c:342-353 | `mov reg, imm` takes the short form if and only if the sign extension the processor applies gives back the number written |
| X86RoundTrip.ShortDisplacementExact | src/arch/x86_64_as.c:188-191 | the one-byte displacement is taken if and only if its sign extension is the displacement |
| X86RoundTrip.RipRelativeListed | src/arch/x86_64_disas.c:201-206 | mod 0 with r/m 5 lists the displacement whose little-endian bytes follow, relative to rip |
| X86RoundTrip.ListedAsWritten | src/arch/x86_64_disas.c:175-223 | the listing of a statement, which names the mnemonic as it was written, shows the operands as written if and only if its memory operand, if any, is expressible |
| X86RoundTrip.RspIndexLost | src/arch/x86_64_as.c:196-200 | `lea rax, [rax + rsp]` is listed without its index |
| X86RoundTrip.R12IndexLost | src/arch/x86_64_disas.c:192 | `lea rax, [rax + r12*8]` is listed without its index |
| X86RoundTrip.BareDisplacementLost | src/arch/x86_64_as.c:193-194 | `lea rax, [0x1000]` is listed as `[rdi + 0x1000]` |
| X86RoundTrip.RmOrMrReadBack | src/arch/x86_64_as.c:212-240 | the direction of `op reg, r/m` and `op r/m, reg` survives encoding and decoding, for register and memory on either side |
| X86RoundTrip.BranchRoundTrip | src/arch/x86_64_as.c:449-473 | jmp, call and every jcc decode at their own address to the target modulo 2^32 |
| Sweep.ListingTiles | src/rivet-disas.c:57-77 | for every decoder and every file: each line lists what the decoder finds where the lines before it end, or the raw byte there where it finds nothing, its address follows from theirs, and together they cover every byte once |
| X86Sweep.DecodeProgress | src/arch/x86_64_disas.c:20-261 | a decoded instruction takes at least one byte, at most 15, and never more than there are |
| X86Sweep.EncodeShort | src/arch/x86_64_as.c:286-492 | every statement takes between 1 and 15 bytes |
| X86Sweep.SweepInvertsAssembly | src/rivet-disas.c:57-77 | for every list of statements the linear sweep over their concatenated encodings lists each of them, by its own mnemonic and operands, at its own boundary, and then goes on with whatever follows |
| X86Sweep.FirstLine | src/rivet-disas.c:57-77 | a statement followed by anything is listed first, by its own mnemonic and operands, and the sweep resumes right behind it |
| Sweep.Disassemble | src/rivet-disas.c:57-77 | the loop over the buffer prints the specified listing for any decoder that makes progress, raw bytes included, and ends |
| X86Decoder.DecodeNext | src/arch/x86_64_disas.c:20-262 | the cursor-and-flags decoder returns exactly what the specified decoder returns, including nothing when bytes are missing |
| X86Decoder.Cursor.Run | src/arch/x86_64_disas.c:22-33 | the optional prefix sets the flags and the opcode is taken after it; the cursor ends at the number of bytes consumed |
| X86Decoder.Cursor.AfterOpcode | src/arch/x86_64_disas.c:44-150 | every opcode class reads its operands from the cursor as specified |
| X86Decoder.Cursor.TwoByte | src/arch/x86_64_disas.c:93-116 | the opcodes behind 0x0F, with jcc targets and imul registers, as specified |
| X86Decoder.Cursor.WithModRm | src/arch/x86_64_disas.c:152-261 | ModR/M forms: operand, digit, order of operands and immediate as specified |
| X86Decoder.Cursor.Memory | src/arch/x86_64_disas.c:176-210 | memory operands: SIB, rip-relative and base forms as specified |
| X86Decoder.Cursor.Scaled | src/arch/x86_64_disas.c:185-200 | SIB operands, with the base dropped for base 5 under mod 0 and no index for index 4 |
| X86Decoder.Cursor.Displacement | src/arch/x86_64_disas.c:198-199 | the sign-extended byte, the 32-bit displacement or none, as mod asks |
| Rv32RoundTrip.WordRoundTrip | src/arch/riscv32_disas.c:18-130 | for every statement of the ISA table, decoding the word at its own address recovers the mnemonic and all operands, with immediates reduced to what their field keeps |
| Rv32RoundTrip.RegNamesExact | src/arch/riscv32_disas.c:31-51 | a register operation is named exactly by the fields the assembler writes for it, and every other word of the opcode is unknown |
| Rv32RoundTrip.OtherNamesExact | src/arch/riscv32_disas.c:69-97 | likewise loads, stores and branches |
| Rv32RoundTrip.StatementRoundTrip | src/arch/riscv32_as.c:230-378 | every source line decodes from its four bytes whatever follows: nop as addi x0, x0, 0, mv as addi with 0, li as addi from x0, j as jal x0, ret as jalr x0, x1, 0, every other line as itself |
| Rv32RoundTrip.Kept12Unique | src/arch/riscv32_as.c:48-75 | a 12-bit immediate keeps the unique signed value congruent to the operand modulo 2^12 |
| Rv32RoundTrip.Kept13Unique | src/arch/riscv32_as.c:78-88 | a branch keeps the unique even offset in -4096..4094 congruent, bit 0 cleared, modulo 2^13 |
| Rv32RoundTrip.Kept21Unique | src/arch/riscv32_as.c:98-106 | a jal keeps the unique even offset in -2^20..2^20-2 congruent, bit 0 cleared, modulo 2^21 |
| Rv32RoundTrip.BranchTargetExact | src/arch/riscv32_disas.c:85-104 | a branch or jal is listed with its own target if and only if the distance is even and in range |
| Rv32RoundTrip.FarJump | src/arch/riscv32_disas.c:98-104 | a jal over 2^20 bytes forward is listed 2^20 bytes back |
| Rv32RoundTrip.FarBranch | src/arch/riscv32_disas.c:85-97 | a branch over 2^12 bytes forward is listed 2^12 bytes back |
| Rv32RoundTrip.BranchWord | src/arch/riscv32_as.c:78-88 | the scattered offset bits of a branch word reassemble to the offset with bit 0 cleared |
| Rv32RoundTrip.JumpWord | src/arch/riscv32_as.c:98-106 | the scattered offset bits of a jal word reassemble to the offset with bit 0 cleared |
| Rv32RoundTrip.ShiftWord | src/arch/riscv32_as.c:57-64 | a shift word keeps register, function and the low five bits of the amount apart |
| Words.Le32Value | src/arch/x86_64_as.c:41-46 | the four bytes emitted for a 32-bit value spell it, least significant byte first |
| Words.Le64Value | src/arch/x86_64_as.c:47-50 | the same for the eight bytes of a 64-bit value |
| Words.Read32Value | src/arch/x86_64_disas.c:37-38 | the disassembler's 32-bit read gives the number that the four bytes spell |
| Words.LowValues | src/rivet-as.c:211-226 | the casts to 8, 16 and 32 bits are the remainders modulo 2^8, 2^16 and 2^32 |
| Words.PlusValue | src/arch/x86_64_disas.c:103 | addition of 32-bit words is addition modulo 2^32 |
| Words.DistanceValue | src/arch/x86_64_as.c:449-473 | the offset of a branch is the difference of the addresses modulo 2^32 |
| AsmTwoPass.X86SameLength | src/arch/x86_64_as.c:286-492 | the length of an x86_64 statement depends on its displacements and on the immediate of `mov reg, imm` alone |
| AsmTwoPass.SameLayout | src/rivet-as.c:199-276 | if the layout operands of a line are known, both passes emit equally many bytes and leave the counter at the same place |
| AsmTwoPass.PassesAgree | src/rivet-as.c:279-291 | for a settled program both passes reach the same counter at every line and write the same stretches |
| AsmTwoPass.RewriteErases | src/rivet-as.c:35-39 | writing a second pass of the same shape over the first leaves nothing of the first |
| AsmTwoPass.ArchStableExact | src/rivet-as.c:263-268 | every instruction has the same backend in both passes if and only if the last backend selected is the one the first pass started with or no instruction comes before the first `.arch` |
| AsmExact.BodyExact | src/rivet-as.c:199-276 | for every directive and instruction, any two symbol tables and any two backends: both passes leave the counter at the same place if and only if the target of `.org`, the count of a fill, the padding of an alignment or the encoder's tests agree, and where the backends differ the x86_64 form takes four bytes |
| AsmExact.PassesExact | src/rivet-as.c:279-291 | two passes reach the same counter at every line and at the end if and only if every line is alike, which the first pass alone decides; then they write the same stretches |
| AsmExact.AgreementExact | src/rivet-as.c:318-319 | for every program that assembles, the passes agree on every counter if and only if every line is alike |
| AsmExact.AgreedImage | src/rivet-as.c:318-323 | then the file size and the image are what the second pass alone makes of a cleared buffer |
| AsmExact.SettledAgrees | src/rivet-as.c:318-319 | numbers and earlier symbols in the layout operands, under a stable backend, are enough for agreement |
| AsmExact.LabelLands | src/rivet-as.c:185-196 | in every program whose passes agree, a label is recorded where the bytes of its line land |
| AsmTwoPass.TwoPassAgreement | src/rivet-as.c:318-323 | if layout-deciding operands use only numbers and earlier symbols and the backend is stable, the passes agree at every line and the image is what the second pass alone writes into a cleared buffer |
| AsmTwoPass.LabelRecorded | src/rivet-as.c:185-196 | every label ends up in the table with base plus the counter at its line |
| AsmTwoPass.LabelIsWhereBytesLand | src/rivet-as.c:185-196 | the recorded address of a label is where the bytes of its line land in the output |
| AsmEdges.ForwardMoveExact | src/arch/x86_64_as.c:343-353 | `mov reg, sym` before the definition has the same length in both passes if and only if the address is below 2^31 |
| AsmLengths.ForwardDispExact | src/arch/x86_64_as.c:179-209 | for every base, index and scale, with or without either, two displacement values give the same length if and only if both or neither fit a signed byte |
| AsmLengths.SizeIs | src/arch/x86_64_as.c:286-492 | the number of bytes of every x86_64 statement, from a table by form and operands |
| AsmLengths.LineLengthExact | src/arch/x86_64_as.c:286-492 | for every x86_64 instruction line and any two symbol tables the two passes give the same length if and only if its displacement fits a byte under both or neither and its `mov reg, imm` value fits 32 bits under both or neither |
| AsmEdges.ForwardMoveDisagrees | src/rivet-as.c:318-319 | a two-line program at base 2^31 whose label is recorded 7 bytes in and emitted 10 bytes in |
| AsmEdges.ForwardDispDisagrees | src/rivet-as.c:318-319 | a two-line program at base 0x1000 with a forward displacement whose label is recorded 4 bytes in and emitted 7 bytes in |
| AsmEdges.ForwardFillDisagrees | src/rivet-as.c:227-233 | `.zero x` before `x` at base 16: the label is recorded at the start and emitted 16 bytes in |
| AsmEdges.LateArchDisagrees | src/rivet-as.c:263-268 | an instruction before `.arch` takes one byte in the first pass and four in the second |
| AsmBranches.InstructionInOutput | src/rivet-as.c:318-323 | in every program whose passes agree, the bytes of an instruction that no later line overwrites stand in the output file at its own address; `AsmListing.X86LineListed` and `AsmListing.RvLineListed` say what they list |
| AsmBranches.LineInOutput | src/rivet-as.c:318-323 | the same for every line, directives included |
| AsmBranches.LabelValue | src/rivet-as.c:76-90 | a label operand evaluates, in the second pass, to the address where the label's line lands |
| AsmBranches.X86BranchResolves | src/arch/x86_64_as.c:449-473 | in every program whose passes agree, every jmp, call and jcc to a label, decoded at its own address in the output, lists the label's recorded address |
| AsmBranches.RvBranchResolves | src/arch/riscv32_as.c:325-337 | in every program whose passes agree, every branch, jal or j to a label, decoded at its own address in the output, lists the label's recorded address if and only if the distance is in range |
| AsmNames.TableHoldsText | src/rivet-as.c:55-90 | for every program that assembles and every name, the table of the second pass holds what the text gives the name: the address of the line that labels it, the low 32 bits of the expression of its `.equ`, the first definition if names are cut alike, nothing if there is none |
| AsmNames.EquNames | src/rivet-as.c:257-262 | the name of an `.equ` stands for its expression: the number, the earlier name's value, or 0 for a name defined later |
| AsmListing.DisplacementReads | src/arch/x86_64_as.c:161-165 | a displacement evaluates, modulo 2^32, to the sum of its positive summands less the sum of its negative ones |
| AsmListing.DisplacementValue | src/arch/x86_64_as.c:161-165 | that is the signed sum of the summands over the integers, modulo 2^32 |
| AsmListing.X86Reads | src/arch/x86_64_as.c:286-492 | what the encoder makes of an x86_64 line lists as the line's own mnemonic, registers and operand values, and is refused exactly when the line is |
| AsmListing.RvReads | src/arch/riscv32_as.c:281-378 | the same for every RV32 line, pseudo-instructions included |
| AsmListing.X86LineListed | src/rivet-as.c:311-323 | in every program whose passes agree, every x86_64 instruction that no later line overwrites, decoded at its own address in the output, lists the mnemonic and registers of its line, each number as its value, each label as the address where its line lands and each `.equ` name as its expression |
| AsmListing.RvLineListed | src/rivet-as.c:311-323 | the same for every RV32 instruction, immediates as their fields keep them |
| AsmData.ItemValue | src/rivet-as.c:211-226 | the bytes of a data item spell its value modulo the width, least significant byte first |
| AsmData.DataItemInOutput | src/rivet-as.c:211-226 | in every program whose passes agree, item i of a data line reads back from the output, i widths behind the line's address, as its value modulo the width |
| AsmData.FillInOutput | src/rivet-as.c:227-233 | a fill leaves its count, modulo 2^32, of the low byte of its value |
| AsmData.TextInOutput | src/rivet-as.c:234-242 | the bytes of a string stand in the output at the line's address |
| AsmData.OrgLands | src/rivet-as.c:203-210 | the line after an `.org` lands at the address the directive names, modulo 2^32 |
| AsmData.AlignLeast | src/rivet-as.c:247 | the padding reaches the first counter, not before the present one, whose bits under the mask are clear |
| AsmData.AlignLands | src/rivet-as.c:243-255 | the line after an alignment lands on the first counter that the mask accepts |
| AsmData.P2AlignLands | src/rivet-as.c:250-255 | `.p2align n` brings the counter to the next multiple of 2^n |
| Assembler.Assembler.EmitU8 | src/rivet-as.c:35-39 | one byte at the counter, high-water mark raised, error at the end of the buffer with nothing changed |
| Assembler.Assembler.EmitBytes | src/rivet-as.c:40-53 | bytes in order; fails exactly when they do not fit |
| Assembler.Assembler.EmitRepeat | src/rivet-as.c:227-233 | fill directives write the count of bytes asked for |
| Assembler.Assembler.EmitAlign | src/rivet-as.c:243-255 | zeros up to the first counter value with the masked bits clear |
| Assembler.Assembler.EmitForward | src/rivet-as.c:203-210 | `.org` writes zeros forward and can move the counter back |
| Assembler.Assembler.EmitData | src/rivet-as.c:211-226 | data directives write their items little-endian at their width |
| Assembler.Assembler.SetSymbol | src/rivet-as.c:55-71 | a symbol is appended with its name cut to 63 characters; a name found already or a full table is an error |
| Assembler.Assembler.SetLabels | src/rivet-as.c:185-196 | all labels of a line get the same address |
| Assembler.Assembler.ProcessBody | src/rivet-as.c:199-276 | directive or instruction: buffer, counter and high-water mark change as specified, error exactly where specified; `AsmListing` and `AsmData` say what the bytes then stand for |
| Assembler.Assembler.ProcessLine | src/rivet-as.c:180-277 | one line changes symbols, counter, backend and buffer as specified |
| Assembler.Assembler.AssembleFile | src/rivet-as.c:279-291 | one pass over all lines is the specified pass and its writes |
| Assembler.Assembler.Assemble | src/rivet-as.c:311-323 | both passes in sequence write out the specified image, so the theorems above, and what `AsmListing` and `AsmData` say of each line, speak of the file |
| Lists.Init | include/rivet/list.h:14 | a head linked to itself is an empty ring |
| Lists.IsEmpty | include/rivet/list.h:16 | the test answers whether the ring's sequence is empty |
| Lists.Insert | include/rivet/list.h:18-21 | the four pointer writes insert the node into the ring's sequence at that place |
| Lists.AddTail | include/rivet/list.h:23 | the ring's sequence gets the node at its end |
| Lists.Delete | include/rivet/list.h:25-29 | the node leaves the ring's sequence and is linked to itself; a detached node changes nothing |
| Lists.Pop | include/rivet/list.h:32-35 | the first node of the sequence, detached, or null from an empty list |
| SchedInvariant.YieldKeeps | include/rivet/proc.h:108-125 | a switch keeps the invariant: each process in at most one queue, run-queue members ready, wait-queue members sleeping, zombies in none, only the current process running |
| SchedInvariant.PutToSleepKeeps | include/rivet/waitq.h:29-40 | going to sleep keeps the invariant, also for a process still queued after a sleep that did not switch; the order of the queue is the subject of `SchedRuns.WokenInOrder` |
| SchedInvariant.WakeOneKeeps | include/rivet/waitq.h:43-54 | waking the first sleeper keeps the invariant |
| SchedInvariant.AllocKeeps | include/rivet/proc.h:71-87 | taking a slot keeps the invariant |
| SchedInvariant.AllocExact | include/rivet/proc.h:71-87 | a slot is taken if and only if one is unused: the lowest, which becomes ready, and nothing else changes |
| SchedInvariant.DieExact | include/rivet/proc.h:128-134 | marking the current process dead keeps the invariant if and only if it was running |
| SchedRuns.StepKeeps | include/rivet/proc.h:71-136 | every guarded body its callers may run keeps the invariant; sleep and exit are two steps each, so anything may come between the queue insertion or the zombie write and the switch |
| SchedRuns.WakeAllKeeps | include/rivet/waitq.h:57-61 | wake_all keeps the invariant and leaves the wait queue empty |
| SchedRuns.WakeAllInOrder | include/rivet/waitq.h:43-61 | waking everyone appends the wait queue, in its order, to the run queue and touches no other queue |
| SchedRuns.WakeAllIsRun | include/rivet/waitq.h:57-61 | an undisturbed wake_all is a run of as many wake-ups as there are sleepers |
| SchedRuns.NoLostWakeUp | include/rivet/waitq.h:26-38 | a wake_all that comes between the queue insertion of a sleep and its yield finds the sleeper and puts it, ready, on the run queue |
| SchedRuns.WokenByTurn | include/rivet/waitq.h:42-54 | in every run, a process that sleeps behind k others is on the run queue by wake-up number k + 1 of its queue, whatever other calls come in between, unless it is still current and parks itself anew |
| SchedRuns.SleeperRuns | include/rivet/waitq.h:29-54 | a process that parks behind k sleepers runs again after k + 1 wake-ups of the queue and then as many switches as there are process slots |
| SchedRuns.WokenInOrder | include/rivet/waitq.h:35-47 | first in, first out, by the calls of a run alone: if x parks, and y parks on the same queue while x sleeps on, then before y is awake there is a point at which x is on the run queue and y still asleep |
| SchedRuns.NeverLost | include/rivet/proc.h:100-125 | from the call that makes it ready on, a process runs, is ready on the run queue, sleeps on a wait queue or is dead, after every run |
| SchedRuns.StepLeaves | include/rivet/proc.h:128-136 | no call changes a zombie into anything else |
| SchedRuns.RunSafe | include/rivet/proc.h:71-136 | in every run, wake-ups and ticks inside sleep and exit included, the invariant holds, and a zombie stays one and in no queue |
| SchedRuns.StepAdvances | include/rivet/proc.h:108-125 | each call makes a queued process current or leaves it no farther back, one place nearer if it switches |
| SchedRuns.Fairness | include/rivet/proc.h:108-125 | a process at run-queue position k becomes current within k + 1 switches, whatever ready, wake, park and die steps come in between |
| SchedRuns.BootIsSafe | include/rivet/proc.h:66-68 | the initial table satisfies the invariant |
| SchedRuns.LonelySleep | include/rivet/waitq.h:29-40 | a run from the initial state in which a process sleeps with nothing else to run and stays current while it is queued |
| SchedRuns.ZombieRevived | include/rivet/proc.h:128-136 | if it exits in that state, a wake-up makes the zombie ready and the next switch runs it again |
| Kernel.Kernel.constructor | include/rivet/proc.h:66-68 | zeroed slots and self-linked heads stand for the initial state |
| Kernel.Kernel.Alloc | include/rivet/proc.h:71-87 | the scan takes the first unused slot, or reports that there is none, and the linked queues are untouched |
| Kernel.Kernel.Ready | include/rivet/proc.h:100-105 | tail insertion into the run queue on real nodes is the specified call, and keeps every other ring |
| Kernel.Kernel.Yield | include/rivet/proc.h:108-125 | requeue and pop on real nodes are the specified switch and keep every queue a ring of its members, in any state in which a running process is off the queues |
| Kernel.Kernel.Switch | include/rivet/proc.h:117-120 | the process at the head of the run queue becomes current, running and detached |
| Kernel.Kernel.Park | include/rivet/waitq.h:32-36 | delete and tail insertion on real nodes are the specified parking, for which `SchedRuns.WokenInOrder` and `SchedRuns.WokenByTurn` give the order of wake-ups |
| Kernel.Kernel.Sleep | include/rivet/waitq.h:29-40 | sleep on real nodes with nothing in between is the specified parking followed by the switch; `SchedRuns.SleeperRuns` says when the process runs again |
| Kernel.Kernel.WakeOne | include/rivet/waitq.h:43-54 | wake_one on real nodes is the specified call and reports whether anyone slept |
| Kernel.Kernel.WakeAll | include/rivet/waitq.h:57-61 | the loop wakes every sleeper, counts them and leaves the queue empty |
| Kernel.Kernel.Die | include/rivet/proc.h:129-133 | the zombie write keeps the rings, and leaves a sound state if and only if the process was running |
| Kernel.Kernel.Exit | include/rivet/proc.h:128-136 | exit up to its first switch, from every sound state, a process still queued included, is the specified pair of steps; a running process leaves a sound state |
| Kernel.Kernel.LinkNode | include/rivet/list.h:23 | with all nodes and heads distinct, linking into one ring leaves every other ring and every detached node alone |
| Kernel.Kernel.UnlinkNode | include/rivet/list.h:25-29 | unlinking from whichever ring holds the node leaves every other ring and every detached node alone |
| Kernel.Kernel.Append | include/rivet/list.h:23 | the queue gets the process at its end; every queue is still a ring of its members' nodes |
| Kernel.Kernel.Remove | include/rivet/list.h:25-29 | the process leaves the one queue it is in, or none, and its node is detached |
| Kernel.Kernel.Take | include/rivet/list.h:32-35 | the process whose node is first, found through its node, leaves the queue |
| RingIndex.SlotOf | include/rivet/ring.h:40 | masking a counter that has wrapped modulo 2^32 gives the slot of the counter that has not |
| RingIndex.DistanceKept | include/rivet/ring.h:27-33 | the wrapped counters measure the distance between the unwrapped ones |
| RingIndex.Accepted | include/rivet/ring.h:18-19 | a capacity that passes the test is a power of two of at most 2^31 |
| Bits.IsPow2Exact | include/rivet/ring.h:19 | the test accepts exactly the powers of two |
| Bits.AndMaskIsMod | include/rivet/ring.h:40 | masking with 2^k - 1 is the remainder modulo 2^k |
| RingSteps.RoomExact | include/rivet/ring.h:39 | the fullness test holds exactly when the capacity is unread, the emptiness test exactly when nothing is |
| RingSteps.NoOverwrite | include/rivet/ring.h:40 | the slot about to be written holds no byte that is still unread |
| RingSteps.ProducerKeeps | include/rivet/ring.h:36-44 | each load, store and buffer write of push keeps the invariant whatever the consumer is doing |
| RingSteps.ConsumerKeeps | include/rivet/ring.h:47-55 | each load, store and buffer read of pop keeps the invariant whatever the producer is doing |
| RingSteps.RunKeeps | include/rivet/ring.h:36-55 | every interleaving of any length keeps the invariant |
| RingSteps.FifoForAllInterleavings | include/rivet/ring.h:18-55 | for every accepted capacity and every interleaving, what was popped is a prefix of what was pushed, at most the capacity is waiting and every waiting byte is in its slot, however often the indices wrap |
| RingSteps.RefusedExactly | include/rivet/ring.h:36-55 | a push gives up exactly when the ring is full as it reads tail, a pop exactly when it is empty as it reads head |
| RingBuffer.PushSteps | include/rivet/ring.h:36-44 | an uninterrupted push is two producer steps when full and four otherwise, with this effect |
| RingBuffer.PopSteps | include/rivet/ring.h:47-55 | an uninterrupted pop is two consumer steps when empty and four otherwise, with this effect |
| RingBuffer.Ring.Init | include/rivet/ring.h:18-25 | a ring is made exactly for power-of-two capacities, and is empty |
| RingCount.CountExact | include/rivet/ring.h:27-31 | with the other side at work between the two loads, the count is pushed-at-the-first minus popped-at-the-second if and only if no byte was both pushed and popped in between; so the producer reads what is waiting at its second load and the consumer what was waiting at its first |
| RingBuffer.Ring.Count | include/rivet/ring.h:27-31 | with nothing between the two loads, the wrapped difference is the number of bytes waiting |
| RingBuffer.Ring.Push | include/rivet/ring.h:36-44 | appends the byte exactly when there is room, and is a run of the step machine |
| RingBuffer.Ring.Pop | include/rivet/ring.h:47-55 | takes the oldest byte exactly when there is one, and is a run of the step machine |
| RingBuffer.Ring.Write | include/rivet/ring.h:58-62 | appends a prefix of the source, all of it unless the ring is then full |
| RingBuffer.Ring.Read | include/rivet/ring.h:64-68 | takes the oldest bytes in order, as many as asked unless the ring is then empty |
| HashSpec.MoveDescends | include/rivet/hash.h:89-103 | each move of the delete loop lowers the summed distance from home by one, so the loop ends in any table at all |
| HashMap.GetRefines | include/rivet/hash.h:65-74 | lookup returns what the map holds, for keys of any length |
| HashMap.SetRefines | include/rivet/hash.h:47-62 | set is map update and keeps keys distinct and probe paths gap-free; it fails if and only if the table is full and the key absent |
| HashMap.FrameAfter | include/rivet/hash.h:47-62 | with an unused slot about, no probe path leads past the slot after it |
| HashDelete.ShiftRemoves | include/rivet/hash.h:88-103 | the shift loop removes the entry it starts from and no other, wherever the others move |
| HashDelete.ShiftExact | include/rivet/hash.h:88-103 | after the shift the probe paths are gap-free if and only if none crossed the slot finally emptied |
| HashDelete.FinalIsEmptied | include/rivet/hash.h:88-103 | the slot finally emptied can be read off the table before the call: the last before an unused slot or an entry at home |
| HashDelete.LookupsExact | include/rivet/hash.h:65-74 | lookups agree with the map if and only if no probe path has a gap |
| HashDelete.DelExact | include/rivet/hash.h:77-106 | delete removes exactly its key from the map; the probe invariant and every later lookup survive if and only if no remaining entry's probe path crosses the slot finally emptied |
| HashRuns.FullExact | include/rivet/hash.h:49-61 | the table is full exactly when the map has as many keys as there are slots |
| HashRuns.StepRefines | include/rivet/hash.h:47-106 | each allowed call is the call on a bounded map |
| HashRuns.RunRefines | include/rivet/hash.h:47-106 | every run of sets with fitting keys and of uncrossed deletes is the run of a bounded map, and lookups read it |
| HashRuns.SetThenGet | include/rivet/hash.h:47-74 | what set stores get returns if and only if the key has at most 31 characters; longer keys are never found |
| HashRuns.LongKeyLost | include/rivet/hash.h:47-74 | a key of 32 characters, set in an empty table and not found |
| HashRuns.EntryLost | include/rivet/hash.h:88-103 | a table of three keys in which deleting the first makes the third unfindable |
| HashTable.HashOf | include/rivet/hash.h:28-35 | the loop computes FNV-1a over the bytes, of which `HashTable.FnvVector` gives the published value for "foobar" |
| HashTable.FnvVector | include/rivet/hash.h:28-35 | the 64-bit FNV-1a of "foobar" is the published value |
| HashTable.MayMoveExact | include/rivet/hash.h:95-96 | the two-armed comparison asks exactly whether the next entry is away from home |
| HashTable.Hash.constructor | include/rivet/hash.h:39-43 | cleared slots stand for the empty map |
| HashTable.Hash.Init | include/rivet/hash.h:37-44 | a table is made exactly for power-of-two capacities |
| HashTable.Hash.Look | include/rivet/hash.h:48-61 | the probe loop shared by the three calls finds what the specified search finds |
| HashTable.Hash.Get | include/rivet/hash.h:65-74 | the specified lookup, in any table; in a sound one, the map's |
| HashTable.Hash.Set | include/rivet/hash.h:47-62 | the specified insertion, in any table; in a sound one it is map update and the count stays the number of keys |
| HashTable.Hash.Del | include/rivet/hash.h:77-106 | the specified deletion, in any table; from a sound one the count and map are right and soundness survives exactly when nothing crosses the emptied slot |
| HashTable.Hash.ShiftBack | include/rivet/hash.h:88-103 | the unbounded loop ends and is the specified shift |
| HeapSpec.RoundExact | include/rivet/heap.h:53 | rounding gives the least multiple of 8 that is big enough if and only if the request is at most 2^w - 8; above that it gives 0 |
| HeapSpec.ShortArena | include/rivet/heap.h:46 | an arena of 16 bytes gets a first block of 2^64 - 8 |
| HeapSpec.FirstSizeExact | include/rivet/heap.h:46 | the first block fits its arena if and only if the arena holds a header; otherwise its size wraps |
| HeapLaws.LiveInside | include/rivet/heap.h:52-68 | live payloads lie inside the arena behind their headers |
| HeapLaws.LiveDisjoint | include/rivet/heap.h:52-68 | two live payloads never overlap |
| HeapLaws.CarveLaws | include/rivet/heap.h:56-64 | cutting or taking a block loses no byte and makes no pair of free neighbours |
| HeapLaws.AllocExact | include/rivet/heap.h:52-68 | alloc fails if and only if no free block has the bytes asked for; otherwise it takes the first that has, whole or cut to just those bytes with eight or more left free behind a header, and gives away less than a header and eight bytes |
| HeapLaws.AllocLaws | include/rivet/heap.h:52-68 | alloc fails if and only if no free block fits the rounded size; otherwise it adds one payload, big enough, at an address not live before, moves no other and conserves the bytes |
| HeapLaws.CoalesceLaws | include/rivet/heap.h:76-81 | one coalescing pass conserves the bytes and every live payload |
| HeapLaws.CoalesceHalves | include/rivet/heap.h:76-81 | one coalescing pass at least halves the number of adjacent free pairs |
| HeapLaws.FreedLaws | include/rivet/heap.h:72-73 | marking a block free removes its payload alone and adds at most two free pairs |
| HeapLaws.RunOfThree | include/rivet/heap.h:76-81 | a run of three free blocks is left as two by one pass |
| HeapRuns.FreeLaws | include/rivet/heap.h:70-83 | free of a live payload removes it alone and keeps tiling and the bound |
| HeapRuns.StepKeeps | include/rivet/heap.h:52-83 | each call keeps tiling and the bound, and every payload it does not free |
| HeapRuns.RunSafe | include/rivet/heap.h:52-83 | in every reachable state the blocks tile the arena, at most one pair of neighbours is free, and a payload stays in place at its size until it is freed |
| HeapRuns.AtMostTwoLeft | include/rivet/heap.h:70-83 | when everything is freed at most two blocks are left |
| HeapRuns.TwoLeft | include/rivet/heap.h:70-83 | a run in which everything is freed and two blocks are left |
| HeapRuns.HugeRequestGranted | include/rivet/heap.h:52-68 | a request for 2^64 - 1 bytes is granted a payload of no bytes |
| Heap.Heap.constructor | include/rivet/heap.h:44-50 | the one free block tiles the arena if and only if the arena holds a header; the size written otherwise is stated, too |
| Heap.Heap.Scan | include/rivet/heap.h:54-55 | the walk along the links stops at the first block that fits, or at null |
| Heap.Heap.Take | include/rivet/heap.h:56-64 | the header writes of the cut keep the headers a chain that tiles the arena |
| Heap.Heap.Alloc | include/rivet/heap.h:52-68 | alloc on headers in memory is the specified call, with null exactly when nothing fits; the payload is as large as asked if and only if the request is at most 2^w - 8 |
| Heap.Heap.MergeAt | include/rivet/heap.h:77-80 | one merge on headers keeps the chain |
| Heap.Heap.Merge | include/rivet/heap.h:76-81 | the pass over the links is the specified coalescing |
| Heap.Heap.Free | include/rivet/heap.h:70-83 | free on headers in memory is the specified call; null changes nothing |
| BufLaws.GetLaws | include/rivet/buf.h:46-75 | get changes neither the view nor the disk, keeps one valid block per address, and the block it returns shows the address asked for |
| BufLaws.GetFails | include/rivet/buf.h:46-75 | get returns nothing if and only if the address is not cached and no block is clean and unreferenced or the read fails; then nothing changes |
| BufLaws.LoadKeeps | include/rivet/buf.h:60-71 | loading over a clean unreferenced block changes nothing anyone can see |
| BufLaws.ReleaseLaws | include/rivet/buf.h:77-81 | release changes no view |
| BufLaws.UpdateLaws | include/rivet/buf.h:83 | writing a held block and marking it dirty changes the view at its own address and nowhere else |
| BufLaws.FlushLaws | include/rivet/buf.h:92-93 | writing one block back changes no view |
| BufLaws.SyncKeeps | include/rivet/buf.h:86-97 | a sync that stops part way changes no view either; one that succeeds leaves nothing dirty; `BufLaws.SyncExact` says which it is |
| BufLaws.CleanShowsDisk | include/rivet/buf.h:86-97 | a cache with nothing dirty shows the disk |
| BufLaws.SyncLaws | include/rivet/buf.h:86-97 | no sync changes the view, and after a successful one the disk is what the cache showed before it; `BufLaws.SyncExact` says when it succeeds |
| BufLaws.SyncExact | include/rivet/buf.h:86-97 | sync succeeds if and only if the device accepts the write of every valid dirty block; in either case every block before the first refused one is clean and equal to the disk, and every block from there on and the disk at every other address are unchanged |
| BufRuns.StepLaws | include/rivet/buf.h:46-97 | each call keeps the invariant and the view, updates aside, and no call gives a referenced block to another address |
| BufRuns.RunLaws | include/rivet/buf.h:46-97 | after every run the view is the first view with the updates applied in order, and a block held throughout keeps its address |
| BufRuns.SyncedRun | include/rivet/buf.h:86-97 | durability: after every run, a sync succeeds if and only if the device accepts every dirty block there is, and then the disk is the first view with the updates of the run applied in order |
| BufRuns.Fresh | include/rivet/buf.h:33-43 | an initialised cache shows the disk |
| Buf.BufCache.constructor | include/rivet/buf.h:33-43 | the clearing loop gives a cache that shows the disk |
| Buf.BufCache.Get | include/rivet/buf.h:46-75 | the two scans are the specified get |
| Buf.BufCache.Release | include/rivet/buf.h:77-81 | the specified release |
| Buf.BufCache.Update | include/rivet/buf.h:83 | the specified update |
| Buf.BufCache.Sync | include/rivet/buf.h:86-97 | the loop is the specified sync, failure part way included, and succeeds if and only if the device accepts the write of every valid dirty block |
| Sha256Laws.FoldConcat | include/rivet/sha256.h:70-84 | hashing in two stretches of whole blocks is hashing them together |
| Sha256Laws.BeAt | include/rivet/sha256.h:95 | shifting the bit count right by whole bytes gives its big-endian bytes |
| Sha256Laws.LengthField | include/rivet/sha256.h:87-95 | for messages under 2^61 bytes the last eight bytes of the padding read back as the length in bits |
| Sha256Meaning.WordIsValue | include/rivet/sha256.h:46-47 | a word of the message is the number that its four bytes spell, most significant first |
| Sha256Meaning.WordBytesValue | include/rivet/sha256.h:98-101 | the four bytes written for a word spell it, most significant first |
| Sha256Meaning.DigestSpells | include/rivet/sha256.h:97-102 | bytes 4i to 4i + 3 of the digest spell word i of the final hash |
| Sha256Meaning.ScheduleIs | include/rivet/sha256.h:44-53 | the schedule opens with the sixteen numbers the block spells, and every later word is the sum modulo 2^32 of the four the standard names |
| Sha256Meaning.RoundIs | include/rivet/sha256.h:56-65 | a round of section 6.2.2 of FIPS 180-4 in numbers: the new a and e are their sums modulo 2^32, and the other six variables have moved down by one |
| Sha256Meaning.RoundsStep | include/rivet/sha256.h:56-65 | round t takes constant t and schedule word t |
| Sha256Meaning.BlockIs | include/rivet/sha256.h:66-67 | a block adds each working variable after sixty-four rounds to its own hash word modulo 2^32 |
| Sha256Meaning.ShiftRegisters | include/rivet/sha256.h:63-64 | the working variables are two shift registers: a value of a comes out as d three rounds later, a value of e as h |
| Sha256Meaning.ChBit | include/rivet/sha256.h:58 | each bit of ch is the bit of f or of g, as the bit of e says |
| Sha256Meaning.MajBit | include/rivet/sha256.h:61 | each bit of mj is the majority of the three bits |
| Sha256Meaning.BigSigma0Bit | include/rivet/sha256.h:60 | bit j of S0 is the parity of bits j + 2, j + 13 and j + 22 modulo 32 |
| Sha256Meaning.BigSigma1Bit | include/rivet/sha256.h:57 | bit j of S1 is the parity of bits j + 6, j + 11 and j + 25 modulo 32 |
| Sha256Meaning.SmallSigma0Bit | include/rivet/sha256.h:50 | bit j of s0 is the parity of bits j + 7 and j + 18 modulo 32 and of bit j + 3 if there is one |
| Sha256Meaning.SmallSigma1Bit | include/rivet/sha256.h:51 | bit j of s1 is the parity of bits j + 17 and j + 19 modulo 32 and of bit j + 10 if there is one |
| Sha256Meaning.InitialHashIs | include/rivet/sha256.h:24-27 | the initial hash words are the first 32 bits of the fractions of the square roots of the first eight primes |
| Sha256Meaning.ConstantsAre | include/rivet/sha256.h:34-43 | the round constants are the first 32 bits of the fractions of the cube roots of the first sixty-four primes |
| Sha256.PadShort | include/rivet/sha256.h:89-96 | with fewer than 56 bytes over, the padding of section 5.1.1 of FIPS 180-4 completes the last block |
| Sha256.PadLong | include/rivet/sha256.h:89-96 | with 56 or more bytes over, it takes one block more |
| Sha256.LengthWraps | include/rivet/sha256.h:87 | the byte count and the length field wrap the same way |
| Sha256.Context.constructor | include/rivet/sha256.h:23-31 | the initial hash of section 5.3.3, and the empty message |
| Sha256.Context.Prepare | include/rivet/sha256.h:44-53 | the schedule loops compute the message schedule of section 6.2.2 |
| Sha256.Context.Mix | include/rivet/sha256.h:54-65 | the round loop with its shifting assignments computes the sixty-four rounds |
| Sha256.Context.Compress | include/rivet/sha256.h:33-68 | the block function is that of section 6.2.2 |
| Sha256.Context.AddBack | include/rivet/sha256.h:66-67 | every hash word gets its working variable added |
| Sha256.Context.Copy | include/rivet/sha256.h:74-77 | as much of the data as the buffer takes is appended to it |
| Sha256.Context.Update | include/rivet/sha256.h:70-84 | the message absorbed grows by exactly the data, and the hash is that of its whole blocks |
| Sha256.Context.ZeroFill | include/rivet/sha256.h:90-94 | zeros up to the position asked for, the bytes before unchanged |
| Sha256.Context.PutLength | include/rivet/sha256.h:95 | the length in the last eight bytes of the buffer, most significant first |
| Sha256.Context.MakeRoom | include/rivet/sha256.h:89-94 | zeros up to the length field, through a block of their own if the marker left no room |
| Sha256.Context.Final | include/rivet/sha256.h:86-103 | in either branch the digest is that of the padded message, of any length; its bytes spell the hash words by `Sha256Meaning.DigestSpells` |
| Sha256.Context.HashBytes | include/rivet/sha256.h:97-102 | the digest is the hash words in order, each as the four bytes that spell it by `Sha256Meaning.WordBytesValue` |
| Sha256.DigestOfParts | include/rivet/sha256.h:23-103 | however a message is cut into updates, the digest is that of the whole message; `Sha256Meaning` says what its functions and constants are |
| IhexText.PrintParse | src/rivet-objcopy.c:37-44 | every record reads back as what was written, and its bytes sum to 0 modulo 256 |
| IhexText.DigitValue | src/rivet-objcopy.c:16-21 | a printed digit reads back as its value |
| IhexSpec.ScanCovers | src/rivet-objcopy.c:98-113 | the first pass takes in the start of every data record and, modulo 2^32, its end |
| IhexSpec.MixedOverruns | src/rivet-objcopy.c:109-134 | a file in which one record ends at 2^32 or beyond and another below it makes the reader write outside its buffer |
| IhexRoundTrip.WrittenBounds | src/rivet-objcopy.c:98-113 | over written records the first pass ends with base and base plus size, across 64 KiB boundaries |
| IhexRoundTrip.WrittenFill | src/rivet-objcopy.c:120-137 | over written records the second pass puts the bytes back where they were |
| IhexRoundTrip.OneRecordWraps | src/rivet-objcopy.c:109-134 | a single record that ends at 2^32 or beyond comes back, because bounds and size wrap alike, unless it begins at the last address |
| IhexRoundTrip.ReadBackExact | src/rivet-objcopy.c:24-146 | for every image and base, the file is read back if and only if the image is not empty and it ends below 2^32 or is one record not beginning at 0xFFFFFFFF; the other outcomes, no data and a write outside the buffer, are exact as well |
| IhexRoundTrip.TopOfMemory | src/rivet-objcopy.c:116-134 | 32 bytes at 0xFFFFFFE0: the reader makes room for 16 and writes outside it |
| IhexRoundTrip.RoundTrip | src/rivet-objcopy.c:24-146 | for every image and base with base plus size below 2^32, aligned or not, reading the records back gives the same bytes at the same base, or no data for an empty image |
| IhexRoundTrip.TextRoundTrip | src/rivet-objcopy.c:24-146 | the same records come back through the text of the file |
| Ihex.PrintRecord | src/rivet-objcopy.c:33-44 | the printing loop with its eight-bit sum prints the specified record |
| Ihex.Write | src/rivet-objcopy.c:24-50 | the writer loop produces the specified lines, an extended address exactly when the upper half changes |
| Ihex.Read | src/rivet-objcopy.c:92-146 | the two passes with their wrapping sizes and offsets compute the specified outcome |
| Ihex.Second | src/rivet-objcopy.c:120-137 | the second pass fills the image as specified and stops exactly where it would leave it |
| Ihex.Copy | src/rivet-objcopy.c:131-135 | the bytes of one record land at their place and nothing else changes, unless one would fall outside the image |
| Ihex.WriteThenRead | src/rivet-objcopy.c:24-146 | writing an image and reading the file returns it with its base, if and only if the condition of `IhexRoundTrip.ReadBackExact` holds |
| TaskLaws.DueExact | include/rivet/task.h:41 | for all times: a late task is seen to be due if and only if its lateness modulo 2^32 is below 2^31, an early one to be early if and only if the time left modulo 2^32 is between 1 and 2^31 |
| TaskLaws.DueInRange | include/rivet/task.h:41 | less than half the range apart, the comparison gives the order of the unbounded times |
| TaskLaws.RunsAtOnce | include/rivet/task.h:41-42 | a task just re-armed runs again at the same tick if and only if its period is 0 or above 2^31 |
| TaskLaws.LateTask | include/rivet/task.h:36-46 | a task polled 2^31 ticks late is passed over, and polled 2^32 ticks late it runs |
| TaskLaws.FiresIdeally | include/rivet/task.h:36-46 | polled at least every `gap` ticks, with `gap` below and the period at most 2^31, the wrapping scheduler runs a task at exactly the polls an unbounded one would |
| TaskLaws.IdealPunctual | include/rivet/task.h:36-46 | every run comes no sooner than it is due and at most one gap later |
| TaskLaws.IdealRuns | include/rivet/task.h:36-46 | once a poll has reached the due time the task has run |
| TaskLaws.RunsArePeriodic | include/rivet/task.h:24-46 | across any number of wraps, runs are between one period and one period plus one gap apart |
| TaskScheduler.DueTasksExact | include/rivet/task.h:38-45 | exactly the enabled tasks that are due run, each once, in table order |
| TaskScheduler.Scheduler.constructor | include/rivet/task.h:24-30 | every task is enabled and due one period after the start of the clock |
| TaskScheduler.PolledInTime | include/rivet/task.h:40-44 | a poll less than 2^31 ticks after the last runs a task exactly when its unbounded due time has come, and leaves it due one period later |
| TaskScheduler.AllPolledInTime | include/rivet/task.h:38-45 | the same for the whole table: the tasks run are exactly the enabled ones whose time has come |
| TaskScheduler.Scheduler.Tick | include/rivet/task.h:33 | the unbounded clock advances by one and the counter stays the clock modulo 2^32, however often it has wrapped; no task loses its due time |
| TaskScheduler.Scheduler.Sweep | include/rivet/task.h:37-45 | the loop runs the due tasks and re-arms those and no others |
| TaskScheduler.Scheduler.Run | include/rivet/task.h:36-46 | polled less than 2^31 ticks after the last poll, exactly the enabled tasks whose unbounded due time has come are run, and each is due again one period later |

## Left out

- Devices and CPU state: port and memory-mapped I/O, interrupt controllers, inline assembly, TLB flush, CR3 and satp, the context switch itself.
- What the processor does with page rights beyond the flag bits of `PageRights`: write protection in kernel mode, faults, accessed and dirty bits, and the rights of whole programs over time.
- Locks: progress and hand-back of `spin_locked`, mutexes and semaphores; `riv_waitq_sleep`'s condition lock.
- Process fields other than state and link (pid, name, parent, exit code, files), and `riv_proc_free`.
- List operations at the other end (`riv_list_add`, `riv_list_pop_tail`) and the iteration macros: they only mirror those modelled.
- Weak memory in the ring: steps are sequentially consistent, as the code's atomics are.
- Tokenizing, string escapes, register and mnemonic lookup, number parsing and printed text: lines start as parsed operands and listings end as values; the digits of Intel HEX are modelled.
- `.p2align` by 32 or more, which C leaves undefined: the model stops with an error.
- A symbolic scale in a memory operand, and operands that `x86_parse_mem` refuses.
- The RV32 decoder's output loops for fence flags: the flags are kept as numbers.
- `last_use` and `clock` of the block cache: they are written and never read.
- Storing data in a block and `riv_buf_dirty` are one step; a holder that writes without marking the block dirty is outside the model, and so is a failed disk call that changes the buffer.
- Ihex.Read: lines that begin with a colon must be whole records, because the code reads beyond the text of the line otherwise. What happens after a write outside the image is not modelled: the outcome is `Overrun`.
- Heap.Heap.Free: only null and live payloads are freed, as the allocator demands.
- Heap.Heap.constructor: the arena starts at a non-null aligned address and ends inside the address space, as C demands of the memory passed in.
- Sweep.Disassemble: the number of bytes available is not cut to a signed 32-bit number; while that number of the bytes left is not positive, as at the start of a file of 2^31 bytes, the code lists raw bytes.
- BufRuns.RunLaws: fewer than 2^32 references to one block are out at a time; beyond that the count wraps.
- The bump allocator, SREC output, ELF, FAT, FDT, ACPI, the linker, image and size tools, base64, CRC, ARP, VFS, slab, bitmap and RTC: simpler, or they would only add easier members.
