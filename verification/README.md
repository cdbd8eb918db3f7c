# A verified model of the baremetal kernel

This project models the core of a small x86 hobby kernel and of its user-space assembler in Dafny, and proves what the code promises.
Each part has a model on values, the theorems about it, and, where the code changes memory in place, classes and methods with loops that are proved to do what the model says.

| part | modules |
|---|---|
| words, bytes and options | `Common`, `Bits`, `Bitmaps`, `Bytes` |
| kernel heap | `HeapSpec`, `HeapProofs`, `HeapRuns`, `HeapImpl` |
| the pages under the heap | `SbrkSpec`, `SbrkRuns`, `SbrkFrames`, `SbrkPlan`, `SbrkImpl` |
| physical pages and page tables | `PhysSpec`, `PhysImpl`, `PagingSpec`, `PagingImpl` |
| multiprocessor start-up | `Smp` |
| block cache and disk queue | `IdeSpec`, `IdeImpl` |
| ext2 file system | `Directory`, `Ext2Spec`, `Ext2Cache`, `Ext2Fill`, `Ext2Touch`, `Ext2Files`, `Ext2Runs`, `Ext2Paths`, `Ext2Example`, `Ext2Impl` |
| assembler | `TwoPass`, `LassSpec`, `LassProofs`, `LassReading`, `LassMemory`, `LassScaled`, `LassLines`, `LassImpl` |
| tokeniser, numbers, formatter | `StrtokSpec`, `StrtokImpl`, `NumberSpec`, `NumberImpl`, `PrintfSpec`, `PrintfMeaning`, `PrintfImpl` |

## Main results

- After any run of `malloc`, `malloc_a`, `free` and `realloc` from boot, the blocks tile the used part of the heap, the used part lies below the page-aligned break, and the regions held are disjoint (`HeapRuns.EveryRunIsSafe`). A call without room breaks this, always (`HeapRuns.NoRoomBreaks`). What each call hands out, and when it refuses, is exact (`HeapRuns.MallocPlaces`, `HeapRuns.MallocAGrants`, `HeapRuns.ReallocExact`).
- After any such run the heap is mapped up to its break exactly when each page the break passed had a table when its turn came, or its look-up read a zero and there was room for a table (`SbrkRuns.EveryRunBackedExact`). For a move over any number of directory entries that share no table, this is decided by the state before it (`SbrkPlan.PlanExact`). The pages mapped while frames last get different frames that nobody held (`SbrkFrames.EveryRunMapsDistinctFrames`).
- Every run of `_paging_map` and `_paging_unmap` on unshared directory entries is the same run of updates and removals on a page map (`PagingSpec.RunIsPageMap`).
- In every interleaving of start-up, for every number of CPUs, each lock has one holder, no increment of the CPU count is lost, and nobody enters the scheduler early (`Smp.EveryStartupIsSafe`). Whoever is past a lock has held it, alone (`Smp.EveryLockWasHeld`). Under fair scheduling start-up completes (`Smp.StartupCompletes`).
- In every run of the block cache in which no client touches a queued buffer there is one buffer per block, one command outstanding and it is for the head of the queue, service is first in first out, and a clean valid buffer equals its disk block (`IdeSpec.EveryRunIsCoherent`).
- When the interrupts of each access have arrived before the next, the block cache acts as the plain sequence of blocks that the file system works on (`Ext2Cache.CacheRefinesDisk`), and each access reads the block as it then is (`Ext2Cache.EveryReadIsCurrent`).
- After any run of `ext2_touch` with new names and files of at most 12 blocks, opening each file by its path gives back its bytes, padded with zeros (`Ext2Paths.EveryFileOpens`). Such runs exist (`Ext2Example.FilesCanBeMade`).
- The two passes of the assembler are at the same position at every line, for every instruction table and text (`LassProofs.AssemblerPassesAgree`), so a line that names a label is assembled to a jump that lands on it exactly when the name begins with no digit and no register's name, the row has no prefix, the label is in reach, and the first label whose name begins that name is this one, or starts at a place with the same low byte (`LassProofs.JumpInProgram`).
- The output of the assembler reads back: data lines give back their numbers and texts (`LassReading.DataInProgram`), code lines their opcode, registers and constants (`LassReading.CodeInProgram`), and a line with a bracket reaches the address written exactly when its displacement is one the code encodes (`LassMemory.LoadInProgram`, `LassMemory.StoreInProgram`, `LassScaled.ScaledInProgram`).
- What a format prints is what its items say, each conversion with its own argument and with the marks of the conversions right before it (`PrintfMeaning.FormatMeans`), for every format that is handled (`PrintfMeaning.EveryFormat`).
- Repeated `strtok` calls yield the words of a string (`StrtokSpec.TokensAreTheWords`), printing and parsing numbers undo each other exactly up to eight digits (`NumberSpec.AtoiUndoesItoa`), and `vsnprintf` prints all it was asked for exactly when no piece is cut (`PrintfSpec.OutputExact`).

## Where the code does less than it promises

Each of these has a lemma with a failing input or family, and a lemma with the exact condition.

- `malloc` and `malloc_a` do not check for the end of the address range: a request that passes it wraps the heap's end or its break (`MallocExact`, `MallocAExact`, `HugeRequestBreaksTheHeap`, `LargeRequestWrapsTheBreak`).
- A `realloc` that is refused has given the old block back all the same, and copies its bytes to address 0 (`ReallocExact`, `ReallocCall`).
- `sbrk` moves the break over a page without mapping it when the directory has no table for it and a word of low memory is not zero, or there is no room for a table (`PassedExact`, `BackedExact`, `PlanExact`, `FirstPagePastBoot`), and once the frames are used up it maps pages to the -1 of `k_page_alloc` (`FrameExact`).
- `mm_alloc` hands out overlapping memory exactly when its fourfold step wraps (`BootAllocExact`, `HugeBootRequestRepeats`).
- `mm_page_free` of a page of an older directory clears a bit of the current one (`FreeExact`, `StaleFreeDuplicates`).
- `_virt_to_phys` has a test for a missing table that never fires, so it reads low memory (`VirtToPhysExact`, `MissingTableReadsLowMemory`).
- `_paging_map` and `_paging_unmap` act on every directory entry that shares the table (`MapExact`, `UnmapExact`, `SharedPage`), and flags from 0x400 to 0xFFF spoil the directory, wider ones unless they leave a table's address (`FlagsExact`).
- Asking for I/O on a buffer that is queued already ties the queue into a loop (`HangExact`, `RequeueMakesCycle`).
- `buffer_read` returns before the block has arrived, because `sleep` is empty: what it returns is right exactly when the block was cached and valid, or the memory of the new buffer held it by chance (`EarlyReadExact`, `EarlyReadFails`).
- `ext2_open` reads the thirteenth block of a file as the twelfth (`ReadBackExact`, `ThirteenthBlockIsLost`), and a file of more than 12 blocks takes one block more than the counts say (`TouchCounts`).
- Creating a file of at most 12 blocks clears a word of the boot block (`TouchClearsBootWord`).
- A file is found under its name exactly when no earlier entry's name begins it (`TouchThenLookup`).
- A path through a missing directory goes on with inode -1, whose block group lies outside the block read (`NextPieceExact`, `StrayInodeExact`, `PathThroughMissing`).
- `pass` drops the first line of a text with more than one (`FirstLineLost`).
- A label that begins with a register's name is read as that register, so no jump to it is made (`ClassifyExact`, `MisreadNeverJumps`, `LabelTakenForRegister`).
- A label is resolved to the first label whose name begins its own, so after `loop` a jump to `loop2` goes to `loop` (`NameResolved`, `LabelFoundExact`, `LoopTakenForLoop2`).
- A mnemonic takes the row of a shorter one that is listed before it, so `jle` is assembled as `jl` (`OwnRowExact`, `JleIsTakenForJl`).
- A bracket without a displacement gets four bytes too many unless the register is ebp, a displacement from 128 to 255 or below -128 is cut to a signed byte, and esp lacks its SIB byte (`LoadInProgram`, `StoreInProgram`, `LoadMissesItsAddress`).
- In [first+second*scale] the two registers change places (`ScaledInProgram`, `RegistersExchanged`).
- A store of an 8-bit register is encoded as one of the 32-bit register (`StoreInProgram`), and ah, ch, dh and bh are encoded as al, cl, dl and bl (`HalfNames`, `HighHalfIsLow`).
- `dw` and `dd` skip texts, and `db` drops the blanks, commas and quotes in them (`DataInProgram`).
- A label is never matched to a 32-bit relative row (`NoRel32Jump`), and a jump with more than one opcode byte misses its label (`DisplacementExact`).
- `itoa` and `sitoa` print the last eight digits only (`AtoiUndoesItoa`, `AtoiUndoesSitoa`).
- The copy loops of `vsnprintf` count every character twice, so a text longer than half the room is cut (`OutputExact`, `HalfIsPrinted`).
- `%d` prints no sign unless the format asks for one, so -5 becomes 5 (`SignedExact`, `SignIsLost`).
- `vsnprintf` leaves the buffer without a terminator when the output fills it (`TerminatedExact`, `FullBufferIsNoString`).

## What the model takes as given

- A table that is freshly cleared is zero past its end as well, fresh page tables and fresh inode memory are zero, and a new cache buffer is not linked to anything.
- The recursive call of `mm_page_alloc` returns its result, which the code relies on; a bitmap that could not be allocated counts as a fresh one. In the code such a bitmap lies at address 0: `mm_bitmap_init` clears the first 128 bytes of memory and the bits are set there, which are words that the look-up through a missing table reads. The model leaves these words as they were.
- The file system's accesses are settled: the interrupts of a block's transfer arrive before the next access. The driver does not wait for them; `EarlyReadExact` and `HangExact` say what happens otherwise.
- An `Access` changes a block in the step that writes it. `ext2_touch` changes the buffers of the superblock and of the group descriptors well before it writes them; an access to these blocks in between is not expressed.
- The table of blocks, the page tables and the bytes of the heap are separate arrays; `HeapDataIsApart` shows that data in the heap is no concern of the page tables.
- The locks `memlock`, `idelock` and `cache.lock` are not modelled: each call of the heap and of the cache is one step.
- Clock readings, the contents of fresh memory and the arguments of `printf` are parameters.
- Lengths of strings that C leaves without a terminator (`strdup`) end where the text ends.
- A predicate with an extra parameter `key` is quantified over it; this only decides where proofs look into it.

## Model

| member | source | states |
|---|---|---|
| `HeapSpec.BestIsSmallestFit` | kernel/mem/malloc.c:193-214 | one scan settles on the smallest free block with a size from n to the limit, the last one on ties, and on none only if none fits |
| `HeapProofs.FindBlockInvertsTranslate` | kernel/mem/malloc.c:249-290 | for every address inside every non-empty block, find_block gives that block's index |
| `HeapProofs.SbrkDoubleCovers` | kernel/mem/malloc.c:125-155 | although sbrk rounds pages down, asking for twice the shortfall covers it and keeps the break page aligned and below the limit, as long as the request stays below the limit |
| `HeapProofs.SbrkPlusPageCovers` | kernel/mem/malloc.c:125-155 | the same for the shortfall plus a page |
| `HeapProofs.SbrkMoves` | kernel/mem/malloc.c:125-155 | below the limit the break moves up by whole pages: one for at most a page, else as many as fit in the request |
| `HeapProofs.SbrkPastLimit` | kernel/mem/malloc.c:125-155 | once the request reaches the limit the break never moves up: it is kept, or it wraps |
| `HeapProofs.GrowExact` | kernel/mem/malloc.c:333-347 | appending a block keeps tiling and coverage if and only if there is room below the end of the address range |
| `HeapProofs.GrowAlignedExact` | kernel/mem/malloc.c:370-385 | the same for malloc_a's append, with its extra page |
| `HeapProofs.MallocExact` | kernel/mem/malloc.c:313-349 | malloc keeps tiling and coverage if and only if it reuses a block, refuses, or has room |
| `HeapProofs.MallocAExact` | kernel/mem/malloc.c:354-385 | malloc_a keeps tiling and coverage if and only if it refuses or has room at the next page boundary |
| `HeapProofs.PadIsFreeAndAligns` | kernel/mem/malloc.c:360-369 | malloc_a's padding block ends on a page boundary, is left free, and changes no other block |
| `HeapProofs.LimitIsExact` | kernel/mem/malloc.c:193-214 | in a well-formed heap the 32-bit limit 3n admits exactly the free blocks with n <= size <= 3n |
| `HeapProofs.ExtendsOnlyIfNoneFits` | kernel/mem/malloc.c:313-349 | malloc extends the heap if and only if no free block has a size from n to 3n |
| `HeapRuns.MallocGrants` | kernel/mem/malloc.c:313-349 | a non-null result owns a block of at least n bytes that nobody held, and no other table entry changes |
| `HeapRuns.MallocRefuses` | kernel/mem/malloc.c:313-349 | malloc returns NULL exactly for n = 0 or a full table without a fit, and then leaves the heap alone |
| `HeapRuns.MallocPlaces` | kernel/mem/malloc.c:313-349 | malloc takes the smallest free block with a size from n to 3n if there is one and moves nothing; else it appends a block of exactly n bytes at the end; with neither a fit nor space it changes nothing |
| `HeapRuns.MallocAGrants` | kernel/mem/malloc.c:354-385 | malloc_a succeeds exactly when the table has space, and then returns the first page boundary at or above the end, as a block that nobody held, and the end moves behind it |
| `HeapRuns.FreeReleases` | kernel/mem/malloc.c:295-307 | free of an owned pointer clears that block's flag and no other |
| `HeapRuns.ReallocStep` | kernel/mem/malloc.c:393-413 | realloc moves ownership: the old pointer is released, the new one is owned and was not held before, all others stay |
| `HeapRuns.ReallocExact` | kernel/mem/malloc.c:393-413 | for an owned pointer and a call with room, realloc returns NULL if and only if n is 0, or nothing fits and the table is full; otherwise the result owns at least n bytes in a block that was free or is new; the old block is free afterwards either way, and no other entry changes |
| `HeapRuns.StepKeepsGood` | kernel/mem/malloc.c:295-413 | every legal call with room keeps the heap well formed and every live pointer the start of its own in-use block |
| `HeapRuns.NoRoomBreaks` | kernel/mem/malloc.c:313-413 | every legal call without room breaks tiling or coverage, so the guard is exact |
| `HeapRuns.RunKeepsGood` | kernel/mem/malloc.c:295-413 | the same over every run |
| `HeapRuns.LiveRegionsDisjoint` | kernel/mem/malloc.c:295-413 | live regions lie below the break and do not overlap |
| `HeapRuns.EveryRunIsSafe` | kernel/mem/malloc.c:110-427 | after any run from boot: blocks tile the heap, the heap lies below the aligned break, live regions are inside it and pairwise disjoint |
| `HeapRuns.HugeRequestBreaksTheHeap` | kernel/mem/malloc.c:313-349 | a failing input: a request of 0x50000000 bytes is granted and the heap's end wraps to a low address |
| `HeapRuns.LargeRequestWrapsTheBreak` | kernel/mem/malloc.c:339-344 | a failing input: the doubled request wraps and the break moves below the heap |
| `SbrkSpec.BackPageExact` | kernel/mem/malloc.c:145-148 | one round of sbrk's loop leaves its page mapped if and only if its entry has a table, or the look-up reads a zero and there is room for a table; a fresh frame is used only where nothing was mapped |
| `SbrkSpec.PassedExact` | kernel/mem/malloc.c:138-153 | of all the pages sbrk passes, each ends up mapped if and only if that held when its turn came |
| `SbrkRuns.BackedExact` | kernel/mem/malloc.c:138-153 | moving the break keeps the heap mapped up to it if and only if every page passed is granted |
| `SbrkRuns.FirstPageDecides` | kernel/mem/malloc.c:138-153 | for pages of one directory entry, the first one decides for all |
| `SbrkRuns.SbrkPasses` | kernel/mem/malloc.c:134-153 | the loop runs over exactly the pages between the old break and the new one |
| `SbrkRuns.RunIsOneMove` | kernel/mem/malloc.c:125-413 | all a run of heap calls does to the page tables is one long move of the break |
| `SbrkRuns.EveryRunBackedExact` | kernel/mem/malloc.c:125-427 | after any run from boot the heap is mapped up to its break if and only if every page passed was granted in its turn |
| `SbrkFrames.FrameExact` | kernel/mem/malloc.c:145-152 | a page that a move of the break maps holds, after the whole move, a page-aligned frame at or above 4 MB that nobody held, if and only if the frame allocator had one left in its turn |
| `SbrkFrames.MoveMapsDistinctFrames` | kernel/mem/malloc.c:145-152 | any two pages that a move maps while frames last hold different frames at its end, both new |
| `SbrkFrames.EveryRunMapsDistinctFrames` | kernel/mem/malloc.c:125-427 | so it is after every run of heap calls from boot |
| `SbrkPlan.PlanExact` | kernel/mem/malloc.c:138-153 | for a move over directory entries that share no table, every page is granted in its turn if and only if, in the state before the move, each entry without a table finds a zero in low memory and room for its table behind the tables and bitmaps taken before it |
| `SbrkRuns.BootBacked` | kernel/arch/start.s:34-72 | the directory set up at boot maps the heap up to 0xC0400000 |
| `SbrkRuns.RunKeepsBacked` | kernel/mem/malloc.c:125-413 | what is mapped stays mapped over every run |
| `SbrkRuns.FirstPagePastBoot` | kernel/mem/malloc.c:145-152 | a failing input: from the boot directory the break moves over 0xC0400000, and that page is mapped if and only if the first word of memory is zero |
| `SbrkImpl.KernelPages.Back` | kernel/mem/malloc.c:145-148 | looks a page up and maps a frame, on the tables and bitmaps themselves |
| `HeapImpl.ReallocSeparates` | kernel/mem/malloc.c:393-413 | the block malloc returns inside realloc lies apart from the one being moved |
| `HeapImpl.KernelHeap.constructor` | kernel/mem/malloc.c:416-427 | k_heap_init's state: an empty table, and the break sixteen pages above the bottom |
| `HeapImpl.KernelHeap.SbrkCall` | kernel/mem/malloc.c:125-155 | the page loop moves the break as the model says, and does to page tables and bitmaps what the model's rounds do |
| `HeapImpl.KernelHeap.BlockchainAdd` | kernel/mem/malloc.c:110-119 | appends one table word, in use, with 31 bits of size, or refuses past the table's limit |
| `HeapImpl.KernelHeap.FindBestFree` | kernel/mem/malloc.c:193-214 | the loop whose goto restarts the counter but not the pointer terminates, reads fewer than twice the table's entries, and agrees with one plain scan |
| `HeapImpl.KernelHeap.FindBlockOf` | kernel/mem/malloc.c:249-267 | the loop agrees with the model's search |
| `HeapImpl.KernelHeap.TranslateBlock` | kernel/mem/malloc.c:270-290 | the loop adds up the sizes before the block |
| `HeapImpl.KernelHeap.FreePtr` | kernel/mem/malloc.c:295-307 | clears the flag of the block the pointer is in |
| `HeapImpl.KernelHeap.MallocCall` | kernel/mem/malloc.c:313-349 | does to the table, break and end what the model says, and returns its pointer |
| `HeapImpl.KernelHeap.MallocACall` | kernel/mem/malloc.c:354-385 | the same for malloc_a, padding included |
| `HeapImpl.KernelHeap.Memcpy` | kernel/mem/malloc.c:393-413 | copies n bytes when the regions are apart, and changes no other byte |
| `HeapImpl.KernelHeap.ReallocCall` | kernel/mem/malloc.c:393-413 | does to the table what the model says and returns its pointer; unless the heap overflowed, the smaller of the two sizes is copied from the old block to the result, which is address 0 when malloc refused, and no other byte changes |
| `PhysSpec.BootAllocExact` | kernel/mem/mm.c:61-74 | a non-null region lies below the limit and before all later ones if and only if its fourfold step does not wrap, although the step is rounded down |
| `PhysSpec.HugeBootRequestRepeats` | kernel/mem/mm.c:61-74 | a failing input: a request of 2^30 bytes leaves the next address unchanged |
| `PhysSpec.BootRunSafe` | kernel/mem/mm.c:61-74 | over every sequence of calls, all regions are page aligned, below the limit and pairwise disjoint |
| `PhysSpec.FirstFreeIsLowest` | kernel/mem/mm.c:97-105 | the lowest clear bit is found, and -1 only if all are set |
| `PhysSpec.AllocStep` | kernel/mem/mm.c:151-198 | an allocation returns the lowest free page of the directory in use, new, aligned and at or above 4 MB; it fails exactly when no directory is left |
| `PhysSpec.FreeExact` | kernel/mem/mm.c:122-142 | giving a page back keeps the bitmaps in step if and only if it is of the directory in use, or its bit there is clear |
| `PhysSpec.CallExact` | kernel/mem/mm.c:122-198 | a call keeps held pages and bitmap bits in step if and only if it is an allocation, or gives back a page of the directory in use or one whose bit there is clear |
| `PhysSpec.PageRunKeeps` | kernel/mem/mm.c:122-198 | every run of such calls keeps held pages and bitmap bits in step, and the full directories a prefix |
| `PhysSpec.EveryPageRunIsSafe` | kernel/mem/mm.c:122-272 | in every legal run from k_mm_init all held pages are aligned and at or above 4 MB, and the full directories are a prefix |
| `PhysSpec.AllocationIsNew` | kernel/mem/mm.c:151-198 | in every legal run the page returned was not held |
| `PhysSpec.StaleFreeDuplicates` | kernel/mem/mm.c:122-142 | a failing input: freeing a page of an older directory makes a held page be handed out again |
| `Bitmaps.FirstClearIsLowest` | kernel/mem/mm.c:97-105 | the search finds the lowest number that is not in the set |
| `Bitmaps.SetBitOf` | kernel/mem/mm.c:81-83 | or-ing one bit into a word adds exactly that number to the bitmap |
| `Bitmaps.ClearBitOf` | kernel/mem/mm.c:89-91 | masking one bit out removes exactly that number |
| `Bitmaps.FirstFreeInWord` | kernel/mem/mm.c:99-104 | the inner loop finds the lowest clear bit of a word |
| `Bitmaps.FirstFreeBit` | kernel/mem/mm.c:97-105 | the nested loops find the lowest clear bit of the bitmap |
| `PhysImpl.PageAllocator.NewBitmap` | kernel/mem/mm.c:111-116 | a cleared bitmap of 1024 bits |
| `PhysImpl.PageAllocator.constructor` | kernel/mem/mm.c:247-272 | k_mm_init: directory 0 marked, the first page taken |
| `PhysImpl.PageAllocator.SetBit` | kernel/mem/mm.c:81-83 | adds one number to the bitmap |
| `PhysImpl.PageAllocator.ClearBit` | kernel/mem/mm.c:89-91 | removes one number |
| `PhysImpl.PageAllocator.AllocatePage` | kernel/mem/mm.c:151-198 | changes both bitmaps as the model says, retrying at most once |
| `PhysImpl.PageAllocator.FreePage` | kernel/mem/mm.c:122-142 | clears the bit of the page in the current bitmap |
| `PagingSpec.VirtToPhysExact` | kernel/mem/paging.c:130-140 | translation gives the mapping if and only if there is a table, or low memory is zero at that index |
| `PagingSpec.MissingTableReadsLowMemory` | kernel/mem/paging.c:130-140 | a failing input: the boot directory has no table at 0xC0400000, and the answer is the first word of memory |
| `PagingSpec.MapKeepsWellFormed` | kernel/mem/paging.c:190-205 | mapping keeps directory and tables whole, apart and below the boot allocator's next address |
| `PagingSpec.MapView` | kernel/mem/paging.c:190-205 | mapping changes exactly one word: the page maps to phys plus flags through every entry that shares the table, and every other page is unchanged |
| `PagingSpec.MapRefinesUpdate` | kernel/mem/paging.c:190-205 | with a new or unshared table, mapping is an update of the page map |
| `PagingSpec.MapExact` | kernel/mem/paging.c:190-205 | mapping is an update if and only if a table was found or the word is zero, and the table is new, unshared, or held the word already |
| `PagingSpec.SharedPage` | kernel/mem/paging.c:190-205 | through an entry that shares the table another page is remapped |
| `PagingSpec.FlagsExact` | kernel/mem/paging.c:190-205 | the directory stays well formed if and only if the table's address with the flags in it still is one; for flags below 0x1000, if and only if they are below 0x400 |
| `PagingSpec.UnmapView` | kernel/mem/paging.c:161-177 | unmapping clears exactly one word, through every entry that shares the table |
| `PagingSpec.UnmapRefinesRemoval` | kernel/mem/paging.c:161-177 | with an unshared table, unmapping is removal from the page map |
| `PagingSpec.UnmapExact` | kernel/mem/paging.c:161-177 | unmapping is removal if and only if the table is unshared or the page was not mapped |
| `PagingSpec.RunIsPageMap` | kernel/mem/paging.c:161-205 | every run of maps and unmaps on unshared entries is the same run of updates and removals on a page map |
| `PagingSpec.HeapDataIsApart` | kernel/mem/paging.c:190-205 | data in the kernel heap changes neither the tables nor any mapping |
| `PagingSpec.BootDirectoryView` | kernel/arch/start.s:34-72 | the directory set up at boot is well formed and maps both windows to the first 4 MB and nothing else |
| `PagingSpec.BootMemoryIsSound` | kernel/arch/start.s:34-72 | such a memory exists, and its entries 0 and 768 share a table |
| `PagingSpec.MapKernelTakesOneTable` | kernel/mem/paging.c:419-422 | on an empty directory k_map_kernel takes exactly one table and maps 3 GB + a to a for every page below 4 MB |
| `PagingImpl.PageTables.MapPage` | kernel/mem/paging.c:190-205 | writes the table and the directory as the model says |
| `PagingImpl.PageTables.UnmapPage` | kernel/mem/paging.c:161-177 | writes the table as the model says, and returns 0 exactly when there is no table |
| `PagingImpl.PageTables.Translate` | kernel/mem/paging.c:130-140 | reads the word the model says |
| `PagingImpl.PageTables.MapKernelPages` | kernel/mem/paging.c:419-422 | the loop maps all 1024 pages as the model says |
| `Smp.InitInv` | kernel/kernel.c:119-155 | the state before start-up satisfies the invariant |
| `Smp.StepInv` | kernel/kernel.c:59-68 | every atomic step of every CPU keeps lock exclusion, the roles of the CPUs, the boot order and the count |
| `Smp.RunInv` | kernel/kernel.c:125-150 | so does every interleaving |
| `Smp.EveryStartupIsSafe` | kernel/kernel.c:125-150 | for every number of CPUs and every interleaving: one holder per lock, ncpu is the number of CPUs counted, the boot CPU leaves its wait only after all others have counted themselves, and no other CPU is in or past the scheduler's critical section before the boot CPU has released km |
| `Smp.EveryLockWasHeld` | kernel/kernel.c:59-68 | for every number of CPUs and every interleaving: a CPU that is past the scheduler was at some point in its critical section with km set and was the only holder, and a CPU that is counted was at some point about to write the current count back, alone with proc_m |
| `Smp.BootHeldKm` | kernel/kernel.c:125-150 | with more than one CPU the boot CPU comes to the scheduler only through a state in which it holds km alone and all others have counted themselves |
| `Smp.StepProgress` | kernel/arch/sched.s:16-32 | every step that is not a spin brings start-up closer to its end |
| `Smp.SomebodyMoves` | kernel/arch/lapic.c:211-229 | no deadlock: until all are idle some CPU can take a step that changes the state |
| `Smp.StartupCompletes` | kernel/arch/lapic.c:211-243 | under every fair scheduling all CPUs become idle, all are counted, and both locks are free |
| `IdeSpec.GetKeeps` | kernel/drivers/ide.c:237-286 | buffer_get keeps the cache invariant and returns a buffer for the block asked for |
| `IdeSpec.ReadKeeps` | kernel/drivers/ide.c:288-301 | buffer_read keeps the cache invariant |
| `IdeSpec.ReadReturns` | kernel/drivers/ide.c:288-301 | the buffer a read answers with is the one for the device and block; if it was cached only its busy flag changes; if it is of the disk, valid and clean it holds the disk's block, and if it is not valid it is queued |
| `IdeSpec.WriteKeeps` | kernel/drivers/ide.c:303-307 | changing a buffer that is not queued and writing it keeps the cache invariant |
| `IdeSpec.RequestKeeps` | kernel/drivers/ide.c:158-179 | queueing a buffer that is not queued keeps the invariant, and restores it for the one dirty buffer |
| `IdeSpec.InterruptKeeps` | kernel/drivers/ide.c:97-132 | completing the command at the head of the queue keeps the cache invariant |
| `IdeSpec.InitialInv` | kernel/drivers/ide.c:187-198 | the cache starts out with the invariant |
| `IdeSpec.CommandExact` | kernel/drivers/ide.c:68-92 | once a buffer's command is done, buffer and disk agree; a write changes its own block only, a read none |
| `IdeSpec.EveryRunIsCoherent` | kernel/drivers/ide.c:68-307 | in every run that does not touch queued buffers: one buffer per block, one command outstanding and for the head of a queue without repetitions, service in order, valid clean buffers equal to the disk |
| `IdeSpec.DrainKeepsData` | kernel/drivers/ide.c:97-132 | serving the whole queue leaves every buffer with its data, or with its block of the disk if it was waiting to be read |
| `IdeSpec.DrainFlushes` | kernel/drivers/ide.c:97-132 | once the queue is served, every buffer of the disk that was valid or queued is on the disk |
| `IdeSpec.HangAppends` | kernel/drivers/ide.c:158-179 | hanging a new buffer at the end of the linked queue appends it |
| `IdeSpec.RequeueMakesCycle` | kernel/drivers/ide.c:158-179 | hanging a queued buffer there ties the list into a loop |
| `IdeSpec.HangExact` | kernel/drivers/ide.c:158-179 | the list stays a queue if and only if the buffer was not in it |
| `IdeImpl.Driver.constructor` | kernel/drivers/ide.c:187-198 | sixteen linked buffers of no device, nothing queued |
| `IdeImpl.Driver.Append` | kernel/drivers/ide.c:162-168 | the walk to the end of the linked queue appends the buffer |
| `IdeImpl.Driver.IdeRw` | kernel/drivers/ide.c:158-179 | refuses clean and foreign buffers, otherwise queues and starts an idle device |
| `IdeImpl.Driver.IdeHandler` | kernel/drivers/ide.c:97-132 | finishes the head, takes it off the linked queue and starts the next |
| `IdeImpl.Driver.Search` | kernel/drivers/ide.c:237-258 | the walk over the linked cache finds the buffer of the block, or none |
| `IdeImpl.Driver.BufferGet` | kernel/drivers/ide.c:237-286 | returns the cached buffer, marked busy, or hangs a new one at the end of the list |
| `IdeImpl.Driver.BufferRead` | kernel/drivers/ide.c:288-301 | the state becomes the model's; the buffer returned is in the cache and for that device and block; it is queued if it is not valid, and holds the disk's block if it is valid and clean |
| `IdeImpl.Driver.BufferWrite` | kernel/drivers/ide.c:303-307 | does what the model says, on linked buffers |
| `Ext2Cache.ReadSettles` | kernel/drivers/ide.c:288-301 | a read whose interrupt has arrived gives the block of the device, and leaves the device as it was |
| `Ext2Cache.WriteSettles` | kernel/drivers/ide.c:303-307 | a write whose interrupt has arrived stores that block and no other |
| `Ext2Cache.CacheRefinesDisk` | kernel/drivers/ide.c:237-307 | over every sequence of settled accesses the cache acts as a plain sequence of blocks |
| `Ext2Cache.EveryReadIsCurrent` | kernel/drivers/ide.c:288-301 | each access of such a sequence reads the block as the accesses before it left it |
| `Ext2Cache.EveryRunAsks` | kernel/drivers/ide.c:237-307 | in every run each buffer of the disk is valid or waits in the queue |
| `Ext2Cache.EarlyReadExact` | kernel/drivers/ide.c:288-301 | right after buffer_read the buffer holds the block if and only if a valid buffer was cached for it, or the memory of the new buffer held the block by chance |
| `Ext2Cache.EarlyReadFails` | kernel/drivers/ide.c:35 | a failing input: the sixteen empty buffers of buffer_init, and memory with anything else in it |
| `Directory.AppendExact` | kernel/fs/ext2_debug.c:208-248 | an entry can be appended if and only if the last record has enough slack by the code's own measure |
| `Directory.AppendKeepsEntries` | kernel/fs/ext2_debug.c:205-250 | appending keeps every old entry in order, keeps the record lengths adding up to 1024, and adds one entry at the end |
| `Directory.CompareExact` | kernel/lib/string.c:77-88 | strncmp over the entry's length is zero if and only if the entry's name begins the wanted one |
| `Directory.LookupIsFirstMatch` | kernel/fs/ext2.c:258-290 | lookup gives the first entry whose name begins the wanted one |
| `Directory.AppendThenLookup` | kernel/fs/ext2.c:258-290 | after appending, lookup gives the new inode if and only if no earlier entry's name begins the new name |
| `Ext2Fill.BitmapByte` | kernel/fs/ext2_debug.c:53-70 | number k of a bitmap block is bit k % 8 of byte k / 8 |
| `Ext2Fill.SetBitMarks` | kernel/fs/ext2_debug.c:64 | setting a bit in a block adds exactly that number to the bitmap |
| `Ext2Fill.AllocateExact` | kernel/fs/ext2_debug.c:53-96 | an allocation takes the lowest clear bit, sets it, and changes nothing else; it finds none exactly when all are set |
| `Ext2Fill.LinkKeeps` | kernel/fs/ext2_debug.c:98-107 | a link written reads back, and every other link and every other block of the file is unchanged |
| `Ext2Fill.FillKeeps` | kernel/fs/ext2_debug.c:139-174 | the block loop succeeds if and only if there are enough free blocks, and then every block of the file lies in a block that was free, all distinct, recorded in the inode or the indirect block, the counts lower by the blocks written, all else unchanged |
| `Ext2Touch.InodePlace` | kernel/fs/ext2.c:103-121 | block and offset of an inode are those of an array of 128-byte records behind the start of the table |
| `Ext2Touch.InodePut` | kernel/fs/ext2.c:103-121 | an inode written into the table reads back, and every other inode is as it was |
| `Ext2Touch.TouchMakes` | kernel/fs/ext2_debug.c:110-263 | ext2_touch succeeds if and only if it can, and then the device is put together from the pieces named |
| `Ext2Runs.TouchExact` | kernel/fs/ext2_debug.c:110-263 | a file can be created if and only if there is a free inode, enough free blocks, fewer than 256 of them, and slack in the root directory |
| `Ext2Runs.TouchKeepsSound` | kernel/fs/ext2_debug.c:110-263 | bitmaps, inode table and root directory are as well formed after the call as before |
| `Ext2Runs.TouchThenOpen` | kernel/fs/ext2.c:124-159 | ext2_open on the new inode gives back every block written, the thirteenth as the twelfth; fewer than 12 blocks come back alone, 12 are followed by the last one again |
| `Ext2Runs.ReadBackExact` | kernel/fs/ext2.c:145-157 | the bytes read are the bytes written and zeros to the end of the last block if and only if there are at most 12 blocks or the thirteenth equals the twelfth |
| `Ext2Runs.ThirteenthBlockIsLost` | kernel/fs/ext2.c:148-149 | a failing input: twelve blocks of zeros and a byte |
| `Ext2Runs.TouchCounts` | kernel/fs/ext2_debug.c:171-172 | free counts fall by the data blocks and one inode; the bits newly set are one inode and the data blocks, plus one from the thirteenth block on |
| `Ext2Runs.TouchWritesInode` | kernel/fs/ext2_debug.c:128-137 | the new inode says regular file, the size, the time, one link, and two sectors for each block and one more block; the superblock has the time of the write |
| `Ext2Runs.TouchClearsBootWord` | kernel/fs/ext2_debug.c:175 | the boot block is unchanged if and only if the file has more than 12 blocks or the word cleared was zero |
| `Ext2Runs.TouchTakesFreshBlocks` | kernel/fs/ext2_debug.c:141-158 | data blocks are pairwise distinct, were free, and are in use |
| `Ext2Runs.OthersKept` | kernel/fs/ext2_debug.c:110-263 | every other readable file stays readable and reads the same |
| `Ext2Runs.TouchThenLookup` | kernel/fs/ext2.c:258-290 | the name then leads to the new inode if and only if no earlier entry's name begins it |
| `Ext2Runs.TouchKeepsStored` | kernel/fs/ext2_debug.c:110-263 | a file that is stored under its name stays stored when another is created |
| `Ext2Runs.EveryFileIsStored` | kernel/fs/ext2_debug.c:110-263 | after any run of calls with new names and files of up to 12 blocks, every file of the run reads back and is found under its name |
| `Ext2Paths.PathizeInRoot` | kernel/kernel.c:71-79 | a path of one name under the root leads where looking that name up in the root directory leads |
| `Ext2Paths.WalkSplit` | kernel/kernel.c:71-79 | a longer path is walked by walking its front and going on from there |
| `Ext2Example.PathThroughMissing` | kernel/fs/ext2.c:258-263 | a failing input: in a fresh file system /a leads to -1, and going on to b reads outside the block of descriptors |
| `Ext2Paths.NextPieceExact` | kernel/fs/ext2.c:258-263 | one more piece can be looked up if and only if the front leads to a directory, or to number 0; it cannot after -1 |
| `Ext2Paths.StrayInodeExact` | kernel/fs/ext2.c:110-114 | the descriptor of inode -1 lies in the block read if and only if a group has at least 2^27 inodes |
| `Ext2Paths.StoredOpens` | kernel/fs/ext2.c:302-309 | a stored file opens under its path and its blocks begin with the data written |
| `Ext2Paths.EveryFileOpens` | kernel/fs/ext2.c:302-309 | after any run of ext2_touch with new names and files of up to 12 blocks, open of each path gives back the data, padded with zeros |
| `Ext2Example.FilesCanBeMade` | kernel/fs/ext2_debug.c:110-263 | there is a sound file system in which a file of any size up to 255 blocks can be created |
| `Ext2Impl.Strncmp` | kernel/lib/string.c:77-88 | the loop compares as the model says |
| `Ext2Impl.SearchDirectory` | kernel/fs/ext2.c:271-289 | the record loop finds what the model finds |
| `Ext2Impl.AppendEntry` | kernel/fs/ext2_debug.c:208-247 | the record loop and the split produce the block the model says |
| `Ext2Impl.FileSystem.AllocateIn` | kernel/fs/ext2_debug.c:53-96 | searches the bitmap, sets the bit, returns the number counted from one |
| `Ext2Impl.FileSystem.WriteRound` | kernel/fs/ext2_debug.c:142-172 | one round of the loop, with its direct, indirect and linked cases |
| `Ext2Impl.FileSystem.WriteFile` | kernel/fs/ext2_debug.c:139-174 | the loop over the bytes left does what the model's loop over blocks does |
| `Ext2Impl.FileSystem.PutName` | kernel/fs/ext2_debug.c:205-259 | the directory entry and the counts, or no change when there is no room |
| `Ext2Impl.FileSystem.TouchFile` | kernel/fs/ext2_debug.c:110-263 | the device becomes what the model says; the inode's number is returned, or zero when the directory has no room |
| `Ext2Impl.FileSystem.OpenFile` | kernel/fs/ext2.c:124-159 | the buffer holds the blocks the model says, with the block number kept at index 12 |
| `Ext2Impl.FileSystem.FindInodeInDir` | kernel/fs/ext2.c:258-290 | reads the directory's blocks and finds what the model finds |
| `Ext2Impl.FileSystem.FollowPath` | kernel/kernel.c:71-79 | the loop over the pieces ends at the inode the model says |
| `TwoPass.FirstPassPositions` | user/lass.c:526-555 | pass 1 is at the sum of the lengths of the lines before, with the labels recorded at the starts of their lines |
| `TwoPass.SecondPassPositions` | user/lass.c:526-555 | pass 2 is at the same sums |
| `TwoPass.PassesAgree` | user/lass.c:526-580 | at every line both passes are at the same position, and they end at the same length |
| `TwoPass.LineInOutput` | user/lass.c:526-580 | each line's bytes lie in the output at the position pass 1 computed |
| `TwoPass.LabelRecorded` | user/lass.c:60-83 | each label is in the symbol table at the start of its line |
| `TwoPass.NameResolved` | user/lass.c:86-104 | pass 2 resolves any name to where the first label line starts whose name begins it, or to nothing if there is none |
| `TwoPass.LabelFoundExact` | user/lass.c:86-104 | a label's own line is the one found if and only if no earlier label's name begins it |
| `LassProofs.ParseShape` | user/lass.c:330-472 | the operand loop reaches the same shape whatever symbols resolve to and wherever the line lies |
| `LassProofs.LineLength` | user/lass.c:330-524 | a line emits the same number of bytes with any symbol table, at any position |
| `LassProofs.FirstLineLost` | user/lass.c:526-540 | pass works on the whole text if and only if it is one line; otherwise exactly the first line is missing |
| `LassProofs.AssemblerPassesAgree` | user/lass.c:330-555 | for every instruction table, offset and text, both passes are at the same position at every line, labels are at the starts of their lines, and each line's bytes lie in the output where pass 1 was |
| `LassProofs.ClassifyExact` | user/lass.c:178-198 | a token is taken for a label if and only if it starts with no digit and no register or segment name begins it |
| `LassProofs.OwnRowExact` | user/lass.c:153-175 | the row found is the mnemonic's own if and only if one of its rows matches before any row named by a shorter front of it |
| `LassProofs.JleIsTakenForJl` | user/opcodes.h:282-286 | a failing input: with jl listed before it, jle takes the row of jl |
| `LassProofs.ParseOperand` | user/lass.c:394-437 | a line of a mnemonic, one operand and perhaps a comment parses to one operand of the token's class |
| `LassProofs.ParseJump` | user/lass.c:330-472 | if the token is read as a label, it parses to one rel8 operand holding the symbol's position |
| `LassProofs.DisplacementExact` | user/lass.c:473-510 | the emitted byte, sign-extended and added to the instruction's end, gives the label if and only if the opcode is one byte and the distance fits, for any offset |
| `LassProofs.JumpLands` | user/lass.c:473-510 | the same for the bytes of a parsed line |
| `LassProofs.MisreadNeverJumps` | user/lass.c:186-196 | a name that is not read as a label never gives a relative jump |
| `LassProofs.JumpInProgram` | user/lass.c:86-104 | in the output of any text, a line that names a label is a two-byte relative jump to where the label's line starts if and only if the name is read as a label, the row has no prefix, the label is in reach, and the first label that begins the name is this one or starts at a place with the same low byte |
| `LassProofs.JumpAnywhere` | user/lass.c:86-104 | the same for any place as the target, so it also says where a jump goes that misses its label |
| `LassProofs.LoopTakenForLoop2` | user/lass.c:89-92 | a failing input: with labels loop and loop2, jmp loop2 is a jump to loop and not to loop2 |
| `LassProofs.JmpRows` | user/opcodes.h:290-292 | the rows of jmp are such that this applies to them |
| `LassProofs.LabelTakenForRegister` | user/lass.c:186-196 | failing inputs: `jmp sign` is assembled as a jump through esi, and `jmp close` is not recognised |
| `LassProofs.NoRel32Jump` | user/lass.c:153-175 | no row with a 32-bit relative operand is ever chosen for a label |
| `LassProofs.ModRMReadsBack` | user/opcodes.h:35 | the three fields packed into a ModR/M byte read back, each reduced to its width |
| `LassProofs.RegistersReadBack` | user/lass.c:453-469 | for two register operands the word written gives back the opcode, the mode and both register numbers |
| `LassReading.Bytes4Reads` | user/lass.c:116-121 | the four bytes written, read with the least significant first, are the number modulo 2^32 |
| `LassReading.DataInProgram` | user/lass.c:357-392 | in the output of any text, the bytes of a db, dw or dd line are those of its words, each behind the ones before it: a number reads back modulo the width, a text is there letter by letter in db and takes no place in dw and dd |
| `LassReading.DirectiveExact` | user/lass.c:357-392 | which first words make a data line, and of which width |
| `LassReading.ClassifyKinds` | user/lass.c:178-198 | a token is a number if and only if it starts with a digit, and else a general register, a segment register or a label |
| `LassReading.RegisterNames` | user/lass.c:186-188 | each 32-bit and 16-bit register name is read as that register's number |
| `LassReading.HalfNames` | user/lass.c:189-191 | each 8-bit register name is read as a number from 0 to 3 |
| `LassReading.HighHalfIsLow` | user/lass.c:189-191 | a failing input: the names of the high halves are read as the low ones |
| `LassReading.CodeInProgram` | user/lass.c:394-523 | in the output of any text, a line of a mnemonic and up to two registers or constants is the row's prefixes, its opcode, the register numbers in their fields, and the constant in one or four bytes, which read back as the number or the label's address |
| `LassReading.NumberInFull` | user/lass.c:153-198 | no number from 0 to 2^31 is cut short: the row found for it has room for it |
| `LassReading.NameValue` | user/lass.c:86-104 | a name stands for the start of the first label that begins it; without one, for the values of $$ and $ or a placeholder |
| `LassMemory.LoadInProgram` | user/lass.c:210-274 | in the output of any text, a line of a mnemonic, a register and a bracket without a star is an operand with that register and the address of the bracket's register and displacement, as the processor decodes it and with no byte left over, if and only if the register is not esp and the displacement is a signed byte other than 0, above 255, or 0 with ebp |
| `LassMemory.StoreInProgram` | user/lass.c:210-274 | the same for a bracket followed by a register, with the direction bit of the opcode turned round |
| `LassMemory.LoadMissesItsAddress` | user/lass.c:514-518 | a failing input: mov eax, [ebx] |
| `LassScaled.ScaledInProgram` | user/lass.c:275-327 | in the output of any text, [first+second*scale] has the address written, for all contents of the registers, if and only if the registers are the same or the scale is 1, the first is not esp, and it is not eax twice with scale 1 |
| `LassScaled.RegistersExchanged` | user/lass.c:295-322 | a failing input: eax and [ebx+ecx*4] |
| `LassLines.LinesAreStarts` | user/lass.c:526-540 | the lines are those at the start of the text and behind each newline that is followed by anything |
| `LassLines.SplitLines` | user/lass.c:526-540 | the loop, which writes over its first entry, produces the lines the model says |
| `LassImpl.FindRow` | user/lass.c:153-175 | the two loops over the table find the row the model says |
| `LassImpl.ClassifyToken` | user/lass.c:178-198 | the three loops give the operand class the model says |
| `LassImpl.Assembler.WriteAll` | user/lass.c:107-121 | writes the bytes from the current position on and advances it |
| `LassImpl.Assembler.FindSymbolCall` | user/lass.c:86-104 | the loop finds the symbol the model says, or records the name as unresolved |
| `LassImpl.Assembler.AddSymbol` | user/lass.c:60-83 | records the label at the current position, and patches the uses of the names that begin it as the model says |
| `LassImpl.PatchFills` | user/lass.c:70-79 | each of the two words behind such a use becomes the label's 16-bit position if it held the placeholder, and stays otherwise |
| `LassImpl.OnlyUsesPatched` | user/lass.c:68-81 | no byte changes that is not within four bytes of a use of a name that begins the label |
| `LassImpl.Assembler.ParseOperands` | user/lass.c:394-472 | the token loop reads the operands the model says |
| `LassImpl.Assembler.EmitCode` | user/lass.c:445-524 | writes the bytes the model says for a row |
| `LassImpl.Assembler.EmitData` | user/lass.c:357-392 | writes the bytes of a data line |
| `LassImpl.Assembler.ParseLine` | user/lass.c:330-524 | writes exactly the bytes of the line at the current position |
| `LassImpl.Assembler.RunFirstPass` | user/lass.c:526-555 | symbols and position become those of the model's first pass |
| `LassImpl.Assembler.RunSecondPass` | user/lass.c:526-555 | the output becomes that of the model's second pass |
| `LassImpl.Assembler.RunPasses` | user/lass.c:574-580 | both passes: the output starts with the assembled bytes, and the length kept from pass 1 is theirs |
| `LassImpl.Assembler.Run` | user/lass.c:526-580 | the same from the text on, split into lines by the loop of pass |
| `StrtokSpec.TokensAreTheWords` | kernel/lib/string.c:179-222 | repeated calls give the maximal delimiter-free runs in order, then one empty token exactly when the string is empty or ends in a delimiter, then null |
| `StrtokImpl.Tokenizer.Strspn` | kernel/lib/string.c:194-199 | the loop finds the first character that is no delimiter |
| `StrtokImpl.Tokenizer.Strpbrk` | kernel/lib/string.c:179-185 | the loop finds the first delimiter, its first character not looked at |
| `StrtokImpl.Tokenizer.Strtok` | kernel/lib/string.c:202-222 | one call returns the next token, cut off in place, and leaves everything before the pointer alone |
| `NumberSpec.AtoiOfItoa` | libc/usr/stdlib/itoa.c:34-63 | atoi reads back from itoa in base 10 the number modulo 10^8 |
| `NumberSpec.AtoiUndoesItoa` | libc/usr/stdlib/itoa.c:34-63 | atoi undoes itoa in base 10, for positive numbers, if and only if they are below 10^8 |
| `NumberSpec.AtoiUndoesSitoa` | libc/usr/stdlib/sitoa.c:34-62 | atoi undoes sitoa in base 10 if and only if the magnitude is below 10^8 |
| `NumberSpec.LassAtoiUndoesItoa` | user/lass.c:130-150 | lass_atoi reads back every 32-bit number that itoa prints in base 16 behind 0x |
| `NumberSpec.LassReadsDecimal` | user/lass.c:130-151 | a token of decimal digits has their value |
| `NumberSpec.LassReadsHex` | user/lass.c:130-151 | a token of hexadecimal digits behind 0x, in either case, has their value |
| `NumberImpl.Strrev` | kernel/lib/string.c:112-120 | reverses a non-empty string in place and touches nothing behind it |
| `NumberImpl.ItoaCall` | libc/usr/stdlib/itoa.c:34-63 | the digit, padding and reversing loops leave the string the model says |
| `NumberImpl.SitoaCall` | libc/usr/stdlib/sitoa.c:34-62 | the same for sitoa |
| `NumberImpl.AtoiCall` | libc/usr/stdlib/atoi.c:34-47 | the loop gives the number the model says |
| `NumberImpl.LassAtoiCall` | user/lass.c:130-150 | the loops give the number the model says |
| `PrintfSpec.OutputBounded` | kernel/lib/printf.c:77-213 | the output never has more than size characters |
| `PrintfSpec.OutputExact` | kernel/lib/printf.c:77-213 | everything asked for is printed if and only if no piece is cut: a run at position p must not be longer than half of what is left, rounded up |
| `PrintfSpec.HalfIsPrinted` | kernel/lib/printf.c:193-198 | a failing input: of thirty characters into forty places twenty are printed |
| `PrintfSpec.FormatInFull` | kernel/lib/printf.c:77-213 | a size of twice the text's length and two more prints every handled format in full |
| `PrintfMeaning.FormatMeans` | kernel/lib/printf.c:77-213 | for every list of plain characters and conversions: its format is handled if and only if each conversion's own argument, counted from the front, fits it; and then what is asked to be printed is, item by item, the character, or the sign or prefix, the filling and the text of that argument, with the marks given since the last plain character and the last width given at all |
| `PrintfMeaning.EveryFormat` | kernel/lib/printf.c:77-213 | every handled format is such a list, so this says what it prints |
| `PrintfMeaning.NumberReads` | kernel/lib/printf.c:109-162 | the digits printed for a number read back, in the letter's base, as the number: 32 bits for x, o and b, a byte for X, 64 bits for l, the last eight decimal digits for d, i and u |
| `PrintfMeaning.TextPrinted` | kernel/lib/printf.c:163-174 | strings and characters are printed as they are |
| `PrintfMeaning.SignedExact` | kernel/lib/printf.c:125-140 | atoi reads back the number that %i printed if and only if it has at most eight digits, and that %d printed if moreover a sign was asked for or is not needed |
| `PrintfMeaning.SignIsLost` | kernel/lib/printf.c:125-132 | a failing input: %d and -5 |
| `PrintfMeaning.PrintedInFull` | kernel/lib/printf.c:77-213 | all of it is printed when the buffer has twice its length and two places more |
| `PrintfImpl.PutRun` | kernel/lib/printf.c:193-198 | a copy loop prints min(len, ceil((size - n) / 2)) characters from the n at its start |
| `PrintfImpl.ReadDirective` | kernel/lib/printf.c:92-192 | the loop over flags and widths ends at the letter the model says |
| `PrintfImpl.Ltoa` | kernel/lib/printf.c:43-75 | prints the digits of a number without padding |
| `PrintfImpl.Convert` | kernel/lib/printf.c:94-182 | whenever the text and its terminator fit, the scratch buffer holds the conversion's text and zeros behind it |
| `PrintfImpl.PutDirective` | kernel/lib/printf.c:94-200 | prints head, padding and text as the model says, and clears the scratch buffer |
| `PrintfImpl.Vsnprintf` | kernel/lib/printf.c:77-213 | for every handled format the buffer holds exactly the model's output, zero behind it, and the count is its length, at most size; a terminator is in the buffer if and only if the output is shorter than size |
| `PrintfImpl.TerminatedExact` | kernel/lib/printf.c:77-213 | a buffer that holds a text without zeros, and zeros behind it, is terminated if and only if the text is shorter |
| `PrintfImpl.OutputIsClean` | kernel/lib/printf.c:77-213 | the output of every handled format holds no terminator of its own |
| `PrintfImpl.FullBufferIsNoString` | kernel/lib/printf.c:215-227 | a failing family: plain text of at least the buffer's size leaves no terminator |

## Left out

- Port and register I/O, interrupt controllers, timers, VGA and VESA output, ACPI and CPUID: hardware plumbing; a disk transfer is a change of one block.
- `_phys_to_virt`, `page_copy`, `k_copy_pagedir`, `_paging_map_more` and `free_pagedir`: they use physical addresses that are neither masked nor scaled.
- `find_first_free`, `free_vpage`, `buffer_free`, `ext2_file_seek`, `ls` and `lsroot`: not used by the modelled paths, or variations of loops modelled here.
- kernel/elf.c, kernel/syscall.c, libc/usr/glue.c, kernel/drivers/rtc.c, and the stream functions of the C library: thin drivers over the modelled parts.
- The real-mode entry code and argument slots of `mp_start_ap`: each processor starts at `mp_enter`.
- The contents of the instruction table: it is a parameter; proofs name the properties a row must have.
- `ftoa`, `dlog10` and `pow`.
- Root directories of more than one block, block groups after the first, and files of 256 blocks and more, for which the code writes outside a block.
- The limits of 256 symbols and 256 unresolved names in the assembler, and names of 32 characters, which the code stores without a terminator.
- Lines with more than two operands or without a mnemonic, for which `parse_line` reads or writes outside its arrays.
- LassSpec.CalcSib: the memory operand is modelled on values, not as the token loop it is; brackets with a star are covered in the form [first+second*scale] only, and brackets with a number as the other operand not at all.
- HeapImpl.KernelHeap.constructor: k_heap_init runs before there is a current page directory; what its look-ups through a null directory do to low memory is not modelled.
- IdeImpl.Driver.IdeRw: only for a buffer that is not queued, as are BufferRead and BufferWrite; otherwise the queue becomes a loop (HangExact) and the walk over it does not end.
- Ext2Impl.FileSystem.FindInodeInDir: not for inode -1, which the code reads from outside a block (StrayInodeExact); FollowPath stops there as well.
- Ext2Impl.AppendEntry: the last record must leave room for the new one inside the block; otherwise the code writes behind the block's end.
- HeapImpl.KernelHeap.ReallocCall: promises nothing about bytes once the heap has overflowed.
- HeapRuns.EveryRunIsSafe: a request of zero bytes to malloc_a is not a legal call, because it records an empty block at the address of the next one.
- Smp.StartupCompletes: fairness is one turn for every processor in each round.
- IdeSpec.EveryRunIsCoherent: a client changes a buffer only while it is not queued; what happens otherwise is HangExact and RequeueMakesCycle.
- Ext2Paths.EveryFileOpens: only for names directly under the root; deeper paths are covered by FollowPath alone.
- NumberImpl.ItoaCall: decimal zero and numbers with more digits than the width in other bases are not allowed, because the code then leaves its buffer.
- NumberImpl.Strrev: not for the empty string, for which the code swaps with the byte before the buffer.
- PrintfImpl.Ltoa: not for zero, for which it calls the reversal with an empty string; so zero is no argument for %u, %X and %l in Convert, PutDirective and Vsnprintf.
- PrintfImpl.Vsnprintf: only formats with handled directives and arguments that fit the scratch buffer; at any other character behind a percent sign the code loops for ever.
