# viceOS memory management, verified

A model of the memory stack of the viceOS kernel (x86-64, Rust) in Dafny, with the PID allocator and the
keyboard driver beside it. Code that changes things in place is modelled by classes over arrays and mutable
fields; each method is tied to a function on values, and the theorems are about those functions.

| file | what it models |
|---|---|
| Words.dfy, Bits.dfy | 64-bit words, single-bit reads and writes |
| FramePool.dfy, FrameAllocator.dfy | the bitmap frame allocator: as a value, and in place |
| MemoryMap.dfy | page rounding, the initial free set, memory statistics |
| PageTables.dfy | entry codec, virtual addresses, `translate`, `map_page`, `unmap_page` on memory as a value |
| EntryBits.dfy | the entry masks, bit by bit |
| TableOwnership.dfy | which frames are live tables, and under what name |
| DirectoryWrites.dfy | what a word written into a live directory does to walks and tables |
| Mapping.dfy | map and unmap refine updates of an abstract address space |
| KernelMemory.dfy | tables, pool and clients as one system, over whole runs |
| Paging.dfy | physical memory as an array and the page-table code working on it |
| BootInfo.dfy, Multiboot.dfy | the Multiboot2 tag walk, and the encoder for its round trip (section 3.6 of the Multiboot2 specification) |
| Heap.dfy | the self-extending heap |
| HeapWitness.dfy | runs from boot in which growing the heap changes another mapping |
| Kernel.dfy | the boot order, composing all of the above |
| Processes.dfy | the PID bitmap |
| KeyTables.dfy, Keyboard.dfy | scancode tables and the keyboard byte machine |

## How to read it

- **Memory.** Physical memory is 2^40 frames of 512 words, total, so a drawn frame starts with arbitrary
  contents. A pointer to a table is the frame number an entry holds.
- **Words** are integers with their range in the type; wrap-around is written out (`% U64_SPAN`), as the
  release build that the Makefile selects by default computes it. A mask by a contiguous field is division and
  remainder (`EntryBits` shows these are the masks bit by bit); a single-bit test or write is `Bits.Bit`, `SetBit`, `ClearBit`.
- **Names.** The invariant `TablesOk` gives every live table frame one name, the indices that lead to it, with
  PML4 slot 511 named as slot 0. That makes the shared PDPT a single table, and reduces "nothing else changed"
  to comparing names.
- **Panics** are `None` or `false` results, never preconditions. A lock is taken for a whole method, so each
  operation is one step. `invlpg`, CR3 and logging have no effect in the model.

## Assumptions

- The frames of `KPML4`, `KPDPT` and `KPD` are distinct and not in the free pool (`BootSystem`). The allocator
  does not reserve the kernel image (kernel/src/mem/phys.rs:55-70), so the loader's map has to. `BootSound` adds
  that none of them is frame 0x2000 or 0x2200, into which mapping the initial heap writes.
- `KPML4`, `KPDPT` and `KPD` start zeroed, are page aligned, `KPD` is four consecutive frames, and all lie
  below 2^52; `TablePointersAreIdentity` also needs them below 4 GiB.
- The allocator's operations are used after `init` with a memory map.

## Where the code does less than it says

- `map_page` on an address whose path has a huge entry reports success, but `translate` still returns the huge
  mapping. `MapMeetsPromiseIff` gives the exact condition. The heap range lies inside the 2 MiB identity
  region, so every heap page is such an address: `HeapMeansItself`, `HeapExtensionInSystem`.
- The word written then lands in the frame the huge entry points at, whatever that frame is. If it is a page
  table, the page served by that word is remapped and nothing else. If it is a directory, every walk through
  that word goes on in the mapped frame, whatever that holds (`ShadowWriteEffect`).
  - Without a directory involved, no translation changes if and only if the frame is no table or the word already
    maps the same frame (`ShadowWriteInvisibleIff`), and the system invariant holds on.
  - A directory hit leaves a tree of tables if and only if the mapped frame can be a table in that place
    (`TablesSurviveIff`), and a state of the system if and only if, besides, it puts back the frames that hung
    there (`ShadowWriteKeepsSystemIff`). A heap page never does: `HeapPageKeepsSystemIff`.
  - Both cases arise, from every memory that `init` leaves and on an ordinary memory map. In
    `GrowthRedirectsMapping` boot, the initial heap, one client and one growth of the heap end with the client's
    page leading to the frame allocated for the heap; in `GrowthDamagesTables`, where the client takes one frame
    more, that frame is a live page table that nobody zeroed, and the page leads wherever its first word says.
- Heap memory is the identity frames of the heap range, not the frames allocated for it, so nothing keeps the
  allocator from handing those frames to someone else, and they may still be in the pool. In particular the heap
  overwrites its own memory when it grows from an end that is not a multiple of 2 MiB: `GrowthKeepsHeapIff` gives
  the exact condition, and one request suffices to reach such an end (`GrowthOverwritesHeap`).
- The comment at kernel/src/mem/phys.rs:187-188 says the hint is the lowest free page. A contiguous allocation
  keeps that if and only if it fails or its run starts at the lowest free page: `AllocRunKeepsLowWaterIff`, and
  `AllocRunCanLoseLowWater` for a pool where it does not. `WrapRestoresLowWater` says what repairs it.
- The count of available memory wraps at 2^64. It is the sum of the available lengths if and only if that sum
  fits (`StatisticExactIff`); `WrappedStatistic` has a map whose count is zero although pages are free.
- Without a memory map the allocator logs that all memory is available (kernel/src/mem/phys.rs:47-53), while
  its bitmap is full: `FrameAllocator.Init` proves that the counters agree with the bitmap if and only if there
  is a map.
- A map entry whose end or rounded start wraps past 2^64 is not rounded exactly: `ExactIff`, and
  `WrappedEntryFreesEverything` for an entry that frees all memory below 4 GiB.

## Model

| member | source | states |
|---|---|---|
| Bits.SetBitReads | kernel/src/mem/phys.rs:111 | or-ing a bit in sets that bit and leaves every other bit as it was |
| Bits.ClearBitReads | kernel/src/mem/phys.rs:94 | masking a bit out clears that bit and leaves every other bit as it was |
| Bits.AllOnesIffFull | kernel/src/proc/manager.rs:29 | a word differs from all ones exactly when it has a clear bit |
| FramePool.LowestFree | kernel/src/mem/phys.rs:129-144 | a scan range yields its lowest free page, and nothing only if it holds none |
| FramePool.FirstRunIsLowest | kernel/src/mem/phys.rs:159-167 | the contiguous search yields the lowest start of a free run, and nothing only if no start works |
| FramePool.AllocTakesOne | kernel/src/mem/phys.rs:128-152 | a valid pool stays valid; None exactly when nothing is free; otherwise exactly one free page leaves the pool |
| FramePool.AllocIsNextFit | kernel/src/mem/phys.rs:128-144 | the page is the lowest free one at or above the hint, else the lowest of all, and the hint moves just past it |
| FramePool.AllocIsLowest | kernel/src/mem/phys.rs:128-144 | under the low-water mark `alloc` returns the lowest free page, keeps the mark, and its wrap loop finds nothing |
| FramePool.WrapRestoresLowWater | kernel/src/mem/phys.rs:137-144 | an `alloc` whose forward scan finds nothing restores the mark from any state |
| FramePool.AllocRunIsFirstFit | kernel/src/mem/phys.rs:154-179 | first fit from the hint: lowest possible start, exactly that run leaves the pool, None exactly when no start at or above the hint works |
| FramePool.AllocRunIsComplete | kernel/src/mem/phys.rs:154-179 | under the mark, None means the count is 0 or no such run exists anywhere |
| FramePool.AllocRunKeepsLowWaterIff | kernel/src/mem/phys.rs:173 | from a pool under the mark, a contiguous allocation keeps it if and only if the count is 0, no run of that length is free, or one starts at the lowest free page |
| FramePool.AllocRunCanLoseLowWater | kernel/src/mem/phys.rs:173 | with pages 0, 2 and 3 free, allocating two leaves page 0 free below the hint |
| FramePool.FreeBelowTotal | kernel/src/mem/phys.rs:159 | free pages never exceed total pages, so neither subtraction underflows |
| FramePool.FreeUndoesAlloc | kernel/src/mem/phys.rs:181-190 | freeing the page just allocated restores the free set and the total |
| FramePool.FreeEffect | kernel/src/mem/phys.rs:181-198 | freeing a free or out-of-range page changes nothing; any other page becomes free, the hint falls to it if it was higher and the total rises past it if it was lower |
| FramePool.FreeRunUndoesAllocRun | kernel/src/mem/phys.rs:200-218 | freeing the run just allocated restores the free set and the total |
| FramePool.FreeRunKeepsMark | kernel/src/mem/phys.rs:200-218 | exactly the pages of the range below 2^20 become free, the hint falls to its start, the total rises past its end, validity and the low-water mark are kept |
| FramePool.MarkRunEffect | kernel/src/mem/phys.rs:82-97 | freeing a range page by page adds exactly its pages in range and raises the total to cover them |
| FramePool.StepMoves | kernel/src/mem/phys.rs:128-218 | each operation moves exactly the pages it takes or is given |
| FramePool.TakenPages | kernel/src/mem/phys.rs:128-179 | `alloc` takes one page if there is one; `alloc_contiguous` takes as many as asked for if such a run lies at or above the hint, else none |
| FramePool.RunsKeepCounters | kernel/src/mem/phys.rs:128-218 | after any run, even one freeing pages nobody holds, all free pages lie below the total, and the mark holds if no contiguous allocation occurred |
| FrameAllocation.FrameAllocator.Init | kernel/src/mem/phys.rs:38-80 | with a map the bitmap and the total are exactly those of the initial pool (`InitialFreeSet`, `InitialTotal`); bitmap, bounds and counter agree if and only if there is a map |
| FrameAllocation.FrameAllocator.MarkFree | kernel/src/mem/phys.rs:82-97 | the bitmap changes as the pool does and the counter stays its size |
| FrameAllocation.FrameAllocator.MarkAllocated | kernel/src/mem/phys.rs:99-113 | the page leaves the free set, the counter follows and cannot underflow |
| FrameAllocation.FrameAllocator.Alloc | kernel/src/mem/phys.rs:128-152 | the two scan loops over the bitmap compute next fit on the pool |
| FrameAllocation.FrameAllocator.AllocContiguous | kernel/src/mem/phys.rs:154-179 | the nested loops compute first fit on the pool, without underflow |
| FrameAllocation.FrameAllocator.IsRunFree | kernel/src/mem/phys.rs:162-167 | the inner loop answers true exactly when every page of the run is free |
| FrameAllocation.FrameAllocator.FindRun | kernel/src/mem/phys.rs:159-167 | the outer loop finds the first run of the pool |
| FrameAllocation.FrameAllocator.Free | kernel/src/mem/phys.rs:181-198 | bitmap, counter and hint move as the pool does, for any address |
| FrameAllocation.FrameAllocator.FreeContiguous | kernel/src/mem/phys.rs:200-218 | the same for a range, in bounds or not |
| FrameAllocation.FrameAllocator.Stats | kernel/src/mem/phys.rs:259-267 | used plus free is total; the subtraction does not underflow |
| MemoryMap.PageAlignUp | kernel/src/mem/mod.rs:133-135 | the result is page aligned and, unless the sum wraps, the least such address not below the input |
| MemoryMap.PageAlignDown | kernel/src/mem/mod.rs:127-129 | the result is the greatest page-aligned address not above the input |
| MemoryMap.ExactIff | kernel/src/mem/phys.rs:59-67 | an entry frees exactly the pages inside it if and only if no sum wraps or the wrap is harmless |
| MemoryMap.WrappedEntryFreesEverything | kernel/src/mem/phys.rs:60-67 | an empty entry at the top of the address space frees every page below 4 GiB |
| MemoryMap.InitialFreeSet | kernel/src/mem/phys.rs:55-70 | a page is free after `init` exactly when it is in range and lies inside one Available entry, overlaps included |
| MemoryMap.InitialTotal | kernel/src/mem/phys.rs:55-97 | after `init` with a map the total is one past the highest free page, or 0 if none is free |
| MemoryMap.FreeWithinAvailable | kernel/src/mem/mod.rs:110-112 | free bytes never exceed the available memory the kernel counts, as long as the sum of the available lengths fits 64 bits |
| MemoryMap.StatisticsByKind | kernel/src/mem/mod.rs:90-114 | total memory is the lengths of the Available, AcpiReclaimable, AcpiNvs, Kernel and Bootloader entries added up modulo 2^64, available memory those of the Available ones |
| MemoryMap.StatisticExactIff | kernel/src/mem/mod.rs:110-112 | the count is the sum of the available lengths if and only if that sum fits 64 bits |
| MemoryMap.WrappedStatistic | kernel/src/mem/mod.rs:110-112 | two entries of 2^63 bytes count as no available memory while page 0 is free |
| MemoryMap.ShortfallBelowTwoPagesPerEntry | kernel/src/mem/mod.rs:90-114 | for disjoint Available entries below 4 GiB, rounding loses under two pages per entry |
| MemoryMap.StatsCell.ParseMemMap | kernel/src/mem/mod.rs:73-121 | the loop adds up RAM-backed and available lengths modulo 2^64; without a map both are 32 MiB |
| PageTables.NewEntryReads | kernel/src/arch/x86_64/paging.rs:38-48 | an entry gives back its masked address and flags, with reserved bits clear |
| PageTables.RebuildEntry | kernel/src/arch/x86_64/paging.rs:38-48 | splitting an entry and rebuilding it is the identity exactly when its reserved bits are clear |
| PageTables.SettersKeepOtherHalf | kernel/src/arch/x86_64/paging.rs:50-56 | setting the address keeps the flags, and the other way round |
| EntryBits.AddrMaskBits | kernel/src/arch/x86_64/paging.rs:19-44 | the address mask keeps exactly bits 12 to 51 |
| EntryBits.FlagMaskBits | kernel/src/arch/x86_64/paging.rs:20-48 | the flag mask keeps exactly bits 0 to 11 and bit 63 |
| EntryBits.FlagTests | kernel/src/arch/x86_64/paging.rs:59-82 | present, writable and huge are bits 0, 1 and 7 of the entry |
| EntryBits.OrPresentBits | kernel/src/arch/x86_64/paging.rs:251 | adding PRESENT sets bit 0 and keeps every other bit of the flags |
| EntryBits.NewEntryBits | kernel/src/arch/x86_64/paging.rs:38-40 | an entry takes bits 12 to 51 from the address, 0 to 11 and 63 from the flags, and has no other bit |
| PageTables.IndicesAreLow48Bits | kernel/src/arch/x86_64/paging.rs:140-150 | the five indices are the low 48 bits of the address, in order |
| PageTables.TranslateKeepsOffset | kernel/src/arch/x86_64/paging.rs:297-338 | whatever memory holds, a translation keeps the offset within the page |
| PageTables.HugeRegionIsLinear | kernel/src/arch/x86_64/paging.rs:312-328 | below a huge entry, translation is linear over its whole region: 1 GiB in a PDPT, 2 MiB in a page directory |
| PageTables.HugeRegionStart | kernel/src/arch/x86_64/paging.rs:312-328 | the first address of a huge region translates to the address its entry holds |
| PageTables.LinkReads | kernel/src/arch/x86_64/paging.rs:216 | a link entry is present, writable, not huge and points at its table |
| PageTables.LinkFlags | kernel/src/arch/x86_64/paging.rs:216 | a link entry has the flags PRESENT and WRITABLE and no other |
| PageTables.HugeReads | kernel/src/arch/x86_64/paging.rs:190-193 | a boot entry is present, writable, huge and points at its 2 MiB region |
| PageTables.HugeFlags | kernel/src/arch/x86_64/paging.rs:190-193 | a boot entry has the flags PRESENT, WRITABLE and HUGE_PAGE and no other |
| TableOwnership.OneParentEntry | kernel/src/arch/x86_64/paging.rs:213-247 | two entries of live tables lead to the same table only if they are the same entry, or PML4 slots 0 and 511 |
| TableOwnership.BootRegionIdentity | kernel/src/arch/x86_64/paging.rs:297-328 | with the boot entries in place the low 4 GiB translate to themselves, under both PML4 slots |
| TableOwnership.TranslateByName | kernel/src/arch/x86_64/paging.rs:297-338 | outside that region the walk meets no huge entry and reads the leaf slot its indices name |
| TableOwnership.OtherFramesAreInvisible | kernel/src/arch/x86_64/paging.rs:297-338 | overwriting frames that are not tables changes no translation |
| TableOwnership.SlotWrite | kernel/src/arch/x86_64/paging.rs:249-251 | writing a word of any page table keeps the tables and changes the translation of exactly the pages that word serves |
| TableOwnership.LeafWrite | kernel/src/arch/x86_64/paging.rs:249-251 | writing a leaf slot changes the translation of its page and alias, and of nothing else |
| TableOwnership.LinkKeepsTables | kernel/src/arch/x86_64/paging.rs:213-221 | linking and zeroing a fresh table keeps every table invariant |
| TableOwnership.LinkIsInvisible | kernel/src/arch/x86_64/paging.rs:213-221 | linking an empty table changes no translation at all |
| Mapping.EnterPageTableOk | kernel/src/arch/x86_64/paging.rs:212-247 | creating the missing levels changes no translation, draws at most three frames, and ends in the page table of the address |
| Mapping.MapRefines | kernel/src/arch/x86_64/paging.rs:208-258 | success makes exactly the page and its alias translate to the masked frame; failure changes no translation; the frames drawn are the tables linked, at most three |
| Mapping.MapDrawsMissing | kernel/src/arch/x86_64/paging.rs:213-247 | success exactly when the pool covers the missing levels; one frame drawn per missing level as far as the pool goes |
| Mapping.MapErrorNamesLevel | kernel/src/arch/x86_64/paging.rs:214-241 | after a failure, `unmap_page` of the same address stops at the very level the error named |
| Mapping.MapStoresFlags | kernel/src/arch/x86_64/paging.rs:251 | the leaf word bit by bit: PRESENT, the caller's flags in bits 0 to 11 and 63, the frame in bits 12 to 51, and nothing else |
| Mapping.UnmapRefines | kernel/src/arch/x86_64/paging.rs:260-294 | success exactly on a mapped page, returning its frame; that page and its alias become unmapped and nothing else changes |
| Mapping.UnmapErrorIff | kernel/src/arch/x86_64/paging.rs:260-294 | each error comes exactly when its level is the first one missing; on success the whole leaf word is cleared |
| Mapping.UnmapUndoesMap | kernel/src/arch/x86_64/paging.rs:208-294 | unmapping a page just mapped returns the masked frame and leaves every other address as before the map |
| KernelMemory.BootUpdates | kernel/src/arch/x86_64/paging.rs:236-251 | on a path with a huge entry `map_page` draws nothing, never fails, and writes into the frame the huge entry points at |
| KernelMemory.MapMeetsPromiseIff | kernel/src/arch/x86_64/paging.rs:239-251 | unless it overwrites an entry of its own walk, a successful map makes its page translate to its frame if and only if no huge entry is on the path or the huge mapping already says so |
| KernelMemory.OwnPathRedirected | kernel/src/arch/x86_64/paging.rs:249-251 | if it does overwrite an entry of its own walk, the rest of that walk goes on in the mapped frame |
| KernelMemory.ShadowWriteEffect | kernel/src/arch/x86_64/paging.rs:249-251 | for every address, where it translates to after mapping below a huge entry: changed only for the page a page-table word serves, or for the walks through a directory word, which go on in the mapped frame |
| KernelMemory.ShadowWriteInvisibleIff | kernel/src/arch/x86_64/paging.rs:249-251 | if the word is in no directory, every translation stays as it was if and only if the frame written is no table or the overwritten word already maps the same frame |
| DirectoryWrites.DirectoryWriteEffect | kernel/src/arch/x86_64/paging.rs:249-251 | any word written into a live directory, outside the entries of `init`, redirects exactly the walks through it |
| DirectoryWrites.TablesSurviveIff | kernel/src/arch/x86_64/paging.rs:249-251 | after such a write into a PDPT or page directory the tables are a tree, under any names at all, if and only if the word is absent or not huge and links a frame that is not used elsewhere and whose own links, if it becomes a directory, are small, distinct and unused |
| TableOwnership.NamesAreUnique | kernel/src/arch/x86_64/paging.rs:208-247 | memory determines which frames are live tables and what each is for |
| KernelMemory.ViewExists | kernel/src/arch/x86_64/paging.rs:297-338 | any consistent tables translate as some plain map from pages to frames |
| KernelMemory.DirectoryWriteKeepsSystemIff | kernel/src/arch/x86_64/paging.rs:249-251 | such a write leaves a state of the system, with the same pool and clients, if and only if it leaves a tree and puts below its slot the very frames that were there |
| KernelMemory.ShadowWriteKeepsSystemIff | kernel/src/arch/x86_64/paging.rs:249-251 | mapping below a huge entry keeps the system if and only if it writes into no directory or puts back the frames that were there; for a frame that is no table, if and only if it writes into no directory |
| KernelMemory.BootTranslations | kernel/src/arch/x86_64/paging.rs:169-205 | after `init` an address translates to its value modulo 2^39 exactly when its PML4 index is 0 or 511 and that value is below 4 GiB, and to nothing otherwise |
| KernelMemory.ApplyKeepsInv | kernel/src/arch/x86_64/paging.rs:208-294 | map, unmap, allocation, release and writes to frames that are no tables each keep tables, ownership and the abstract address space in step, updates that hit a page table through a huge entry included |
| KernelMemory.MapStep | kernel/src/arch/x86_64/paging.rs:208-258 | a map outside the boot region is always legal; on success exactly its page and alias lead to the frame, on failure nothing changes; frames leave the pool exactly as they become tables |
| KernelMemory.UnmapStep | kernel/src/arch/x86_64/paging.rs:260-294 | an unmap outside the boot region is always legal; exactly its page and alias lead nowhere after it |
| KernelMemory.StoreStep | kernel/src/arch/x86_64/paging.rs:297-338 | every word of every frame that is no table may be written; exactly that word changes and no translation does |
| KernelMemory.ClientStep | kernel/src/mem/phys.rs:128-218 | taking is always legal, giving back exactly for frames held; frames move between pool and clients and nothing else changes |
| KernelMemory.RunKeepsInv | kernel/src/arch/x86_64/paging.rs:208-294 | so does every legal run, in any interleaving |
| KernelMemory.RunsFromBoot | kernel/src/mem/phys.rs:128-218 | after any legal run from boot, translation is the fold of the successful updates, and the frames free at boot are split without overlap into free, held and table frames; `alloc` fails exactly when the last two are all |
| KernelMemory.EveryTableHasItsParent | kernel/src/arch/x86_64/paging.rs:213-247 | every live table but the root hangs below exactly one entry of a live table one level up, the shared PDPT below PML4 slots 0 and 511 |
| KernelMemory.TablePointersAreIdentity | kernel/src/arch/x86_64/paging.rs:219-224 | in every reachable state a table's physical address translates to itself, so walking by physical pointer is sound |
| Paging.PhysicalMemory.Zero | kernel/src/arch/x86_64/paging.rs:218-220 | all 512 words of one table become zero and no other frame changes |
| Paging.AddressSpace.Init | kernel/src/arch/x86_64/paging.rs:169-205 | the loops leave exactly the boot entries in the static tables and change no other frame |
| Paging.AddressSpace.EnterTable | kernel/src/arch/x86_64/paging.rs:213-221 | in place: memory, pool and next table are those of one level on values |
| Paging.AddressSpace.MapPage | kernel/src/arch/x86_64/paging.rs:208-258 | in place: memory, pool and result are those of `map_page` on values, in every state |
| Paging.AddressSpace.UnmapPage | kernel/src/arch/x86_64/paging.rs:260-294 | in place: memory and result are those of `unmap_page` on values, in every state |
| Paging.AddressSpace.Translate | kernel/src/arch/x86_64/paging.rs:297-338 | reads the translation of the current memory |
| BootInfo.ReadEntries | kernel/src/bootinfo.rs:153-175 | the entry loop yields at most 128 entries for every entry size, 0 included |
| BootInfo.ClassifyKeepsNumbers | kernel/src/bootinfo.rs:160-166 | memory types 1 to 5 keep their number in the enumeration, every other type is reserved |
| BootInfo.ConsistentIsSafe | kernel/src/bootinfo.rs:107-181 | when every tag has at least 8 bytes and room for its fields, all reads stay inside the block and the walk ends |
| BootInfo.BootData.FromBootloader | kernel/src/bootinfo.rs:86-210 | the tag loop computes the parse that `RoundTrip` characterises, panics where that has no result, and leaves its entries in the static buffer |
| BootInfo.BootData.FillBuffer | kernel/src/bootinfo.rs:146-177 | the inner loop fills the buffer with the entries of the tag and sets the count |
| Multiboot.ReadBackEntries | kernel/src/bootinfo.rs:153-175 | encoded entries read back in order with their types classified, up to the limit |
| Multiboot.ReadBackFramebuffer | kernel/src/bootinfo.rs:116-142 | every framebuffer field reads back from its offset |
| Multiboot.WalkReadsBack | kernel/src/bootinfo.rs:107-181 | the walk over an encoded tag list is safe and absorbs the tags in order, whatever bytes pad them; it panics exactly when a framebuffer is not RGB |
| Multiboot.RoundTrip | kernel/src/bootinfo.rs:101-183 | parsing an encoded block yields the first 128 entries of the last memory map and the last framebuffer, skipping all else; it panics exactly when a framebuffer is not RGB; a null pointer changes nothing |
| Multiboot.BootDefaults | kernel/src/bootinfo.rs:86-99 | without a memory map, a framebuffer or a block at all: no entries, and the text screen of 80 by 25 at 0xb8000 |
| Multiboot.BootedFreeSet | kernel/src/mem/phys.rs:55-70 | from the loader's bytes: a page is free exactly when it lies inside an Available entry among those 128 |
| Heap.MapPageDraws | kernel/src/arch/x86_64/paging.rs:213-247 | in any state the pool shrinks by exactly the table frames drawn, and a failure leaves it empty |
| Heap.ExtensionConservesFrames | kernel/src/mem/heap.rs:74-100 | whatever fails, frames gone are pages added plus tables drawn; an early stop leaves at most the one returned frame |
| Heap.HeapExtensionInSystem | kernel/src/mem/heap.rs:74-110 | an extension is a legal run unless it writes into a directory: it adds as many pages as frames allow, draws no table, and changes no translation if it writes into no table |
| Heap.HeapPageKeepsSystemIff | kernel/src/mem/heap.rs:74-100 | backing one more heap page keeps the system if and only if the word written is in no directory |
| Heap.ExtensionWrites | kernel/src/mem/heap.rs:74-100 | an extension adds one page per frame drawn and changes exactly the words below the huge entries of its pages |
| Heap.GrowthKeepsHeapIff | kernel/src/mem/heap.rs:74-100 | it leaves the heap's own memory alone if and only if the end is a multiple of 2 MiB or the words it writes below the end are already there |
| Heap.GrowthOverwritesHeap | kernel/src/mem/heap.rs:70-100 | after a request of one page over 4 MiB, the next growth overwrites heap memory whose word at the new end is zero |
| HeapWitness.GrowthRedirectsMapping | kernel/src/mem/heap.rs:74-100 | a legal run from boot through the initial heap, a client's mapping and one growth of any size, after which the client's page translates to the first frame allocated for the heap |
| HeapWitness.GrowthDamagesTables | kernel/src/mem/heap.rs:74-100 | the same with one frame more taken: the growth hits a page directory, the client's page goes where the first word of the unzeroed heap frame says, and that frame is a live table in every consistent reading of memory |
| Heap.DrawnCount | kernel/src/mem/phys.rs:128-152 | n calls of `alloc` hand out n frames, or all that are free |
| Heap.HeapMeansItself | kernel/src/mem/heap.rs:7 | in every reachable state a heap address translates to itself, not to the frame mapped for it |
| Heap.PagesFit | kernel/src/mem/heap.rs:70-72 | an extension asks for the greater of the request and 4 MiB, rounded up to pages, or for all the room left under 512 MiB if that is less |
| Heap.GrowthAdds | kernel/src/mem/heap.rs:58-120 | a growth adds exactly the pages asked for, or one per free frame if those are fewer, and the same number of frames leaves the pool |
| Heap.HeapBound | kernel/src/mem/heap.rs:58-119 | over any run of extensions, whatever else happens to memory and pool between them, the size stays a page multiple between 4 MiB and 512 MiB, so at most 130048 of them succeed |
| Heap.AutoExtendHeap.Init | kernel/src/mem/heap.rs:27-53 | the initial heap is 1024 pages backed one by one, and the panic comes exactly when one cannot be |
| Heap.AutoExtendHeap.TryExtend | kernel/src/mem/heap.rs:58-120 | one step of the runs bounded by `HeapBound` and sized by `PagesFit` and `GrowthAdds`; true exactly when pages were added, and the end moves by exactly those pages |
| Heap.AutoExtendHeap.Alloc | kernel/src/mem/heap.rs:124-146 | if the first attempt fits nothing changes; otherwise the heap takes exactly one growth step for the requested size, and the retry happens only if that made it larger |
| Kernel.BringUp | kernel/src/mem/mod.rs:55-71 | if the static tables miss frames 0x2000 and 0x2200, boot succeeds if and only if no framebuffer is unsupported and at least 1024 frames are free; after a success the system invariant holds with 1024 frames held by the heap, no mapping and no table beyond those of boot, if the static tables are also outside the map |
| Kernel.InitialHeapPages | kernel/src/mem/heap.rs:27-53 | the initial heap gets as many of its 1024 pages as there are free frames: none needs a table |
| Processes.Manager.constructor | kernel/src/proc/manager.rs:14-24 | a new manager has exactly PID 0 in use and no process |
| Processes.Manager.CreateProcess | kernel/src/proc/manager.rs:27-47 | the least unused PID becomes used and names the appended process; the panic comes exactly when none is left |
| Processes.Manager.ClearBitOf | kernel/src/proc/manager.rs:30-33 | the inner loop finds the lowest clear bit of a word that is not all ones |
| Processes.LeastUnusedIs | kernel/src/proc/manager.rs:27-47 | the PID chosen is the least unused one below 1024, and there is none only if all are used |
| Processes.PidsAreSequential | kernel/src/proc/manager.rs:27-47 | over any run from a fresh manager call c returns PID c + 1, and the panic is reached on the 1024th call and not before |
| Processes.KnownPids | kernel/src/proc/manager.rs:56-58 | after n creations a PID names a process exactly when it is in 1..n; PID 0 never does |
| Processes.Manager.GetProcess | kernel/src/proc/manager.rs:56-58 | returns a process with that PID, and none only if there is none |
| Keyboard.TakenByGetChar | kernel/src/drivers/keyboard.rs:708-715 | everything up to and including the first printable event is taken |
| Keyboard.Keyboard.HandleInterrupt | kernel/src/drivers/keyboard.rs:152-175 | one byte advances the decoder and queues its event unless 100 are waiting |
| Keyboard.Keyboard.ReadKey | kernel/src/drivers/keyboard.rs:694-696 | the oldest event leaves the queue |
| Keyboard.Keyboard.GetChar | kernel/src/drivers/keyboard.rs:708-715 | returns the first printable character queued, dropping what stood before it |
| Keyboard.KeyboardRuns | kernel/src/drivers/keyboard.rs:152-207 | for every interleaving the queue stays within 100, delivered plus queued events are an ordered subsequence of the decoded stream short by the dropped ones, and modifiers follow every byte |
| Keyboard.EventsFollowStrokes | kernel/src/drivers/keyboard.rs:155-185 | every byte but 0xE0 makes one event, pressed exactly below 0x80, whose key comes from the extended table exactly when 0xE0 stands right before the byte; the flag says only that the last byte was 0xE0 |
| Keyboard.SessionSteps | kernel/src/drivers/keyboard.rs:169-174 | a step of the runs queues the event of a byte unless 100 wait, a read delivers the oldest event, `get_char` everything up to the first press that types |
| Keyboard.NothingLost | kernel/src/drivers/keyboard.rs:169-174 | a run that meets no full queue delivers and queues exactly the decoded stream |
| Keyboard.ModifiersFollowEvents | kernel/src/drivers/keyboard.rs:187-206 | shift, control and alt are held exactly as their last event says, caps lock and num lock are the parity of their presses, and each event carries the modifiers after it |
| Keyboard.ModifierScancodes | kernel/src/drivers/keyboard.rs:187-199 | which scancodes, plain and extended, act on each modifier |
| Keyboard.PressesType | kernel/src/drivers/keyboard.rs:323-328 | a release types nothing |
| Keyboard.LettersType | kernel/src/drivers/keyboard.rs:328-513 | letters are upper case exactly when one of shift and caps lock is on |
| Keyboard.DigitRow | kernel/src/drivers/keyboard.rs:234-245 | scancodes 0x02 to 0x0D are the digit row |
| Keyboard.TopRow | kernel/src/drivers/keyboard.rs:248-260 | scancodes 0x10 to 0x1C are the row Q to P, the brackets and Enter |
| Keyboard.HomeRow | kernel/src/drivers/keyboard.rs:262-273 | scancodes 0x1E to 0x29 are the row A to L and its symbols |
| Keyboard.BottomRow | kernel/src/drivers/keyboard.rs:275-285 | scancodes 0x2B to 0x35 are the row Z to M and its symbols |
| Keyboard.BracketsType | kernel/src/drivers/keyboard.rs:606-650 | brackets, semicolon, quote and grave follow shift and ignore caps lock |
| Keyboard.SlashesType | kernel/src/drivers/keyboard.rs:627-668 | so do backslash, comma, period and slash |
| Keyboard.MoreDigitsType | kernel/src/drivers/keyboard.rs:563-606 | so do 7 to 0, minus and equals |
| Keyboard.DigitsType | kernel/src/drivers/keyboard.rs:514-606 | 1 to 6 follow shift and ignore caps lock |

## Left out

- The allocator's operations after an `init` without a memory map: nothing is free there, so `alloc` fails and the kernel panics when it builds the heap.
- `free_contiguous` with a page number that overflows 64 bits: the loop would have to pass 2^52 pages first.
- `linked_list_allocator`: whether a request fits is an input of `Heap.AutoExtendHeap.Alloc`; only the size it was told of is tracked.
- Runs go up to, and not through, an update below a huge entry that writes into a live directory; `ShadowWriteEffect` and `ShadowWriteKeepsSystemIff` say what that one step does. Updates that write into a live page table are part of the runs.
- ShadowWriteEffect: does not cover words that `init` wrote, which can be hit only if a static table starts at a multiple of 2 MiB; `OwnPathRedirected` covers those on the page's own walk.
- The state left behind when the kernel panics during heap initialisation: it halts there.
- Fields of the boot information that are constants (architecture, kernel and initrd bounds, command line), and the unused entry version.
- Interrupt re-entrancy and lock contention: each operation is one step.
- Port, MSR and CR access, TLB behaviour, descriptor tables, interrupt controllers, serial port, logging, screen: device effects with no logic beyond constants.
- `scheduler.rs`, `thread.rs`, `context.rs`, `virt.rs`: stubs and plain records.
- The function keys, the keypad and the control characters of the key tables as claims; the rows of letters, digits and symbols and the modifier keys are proved.
