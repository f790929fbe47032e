/** Bringing the memory stack up, in the order the kernel does it. */
module Kernel {
  import opened Words
  import opened FramePool
  import opened FrameAllocation
  import opened MemoryMap
  import opened PageTables
  import opened KernelMemory
  import opened Paging
  import opened BootInfo
  import opened Heap

  /** What the boot needs of the loader's map and of the kernel's own placement: the static page
      tables are in no Available entry, and they are not in the two frames that the initial heap
      mappings write to. The kernel checks neither. */
  ghost predicate BootSound(entries: seq<Entry>, k: Layout) {
    && (forall f: Frame | f in InitialPool(entries).free :: !k.IsStatic(f))
    && HeapMissesStatics(k)
  }

  predicate HeapMissesStatics(k: Layout) {
    !k.IsStatic(0x2000) && !k.IsStatic(0x2200)
  }

  /** The system once the initial heap is in place: 1024 frames held by the heap, no page mapped
      beyond the boot region, no table but the static ones, and everything the invariant says. */
  ghost predicate HeapInPlace(t: System, k: Layout, avail: set<nat>) {
    && Inv(t, k, avail) && t.view == map[] && t.owner == BootOwners(k)
    && |t.held| == 1024 && |t.pool.free| == |avail| - 1024
  }

  /** `ok` is false where the kernel panics: an unsupported framebuffer, no memory map (the
      allocator then has no frame for the heap), or too little memory for the initial heap. */
  method BringUp(multibootInfo: u64, block: seq<u8>, data: BootData, k: Layout, mem: PhysicalMemory,
                 frames: FrameAllocator, stats: StatsCell)
    returns (ok: bool, heap: AutoExtendHeap?)
    requires BlockSafe(multibootInfo, block)
    requires data.Valid() && data.count == 0 && stats.stats == MemoryStats(0, 0)
    requires frames.bitmap.Length == BITMAP_SIZE
    requires frames.firstFree == 0 && frames.totalPages == 0 && frames.freePages == 0
    requires k.Valid() && mem.Valid() && forall f: Frame | k.IsStatic(f) :: mem.Contents()[f] == ZeroTable()
    requires mem.words as object != frames.bitmap as object
    requires data.buffer as object != frames.bitmap as object && data.buffer as object != mem.words as object
    modifies data, data.buffer, mem.words, frames, frames.bitmap, stats
    ensures ok ==>
              && heap != null && fresh(heap) && heap.Valid()
              && heap.space.k == k && heap.space.mem == mem && heap.space.frames == frames
              && heap.heapEnd == HEAP_START + INITIAL_HEAP_SIZE
    ensures ok ==>
              var g := Parsed(multibootInfo, block, Gathered(DEFAULT_FRAMEBUFFER, []));
              && g.Some?
              && var entries := g.value.memoryMap;
                 && stats.stats == Counted(MemoryStats(0, 0), entries)
                 && (BootSound(entries, k) ==>
                       exists t: System :: HeapInPlace(t, k, InitialPool(entries).free)
                                           && t.ram == mem.Contents() && t.pool == frames.pool)
    ensures HeapMissesStatics(k) ==>
              var g := Parsed(multibootInfo, block, Gathered(DEFAULT_FRAMEBUFFER, []));
              ok <==> g.Some? && |InitialPool(g.value.memoryMap).free| >= 1024
  {
    hide Parsed, Inv, ExtendBy, BootRam, InitialPool, Counted, BootOwners;
    var info := data.FromBootloader(multibootInfo, block);
    if info.None? { return false, null; }
    var entries := data.buffer[..data.count];
    var space := new AddressSpace(k, mem, frames);
    space.Init();
    stats.ParseMemMap(entries);
    frames.Init(entries);
    if entries == [] {
      AllocTakesOne(frames.pool);
      assert FramePool.Alloc(frames.pool).page.None?;
      assert InitialPool(entries).free == {} by { NoEntriesNoPages(); }
      return false, null;
    }
    heap := new AutoExtendHeap(space);
    ghost var ram, pool := mem.Contents(), frames.pool;
    ok := heap.Init();
    if HeapMissesStatics(k) { InitialHeapPages(ram, k, pool); }
    if ok && BootSound(entries, k) {
      ghost var t := InitialHeapInSystem(ram, k, pool);
    }
  }

  lemma NoEntriesNoPages()
    ensures InitialPool([]).free == {}
  {
  }

  /** The initial heap gets its 1024 pages whenever that many frames are free: no page of it needs
      a new table. */
  lemma InitialHeapPages(ram: Ram, k: Layout, pool: Pool)
    requires BootRam(ram, k) && pool.Valid() && HeapMissesStatics(k)
    ensures ExtendBy(ram, pool, k, HEAP_START, 1024).pages == Min(1024, |pool.free|)
  {
    hide ExtendBy, ShadowFrame, DrawnFrames, ShadowWrites;
    forall v: u64 | HEAP_START <= v < HEAP_START + 1024 * PAGE_SIZE ensures !k.IsStatic(ShadowFrame(v)) {
      ShadowSlot(v);
      assert ShadowFrame(v) == 0x2000 || ShadowFrame(v) == 0x2200;
    }
    ExtensionWrites(ram, pool, k, HEAP_START, 1024);
    DrawnCount(pool, 1024);
  }

  lemma InitialHeapInSystem(ram: Ram, k: Layout, pool: Pool) returns (t: System)
    requires BootRam(ram, k) && pool.Valid() && forall f: Frame | f in pool.free :: !k.IsStatic(f)
    requires HeapMissesStatics(k)
    requires ExtendBy(ram, pool, k, HEAP_START, 1024).pages == 1024
    ensures HeapInPlace(t, k, pool.free)
    ensures ExtendBy(ram, pool, k, HEAP_START, 1024) == Extension(t.ram, t.pool, 1024)
  {
    hide Inv, ExtendBy, BootRam, ShadowFrame;
    var s := BootSystem(ram, k, pool);
    forall v: u64 | HEAP_START <= v < HEAP_START + 1024 * PAGE_SIZE ensures ShadowFrame(v) !in s.owner {
      ShadowSlot(v);
      assert ShadowFrame(v) == 0x2000 || ShadowFrame(v) == 0x2200;
    }
    var ops;
    t, ops := HeapExtensionInSystem(s, k, pool.free, HEAP_START, 1024);
  }
}
