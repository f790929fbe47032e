/** Two runs from boot, on an ordinary memory map, in which growing the heap changes an unrelated
    mapping: once by writing into its page table, once by writing into its page directory. */
module HeapWitness {
  import opened Words
  import opened FramePool
  import opened MemoryMap
  import opened PageTables
  import opened TableOwnership
  import opened Mapping
  import opened KernelMemory
  import opened Heap

  /** Static tables at 1 MiB, where the kernel image is loaded. */
  const TABLES := Layout(0x100, 0x101, 0x102)

  /** One Available entry, from 16 MiB to 272 MiB. */
  const LOADER_MAP := [Entry(0x100_0000, 0x1000_0000, Available)]

  /** An address under the empty PML4 slot 1. */
  const MAPPED: u64 := 0x80_0000_0000

  /** The end of the initial heap: where the first growth maps its first page. */
  const HEAP_END: u64 := 0x240_0000

  // ---------------------------------------------------------------- boot memory

  function BootTable(k: Layout, f: Frame): Table
    requires k.Valid()
  {
    if f == k.pml4 then ZeroTable()[0 := LinkTo(k.pdpt)][511 := LinkTo(k.pdpt)]
    else if f == k.pdpt then
      ZeroTable()[0 := LinkTo(k.pd)][1 := LinkTo(k.pd + 1)][2 := LinkTo(k.pd + 2)][3 := LinkTo(k.pd + 3)]
    else if k.pd <= f < k.pd + 4 then seq<u64>(ENTRIES, i requires 0 <= i < ENTRIES => HugeEntry(f - k.pd, i))
    else ZeroTable()
  }

  /** A memory that `init` leaves behind: what the runs below start from does exist. */
  function BootImage(k: Layout): Ram
    requires k.Valid()
  {
    seq<Table>(FRAMES, f requires 0 <= f < FRAMES => BootTable(k, f))
  }

  lemma BootImageIsBootRam(k: Layout)
    requires k.Valid()
    ensures BootRam(BootImage(k), k)
  {
    hide LinkTo, HugeEntry;
    var ram := BootImage(k);
    assert ram[k.pml4] == BootTable(k, k.pml4) && ram[k.pdpt] == BootTable(k, k.pdpt);
    forall f: Frame, i | k.pd <= f < k.pd + 4 && 0 <= i < ENTRIES ensures ram[f][i] == HugeEntry(f - k.pd, i) {
      assert ram[f] == BootTable(k, f);
    }
  }

  // ---------------------------------------------------------------- pools that are one interval

  ghost predicate Interval(s: Pool, lo: nat, hi: nat) {
    s.Valid() && s.firstFree <= lo && forall p: nat :: p in s.free <==> lo <= p < hi
  }

  lemma IntervalAlloc(s: Pool, lo: nat, hi: nat)
    requires Interval(s, lo, hi) && lo < hi
    ensures Alloc(s).page == Some(lo) && Interval(Alloc(s).pool, lo + 1, hi)
  {
    hide Alloc;
    AllocTakesOne(s);
    AllocIsNextFit(s, lo);
  }

  lemma IntervalAllocRun(s: Pool, lo: nat, hi: nat, n: nat)
    requires Interval(s, lo, hi) && 0 < n <= hi - lo
    ensures AllocRun(s, n).page == Some(lo) && Interval(AllocRun(s, n).pool, lo + n, hi)
  {
    hide AllocRun;
    AllocRunIsFirstFit(s, n);
    assert RunFree(s.free, lo, n);
    var start := AllocRun(s, n).page.value;
    assert start <= lo;
    assert start in s.free;
  }

  lemma BootPool()
    ensures Interval(InitialPool(LOADER_MAP), 0x1000, 0x1_1000)
  {
    var e := LOADER_MAP[0];
    assert LOADER_MAP[..0] == [];
    assert StartPage(e) == 0x1000 && EndPage(e) == 0x1_1000;
    MarkRunEffect(Pool({}, 0, 0), 0x1000, 0x1_0000);
  }

  lemma BootPoolMissesTables()
    ensures TABLES.Valid() && forall f: Frame | f in InitialPool(LOADER_MAP).free :: !TABLES.IsStatic(f)
  {
    BootPool();
  }

  /** Growing inside the boot region takes the lowest frames in turn. */
  lemma {:induction false} IntervalExtend(ram: Ram, k: Layout, s: Pool, lo: nat, hi: nat, virt: nat, n: nat)
    requires k.Valid() && BootEntries(ram, k) && Interval(s, lo, hi) && n <= hi - lo
    requires virt + n * PAGE_SIZE <= 0x1_0000_0000
    requires forall v: u64 | virt <= v < virt + n * PAGE_SIZE :: !k.IsStatic(ShadowFrame(v))
    ensures Interval(ExtendBy(ram, s, k, virt, n).pool, lo + n, hi)
    decreases n
  {
    hide ExtendOne, BootEntries, ShadowFrame, IndicesOf, Alloc, LinkTo, Interval;
    IntervalValid(s, lo, hi);
    if n != 0 {
      IntervalAlloc(s, lo, hi);
      ExtendOneWrites(ram, s, k, virt);
      var one := ExtendOne(ram, s, k, virt);
      IntervalExtend(one.ram, k, one.pool, lo + 1, hi, virt + PAGE_SIZE, n - 1);
    }
  }

  lemma IntervalValid(s: Pool, lo: nat, hi: nat)
    requires Interval(s, lo, hi)
    ensures s.Valid()
  {
  }

  /** The frames below the heap's huge entries all lie above the static tables. */
  lemma HeapShadows(virt: nat, n: nat)
    requires HEAP_START <= virt && virt + n * PAGE_SIZE <= 0x1_0000_0000
    ensures forall v: u64 | virt <= v < virt + n * PAGE_SIZE ::
              !TABLES.IsStatic(ShadowFrame(v)) && ShadowFrame(v) % 512 == 0 && ShadowFrame(v) + 512 > virt / PAGE_SIZE
  {
    forall v: u64 | virt <= v < virt + n * PAGE_SIZE
      ensures !TABLES.IsStatic(ShadowFrame(v)) && ShadowFrame(v) % 512 == 0 && ShadowFrame(v) + 512 > virt / PAGE_SIZE
    {
      ShadowSlot(v);
    }
  }

  // ---------------------------------------------------------------- up to the client's mapping

  /** A state with free frames [lo, hi) and PML4 slot 1 still empty. */
  ghost predicate Ready(s: System, k: Layout, avail: set<nat>, lo: nat, hi: nat) {
    Inv(s, k, avail) && Interval(s.pool, lo, hi) && !Present(s.ram[k.pml4][1])
  }

  /** The initial heap takes the 1024 frames from 0x1000 on. */
  lemma AfterHeap(ram: Ram) returns (t: System, ops: seq<Op>)
    requires BootRam(ram, TABLES)
    ensures var pool := InitialPool(LOADER_MAP);
            && (forall f: Frame | f in pool.free :: !TABLES.IsStatic(f))
            && Run(BootSystem(ram, TABLES, pool), TABLES, pool.free, ops, t)
            && ExtendBy(ram, pool, TABLES, HEAP_START, 1024) == Extension(t.ram, t.pool, 1024)
            && Ready(t, TABLES, pool.free, 0x1400, 0x1_1000)
  {
    hide InitialPool, Inv, Run, ExtendBy, ShadowFrame, Interval, Present;
    var pool := InitialPool(LOADER_MAP);
    BootPool();
    BootPoolMissesTables();
    IntervalSize(pool, 0x1000, 0x1_1000);
    var s := BootSystem(ram, TABLES, pool);
    HeapShadows(HEAP_START, 1024);
    forall v: u64 | HEAP_START <= v < HEAP_START + 1024 * PAGE_SIZE ensures SparesDirectories(s.owner, v) {
      assert ShadowFrame(v) !in s.owner;
    }
    t, ops := HeapExtensionInSystem(s, TABLES, pool.free, HEAP_START, 1024);
    IntervalExtend(ram, TABLES, pool, 0x1000, 0x1_1000, HEAP_START, 1024);
    EmptySlot(t, TABLES, pool.free);
  }

  lemma IntervalSize(s: Pool, lo: nat, hi: nat)
    requires Interval(s, lo, hi) && lo <= hi
    ensures |s.free| == hi - lo
  {
    assert s.free == PagesFrom(lo, hi - lo);
  }

  /** With the boot tables only, PML4 slot 1 is empty. */
  lemma EmptySlot(s: System, k: Layout, avail: set<nat>)
    requires Inv(s, k, avail) && s.owner == BootOwners(k)
    ensures !Present(s.ram[k.pml4][1])
  {
    hide Translate;
    NextOwned(s.ram, k, s.owner, k.pml4, 1);
  }

  lemma AfterTake(s: System, k: Layout, avail: set<nat>, lo: nat, hi: nat, n: nat) returns (t: System)
    requires Ready(s, k, avail, lo, hi) && 0 < n <= hi - lo
    ensures var op := Client(TakeRun(n)); Legal(s, op) && t == Apply(s, k, avail, op) && Ready(t, k, avail, lo + n, hi)
  {
    hide Present, Translate;
    IntervalAllocRun(s.pool, lo, hi, n);
    t := Apply(s, k, avail, Client(TakeRun(n)));
    ApplyKeepsInv(s, k, avail, Client(TakeRun(n)));
  }

  /** Mapping under the empty PML4 slot draws `lo` and the two frames after it as tables. */
  lemma AfterFirstMap(s: System, k: Layout, avail: set<nat>, lo: nat, hi: nat, first: u64) returns (t: System)
    requires Ready(s, k, avail, lo, hi) && lo + 3 <= hi
    ensures var op := Map(MAPPED, first, PRESENT + WRITABLE);
            && Legal(s, op) && t == Apply(s, k, avail, op) && Inv(t, k, avail) && Interval(t.pool, lo + 3, hi)
            && lo + 1 in t.owner && t.owner[lo + 1] == Pd(1, 0)
            && lo + 2 in t.owner && t.owner[lo + 2] == Pt(1, 0, 0)
            && Translate(t.ram, k, MAPPED) == Some(Addr(first))
  {
    hide Present, Translate, MapPage, Alloc, ShadowFrame, Interval;
    MappedIndices();
    var op := Map(MAPPED, first, PRESENT + WRITABLE);
    IntervalAlloc(s.pool, lo, hi);
    var pool1 := Alloc(s.pool).pool;
    IntervalAlloc(pool1, lo + 1, hi);
    var pool2 := Alloc(pool1).pool;
    IntervalAlloc(pool2, lo + 2, hi);
    DrawsBecomeTables(s.ram, s.pool, k, s.owner, MAPPED, first, PRESENT + WRITABLE, lo, lo + 1, lo + 2,
                      pool1, pool2, Alloc(pool2).pool);
    MapRefines(s.ram, s.pool, k, s.owner, MAPPED, first, PRESENT + WRITABLE);
    t := Apply(s, k, avail, op);
    ApplyKeepsInv(s, k, avail, op);
    assert SamePage(MAPPED, MAPPED);
  }

  lemma MappedIndices()
    ensures !InBootRegion(MAPPED) && IndicesOf(MAPPED) == Indices(1, 0, 0, 0, 0)
  {
  }

  function ClientOps(n: nat, first: u64): seq<Op> {
    [Client(TakeRun(n)), Map(MAPPED, first, PRESENT + WRITABLE)]
  }

  /** The client's mapping has made `lo + 1` its page directory and `lo + 2` its page table. */
  ghost predicate ClientMapped(s: System, avail: set<nat>, lo: nat, first: u64) {
    && Inv(s, TABLES, avail) && Interval(s.pool, lo + 3, 0x1_1000) && lo + 3 <= FRAMES
    && lo + 1 in s.owner && s.owner[lo + 1] == Pd(1, 0)
    && lo + 2 in s.owner && s.owner[lo + 2] == Pt(1, 0, 0)
    && Translate(s.ram, TABLES, MAPPED) == Some(Addr(first))
  }

  lemma ClientRuns(heap: System, avail: set<nat>, n: nat, first: u64) returns (s: System)
    requires Ready(heap, TABLES, avail, 0x1400, 0x1_1000) && 0 < n <= 0x1000
    ensures Run(heap, TABLES, avail, ClientOps(n, first), s) && ClientMapped(s, avail, 0x1400 + n, first)
  {
    hide Inv, Run, Apply, Legal, Interval, Translate, Present;
    var taken := AfterTake(heap, TABLES, avail, 0x1400, 0x1_1000, n);
    s := AfterFirstMap(taken, TABLES, avail, 0x1400 + n, 0x1_1000, first);
    RunOfTwo(heap, TABLES, avail, Client(TakeRun(n)), Map(MAPPED, first, PRESENT + WRITABLE));
  }

  /** Boot, the initial heap, a client that takes `n` frames and then maps MAPPED to `first`. */
  lemma ClientMaps(ram: Ram, n: nat, first: u64) returns (s: System, ops: seq<Op>)
    requires BootRam(ram, TABLES) && 0 < n <= 0x1000
    ensures var pool := InitialPool(LOADER_MAP);
            && (forall f: Frame | f in pool.free :: !TABLES.IsStatic(f))
            && Run(BootSystem(ram, TABLES, pool), TABLES, pool.free, ops, s)
            && ClientMapped(s, pool.free, 0x1400 + n, first)
  {
    hide InitialPool, Inv, Run, ClientMapped, ClientOps, Present, Interval;
    var pool := InitialPool(LOADER_MAP);
    var heap, heapOps := AfterHeap(ram);
    s := ClientRuns(heap, pool.free, n, first);
    ClientInv(s, pool.free, 0x1400 + n, first);
    ops := heapOps + ClientOps(n, first);
    RunAppend(BootSystem(ram, TABLES, pool), TABLES, pool.free, heapOps, heap, ClientOps(n, first), s);
  }

  lemma ClientInv(s: System, avail: set<nat>, lo: nat, first: u64)
    requires ClientMapped(s, avail, lo, first)
    ensures Inv(s, TABLES, avail)
  {
  }

  // ---------------------------------------------------------------- the next growth

  /** The pages one extension of the initial heap asks for. */
  function FirstGrowth(minBytes: nat): (n: nat)
    ensures 0 < n && HEAP_END + n * PAGE_SIZE <= HEAP_START + MAX_HEAP_SIZE
  {
    PagesFit(INITIAL_HEAP_SIZE, minBytes);
    PagesWanted(INITIAL_HEAP_SIZE, minBytes)
  }

  lemma FirstGrowthExtends(ram: Ram, pool: Pool, k: Layout, minBytes: nat)
    requires pool.Valid()
    ensures var h, r := Grow(HeapState(ram, pool, INITIAL_HEAP_SIZE), k, minBytes),
                        ExtendBy(ram, pool, k, HEAP_END, FirstGrowth(minBytes));
            h.ram == r.ram && h.pool == r.pool
  {
    hide ExtendBy, PagesWanted;
  }

  /** What the growth writes: the word of its first page goes to slot 0 of frame 0x2400. */
  lemma FirstWord(ram: Ram, pool: Pool, minBytes: nat, lo: nat, f: Frame, j: Index)
    requires TABLES.Valid() && BootEntries(ram, TABLES) && Interval(pool, lo, 0x1_1000) && lo < 0x1_1000
    ensures var grown := ExtendBy(ram, pool, TABLES, HEAP_END, FirstGrowth(minBytes)).ram;
            && Alloc(pool).page == Some(lo) && grown[0x2400][0] == LinkTo(lo)
            && (f % 512 != 0 || f < 0x2400 ==> grown[f][j] == ram[f][j])
  {
    hide ExtendBy, BootEntries, ShadowFrame, ShadowWrites, LinkTo, Alloc, FirstGrowth, Layout.IsStatic;
    var n := FirstGrowth(minBytes);
    IntervalAlloc(pool, lo, 0x1_1000);
    HeapShadows(HEAP_END, n);
    ExtensionWrites(ram, pool, TABLES, HEAP_END, n);
    var frames := DrawnFrames(pool, n);
    assert frames[0] == lo;
    ShadowWritesAt(ram, HEAP_END, frames, 0x2400, 0);
    ShadowWritesAt(ram, HEAP_END, frames, f, j);
  }

  /** If the client has taken frames up to 0x23FD, its mapping makes frame 0x2400 a page table, and
      the growth, a legal run, writes the heap's frames into it. The client's page, mapped to
      `first`, ends up at the first frame the allocator gave the heap. */
  lemma GrowthRedirectsMapping(ram: Ram, first: u64, minBytes: nat)
    returns (s: System, ops: seq<Op>, t: System, growth: seq<Op>)
    requires BootRam(ram, TABLES)
    ensures var k, pool := TABLES, InitialPool(LOADER_MAP);
            && (forall f: Frame | f in pool.free :: !k.IsStatic(f))
            && Run(BootSystem(ram, k, pool), k, pool.free, ops, s) && Inv(s, k, pool.free)
            && Run(s, k, pool.free, growth, t) && t.owner == s.owner
            && Alloc(s.pool).page == Some(0x2401)
            && Translate(s.ram, k, MAPPED) == Some(Addr(first))
            && Translate(t.ram, k, MAPPED) == Some(0x2401 * PAGE_SIZE)
            && var h := Grow(HeapState(s.ram, s.pool, INITIAL_HEAP_SIZE), k, minBytes);
               h.ram == t.ram && h.pool == t.pool
  {
    hide InitialPool, Inv, Run, ExtendBy, Grow, Interval, Translate, ShadowFrame, FirstGrowth, Alloc, SparesDirectories;
    var k, pool := TABLES, InitialPool(LOADER_MAP);
    BootPool();
    s, ops := ClientMaps(ram, 0xFFE, first);
    var n := FirstGrowth(minBytes);
    forall v: u64 | HEAP_END <= v < HEAP_END + n * PAGE_SIZE ensures SparesDirectories(s.owner, v) {
      HitsPageTable(s, pool.free, v);
    }
    t, growth := HeapExtensionInSystem(s, k, pool.free, HEAP_END, n);
    PoolOfSystem(s, k, pool.free);
    FirstGrowthExtends(s.ram, s.pool, k, minBytes);
    ReadsFirstFrame(s, t, pool.free, minBytes);
  }

  lemma HitsPageTable(s: System, avail: set<nat>, v: u64)
    requires Interval(InitialPool(LOADER_MAP), 0x1000, 0x1_1000) && avail == InitialPool(LOADER_MAP).free
    requires Inv(s, TABLES, avail)
    requires Interval(s.pool, 0x2401, 0x1_1000) && 0x2400 in s.owner && s.owner[0x2400].Pt?
    requires HEAP_END <= v < 0x1_0000_0000
    ensures SparesDirectories(s.owner, v)
  {
    hide InitialPool, TablesOk, Refines;
    ShadowSlot(v);
  }

  lemma ReadsFirstFrame(s: System, t: System, avail: set<nat>, minBytes: nat)
    requires Inv(s, TABLES, avail) && Inv(t, TABLES, avail) && t.owner == s.owner
    requires Interval(s.pool, 0x2401, 0x1_1000) && 0x2400 in s.owner && s.owner[0x2400] == Pt(1, 0, 0)
    requires t.ram == ExtendBy(s.ram, s.pool, TABLES, HEAP_END, FirstGrowth(minBytes)).ram
    ensures Alloc(s.pool).page == Some(0x2401) && Translate(t.ram, TABLES, MAPPED) == Some(0x2401 * PAGE_SIZE)
  {
    hide Translate, ExtendBy, Interval, Refines, FirstGrowth, Alloc, LinkTo;
    FirstWord(s.ram, s.pool, minBytes, 0x2401, 0, 0);
    MappedIndices();
    ServedTranslation(t.ram, TABLES, t.owner, 0x2400, 0, MAPPED);
    LinkReads(0x2401);
  }

  /** If the client has taken one frame more, frame 0x2400 is the page directory, and the growth
      makes it link the first frame the allocator gives the heap, 0x2402. The client's page then goes
      wherever the first word of that frame says; and in every consistent reading of memory that
      frame is a live page table, so never one that the heap could hold. */
  lemma GrowthDamagesTables(ram: Ram, first: u64, minBytes: nat) returns (s: System, ops: seq<Op>)
    requires BootRam(ram, TABLES)
    ensures var k, pool := TABLES, InitialPool(LOADER_MAP);
            && (forall f: Frame | f in pool.free :: !k.IsStatic(f))
            && Run(BootSystem(ram, k, pool), k, pool.free, ops, s) && Inv(s, k, pool.free)
            && !SparesDirectories(s.owner, HEAP_END)
            && Alloc(s.pool).page == Some(0x2402)
            && Translate(s.ram, k, MAPPED) == Some(Addr(first))
            && var h := Grow(HeapState(s.ram, s.pool, INITIAL_HEAP_SIZE), k, minBytes);
               && Translate(h.ram, k, MAPPED) == LeafValue(s.ram[0x2402][0], MAPPED)
               && forall t: System | t.ram == h.ram && Inv(t, k, pool.free) :: 0x2402 in t.owner && 0x2402 !in t.held
  {
    hide InitialPool, Inv, Run, ExtendBy, Grow, Interval, Translate, ShadowFrame, FirstGrowth, Alloc, LeafValue;
    var k, pool := TABLES, InitialPool(LOADER_MAP);
    BootPool();
    s, ops := ClientMaps(ram, 0xFFF, first);
    HeapAddressInBootRegion(HEAP_END);
    ShadowSlot(HEAP_END);
    PoolOfSystem(s, k, pool.free);
    FirstGrowthExtends(s.ram, s.pool, k, minBytes);
    var grown := ExtendBy(s.ram, s.pool, k, HEAP_END, FirstGrowth(minBytes)).ram;
    ReadsUnzeroedFrame(s, grown, pool.free, minBytes);
  }

  lemma PdptBeforeGrowth(s: System, avail: set<nat>, f: Frame)
    requires Interval(InitialPool(LOADER_MAP), 0x1000, 0x1_1000) && avail == InitialPool(LOADER_MAP).free
    requires Inv(s, TABLES, avail)
    requires Interval(s.pool, 0x2402, 0x1_1000) && 0x2400 in s.owner && s.owner[0x2400].Pd?
    requires Lookup(s.ram, TABLES, Pdpt(1)) == Some(f)
    ensures f % 512 != 0 || f < 0x2400
  {
    hide InitialPool, Refines, LinksNamed, HugeOnlyAtBoot;
    LookupOwned(s.ram, TABLES, s.owner, Pdpt(1));
  }

  lemma WalkByLinks(ram: Ram, k: Layout, v: u64, f3: Frame, f2: Frame, f1: Frame)
    requires var ix := IndicesOf(v);
             Next(ram, k.pml4, ix.pml4) == Some(f3) && Next(ram, f3, ix.pdpt) == Some(f2) && Next(ram, f2, ix.pd) == Some(f1)
    ensures Translate(ram, k, v) == LeafValue(ram[f1][IndicesOf(v).pt], v)
    ensures Lookup(ram, k, Pt(IndicesOf(v).pml4, IndicesOf(v).pdpt, IndicesOf(v).pd)) == Some(f1)
  {
    hide FrameOf, Present, Huge;
    var ix := IndicesOf(v);
    assert Lookup(ram, k, Pdpt(ix.pml4)) == Some(f3);
    assert Lookup(ram, k, Pd(ix.pml4, ix.pdpt)) == Some(f2);
  }

  lemma ReadsUnzeroedFrame(s: System, grown: Ram, avail: set<nat>, minBytes: nat)
    requires Interval(InitialPool(LOADER_MAP), 0x1000, 0x1_1000) && avail == InitialPool(LOADER_MAP).free
    requires Inv(s, TABLES, avail)
    requires Interval(s.pool, 0x2402, 0x1_1000)
    requires 0x2400 in s.owner && s.owner[0x2400] == Pd(1, 0)
    requires grown == ExtendBy(s.ram, s.pool, TABLES, HEAP_END, FirstGrowth(minBytes)).ram
    ensures Alloc(s.pool).page == Some(0x2402)
    ensures Translate(grown, TABLES, MAPPED) == LeafValue(s.ram[0x2402][0], MAPPED)
    ensures forall t: System | t.ram == grown && Inv(t, TABLES, avail) :: 0x2402 in t.owner && 0x2402 !in t.held
  {
    hide ExtendBy, Interval, Refines, FirstGrowth, Alloc, LinkTo, FrameOf, Present, Huge, LeafValue, LinksNamed,
         HugeOnlyAtBoot, Translate, IndicesOf;
    NameFindsTable(s.ram, TABLES, s.owner, 0x2400);
    var f3 := Lookup(s.ram, TABLES, Pdpt(1)).value;
    assert Next(s.ram, 0x100, 1) == Some(f3) && Next(s.ram, f3, 0) == Some(0x2400);
    PdptBeforeGrowth(s, avail, f3);
    FirstWord(s.ram, s.pool, minBytes, 0x2402, 0x100, 1);
    FirstWord(s.ram, s.pool, minBytes, 0x2402, f3, 0);
    FirstWord(s.ram, s.pool, minBytes, 0x2402, 0x2402, 0);
    MappedIndices();
    LinkReads(0x2402);
    assert Next(grown, 0x100, 1) == Some(f3) && Next(grown, f3, 0) == Some(0x2400) && Next(grown, 0x2400, 0) == Some(0x2402);
    WalkByLinks(grown, TABLES, MAPPED, f3, 0x2400, 0x2402);
    forall t: System | t.ram == grown && Inv(t, TABLES, avail) ensures 0x2402 in t.owner && 0x2402 !in t.held {
      LookupOwned(grown, TABLES, t.owner, Pt(1, 0, 0));
    }
  }
}
