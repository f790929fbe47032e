/** The self-extending kernel heap: where its pages and frames go, and how far it can grow. */
module Heap {
  import opened Words
  import opened FramePool
  import opened PageTables
  import opened TableOwnership
  import opened KernelMemory
  import opened Paging

  const HEAP_START: nat := 0x200_0000
  const INITIAL_HEAP_SIZE: nat := 0x40_0000
  const EXTEND_CHUNK_SIZE: nat := 0x40_0000
  const MAX_HEAP_SIZE: nat := 0x2000_0000

  // ---------------------------------------------------------------- the mapping loop as a function

  /** `pages` mapped before the loop stopped. */
  datatype Extension = Extension(ram: Ram, pool: Pool, pages: nat)

  const PRESENT_WRITABLE: u64 := PRESENT + WRITABLE

  /** Back one page with a frame; give the frame back if it is the mapping that fails. */
  function ExtendOne(ram: Ram, pool: Pool, k: Layout, virt: u64): (r: Extension)
    requires pool.Valid()
    ensures r.pool.Valid() && r.pages <= 1
  {
    AllocTakesOne(pool);
    var a := Alloc(pool);
    match a.page
    case None => Extension(ram, a.pool, 0)
    case Some(frame) =>
      var m := MapPage(ram, a.pool, k, virt, frame * PAGE_SIZE, PRESENT_WRITABLE);
      match m.result
      case Err(_) =>
        FreeEffect(m.pool, frame);
        Extension(m.ram, FramePool.Free(m.pool, frame), 0)
      case Ok(_) => Extension(m.ram, m.pool, 1)
  }

  /** Back `n` pages from address `virt` on; stop at the first failure. */
  function ExtendBy(ram: Ram, pool: Pool, k: Layout, virt: nat, n: nat): (r: Extension)
    requires pool.Valid() && virt + n * PAGE_SIZE <= U64_SPAN
    ensures r.pool.Valid() && r.pages <= n
    decreases n
  {
    if n == 0 then Extension(ram, pool, 0)
    else
      var one := ExtendOne(ram, pool, k, virt);
      if one.pages == 0 then one
      else
        var r := ExtendBy(one.ram, one.pool, k, virt + PAGE_SIZE, n - 1);
        r.(pages := r.pages + 1)
  }

  /** The loop, `done` pages in, has the rest of the same extension still to do. */
  ghost predicate Resumes(whole: Extension, ram: Ram, pool: Pool, k: Layout, virt: nat, n: nat, done: nat)
    requires pool.Valid() && done <= n && virt + n * PAGE_SIZE <= U64_SPAN
  {
    var rest := ExtendBy(ram, pool, k, virt + done * PAGE_SIZE, n - done);
    whole == rest.(pages := rest.pages + done)
  }

  lemma NothingWanted(ram: Ram, pool: Pool, k: Layout, virt: u64)
    requires pool.Valid()
    ensures ExtendBy(ram, pool, k, virt, 0) == Extension(ram, pool, 0)
  {
  }

  lemma ResumeStep(whole: Extension, ram: Ram, pool: Pool, k: Layout, virt: nat, n: nat, done: nat)
    requires pool.Valid() && done <= n && virt + n * PAGE_SIZE <= U64_SPAN
    requires Resumes(whole, ram, pool, k, virt, n, done)
    ensures done == n ==> whole == Extension(ram, pool, n)
    ensures done < n ==>
              var one := ExtendOne(ram, pool, k, virt + done * PAGE_SIZE);
              if one.pages == 0 then whole == Extension(one.ram, one.pool, done)
              else Resumes(whole, one.ram, one.pool, k, virt, n, done + 1)
  {
    hide ExtendOne;
    if done < n {
      assert virt + (done + 1) * PAGE_SIZE == virt + done * PAGE_SIZE + PAGE_SIZE;
    }
  }

  // ---------------------------------------------------------------- frame accounting

  /** Whether one level of `map_page` draws a frame. */
  function Draws(ram: Ram, pool: Pool, f: Frame, i: Index): nat {
    if !Present(ram[f][i]) && pool.free != {} then 1 else 0
  }

  /** Table frames `map_page` draws, in any state at all. */
  function TablesDrawn(ram: Ram, pool: Pool, k: Layout, virt: u64): nat
    requires pool.Valid()
  {
    var ix := IndicesOf(virt);
    var a := EnterTable(ram, pool, k.pml4, ix.pml4, NoPdptFrame);
    Draws(ram, pool, k.pml4, ix.pml4) +
    if a.next.Err? then 0 else
    var b := EnterTable(a.ram, a.pool, a.next.value, ix.pdpt, NoPdFrame);
    Draws(a.ram, a.pool, a.next.value, ix.pdpt) +
    if b.next.Err? then 0 else
    Draws(b.ram, b.pool, b.next.value, ix.pd)
  }

  lemma EnterTableDraws(ram: Ram, pool: Pool, f: Frame, i: Index, error: MapError)
    requires pool.Valid()
    ensures var r := EnterTable(ram, pool, f, i, error);
            && r.pool.free <= pool.free
            && |pool.free| == |r.pool.free| + Draws(ram, pool, f, i)
            && (r.next.Err? ==> pool.free == {})
  {
    AllocTakesOne(pool);
  }

  lemma MapPageDraws(ram: Ram, pool: Pool, k: Layout, virt: u64, phys: u64, flags: u64)
    requires pool.Valid()
    ensures var m := MapPage(ram, pool, k, virt, phys, flags);
            && m.pool.free <= pool.free
            && |pool.free| == |m.pool.free| + TablesDrawn(ram, pool, k, virt)
            && (m.result.Err? ==> m.pool.free == {})
  {
    var ix := IndicesOf(virt);
    EnterTableDraws(ram, pool, k.pml4, ix.pml4, NoPdptFrame);
    var a := EnterTable(ram, pool, k.pml4, ix.pml4, NoPdptFrame);
    if a.next.Ok? {
      EnterTableDraws(a.ram, a.pool, a.next.value, ix.pdpt, NoPdFrame);
      var b := EnterTable(a.ram, a.pool, a.next.value, ix.pdpt, NoPdFrame);
      if b.next.Ok? {
        EnterTableDraws(b.ram, b.pool, b.next.value, ix.pd, NoPtFrame);
      }
    }
  }

  function TablesDrawnOne(ram: Ram, pool: Pool, k: Layout, virt: u64): nat
    requires pool.Valid()
  {
    AllocTakesOne(pool);
    if Alloc(pool).page.None? then 0 else TablesDrawn(ram, Alloc(pool).pool, k, virt)
  }

  /** Table frames drawn over the whole loop. */
  function TablesDrawnBy(ram: Ram, pool: Pool, k: Layout, virt: nat, n: nat): nat
    requires pool.Valid() && virt + n * PAGE_SIZE <= U64_SPAN
    decreases n
  {
    if n == 0 then 0
    else
      var one := ExtendOne(ram, pool, k, virt);
      TablesDrawnOne(ram, pool, k, virt) +
      if one.pages == 0 then 0 else TablesDrawnBy(one.ram, one.pool, k, virt + PAGE_SIZE, n - 1)
  }

  lemma OneConservesFrames(ram: Ram, pool: Pool, k: Layout, virt: u64)
    requires pool.Valid()
    ensures var r := ExtendOne(ram, pool, k, virt);
            && r.pool.free <= pool.free
            && |pool.free| == |r.pool.free| + r.pages + TablesDrawnOne(ram, pool, k, virt)
            && (r.pages == 0 ==> r.pool.free == {} || (Alloc(pool).page.Some? && r.pool.free == {Alloc(pool).page.value}))
  {
    AllocTakesOne(pool);
    var a := Alloc(pool);
    if a.page.Some? {
      var frame := a.page.value;
      var m := MapPage(ram, a.pool, k, virt, frame * PAGE_SIZE, PRESENT_WRITABLE);
      MapPageDraws(ram, a.pool, k, virt, frame * PAGE_SIZE, PRESENT_WRITABLE);
      if m.result.Err? {
        assert FramePool.Free(m.pool, frame).free == {frame};
      }
    }
  }

  /** Whatever fails and wherever, the frames gone from the pool are the pages added plus the table
      frames drawn. The loop stops early only when the pool has run dry: a frame whose mapping
      failed is then back, and is the only one. */
  lemma {:induction false} ExtensionConservesFrames(ram: Ram, pool: Pool, k: Layout, virt: nat, n: nat)
    requires pool.Valid() && virt + n * PAGE_SIZE <= U64_SPAN
    ensures var r := ExtendBy(ram, pool, k, virt, n);
            && r.pool.free <= pool.free
            && |pool.free| == |r.pool.free| + r.pages + TablesDrawnBy(ram, pool, k, virt, n)
            && (r.pages < n ==> |r.pool.free| <= 1)
    decreases n
  {
    hide ExtendOne;
    hide TablesDrawnOne;
    if n != 0 {
      OneConservesFrames(ram, pool, k, virt);
      var one := ExtendOne(ram, pool, k, virt);
      if one.pages != 0 {
        ExtensionConservesFrames(one.ram, one.pool, k, virt + PAGE_SIZE, n - 1);
      }
    }
  }

  // ---------------------------------------------------------------- the heap inside the boot region

  lemma HeapAddressInBootRegion(virt: u64)
    requires virt < 0x1_0000_0000
    ensures InBootRegion(virt) && ShadowFrame(virt) % 512 == 0
    ensures virt % 0x80_0000_0000 == virt
  {
    BootRegionIsLow4GiB(virt);
    assert virt / 0x80_0000_0000 == 0;
  }

  /** Extending the heap is a legal run of the system as long as no address of the new range has
      its shadow frame among the directories: it draws no table and never fails to map, so it stops
      early only for want of frames. It changes no translation when no shadow frame is a table. */
  lemma {:induction false} HeapExtensionInSystem(s: System, k: Layout, avail: set<nat>, virt: nat, n: nat)
    returns (t: System, ops: seq<Op>)
    requires Inv(s, k, avail) && virt + n * PAGE_SIZE <= 0x1_0000_0000
    requires forall v: u64 | virt <= v < virt + n * PAGE_SIZE :: SparesDirectories(s.owner, v)
    ensures Inv(t, k, avail) && Run(s, k, avail, ops, t)
    ensures ExtendBy(s.ram, s.pool, k, virt, n) == Extension(t.ram, t.pool, Min(n, |s.pool.free|))
    ensures t.owner == s.owner
    ensures (forall v: u64 | virt <= v < virt + n * PAGE_SIZE :: ShadowFrame(v) !in s.owner) ==> t.view == s.view
    ensures |t.held| == |s.held| + Min(n, |s.pool.free|) && |t.pool.free| == |s.pool.free| - Min(n, |s.pool.free|)
    decreases n
  {
    hide ExtendOne, Inv, Run, SparesDirectories, ShadowFrame;
    PoolOfSystem(s, k, avail);
    EmptyRun(s, k, avail);
    if n == 0 { return s, []; }
    t, ops := HeapPageInSystem(s, k, avail, virt);
    if s.pool.free != {} {
      var page, pageOps := t, ops;
      t, ops := HeapExtensionInSystem(page, k, avail, virt + PAGE_SIZE, n - 1);
      RunAppend(s, k, avail, pageOps, page, ops, t);
      ops := pageOps + ops;
    }
  }

  lemma PoolOfSystem(s: System, k: Layout, avail: set<nat>)
    requires Inv(s, k, avail)
    ensures s.pool.Valid()
  {
  }

  lemma HeapPageInSystem(s: System, k: Layout, avail: set<nat>, virt: u64) returns (t: System, ops: seq<Op>)
    requires Inv(s, k, avail) && virt < 0x1_0000_0000 && SparesDirectories(s.owner, virt)
    ensures Inv(t, k, avail) && Run(s, k, avail, ops, t) && t.owner == s.owner
    ensures ShadowFrame(virt) !in s.owner ==> t.view == s.view
    ensures s.pool.free == {} ==> t == s && ExtendOne(s.ram, s.pool, k, virt) == Extension(s.ram, s.pool, 0)
    ensures s.pool.free != {} ==>
              && ExtendOne(s.ram, s.pool, k, virt) == Extension(t.ram, t.pool, 1)
              && |t.held| == |s.held| + 1 && |t.pool.free| == |s.pool.free| - 1
  {
    HeapAddressInBootRegion(virt);
    hide PageTables.MapPage;
    hide InBootRegion;
    hide ShadowFrame;
    AllocTakesOne(s.pool);
    if s.pool.free == {} { return s, []; }
    var frame := Alloc(s.pool).page.value;
    var taken := Apply(s, k, avail, Client(TakeOne));
    ApplyKeepsInv(s, k, avail, Client(TakeOne));
    assert taken.held == s.held + {frame};
    BootUpdates(taken.ram, taken.pool, k, virt, frame * PAGE_SIZE, PRESENT_WRITABLE);
    t := Apply(taken, k, avail, Map(virt, frame * PAGE_SIZE, PRESENT_WRITABLE));
    ApplyKeepsInv(taken, k, avail, Map(virt, frame * PAGE_SIZE, PRESENT_WRITABLE));
    ops := [Client(TakeOne), Map(virt, frame * PAGE_SIZE, PRESENT_WRITABLE)];
    RunOfTwo(s, k, avail, Client(TakeOne), Map(virt, frame * PAGE_SIZE, PRESENT_WRITABLE));
  }

  /** Backing one more page keeps the system exactly when the word written below the huge entry is
      in no directory: the frame mapped belongs to the heap, and would become a live table too. */
  lemma HeapPageKeepsSystemIff(s: System, k: Layout, avail: set<nat>, virt: u64)
    requires Inv(s, k, avail) && virt < 0x1_0000_0000 && s.pool.free != {} && !k.IsStatic(ShadowFrame(virt))
    ensures var one, taken := ExtendOne(s.ram, s.pool, k, virt), Apply(s, k, avail, Client(TakeOne));
            && one.pages == 1 && one.pool == taken.pool
            && (StillSystem(taken, one.ram, k, avail) <==> SparesDirectories(s.owner, virt))
  {
    hide PageTables.MapPage, InBootRegion, ShadowFrame, StillSystem, SparesDirectories, FrameOf;
    HeapAddressInBootRegion(virt);
    AllocTakesOne(s.pool);
    var frame: Frame := Alloc(s.pool).page.value;
    var taken := Apply(s, k, avail, Client(TakeOne));
    ApplyKeepsInv(s, k, avail, Client(TakeOne));
    FrameOfPage(frame);
    BootUpdates(taken.ram, taken.pool, k, virt, frame * PAGE_SIZE, PRESENT_WRITABLE);
    ShadowWriteKeepsSystemIff(taken, k, avail, virt, frame * PAGE_SIZE, PRESENT_WRITABLE);
  }

  lemma FrameOfPage(frame: Frame)
    ensures FrameOf(frame * PAGE_SIZE) == frame
  {
  }

  /** In every reachable state a heap address translates to itself, whichever frame was allocated
      and mapped for it: the heap range lies inside the boot region. */
  lemma HeapMeansItself(s: System, k: Layout, avail: set<nat>, virt: u64)
    requires Inv(s, k, avail) && HEAP_START <= virt < HEAP_START + MAX_HEAP_SIZE
    ensures Translate(s.ram, k, virt) == Some(virt)
  {
    HeapAddressInBootRegion(virt);
    BootRegionIdentity(s.ram, k, virt);
  }

  // ---------------------------------------------------------------- what growing writes

  /** The frames that `n` calls of `alloc` hand out. */
  function DrawnFrames(pool: Pool, n: nat): (r: seq<Frame>)
    requires pool.Valid()
    ensures |r| <= n
    decreases n
  {
    AllocTakesOne(pool);
    if n == 0 || Alloc(pool).page.None? then []
    else [Alloc(pool).page.value] + DrawnFrames(Alloc(pool).pool, n - 1)
  }

  /** They are as many as asked for, or all that are free. */
  lemma {:induction false} DrawnCount(pool: Pool, n: nat)
    requires pool.Valid()
    ensures |DrawnFrames(pool, n)| == Min(n, |pool.free|)
    decreases n
  {
    hide Alloc;
    AllocTakesOne(pool);
    if n != 0 && Alloc(pool).page.Some? { DrawnCount(Alloc(pool).pool, n - 1); }
  }

  /** Memory after mapping `frames` one by one at the boot-region pages from `virt` on: each mapping
      writes one word, the entry of its page in the frame below the huge entry. */
  function ShadowWrites(ram: Ram, virt: nat, frames: seq<Frame>): Ram
    requires virt + |frames| * PAGE_SIZE <= 0x1_0000_0000
    decreases |frames|
  {
    if frames == [] then ram
    else ShadowWrites(Put(ram, ShadowFrame(virt), IndicesOf(virt).pt, LinkTo(frames[0])), virt + PAGE_SIZE, frames[1..])
  }

  lemma ShadowSlot(virt: u64)
    requires virt < 0x1_0000_0000
    ensures ShadowFrame(virt) == virt / PAGE_SIZE / 512 * 512 && IndicesOf(virt).pt == virt / PAGE_SIZE % 512
  {
    var b, c := virt / 0x20_0000, virt / 0x4000_0000;
    assert b == virt / PAGE_SIZE / 512 && c == b / 512;
  }

  /** Page `p` has its word in frame `p - p mod 512`, at index `p mod 512`; no other word changes. */
  lemma {:induction false} ShadowWritesAt(ram: Ram, virt: nat, frames: seq<Frame>, f: Frame, j: Index)
    requires virt % PAGE_SIZE == 0 && virt + |frames| * PAGE_SIZE <= 0x1_0000_0000
    ensures var page := virt / PAGE_SIZE;
            ShadowWrites(ram, virt, frames)[f][j] ==
            if f % 512 == 0 && page <= f + j < page + |frames| then LinkTo(frames[f + j - page]) else ram[f][j]
    decreases |frames|
  {
    hide LinkTo, ShadowFrame, IndicesOf;
    if frames != [] {
      var page := virt / PAGE_SIZE;
      ShadowSlot(virt);
      var ram' := Put(ram, ShadowFrame(virt), IndicesOf(virt).pt, LinkTo(frames[0]));
      ShadowWritesAt(ram', virt + PAGE_SIZE, frames[1..], f, j);
      assert (virt + PAGE_SIZE) / PAGE_SIZE == page + 1;
      assert page == page / 512 * 512 + page % 512;
    }
  }

  /** One page of growth writes one word and draws no table. */
  lemma ExtendOneWrites(ram: Ram, pool: Pool, k: Layout, virt: u64)
    requires k.Valid() && BootEntries(ram, k) && pool.Valid() && virt < 0x1_0000_0000
    requires Alloc(pool).page.Some? && !k.IsStatic(ShadowFrame(virt))
    ensures var ram' := Put(ram, ShadowFrame(virt), IndicesOf(virt).pt, LinkTo(Alloc(pool).page.value));
            ExtendOne(ram, pool, k, virt) == Extension(ram', Alloc(pool).pool, 1) && BootEntries(ram', k)
  {
    hide MapPage, BootEntries, LinkTo, ShadowFrame, IndicesOf, InBootRegion, Alloc;
    AllocTakesOne(pool);
    var frame: Frame := Alloc(pool).page.value;
    HeapAddressInBootRegion(virt);
    BootUpdates(ram, Alloc(pool).pool, k, virt, frame * PAGE_SIZE, PRESENT_WRITABLE);
    HeapEntry(frame);
    BootEntriesKept(ram, Put(ram, ShadowFrame(virt), IndicesOf(virt).pt, LinkTo(frame)), k);
  }

  /** Growing the heap maps every drawn frame and writes exactly the shadow words. */
  lemma {:induction false} ExtensionWrites(ram: Ram, pool: Pool, k: Layout, virt: nat, n: nat)
    requires k.Valid() && BootEntries(ram, k) && pool.Valid() && virt + n * PAGE_SIZE <= 0x1_0000_0000
    requires forall v: u64 | virt <= v < virt + n * PAGE_SIZE :: !k.IsStatic(ShadowFrame(v))
    ensures var r := ExtendBy(ram, pool, k, virt, n);
            && r.ram == ShadowWrites(ram, virt, DrawnFrames(pool, n)) && r.pages == |DrawnFrames(pool, n)|
            && |r.pool.free| == |pool.free| - r.pages
    decreases n
  {
    hide ExtendOne, BootEntries, LinkTo, ShadowFrame, IndicesOf, Alloc;
    AllocTakesOne(pool);
    if n != 0 {
      if Alloc(pool).page.Some? {
        ExtendOneWrites(ram, pool, k, virt);
        var one := ExtendOne(ram, pool, k, virt);
        ExtensionWrites(one.ram, one.pool, k, virt + PAGE_SIZE, n - 1);
      } else {
        NothingToExtend(ram, pool, k, virt);
      }
    }
  }

  lemma NothingToExtend(ram: Ram, pool: Pool, k: Layout, virt: u64)
    requires pool.Valid() && Alloc(pool).page.None?
    ensures var one := ExtendOne(ram, pool, k, virt);
            one.pages == 0 && one.ram == ram && one.pool.free == pool.free == {}
  {
    AllocTakesOne(pool);
  }

  lemma HeapEntry(frame: Frame)
    ensures NewEntry(frame * PAGE_SIZE, OrPresent(PRESENT_WRITABLE)) == LinkTo(frame)
  {
  }

  /** The words growth writes below the heap's end already hold what it writes. */
  ghost predicate WordsAlreadyThere(ram: Ram, page: nat, frames: seq<Frame>)
    requires page < MAX_PAGES
  {
    forall i | 0 <= i < |frames| && page % 512 + i < 512 :: ram[page - page % 512][page % 512 + i] == LinkTo(frames[i])
  }

  ghost predicate HeapKept(ram: Ram, ram': Ram, page: nat) {
    forall f: Frame | HEAP_START / PAGE_SIZE <= f < page :: ram'[f] == ram[f]
  }

  lemma KeptOnlyIf(ram: Ram, end: nat, frames: seq<Frame>)
    requires HEAP_START <= end && end % PAGE_SIZE == 0 && end + |frames| * PAGE_SIZE <= 0x1_0000_0000
    requires end / PAGE_SIZE < MAX_PAGES && HeapKept(ram, ShadowWrites(ram, end, frames), end / PAGE_SIZE)
    ensures end / PAGE_SIZE % 512 == 0 || WordsAlreadyThere(ram, end / PAGE_SIZE, frames)
  {
    hide LinkTo, ShadowWrites;
    var page := end / PAGE_SIZE;
    var last: Frame := page - page % 512;
    if page % 512 != 0 {
      forall i | 0 <= i < |frames| && page % 512 + i < 512
        ensures ram[last][page % 512 + i] == LinkTo(frames[i])
      {
        ShadowWritesAt(ram, end, frames, last, page % 512 + i);
      }
    }
  }

  lemma KeptIf(ram: Ram, end: nat, frames: seq<Frame>, f: Frame, j: Index)
    requires HEAP_START <= end && end % PAGE_SIZE == 0 && end + |frames| * PAGE_SIZE <= 0x1_0000_0000
    requires end / PAGE_SIZE < MAX_PAGES
    requires end / PAGE_SIZE % 512 == 0 || WordsAlreadyThere(ram, end / PAGE_SIZE, frames)
    requires f < end / PAGE_SIZE
    ensures ShadowWrites(ram, end, frames)[f][j] == ram[f][j]
  {
    hide LinkTo, ShadowWrites;
    var page := end / PAGE_SIZE;
    ShadowWritesAt(ram, end, frames, f, j);
    if f % 512 == 0 && page <= f + j < page + |frames| {
      assert f == page - page % 512 && j == page % 512 + (f + j - page);
    }
  }

  /** Growing the heap leaves its own memory alone if and only if its end is a multiple of 2 MiB or
      the words it writes below its end already hold what it writes. */
  lemma GrowthKeepsHeapIff(ram: Ram, pool: Pool, k: Layout, end: nat, n: nat)
    requires k.Valid() && BootEntries(ram, k) && pool.Valid()
    requires end % PAGE_SIZE == 0 && HEAP_START <= end < 0x1_0000_0000 && end + n * PAGE_SIZE <= 0x1_0000_0000
    requires forall v: u64 | end <= v < end + n * PAGE_SIZE :: !k.IsStatic(ShadowFrame(v))
    ensures HeapKept(ram, ExtendBy(ram, pool, k, end, n).ram, end / PAGE_SIZE) <==>
            end % 0x20_0000 == 0 || WordsAlreadyThere(ram, end / PAGE_SIZE, DrawnFrames(pool, n))
  {
    hide ExtendBy, BootEntries, WordsAlreadyThere, ShadowWrites, DrawnFrames, ShadowFrame;
    ExtensionWrites(ram, pool, k, end, n);
    var frames := DrawnFrames(pool, n);
    var ram' := ShadowWrites(ram, end, frames);
    assert end % 0x20_0000 == 0 <==> end / PAGE_SIZE % 512 == 0;
    if HeapKept(ram, ram', end / PAGE_SIZE) { KeptOnlyIf(ram, end, frames); }
    if end / PAGE_SIZE % 512 == 0 || WordsAlreadyThere(ram, end / PAGE_SIZE, frames) {
      forall f: Frame | HEAP_START / PAGE_SIZE <= f < end / PAGE_SIZE ensures ram'[f] == ram[f] {
        forall j: Index ensures ram'[f][j] == ram[f][j] { KeptIf(ram, end, frames, f, j); }
      }
    }
  }

  // ---------------------------------------------------------------- growth

  ghost predicate SizeOk(size: nat) {
    size % PAGE_SIZE == 0 && size <= MAX_HEAP_SIZE
  }

  /** Pages one extension asks for: at least a chunk, never beyond the cap. */
  function PagesWanted(size: nat, minBytes: nat): nat
    requires size <= MAX_HEAP_SIZE
  {
    (Min(Max(minBytes, EXTEND_CHUNK_SIZE), MAX_HEAP_SIZE - size) + PAGE_SIZE - 1) / PAGE_SIZE
  }

  lemma PagesFit(size: nat, minBytes: nat)
    requires SizeOk(size)
    ensures size + PagesWanted(size, minBytes) * PAGE_SIZE <= MAX_HEAP_SIZE
    ensures PagesWanted(size, minBytes) == 0 <==> size == MAX_HEAP_SIZE
    ensures var bytes, least := PagesWanted(size, minBytes) * PAGE_SIZE, Max(minBytes, 0x40_0000);
            if size + least <= 0x2000_0000 then least <= bytes < least + PAGE_SIZE else bytes == 0x2000_0000 - size
  {
    var room := MAX_HEAP_SIZE - size;
    assert room % PAGE_SIZE == 0;
    assert PagesWanted(size, minBytes) <= (room + PAGE_SIZE - 1) / PAGE_SIZE == room / PAGE_SIZE;
  }

  lemma GrownSize(size: nat, minBytes: nat, pages: nat)
    requires SizeOk(size) && pages <= PagesWanted(size, minBytes)
    ensures SizeOk(size + pages * PAGE_SIZE)
  {
    PagesFit(size, minBytes);
  }

  datatype HeapState = HeapState(ram: Ram, pool: Pool, size: nat) {
    ghost predicate Valid() {
      pool.Valid() && SizeOk(size)
    }
  }

  /** One `try_extend`. */
  function Grow(h: HeapState, k: Layout, minBytes: nat): (r: HeapState)
    requires h.Valid()
    ensures r.Valid()
  {
    hide ExtendBy, PagesWanted;
    PagesFit(h.size, minBytes);
    var n := PagesWanted(h.size, minBytes);
    var r := ExtendBy(h.ram, h.pool, k, HEAP_START + h.size, n);
    GrownSize(h.size, minBytes, r.pages);
    HeapState(r.ram, r.pool, h.size + r.pages * PAGE_SIZE)
  }

  /** In the boot region a growth adds every page it asks for, or one per free frame: as many frames
      leave the pool, and none is given back. */
  lemma GrowthAdds(h: HeapState, k: Layout, minBytes: nat)
    requires h.Valid() && k.Valid() && BootEntries(h.ram, k)
    requires forall v: u64 | HEAP_START <= v < HEAP_START + MAX_HEAP_SIZE :: !k.IsStatic(ShadowFrame(v))
    ensures var t, added := Grow(h, k, minBytes), Min(PagesWanted(h.size, minBytes), |h.pool.free|);
            t.size == h.size + added * PAGE_SIZE && |t.pool.free| == |h.pool.free| - added
  {
    hide ExtendBy, PagesWanted, BootEntries, ShadowFrame, ShadowWrites, DrawnFrames, Layout.IsStatic;
    PagesFit(h.size, minBytes);
    var n := PagesWanted(h.size, minBytes);
    ExtensionWrites(h.ram, h.pool, k, HEAP_START + h.size, n);
    DrawnCount(h.pool, n);
  }

  /** One extension of a run: the bytes it asks for, and memory and pool as it finds them,
      whatever the rest of the kernel did to both since the one before. */
  datatype Request = Request(ram: Ram, pool: Pool, minBytes: nat)

  function SizeAfterOne(size: nat, k: Layout, r: Request): (final: nat)
    requires SizeOk(size) && r.pool.Valid()
    ensures SizeOk(final)
  {
    Grow(HeapState(r.ram, r.pool, size), k, r.minBytes).size
  }

  ghost predicate AllValid(requests: seq<Request>) {
    forall r | r in requests :: r.pool.Valid()
  }

  /** The size after a run of extensions. */
  function SizeAfter(size: nat, k: Layout, requests: seq<Request>): (final: nat)
    requires SizeOk(size) && AllValid(requests)
    ensures SizeOk(final)
    decreases |requests|
  {
    if requests == [] then size
    else
      assert requests[0] in requests;
      SizeAfter(SizeAfterOne(size, k, requests[0]), k, requests[1..])
  }

  /** How many of them make the heap larger. */
  function Successes(size: nat, k: Layout, requests: seq<Request>): nat
    requires SizeOk(size) && AllValid(requests)
    decreases |requests|
  {
    if requests == [] then 0
    else
      assert requests[0] in requests;
      var next := SizeAfterOne(size, k, requests[0]);
      (if next > size then 1 else 0) + Successes(next, k, requests[1..])
  }

  /** After `init`, any run of extensions keeps the size a page multiple between 4 MiB and 512 MiB,
      so at most 130048 of them succeed, whatever happens to memory and pool in between. */
  lemma {:induction false} HeapBound(size: nat, k: Layout, requests: seq<Request>)
    requires SizeOk(size) && size >= INITIAL_HEAP_SIZE && AllValid(requests)
    ensures var final := SizeAfter(size, k, requests);
            && final % PAGE_SIZE == 0 && INITIAL_HEAP_SIZE <= final <= MAX_HEAP_SIZE
            && Successes(size, k, requests) * PAGE_SIZE <= final - size
            && (Successes(size, k, requests) == 0 <==> final == size)
    ensures Successes(size, k, requests) <= 130048
    decreases |requests|
  {
    hide Grow;
    if requests != [] {
      var r := requests[0];
      assert r in requests;
      GrowthInPages(HeapState(r.ram, r.pool, size), k, r.minBytes);
      HeapBound(SizeAfterOne(size, k, r), k, requests[1..]);
    }
  }

  lemma GrowthInPages(h: HeapState, k: Layout, minBytes: nat)
    requires h.Valid()
    ensures var t := Grow(h, k, minBytes); t.size >= h.size && (t.size > h.size ==> t.size >= h.size + PAGE_SIZE)
  {
    hide ExtendBy;
  }

  /** An end that is no multiple of 2 MiB is one request away: after a request of one page over
      4 MiB, the next growth overwrites the heap's own memory if the word at its end is zero. */
  lemma GrowthOverwritesHeap(ram: Ram, pool: Pool, k: Layout, n: nat)
    requires k.Valid() && BootEntries(ram, k) && pool.Valid() && pool.free != {} && 0 < n <= 0x1000
    requires forall v: u64 | HEAP_START <= v < HEAP_START + MAX_HEAP_SIZE :: !k.IsStatic(ShadowFrame(v))
    requires ram[0x2800][1] == 0
    ensures var end := HEAP_START + INITIAL_HEAP_SIZE + PagesWanted(INITIAL_HEAP_SIZE, 0x40_1000) * PAGE_SIZE;
            end == 0x280_1000 && !HeapKept(ram, ExtendBy(ram, pool, k, end, n).ram, end / PAGE_SIZE)
  {
    hide ExtendBy, BootEntries, ShadowFrame, HeapKept, DrawnFrames, WordsAlreadyThere, Layout.IsStatic;
    var end := 0x280_1000;
    GrowthKeepsHeapIff(ram, pool, k, end, n);
    ZeroWordDiffers(ram, pool, n);
  }

  lemma ZeroWordDiffers(ram: Ram, pool: Pool, n: nat)
    requires pool.Valid() && pool.free != {} && 0 < n && ram[0x2800][1] == 0
    ensures !WordsAlreadyThere(ram, 0x2801, DrawnFrames(pool, n))
  {
    hide LinkTo, Alloc;
    AllocTakesOne(pool);
    var frames := DrawnFrames(pool, n);
    LinkReads(frames[0]);
    NothingPresent();
    assert ram[0x2801 - 0x2801 % 512][0x2801 % 512 + 0] != LinkTo(frames[0]);
  }

  lemma NothingPresent()
    ensures !Present(0)
  {
  }

  /** `AutoExtendHeap`. The inner allocator is opaque; `innerSize` is the memory it was told of. */
  class AutoExtendHeap {
    const space: AddressSpace
    var heapEnd: u64
    var innerSize: nat

    ghost predicate Valid()
      reads this, space.frames, space.frames.bitmap
    {
      && space.Valid()
      && HEAP_START <= heapEnd && SizeOk(heapEnd - HEAP_START)
      && innerSize == heapEnd - HEAP_START
    }

    constructor (space: AddressSpace)
      requires space.Valid()
      ensures Valid() && this.space == space && heapEnd == HEAP_START
    {
      this.space := space;
      heapEnd, innerSize := HEAP_START, 0;
    }

    /** `ok` is false where the original panics. */
    method Init() returns (ok: bool)
      requires Valid() && heapEnd == HEAP_START
      modifies this, space.mem.words, space.frames, space.frames.bitmap
      ensures var r := ExtendBy(old(space.mem.Contents()), old(space.frames.pool), space.k, HEAP_START, 1024);
              && ok == (r.pages == 1024)
              && (ok ==> Valid() && heapEnd == HEAP_START + INITIAL_HEAP_SIZE
                         && space.mem.Contents() == r.ram && space.frames.pool == r.pool)
    {
      hide ExtendOne;
      hide ExtendBy;
      ghost var whole := ExtendBy(space.mem.Contents(), space.frames.pool, space.k, HEAP_START, 1024);
      var numPages := (INITIAL_HEAP_SIZE + PAGE_SIZE - 1) / PAGE_SIZE;
      for i := 0 to numPages
        invariant Valid() && heapEnd == HEAP_START
        invariant Resumes(whole, space.mem.Contents(), space.frames.pool, space.k, HEAP_START, 1024, i)
      {
        ResumeStep(whole, space.mem.Contents(), space.frames.pool, space.k, HEAP_START, 1024, i);
        var mapped := BackPageOrPanic(HEAP_START + i * PAGE_SIZE);
        if !mapped { return false; }
      }
      ResumeStep(whole, space.mem.Contents(), space.frames.pool, space.k, HEAP_START, 1024, 1024);
      heapEnd := HEAP_START + numPages * PAGE_SIZE;
      innerSize := numPages * PAGE_SIZE;
      return true;
    }

    /** One turn of the loop of `init`, where a failure ends the kernel. */
    method BackPageOrPanic(virt: u64) returns (mapped: bool)
      requires space.Valid()
      modifies space.mem.words, space.frames, space.frames.bitmap
      ensures space.Valid()
      ensures var one := ExtendOne(old(space.mem.Contents()), old(space.frames.pool), space.k, virt);
              && mapped == (one.pages == 1)
              && (mapped ==> space.mem.Contents() == one.ram && space.frames.pool == one.pool)
    {
      hide PageTables.MapPage;
      AllocTakesOne(space.frames.pool);
      var phys := space.frames.Alloc();
      if phys.None? { return false; }
      var r := space.MapPage(virt, phys.value, PRESENT_WRITABLE);
      return r.Ok?;
    }

    /** One turn of the loop of `try_extend`. */
    method BackPage(virt: u64) returns (mapped: bool)
      requires space.Valid()
      modifies space.mem.words, space.frames, space.frames.bitmap
      ensures space.Valid()
      ensures var one := ExtendOne(old(space.mem.Contents()), old(space.frames.pool), space.k, virt);
              space.mem.Contents() == one.ram && space.frames.pool == one.pool && mapped == (one.pages == 1)
    {
      hide PageTables.MapPage;
      hide FramePool.Alloc;
      hide FramePool.Free;
      AllocTakesOne(space.frames.pool);
      var frame := space.frames.Alloc();
      if frame.None? { return false; }
      var r := space.MapPage(virt, frame.value, PRESENT_WRITABLE);
      if r.Err? { space.frames.Free(frame.value); }
      return r.Ok?;
    }

    /** True exactly when the heap grew; on false `heapEnd` is where it was. */
    method TryExtend(minBytes: nat) returns (grew: bool)
      requires Valid()
      modifies this, space.mem.words, space.frames, space.frames.bitmap
      ensures Valid()
      ensures HeapState(space.mem.Contents(), space.frames.pool, heapEnd - HEAP_START)
           == Grow(HeapState(old(space.mem.Contents()), old(space.frames.pool), old(heapEnd) - HEAP_START),
                   space.k, minBytes)
      ensures grew <==> heapEnd > old(heapEnd)
    {
      hide ExtendBy;
      PagesFit(heapEnd - HEAP_START, minBytes);
      NothingWanted(space.mem.Contents(), space.frames.pool, space.k, heapEnd);
      var currentSize := heapEnd - HEAP_START;
      if currentSize >= MAX_HEAP_SIZE {
        return false;
      }
      var want := Max(minBytes, EXTEND_CHUNK_SIZE);
      var capped := Min(want, MAX_HEAP_SIZE - currentSize);
      var numPages := (capped + PAGE_SIZE - 1) / PAGE_SIZE;
      var mappedPages := MapPages(numPages);
      if mappedPages == 0 {
        return false;
      }
      var added := mappedPages * PAGE_SIZE;
      innerSize := innerSize + added;
      heapEnd := heapEnd + added;
      return true;
    }

    /** The mapping loop of `try_extend`. */
    method MapPages(numPages: nat) returns (mappedPages: nat)
      requires space.Valid() && heapEnd + numPages * PAGE_SIZE < U64_SPAN
      modifies space.mem.words, space.frames, space.frames.bitmap
      ensures space.Valid()
      ensures Extension(space.mem.Contents(), space.frames.pool, mappedPages)
           == ExtendBy(old(space.mem.Contents()), old(space.frames.pool), space.k, heapEnd, numPages)
    {
      hide ExtendOne;
      ghost var whole := ExtendBy(space.mem.Contents(), space.frames.pool, space.k, heapEnd, numPages);
      mappedPages := 0;
      while mappedPages < numPages
        invariant mappedPages <= numPages && space.Valid()
        invariant Resumes(whole, space.mem.Contents(), space.frames.pool, space.k, heapEnd, numPages, mappedPages)
      {
        ResumeStep(whole, space.mem.Contents(), space.frames.pool, space.k, heapEnd, numPages, mappedPages);
        var mapped := BackPage(heapEnd + mappedPages * PAGE_SIZE);
        if !mapped { return; }
        mappedPages := mappedPages + 1;
      }
      ResumeStep(whole, space.mem.Contents(), space.frames.pool, space.k, heapEnd, numPages, mappedPages);
    }

    /** The global allocator: one retry after a successful extension. Whether the inner allocator
        finds room is opaque, before (`fits`) and after (`fitsAfter`) the extension. */
    method Alloc(size: nat, fits: bool, fitsAfter: bool) returns (ok: bool)
      requires Valid()
      modifies this, space.mem.words, space.frames, space.frames.bitmap
      ensures Valid()
      ensures fits ==> ok && heapEnd == old(heapEnd) && space.frames.pool == old(space.frames.pool)
                       && space.mem.Contents() == old(space.mem.Contents())
      ensures !fits ==>
                && HeapState(space.mem.Contents(), space.frames.pool, heapEnd - HEAP_START)
                   == Grow(HeapState(old(space.mem.Contents()), old(space.frames.pool), old(heapEnd) - HEAP_START),
                           space.k, size)
                && (ok <==> heapEnd > old(heapEnd) && fitsAfter)
    {
      if fits { return true; }
      var grew := TryExtend(size);
      return grew && fitsAfter;
    }
  }
}
