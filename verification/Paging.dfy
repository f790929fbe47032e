/** Physical memory and the kernel's page-table code working on it in place. */
module Paging {
  import opened Words
  import opened FramePool
  import opened FrameAllocation
  import opened PageTables
  import opened KernelMemory

  /** Physical memory, written one word or one table at a time. */
  class PhysicalMemory {
    const words: array2<u64>

    ghost predicate Valid() {
      words.Length0 == FRAMES && words.Length1 == ENTRIES
    }

    ghost function Contents(): Ram
      requires Valid()
      reads words
    {
      seq<Table>(FRAMES, f requires 0 <= f < FRAMES reads words =>
        seq(ENTRIES, i requires 0 <= i < ENTRIES reads words => words[f, i]))
    }

    constructor (words: array2<u64>)
      requires words.Length0 == FRAMES && words.Length1 == ENTRIES
      ensures Valid() && this.words == words
    {
      this.words := words;
    }

    lemma SameWords(ram: Ram)
      requires Valid() && forall g: Frame, j: Index :: words[g, j] == ram[g][j]
      ensures Contents() == ram
    {
      forall g: Frame ensures Contents()[g] == ram[g] {
        assert forall j: Index :: Contents()[g][j] == words[g, j];
      }
    }

    method Store(f: Frame, i: Index, e: u64)
      requires Valid()
      modifies words
      ensures Contents() == Put(old(Contents()), f, i, e)
    {
      words[f, i] := e;
      SameWords(Put(old(Contents()), f, i, e));
    }

    /** `write_bytes(table, 0, 1)` */
    method Zero(f: Frame)
      requires Valid()
      modifies words
      ensures Contents() == Zeroed(old(Contents()), f)
    {
      forall i | 0 <= i < ENTRIES {
        words[f, i] := 0;
      }
      SameWords(Zeroed(old(Contents()), f));
    }

    function Load(f: Frame, i: Index): (e: u64)
      requires Valid()
      reads words
      ensures e == Contents()[f][i]
    {
      words[f, i]
    }
  }

  /** Progress of `init`: both PML4 links, `links` PDPT links and `filled` page directories done. */
  ghost predicate InitProgress(start: Ram, now: Ram, k: Layout, links: nat, filled: nat)
    requires k.Valid() && links <= 4 && filled <= 4
  {
    && now[k.pml4][0] == LinkTo(k.pdpt) && now[k.pml4][511] == LinkTo(k.pdpt)
    && (forall i | 0 < i < 511 :: now[k.pml4][i] == 0)
    && (forall i | 0 <= i < ENTRIES :: now[k.pdpt][i] == if i < links then LinkTo(k.pd + i) else 0)
    && (forall f: Frame, i | k.pd <= f < k.pd + filled && 0 <= i < ENTRIES :: now[f][i] == HugeEntry(f - k.pd, i))
    && (forall f: Frame | !k.IsStatic(f) :: now[f] == start[f])
  }

  lemma DirectoryDone(start: Ram, before: Ram, after: Ram, k: Layout, j: nat)
    requires k.Valid() && j < 4 && InitProgress(start, before, k, 4, j)
    requires forall f: Frame | f != k.pd + j :: after[f] == before[f]
    requires forall i | 0 <= i < ENTRIES :: after[k.pd + j][i] == HugeEntry(j, i)
    ensures InitProgress(start, after, k, 4, j + 1)
  {
    forall f: Frame, i | k.pd <= f < k.pd + (j + 1) && 0 <= i < ENTRIES ensures after[f][i] == HugeEntry(f - k.pd, i) {
      if f == k.pd + j { assert f - k.pd == j; }
    }
  }

  lemma InitDone(start: Ram, now: Ram, k: Layout)
    requires k.Valid() && InitProgress(start, now, k, 4, 4)
    ensures BootRam(now, k) && forall f: Frame | !k.IsStatic(f) :: now[f] == start[f]
  {
    assert forall j | 0 <= j < 4 :: now[k.pdpt][j] == LinkTo(k.pd + j);
  }

  /** The static tables, the memory they live in, and the allocator that supplies new tables. */
  class AddressSpace {
    const k: Layout
    const mem: PhysicalMemory
    const frames: FrameAllocator

    ghost predicate Valid()
      reads frames, frames.bitmap
    {
      k.Valid() && mem.Valid() && frames.Valid() && mem.words as object != frames.bitmap as object
    }

    constructor (k: Layout, mem: PhysicalMemory, frames: FrameAllocator)
      ensures this.k == k && this.mem == mem && this.frames == frames
    {
      this.k, this.mem, this.frames := k, mem, frames;
    }

    /** The statics start out zeroed; `init` fills in the boot entries and touches nothing else. */
    method Init()
      requires k.Valid() && mem.Valid()
      requires forall f: Frame | k.IsStatic(f) :: mem.Contents()[f] == ZeroTable()
      modifies mem.words
      ensures BootRam(mem.Contents(), k)
      ensures forall f: Frame | !k.IsStatic(f) :: mem.Contents()[f] == old(mem.Contents())[f]
    {
      LinkDirectories();
      for j := 0 to 4
        invariant InitProgress(old(mem.Contents()), mem.Contents(), k, 4, j)
      {
        ghost var before := mem.Contents();
        FillDirectory(j);
        DirectoryDone(old(mem.Contents()), before, mem.Contents(), k, j);
      }
      InitDone(old(mem.Contents()), mem.Contents(), k);
    }

    method LinkDirectories()
      requires k.Valid() && mem.Valid()
      requires forall f: Frame | k.IsStatic(f) :: mem.Contents()[f] == ZeroTable()
      modifies mem.words
      ensures InitProgress(old(mem.Contents()), mem.Contents(), k, 4, 0)
    {
      hide NewEntry, HugeEntry;
      mem.Store(k.pml4, 0, NewEntry(k.pdpt * PAGE_SIZE, PRESENT + WRITABLE));
      mem.Store(k.pml4, 511, NewEntry(k.pdpt * PAGE_SIZE, PRESENT + WRITABLE));
      for i := 0 to 4
        invariant InitProgress(old(mem.Contents()), mem.Contents(), k, i, 0)
      {
        mem.Store(k.pdpt, i, NewEntry((k.pd + i) * PAGE_SIZE, PRESENT + WRITABLE));
      }
    }

    method FillDirectory(j: nat)
      requires k.Valid() && mem.Valid() && j < 4
      modifies mem.words
      ensures forall f: Frame | f != k.pd + j :: mem.Contents()[f] == old(mem.Contents())[f]
      ensures forall i | 0 <= i < ENTRIES :: mem.Contents()[k.pd + j][i] == HugeEntry(j, i)
    {
      for i := 0 to ENTRIES
        invariant forall f: Frame | f != k.pd + j :: mem.Contents()[f] == old(mem.Contents())[f]
        invariant forall x | 0 <= x < i :: mem.Contents()[k.pd + j][x] == HugeEntry(j, x)
      {
        mem.Store(k.pd + j, i, NewEntry((j * 512 + i) * 0x20_0000, PRESENT + WRITABLE + HUGE_PAGE));
      }
    }

    method EnterTable(f: Frame, i: Index, error: MapError) returns (r: Result<Frame, MapError>)
      requires Valid()
      modifies mem.words, frames, frames.bitmap
      ensures Valid()
      ensures Entered(mem.Contents(), frames.pool, r)
           == PageTables.EnterTable(old(mem.Contents()), old(frames.pool), f, i, error)
    {
      if !Present(mem.Load(f, i)) {
        AllocTakesOne(frames.pool);
        var phys := frames.Alloc();
        if phys.None? {
          return Err(error);
        }
        mem.Store(f, i, NewEntry(phys.value, PRESENT + WRITABLE));
        mem.Zero(FrameOf(mem.Load(f, i)));
      }
      return Ok(FrameOf(mem.Load(f, i)));
    }

    method MapPage(virt: u64, phys: u64, flags: u64) returns (r: Result<(), MapError>)
      requires Valid()
      modifies mem.words, frames, frames.bitmap
      ensures Valid()
      ensures Mapped(mem.Contents(), frames.pool, r)
           == PageTables.MapPage(old(mem.Contents()), old(frames.pool), k, virt, phys, flags)
    {
      var ix := IndicesOf(virt);
      var pdpt := EnterTable(k.pml4, ix.pml4, NoPdptFrame);
      if pdpt.Err? { return Err(pdpt.error); }
      var pd := EnterTable(pdpt.value, ix.pdpt, NoPdFrame);
      if pd.Err? { return Err(pd.error); }
      var pt := EnterTable(pd.value, ix.pd, NoPtFrame);
      if pt.Err? { return Err(pt.error); }
      mem.Store(pt.value, ix.pt, NewEntry(phys, OrPresent(flags)));
      return Ok(());
    }

    method UnmapPage(virt: u64) returns (r: Result<u64, UnmapError>)
      requires Valid()
      modifies mem.words
      ensures Valid()
      ensures Unmapped(mem.Contents(), r) == PageTables.UnmapPage(old(mem.Contents()), k, virt)
    {
      var ix := IndicesOf(virt);
      var pml4e := mem.Load(k.pml4, ix.pml4);
      if !Present(pml4e) { return Err(NoPml4Entry); }
      var pdpte := mem.Load(FrameOf(pml4e), ix.pdpt);
      if !Present(pdpte) { return Err(NoPdptEntry); }
      var pde := mem.Load(FrameOf(pdpte), ix.pd);
      if !Present(pde) { return Err(NoPdEntry); }
      var pte := mem.Load(FrameOf(pde), ix.pt);
      if !Present(pte) { return Err(NoPtEntry); }
      mem.Store(FrameOf(pde), ix.pt, 0);
      return Ok(Addr(pte));
    }

    method Translate(virt: u64) returns (r: Option<u64>)
      requires Valid()
      ensures r == PageTables.Translate(mem.Contents(), k, virt)
    {
      var ix := IndicesOf(virt);
      var pml4e := mem.Load(k.pml4, ix.pml4);
      if !Present(pml4e) { return None; }
      var pdpte := mem.Load(FrameOf(pml4e), ix.pdpt);
      if !Present(pdpte) { return None; }
      if Huge(pdpte) { return Some(Addr(pdpte) + virt % 0x4000_0000); }
      var pde := mem.Load(FrameOf(pdpte), ix.pd);
      if !Present(pde) { return None; }
      if Huge(pde) { return Some(Addr(pde) + virt % 0x20_0000); }
      var pte := mem.Load(FrameOf(pde), ix.pt);
      if !Present(pte) { return None; }
      return Some(Addr(pte) + ix.offset);
    }
  }
}
