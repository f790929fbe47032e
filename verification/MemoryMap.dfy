/** The boot memory map, page rounding, and the statistics summed from the map. */
module MemoryMap {
  import opened Words
  import opened FramePool

  datatype MemoryType =
    | Available | Reserved | AcpiReclaimable | AcpiNvs | BadMemory
    | Kernel | Bootloader | Framebuffer | PageTable

  /** The numbers of the enumeration; the first five are those of the Multiboot2 memory map. */
  function Discriminant(kind: MemoryType): nat {
    match kind
    case Available => 1
    case Reserved => 2
    case AcpiReclaimable => 3
    case AcpiNvs => 4
    case BadMemory => 5
    case Kernel => 6
    case Bootloader => 7
    case Framebuffer => 8
    case PageTable => 9
  }

  datatype Entry = Entry(base: u64, length: u64, kind: MemoryType)

  /** `addr & !(PAGE_SIZE - 1)` */
  function PageAlignDown(addr: u64): (r: u64)
    ensures r % PAGE_SIZE == 0 && r <= addr < r + PAGE_SIZE
  {
    addr - addr % PAGE_SIZE
  }

  /** `(addr + PAGE_SIZE - 1) & !(PAGE_SIZE - 1)`, where the sum wraps at 64 bits. */
  function PageAlignUp(addr: u64): (r: u64)
    ensures r % PAGE_SIZE == 0
    ensures addr + PAGE_SIZE <= U64_SPAN ==> addr <= r < addr + PAGE_SIZE
  {
    PageAlignDown((addr + PAGE_SIZE - 1) % U64_SPAN)
  }

  function StartPage(e: Entry): nat {
    PageAlignUp(e.base) / PAGE_SIZE
  }

  function EndPage(e: Entry): nat {
    PageAlignDown((e.base + e.length) % U64_SPAN) / PAGE_SIZE
  }

  function PageCount(e: Entry): nat {
    Max(0, EndPage(e) - StartPage(e))
  }

  /** What one map entry does to the pool during `FrameAllocator::init`. */
  function AddEntry(s: Pool, e: Entry): Pool {
    if e.kind == Available then MarkRun(s, StartPage(e), PageCount(e)) else s
  }

  function InitialPool(entries: seq<Entry>): (s: Pool)
    ensures s.Valid() && s.firstFree == 0
  {
    if entries == [] then Pool({}, 0, 0)
    else
      var n := |entries| - 1;
      MarkRunEffect(InitialPool(entries[..n]), StartPage(entries[n]), PageCount(entries[n]));
      AddEntry(InitialPool(entries[..n]), entries[n])
  }

  // ---------------------------------------------------------------- exact initial free set

  /** The whole page lies inside the entry. */
  predicate Inside(page: nat, e: Entry) {
    e.base <= page * PAGE_SIZE && (page + 1) * PAGE_SIZE <= e.base + e.length
  }

  /** When `init` frees exactly the pages of this entry: no sum wraps, or the wrap is harmless. */
  predicate RoundsExactly(e: Entry) {
    if e.base + PAGE_SIZE <= U64_SPAN
    then e.base + e.length < U64_SPAN || e.base > (MAX_PAGES - 1) * PAGE_SIZE
    else U64_SPAN <= e.base + e.length < U64_SPAN + PAGE_SIZE
  }

  predicate Freed(page: nat, e: Entry) {
    StartPage(e) <= page < EndPage(e)
  }

  lemma NoWrapRounding(e: Entry, page: nat)
    requires e.base + PAGE_SIZE <= U64_SPAN && e.base + e.length < U64_SPAN
    ensures Freed(page, e) <==> Inside(page, e)
  {
    var up := PageAlignUp(e.base);
    var down := PageAlignDown(e.base + e.length);
    assert up == StartPage(e) * PAGE_SIZE;
    assert down == EndPage(e) * PAGE_SIZE;
  }

  /** The rounding is exact on an entry if and only if RoundsExactly: in particular base 2^64 - 1
      with length 0 frees every page below 4 GiB. */
  lemma ExactIff(e: Entry)
    ensures RoundsExactly(e) <==> forall page: nat | page < MAX_PAGES :: Freed(page, e) <==> Inside(page, e)
  {
    var top := e.base + e.length;
    if e.base + PAGE_SIZE <= U64_SPAN {
      if top < U64_SPAN {
        forall page: nat ensures Freed(page, e) <==> Inside(page, e) { NoWrapRounding(e, page); }
      } else {
        assert EndPage(e) <= StartPage(e);
        if e.base <= (MAX_PAGES - 1) * PAGE_SIZE {
          assert Inside(MAX_PAGES - 1, e) && !Freed(MAX_PAGES - 1, e);
        }
      }
    } else {
      assert StartPage(e) == 0;
      assert forall page: nat | page < MAX_PAGES :: !Inside(page, e);
      if top < U64_SPAN {
        assert Freed(0, e);
      } else if top >= U64_SPAN + PAGE_SIZE {
        assert Freed(0, e);
      }
    }
  }

  /** An entry at the top of the address space with nothing in it hands out all memory below 4 GiB. */
  lemma WrappedEntryFreesEverything(page: nat)
    requires page < MAX_PAGES
    ensures var e := Entry(0xFFFF_FFFF_FFFF_FFFF, 0, Available);
            !RoundsExactly(e) && !Inside(page, e) && page in AddEntry(Pool({}, 0, 0), e).free
  {
    var e := Entry(0xFFFF_FFFF_FFFF_FFFF, 0, Available);
    assert StartPage(e) == 0 && EndPage(e) == 0xF_FFFF_FFFF_FFFF;
    AddEntryPages(Pool({}, 0, 0), e, page);
  }

  ghost predicate Covered(page: nat, entries: seq<Entry>) {
    exists i | 0 <= i < |entries| :: entries[i].kind == Available && Inside(page, entries[i])
  }

  ghost predicate AllRoundExactly(entries: seq<Entry>) {
    forall i | 0 <= i < |entries| :: entries[i].kind == Available ==> RoundsExactly(entries[i])
  }

  /** After `init` a page is free exactly when it is in range and lies inside one Available entry,
      overlapping entries included. */
  lemma {:induction false} InitialFreeSet(entries: seq<Entry>, page: nat)
    requires AllRoundExactly(entries)
    ensures page in InitialPool(entries).free <==> page < 0x10_0000 && Covered(page, entries)
    decreases |entries|
  {
    if entries != [] {
      var n := |entries| - 1;
      var front, e := entries[..n], entries[n];
      InitialFreeSet(front, page);
      CoveredStep(entries, page);
      assert Covered(page, entries) <==> Covered(page, front) || (e.kind == Available && Inside(page, e));
      if e.kind == Available {
        ExactIff(e);
        AddEntryPages(InitialPool(front), e, page);
      }
    }
  }

  /** The total that `init` leaves is one past the highest free page, or 0 if there is none. */
  lemma {:induction false} InitialTotal(entries: seq<Entry>)
    ensures var s := InitialPool(entries);
            && (s.totalPages > 0 ==> s.totalPages - 1 in s.free)
            && forall p | p in s.free :: p < s.totalPages
    decreases |entries|
  {
    if entries != [] {
      var n := |entries| - 1;
      var front, e := entries[..n], entries[n];
      InitialTotal(front);
      MarkRunEffect(InitialPool(front), StartPage(e), PageCount(e));
    }
  }

  lemma AddEntryPages(s: Pool, e: Entry, page: nat)
    requires e.kind == Available
    ensures page in AddEntry(s, e).free <==> page in s.free || (page < MAX_PAGES && Freed(page, e))
  {
    MarkRunEffect(s, StartPage(e), PageCount(e));
  }

  lemma CoveredStep(entries: seq<Entry>, page: nat)
    requires entries != []
    ensures var n := |entries| - 1;
            Covered(page, entries) <==>
            Covered(page, entries[..n]) || (entries[n].kind == Available && Inside(page, entries[n]))
  {
    var n := |entries| - 1;
    var front := entries[..n];
    if Covered(page, front) {
      var i :| 0 <= i < n && front[i].kind == Available && Inside(page, front[i]);
      assert entries[i] == front[i];
    }
    if Covered(page, entries) {
      var i :| 0 <= i < |entries| && entries[i].kind == Available && Inside(page, entries[i]);
      if i < n { assert front[i] == entries[i]; }
    }
  }

  // ---------------------------------------------------------------- statistics

  datatype MemoryStats = MemoryStats(totalMemory: u64, availableMemory: u64)

  predicate IsRam(kind: MemoryType) {
    kind == Available || kind == AcpiReclaimable || kind == AcpiNvs || kind == Kernel || kind == Bootloader
  }

  function SumOf(entries: seq<Entry>, wanted: MemoryType -> bool): nat {
    if entries == [] then 0
    else
      var n := |entries| - 1;
      SumOf(entries[..n], wanted) + if wanted(entries[n].kind) then entries[n].length else 0
  }

  lemma SumStep(entries: seq<Entry>, i: nat, wanted: MemoryType -> bool)
    requires i < |entries|
    ensures SumOf(entries[..i + 1], wanted)
         == SumOf(entries[..i], wanted) + if wanted(entries[i].kind) then entries[i].length else 0
  {
    assert entries[..i + 1][..i] == entries[..i];
  }

  lemma WrappedSum(a: nat, b: nat)
    ensures (a % U64_SPAN + b) % U64_SPAN == (a + b) % U64_SPAN
  {
  }

  const ONLY_AVAILABLE := (kind: MemoryType) => kind == Available
  const ANY_RAM := (kind: MemoryType) => IsRam(kind)

  /** The statistics after counting `entries` on top of `start`, with 64-bit wrap-around. */
  ghost function Counted(start: MemoryStats, entries: seq<Entry>): MemoryStats {
    MemoryStats((start.totalMemory + SumOf(entries, ANY_RAM)) % U64_SPAN,
                (start.availableMemory + SumOf(entries, ONLY_AVAILABLE)) % U64_SPAN)
  }

  function CountEntry(stats: MemoryStats, e: Entry): MemoryStats {
    MemoryStats(if IsRam(e.kind) then (stats.totalMemory + e.length) % U64_SPAN else stats.totalMemory,
                if e.kind == Available then (stats.availableMemory + e.length) % U64_SPAN else stats.availableMemory)
  }

  lemma CountedStep(start: MemoryStats, entries: seq<Entry>, i: nat)
    requires i < |entries|
    ensures CountEntry(Counted(start, entries[..i]), entries[i]) == Counted(start, entries[..i + 1])
  {
    SumStep(entries, i, ANY_RAM);
    SumStep(entries, i, ONLY_AVAILABLE);
    WrappedSum(start.totalMemory + SumOf(entries[..i], ANY_RAM), entries[i].length);
    WrappedSum(start.availableMemory + SumOf(entries[..i], ONLY_AVAILABLE), entries[i].length);
  }

  /** `MEMORY_STATS` and the loop that fills it. */
  class StatsCell {
    var stats: MemoryStats

    constructor ()
      ensures stats == MemoryStats(0, 0)
    {
      stats := MemoryStats(0, 0);
    }

    method ParseMemMap(entries: seq<Entry>)
      modifies this
      ensures stats == if entries == [] then MemoryStats(0x200_0000, 0x200_0000)
                       else Counted(old(stats), entries)
    {
      if entries == [] {
        stats := MemoryStats(0x200_0000, 0x200_0000);
        return;
      }
      for i := 0 to |entries|
        invariant stats == Counted(old(stats), entries[..i])
      {
        var entry := entries[i];
        CountedStep(old(stats), entries, i);
        if IsRam(entry.kind) {
          stats := stats.(totalMemory := (stats.totalMemory + entry.length) % U64_SPAN);
        }
        if entry.kind == Available {
          stats := stats.(availableMemory := (stats.availableMemory + entry.length) % U64_SPAN);
        }
      }
      assert entries[..|entries|] == entries;
    }
  }

  ghost predicate NoWrap(entries: seq<Entry>) {
    forall i | 0 <= i < |entries| :: entries[i].kind == Available ==>
      entries[i].base + PAGE_SIZE <= U64_SPAN && entries[i].base + entries[i].length < U64_SPAN
  }

  lemma EntryBytes(e: Entry)
    requires e.base + PAGE_SIZE <= U64_SPAN && e.base + e.length < U64_SPAN
    ensures PageCount(e) * PAGE_SIZE <= e.length < (PageCount(e) + 2) * PAGE_SIZE
  {
    var up := PageAlignUp(e.base);
    var down := PageAlignDown(e.base + e.length);
    assert up == StartPage(e) * PAGE_SIZE;
    assert down == EndPage(e) * PAGE_SIZE;
  }

  /** The bytes of the entries of one kind. */
  function LengthOf(entries: seq<Entry>, kind: MemoryType): nat {
    if entries == [] then 0
    else
      var n := |entries| - 1;
      LengthOf(entries[..n], kind) + if entries[n].kind == kind then entries[n].length else 0
  }

  /** Five kinds count as memory, one of them as available. */
  lemma StatisticsByKind(entries: seq<Entry>)
    ensures var stats := Counted(MemoryStats(0, 0), entries);
            && stats.totalMemory == (LengthOf(entries, Available) + LengthOf(entries, AcpiReclaimable)
                                     + LengthOf(entries, AcpiNvs) + LengthOf(entries, Kernel)
                                     + LengthOf(entries, Bootloader)) % U64_SPAN
            && stats.availableMemory == LengthOf(entries, Available) % U64_SPAN
  {
    SumsByKind(entries);
  }

  lemma {:induction false} SumsByKind(entries: seq<Entry>)
    ensures SumOf(entries, ONLY_AVAILABLE) == LengthOf(entries, Available)
    ensures SumOf(entries, ANY_RAM) == LengthOf(entries, Available) + LengthOf(entries, AcpiReclaimable)
                                       + LengthOf(entries, AcpiNvs) + LengthOf(entries, Kernel)
                                       + LengthOf(entries, Bootloader)
    decreases |entries|
  {
    if entries != [] { SumsByKind(entries[..|entries| - 1]); }
  }

  /** The statistic is the sum of the available lengths if and only if that sum fits 64 bits. */
  lemma StatisticExactIff(entries: seq<Entry>)
    ensures Counted(MemoryStats(0, 0), entries).availableMemory == SumOf(entries, ONLY_AVAILABLE) <==>
            SumOf(entries, ONLY_AVAILABLE) < U64_SPAN
  {
  }

  /** Where the sum fits, the allocator never has more free bytes than the kernel counts available. */
  lemma FreeWithinAvailable(entries: seq<Entry>)
    requires NoWrap(entries) && SumOf(entries, ONLY_AVAILABLE) < U64_SPAN
    ensures |InitialPool(entries).free| * PAGE_SIZE <= Counted(MemoryStats(0, 0), entries).availableMemory
  {
    FreeWithinSum(entries);
    StatisticExactIff(entries);
  }

  /** Two entries that each cover the lower half of the address space: the count wraps to zero
      while there are free pages. */
  lemma WrappedStatistic()
    ensures var half := Entry(0, 0x8000_0000_0000_0000, Available);
            var entries := [half, half];
            && NoWrap(entries)
            && Counted(MemoryStats(0, 0), entries).availableMemory == 0
            && 0 in InitialPool(entries).free
  {
    hide InitialPool, SumOf;
    var half := Entry(0, 0x8000_0000_0000_0000, Available);
    var entries := [half, half];
    SumOfTwo(half, half, ONLY_AVAILABLE);
    InitialFreeSet(entries, 0);
    assert Inside(0, entries[0]);
  }

  lemma SumOfTwo(a: Entry, b: Entry, wanted: MemoryType -> bool)
    ensures SumOf([a, b], wanted) == (if wanted(a.kind) then a.length else 0) + (if wanted(b.kind) then b.length else 0)
  {
    assert [a, b][..1] == [a] && [a][..0] == [];
    assert SumOf([a], wanted) == if wanted(a.kind) then a.length else 0;
  }

  lemma {:induction false} FreeWithinSum(entries: seq<Entry>)
    requires NoWrap(entries)
    ensures |InitialPool(entries).free| * PAGE_SIZE <= SumOf(entries, ONLY_AVAILABLE)
    decreases |entries|
  {
    if entries != [] {
      var n := |entries| - 1;
      var front, e := entries[..n], entries[n];
      FreeWithinSum(front);
      if e.kind == Available {
        EntryBytes(e);
        AddEntryGrowth(InitialPool(front), e);
      }
    }
  }

  lemma AddEntryGrowth(s: Pool, e: Entry)
    requires e.kind == Available
    ensures |AddEntry(s, e).free| <= |s.free| + PageCount(e)
    ensures EndPage(e) <= MAX_PAGES && (forall p | p in s.free :: !Freed(p, e)) ==>
              |AddEntry(s, e).free| == |s.free| + PageCount(e)
  {
    var start, n := StartPage(e), PageCount(e);
    var end := Max(start, Min(start + n, MAX_PAGES));
    var added := PagesFrom(start, end - start);
    MarkRunEffect(s, start, n);
    assert AddEntry(s, e).free == s.free + (added - s.free);
    SubsetSize(added - s.free, added);
    if EndPage(e) <= MAX_PAGES && forall p | p in s.free :: !Freed(p, e) {
      assert added - s.free == added;
    }
  }

  ghost predicate DisjointBelow4GiB(entries: seq<Entry>) {
    && (forall i | 0 <= i < |entries| :: entries[i].kind == Available ==>
          entries[i].base + entries[i].length <= MAX_PAGES * PAGE_SIZE)
    && (forall i, j | 0 <= i < j < |entries| :: entries[i].kind == Available && entries[j].kind == Available ==>
          || entries[i].base + entries[i].length <= entries[j].base
          || entries[j].base + entries[j].length <= entries[i].base)
  }

  function CountAvailable(entries: seq<Entry>): nat {
    if entries == [] then 0
    else CountAvailable(entries[..|entries| - 1]) + if entries[|entries| - 1].kind == Available then 1 else 0
  }

  /** For disjoint Available entries below 4 GiB, rounding loses under two pages per entry. */
  lemma {:induction false} ShortfallBelowTwoPagesPerEntry(entries: seq<Entry>)
    requires DisjointBelow4GiB(entries)
    ensures SumOf(entries, ONLY_AVAILABLE)
              <= (|InitialPool(entries).free| + 2 * CountAvailable(entries)) * PAGE_SIZE
    ensures CountAvailable(entries) > 0 ==>
              SumOf(entries, ONLY_AVAILABLE) < (|InitialPool(entries).free| + 2 * CountAvailable(entries)) * PAGE_SIZE
    decreases |entries|
  {
    if entries != [] {
      var n := |entries| - 1;
      var front, e := entries[..n], entries[n];
      ShortfallBelowTwoPagesPerEntry(front);
      if e.kind == Available {
        EntryBytes(e);
        forall p | p in InitialPool(front).free ensures !Freed(p, e) {
          DisjointEntryPages(entries, p);
        }
        AddEntryGrowth(InitialPool(front), e);
      }
    }
  }

  lemma DisjointEntryPages(entries: seq<Entry>, p: nat)
    requires entries != [] && DisjointBelow4GiB(entries) && entries[|entries| - 1].kind == Available
    requires p in InitialPool(entries[..|entries| - 1]).free
    ensures !Freed(p, entries[|entries| - 1])
  {
    var n := |entries| - 1;
    var front, e := entries[..n], entries[n];
    InitialFreeSet(front, p);
    var i :| 0 <= i < n && front[i].kind == Available && Inside(p, front[i]);
    assert entries[i] == front[i];
    NoWrapRounding(e, p);
  }
}
