/** The bitmap frame allocator. Every method is specified on the pool the bitmap stands for. */
module FrameAllocation {
  import opened Words
  import opened Bits
  import opened FramePool
  import opened MemoryMap

  const BITMAP_SIZE: nat := 0x2_0000

  lemma ByteWidth()
    ensures Pow2(8) == 0x100
  {
    SmallPowers();
  }

  class FrameAllocator {
    const bitmap: array<u8>
    var firstFree: nat
    var totalPages: nat
    var freePages: nat

    /** The pool the fields stand for; Tracks determines it from them. */
    ghost var pool: Pool

    predicate IsAllocated(page: nat)
      requires bitmap.Length == BITMAP_SIZE
      reads bitmap
    {
      page >= MAX_PAGES || Bit(bitmap[page / 8], page % 8)
    }

    ghost predicate Tracks()
      reads this, bitmap
    {
      && bitmap.Length == BITMAP_SIZE
      && pool.firstFree == firstFree && pool.totalPages == totalPages
      && forall p: nat {:trigger IsAllocated(p)} :: IsAllocated(p) <==> p !in pool.free
    }

    /** The bitmap, the bounds and the cached counter describe one valid pool. */
    ghost predicate Valid()
      reads this, bitmap
    {
      Tracks() && pool.Valid() && freePages == |pool.free|
    }

    constructor ()
      ensures fresh(bitmap) && bitmap.Length == BITMAP_SIZE
      ensures firstFree == 0 && totalPages == 0 && freePages == 0
      ensures forall i | 0 <= i < BITMAP_SIZE :: bitmap[i] == 0
    {
      bitmap := new u8[BITMAP_SIZE](_ => 0);
      firstFree, totalPages, freePages := 0, 0, 0;
      pool := Pool({}, 0, 0);
    }

    /** With a memory map the allocator holds exactly the pages of InitialPool. Without one the
        bitmap stays full while freePages claims all of MAX_PAGES, so the counters agree with the
        bitmap if and only if there is a map. */
    method Init(entries: seq<Entry>)
      requires bitmap.Length == BITMAP_SIZE
      requires firstFree == 0 && totalPages == 0 && freePages == 0
      modifies this, bitmap
      ensures Tracks() && pool == if entries == [] then Pool({}, 0, MAX_PAGES) else InitialPool(entries)
      ensures Valid() <==> entries != []
      ensures entries == [] ==> freePages == MAX_PAGES
    {
      FillBitmap();
      if entries == [] {
        totalPages := MAX_PAGES;
        freePages := MAX_PAGES;
        pool := Pool({}, 0, MAX_PAGES);
        return;
      }
      for i := 0 to |entries|
        invariant Valid() && pool == InitialPool(entries[..i])
      {
        assert entries[..i + 1][..i] == entries[..i];
        if entries[i].kind == Available {
          FreeEntry(entries[i]);
        }
      }
      assert entries[..|entries|] == entries;
    }

    method FillBitmap()
      requires bitmap.Length == BITMAP_SIZE
      modifies this`pool, bitmap
      ensures Tracks() && pool == Pool({}, firstFree, totalPages)
    {
      for b := 0 to bitmap.Length
        invariant forall i | 0 <= i < b :: bitmap[i] == 0xFF
      {
        bitmap[b] := 0xFF;
      }
      pool := Pool({}, firstFree, totalPages);
      ByteWidth();
      forall p: nat ensures IsAllocated(p) { FullWordBits(8, p % 8); }
    }

    method FreeEntry(entry: Entry)
      requires Valid() && entry.kind == Available
      modifies this, bitmap
      ensures Valid() && pool == AddEntry(old(pool), entry)
    {
      var start := PageAlignUp(entry.base) / PAGE_SIZE;
      var end := PageAlignDown((entry.base + entry.length) % U64_SPAN) / PAGE_SIZE;
      MarkFreeRange(start, Max(start, end));
    }

    method MarkFreeRange(start: nat, end: nat)
      requires Valid() && start <= end
      modifies this, bitmap
      ensures Valid() && pool == MarkRun(old(pool), start, end - start)
    {
      for i := 0 to end - start
        invariant Valid() && pool == MarkRun(old(pool), start, i)
      {
        var page := start + i;
        if page < MAX_PAGES {
          MarkFree(page);
        }
      }
    }

    method MarkFree(page: nat)
      requires Valid()
      modifies this, bitmap
      ensures Valid() && pool == Mark(old(pool), page)
    {
      if page >= MAX_PAGES || !IsAllocated(page) {
        return;
      }
      ByteWidth();
      WritesStayInWidth(bitmap[page / 8], page % 8, 8);
      bitmap[page / 8] := ClearBit(bitmap[page / 8], page % 8);
      freePages := freePages + 1;
      totalPages := Max(totalPages, page + 1);
      pool := Mark(pool, page);
      assert pool.free == old(pool.free) + {page};
      forall p: nat ensures IsAllocated(p) == (p != page && old(IsAllocated(p))) {
        ClearBitReads(old(bitmap[page / 8]), page % 8, p % 8);
      }
    }

    /** The counter decrement cannot underflow. */
    method MarkAllocated(page: nat)
      requires Valid()
      modifies this, bitmap
      ensures Valid() && pool == Claim(old(pool), page)
    {
      if page >= MAX_PAGES || IsAllocated(page) {
        assert pool.free - {page} == pool.free;
        return;
      }
      ByteWidth();
      WritesStayInWidth(bitmap[page / 8], page % 8, 8);
      bitmap[page / 8] := SetBit(bitmap[page / 8], page % 8);
      freePages := freePages - 1;
      pool := pool.(free := pool.free - {page});
      forall p: nat ensures IsAllocated(p) == (p == page || old(IsAllocated(p))) {
        SetBitReads(old(bitmap[page / 8]), page % 8, p % 8);
      }
    }

    method SetHint(hint: nat)
      requires Valid() && hint <= totalPages
      modifies this`firstFree, this`pool
      ensures Valid() && pool == old(pool).(firstFree := hint)
    {
      firstFree := hint;
      pool := pool.(firstFree := hint);
    }

    /** One scan loop of `alloc`: take the lowest free page of [lo, hi), if there is one. */
    method TakeLowest(lo: nat, hi: nat) returns (r: Option<u64>)
      requires Valid() && hi <= totalPages
      modifies this, bitmap
      ensures Valid()
      ensures match LowestFree(old(pool).free, lo, hi)
              case Some(p) => pool == Take(old(pool), p, 1) && r == Some(p * PAGE_SIZE)
              case None => pool == old(pool) && r == None
    {
      ghost var before := pool;
      var page := lo;
      while page < hi
        invariant lo <= page && (page <= hi || page == lo)
        invariant Valid() && pool == before
        invariant forall q | lo <= q < page :: q !in before.free
      {
        if !IsAllocated(page) {
          LowestFreeIs(before.free, lo, hi, page);
          MarkAllocated(page);
          SetHint(page + 1);
          assert PagesFrom(page, 1) == {page};
          return Some(page * PAGE_SIZE);
        }
        page := page + 1;
      }
      return None;
    }

    method Alloc() returns (r: Option<u64>)
      requires Valid()
      modifies this, bitmap
      ensures Valid() && pool == FramePool.Alloc(old(pool)).pool
      ensures r == Address(FramePool.Alloc(old(pool)).page)
    {
      r := TakeLowest(firstFree, totalPages);
      if r.None? {
        r := TakeLowest(0, firstFree);
      }
    }

    method AllocContiguous(numPages: nat) returns (r: Option<u64>)
      requires Valid()
      modifies this, bitmap
      ensures Valid() && pool == AllocRun(old(pool), numPages).pool
      ensures r == Address(AllocRun(old(pool), numPages).page)
    {
      if numPages == 0 || numPages > freePages {
        return None;
      }
      AllocRunByClaims(pool, numPages);
      var start := FindRun(totalPages - numPages, numPages);
      if start.None? {
        return None;
      }
      MarkAllocatedRun(start.value, numPages);
      ClaimRunEffect(old(pool), start.value, numPages);
      SetHint(start.value + numPages);
      return Some(start.value * PAGE_SIZE);
    }

    /** The search loop of `alloc_contiguous`. */
    method FindRun(last: nat, n: nat) returns (r: Option<nat>)
      requires Valid()
      ensures r == FirstRun(pool.free, firstFree, last, n)
    {
      var start := firstFree;
      while start <= last
        invariant firstFree <= start
        invariant forall q | firstFree <= q < start && q <= last :: !RunFree(pool.free, q, n)
      {
        var found := IsRunFree(start, n);
        if found {
          FirstRunIs(pool.free, firstFree, last, n, start);
          return Some(start);
        }
        start := start + 1;
      }
      FirstRunIs(pool.free, firstFree, last, n, start);
      return None;
    }

    method IsRunFree(start: nat, n: nat) returns (found: bool)
      requires Valid()
      ensures found <==> RunFree(pool.free, start, n)
    {
      for page := start to start + n
        invariant forall q | start <= q < page :: q in pool.free
      {
        if IsAllocated(page) {
          return false;
        }
      }
      return true;
    }

    method MarkAllocatedRun(start: nat, n: nat)
      requires Valid()
      modifies this, bitmap
      ensures Valid() && pool == ClaimRun(old(pool), start, n)
    {
      for i := 0 to n
        invariant Valid() && pool == ClaimRun(old(pool), start, i)
      {
        MarkAllocated(start + i);
      }
    }

    method Free(addr: u64)
      requires Valid()
      modifies this, bitmap
      ensures Valid() && pool == FramePool.Free(old(pool), addr / PAGE_SIZE)
    {
      ghost var before := pool;
      var page := addr / PAGE_SIZE;
      if page < MAX_PAGES && IsAllocated(page) {
        MarkFree(page);
        assert pool.free == before.free + {page};
        if page < firstFree {
          SetHint(page);
        }
      }
    }

    method FreeContiguous(addr: u64, numPages: nat)
      requires Valid()
      modifies this, bitmap
      ensures Valid() && pool == FreeRun(old(pool), addr / PAGE_SIZE, numPages)
    {
      var start := addr / PAGE_SIZE;
      MarkRunEffect(pool, start, numPages);
      MarkFreeRange(start, start + numPages);
      if start < firstFree {
        SetHint(start);
      }
    }

    /** The subtraction cannot underflow. */
    method Stats() returns (total: nat, used: nat, free: nat)
      requires Valid()
      ensures total == pool.totalPages && free == |pool.free| && used + free == total
    {
      FreeBelowTotal(pool);
      total, free := totalPages, freePages;
      used := total - free;
    }
  }

  function Address(page: Option<nat>): Option<nat> {
    match page
    case Some(p) => Some(p * PAGE_SIZE)
    case None => None
  }
}
