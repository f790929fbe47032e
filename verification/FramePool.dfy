/** The frame allocator's state as a value: the set of free pages and the two scan bounds.
    The cached counter `freePages` is the size of that set, see FrameAllocator.Valid. */
module FramePool {
  import opened Words

  const MAX_PAGES: nat := 0x10_0000

  datatype Pool = Pool(free: set<nat>, firstFree: nat, totalPages: nat) {
    ghost predicate Valid() {
      && firstFree <= totalPages <= MAX_PAGES
      && forall p | p in free :: p < totalPages
    }

    /** No free page lies below the hint. */
    ghost predicate LowWater() {
      forall p | p in free :: firstFree <= p
    }
  }

  datatype Allocation = Allocation(pool: Pool, page: Option<nat>)

  /** Lowest free page in [lo, hi). */
  function LowestFree(free: set<nat>, lo: nat, hi: nat): (r: Option<nat>)
    ensures r.Some? ==> lo <= r.value < hi && r.value in free && forall q | lo <= q < r.value :: q !in free
    ensures r.None? ==> forall q | lo <= q < hi :: q !in free
    decreases hi - lo
  {
    if lo >= hi then None
    else if lo in free then Some(lo)
    else LowestFree(free, lo + 1, hi)
  }

  lemma LowestFreeIs(free: set<nat>, lo: nat, hi: nat, p: nat)
    requires lo <= p < hi && p in free && forall q | lo <= q < p :: q !in free
    ensures LowestFree(free, lo, hi) == Some(p)
  {
    assert LowestFree(free, lo, hi).Some?;
    assert LowestFree(free, lo, hi).value <= p;
  }

  predicate RunFree(free: set<nat>, start: nat, n: nat) {
    forall p | start <= p < start + n :: p in free
  }

  /** Lowest start in [lo, last] of a run of `n` free pages. */
  function FirstRun(free: set<nat>, lo: nat, last: nat, n: nat): Option<nat>
    decreases last - lo
  {
    if lo > last then None
    else if RunFree(free, lo, n) then Some(lo)
    else FirstRun(free, lo + 1, last, n)
  }

  lemma {:induction false} FirstRunIsLowest(free: set<nat>, lo: nat, last: nat, n: nat)
    ensures match FirstRun(free, lo, last, n)
            case Some(r) => lo <= r <= last && RunFree(free, r, n) && forall q | lo <= q < r :: !RunFree(free, q, n)
            case None => forall q | lo <= q <= last :: !RunFree(free, q, n)
    decreases last - lo
  {
    if lo <= last && !RunFree(free, lo, n) { FirstRunIsLowest(free, lo + 1, last, n); }
  }

  lemma FirstRunIs(free: set<nat>, lo: nat, last: nat, n: nat, start: nat)
    requires lo <= start
    requires forall q | lo <= q < start && q <= last :: !RunFree(free, q, n)
    ensures start <= last && RunFree(free, start, n) ==> FirstRun(free, lo, last, n) == Some(start)
    ensures start > last ==> FirstRun(free, lo, last, n) == None
  {
    FirstRunIsLowest(free, lo, last, n);
    if FirstRun(free, lo, last, n).Some? {
      assert FirstRun(free, lo, last, n).value >= start;
    }
  }

  function PagesFrom(start: nat, n: nat): (r: set<nat>)
    ensures forall p :: p in r <==> start <= p < start + n
    ensures |r| == n
    decreases n
  {
    if n == 0 then {} else PagesFrom(start, n - 1) + {start + n - 1}
  }

  function Take(s: Pool, start: nat, n: nat): Pool {
    Pool(s.free - PagesFrom(start, n), start + n, s.totalPages)
  }

  /** Forward scan from the hint, then the wrap-around scan below it. */
  function Alloc(s: Pool): Allocation {
    match LowestFree(s.free, s.firstFree, s.totalPages)
    case Some(p) => Allocation(Take(s, p, 1), Some(p))
    case None =>
      match LowestFree(s.free, 0, s.firstFree)
      case Some(p) => Allocation(Take(s, p, 1), Some(p))
      case None => Allocation(s, None)
  }

  function AllocRun(s: Pool, n: nat): Allocation
    requires s.Valid()
  {
    if n == 0 || n > |s.free| then Allocation(s, None)
    else
      FreeBelowTotal(s);
      match FirstRun(s.free, s.firstFree, s.totalPages - n, n)
      case Some(start) => Allocation(Take(s, start, n), Some(start))
      case None => Allocation(s, None)
  }

  /** `mark_free`: pages out of range or already free are ignored. */
  function Mark(s: Pool, page: nat): Pool {
    if page < MAX_PAGES && page !in s.free
    then Pool(s.free + {page}, s.firstFree, Max(s.totalPages, page + 1))
    else s
  }

  /** `mark_free` on each page of [start, start + n). */
  function MarkRun(s: Pool, start: nat, n: nat): Pool
    decreases n
  {
    if n == 0 then s else Mark(MarkRun(s, start, n - 1), start + n - 1)
  }

  /** `mark_allocated` on each page of [start, start + n). */
  function ClaimRun(s: Pool, start: nat, n: nat): Pool
    decreases n
  {
    if n == 0 then s else Claim(ClaimRun(s, start, n - 1), start + n - 1)
  }

  function Claim(s: Pool, page: nat): Pool {
    s.(free := s.free - {page})
  }

  lemma {:induction false} MarkRunEffect(s: Pool, start: nat, n: nat)
    ensures var r := MarkRun(s, start, n);
            && (forall p :: p in r.free <==> p in s.free || (start <= p < start + n && p < MAX_PAGES))
            && r.firstFree == s.firstFree
            && (s.Valid() ==> r.Valid() && r.totalPages == if n > 0 && start < MAX_PAGES
                                                          then Max(s.totalPages, Min(start + n, MAX_PAGES))
                                                          else s.totalPages)
    decreases n
  {
    if n != 0 { MarkRunEffect(s, start, n - 1); }
  }

  lemma {:induction false} ClaimRunEffect(s: Pool, start: nat, n: nat)
    ensures ClaimRun(s, start, n) == s.(free := s.free - PagesFrom(start, n))
    decreases n
  {
    if n == 0 {
      assert s.free - PagesFrom(start, 0) == s.free;
    } else {
      ClaimRunEffect(s, start, n - 1);
      assert s.free - PagesFrom(start, n) == s.free - PagesFrom(start, n - 1) - {start + n - 1};
    }
  }

  /** `free` of a page that is out of range or already free does nothing. */
  function Free(s: Pool, page: nat): Pool {
    if page < MAX_PAGES && page !in s.free
    then Pool(s.free + {page}, Min(s.firstFree, page), Max(s.totalPages, page + 1))
    else s
  }

  /** The hint moves whether or not any page changed. */
  function FreeRun(s: Pool, start: nat, n: nat): Pool {
    MarkRun(s, start, n).(firstFree := Min(s.firstFree, start))
  }

  // ---------------------------------------------------------------- cardinalities

  lemma SubsetSize(a: set<nat>, b: set<nat>)
    requires a <= b
    ensures |a| <= |b|
  {
    assert b == a + (b - a);
  }

  /** `stats` never underflows, and neither does `totalPages - numPages`. */
  lemma FreeBelowTotal(s: Pool)
    requires s.Valid()
    ensures |s.free| <= s.totalPages
  {
    SubsetSize(s.free, PagesFrom(0, s.totalPages));
  }

  // ---------------------------------------------------------------- single operations

  lemma AllocTakesOne(s: Pool)
    requires s.Valid()
    ensures var r := Alloc(s);
            && r.pool.Valid()
            && (r.page.None? <==> s.free == {})
            && (r.page.None? ==> r.pool == s)
            && (r.page.Some? ==> r.page.value in s.free && r.page.value < MAX_PAGES
                                 && r.pool.free == s.free - {r.page.value}
                                 && |r.pool.free| == |s.free| - 1
                                 && r.pool.totalPages == s.totalPages)
  {
    var r := Alloc(s);
    if r.page.Some? {
      assert PagesFrom(r.page.value, 1) == {r.page.value};
    } else {
      forall p: nat ensures p !in s.free {
      }
    }
  }

  /** Next fit: the lowest free page at or above the hint, else the lowest free page of all; the
      hint moves just past it. */
  lemma AllocIsNextFit(s: Pool, p: nat)
    requires s.Valid() && p in s.free
    ensures var page := Alloc(s).page;
            && page.Some? && page.value in s.free
            && (p >= s.firstFree ==> s.firstFree <= page.value <= p)
            && (page.value < s.firstFree ==> page.value <= p)
            && Alloc(s).pool.firstFree == page.value + 1
  {
    AllocTakesOne(s);
  }

  /** Freeing what was just allocated restores the free set. */
  lemma FreeUndoesAlloc(s: Pool)
    requires s.Valid() && Alloc(s).page.Some?
    ensures var t := Free(Alloc(s).pool, Alloc(s).page.value);
            t.free == s.free && t.totalPages == s.totalPages
  {
    hide Alloc;
    AllocTakesOne(s);
  }

  lemma FreeRunUndoesAllocRun(s: Pool, n: nat)
    requires s.Valid() && AllocRun(s, n).page.Some?
    ensures var t := FreeRun(AllocRun(s, n).pool, AllocRun(s, n).page.value, n);
            t.free == s.free && t.totalPages == s.totalPages
  {
    hide AllocRun, MarkRun;
    AllocRunIsFirstFit(s, n);
    MarkRunEffect(AllocRun(s, n).pool, AllocRun(s, n).page.value, n);
  }

  /** While the low-water mark holds, `alloc` hands out the lowest free page, keeps the mark,
      and its wrap-around scan finds nothing. */
  lemma AllocIsLowest(s: Pool)
    requires s.Valid() && s.LowWater()
    ensures Alloc(s).pool.LowWater()
    ensures forall p | p in s.free :: Alloc(s).page.Some? && Alloc(s).page.value <= p
    ensures LowestFree(s.free, 0, s.firstFree).None?
  {
    AllocTakesOne(s);
  }

  /** An `alloc` whose forward scan comes back empty restores the mark, whatever state it started in. */
  lemma WrapRestoresLowWater(s: Pool)
    requires s.Valid()
    requires LowestFree(s.free, s.firstFree, s.totalPages).None?
    ensures Alloc(s).pool.LowWater()
  {
    AllocTakesOne(s);
  }

  lemma RunFits(s: Pool, q: nat, n: nat)
    requires s.Valid() && n != 0 && RunFree(s.free, q, n)
    ensures n <= |s.free| && q + n <= s.totalPages
  {
    SubsetSize(PagesFrom(q, n), s.free);
    assert q + n - 1 in s.free;
  }

  /** First fit from the hint: the result is the lowest start at or above the hint, exactly that
      run leaves the free set, and None means no such start. */
  lemma AllocRunIsFirstFit(s: Pool, n: nat)
    requires s.Valid()
    ensures var r := AllocRun(s, n);
            && r.pool.Valid()
            && (r.page.None? ==> r.pool == s)
            && (r.page.None? <==> n == 0 || forall q | s.firstFree <= q :: !RunFree(s.free, q, n))
            && (r.page.Some? ==>
                  var start := r.page.value;
                  && s.firstFree <= start && start + n <= s.totalPages && RunFree(s.free, start, n)
                  && (forall q | s.firstFree <= q < start :: !RunFree(s.free, q, n))
                  && r.pool == Pool(s.free - PagesFrom(start, n), start + n, s.totalPages)
                  && |r.pool.free| == |s.free| - n)
  {
    var r := AllocRun(s, n);
    FreeBelowTotal(s);
    if 0 < n <= |s.free| { FirstRunIsLowest(s.free, s.firstFree, s.totalPages - n, n); }
    if r.page.Some? {
      var start := r.page.value;
      assert start + n - 1 in s.free;
      assert PagesFrom(start, n) <= s.free;
      assert |s.free| == |s.free - PagesFrom(start, n)| + n;
    } else if n != 0 {
      forall q | s.firstFree <= q ensures !RunFree(s.free, q, n) {
        if RunFree(s.free, q, n) {
          RunFits(s, q, n);
        }
      }
    }
  }

  /** Under the low-water mark the hint loses nothing: None means no run exists anywhere. */
  lemma AllocRunIsComplete(s: Pool, n: nat)
    requires s.Valid() && s.LowWater()
    ensures AllocRun(s, n).page.None? <==> n == 0 || forall q: nat :: !RunFree(s.free, q, n)
  {
    AllocRunIsFirstFit(s, n);
    if n != 0 && AllocRun(s, n).page.None? {
      forall q: nat ensures !RunFree(s.free, q, n) {
        assert q in s.free ==> s.firstFree <= q;
        assert RunFree(s.free, q, n) ==> q in s.free;
      }
    }
  }

  /** The lowest free page starts a run of `n` free pages. */
  ghost predicate RunAtLowest(free: set<nat>, n: nat) {
    exists p | p in free :: (forall q | q in free :: p <= q) && RunFree(free, p, n)
  }

  /** A contiguous allocation keeps the mark if and only if it fails or the run it needs starts at
      the lowest free page. */
  lemma AllocRunKeepsLowWaterIff(s: Pool, n: nat)
    requires s.Valid() && s.LowWater()
    ensures AllocRun(s, n).pool.LowWater() <==>
            n == 0 || (forall q: nat :: !RunFree(s.free, q, n)) || RunAtLowest(s.free, n)
  {
    AllocRunIsComplete(s, n);
    AllocRunIsFirstFit(s, n);
    var r := AllocRun(s, n);
    if r.page.Some? {
      var start := r.page.value;
      assert start in s.free;
      if r.pool.LowWater() {
        forall q | q in s.free ensures start <= q {
          assert q in PagesFrom(start, n) || q in r.pool.free;
        }
        assert RunAtLowest(s.free, n);
      }
      if RunAtLowest(s.free, n) {
        var p :| p in s.free && (forall q | q in s.free :: p <= q) && RunFree(s.free, p, n);
        assert p == start;
      }
    }
  }

  /** Pages 0, 2 and 3 free: a run of two starts at 2, and page 0 is left free below the hint. */
  lemma AllocRunCanLoseLowWater()
    ensures var s := Pool({0, 2, 3}, 0, 4);
            && s.Valid() && s.LowWater()
            && AllocRun(s, 2).page == Some(2) && !AllocRun(s, 2).pool.LowWater()
  {
    var s := Pool({0, 2, 3}, 0, 4);
    AllocRunIsFirstFit(s, 2);
    var r := AllocRun(s, 2);
    assert RunFree(s.free, 2, 2);
    assert 1 !in s.free;
    assert !RunFree(s.free, 0, 2) by { assert 0 <= 1 < 0 + 2; }
    assert !RunFree(s.free, 1, 2) by { assert 1 <= 1 < 1 + 2; }
    assert r.page == Some(2);
    assert 0 in r.pool.free;
  }

  /** Freeing a free page or one beyond 4 GiB changes nothing. Freeing any other adds that page,
      lowers the hint to it if it was higher, and raises the total past it if it was lower. */
  lemma FreeEffect(s: Pool, page: nat)
    requires s.Valid()
    ensures var t := Free(s, page);
            && t.Valid() && (s.LowWater() ==> t.LowWater())
            && (page in s.free || page >= 0x10_0000 ==> t == s)
            && (page !in s.free && page < 0x10_0000 ==>
                  && t.free == s.free + {page} && |t.free| == |s.free| + 1
                  && t.firstFree == (if page < s.firstFree then page else s.firstFree)
                  && t.totalPages == (if page >= s.totalPages then page + 1 else s.totalPages))
  {
  }

  lemma FreeRunKeepsMark(s: Pool, start: nat, n: nat)
    requires s.Valid()
    ensures FreeRun(s, start, n).Valid()
    ensures s.LowWater() ==> FreeRun(s, start, n).LowWater()
    ensures forall p :: p in FreeRun(s, start, n).free <==> p in s.free || (start <= p < start + n && p < 0x10_0000)
    ensures FreeRun(s, start, n).firstFree == if start < s.firstFree then start else s.firstFree
    ensures FreeRun(s, start, n).totalPages ==
            if n > 0 && start < 0x10_0000 then Max(s.totalPages, Min(start + n, 0x10_0000)) else s.totalPages
  {
    MarkRunEffect(s, start, n);
  }

  lemma AllocRunByClaims(s: Pool, n: nat)
    requires s.Valid() && 0 < n <= |s.free|
    ensures n <= s.totalPages
    ensures match FirstRun(s.free, s.firstFree, s.totalPages - n, n)
            case Some(start) => start + n <= s.totalPages
                                && AllocRun(s, n) == Allocation(ClaimRun(s, start, n).(firstFree := start + n), Some(start))
            case None => AllocRun(s, n) == Allocation(s, None)
  {
    FreeBelowTotal(s);
    FirstRunIsLowest(s.free, s.firstFree, s.totalPages - n, n);
    match FirstRun(s.free, s.firstFree, s.totalPages - n, n)
    case Some(start) => ClaimRunEffect(s, start, n);
    case None =>
  }

  // ---------------------------------------------------------------- whole runs

  datatype PoolOp = TakeOne | TakeRun(n: nat) | GiveOne(page: nat) | GiveRun(start: nat, count: nat)

  function Step(s: Pool, op: PoolOp): Pool
    requires s.Valid()
  {
    match op
    case TakeOne => Alloc(s).pool
    case TakeRun(n) => AllocRun(s, n).pool
    case GiveOne(page) => Free(s, page)
    case GiveRun(start, count) => FreeRun(s, start, count)
  }

  function Taken(s: Pool, op: PoolOp): set<nat>
    requires s.Valid()
  {
    match op
    case TakeOne => if Alloc(s).page.Some? then {Alloc(s).page.value} else {}
    case TakeRun(n) => if AllocRun(s, n).page.Some? then PagesFrom(AllocRun(s, n).page.value, n) else {}
    case _ => {}
  }

  function Given(op: PoolOp): set<nat> {
    match op
    case GiveOne(page) => {page}
    case GiveRun(start, n) => PagesFrom(start, n)
    case _ => {}
  }

  /** Taking one page takes one if there is one; taking a run takes that many pages, or none if the
      count is 0 or no such run lies at or above the hint. */
  lemma TakenPages(s: Pool, n: nat)
    requires s.Valid()
    ensures |Taken(s, TakeOne)| == Min(1, |s.free|)
    ensures |Taken(s, TakeRun(n))| == if exists q :: s.firstFree <= q && RunFree(s.free, q, n) then n else 0
  {
    hide Alloc, AllocRun;
    AllocTakesOne(s);
    AllocRunIsFirstFit(s, n);
  }

  /** A step moves exactly the pages it takes or gives, when it gives pages that are not free. */
  lemma StepMoves(s: Pool, op: PoolOp)
    requires s.Valid() && Given(op) !! s.free && forall p | p in Given(op) :: p < MAX_PAGES
    ensures Taken(s, op) <= s.free
    ensures Step(s, op).free == s.free - Taken(s, op) + Given(op)
  {
    match op
    case TakeOne => AllocTakesOne(s);
    case TakeRun(n) => RunMoves(s, n);
    case GiveOne(page) => assert page in Given(op);
    case GiveRun(start, n) => FreeRunMoves(s, start, n);
  }

  lemma RunMoves(s: Pool, n: nat)
    requires s.Valid()
    ensures Taken(s, TakeRun(n)) <= s.free
    ensures AllocRun(s, n).pool.free == s.free - Taken(s, TakeRun(n))
  {
    AllocRunIsFirstFit(s, n);
  }

  lemma FreeRunMoves(s: Pool, start: nat, n: nat)
    requires s.Valid() && forall p | p in PagesFrom(start, n) :: p < MAX_PAGES
    ensures FreeRun(s, start, n).free == s.free + PagesFrom(start, n)
  {
    FreeRunKeepsMark(s, start, n);
  }

  lemma StepKeepsValid(s: Pool, op: PoolOp)
    requires s.Valid()
    ensures Step(s, op).Valid()
    ensures s.LowWater() && !op.TakeRun? ==> Step(s, op).LowWater()
  {
    match op
    case TakeOne =>
      AllocTakesOne(s);
      if s.LowWater() { AllocIsLowest(s); }
    case TakeRun(n) => AllocRunIsFirstFit(s, n);
    case GiveOne(page) => FreeEffect(s, page);
    case GiveRun(start, count) => FreeRunKeepsMark(s, start, count);
  }

  ghost predicate Reaches(s: Pool, ops: seq<PoolOp>, t: Pool)
    requires s.Valid()
    decreases |ops|
  {
    if ops == [] then t == s
    else
      StepKeepsValid(s, ops[0]);
      Reaches(Step(s, ops[0]), ops[1..], t)
  }

  /** Counters and bounds agree after every run, even one that frees pages nobody holds; and a run
      without contiguous allocations never leaves a free page below the hint. */
  lemma {:induction false} RunsKeepCounters(s: Pool, ops: seq<PoolOp>, t: Pool)
    requires s.Valid() && Reaches(s, ops, t)
    ensures t.Valid() && |t.free| <= t.totalPages
    ensures s.LowWater() && (forall op | op in ops :: !op.TakeRun?) ==> t.LowWater()
    decreases |ops|
  {
    FreeBelowTotal(s);
    if ops != [] {
      StepKeepsValid(s, ops[0]);
      assert ops[0] in ops;
      assert forall op | op in ops[1..] :: op in ops;
      RunsKeepCounters(Step(s, ops[0]), ops[1..], t);
    }
  }
}
