/** Page tables, frame pool and their clients as one system, and what holds over every run of it. */
module KernelMemory {
  import opened Words
  import opened FramePool
  import opened PageTables
  import opened TableOwnership
  import opened DirectoryWrites
  import opened Mapping

  /** `held`: frames handed out to clients. `owner`: the live tables. `view`: the abstract address
      space, a plain map from virtual pages to frames. */
  datatype System = System(ram: Ram, pool: Pool, held: set<nat>, owner: Owners, view: map<PageKey, Frame>)

  /** The meaning of an abstract address space. */
  function Expected(view: map<PageKey, Frame>, v: u64): Option<u64> {
    if InBootRegion(v) then Some(v % 0x80_0000_0000)
    else if KeyOf(v) in view then Some(view[KeyOf(v)] * PAGE_SIZE + v % PAGE_SIZE)
    else None
  }

  ghost predicate Refines(ram: Ram, k: Layout, view: map<PageKey, Frame>) {
    forall v: u64 :: Translate(ram, k, v) == Expected(view, v)
  }

  /** Free, held and table frames partition the frames that were free at boot. */
  ghost predicate Partition(s: System, k: Layout, avail: set<nat>)
    requires k.Valid()
  {
    && s.pool.free !! s.held
    && (forall f | f in s.held :: f !in s.owner)
    && (forall f | f in s.owner :: f in avail || k.IsStatic(f))
    && (forall f | f in avail :: f < MAX_PAGES && !k.IsStatic(f) && (f in s.pool.free || f in s.held || f in s.owner))
    && (forall f | f in s.pool.free || f in s.held :: f in avail)
  }

  ghost predicate Inv(s: System, k: Layout, avail: set<nat>) {
    SpaceOk(s.ram, s.pool, k, s.owner) && Partition(s, k, avail) && Refines(s.ram, k, s.view)
  }

  lemma HugeOnPathIffBoot(ram: Ram, k: Layout, owner: Owners, v: u64)
    requires TablesOk(ram, k, owner)
    ensures HugeOnPath(ram, k, v) <==> InBootRegion(v)
  {
    if InBootRegion(v) { BootRegionIdentity(ram, k, v); } else { TranslateByName(ram, k, owner, v); }
  }

  // ---------------------------------------------------------------- updates below a huge entry

  /** The frame an update takes for a page table when the path of `v` ends in a huge entry. */
  function ShadowFrame(v: u64): Frame {
    (IndicesOf(v).pdpt * 512 + IndicesOf(v).pd) * 512
  }

  /** Below a huge entry `map_page` draws no frame, never fails, and writes into the frame the huge
      entry points at; `unmap_page` can only clear a word there. */
  lemma BootUpdates(ram: Ram, pool: Pool, k: Layout, v: u64, phys: u64, flags: u64)
    requires k.Valid() && BootEntries(ram, k) && pool.Valid() && InBootRegion(v)
    ensures MapPage(ram, pool, k, v, phys, flags)
         == Mapped(Put(ram, ShadowFrame(v), IndicesOf(v).pt, NewEntry(phys, OrPresent(flags))), pool, Ok(()))
    ensures UnmapPage(ram, k, v).ram == if UnmapPage(ram, k, v).result.Ok?
                                        then Put(ram, ShadowFrame(v), IndicesOf(v).pt, 0) else ram
  {
    var ix := IndicesOf(v);
    LinkReads(k.pdpt);
    LinkReads(k.pd + ix.pdpt);
    HugeReads(ix.pdpt, ix.pd);
    assert ram[k.pml4][ix.pml4] == LinkTo(k.pdpt);
    assert ram[k.pdpt][ix.pdpt] == LinkTo(k.pd + ix.pdpt);
    assert ram[k.pd + ix.pdpt][ix.pd] == HugeEntry(ix.pdpt, ix.pd);
    assert FrameOf(HugeEntry(ix.pdpt, ix.pd)) * PAGE_SIZE == ShadowFrame(v) * PAGE_SIZE;
  }

  /** An update of `v` does not write into a directory: the frame below a huge entry, if it is a
      live table at all, is a page table. */
  predicate SparesDirectories(owner: Owners, v: u64) {
    InBootRegion(v) && ShadowFrame(v) in owner ==> owner[ShadowFrame(v)].Pt?
  }

  /** The slot an update of a boot-region address writes, as a page of some other address. */
  function ShadowKey(owner: Owners, v: u64): PageKey
    requires ShadowFrame(v) in owner
  {
    PageKey(owner[ShadowFrame(v)], IndicesOf(v).pt)
  }

  /** What `map_page` below a huge entry does to translation. Nothing, if the frame it writes is no
      table. If it is a page table, the page served by that word is remapped. If it is a directory,
      every walk through that word goes on in the mapped frame, whatever it holds. */
  lemma ShadowWriteEffect(ram: Ram, pool: Pool, k: Layout, owner: Owners, v: u64, phys: u64, flags: u64)
    requires SpaceOk(ram, pool, k, owner) && InBootRegion(v) && !BootSlot(k, ShadowFrame(v), IndicesOf(v).pt)
    ensures var m := MapPage(ram, pool, k, v, phys, flags);
            var f, i := ShadowFrame(v), IndicesOf(v).pt;
            && m.result.Ok? && m.pool == pool && (SparesDirectories(owner, v) ==> TablesOk(m.ram, k, owner))
            && forall w: u64 :: Translate(m.ram, k, w) ==
                 if f in owner && owner[f].Pt? && !InBootRegion(w) && KeyOf(w) == ShadowKey(owner, v)
                 then Some(Addr(phys) + w % PAGE_SIZE)
                 else if f in owner && !owner[f].Pt? && Through(owner[f], i, w)
                 then Below(m.ram, owner[f], NewEntry(phys, OrPresent(flags)), w)
                 else Translate(ram, k, w)
  {
    hide Translate, MapPage, NewEntry;
    BootUpdates(ram, pool, k, v, phys, flags);
    LeafReads(phys, flags);
    var e := NewEntry(phys, OrPresent(flags));
    var f, i := ShadowFrame(v), IndicesOf(v).pt;
    if f !in owner {
      OtherFramesAreInvisible(ram, Put(ram, f, i, e), k, owner);
    } else if owner[f].Pt? {
      SlotWrite(ram, k, owner, f, i, e);
    } else {
      DirectoryWriteEffect(ram, k, owner, f, i, e);
    }
  }

  /** Such a call leaves every translation alone if and only if the frame it writes is no table, or
      the word it overwrites already maps the same frame. */
  lemma ShadowWriteInvisibleIff(ram: Ram, pool: Pool, k: Layout, owner: Owners, v: u64, phys: u64, flags: u64)
    requires SpaceOk(ram, pool, k, owner) && InBootRegion(v) && SparesDirectories(owner, v)
    ensures var before := ram[ShadowFrame(v)][IndicesOf(v).pt];
            SameTranslations(ram, MapPage(ram, pool, k, v, phys, flags).ram, k) <==>
            ShadowFrame(v) !in owner || (Present(before) && FrameOf(before) == FrameOf(phys))
  {
    hide Translate, MapPage, Present, FrameOf;
    ShadowMissesBoot(ram, k, owner, v);
    ShadowWriteEffect(ram, pool, k, owner, v, phys, flags);
    var before := ram[ShadowFrame(v)][IndicesOf(v).pt];
    if ShadowFrame(v) in owner {
      var w := PageTableServes(ram, k, owner, ShadowFrame(v), IndicesOf(v).pt);
      if Present(before) && FrameOf(before) == FrameOf(phys) {
        forall u: u64 | !InBootRegion(u) && KeyOf(u) == ShadowKey(owner, v)
          ensures Translate(ram, k, u) == Some(Addr(phys) + u % PAGE_SIZE)
        {
          ServedTranslation(ram, k, owner, ShadowFrame(v), IndicesOf(v).pt, u);
        }
      }
    }
  }

  lemma ShadowMissesBoot(ram: Ram, k: Layout, owner: Owners, v: u64)
    requires TablesOk(ram, k, owner) && InBootRegion(v) && SparesDirectories(owner, v)
    ensures !BootSlot(k, ShadowFrame(v), IndicesOf(v).pt)
  {
  }

  lemma ServedTranslation(ram: Ram, k: Layout, owner: Owners, t: Frame, i: Index, u: u64)
    requires TablesOk(ram, k, owner) && t in owner && owner[t].Pt?
    requires !InBootRegion(u) && KeyOf(u) == PageKey(owner[t], i)
    ensures Translate(ram, k, u) == LeafValue(ram[t][i], u)
  {
    NameFindsTable(ram, k, owner, t);
    TranslateByName(ram, k, owner, u);
  }

  /** An update of `v` overwrites one of the three entries that its own walk reads. */
  predicate HitsOwnPath(k: Layout, v: u64)
    requires k.Valid()
  {
    var ix, f := IndicesOf(v), ShadowFrame(v);
    && InBootRegion(v)
    && ((f == k.pml4 && ix.pt == ix.pml4) || (f == k.pdpt && ix.pt == ix.pdpt) || (f == k.pd + ix.pdpt && ix.pt == ix.pd))
  }

  /** `map_page` meets its promise if and only if no huge entry is on the path, or the frame is
      the one the huge entry already gives. */
  lemma MapMeetsPromiseIff(ram: Ram, pool: Pool, k: Layout, owner: Owners, v: u64, phys: u64, flags: u64)
    requires SpaceOk(ram, pool, k, owner) && !HitsOwnPath(k, v)
    requires MapPage(ram, pool, k, v, phys, flags).result.Ok?
    ensures Translate(MapPage(ram, pool, k, v, phys, flags).ram, k, v) == Some(Addr(phys) + v % PAGE_SIZE) <==>
            !HugeOnPath(ram, k, v) || Addr(phys) + v % PAGE_SIZE == v % 0x80_0000_0000
  {
    hide Translate, HugeOnPath, MapPage;
    HugeOnPathIffBoot(ram, k, owner, v);
    if InBootRegion(v) {
      BootUpdates(ram, pool, k, v, phys, flags);
      OwnPathSpared(ram, k, v, NewEntry(phys, OrPresent(flags)));
      BootRegionIdentity(ram, k, v);
    } else {
      MapRefines(ram, pool, k, owner, v, phys, flags);
      assert SamePage(v, v);
    }
  }

  lemma OwnPathSpared(ram: Ram, k: Layout, v: u64, e: u64)
    requires k.Valid() && BootEntries(ram, k) && InBootRegion(v) && !HitsOwnPath(k, v)
    ensures Translate(Put(ram, ShadowFrame(v), IndicesOf(v).pt, e), k, v) == Translate(ram, k, v)
  {
    hide ShadowFrame, FrameOf, Present, Huge, LinkTo, HugeEntry, Addr, IndicesOf;
    var ix := IndicesOf(v);
    LinkReads(k.pdpt);
    LinkReads(k.pd + ix.pdpt);
    HugeReads(ix.pdpt, ix.pd);
    assert ram[k.pml4][ix.pml4] == LinkTo(k.pdpt);
    assert ram[k.pdpt][ix.pdpt] == LinkTo(k.pd + ix.pdpt);
    assert ram[k.pd + ix.pdpt][ix.pd] == HugeEntry(ix.pdpt, ix.pd);
  }

  /** An update that overwrites an entry of its own walk sends the rest of that walk into the frame
      it maps. */
  lemma OwnPathRedirected(ram: Ram, pool: Pool, k: Layout, v: u64, phys: u64, flags: u64)
    requires k.Valid() && BootEntries(ram, k) && pool.Valid() && HitsOwnPath(k, v)
    ensures var m, f := MapPage(ram, pool, k, v, phys, flags), ShadowFrame(v);
            var n := if f == k.pml4 then Root else if f == k.pdpt then Pdpt(0) else Pd(0, IndicesOf(v).pdpt);
            m.result.Ok? && Translate(m.ram, k, v) == Below(m.ram, n, NewEntry(phys, OrPresent(flags)), v)
  {
    hide MapPage, ShadowFrame, FrameOf, Present, Huge, LinkTo, HugeEntry, Addr, NewEntry;
    var ix := IndicesOf(v);
    BootUpdates(ram, pool, k, v, phys, flags);
    LinkReads(k.pdpt);
    LinkReads(k.pd + ix.pdpt);
    assert ram[k.pml4][ix.pml4] == LinkTo(k.pdpt);
    assert ram[k.pdpt][ix.pdpt] == LinkTo(k.pd + ix.pdpt);
  }

  // ---------------------------------------------------------------- steps

  datatype Op =
    | Map(virt: u64, phys: u64, flags: u64)
    | Unmap(virt: u64)
    | Client(op: PoolOp)
    | Store(frame: Frame, index: Index, value: u64)

  /** Clients free only frames they hold; anyone may write any frame that is not a live table, and
      the heap does write frames nobody holds; an update below a huge entry spares directories. */
  ghost predicate Legal(s: System, op: Op) {
    match op
    case Map(v, _, _) => SparesDirectories(s.owner, v)
    case Unmap(v) => SparesDirectories(s.owner, v)
    case Client(GiveOne(page)) => page in s.held
    case Client(GiveRun(start, n)) => PagesFrom(start, n) <= s.held
    case Client(_) => true
    case Store(f, _, _) => f !in s.owner
  }

  /** The abstract address space after the word at (f, i) has become `e`. */
  function ViewAfter(owner: Owners, view: map<PageKey, Frame>, f: Frame, i: Index, e: u64): map<PageKey, Frame> {
    if f !in owner then view
    else if Present(e) then view[PageKey(owner[f], i) := FrameOf(e)]
    else view - {PageKey(owner[f], i)}
  }

  ghost function Apply(s: System, k: Layout, avail: set<nat>, op: Op): System
    requires Inv(s, k, avail) && Legal(s, op)
  {
    match op
    case Map(v, phys, flags) =>
      var m := MapPage(s.ram, s.pool, k, v, phys, flags);
      if InBootRegion(v)
      then s.(ram := m.ram, pool := m.pool,
              view := ViewAfter(s.owner, s.view, ShadowFrame(v), IndicesOf(v).pt, NewEntry(phys, OrPresent(flags))))
      else System(m.ram, m.pool, s.held, OwnersAfterMap(s.ram, s.pool, k, s.owner, v),
                  if m.result.Ok? then s.view[KeyOf(v) := FrameOf(phys)] else s.view)
    case Unmap(v) =>
      var u := UnmapPage(s.ram, k, v);
      s.(ram := u.ram,
         view := if u.result.Err? then s.view
                 else if InBootRegion(v) then ViewAfter(s.owner, s.view, ShadowFrame(v), IndicesOf(v).pt, 0)
                 else s.view - {KeyOf(v)})
    case Client(op) => s.(pool := Step(s.pool, op), held := s.held + Taken(s.pool, op) - Given(op))
    case Store(f, i, e) => s.(ram := Put(s.ram, f, i, e))
  }

  lemma RefinesSame(ram: Ram, ram': Ram, k: Layout, view: map<PageKey, Frame>)
    requires Refines(ram, k, view) && SameTranslations(ram, ram', k)
    ensures Refines(ram', k, view)
  {
  }

  lemma RefinesMapped(ram: Ram, ram': Ram, k: Layout, view: map<PageKey, Frame>, v: u64, phys: u64)
    requires Refines(ram, k, view) && TranslatesAfterMap(ram, ram', k, v, phys) && !InBootRegion(v)
    ensures Refines(ram', k, view[KeyOf(v) := FrameOf(phys)])
  {
  }

  lemma RefinesUnmapped(ram: Ram, ram': Ram, k: Layout, view: map<PageKey, Frame>, v: u64)
    requires Refines(ram, k, view) && TranslatesAfterUnmap(ram, ram', k, v) && !InBootRegion(v)
    ensures Refines(ram', k, view - {KeyOf(v)})
  {
  }

  /** A word written anywhere but in a directory keeps the invariant, and the abstract address
      space changes at most at the page that word serves. */
  lemma WordWrite(s: System, k: Layout, avail: set<nat>, f: Frame, i: Index, e: u64)
    requires Inv(s, k, avail) && (f in s.owner ==> s.owner[f].Pt?)
    ensures Inv(s.(ram := Put(s.ram, f, i, e), view := ViewAfter(s.owner, s.view, f, i, e)), k, avail)
  {
    hide Translate, Present, FrameOf;
    var ram' := Put(s.ram, f, i, e);
    if f in s.owner {
      SlotWrite(s.ram, k, s.owner, f, i, e);
      var view' := ViewAfter(s.owner, s.view, f, i, e);
      forall w: u64 ensures Translate(ram', k, w) == Expected(view', w) {
        assert Translate(s.ram, k, w) == Expected(s.view, w);
      }
    } else {
      OtherFramesAreInvisible(s.ram, ram', k, s.owner);
      RefinesSame(s.ram, ram', k, s.view);
    }
  }

  lemma MapKeepsInv(s: System, k: Layout, avail: set<nat>, v: u64, phys: u64, flags: u64)
    requires Inv(s, k, avail) && Legal(s, Map(v, phys, flags))
    ensures Inv(Apply(s, k, avail, Map(v, phys, flags)), k, avail)
  {
    if InBootRegion(v) {
      BootUpdates(s.ram, s.pool, k, v, phys, flags);
      WordWrite(s, k, avail, ShadowFrame(v), IndicesOf(v).pt, NewEntry(phys, OrPresent(flags)));
    } else {
      var t := Apply(s, k, avail, Map(v, phys, flags));
      MapRefines(s.ram, s.pool, k, s.owner, v, phys, flags);
      GrowthKeepsPartition(s, t, k, avail);
      if MapPage(s.ram, s.pool, k, v, phys, flags).result.Ok? {
        RefinesMapped(s.ram, t.ram, k, s.view, v, phys);
      } else {
        RefinesSame(s.ram, t.ram, k, s.view);
      }
    }
  }

  lemma GrowthKeepsPartition(s: System, t: System, k: Layout, avail: set<nat>)
    requires k.Valid() && Partition(s, k, avail) && Grew(s.pool, t.pool, s.owner, t.owner) && t.held == s.held
    ensures Partition(t, k, avail)
  {
    forall f | f in t.owner ensures f in s.owner || f in s.pool.free {
      assert f !in s.owner ==> f in t.owner.Keys - s.owner.Keys;
    }
  }

  lemma UnmapKeepsInv(s: System, k: Layout, avail: set<nat>, v: u64)
    requires Inv(s, k, avail) && Legal(s, Unmap(v))
    ensures Inv(Apply(s, k, avail, Unmap(v)), k, avail)
  {
    if InBootRegion(v) {
      BootUpdates(s.ram, s.pool, k, v, 0, 0);
      WordWrite(s, k, avail, ShadowFrame(v), IndicesOf(v).pt, 0);
    } else {
      var u := UnmapPage(s.ram, k, v);
      UnmapRefines(s.ram, k, s.owner, v);
      if u.result.Ok? { RefinesUnmapped(s.ram, u.ram, k, s.view, v); }
    }
  }

  lemma ClientKeepsInv(s: System, k: Layout, avail: set<nat>, op: PoolOp)
    requires Inv(s, k, avail) && Legal(s, Client(op))
    ensures Inv(Apply(s, k, avail, Client(op)), k, avail)
  {
    var t := Apply(s, k, avail, Client(op));
    StepKeepsValid(s.pool, op);
    ClientMoves(s, k, avail, op);
    assert SpaceOk(t.ram, t.pool, k, t.owner);
  }

  /** A client step moves exactly the frames it takes or gives between the pool and the clients. */
  lemma ClientMoves(s: System, k: Layout, avail: set<nat>, op: PoolOp)
    requires s.pool.Valid() && k.Valid() && Partition(s, k, avail) && Legal(s, Client(op))
    ensures Taken(s.pool, op) <= s.pool.free && Given(op) <= s.held
    ensures Step(s.pool, op).free == s.pool.free - Taken(s.pool, op) + Given(op)
  {
    match op
    case GiveOne(page) => StepMoves(s.pool, op);
    case GiveRun(start, n) => StepMoves(s.pool, op);
    case TakeOne => StepMoves(s.pool, op);
    case TakeRun(n) => StepMoves(s.pool, op);
  }

  lemma StoreKeepsInv(s: System, k: Layout, avail: set<nat>, f: Frame, i: Index, e: u64)
    requires Inv(s, k, avail) && Legal(s, Store(f, i, e))
    ensures Inv(Apply(s, k, avail, Store(f, i, e)), k, avail)
  {
    WordWrite(s, k, avail, f, i, e);
  }

  lemma ApplyKeepsInv(s: System, k: Layout, avail: set<nat>, op: Op)
    requires Inv(s, k, avail) && Legal(s, op)
    ensures Inv(Apply(s, k, avail, op), k, avail)
  {
    match op
    case Map(v, phys, flags) => MapKeepsInv(s, k, avail, v, phys, flags);
    case Unmap(v) => UnmapKeepsInv(s, k, avail, v);
    case Client(op) => ClientKeepsInv(s, k, avail, op);
    case Store(f, i, e) => StoreKeepsInv(s, k, avail, f, i, e);
  }

  // ---------------------------------------------------------------- what each step does

  /** A map outside the boot region is always legal. If it succeeds its page and the alias lead to
      the frame and all other addresses to where they did; if not, no address changes. */
  lemma MapStep(s: System, k: Layout, avail: set<nat>, v: u64, phys: u64, flags: u64)
    requires Inv(s, k, avail) && !InBootRegion(v)
    ensures Legal(s, Map(v, phys, flags))
    ensures var t, m := Apply(s, k, avail, Map(v, phys, flags)), MapPage(s.ram, s.pool, k, v, phys, flags);
            && t.ram == m.ram && t.pool == m.pool && t.held == s.held && s.owner.Keys <= t.owner.Keys
            && t.owner.Keys - s.owner.Keys == s.pool.free - t.pool.free && |t.owner| <= |s.owner| + 3
            && forall w: u64 :: Translate(t.ram, k, w) ==
                 if m.result.Ok? && SamePage(v, w) then Some(Addr(phys) + w % PAGE_SIZE) else Translate(s.ram, k, w)
  {
    hide Translate, MapPage, OwnersAfterMap, SamePage, Partition, Refines;
    MapRefines(s.ram, s.pool, k, s.owner, v, phys, flags);
    var t := Apply(s, k, avail, Map(v, phys, flags));
    assert Grew(s.pool, t.pool, s.owner, t.owner);
  }

  /** An unmap outside the boot region is always legal. Its page and the alias lead nowhere after it,
      and all other addresses where they did. */
  lemma UnmapStep(s: System, k: Layout, avail: set<nat>, v: u64)
    requires Inv(s, k, avail) && !InBootRegion(v)
    ensures Legal(s, Unmap(v))
    ensures var t := Apply(s, k, avail, Unmap(v));
            && t == s.(ram := t.ram, view := t.view)
            && (forall f: Frame | f !in s.owner :: t.ram[f] == s.ram[f])
            && forall w: u64 :: Translate(t.ram, k, w) == if SamePage(v, w) then None else Translate(s.ram, k, w)
  {
    hide Translate, UnmapPage, SamePage, Partition, Refines;
    UnmapRefines(s.ram, k, s.owner, v);
  }

  /** Any word of any frame that is no table may be written; exactly that word changes, and no
      translation does. */
  lemma StoreStep(s: System, k: Layout, avail: set<nat>, f: Frame, i: Index, e: u64)
    requires Inv(s, k, avail)
    ensures Legal(s, Store(f, i, e)) <==> f !in s.owner
    ensures f !in s.owner ==>
              var t := Apply(s, k, avail, Store(f, i, e));
              && t == s.(ram := t.ram) && SameTranslations(s.ram, t.ram, k)
              && forall g: Frame, j: Index :: t.ram[g][j] == if g == f && j == i then e else s.ram[g][j]
  {
    hide Translate;
    if f !in s.owner { OtherFramesAreInvisible(s.ram, Put(s.ram, f, i, e), k, s.owner); }
  }

  /** A client step leaves memory and tables alone. Taking is always legal, giving back exactly what
      is held; the frames taken leave the pool for the clients, those given go the other way. */
  lemma ClientStep(s: System, k: Layout, avail: set<nat>, op: PoolOp)
    requires Inv(s, k, avail)
    ensures Legal(s, Client(op)) <==> Given(op) <= s.held
    ensures Given(op) <= s.held ==>
              var t := Apply(s, k, avail, Client(op));
              && t == s.(pool := t.pool, held := t.held)
              && t.pool.free == s.pool.free - Taken(s.pool, op) + Given(op)
              && t.held == s.held + Taken(s.pool, op) - Given(op)
              && Taken(s.pool, op) <= s.pool.free
  {
    hide Refines, TablesOk, Partition, Taken, Step;
    LegalClient(s, op);
    if Given(op) <= s.held {
      PartsOfInv(s, k, avail);
      ClientMoves(s, k, avail, op);
    }
  }

  lemma LegalClient(s: System, op: PoolOp)
    ensures Legal(s, Client(op)) <==> Given(op) <= s.held
  {
  }

  lemma PartsOfInv(s: System, k: Layout, avail: set<nat>)
    requires Inv(s, k, avail)
    ensures s.pool.Valid() && k.Valid() && Partition(s, k, avail)
  {
  }

  // ---------------------------------------------------------------- when a directory is hit

  /** Memory `ram'` is a state of the system with the same pool and clients, under some names for
      its tables and some abstract address space. */
  ghost predicate StillSystem(s: System, ram': Ram, k: Layout, avail: set<nat>) {
    exists owner', view' :: Inv(s.(ram := ram', owner := owner', view := view'), k, avail)
  }

  /** `view` lists the present leaf entries of the page tables. */
  ghost predicate ListsLeaves(ram: Ram, owner: Owners, view: map<PageKey, Frame>) {
    && (forall f, i: Index {:trigger PageKey(owner[f], i)} | f in owner && owner[f].Pt? ::
          (PageKey(owner[f], i) in view <==> Present(ram[f][i]))
          && (Present(ram[f][i]) ==> view[PageKey(owner[f], i)] == FrameOf(ram[f][i])))
    && (forall key | key in view :: key.table in owner.Values)
  }

  lemma LeavesListed(ram: Ram, k: Layout, owner: Owners) returns (view: map<PageKey, Frame>)
    requires TablesOk(ram, k, owner)
    ensures ListsLeaves(ram, owner, view)
  {
    hide TablesOk, Present, FrameOf;
    forall f, g | f in owner && g in owner && owner[f] == owner[g] ensures f == g {
      NameFindsTable(ram, k, owner, f);
      NameFindsTable(ram, k, owner, g);
    }
    view := map f: Frame, i: Index | f in owner && owner[f].Pt? && Present(ram[f][i]) ::
      PageKey(owner[f], i) := FrameOf(ram[f][i]);
  }

  /** The abstract address space of any consistent tables. */
  lemma ViewExists(ram: Ram, k: Layout, owner: Owners) returns (view: map<PageKey, Frame>)
    requires TablesOk(ram, k, owner)
    ensures Refines(ram, k, view)
  {
    hide Translate, TablesOk, Present, FrameOf, InBootRegion;
    view := LeavesListed(ram, k, owner);
    forall v: u64 ensures Translate(ram, k, v) == Expected(view, v) {
      if InBootRegion(v) {
        BootRegionHolds(ram, k, owner, v);
      } else {
        TranslateByName(ram, k, owner, v);
        LookupOwned(ram, k, owner, PtName(v));
        if KeyOf(v) in view {
          var f :| f in owner && owner[f] == PtName(v);
          NameFindsTable(ram, k, owner, f);
        }
      }
    }
  }

  lemma BootRegionHolds(ram: Ram, k: Layout, owner: Owners, v: u64)
    requires TablesOk(ram, k, owner) && InBootRegion(v)
    ensures Translate(ram, k, v) == Some(v % 0x80_0000_0000)
  {
    BootRegionIdentity(ram, k, v);
  }

  /** The tables that hang below slot (f, i). */
  function Branch(owner: Owners, f: Frame, i: Index): set<Frame>
    requires f in owner
  {
    set g | g in owner && Under(owner[f], i, owner[g])
  }

  /** The word `e` at slot (f, i) leaves a tree of tables, and puts the very frames below the slot
      that were there before. */
  ghost predicate Relinks(ram: Ram, owner: Owners, f: Frame, i: Index, e: u64) {
    && f in owner && (owner[f].Pdpt? || owner[f].Pd?)
    && TreeAfter(ram, owner, f, i, e)
    && NewTables(ram, Child(owner[f], i), e) == Branch(owner, f, i)
  }

  /** A word written into a directory leaves a state of the system exactly when it relinks the
      tables it found. */
  lemma DirectoryWriteKeepsSystemIff(s: System, k: Layout, avail: set<nat>, f: Frame, i: Index, e: u64)
    requires Inv(s, k, avail) && InnerSlot(s.ram, k, s.owner, f, i)
    ensures StillSystem(s, Put(s.ram, f, i, e), k, avail) <==> Relinks(s.ram, s.owner, f, i, e)
  {
    hide TablesOk, TreeAfter, NewTables, Refines, OwnersAfter;
    var ram', names := Put(s.ram, f, i, e), OwnersAfter(s.ram, s.owner, f, i, e);
    TablesSurviveIff(s.ram, k, s.owner, f, i, e);
    if TreeAfter(s.ram, s.owner, f, i, e) {
      TreeIf(s.ram, k, s.owner, f, i, e);
      NewBesideRest(s.ram, s.owner, f, i, e);
      if names.Keys == s.owner.Keys {
        var view := ViewExists(ram', k, names);
        assert Inv(s.(ram := ram', owner := names, view := view), k, avail);
      }
    }
    if owner', view' :| Inv(s.(ram := ram', owner := owner', view := view'), k, avail) {
      NamesAreUnique(ram', k, owner', names);
      StaticsOwned(s.ram, k, s.owner);
      StaticsOwned(ram', k, owner');
      BootHolds(s.ram, k, s.owner);
      PartitionFixesTables(s, owner', k, avail);
    }
  }

  /** The pool and the clients leave the tables no choice of frames. */
  lemma PartitionFixesTables(s: System, owner': Owners, k: Layout, avail: set<nat>)
    requires k.Valid() && Partition(s, k, avail) && Partition(s.(owner := owner'), k, avail)
    requires forall f: Frame | k.IsStatic(f) :: f in s.owner && f in owner'
    requires forall f | f in s.pool.free :: f !in s.owner && f !in owner'
    ensures s.owner.Keys == owner'.Keys
  {
  }

  lemma NewBesideRest(ram: Ram, owner: Owners, f: Frame, i: Index, e: u64)
    requires f in owner && (owner[f].Pdpt? || owner[f].Pd?) && TreeAfter(ram, owner, f, i, e)
    ensures OwnersAfter(ram, owner, f, i, e).Keys == owner.Keys <==>
            NewTables(ram, Child(owner[f], i), e) == Branch(owner, f, i)
  {
    var added, rest := NewTables(ram, Child(owner[f], i), e), Rest(owner, f, i).Keys;
    assert added !! rest;
    assert owner.Keys == rest + Branch(owner, f, i);
  }

  /** `map_page` below a huge entry keeps the system if and only if the word it writes is in no
      directory, or puts there what was there before. So it never does when it hits a directory to
      map a frame that is no table. */
  lemma ShadowWriteKeepsSystemIff(s: System, k: Layout, avail: set<nat>, v: u64, phys: u64, flags: u64)
    requires Inv(s, k, avail) && InBootRegion(v) && !k.IsStatic(ShadowFrame(v))
    ensures var f, i, e := ShadowFrame(v), IndicesOf(v).pt, NewEntry(phys, OrPresent(flags));
            StillSystem(s, MapPage(s.ram, s.pool, k, v, phys, flags).ram, k, avail) <==>
            SparesDirectories(s.owner, v) || Relinks(s.ram, s.owner, f, i, e)
    ensures FrameOf(phys) !in s.owner ==>
              (StillSystem(s, MapPage(s.ram, s.pool, k, v, phys, flags).ram, k, avail) <==> SparesDirectories(s.owner, v))
  {
    hide MapPage, TreeAfter, NewEntry, FrameOf, OrPresent, Translate;
    var f, i, e := ShadowFrame(v), IndicesOf(v).pt, NewEntry(phys, OrPresent(flags));
    BootUpdates(s.ram, s.pool, k, v, phys, flags);
    LeafReads(phys, flags);
    if SparesDirectories(s.owner, v) {
      WordWrite(s, k, avail, f, i, e);
    } else {
      BootNames(s.ram, k, s.owner, f);
      DirectoryWriteKeepsSystemIff(s, k, avail, f, i, e);
    }
  }

  // ---------------------------------------------------------------- runs

  /** `t` is reached from `s` by the legal run `ops`. */
  ghost predicate Run(s: System, k: Layout, avail: set<nat>, ops: seq<Op>, t: System)
    requires Inv(s, k, avail)
    decreases |ops|
  {
    if ops == [] then t == s
    else
      Legal(s, ops[0]) &&
      (ApplyKeepsInv(s, k, avail, ops[0]);
       Run(Apply(s, k, avail, ops[0]), k, avail, ops[1..], t))
  }

  lemma {:induction false} RunAppend(s: System, k: Layout, avail: set<nat>, ops: seq<Op>, t: System,
                                     ops': seq<Op>, u: System)
    requires Inv(s, k, avail) && Inv(t, k, avail)
    requires Run(s, k, avail, ops, t) && Run(t, k, avail, ops', u)
    ensures Run(s, k, avail, ops + ops', u)
    decreases |ops|
  {
    hide Inv, Apply, Legal;
    if ops == [] {
      assert ops + ops' == ops';
    } else {
      ApplyKeepsInv(s, k, avail, ops[0]);
      RunAppend(Apply(s, k, avail, ops[0]), k, avail, ops[1..], t, ops', u);
      assert (ops + ops')[0] == ops[0] && (ops + ops')[1..] == ops[1..] + ops';
    }
  }

  lemma {:induction false} RunKeepsInv(s: System, k: Layout, avail: set<nat>, ops: seq<Op>, t: System)
    requires Inv(s, k, avail) && Run(s, k, avail, ops, t)
    ensures Inv(t, k, avail)
    decreases |ops|
  {
    if ops != [] {
      ApplyKeepsInv(s, k, avail, ops[0]);
      RunKeepsInv(Apply(s, k, avail, ops[0]), k, avail, ops[1..], t);
    }
  }

  lemma EmptyRun(s: System, k: Layout, avail: set<nat>)
    requires Inv(s, k, avail)
    ensures Run(s, k, avail, [], s)
  {
  }

  lemma RunOfOne(s: System, k: Layout, avail: set<nat>, op: Op)
    requires Inv(s, k, avail) && Legal(s, op)
    ensures Run(s, k, avail, [op], Apply(s, k, avail, op))
  {
    hide Inv, Apply, Legal;
    ApplyKeepsInv(s, k, avail, op);
    assert [op][1..] == [];
  }

  lemma RunOfTwo(s: System, k: Layout, avail: set<nat>, op: Op, op': Op)
    requires Inv(s, k, avail) && Legal(s, op)
    requires Inv(Apply(s, k, avail, op), k, avail) && Legal(Apply(s, k, avail, op), op')
    ensures Run(s, k, avail, [op, op'], Apply(Apply(s, k, avail, op), k, avail, op'))
  {
    hide Inv, Apply, Legal;
    var t := Apply(s, k, avail, op);
    ApplyKeepsInv(t, k, avail, op');
    assert [op, op'][1..] == [op'];
    assert [op'][1..] == [];
    assert Run(t, k, avail, [op'], Apply(t, k, avail, op'));
  }

  // ---------------------------------------------------------------- boot

  /** Memory after `init`: the boot entries, and nothing else in the static tables. */
  ghost predicate BootRam(ram: Ram, k: Layout) {
    && k.Valid() && BootEntries(ram, k)
    && (forall i | 0 < i < 511 :: ram[k.pml4][i] == 0)
    && (forall i | 4 <= i < ENTRIES :: ram[k.pdpt][i] == 0)
  }

  function BootOwners(k: Layout): Owners
    requires k.Valid()
  {
    map[k.pml4 := Root, k.pdpt := Pdpt(0), k.pd := Pd(0, 0),
        k.pd + 1 := Pd(0, 1), k.pd + 2 := Pd(0, 2), k.pd + 3 := Pd(0, 3)]
  }

  lemma BootNext(ram: Ram, k: Layout, f: Frame, i: Index)
    requires BootRam(ram, k) && k.IsStatic(f)
    ensures Next(ram, f, i) == if f == k.pml4 && (i == 0 || i == 511) then Some(k.pdpt)
                               else if f == k.pdpt && i < 4 then Some(k.pd + i)
                               else None
    ensures Present(ram[f][i]) && Huge(ram[f][i]) ==> k.pd <= f < k.pd + 4
  {
    if f == k.pml4 {
      LinkReads(k.pdpt);
    } else if f == k.pdpt {
      if i < 4 { LinkReads(k.pd + i); }
    } else {
      HugeReads(f - k.pd, i);
    }
  }

  lemma BootLinks(ram: Ram, k: Layout)
    requires BootRam(ram, k)
    ensures LinksNamed(ram, BootOwners(k)) && HugeOnlyAtBoot(ram, k, BootOwners(k))
  {
    var owner := BootOwners(k);
    forall f, i | f in owner && 0 <= i < ENTRIES
      ensures Next(ram, f, i).Some? ==>
                Next(ram, f, i).value in owner && owner[Next(ram, f, i).value] == Child(owner[f], i)
      ensures Present(ram[f][i]) && Huge(ram[f][i]) ==> k.pd <= f < k.pd + 4
    {
      BootNext(ram, k, f, i);
    }
  }

  lemma BootLookup(ram: Ram, k: Layout, f: Frame)
    requires BootRam(ram, k) && k.IsStatic(f)
    ensures Normal(BootOwners(k)[f]) && Lookup(ram, k, BootOwners(k)[f]) == Some(f)
  {
    BootNext(ram, k, k.pml4, 0);
    assert Lookup(ram, k, Pdpt(0)) == Some(k.pdpt);
    if k.pd <= f < k.pd + 4 { BootNext(ram, k, k.pdpt, f - k.pd); }
  }

  lemma BootTables(ram: Ram, k: Layout)
    requires BootRam(ram, k)
    ensures TablesOk(ram, k, BootOwners(k))
  {
    var owner := BootOwners(k);
    BootLinks(ram, k);
    forall f | f in owner ensures Normal(owner[f]) && Lookup(ram, k, owner[f]) == Some(f) {
      BootLookup(ram, k, f);
    }
  }

  /** After `init`, `translate` is `v mod 2^39` exactly when the PML4 index is 0 or 511 and that
      value is below 4 GiB, and None everywhere else. */
  lemma BootTranslations(ram: Ram, k: Layout, v: u64)
    requires BootRam(ram, k)
    ensures Translate(ram, k, v) ==
            if (IndicesOf(v).pml4 == 0 || IndicesOf(v).pml4 == 511) && v % 0x80_0000_0000 < 0x1_0000_0000
            then Some(v % 0x80_0000_0000) else None
  {
    BootRegionIsLow4GiB(v);
    if InBootRegion(v) {
      BootRegionIdentity(ram, k, v);
    } else {
      BootTables(ram, k);
      TranslateByName(ram, k, BootOwners(k), v);
      NoBootPageTable(ram, k, v);
    }
  }

  lemma NoBootPageTable(ram: Ram, k: Layout, v: u64)
    requires BootRam(ram, k) && !InBootRegion(v)
    ensures Lookup(ram, k, PtName(v)).None?
  {
    var ix := IndicesOf(v);
    var a := Norm(ix.pml4);
    BootNext(ram, k, k.pml4, a);
    if a == 0 {
      BootNext(ram, k, k.pdpt, ix.pdpt);
      assert Lookup(ram, k, Pd(a, ix.pdpt)).None?;
    } else {
      assert Lookup(ram, k, Pdpt(a)).None?;
      assert Lookup(ram, k, Pd(a, ix.pdpt)).None?;
    }
  }

  /** The system as the kernel brings it up. The frames of the static tables must not be in the
      pool: the allocator itself does not reserve the kernel image. */
  ghost function BootSystem(ram: Ram, k: Layout, pool: Pool): (s: System)
    requires BootRam(ram, k) && pool.Valid()
    requires forall f: Frame | f in pool.free :: !k.IsStatic(f)
    ensures Inv(s, k, pool.free)
  {
    BootRefines(ram, k, pool);
    System(ram, pool, {}, BootOwners(k), map[])
  }

  lemma BootRefines(ram: Ram, k: Layout, pool: Pool)
    requires BootRam(ram, k) && pool.Valid()
    requires forall f: Frame | f in pool.free :: !k.IsStatic(f)
    ensures SpaceOk(ram, pool, k, BootOwners(k)) && Refines(ram, k, map[])
  {
    BootTables(ram, k);
    forall p | p in pool.free ensures p !in BootOwners(k) {
      assert p < FRAMES && !k.IsStatic(p);
    }
    forall v: u64 ensures Translate(ram, k, v) == Expected(map[], v) {
      BootTranslations(ram, k, v);
      BootRegionIsLow4GiB(v);
    }
  }

  // ---------------------------------------------------------------- what every run keeps

  function TableFrames(s: System, k: Layout): set<nat> {
    set f | f in s.owner && !k.IsStatic(f)
  }

  /** Safety over whole runs from boot: the address space is the fold of the successful updates,
      and every frame that was free at boot is still exactly one of free, held by a client, or a
      page table. So no frame is handed out twice and a drawn frame is never a live table. */
  lemma RunsFromBoot(ram: Ram, k: Layout, pool: Pool, ops: seq<Op>, t: System)
    requires BootRam(ram, k) && pool.Valid()
    requires forall f: Frame | f in pool.free :: !k.IsStatic(f)
    requires Run(BootSystem(ram, k, pool), k, pool.free, ops, t)
    ensures forall v: u64 :: Translate(t.ram, k, v) == Expected(t.view, v)
    ensures t.pool.Valid() && |t.pool.free| <= t.pool.totalPages
    ensures t.pool.free + t.held + TableFrames(t, k) == pool.free
    ensures |t.pool.free| + |t.held| + |TableFrames(t, k)| == |pool.free|
    ensures Alloc(t.pool).page.None? <==> t.held + TableFrames(t, k) == pool.free
  {
    RunKeepsInv(BootSystem(ram, k, pool), k, pool.free, ops, t);
    FramesPartitioned(t, k, pool.free);
    FreeBelowTotal(t.pool);
    AllocTakesOne(t.pool);
  }

  lemma FramesPartitioned(s: System, k: Layout, avail: set<nat>)
    requires Inv(s, k, avail)
    ensures s.pool.free !! s.held !! TableFrames(s, k)
    ensures s.pool.free + s.held + TableFrames(s, k) == avail
    ensures |s.pool.free| + |s.held| + |TableFrames(s, k)| == |avail|
  {
    var tables := TableFrames(s, k);
    assert s.pool.free !! s.held && (s.pool.free + s.held) !! tables;
    assert s.pool.free + s.held + tables == avail;
  }

  /** Walking tables by physical pointer is sound in every reachable state: each table frame lies
      in the region that the page tables themselves map to itself. */
  lemma TablePointersAreIdentity(s: System, k: Layout, avail: set<nat>, f: Frame, offset: nat)
    requires Inv(s, k, avail) && f in s.owner && offset < PAGE_SIZE
    requires k.pml4 < MAX_PAGES && k.pdpt < MAX_PAGES && k.pd + 4 <= MAX_PAGES
    ensures Translate(s.ram, k, f * PAGE_SIZE + offset) == Some(f * PAGE_SIZE + offset)
  {
    var v: u64 := f * PAGE_SIZE + offset;
    assert f < MAX_PAGES;
    BootRegionIsLow4GiB(v);
    assert v % 0x80_0000_0000 == v;
    assert v / 0x80_0000_0000 == 0;
    BootRegionIdentity(s.ram, k, v);
  }

  /** Every live table but the root hangs below exactly one entry of a live table one level up;
      KPDPT below exactly two, PML4 slots 0 and 511. */
  lemma EveryTableHasItsParent(s: System, k: Layout, avail: set<nat>, f: Frame) returns (g: Frame, i: Index)
    requires Inv(s, k, avail) && f in s.owner && f != k.pml4
    ensures g in s.owner && !s.owner[g].Pt? && Next(s.ram, g, i) == Some(f) && s.owner[f] == Child(s.owner[g], i)
    ensures forall h, j: Index | h in s.owner && !s.owner[h].Pt? && Next(s.ram, h, j) == Some(f) ::
              h == g && (j == i || (f == k.pdpt && {i, j} == {0, 511}))
    ensures f == k.pdpt ==> g == k.pml4 && Next(s.ram, k.pml4, 0) == Some(f) && Next(s.ram, k.pml4, 511) == Some(f)
  {
    g, i := ParentEntry(s, k, avail, f);
    forall h, j: Index | h in s.owner && !s.owner[h].Pt? && Next(s.ram, h, j) == Some(f)
      ensures h == g && (j == i || (f == k.pdpt && {i, j} == {0, 511}))
    {
      OneParentEntry(s.ram, k, s.owner, g, i, h, j);
    }
    LinkReads(k.pdpt);
    if f == k.pdpt { OneParentEntry(s.ram, k, s.owner, g, i, k.pml4, 0); }
  }

  lemma ParentEntry(s: System, k: Layout, avail: set<nat>, f: Frame) returns (g: Frame, i: Index)
    requires Inv(s, k, avail) && f in s.owner && f != k.pml4
    ensures g in s.owner && !s.owner[g].Pt? && Next(s.ram, g, i) == Some(f) && s.owner[f] == Child(s.owner[g], i)
  {
    NameFindsTable(s.ram, k, s.owner, f);
    var n := s.owner[f];
    match n
    case Pdpt(a) => g, i := k.pml4, a;
    case Pd(a, b) =>
      LookupOwned(s.ram, k, s.owner, Pdpt(a));
      g, i := Lookup(s.ram, k, Pdpt(a)).value, b;
    case Pt(a, b, c) =>
      LookupOwned(s.ram, k, s.owner, Pd(a, b));
      g, i := Lookup(s.ram, k, Pd(a, b)).value, c;
    case Root =>
      assert false;
  }
}
