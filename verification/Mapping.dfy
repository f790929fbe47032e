/** `map_page` and `unmap_page` refine updates of a map from virtual pages to frames. */
module Mapping {
  import opened Words
  import opened FramePool
  import opened PageTables
  import opened TableOwnership
  import Bits
  import EntryBits

  /** Tables are consistent and no table frame is in the free pool. */
  ghost predicate SpaceOk(ram: Ram, pool: Pool, k: Layout, owner: Owners) {
    && TablesOk(ram, k, owner)
    && pool.Valid()
    && forall p | p in pool.free :: p !in owner
  }

  ghost predicate SameTranslations(ram: Ram, ram': Ram, k: Layout) {
    forall v: u64 :: Translate(ram', k, v) == Translate(ram, k, v)
  }

  /** The names after one level of `map_page`: a drawn frame becomes the table below slot (f, i). */
  ghost function Adopted(ram: Ram, pool: Pool, owner: Owners, f: Frame, i: Index): Owners
    requires pool.Valid() && f in owner && !owner[f].Pt?
  {
    AllocTakesOne(pool);
    if Present(ram[f][i]) || Alloc(pool).page.None? then owner
    else owner[Alloc(pool).page.value := Child(owner[f], i)]
  }

  /** `owner'` extends `owner` by exactly the frames that left the pool. */
  ghost predicate Grew(pool: Pool, pool': Pool, owner: Owners, owner': Owners) {
    && owner.Keys <= owner'.Keys
    && (forall f | f in owner :: owner'[f] == owner[f])
    && pool'.free == pool.free - owner'.Keys
    && owner'.Keys - owner.Keys <= pool.free
    && pool'.totalPages == pool.totalPages
  }

  /** State reached from (ram, pool, owner) by entering tables: consistent, with every translation
      as before, and on success standing in the table called `name`. */
  ghost predicate Stage(ram: Ram, pool: Pool, k: Layout, owner: Owners, r: Entered, owner': Owners, name: Name) {
    && SpaceOk(r.ram, r.pool, k, owner')
    && SameTranslations(ram, r.ram, k)
    && Grew(pool, r.pool, owner, owner')
    && |owner'| + |r.pool.free| == |owner| + |pool.free|
    && (r.next.Err? ==> r.pool.free == {})
    && (r.next.Ok? ==> r.next.value in owner' && owner'[r.next.value] == name)
  }

  lemma EnterTableOk(ram: Ram, pool: Pool, k: Layout, owner: Owners, f: Frame, i: Index, error: MapError)
    requires SpaceOk(ram, pool, k, owner) && f in owner && !owner[f].Pt?
    requires !(Present(ram[f][i]) && Huge(ram[f][i]))
    ensures var r := EnterTable(ram, pool, f, i, error);
            && Stage(ram, pool, k, owner, r, Adopted(ram, pool, owner, f, i), Child(owner[f], i))
            && |Adopted(ram, pool, owner, f, i)| <= |owner| + 1
            && (r.next.Err? ==> r.ram == ram && r.pool == pool && r.next.error == error)
  {
    if Present(ram[f][i]) {
      NextOwned(ram, k, owner, f, i);
    } else {
      AllocTakesOne(pool);
      if Alloc(pool).page.Some? { EnterFreshTable(ram, pool, k, owner, f, i, error); }
    }
  }

  lemma EnterFreshTable(ram: Ram, pool: Pool, k: Layout, owner: Owners, f: Frame, i: Index, error: MapError)
    requires SpaceOk(ram, pool, k, owner) && f in owner && !owner[f].Pt?
    requires !Present(ram[f][i]) && Alloc(pool).page.Some?
    ensures Stage(ram, pool, k, owner, EnterTable(ram, pool, f, i, error), Adopted(ram, pool, owner, f, i), Child(owner[f], i))
    ensures EnterTable(ram, pool, f, i, error).next.Ok?
    ensures |Adopted(ram, pool, owner, f, i)| <= |owner| + 1
  {
    hide Translate, EnterTable, Linked, Alloc, Grew;
    AllocTakesOne(pool);
    var c: Frame := Alloc(pool).page.value;
    AdoptionGrows(pool, Alloc(pool).pool, owner, c, Child(owner[f], i));
    EnterTableLinks(ram, pool, f, i, error);
    LinkKeepsTables(ram, k, owner, f, i, c);
    LinkIsInvisible(ram, k, owner, f, i, c);
  }

  lemma AdoptionGrows(pool: Pool, pool': Pool, owner: Owners, c: Frame, name: Name)
    requires c in pool.free && pool'.free == pool.free - {c} && pool'.totalPages == pool.totalPages
    requires forall p | p in pool.free :: p !in owner
    ensures Grew(pool, pool', owner, owner[c := name])
    ensures |owner[c := name]| == |owner| + 1 && |pool'.free| == |pool.free| - 1
    ensures forall p | p in pool'.free :: p !in owner[c := name]
  {
    var owner' := owner[c := name];
    assert owner'.Keys == owner.Keys + {c};
    assert pool'.free == pool.free - owner'.Keys;
  }

  lemma EnterTableLinks(ram: Ram, pool: Pool, f: Frame, i: Index, error: MapError)
    requires pool.Valid() && f !in pool.free && !Present(ram[f][i]) && Alloc(pool).page.Some?
    ensures Alloc(pool).page.value < FRAMES
    ensures EnterTable(ram, pool, f, i, error)
         == Entered(Linked(ram, f, i, Alloc(pool).page.value), Alloc(pool).pool, Ok(Alloc(pool).page.value))
  {
    AllocTakesOne(pool);
    LinkReads(Alloc(pool).page.value);
  }

  lemma GrewTwice(p: Pool, q: Pool, r: Pool, a: Owners, b: Owners, c: Owners)
    requires Grew(p, q, a, b) && Grew(q, r, b, c)
    ensures Grew(p, r, a, c)
  {
    forall f | f in c && f !in a ensures f in p.free {
      if f !in b { assert f in c.Keys - b.Keys; } else { assert f in b.Keys - a.Keys; }
    }
  }

  lemma StageThen(ram: Ram, pool: Pool, k: Layout, owner: Owners, r: Entered, owner': Owners, name: Name,
                  s: Entered, owner'': Owners, name': Name)
    requires Stage(ram, pool, k, owner, r, owner', name)
    requires Stage(r.ram, r.pool, k, owner', s, owner'', name')
    ensures Stage(ram, pool, k, owner, s, owner'', name')
  {
    GrewTwice(pool, r.pool, s.pool, owner, owner', owner'');
  }

  lemma RootSlot(ram: Ram, k: Layout, owner: Owners, i: Index)
    requires TablesOk(ram, k, owner)
    ensures k.pml4 in owner && owner[k.pml4] == Root && !(Present(ram[k.pml4][i]) && Huge(ram[k.pml4][i]))
  {
    NextOwned(ram, k, owner, k.pml4, i);
  }

  /** Outside the boot region no directory entry is huge. */
  lemma DirectorySlot(ram: Ram, k: Layout, owner: Owners, f: Frame, i: Index, virt: u64)
    requires TablesOk(ram, k, owner) && !InBootRegion(virt) && f in owner
    requires || (owner[f] == Pdpt(Norm(IndicesOf(virt).pml4)) && i == IndicesOf(virt).pdpt)
             || owner[f] == Pd(Norm(IndicesOf(virt).pml4), IndicesOf(virt).pdpt)
    ensures !(Present(ram[f][i]) && Huge(ram[f][i]))
  {
    NextOwned(ram, k, owner, f, i);
  }

  /** The tables named after `map_page`. */
  ghost function OwnersAfterMap(ram: Ram, pool: Pool, k: Layout, owner: Owners, virt: u64): Owners
    requires SpaceOk(ram, pool, k, owner) && !InBootRegion(virt)
  {
    var ix := IndicesOf(virt);
    RootSlot(ram, k, owner, ix.pml4);
    EnterTableOk(ram, pool, k, owner, k.pml4, ix.pml4, NoPdptFrame);
    var a := EnterTable(ram, pool, k.pml4, ix.pml4, NoPdptFrame);
    var ownerA := Adopted(ram, pool, owner, k.pml4, ix.pml4);
    if a.next.Err? then ownerA else
    DirectorySlot(a.ram, k, ownerA, a.next.value, ix.pdpt, virt);
    EnterTableOk(a.ram, a.pool, k, ownerA, a.next.value, ix.pdpt, NoPdFrame);
    var b := EnterTable(a.ram, a.pool, a.next.value, ix.pdpt, NoPdFrame);
    var ownerB := Adopted(a.ram, a.pool, ownerA, a.next.value, ix.pdpt);
    if b.next.Err? then ownerB else
    Adopted(b.ram, b.pool, ownerB, b.next.value, ix.pd)
  }

  /** Entering all three levels draws at most three frames and changes no translation. */
  lemma EnterPageTableOk(ram: Ram, pool: Pool, k: Layout, owner: Owners, virt: u64)
    requires SpaceOk(ram, pool, k, owner) && !InBootRegion(virt)
    ensures var owner' := OwnersAfterMap(ram, pool, k, owner, virt);
            && Stage(ram, pool, k, owner, EnterPageTable(ram, pool, k, virt), owner', PtName(virt))
            && |owner'| <= |owner| + 3
  {
    var ix := IndicesOf(virt);
    RootSlot(ram, k, owner, ix.pml4);
    EnterTableOk(ram, pool, k, owner, k.pml4, ix.pml4, NoPdptFrame);
    var a := EnterTable(ram, pool, k.pml4, ix.pml4, NoPdptFrame);
    var ownerA := Adopted(ram, pool, owner, k.pml4, ix.pml4);
    if a.next.Ok? {
      DirectorySlot(a.ram, k, ownerA, a.next.value, ix.pdpt, virt);
      EnterTableOk(a.ram, a.pool, k, ownerA, a.next.value, ix.pdpt, NoPdFrame);
      var b := EnterTable(a.ram, a.pool, a.next.value, ix.pdpt, NoPdFrame);
      var ownerB := Adopted(a.ram, a.pool, ownerA, a.next.value, ix.pdpt);
      var pdpt, pd := Pdpt(Norm(ix.pml4)), Pd(Norm(ix.pml4), ix.pdpt);
      StageThen(ram, pool, k, owner, a, ownerA, pdpt, b, ownerB, pd);
      if b.next.Ok? {
        DirectorySlot(b.ram, k, ownerB, b.next.value, ix.pd, virt);
        LastLevel(ram, pool, k, owner, b, ownerB, virt);
      }
    }
  }

  lemma LastLevel(ram: Ram, pool: Pool, k: Layout, owner: Owners, b: Entered, ownerB: Owners, virt: u64)
    requires b.next.Ok? && !InBootRegion(virt)
    requires Stage(ram, pool, k, owner, b, ownerB, Pd(Norm(IndicesOf(virt).pml4), IndicesOf(virt).pdpt))
    ensures var i := IndicesOf(virt).pd;
            var c := EnterTable(b.ram, b.pool, b.next.value, i, NoPtFrame);
            var ownerC := Adopted(b.ram, b.pool, ownerB, b.next.value, i);
            Stage(ram, pool, k, owner, c, ownerC, PtName(virt)) && |ownerC| <= |ownerB| + 1
  {
    var i := IndicesOf(virt).pd;
    DirectorySlot(b.ram, k, ownerB, b.next.value, i, virt);
    EnterTableOk(b.ram, b.pool, k, ownerB, b.next.value, i, NoPtFrame);
    StageThen(ram, pool, k, owner, b, ownerB, ownerB[b.next.value],
              EnterTable(b.ram, b.pool, b.next.value, i, NoPtFrame),
              Adopted(b.ram, b.pool, ownerB, b.next.value, i), PtName(virt));
  }

  /** The update of the address space that a successful `map_page` stands for. */
  ghost predicate TranslatesAfterMap(ram: Ram, ram': Ram, k: Layout, virt: u64, phys: u64) {
    forall w: u64 :: Translate(ram', k, w) ==
      if SamePage(virt, w) then Some(Addr(phys) + w % PAGE_SIZE) else Translate(ram, k, w)
  }

  /** `map_page` refines a map update. On success the page and its alias translate to the masked
      frame and nothing else changes; on any failure no translation changes. Either way the frames
      drawn are exactly the tables linked, at most three. */
  lemma MapRefines(ram: Ram, pool: Pool, k: Layout, owner: Owners, virt: u64, phys: u64, flags: u64)
    requires SpaceOk(ram, pool, k, owner) && !InBootRegion(virt)
    ensures var m := MapPage(ram, pool, k, virt, phys, flags);
            var owner' := OwnersAfterMap(ram, pool, k, owner, virt);
            && SpaceOk(m.ram, m.pool, k, owner')
            && Grew(pool, m.pool, owner, owner')
            && |owner'| <= |owner| + 3 && |owner'| + |m.pool.free| == |owner| + |pool.free|
            && (m.result.Err? ==> m.pool.free == {} && SameTranslations(ram, m.ram, k))
            && (m.result.Ok? ==> TranslatesAfterMap(ram, m.ram, k, virt, phys))
  {
    EnterPageTableOk(ram, pool, k, owner, virt);
    var c := EnterPageTable(ram, pool, k, virt);
    var owner' := OwnersAfterMap(ram, pool, k, owner, virt);
    if c.next.Ok? {
      LeafStage(ram, c.ram, k, owner', virt, c.next.value, phys, flags);
    }
  }

  lemma LeafStage(ram: Ram, ram': Ram, k: Layout, owner: Owners, virt: u64, t: Frame, phys: u64, flags: u64)
    requires SameTranslations(ram, ram', k) && TablesOk(ram', k, owner) && !InBootRegion(virt)
    requires t in owner && owner[t] == PtName(virt)
    ensures var ram'' := Put(ram', t, IndicesOf(virt).pt, NewEntry(phys, OrPresent(flags)));
            TablesOk(ram'', k, owner) && TranslatesAfterMap(ram, ram'', k, virt, phys)
  {
    LeafReads(phys, flags);
    LeafWrite(ram', k, owner, virt, t, NewEntry(phys, OrPresent(flags)));
  }

  // ---------------------------------------------------------------- when mapping fails, and how

  /** Levels missing above the leaf entry of `virt`. */
  function MissingLevels(ram: Ram, k: Layout, virt: u64): nat {
    var ix := IndicesOf(virt);
    var pml4e := ram[k.pml4][ix.pml4];
    if !Present(pml4e) then 3 else
    var pdpte := ram[FrameOf(pml4e)][ix.pdpt];
    if !Present(pdpte) then 2 else
    var pde := ram[FrameOf(pdpte)][ix.pd];
    if !Present(pde) then 1 else 0
  }

  lemma EnterTableCases(ram: Ram, pool: Pool, f: Frame, i: Index, error: MapError)
    requires pool.Valid() && f !in pool.free
    ensures var r := EnterTable(ram, pool, f, i, error);
            if Present(ram[f][i]) then r == Entered(ram, pool, Ok(FrameOf(ram[f][i])))
            else if pool.free == {} then r == Entered(ram, pool, Err(error))
            else && r.next.Ok? && r.next.value in pool.free && r.next.value !in r.pool.free
                 && r.ram[r.next.value] == ZeroTable() && |r.pool.free| == |pool.free| - 1
  {
    AllocTakesOne(pool);
    if !Present(ram[f][i]) && pool.free != {} {
      var c: Frame := Alloc(pool).page.value;
      LinkReads(c);
      assert Put(ram, f, i, LinkTo(c))[f][i] == LinkTo(c);
    }
  }

  /** A new table is empty, so every level below it is missing too. */
  lemma EnterAbsent(ram: Ram, pool: Pool, f: Frame, i: Index, error: MapError, j: Index)
    requires pool.Valid() && f !in pool.free && !Present(ram[f][i]) && pool.free != {}
    ensures var r := EnterTable(ram, pool, f, i, error);
            && r.next.Ok? && r.next.value !in r.pool.free && |r.pool.free| == |pool.free| - 1
            && !Present(r.ram[r.next.value][j])
  {
    EnterTableCases(ram, pool, f, i, error);
  }

  /** `map_page` succeeds exactly when the pool covers the missing levels, and draws one frame for
      each of them as far as the pool goes. */
  lemma MapDrawsMissing(ram: Ram, pool: Pool, k: Layout, owner: Owners, virt: u64, phys: u64, flags: u64)
    requires SpaceOk(ram, pool, k, owner) && !InBootRegion(virt)
    ensures var m := MapPage(ram, pool, k, virt, phys, flags);
            var missing := MissingLevels(ram, k, virt);
            && (m.result.Ok? <==> missing <= |pool.free|)
            && |m.pool.free| == |pool.free| - Min(missing, |pool.free|)
  {
    var ix := IndicesOf(virt);
    EnterTableCases(ram, pool, k.pml4, ix.pml4, NoPdptFrame);
    if Present(ram[k.pml4][ix.pml4]) {
      NextOwned(ram, k, owner, k.pml4, ix.pml4);
      var f3 := FrameOf(ram[k.pml4][ix.pml4]);
      EnterTableCases(ram, pool, f3, ix.pdpt, NoPdFrame);
      if Present(ram[f3][ix.pdpt]) {
        NextOwned(ram, k, owner, f3, ix.pdpt);
        EnterTableCases(ram, pool, FrameOf(ram[f3][ix.pdpt]), ix.pd, NoPtFrame);
      } else if pool.free != {} {
        DrawsLastTwo(ram, pool, f3, ix);
      }
    } else if pool.free != {} {
      EnterAbsent(ram, pool, k.pml4, ix.pml4, NoPdptFrame, ix.pdpt);
      var a := EnterTable(ram, pool, k.pml4, ix.pml4, NoPdptFrame);
      EnterTableCases(a.ram, a.pool, a.next.value, ix.pdpt, NoPdFrame);
      if a.pool.free != {} { DrawsLastTwo(a.ram, a.pool, a.next.value, ix); }
    }
  }

  lemma DrawsLastTwo(ram: Ram, pool: Pool, f: Frame, ix: Indices)
    requires pool.Valid() && f !in pool.free && pool.free != {} && !Present(ram[f][ix.pdpt])
    ensures var b := EnterTable(ram, pool, f, ix.pdpt, NoPdFrame);
            && b.next.Ok? && |b.pool.free| == |pool.free| - 1
            && var c := EnterTable(b.ram, b.pool, b.next.value, ix.pd, NoPtFrame);
               && (c.next.Ok? <==> |pool.free| >= 2)
               && |c.pool.free| == |pool.free| - Min(2, |pool.free|)
  {
    EnterAbsent(ram, pool, f, ix.pdpt, NoPdFrame, ix.pd);
    var b := EnterTable(ram, pool, f, ix.pdpt, NoPdFrame);
    EnterTableCases(b.ram, b.pool, b.next.value, ix.pd, NoPtFrame);
  }

  /** The error names the level that stays missing: `unmap_page` stops at the same place. */
  lemma MapErrorNamesLevel(ram: Ram, pool: Pool, k: Layout, owner: Owners, virt: u64, phys: u64, flags: u64)
    requires SpaceOk(ram, pool, k, owner) && !InBootRegion(virt)
    ensures var m := MapPage(ram, pool, k, virt, phys, flags);
            m.result.Err? ==>
              UnmapPage(m.ram, k, virt).result == Err(match m.result.error
                                                      case NoPdptFrame => NoPml4Entry
                                                      case NoPdFrame => NoPdptEntry
                                                      case NoPtFrame => NoPdEntry)
  {
    hide EnterTable;
    var ix := IndicesOf(virt);
    RootSlot(ram, k, owner, ix.pml4);
    EnterTableOk(ram, pool, k, owner, k.pml4, ix.pml4, NoPdptFrame);
    var a := EnterTable(ram, pool, k.pml4, ix.pml4, NoPdptFrame);
    if a.next.Err? {
      FailedSlot(ram, pool, k.pml4, ix.pml4, NoPdptFrame);
    } else {
      var ownerA := Adopted(ram, pool, owner, k.pml4, ix.pml4);
      DirectorySlot(a.ram, k, ownerA, a.next.value, ix.pdpt, virt);
      EnterTableOk(a.ram, a.pool, k, ownerA, a.next.value, ix.pdpt, NoPdFrame);
      var b := EnterTable(a.ram, a.pool, a.next.value, ix.pdpt, NoPdFrame);
      if b.next.Err? {
        FailedSlot(a.ram, a.pool, a.next.value, ix.pdpt, NoPdFrame);
        UnmapStopsAtPdpt(a.ram, k, ownerA, virt, a.next.value);
      } else {
        var ownerB := Adopted(a.ram, a.pool, ownerA, a.next.value, ix.pdpt);
        DirectorySlot(b.ram, k, ownerB, b.next.value, ix.pd, virt);
        EnterTableOk(b.ram, b.pool, k, ownerB, b.next.value, ix.pd, NoPtFrame);
        if EnterTable(b.ram, b.pool, b.next.value, ix.pd, NoPtFrame).next.Err? {
          FailedSlot(b.ram, b.pool, b.next.value, ix.pd, NoPtFrame);
          UnmapStopsAtPd(b.ram, k, ownerB, virt, b.next.value);
        }
      }
    }
  }

  lemma FailedSlot(ram: Ram, pool: Pool, f: Frame, i: Index, error: MapError)
    requires pool.Valid() && EnterTable(ram, pool, f, i, error).next.Err?
    ensures !Present(ram[f][i])
  {
  }

  lemma UnmapStopsAtPdpt(ram: Ram, k: Layout, owner: Owners, virt: u64, pdpt: Frame)
    requires TablesOk(ram, k, owner) && pdpt in owner && owner[pdpt] == Pdpt(Norm(IndicesOf(virt).pml4))
    requires !Present(ram[pdpt][IndicesOf(virt).pdpt])
    ensures UnmapPage(ram, k, virt).result == Err(NoPdptEntry)
  {
    hide FrameOf;
    var ix := IndicesOf(virt);
    NameFindsTable(ram, k, owner, pdpt);
    assert Next(ram, k.pml4, Norm(ix.pml4)) == Some(pdpt);
    assert ram[k.pml4][ix.pml4] == ram[k.pml4][Norm(ix.pml4)];
  }

  lemma UnmapStopsAtPd(ram: Ram, k: Layout, owner: Owners, virt: u64, pd: Frame)
    requires TablesOk(ram, k, owner) && pd in owner
    requires owner[pd] == Pd(Norm(IndicesOf(virt).pml4), IndicesOf(virt).pdpt)
    requires !Present(ram[pd][IndicesOf(virt).pd])
    ensures UnmapPage(ram, k, virt).result == Err(NoPdEntry)
  {
    hide FrameOf;
    var ix := IndicesOf(virt);
    NameFindsTable(ram, k, owner, pd);
    var pdpt := Lookup(ram, k, Pdpt(Norm(ix.pml4))).value;
    assert Next(ram, k.pml4, Norm(ix.pml4)) == Some(pdpt);
    assert ram[k.pml4][ix.pml4] == ram[k.pml4][Norm(ix.pml4)];
    assert Next(ram, pdpt, ix.pdpt) == Some(pd);
  }

  /** Mapping under an empty PML4 slot draws three frames in turn and makes them the tables of the
      page, from the top down. */
  lemma DrawsBecomeTables(ram: Ram, pool: Pool, k: Layout, owner: Owners, virt: u64, phys: u64, flags: u64,
                          p1: nat, p2: nat, p3: nat, pool1: Pool, pool2: Pool, pool3: Pool)
    requires SpaceOk(ram, pool, k, owner) && !InBootRegion(virt) && !Present(ram[k.pml4][IndicesOf(virt).pml4])
    requires Alloc(pool) == Allocation(pool1, Some(p1))
    requires Alloc(pool1) == Allocation(pool2, Some(p2))
    requires Alloc(pool2) == Allocation(pool3, Some(p3))
    ensures MapPage(ram, pool, k, virt, phys, flags).result.Ok?
    ensures var owner' := OwnersAfterMap(ram, pool, k, owner, virt);
            && p2 < FRAMES && p2 in owner' && owner'[p2] == Pd(Norm(IndicesOf(virt).pml4), IndicesOf(virt).pdpt)
            && p3 < FRAMES && p3 in owner' && owner'[p3] == PtName(virt)
    ensures MapPage(ram, pool, k, virt, phys, flags).pool == pool3
  {
    hide Alloc, EnterTable, Present, Translate, TablesOk;
    var ix := IndicesOf(virt);
    AllocTakesOne(pool);
    AllocTakesOne(pool1);
    AllocTakesOne(pool2);
    RootSlot(ram, k, owner, ix.pml4);
    EnterTableLinks(ram, pool, k.pml4, ix.pml4, NoPdptFrame);
    var a := Linked(ram, k.pml4, ix.pml4, p1);
    EmptyTable(ram, k.pml4, ix.pml4, p1, ix.pdpt);
    EnterTableLinks(a, pool1, p1, ix.pdpt, NoPdFrame);
    var b := Linked(a, p1, ix.pdpt, p2);
    EmptyTable(a, p1, ix.pdpt, p2, ix.pd);
    EnterTableLinks(b, pool2, p2, ix.pd, NoPtFrame);
    EnterPageTableOk(ram, pool, k, owner, virt);
  }

  lemma EmptyTable(ram: Ram, f: Frame, i: Index, c: Frame, j: Index)
    ensures !Present(Linked(ram, f, i, c)[c][j])
  {
  }

  /** The leaf word, bit by bit: PRESENT, the caller's flags, the frame, and nothing else. */
  lemma MapStoresFlags(ram: Ram, pool: Pool, k: Layout, owner: Owners, virt: u64, phys: u64, flags: u64)
    requires SpaceOk(ram, pool, k, owner) && !InBootRegion(virt)
    requires MapPage(ram, pool, k, virt, phys, flags).result.Ok?
    ensures var m := MapPage(ram, pool, k, virt, phys, flags);
            var t := Lookup(m.ram, k, PtName(virt));
            && t.Some?
            && FrameOf(m.ram[t.value][IndicesOf(virt).pt]) == FrameOf(phys)
            && forall j: nat | j < 64 ::
                 Bits.Bit(m.ram[t.value][IndicesOf(virt).pt], j) ==
                 (j == 0 || if 12 <= j < 52 then Bits.Bit(phys, j) else (j < 12 || j == 63) && Bits.Bit(flags, j))
  {
    hide EnterPageTable, Flags, FrameOf, NewEntry, OrPresent, Bits.Bit;
    EnterPageTableOk(ram, pool, k, owner, virt);
    var c := EnterPageTable(ram, pool, k, virt);
    var owner' := OwnersAfterMap(ram, pool, k, owner, virt);
    var t := c.next.value;
    var ram' := Put(c.ram, t, IndicesOf(virt).pt, NewEntry(phys, OrPresent(flags)));
    NameFindsTable(c.ram, k, owner', t);
    LookupKept(c.ram, ram', k, owner', PtName(virt));
    NewEntryReads(phys, OrPresent(flags));
    forall j: nat | j < 64
      ensures Bits.Bit(NewEntry(phys, OrPresent(flags)), j) ==
              (j == 0 || if 12 <= j < 52 then Bits.Bit(phys, j) else (j < 12 || j == 63) && Bits.Bit(flags, j))
    {
      EntryBits.NewEntryBits(phys, OrPresent(flags), j);
      EntryBits.OrPresentBits(flags, j);
    }
  }

  // ---------------------------------------------------------------- unmap

  ghost predicate TranslatesAfterUnmap(ram: Ram, ram': Ram, k: Layout, virt: u64) {
    forall w: u64 :: Translate(ram', k, w) == if SamePage(virt, w) then None else Translate(ram, k, w)
  }

  /** `unmap_page` outside the boot region succeeds exactly on a mapped page, returns its frame
      address, and removes that page and its alias from the translation. */
  lemma UnmapRefines(ram: Ram, k: Layout, owner: Owners, virt: u64)
    requires TablesOk(ram, k, owner) && !InBootRegion(virt)
    ensures var u := UnmapPage(ram, k, virt);
            && TablesOk(u.ram, k, owner)
            && (forall f: Frame | f !in owner :: u.ram[f] == ram[f])
            && (u.result.Ok? <==> Translate(ram, k, virt).Some?)
            && (u.result.Ok? ==> Translate(ram, k, virt) == Some(u.result.value + virt % PAGE_SIZE)
                                 && Addr(u.result.value) == u.result.value)
            && (u.result.Err? ==> u.ram == ram)
            && TranslatesAfterUnmap(ram, u.ram, k, virt)
  {
    UnmapReadsLeaf(ram, k, owner, virt);
    TranslateByName(ram, k, owner, virt);
    if UnmapPage(ram, k, virt).result.Ok? {
      var t := Lookup(ram, k, PtName(virt)).value;
      AddrOfAddr(ram[t][IndicesOf(virt).pt]);
      ClearLeaf(ram, k, owner, virt, t);
    } else {
      UnmapAbsent(ram, k, owner, virt);
    }
  }

  lemma UnmapReadsLeaf(ram: Ram, k: Layout, owner: Owners, v: u64)
    requires TablesOk(ram, k, owner) && !InBootRegion(v)
    ensures var u := UnmapPage(ram, k, v);
            var t := Lookup(ram, k, PtName(v));
            match u.result
            case Ok(phys) => && t.Some? && t.value in owner && owner[t.value] == PtName(v)
                             && u.ram == Put(ram, t.value, IndicesOf(v).pt, 0)
                             && phys == Addr(ram[t.value][IndicesOf(v).pt])
                             && LeafAt(ram, k, v) == Some(phys + v % PAGE_SIZE)
            case Err(_) => u.ram == ram && LeafAt(ram, k, v) == None
  {
    hide TablesOk, Present, FrameOf, UnmapPage, Lookup;
    LookupOwned(ram, k, owner, PtName(v));
    UnmapByName(ram, k, owner, v);
  }

  lemma UnmapAbsent(ram: Ram, k: Layout, owner: Owners, virt: u64)
    requires TablesOk(ram, k, owner) && !InBootRegion(virt) && Translate(ram, k, virt).None?
    ensures TranslatesAfterUnmap(ram, ram, k, virt)
  {
    forall w: u64 | SamePage(virt, w) ensures Translate(ram, k, w) == None {
      UnmappedPage(ram, k, owner, virt, w);
    }
  }

  /** Outside the boot region `unmap_page` reaches the page table by name, as `translate` does. */
  lemma UnmapByName(ram: Ram, k: Layout, owner: Owners, v: u64)
    requires TablesOk(ram, k, owner) && !InBootRegion(v)
    ensures var u := UnmapPage(ram, k, v);
            var t := Lookup(ram, k, PtName(v));
            if t.Some? && Present(ram[t.value][IndicesOf(v).pt])
            then u == Unmapped(Put(ram, t.value, IndicesOf(v).pt, 0), Ok(Addr(ram[t.value][IndicesOf(v).pt])))
            else u.result.Err? && u.ram == ram
  {
    var ix := IndicesOf(v);
    NextOwned(ram, k, owner, k.pml4, ix.pml4);
    assert Next(ram, k.pml4, ix.pml4) == Next(ram, k.pml4, Norm(ix.pml4));
    var f3 := Next(ram, k.pml4, ix.pml4);
    if f3.Some? {
      NextOwned(ram, k, owner, f3.value, ix.pdpt);
      var f2 := Next(ram, f3.value, ix.pdpt);
      if f2.Some? {
        assert Lookup(ram, k, Pd(Norm(ix.pml4), ix.pdpt)) == f2;
        NextOwned(ram, k, owner, f2.value, ix.pd);
        assert Lookup(ram, k, PtName(v)) == Next(ram, f2.value, ix.pd);
      } else {
        assert Lookup(ram, k, Pd(Norm(ix.pml4), ix.pdpt)).None?;
      }
    } else {
      assert Lookup(ram, k, Pd(Norm(ix.pml4), ix.pdpt)).None?;
    }
  }

  /** The error names the first level that is missing; on success the leaf word is cleared whole. */
  lemma UnmapErrorIff(ram: Ram, k: Layout, owner: Owners, v: u64)
    requires TablesOk(ram, k, owner) && !InBootRegion(v)
    ensures var u, n := UnmapPage(ram, k, v), PtName(v);
            var pdpt, pd, pt := Lookup(ram, k, Pdpt(n.i4)), Lookup(ram, k, Pd(n.i4, n.i3)), Lookup(ram, k, n);
            && (u.result == Err(NoPml4Entry) <==> pdpt.None?)
            && (u.result == Err(NoPdptEntry) <==> pdpt.Some? && pd.None?)
            && (u.result == Err(NoPdEntry) <==> pd.Some? && pt.None?)
            && (u.result == Err(NoPtEntry) <==> pt.Some? && !Present(ram[pt.value][IndicesOf(v).pt]))
            && (u.result.Ok? ==> pt.Some? && u.ram[pt.value][IndicesOf(v).pt] == 0)
  {
    UnmapByName(ram, k, owner, v);
    var ix := IndicesOf(v);
    NextOwned(ram, k, owner, k.pml4, ix.pml4);
    assert Next(ram, k.pml4, ix.pml4) == Next(ram, k.pml4, Norm(ix.pml4));
    var f3 := Next(ram, k.pml4, ix.pml4);
    if f3.Some? {
      NextOwned(ram, k, owner, f3.value, ix.pdpt);
      var f2 := Next(ram, f3.value, ix.pdpt);
      assert Lookup(ram, k, Pd(Norm(ix.pml4), ix.pdpt)) == f2;
      if f2.Some? { NextOwned(ram, k, owner, f2.value, ix.pd); }
    } else {
      assert Lookup(ram, k, Pd(Norm(ix.pml4), ix.pdpt)).None?;
    }
  }

  lemma ClearLeaf(ram: Ram, k: Layout, owner: Owners, virt: u64, t: Frame)
    requires TablesOk(ram, k, owner) && !InBootRegion(virt)
    requires t in owner && owner[t] == PtName(virt)
    ensures var ram' := Put(ram, t, IndicesOf(virt).pt, 0);
            TablesOk(ram', k, owner) && TranslatesAfterUnmap(ram, ram', k, virt)
  {
    LeafWrite(ram, k, owner, virt, t, 0);
  }

  lemma UnmappedPage(ram: Ram, k: Layout, owner: Owners, v: u64, w: u64)
    requires TablesOk(ram, k, owner) && !InBootRegion(v) && SamePage(v, w)
    ensures Translate(ram, k, v).None? <==> Translate(ram, k, w).None?
  {
    TranslateByName(ram, k, owner, v);
    TranslateByName(ram, k, owner, w);
  }

  /** Unmap undoes map: the frame comes back, and every address reads as before the map except
      the page itself and its alias, which read as unmapped. */
  lemma UnmapUndoesMap(ram: Ram, pool: Pool, k: Layout, owner: Owners, virt: u64, phys: u64, flags: u64)
    requires SpaceOk(ram, pool, k, owner) && !InBootRegion(virt)
    requires MapPage(ram, pool, k, virt, phys, flags).result.Ok?
    ensures var u := UnmapPage(MapPage(ram, pool, k, virt, phys, flags).ram, k, virt);
            u.result == Ok(Addr(phys)) && TranslatesAfterUnmap(ram, u.ram, k, virt)
  {
    MapRefines(ram, pool, k, owner, virt, phys, flags);
    UnmapMapped(ram, MapPage(ram, pool, k, virt, phys, flags).ram, k, OwnersAfterMap(ram, pool, k, owner, virt), virt, phys);
  }

  lemma UnmapMapped(ram: Ram, ram': Ram, k: Layout, owner: Owners, virt: u64, phys: u64)
    requires TranslatesAfterMap(ram, ram', k, virt, phys)
    requires TablesOk(ram', k, owner) && !InBootRegion(virt)
    ensures var u := UnmapPage(ram', k, virt);
            u.result == Ok(Addr(phys)) && TranslatesAfterUnmap(ram, u.ram, k, virt)
  {
    assert SamePage(virt, virt);
    UnmapRefines(ram', k, owner, virt);
  }
}
