/** Which frames are page tables, and for which part of the address space. Every live table frame
    has one name; the walk of an address visits exactly the tables named by its indices. */
module TableOwnership {
  import opened Words
  import opened PageTables

  /** A table is named by the indices that lead to it; PML4 slots 0 and 511 lead to the same PDPT. */
  datatype Name = Root | Pdpt(i4: nat) | Pd(i4: nat, i3: nat) | Pt(i4: nat, i3: nat, i2: nat)

  type Owners = map<Frame, Name>

  function Norm(i4: nat): nat {
    if i4 == 511 then 0 else i4
  }

  /** Names that occur: PML4 slot 511 is named as slot 0. */
  predicate Normal(n: Name) {
    (n.Pdpt? || n.Pd? || n.Pt?) ==> n.i4 != 511
  }

  function Child(n: Name, i: nat): Name
    requires !n.Pt?
  {
    match n
    case Root => Pdpt(Norm(i))
    case Pdpt(a) => Pd(a, i)
    case Pd(a, b) => Pt(a, b, i)
  }

  /** The table an entry links to. */
  function Next(ram: Ram, f: Frame, i: nat): Option<Frame> {
    if i < ENTRIES && Present(ram[f][i]) && !Huge(ram[f][i]) then Some(FrameOf(ram[f][i])) else None
  }

  /** The frame reached from the root along a name. */
  function Lookup(ram: Ram, k: Layout, n: Name): Option<Frame>
    decreases if n.Root? then 0 else if n.Pdpt? then 1 else if n.Pd? then 2 else 3
  {
    match n
    case Root => Some(k.pml4)
    case Pdpt(a) => Next(ram, k.pml4, a)
    case Pd(a, b) =>
      var t := Lookup(ram, k, Pdpt(a));
      if t.None? then None else Next(ram, t.value, b)
    case Pt(a, b, c) =>
      var t := Lookup(ram, k, Pd(a, b));
      if t.None? then None else Next(ram, t.value, c)
  }

  ghost predicate LinksNamed(ram: Ram, owner: Owners) {
    forall f, i {:trigger Next(ram, f, i)} | f in owner && 0 <= i < ENTRIES && !owner[f].Pt? && Next(ram, f, i).Some? ::
      Next(ram, f, i).value in owner && owner[Next(ram, f, i).value] == Child(owner[f], i)
  }

  ghost predicate HugeOnlyAtBoot(ram: Ram, k: Layout, owner: Owners) {
    forall f, i {:trigger ram[f][i]} | f in owner && 0 <= i < ENTRIES && !owner[f].Pt? && Present(ram[f][i]) && Huge(ram[f][i]) ::
      k.pd <= f < k.pd + 4
  }

  ghost predicate TablesOk(ram: Ram, k: Layout, owner: Owners) {
    && k.Valid()
    && BootEntries(ram, k)
    && k.pml4 in owner && owner[k.pml4] == Root
    && k.pdpt in owner && owner[k.pdpt] == Pdpt(0)
    && (forall f: Frame | k.pd <= f < k.pd + 4 :: f in owner && owner[f] == Pd(0, f - k.pd))
    && LinksNamed(ram, owner)
    && HugeOnlyAtBoot(ram, k, owner)
    && forall f {:trigger Lookup(ram, k, owner[f])} | f in owner ::
         Normal(owner[f]) && Lookup(ram, k, owner[f]) == Some(f)
  }

  lemma NameFindsTable(ram: Ram, k: Layout, owner: Owners, f: Frame)
    requires TablesOk(ram, k, owner) && f in owner
    ensures Normal(owner[f]) && Lookup(ram, k, owner[f]) == Some(f)
  {
    var found := Lookup(ram, k, owner[f]);
  }

  /** No two live tables share a name, so a table sits at one level, below one parent entry. */
  lemma OneParentEntry(ram: Ram, k: Layout, owner: Owners, f: Frame, i: Index, g: Frame, j: Index)
    requires TablesOk(ram, k, owner)
    requires f in owner && g in owner && !owner[f].Pt? && !owner[g].Pt?
    requires Next(ram, f, i).Some? && Next(ram, f, i) == Next(ram, g, j)
    ensures f == g && (i == j || (f == k.pml4 && {i, j} == {0, 511} && Next(ram, f, i) == Some(k.pdpt)))
  {
    LinkReads(k.pdpt);
    var c := Next(ram, f, i).value;
    assert owner[c] == Child(owner[f], i);
    assert owner[c] == Child(owner[g], j);
    assert owner[f] == owner[g];
    assert Lookup(ram, k, owner[f]) == Lookup(ram, k, owner[g]);
  }

  // ---------------------------------------------------------------- walks

  predicate InBootRegion(v: u64) {
    var ix := IndicesOf(v);
    Norm(ix.pml4) == 0 && ix.pdpt < 4
  }

  lemma BootRegionIsLow4GiB(v: u64)
    ensures InBootRegion(v) <==>
            (IndicesOf(v).pml4 == 0 || IndicesOf(v).pml4 == 511) && v % 0x80_0000_0000 < 0x1_0000_0000
  {
    IndicesAreLow48Bits(v);
  }

  lemma BootRegionSum(v: u64)
    requires InBootRegion(v)
    ensures var ix := IndicesOf(v);
            (ix.pdpt * 512 + ix.pd) * 0x20_0000 + v % 0x20_0000 == v % 0x80_0000_0000
  {
    var ix := IndicesOf(v);
    IndicesAreLow48Bits(v);
    assert (v / 0x1000) / 512 == v / 0x20_0000;
    assert v % 0x20_0000 == ix.pt * 0x1000 + ix.offset;
  }

  /** `translate` on the boot region is the identity on the low 39 bits. */
  lemma BootRegionIdentity(ram: Ram, k: Layout, v: u64)
    requires k.Valid() && BootEntries(ram, k) && InBootRegion(v)
    ensures Translate(ram, k, v) == Some(v % 0x80_0000_0000)
    ensures HugeOnPath(ram, k, v)
  {
    var ix := IndicesOf(v);
    LinkReads(k.pdpt);
    LinkReads(k.pd + ix.pdpt);
    HugeReads(ix.pdpt, ix.pd);
    BootRegionSum(v);
    assert ram[k.pml4][ix.pml4] == LinkTo(k.pdpt);
    assert ram[k.pdpt][ix.pdpt] == LinkTo(k.pd + ix.pdpt);
    assert ram[k.pd + ix.pdpt][ix.pd] == HugeEntry(ix.pdpt, ix.pd);
  }

  /** The name of the page table that holds the leaf entry of `v`. */
  function PtName(v: u64): Name {
    var ix := IndicesOf(v);
    Pt(Norm(ix.pml4), ix.pdpt, ix.pd)
  }

  function LeafValue(e: u64, v: u64): Option<u64> {
    if Present(e) then Some(Addr(e) + v % PAGE_SIZE) else None
  }

  function LeafAt(ram: Ram, k: Layout, v: u64): Option<u64> {
    var t := Lookup(ram, k, PtName(v));
    if t.None? then None else LeafValue(ram[t.value][IndicesOf(v).pt], v)
  }

  lemma NextOwned(ram: Ram, k: Layout, owner: Owners, f: Frame, i: Index)
    requires TablesOk(ram, k, owner) && f in owner && !owner[f].Pt?
    ensures Next(ram, f, i).Some? ==>
              Next(ram, f, i).value in owner && owner[Next(ram, f, i).value] == Child(owner[f], i)
    ensures Present(ram[f][i]) ==>
              Next(ram, f, i) == Some(FrameOf(ram[f][i])) || (owner[f].Pd? && owner[f].i4 == 0 && owner[f].i3 < 4)
  {
  }

  /** Outside the boot region the walk meets no huge entry and is a lookup by name. */
  lemma TranslateByName(ram: Ram, k: Layout, owner: Owners, v: u64)
    requires TablesOk(ram, k, owner) && !InBootRegion(v)
    ensures !HugeOnPath(ram, k, v)
    ensures Translate(ram, k, v) == LeafAt(ram, k, v)
  {
    var ix := IndicesOf(v);
    NextOwned(ram, k, owner, k.pml4, ix.pml4);
    assert Next(ram, k.pml4, ix.pml4) == Next(ram, k.pml4, Norm(ix.pml4));
    var f3 := Next(ram, k.pml4, ix.pml4);
    if f3.Some? {
      NextOwned(ram, k, owner, f3.value, ix.pdpt);
      var f2 := Next(ram, f3.value, ix.pdpt);
      if f2.Some? {
        assert owner[f2.value] == Pd(Norm(ix.pml4), ix.pdpt);
        assert Lookup(ram, k, Pd(Norm(ix.pml4), ix.pdpt)) == f2;
        NextOwned(ram, k, owner, f2.value, ix.pd);
        assert Lookup(ram, k, PtName(v)) == Next(ram, f2.value, ix.pd);
      } else {
        assert Lookup(ram, k, Pd(Norm(ix.pml4), ix.pdpt)).None?;
      }
    } else {
      assert Lookup(ram, k, Pdpt(Norm(ix.pml4))).None?;
      assert Lookup(ram, k, Pd(Norm(ix.pml4), ix.pdpt)).None?;
    }
  }

  lemma {:induction false} LookupOwned(ram: Ram, k: Layout, owner: Owners, n: Name)
    requires TablesOk(ram, k, owner) && Normal(n)
    ensures var t := Lookup(ram, k, n); t.Some? ==> t.value in owner && owner[t.value] == n
    decreases if n.Root? then 0 else if n.Pdpt? then 1 else if n.Pd? then 2 else 3
  {
    match n
    case Root =>
    case Pdpt(a) =>
      if a < ENTRIES { NextOwned(ram, k, owner, k.pml4, a); }
    case Pd(a, b) =>
      var t := Lookup(ram, k, Pdpt(a));
      LookupOwned(ram, k, owner, Pdpt(a));
      if t.Some? && b < ENTRIES { NextOwned(ram, k, owner, t.value, b); }
    case Pt(a, b, c) =>
      var t := Lookup(ram, k, Pd(a, b));
      LookupOwned(ram, k, owner, Pd(a, b));
      if t.Some? && c < ENTRIES { NextOwned(ram, k, owner, t.value, c); }
  }

  /** Memory determines which frames are tables, and their names. */
  lemma NamesAreUnique(ram: Ram, k: Layout, owner: Owners, owner': Owners)
    requires TablesOk(ram, k, owner) && TablesOk(ram, k, owner')
    ensures owner == owner'
  {
    hide LinksNamed, HugeOnlyAtBoot;
    forall f | f in owner ensures f in owner' && owner'[f] == owner[f] {
      NameFindsTable(ram, k, owner, f);
      LookupOwned(ram, k, owner', owner[f]);
    }
    forall f | f in owner' ensures f in owner {
      NameFindsTable(ram, k, owner', f);
      LookupOwned(ram, k, owner, owner'[f]);
    }
  }

  // ---------------------------------------------------------------- writes below the directories

  ghost predicate SameDirectories(ram: Ram, ram': Ram, owner: Owners) {
    forall g | g in owner && !owner[g].Pt? :: ram'[g] == ram[g]
  }

  lemma {:induction false} LookupKept(ram: Ram, ram': Ram, k: Layout, owner: Owners, n: Name)
    requires TablesOk(ram, k, owner) && SameDirectories(ram, ram', owner) && Normal(n)
    ensures Lookup(ram', k, n) == Lookup(ram, k, n)
    decreases if n.Root? then 0 else if n.Pdpt? then 1 else if n.Pd? then 2 else 3
  {
    match n
    case Root =>
    case Pdpt(a) =>
    case Pd(a, b) =>
      LookupKept(ram, ram', k, owner, Pdpt(a));
      LookupOwned(ram, k, owner, Pdpt(a));
    case Pt(a, b, c) =>
      LookupKept(ram, ram', k, owner, Pd(a, b));
      LookupOwned(ram, k, owner, Pd(a, b));
  }

  /** Boot entries survive any write that keeps the present entries of the static tables. */
  lemma BootEntriesKept(ram: Ram, ram': Ram, k: Layout)
    requires k.Valid() && BootEntries(ram, k)
    requires forall f: Frame, i | k.IsStatic(f) && 0 <= i < ENTRIES && Present(ram[f][i]) :: ram'[f][i] == ram[f][i]
    ensures BootEntries(ram', k)
  {
    LinkReads(k.pdpt);
    LinkReads(k.pd);
    LinkReads(k.pd + 1);
    LinkReads(k.pd + 2);
    LinkReads(k.pd + 3);
    assert Present(ram[k.pml4][0]) && Present(ram[k.pml4][511]);
    assert Present(ram[k.pdpt][0]) && Present(ram[k.pdpt][1]) && Present(ram[k.pdpt][2]) && Present(ram[k.pdpt][3]);
    forall f: Frame, i | k.pd <= f < k.pd + 4 && 0 <= i < ENTRIES ensures ram'[f][i] == HugeEntry(f - k.pd, i) {
      BootHugePresent(ram, k, f, i);
    }
  }

  lemma BootHugePresent(ram: Ram, k: Layout, f: Frame, i: Index)
    requires k.Valid() && BootEntries(ram, k) && k.pd <= f < k.pd + 4
    ensures ram[f][i] == HugeEntry(f - k.pd, i) && Present(ram[f][i])
  {
    HugeReads(f - k.pd, i);
  }

  lemma StaticsOwned(ram: Ram, k: Layout, owner: Owners)
    requires TablesOk(ram, k, owner)
    ensures forall f: Frame | k.IsStatic(f) :: f in owner && !owner[f].Pt?
  {
  }

  lemma DirectoriesKeepTables(ram: Ram, ram': Ram, k: Layout, owner: Owners)
    requires TablesOk(ram, k, owner) && SameDirectories(ram, ram', owner)
    ensures TablesOk(ram', k, owner)
  {
    assert BootEntries(ram', k) by {
      StaticsOwned(ram, k, owner);
      BootEntriesKept(ram, ram', k);
    }
    assert LinksNamed(ram', owner) by {
      forall f, i | f in owner && 0 <= i < ENTRIES && !owner[f].Pt? && Next(ram', f, i).Some?
        ensures Next(ram', f, i).value in owner && owner[Next(ram', f, i).value] == Child(owner[f], i)
      {
        NextOwned(ram, k, owner, f, i);
      }
    }
    forall f | f in owner ensures Normal(owner[f]) && Lookup(ram', k, owner[f]) == Some(f) {
      NameFindsTable(ram, k, owner, f);
      LookupKept(ram, ram', k, owner, owner[f]);
    }
  }

  /** Frames that are no tables can be overwritten without any address noticing. */
  lemma OtherFramesAreInvisible(ram: Ram, ram': Ram, k: Layout, owner: Owners)
    requires TablesOk(ram, k, owner) && forall g | g in owner :: ram'[g] == ram[g]
    ensures TablesOk(ram', k, owner)
    ensures forall v: u64 :: Translate(ram', k, v) == Translate(ram, k, v)
  {
    DirectoriesKeepTables(ram, ram', k, owner);
    forall v: u64 ensures Translate(ram', k, v) == Translate(ram, k, v) {
      if InBootRegion(v) {
        BootRegionIdentity(ram, k, v);
        BootRegionIdentity(ram', k, v);
      } else {
        TranslateByName(ram, k, owner, v);
        TranslateByName(ram', k, owner, v);
        LookupKept(ram, ram', k, owner, PtName(v));
        LookupOwned(ram, k, owner, PtName(v));
      }
    }
  }

  /** The virtual pages a leaf slot serves: equal indices, with PML4 slots 0 and 511 identified. */
  predicate SamePage(v: u64, w: u64) {
    KeyOf(v) == KeyOf(w)
  }

  datatype PageKey = PageKey(table: Name, slot: nat)

  function KeyOf(v: u64): PageKey {
    PageKey(PtName(v), IndicesOf(v).pt)
  }

  /** A write to slot `i` of the page table `t` changes the translation of the pages that slot
      serves, and of nothing else. */
  lemma SlotWrite(ram: Ram, k: Layout, owner: Owners, t: Frame, i: Index, e: u64)
    requires TablesOk(ram, k, owner) && t in owner && owner[t].Pt?
    ensures var ram' := Put(ram, t, i, e);
            && TablesOk(ram', k, owner)
            && forall w: u64 :: Translate(ram', k, w) ==
                 if !InBootRegion(w) && KeyOf(w) == PageKey(owner[t], i) then LeafValue(e, w) else Translate(ram, k, w)
  {
    var ram' := Put(ram, t, i, e);
    DirectoriesKeepTables(ram, ram', k, owner);
    NameFindsTable(ram, k, owner, t);
    forall w: u64
      ensures Translate(ram', k, w) ==
              if !InBootRegion(w) && KeyOf(w) == PageKey(owner[t], i) then LeafValue(e, w) else Translate(ram, k, w)
    {
      if InBootRegion(w) {
        BootRegionIdentity(ram, k, w);
        BootRegionIdentity(ram', k, w);
      } else {
        TranslateByName(ram, k, owner, w);
        TranslateByName(ram', k, owner, w);
        LookupKept(ram, ram', k, owner, PtName(w));
        LookupOwned(ram, k, owner, PtName(w));
      }
    }
  }

  /** A write to the leaf slot of `v` changes the translation of that page and its alias only. */
  lemma LeafWrite(ram: Ram, k: Layout, owner: Owners, v: u64, t: Frame, e: u64)
    requires TablesOk(ram, k, owner) && !InBootRegion(v)
    requires t in owner && owner[t] == PtName(v)
    ensures var ram' := Put(ram, t, IndicesOf(v).pt, e);
            && TablesOk(ram', k, owner)
            && forall w: u64 :: Translate(ram', k, w) ==
                 if SamePage(v, w) then LeafValue(e, w) else Translate(ram, k, w)
  {
    hide Translate, LeafValue;
    SlotWrite(ram, k, owner, t, IndicesOf(v).pt, e);
  }

  /** The first address of the page that slot `i` of the page table called `n` serves. */
  function AddressOf(n: Name, i: Index): u64
    requires n.Pt? && n.i4 < ENTRIES && n.i3 < ENTRIES && n.i2 < ENTRIES
  {
    n.i4 * 0x80_0000_0000 + n.i3 * 0x4000_0000 + n.i2 * 0x20_0000 + i * 0x1000
  }

  lemma AddressIndices(a: Index, b: Index, c: Index, d: Index)
    ensures IndicesOf(AddressOf(Pt(a, b, c), d)) == Indices(a, b, c, d, 0)
  {
    var v := AddressOf(Pt(a, b, c), d);
    assert v / 0x1000 == ((a * 512 + b) * 512 + c) * 512 + d;
    assert v / 0x20_0000 == (a * 512 + b) * 512 + c;
    assert v / 0x4000_0000 == a * 512 + b;
    assert v / 0x80_0000_0000 == a;
  }

  /** Every slot of every live page table serves a page, and one outside the boot region. */
  lemma PageTableServes(ram: Ram, k: Layout, owner: Owners, t: Frame, i: Index) returns (w: u64)
    requires TablesOk(ram, k, owner) && t in owner && owner[t].Pt?
    ensures !InBootRegion(w) && KeyOf(w) == PageKey(owner[t], i)
    ensures Translate(ram, k, w) == LeafValue(ram[t][i], w)
  {
    var n := owner[t];
    NameFindsTable(ram, k, owner, t);
    var f3 := Lookup(ram, k, Pdpt(n.i4)).value;
    var f2 := Lookup(ram, k, Pd(n.i4, n.i3)).value;
    assert Next(ram, k.pml4, n.i4).Some? && Next(ram, f3, n.i3).Some? && Next(ram, f2, n.i2).Some?;
    PageTableOutsideBoot(ram, k, owner, t);
    AddressIndices(n.i4, n.i3, n.i2, i);
    w := AddressOf(n, i);
    TranslateByName(ram, k, owner, w);
  }

  /** The page directories of the boot region hold huge entries only, so no page table hangs there. */
  lemma PageTableOutsideBoot(ram: Ram, k: Layout, owner: Owners, t: Frame)
    requires TablesOk(ram, k, owner) && t in owner && owner[t].Pt?
    ensures !(owner[t].i4 == 0 && owner[t].i3 < 4)
  {
    var n := owner[t];
    NameFindsTable(ram, k, owner, t);
    if n.i4 == 0 && n.i3 < 4 {
      var f2 := Lookup(ram, k, Pd(n.i4, n.i3)).value;
      LinkReads(k.pdpt);
      LinkReads(k.pd + n.i3);
      assert f2 == k.pd + n.i3;
      if n.i2 < ENTRIES { HugeReads(n.i3, n.i2); }
    }
  }

  // ---------------------------------------------------------------- linking a new table

  /** What linking a new table `c` at slot (f, i) does to memory. */
  function Linked(ram: Ram, f: Frame, i: Index, c: Frame): Ram {
    Zeroed(Put(ram, f, i, LinkTo(c)), c)
  }

  lemma LinkedNext(ram: Ram, owner: Owners, f: Frame, i: Index, c: Frame, g: Frame, j: nat)
    requires f in owner && c !in owner && (g in owner || g == c)
    ensures Next(Linked(ram, f, i, c), g, j) ==
            if g == c then None else if g == f && j == i then Some(c) else Next(ram, g, j)
  {
    LinkReads(c);
  }

  ghost predicate FreshSlot(ram: Ram, k: Layout, owner: Owners, f: Frame, i: Index, c: Frame) {
    TablesOk(ram, k, owner) && f in owner && !owner[f].Pt? && !Present(ram[f][i]) && c !in owner
  }

  lemma FreshName(ram: Ram, k: Layout, owner: Owners, f: Frame, i: Index, c: Frame)
    requires FreshSlot(ram, k, owner, f, i, c)
    ensures f == k.pml4 ==> i != 0 && i != 511
    ensures Normal(Child(owner[f], i)) && Lookup(ram, k, Child(owner[f], i)) == None
  {
    LinkReads(k.pdpt);
    NameFindsTable(ram, k, owner, f);
    NameFindsTable(ram, k, owner, k.pml4);
  }

  lemma {:induction false} LookupLinked(ram: Ram, k: Layout, owner: Owners, f: Frame, i: Index, c: Frame, n: Name)
    requires FreshSlot(ram, k, owner, f, i, c) && Normal(n)
    ensures Lookup(Linked(ram, f, i, c), k, n) == if n == Child(owner[f], i) then Some(c) else Lookup(ram, k, n)
    decreases if n.Root? then 0 else if n.Pdpt? then 1 else if n.Pd? then 2 else 3
  {
    FreshName(ram, k, owner, f, i, c);
    NameFindsTable(ram, k, owner, f);
    match n
    case Root =>
    case Pdpt(a) =>
      LinkedNext(ram, owner, f, i, c, k.pml4, a);
    case Pd(a, b) =>
      LookupLinked(ram, k, owner, f, i, c, Pdpt(a));
      LookupOwned(ram, k, owner, Pdpt(a));
      LinkedStep(ram, k, owner, f, i, c, Pdpt(a), b);
    case Pt(a, b, d) =>
      LookupLinked(ram, k, owner, f, i, c, Pd(a, b));
      LookupOwned(ram, k, owner, Pd(a, b));
      LinkedStep(ram, k, owner, f, i, c, Pd(a, b), d);
  }

  lemma LinkedStep(ram: Ram, k: Layout, owner: Owners, f: Frame, i: Index, c: Frame, up: Name, j: nat)
    requires FreshSlot(ram, k, owner, f, i, c) && Normal(up) && (up.Pdpt? || up.Pd?)
    requires Lookup(Linked(ram, f, i, c), k, up) ==
             if up == Child(owner[f], i) then Some(c) else Lookup(ram, k, up)
    ensures Lookup(Linked(ram, f, i, c), k, Child(up, j)) ==
            if Child(up, j) == Child(owner[f], i) then Some(c) else Lookup(ram, k, Child(up, j))
  {
    FreshName(ram, k, owner, f, i, c);
    NameFindsTable(ram, k, owner, f);
    LookupOwned(ram, k, owner, up);
    if up == Child(owner[f], i) {
      LinkedNext(ram, owner, f, i, c, c, j);
    } else if Lookup(ram, k, up).Some? {
      LinkedNext(ram, owner, f, i, c, Lookup(ram, k, up).value, j);
    }
  }

  lemma LinkKeepsLinks(ram: Ram, k: Layout, owner: Owners, f: Frame, i: Index, c: Frame)
    requires FreshSlot(ram, k, owner, f, i, c)
    ensures LinksNamed(Linked(ram, f, i, c), owner[c := Child(owner[f], i)])
    ensures HugeOnlyAtBoot(Linked(ram, f, i, c), k, owner[c := Child(owner[f], i)])
  {
    var ram' := Linked(ram, f, i, c);
    var owner' := owner[c := Child(owner[f], i)];
    assert LinksNamed(ram', owner') by {
      forall g, j | g in owner' && 0 <= j < ENTRIES && !owner'[g].Pt? && Next(ram', g, j).Some?
        ensures Next(ram', g, j).value in owner' && owner'[Next(ram', g, j).value] == Child(owner'[g], j)
      {
        LinkedNext(ram, owner, f, i, c, g, j);
        if g in owner { NextOwned(ram, k, owner, g, j); }
      }
    }
    assert HugeOnlyAtBoot(ram', k, owner') by {
      LinkReads(c);
    }
  }

  lemma LinkKeepsTables(ram: Ram, k: Layout, owner: Owners, f: Frame, i: Index, c: Frame)
    requires FreshSlot(ram, k, owner, f, i, c)
    ensures TablesOk(Linked(ram, f, i, c), k, owner[c := Child(owner[f], i)])
  {
    var ram' := Linked(ram, f, i, c);
    var owner' := owner[c := Child(owner[f], i)];
    FreshName(ram, k, owner, f, i, c);
    assert BootEntries(ram', k) by {
      StaticsOwned(ram, k, owner);
      BootEntriesKept(ram, ram', k);
    }
    LinkKeepsLinks(ram, k, owner, f, i, c);
    forall g | g in owner' ensures Normal(owner'[g]) && Lookup(ram', k, owner'[g]) == Some(g) {
      if g in owner {
        NameFindsTable(ram, k, owner, g);
        LookupLinked(ram, k, owner, f, i, c, owner[g]);
      } else {
        LookupLinked(ram, k, owner, f, i, c, Child(owner[f], i));
      }
    }
  }

  lemma LinkInvisibleAt(ram: Ram, k: Layout, owner: Owners, f: Frame, i: Index, c: Frame, v: u64)
    requires FreshSlot(ram, k, owner, f, i, c) && !InBootRegion(v)
    ensures LeafAt(Linked(ram, f, i, c), k, v) == LeafAt(ram, k, v)
  {
    FreshName(ram, k, owner, f, i, c);
    LookupLinked(ram, k, owner, f, i, c, PtName(v));
    LookupOwned(ram, k, owner, PtName(v));
  }

  /** Linking an empty table changes no translation. */
  lemma LinkIsInvisible(ram: Ram, k: Layout, owner: Owners, f: Frame, i: Index, c: Frame)
    requires FreshSlot(ram, k, owner, f, i, c)
    ensures forall v: u64 :: Translate(Linked(ram, f, i, c), k, v) == Translate(ram, k, v)
  {
    var ram' := Linked(ram, f, i, c);
    var owner' := owner[c := Child(owner[f], i)];
    LinkKeepsTables(ram, k, owner, f, i, c);
    forall v: u64 ensures Translate(ram', k, v) == Translate(ram, k, v) {
      if InBootRegion(v) {
        BootRegionIdentity(ram, k, v);
        BootRegionIdentity(ram', k, v);
      } else {
        TranslateByName(ram, k, owner, v);
        TranslateByName(ram', k, owner', v);
        LinkInvisibleAt(ram, k, owner, f, i, c, v);
      }
    }
  }
}
