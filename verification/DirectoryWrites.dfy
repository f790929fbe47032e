/** What a word written into a live directory does: to the walks that go through it, and to the
    tables. `map_page` writes such words when it works below a huge entry. */
module DirectoryWrites {
  import opened Words
  import opened PageTables
  import opened TableOwnership

  /** The entries `init` writes. */
  predicate BootSlot(k: Layout, f: Frame, i: Index)
    requires k.Valid()
  {
    (f == k.pml4 && (i == 0 || i == 511)) || (f == k.pdpt && i < 4) || k.pd <= f < k.pd + 4
  }

  /** Slot `i` of a live directory that `init` did not fill. */
  ghost predicate LiveSlot(ram: Ram, k: Layout, owner: Owners, f: Frame, i: Index) {
    TablesOk(ram, k, owner) && f in owner && !owner[f].Pt? && !BootSlot(k, f, i)
  }

  lemma BootNames(ram: Ram, k: Layout, owner: Owners, f: Frame)
    requires TablesOk(ram, k, owner) && f in owner
    ensures owner[f] == Root ==> f == k.pml4
    ensures owner[f] == Pdpt(0) ==> f == k.pdpt
    ensures owner[f].Pd? && owner[f].i4 == 0 && owner[f].i3 < 4 ==> k.pd <= f < k.pd + 4
  {
    NameFindsTable(ram, k, owner, f);
    LinkReads(k.pdpt);
    if owner[f].Pd? && owner[f].i4 == 0 && owner[f].i3 < 4 { LinkReads(k.pd + owner[f].i3); }
  }

  lemma BootEntriesSpared(ram: Ram, k: Layout, f: Frame, i: Index, e: u64)
    requires k.Valid() && BootEntries(ram, k) && !BootSlot(k, f, i)
    ensures BootEntries(Put(ram, f, i, e), k)
  {
  }

  // ---------------------------------------------------------------- the walks through the word

  /** The walk of `v` goes through slot `i` of the directory called `n`. */
  predicate Through(n: Name, i: nat, v: u64)
    requires !n.Pt?
  {
    var ix := IndicesOf(v);
    match n
    case Root => Norm(ix.pml4) == Norm(i)
    case Pdpt(a) => Norm(ix.pml4) == a && ix.pdpt == i
    case Pd(a, b) => Norm(ix.pml4) == a && ix.pdpt == b && ix.pd == i
  }

  /** The rest of the walk of `v`, which has just read the word `e` in a directory called `n`. */
  function Below(ram: Ram, n: Name, e: u64, v: u64): Option<u64>
    requires !n.Pt?
    decreases if n.Root? then 2 else if n.Pdpt? then 1 else 0
  {
    if !Present(e) then None
    else
      match n
      case Root => Below(ram, Pdpt(0), ram[FrameOf(e)][IndicesOf(v).pdpt], v)
      case Pdpt(a) =>
        if Huge(e) then Some(Addr(e) + v % 0x4000_0000)
        else Below(ram, Pd(a, 0), ram[FrameOf(e)][IndicesOf(v).pd], v)
      case Pd(_, _) =>
        if Huge(e) then Some(Addr(e) + v % 0x20_0000)
        else LeafValue(ram[FrameOf(e)][IndicesOf(v).pt], v)
  }

  /** A word written into a directory redirects the walks that go through it, and no other. */
  lemma DirectoryWriteEffect(ram: Ram, k: Layout, owner: Owners, f: Frame, i: Index, e: u64)
    requires LiveSlot(ram, k, owner, f, i)
    ensures var ram' := Put(ram, f, i, e);
            && BootEntries(ram', k)
            && forall w: u64 :: Translate(ram', k, w) ==
                 if Through(owner[f], i, w) then Below(ram', owner[f], e, w) else Translate(ram, k, w)
  {
    var ram' := Put(ram, f, i, e);
    BootEntriesSpared(ram, k, f, i, e);
    BootNames(ram, k, owner, f);
    NameFindsTable(ram, k, owner, f);
    forall w: u64
      ensures Translate(ram', k, w) ==
              if Through(owner[f], i, w) then Below(ram', owner[f], e, w) else Translate(ram, k, w)
    {
      if InBootRegion(w) {
        BootRegionIdentity(ram, k, w);
        BootRegionIdentity(ram', k, w);
      } else if Through(owner[f], i, w) {
        WalkThrough(ram, k, owner, f, i, e, w);
      } else {
        WalkBeside(ram, k, owner, f, i, e, w);
      }
    }
  }

  lemma WalkThrough(ram: Ram, k: Layout, owner: Owners, f: Frame, i: Index, e: u64, w: u64)
    requires LiveSlot(ram, k, owner, f, i) && !InBootRegion(w) && Through(owner[f], i, w)
    ensures Translate(Put(ram, f, i, e), k, w) == Below(Put(ram, f, i, e), owner[f], e, w)
  {
    hide FrameOf, Present, Huge, LinksNamed, HugeOnlyAtBoot;
    var ix := IndicesOf(w);
    BootNames(ram, k, owner, f);
    NameFindsTable(ram, k, owner, f);
    assert ram[k.pml4][ix.pml4] == ram[k.pml4][Norm(ix.pml4)];
    NextOwned(ram, k, owner, k.pml4, ix.pml4);
    match owner[f]
    case Root =>
    case Pdpt(a) =>
      assert Next(ram, k.pml4, ix.pml4) == Some(f);
    case Pd(a, b) =>
      var f3 := Lookup(ram, k, Pdpt(a)).value;
      assert Next(ram, k.pml4, ix.pml4) == Some(f3) && Next(ram, f3, b) == Some(f);
  }

  lemma WalkBeside(ram: Ram, k: Layout, owner: Owners, f: Frame, i: Index, e: u64, w: u64)
    requires LiveSlot(ram, k, owner, f, i) && !InBootRegion(w) && !Through(owner[f], i, w)
    ensures Translate(Put(ram, f, i, e), k, w) == Translate(ram, k, w)
  {
    hide Present, Huge;
    var ix := IndicesOf(w);
    BootNames(ram, k, owner, f);
    NextOwned(ram, k, owner, k.pml4, ix.pml4);
    var f3 := Next(ram, k.pml4, ix.pml4);
    if f3.Some? {
      NextOwned(ram, k, owner, f3.value, ix.pdpt);
      var f2 := Next(ram, f3.value, ix.pdpt);
      if f2.Some? {
        NextOwned(ram, k, owner, f2.value, ix.pd);
      }
    }
  }

  // ---------------------------------------------------------------- the tables after the write

  /** `m` names a table at or below slot `i` of the directory called `n`. */
  predicate Under(n: Name, i: nat, m: Name) {
    match n
    case Pdpt(a) => (m.Pd? || m.Pt?) && m.i4 == a && m.i3 == i
    case Pd(a, b) => m == Pt(a, b, i)
    case _ => false
  }

  /** The tables that do not hang below slot (f, i). */
  function Rest(owner: Owners, f: Frame, i: Index): Owners
    requires f in owner
  {
    map g | g in owner && !Under(owner[f], i, owner[g]) :: owner[g]
  }

  /** The frames that a page directory's entries link to. */
  function LinkedFrames(ram: Ram, p: Frame): set<Frame> {
    set j: Index | Present(ram[p][j]) :: FrameOf(ram[p][j])
  }

  /** Frame `p` can become the table called `n`: it is no table yet and, taken as a directory, holds
      no huge entry and links each frame once, none of them a table or itself. */
  ghost predicate Graftable(ram: Ram, rest: Owners, n: Name, p: Frame) {
    && p !in rest
    && (n.Pd? ==>
          && (forall j: Index | Present(ram[p][j]) ::
                !Huge(ram[p][j]) && FrameOf(ram[p][j]) !in rest && FrameOf(ram[p][j]) != p)
          && (forall j: Index, l: Index | Present(ram[p][j]) && Present(ram[p][l]) ::
                FrameOf(ram[p][j]) == FrameOf(ram[p][l]) ==> j == l))
  }

  /** The tables that a word puts below its slot. */
  function NewTables(ram: Ram, n: Name, e: u64): set<Frame> {
    if !Present(e) then {} else {FrameOf(e)} + if n.Pd? then LinkedFrames(ram, FrameOf(e)) else {}
  }

  /** The slot is in no table that `init` filled, nor in the root. */
  ghost predicate InnerSlot(ram: Ram, k: Layout, owner: Owners, f: Frame, i: Index) {
    LiveSlot(ram, k, owner, f, i) && !owner[f].Root?
  }

  /** The word `e` at slot (f, i) leaves a tree of tables. */
  ghost predicate TreeAfter(ram: Ram, owner: Owners, f: Frame, i: Index, e: u64)
    requires f in owner && (owner[f].Pdpt? || owner[f].Pd?)
  {
    Present(e) ==> !Huge(e) && Graftable(ram, Rest(owner, f, i), Child(owner[f], i), FrameOf(e))
  }

  lemma {:induction false} LookupBeside(ram: Ram, k: Layout, owner: Owners, f: Frame, i: Index, e: u64, n: Name)
    requires InnerSlot(ram, k, owner, f, i) && Normal(n) && !Under(owner[f], i, n)
    ensures Lookup(Put(ram, f, i, e), k, n) == Lookup(ram, k, n)
    decreases if n.Root? then 0 else if n.Pdpt? then 1 else if n.Pd? then 2 else 3
  {
    BootNames(ram, k, owner, f);
    match n
    case Root =>
    case Pdpt(a) =>
    case Pd(a, b) =>
      LookupBeside(ram, k, owner, f, i, e, Pdpt(a));
      LookupOwned(ram, k, owner, Pdpt(a));
    case Pt(a, b, c) =>
      LookupBeside(ram, k, owner, f, i, e, Pd(a, b));
      LookupOwned(ram, k, owner, Pd(a, b));
  }

  /** Any naming of the tables after the write names those beside the slot as before. */
  lemma RestKept(ram: Ram, k: Layout, owner: Owners, f: Frame, i: Index, e: u64, owner': Owners, g: Frame)
    requires InnerSlot(ram, k, owner, f, i) && TablesOk(Put(ram, f, i, e), k, owner')
    requires g in Rest(owner, f, i)
    ensures g in owner' && owner'[g] == owner[g]
  {
    NameFindsTable(ram, k, owner, g);
    LookupBeside(ram, k, owner, f, i, e, owner[g]);
    LookupOwned(Put(ram, f, i, e), k, owner', owner[g]);
  }

  lemma SlotBesideItself(ram: Ram, k: Layout, owner: Owners, f: Frame, i: Index)
    requires InnerSlot(ram, k, owner, f, i)
    ensures f in Rest(owner, f, i) && !(k.pd <= f < k.pd + 4) && Under(owner[f], i, Child(owner[f], i))
    ensures !(Child(owner[f], i).Pd? && Child(owner[f], i).i4 == 0 && Child(owner[f], i).i3 < 4)
  {
    BootNames(ram, k, owner, f);
  }

  /** If the tables are still a tree, under any names, the word put a graftable frame there. */
  lemma TreeOnlyIf(ram: Ram, k: Layout, owner: Owners, f: Frame, i: Index, e: u64, owner': Owners)
    requires InnerSlot(ram, k, owner, f, i) && TablesOk(Put(ram, f, i, e), k, owner') && Present(e)
    ensures TreeAfter(ram, owner, f, i, e)
    ensures FrameOf(e) in owner' && owner'[FrameOf(e)] == Child(owner[f], i)
  {
    hide TablesOk, Under;
    var ram', n, p := Put(ram, f, i, e), Child(owner[f], i), FrameOf(e);
    var rest := Rest(owner, f, i);
    SlotBesideItself(ram, k, owner, f, i);
    RestKept(ram, k, owner, f, i, e, owner', f);
    DirectoryWord(ram', k, owner', f, i);
    assert p !in rest by { if p in rest { RestKept(ram, k, owner, f, i, e, owner', p); } }
    if n.Pd? {
      forall j: Index | Present(ram[p][j])
        ensures !Huge(ram[p][j]) && FrameOf(ram[p][j]) in owner' && owner'[FrameOf(ram[p][j])] == Pt(n.i4, n.i3, j)
        ensures FrameOf(ram[p][j]) !in rest
      {
        StaticName(ram', k, owner', p);
        DirectoryWord(ram', k, owner', p, j);
        var c := FrameOf(ram[p][j]);
        UnderSlot(owner[f], i, j);
        if c in rest { RestKept(ram, k, owner, f, i, e, owner', c); }
      }
    }
  }

  lemma UnderSlot(n: Name, i: Index, j: Index)
    requires n.Pdpt?
    ensures Under(n, i, Pt(n.i4, i, j))
  {
  }

  lemma DirectoryWord(ram: Ram, k: Layout, owner: Owners, f: Frame, i: Index)
    requires TablesOk(ram, k, owner) && f in owner && !owner[f].Pt? && Present(ram[f][i])
    requires !(k.pd <= f < k.pd + 4)
    ensures !Huge(ram[f][i]) && FrameOf(ram[f][i]) in owner && owner[FrameOf(ram[f][i])] == Child(owner[f], i)
  {
    NextOwned(ram, k, owner, f, i);
    BootNames(ram, k, owner, f);
  }

  lemma StaticName(ram: Ram, k: Layout, owner: Owners, f: Frame)
    requires TablesOk(ram, k, owner)
    ensures k.pd <= f < k.pd + 4 ==> f in owner && owner[f] == Pd(0, f - k.pd)
  {
  }

  ghost function SlotOf(ram: Ram, p: Frame, c: Frame): (j: Index)
    requires c in LinkedFrames(ram, p)
    ensures Present(ram[p][j]) && FrameOf(ram[p][j]) == c
  {
    var j: Index :| Present(ram[p][j]) && FrameOf(ram[p][j]) == c;
    j
  }

  /** The names of the tables after the write. */
  ghost function OwnersAfter(ram: Ram, owner: Owners, f: Frame, i: Index, e: u64): (r: Owners)
    requires f in owner && (owner[f].Pdpt? || owner[f].Pd?)
    ensures r.Keys == Rest(owner, f, i).Keys + NewTables(ram, Child(owner[f], i), e)
  {
    var rest, n := Rest(owner, f, i), Child(owner[f], i);
    map g: Frame | g in rest || g in NewTables(ram, n, e) ::
      if g in rest then rest[g] else if g == FrameOf(e) then n else Pt(n.i4, n.i3, SlotOf(ram, FrameOf(e), g))
  }

  /** The links of each table after the write, by where the table comes from. */
  lemma NextAfter(ram: Ram, k: Layout, owner: Owners, f: Frame, i: Index, e: u64, g: Frame, j: Index)
    requires InnerSlot(ram, k, owner, f, i) && TreeAfter(ram, owner, f, i, e)
    requires var names := OwnersAfter(ram, owner, f, i, e);
             g in names && !names[g].Pt? && Present(Put(ram, f, i, e)[g][j]) && !(k.pd <= g < k.pd + 4)
    ensures var names, c := OwnersAfter(ram, owner, f, i, e), FrameOf(Put(ram, f, i, e)[g][j]);
            !Huge(Put(ram, f, i, e)[g][j]) && c in names && names[c] == Child(names[g], j)
  {
    hide TablesOk;
    var rest, n, p := Rest(owner, f, i), Child(owner[f], i), FrameOf(e);
    SlotBesideItself(ram, k, owner, f, i);
    if g in rest {
      if g != f || j != i {
        DirectoryWord(ram, k, owner, g, j);
        ChildBeside(ram, k, owner, f, i, g, j);
      }
    } else {
      assert g == p && n.Pd?;
      var c := FrameOf(ram[p][j]);
      assert c in LinkedFrames(ram, p);
      assert SlotOf(ram, p, c) == j;
    }
  }

  lemma ChildBeside(ram: Ram, k: Layout, owner: Owners, f: Frame, i: Index, g: Frame, j: Index)
    requires InnerSlot(ram, k, owner, f, i) && g in Rest(owner, f, i) && !owner[g].Pt? && (g != f || j != i)
    ensures !Under(owner[f], i, Child(owner[g], j))
  {
    NameFindsTable(ram, k, owner, f);
    NameFindsTable(ram, k, owner, g);
  }

  lemma LinksAfter(ram: Ram, k: Layout, owner: Owners, f: Frame, i: Index, e: u64)
    requires InnerSlot(ram, k, owner, f, i) && TreeAfter(ram, owner, f, i, e)
    requires forall g: Frame | k.pd <= g < k.pd + 4 ::
               var names := OwnersAfter(ram, owner, f, i, e); g in names && names[g] == Pd(0, g - k.pd)
    ensures var names := OwnersAfter(ram, owner, f, i, e);
            LinksNamed(Put(ram, f, i, e), names) && HugeOnlyAtBoot(Put(ram, f, i, e), k, names)
  {
    hide OwnersAfter, TreeAfter, TablesOk;
    var ram', names := Put(ram, f, i, e), OwnersAfter(ram, owner, f, i, e);
    BootEntriesSpared(ram, k, f, i, e) by { BootHolds(ram, k, owner); }
    forall g, j | g in names && 0 <= j < ENTRIES && !names[g].Pt? && Present(ram'[g][j])
      ensures Next(ram', g, j).Some? ==>
                Next(ram', g, j).value in names && names[Next(ram', g, j).value] == Child(names[g], j)
      ensures Huge(ram'[g][j]) ==> k.pd <= g < k.pd + 4
    {
      if k.pd <= g < k.pd + 4 {
        HugeReads(g - k.pd, j);
      } else {
        NextAfter(ram, k, owner, f, i, e, g, j);
      }
    }
  }

  lemma BootHolds(ram: Ram, k: Layout, owner: Owners)
    requires TablesOk(ram, k, owner)
    ensures k.Valid() && BootEntries(ram, k)
  {
  }

  lemma LookupAfter(ram: Ram, k: Layout, owner: Owners, f: Frame, i: Index, e: u64, g: Frame)
    requires InnerSlot(ram, k, owner, f, i) && TreeAfter(ram, owner, f, i, e) && g in OwnersAfter(ram, owner, f, i, e)
    ensures var names := OwnersAfter(ram, owner, f, i, e);
            Normal(names[g]) && Lookup(Put(ram, f, i, e), k, names[g]) == Some(g)
  {
    hide TablesOk;
    var ram', rest, n := Put(ram, f, i, e), Rest(owner, f, i), Child(owner[f], i);
    SlotBesideItself(ram, k, owner, f, i);
    NameFindsTable(ram, k, owner, f);
    LookupBeside(ram, k, owner, f, i, e, owner[f]);
    if g in rest {
      NameFindsTable(ram, k, owner, g);
      LookupBeside(ram, k, owner, f, i, e, owner[g]);
    } else {
      assert Lookup(ram', k, n) == Some(FrameOf(e));
    }
  }

  /** Conversely a graftable frame becomes a live table, with the tables it links. */
  lemma TreeIf(ram: Ram, k: Layout, owner: Owners, f: Frame, i: Index, e: u64)
    requires InnerSlot(ram, k, owner, f, i) && TreeAfter(ram, owner, f, i, e)
    ensures TablesOk(Put(ram, f, i, e), k, OwnersAfter(ram, owner, f, i, e))
  {
    hide OwnersAfter, TreeAfter, Lookup, LinksNamed, HugeOnlyAtBoot;
    var names := OwnersAfter(ram, owner, f, i, e);
    BootEntriesSpared(ram, k, f, i, e);
    StaticsAfter(ram, k, owner, f, i, e);
    LinksAfter(ram, k, owner, f, i, e);
    forall g | g in names ensures Normal(names[g]) && Lookup(Put(ram, f, i, e), k, names[g]) == Some(g) {
      LookupAfter(ram, k, owner, f, i, e, g);
    }
  }

  lemma StaticsAfter(ram: Ram, k: Layout, owner: Owners, f: Frame, i: Index, e: u64)
    requires InnerSlot(ram, k, owner, f, i)
    ensures forall g: Frame | k.IsStatic(g) ::
              var names := OwnersAfter(ram, owner, f, i, e); g in owner && g in names && names[g] == owner[g]
  {
    hide LinksNamed, HugeOnlyAtBoot;
    BootNames(ram, k, owner, f);
  }

  /** After the write the tables are a tree again, under some names, exactly when it put nothing,
      or a graftable frame, below its slot. */
  lemma TablesSurviveIff(ram: Ram, k: Layout, owner: Owners, f: Frame, i: Index, e: u64)
    requires InnerSlot(ram, k, owner, f, i)
    ensures (exists owner' :: TablesOk(Put(ram, f, i, e), k, owner')) <==> TreeAfter(ram, owner, f, i, e)
  {
    hide TablesOk, TreeAfter;
    if TreeAfter(ram, owner, f, i, e) { TreeIf(ram, k, owner, f, i, e); }
    if owner' :| TablesOk(Put(ram, f, i, e), k, owner') {
      if Present(e) { TreeOnlyIf(ram, k, owner, f, i, e, owner'); } else { TreeAfterAbsent(ram, owner, f, i, e); }
    }
  }

  lemma TreeAfterAbsent(ram: Ram, owner: Owners, f: Frame, i: Index, e: u64)
    requires f in owner && (owner[f].Pdpt? || owner[f].Pd?) && !Present(e)
    ensures TreeAfter(ram, owner, f, i, e)
  {
  }
}
