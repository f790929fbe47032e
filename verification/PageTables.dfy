/** x86-64 4-level page tables as words in physical memory: the entry codec, the walk, and what
    `map_page` and `unmap_page` do to memory and to the frame pool. */
module PageTables {
  import opened Words
  import opened FramePool

  /** Physical memory seen as 4 KiB frames of 512 words; ADDR_MASK keeps 40 bits of frame number. */
  const FRAMES: nat := 0x100_0000_0000
  const ENTRIES: nat := 512

  type Frame = f: nat | f < FRAMES
  type Index = i: nat | i < ENTRIES
  type Table = t: seq<u64> | |t| == ENTRIES witness seq(ENTRIES, i => 0)
  type Ram = r: seq<Table> | |r| == FRAMES ghost witness seq<Table>(FRAMES, f => ZeroTable())

  function ZeroTable(): (t: Table)
    ensures forall i | 0 <= i < ENTRIES :: t[i] == 0
  {
    seq(ENTRIES, i => 0)
  }

  // ---------------------------------------------------------------- entry codec

  const PRESENT: u64 := 1
  const WRITABLE: u64 := 2
  const HUGE_PAGE: u64 := 0x80
  const NX: u64 := 0x8000_0000_0000_0000

  function FrameOf(e: u64): Frame {
    (e / PAGE_SIZE) % FRAMES
  }

  /** `e & ADDR_MASK`: bits 12 to 51. */
  function Addr(e: u64): u64 {
    FrameOf(e) * PAGE_SIZE
  }

  /** `e & FLAG_MASK`: bits 0 to 11 and bit 63. */
  function Flags(e: u64): u64 {
    e % PAGE_SIZE + (e / NX) * NX
  }

  function NewEntry(addr: u64, flags: u64): u64 {
    Addr(addr) + Flags(flags)
  }

  function WithAddr(e: u64, addr: u64): u64 {
    Flags(e) + Addr(addr)
  }

  function WithFlags(e: u64, flags: u64): u64 {
    Addr(e) + Flags(flags)
  }

  predicate Present(e: u64) {
    Flags(e) % 2 == 1
  }

  predicate Huge(e: u64) {
    (Flags(e) / HUGE_PAGE) % 2 == 1
  }

  predicate Writable(e: u64) {
    (Flags(e) / WRITABLE) % 2 == 1
  }

  /** `flags | PRESENT` */
  function OrPresent(flags: u64): u64 {
    if flags % 2 == 1 then flags else flags + 1
  }

  /** Bits 52 to 62. */
  predicate ReservedClear(e: u64) {
    (e / 0x10_0000_0000_0000) % 0x800 == 0
  }

  /** A word is its four bit fields. */
  lemma PackedFields(nx: nat, reserved: nat, frame: nat, low: nat, e: u64)
    requires nx < 2 && reserved < 0x800 && frame < FRAMES && low < PAGE_SIZE
    requires e == nx * NX + reserved * 0x10_0000_0000_0000 + frame * PAGE_SIZE + low
    ensures e / NX == nx && e % PAGE_SIZE == low
    ensures FrameOf(e) == frame
    ensures ReservedClear(e) <==> reserved == 0
  {
    assert e / PAGE_SIZE == (nx * 0x800 + reserved) * FRAMES + frame;
    assert e / 0x10_0000_0000_0000 == nx * 0x800 + reserved;
  }

  ghost function ReservedField(e: u64): nat {
    (e / 0x10_0000_0000_0000) % 0x800
  }

  lemma FieldsOf(e: u64)
    ensures e / NX < 2
    ensures e == (e / NX) * NX + ReservedField(e) * 0x10_0000_0000_0000 + Addr(e) + e % PAGE_SIZE
  {
    var page := e / PAGE_SIZE;
    var top := e / 0x10_0000_0000_0000;
    assert top == page / FRAMES;
    assert top / 0x800 == e / NX;
  }

  /** Any pair of an address and flags is stored and read back without disturbing each other. */
  lemma NewEntryReads(addr: u64, flags: u64)
    ensures var e := NewEntry(addr, flags);
            FrameOf(e) == FrameOf(addr) && Flags(e) == Flags(flags) && ReservedClear(e)
  {
    FieldsOf(flags);
    PackedFields(flags / NX, 0, FrameOf(addr), flags % PAGE_SIZE, NewEntry(addr, flags));
  }

  /** Taking an entry apart and rebuilding it loses exactly the reserved bits. */
  lemma RebuildEntry(e: u64)
    ensures NewEntry(Addr(e), Flags(e)) == e <==> ReservedClear(e)
  {
    FieldsOf(e);
    PackedFields(0, 0, FrameOf(e), 0, Addr(e));
    PackedFields(e / NX, 0, 0, e % PAGE_SIZE, Flags(e));
  }

  /** `set_addr` and `set_flags` replace one half and keep the other. */
  lemma SettersKeepOtherHalf(e: u64, x: u64)
    ensures Flags(WithAddr(e, x)) == Flags(e) && Addr(WithAddr(e, x)) == Addr(x)
    ensures Addr(WithFlags(e, x)) == Addr(e) && Flags(WithFlags(e, x)) == Flags(x)
  {
    NewEntryReads(x, e);
    NewEntryReads(e, x);
  }

  /** A link to a table at a frame, as every non-leaf entry is written. */
  function LinkTo(f: Frame): u64 {
    NewEntry(f * PAGE_SIZE, PRESENT + WRITABLE)
  }

  lemma LinkReads(f: Frame)
    ensures FrameOf(LinkTo(f)) == f && Present(LinkTo(f)) && Writable(LinkTo(f)) && !Huge(LinkTo(f))
  {
    NewEntryReads(f * PAGE_SIZE, PRESENT + WRITABLE);
    PackedFields(0, 0, f, 0, f * PAGE_SIZE);
  }

  /** A link carries PRESENT and WRITABLE and no other flag. */
  lemma LinkFlags(f: Frame)
    ensures Flags(LinkTo(f)) == 3
  {
    NewEntryReads(f * PAGE_SIZE, PRESENT + WRITABLE);
  }

  lemma AddrOfAddr(e: u64)
    ensures Addr(Addr(e)) == Addr(e)
  {
    PackedFields(0, 0, FrameOf(e), 0, Addr(e));
  }

  lemma PresentBit(e: u64)
    ensures Present(e) <==> e % 2 == 1
  {
    assert (e % PAGE_SIZE) % 2 == e % 2;
    assert ((e / NX) * NX) % 2 == 0;
  }

  lemma LeafReads(phys: u64, flags: u64)
    ensures var e := NewEntry(phys, OrPresent(flags));
            Present(e) && FrameOf(e) == FrameOf(phys)
  {
    hide NewEntry;
    hide FrameOf;
    hide Flags;
    NewEntryReads(phys, OrPresent(flags));
    PresentBit(OrPresent(flags));
  }

  // ---------------------------------------------------------------- virtual addresses

  datatype Indices = Indices(pml4: Index, pdpt: Index, pd: Index, pt: Index, offset: nat)

  function IndicesOf(virt: u64): (ix: Indices)
    ensures ix.offset < PAGE_SIZE
  {
    Indices((virt / 0x80_0000_0000) % ENTRIES, (virt / 0x4000_0000) % ENTRIES,
            (virt / 0x20_0000) % ENTRIES, (virt / 0x1000) % ENTRIES, virt % PAGE_SIZE)
  }

  /** The five indices are the low 48 bits of the address and nothing else. */
  lemma IndicesAreLow48Bits(v: u64)
    ensures var ix := IndicesOf(v);
            v % 0x1_0000_0000_0000 == ix.pml4 * 0x80_0000_0000 + RegionOffset(ix)
    ensures v % 0x80_0000_0000 == RegionOffset(IndicesOf(v))
  {
    var a, b, c, d := v / 0x1000, v / 0x20_0000, v / 0x4000_0000, v / 0x80_0000_0000;
    assert b == a / 512 && c == b / 512 && d == c / 512;
    assert v / 0x1_0000_0000_0000 == d / 512;
  }

  /** The address with its PML4 index taken off: `v mod 2^39`. */
  function RegionOffset(ix: Indices): nat {
    ix.pdpt * 0x4000_0000 + ix.pd * 0x20_0000 + ix.pt * 0x1000 + ix.offset
  }

  // ---------------------------------------------------------------- the walk

  /** Frames of the static tables KPML4, KPDPT and KPD[0..4]. */
  datatype Layout = Layout(pml4: Frame, pdpt: Frame, pd: Frame) {
    predicate Valid() {
      && pd + 4 <= FRAMES
      && pml4 != pdpt && !(pd <= pml4 < pd + 4) && !(pd <= pdpt < pd + 4)
    }

    predicate IsStatic(f: Frame) {
      f == pml4 || f == pdpt || pd <= f < pd + 4
    }
  }

  function Translate(ram: Ram, k: Layout, virt: u64): Option<u64> {
    var ix := IndicesOf(virt);
    var pml4e := ram[k.pml4][ix.pml4];
    if !Present(pml4e) then None else
    var pdpte := ram[FrameOf(pml4e)][ix.pdpt];
    if !Present(pdpte) then None else
    if Huge(pdpte) then Some(Addr(pdpte) + virt % 0x4000_0000) else
    var pde := ram[FrameOf(pdpte)][ix.pd];
    if !Present(pde) then None else
    if Huge(pde) then Some(Addr(pde) + virt % 0x20_0000) else
    var pte := ram[FrameOf(pde)][ix.pt];
    if !Present(pte) then None else
    Some(Addr(pte) + ix.offset)
  }

  /** A huge entry is met on the walk of `virt`; `translate` tests for this, the updates do not. */
  predicate HugeOnPath(ram: Ram, k: Layout, virt: u64) {
    var ix := IndicesOf(virt);
    var pml4e := ram[k.pml4][ix.pml4];
    Present(pml4e) &&
    var pdpte := ram[FrameOf(pml4e)][ix.pdpt];
    Present(pdpte) &&
    (Huge(pdpte) ||
     var pde := ram[FrameOf(pdpte)][ix.pd];
     Present(pde) && Huge(pde))
  }

  /** Whatever memory holds, translation keeps the offset within a page. */
  lemma TranslateKeepsOffset(ram: Ram, k: Layout, v: u64)
    ensures Translate(ram, k, v).Some? ==> Translate(ram, k, v).value % PAGE_SIZE == v % PAGE_SIZE
  {
    hide Addr, FrameOf, Present, Huge, IndicesOf;
    var ix := IndicesOf(v);
    var pdpte := ram[FrameOf(ram[k.pml4][ix.pml4])][ix.pdpt];
    var pde := ram[FrameOf(pdpte)][ix.pd];
    var pte := ram[FrameOf(pde)][ix.pt];
    OffsetParts(v);
    AddrSum(pdpte, v % 0x4000_0000);
    AddrSum(pde, v % 0x20_0000);
    AddrSum(pte, ix.offset);
  }

  lemma AddrSum(e: u64, x: nat)
    ensures (Addr(e) + x) % PAGE_SIZE == x % PAGE_SIZE
  {
    hide FrameOf;
  }

  lemma PageSum(f: nat, x: nat)
    ensures (f * PAGE_SIZE + x) % PAGE_SIZE == x % PAGE_SIZE
  {
  }

  lemma OffsetParts(v: u64)
    ensures (v % 0x4000_0000) % PAGE_SIZE == v % PAGE_SIZE
    ensures (v % 0x20_0000) % PAGE_SIZE == v % PAGE_SIZE
    ensures IndicesOf(v).offset % PAGE_SIZE == v % PAGE_SIZE
  {
    PageSum(v / 0x4000_0000 * 0x4_0000, v % 0x4000_0000);
    PageSum(v / 0x20_0000 * 0x200, v % 0x20_0000);
  }

  /** The walk of `virt` meets a 1 GiB entry. */
  predicate GiantOnPath(ram: Ram, k: Layout, virt: u64) {
    var ix := IndicesOf(virt);
    var pml4e := ram[k.pml4][ix.pml4];
    Present(pml4e) &&
    var pdpte := ram[FrameOf(pml4e)][ix.pdpt];
    Present(pdpte) && Huge(pdpte)
  }

  /** Below a huge entry translation is linear over the whole region the entry maps: 1 GiB for an
      entry of a PDPT, 2 MiB for an entry of a page directory. */
  lemma HugeRegionIsLinear(ram: Ram, k: Layout, v: u64, w: u64)
    requires v <= w
    requires || (GiantOnPath(ram, k, v) && v / 0x4000_0000 == w / 0x4000_0000)
             || (HugeOnPath(ram, k, v) && v / 0x20_0000 == w / 0x20_0000)
    ensures Translate(ram, k, v).Some? && Translate(ram, k, w) == Some(Translate(ram, k, v).value + (w - v))
  {
    hide FrameOf, Present, Huge;
    assert v / 0x4000_0000 == v / 0x20_0000 / 512 && w / 0x4000_0000 == w / 0x20_0000 / 512;
    assert v / 0x80_0000_0000 == v / 0x4000_0000 / 512 && w / 0x80_0000_0000 == w / 0x4000_0000 / 512;
  }

  /** The first address of the region translates to the address the huge entry holds. */
  lemma HugeRegionStart(ram: Ram, k: Layout, v: u64)
    ensures var ix := IndicesOf(v);
            var pdpte := ram[FrameOf(ram[k.pml4][ix.pml4])][ix.pdpt];
            && (GiantOnPath(ram, k, v) && v % 0x4000_0000 == 0 ==> Translate(ram, k, v) == Some(Addr(pdpte)))
            && (HugeOnPath(ram, k, v) && !GiantOnPath(ram, k, v) && v % 0x20_0000 == 0 ==>
                  Translate(ram, k, v) == Some(Addr(ram[FrameOf(pdpte)][ix.pd])))
  {
    hide FrameOf, Present, Huge;
  }

  // ---------------------------------------------------------------- updates

  function Put(ram: Ram, f: Frame, i: Index, e: u64): Ram {
    ram[f := ram[f][i := e]]
  }

  function Zeroed(ram: Ram, f: Frame): Ram {
    ram[f := ZeroTable()]
  }

  datatype MapError = NoPdptFrame | NoPdFrame | NoPtFrame
  datatype Entered = Entered(ram: Ram, pool: Pool, next: Result<Frame, MapError>)

  /** One level of `map_page`: follow the entry, or link a newly drawn table and zero it. */
  function EnterTable(ram: Ram, pool: Pool, f: Frame, i: Index, error: MapError): (r: Entered)
    requires pool.Valid()
    ensures r.pool.Valid()
  {
    if Present(ram[f][i]) then Entered(ram, pool, Ok(FrameOf(ram[f][i])))
    else
      AllocTakesOne(pool);
      var a := Alloc(pool);
      if a.page.None? then Entered(ram, a.pool, Err(error))
      else
        var linked := Put(ram, f, i, LinkTo(a.page.value));
        var zeroed := Zeroed(linked, FrameOf(linked[f][i]));
        Entered(zeroed, a.pool, Ok(FrameOf(zeroed[f][i])))
  }

  /** The three levels above the page table, in turn. */
  function EnterPageTable(ram: Ram, pool: Pool, k: Layout, virt: u64): (r: Entered)
    requires pool.Valid()
    ensures r.pool.Valid()
  {
    var ix := IndicesOf(virt);
    var a := EnterTable(ram, pool, k.pml4, ix.pml4, NoPdptFrame);
    if a.next.Err? then a else
    var b := EnterTable(a.ram, a.pool, a.next.value, ix.pdpt, NoPdFrame);
    if b.next.Err? then b else
    EnterTable(b.ram, b.pool, b.next.value, ix.pd, NoPtFrame)
  }

  datatype Mapped = Mapped(ram: Ram, pool: Pool, result: Result<(), MapError>)

  function MapPage(ram: Ram, pool: Pool, k: Layout, virt: u64, phys: u64, flags: u64): (m: Mapped)
    requires pool.Valid()
    ensures m.pool.Valid()
  {
    var c := EnterPageTable(ram, pool, k, virt);
    match c.next
    case Err(error) => Mapped(c.ram, c.pool, Err(error))
    case Ok(pt) => Mapped(Put(c.ram, pt, IndicesOf(virt).pt, NewEntry(phys, OrPresent(flags))), c.pool, Ok(()))
  }

  datatype UnmapError = NoPml4Entry | NoPdptEntry | NoPdEntry | NoPtEntry
  datatype Unmapped = Unmapped(ram: Ram, result: Result<u64, UnmapError>)

  function UnmapPage(ram: Ram, k: Layout, virt: u64): Unmapped {
    var ix := IndicesOf(virt);
    var pml4e := ram[k.pml4][ix.pml4];
    if !Present(pml4e) then Unmapped(ram, Err(NoPml4Entry)) else
    var pdpte := ram[FrameOf(pml4e)][ix.pdpt];
    if !Present(pdpte) then Unmapped(ram, Err(NoPdptEntry)) else
    var pde := ram[FrameOf(pdpte)][ix.pd];
    if !Present(pde) then Unmapped(ram, Err(NoPdEntry)) else
    var pte := ram[FrameOf(pde)][ix.pt];
    if !Present(pte) then Unmapped(ram, Err(NoPtEntry)) else
    Unmapped(Put(ram, FrameOf(pde), ix.pt, 0), Ok(Addr(pte)))
  }

  // ---------------------------------------------------------------- boot tables

  function HugeEntry(j: nat, i: nat): u64
    requires j < 4 && i < ENTRIES
  {
    NewEntry((j * 512 + i) * 0x20_0000, PRESENT + WRITABLE + HUGE_PAGE)
  }

  /** The entries `init` writes. */
  ghost predicate BootEntries(ram: Ram, k: Layout)
    requires k.Valid()
  {
    && ram[k.pml4][0] == LinkTo(k.pdpt) && ram[k.pml4][511] == LinkTo(k.pdpt)
    && (forall j | 0 <= j < 4 :: ram[k.pdpt][j] == LinkTo(k.pd + j))
    && (forall f: Frame, i | k.pd <= f < k.pd + 4 && 0 <= i < ENTRIES :: ram[f][i] == HugeEntry(f - k.pd, i))
  }

  /** A boot entry carries PRESENT, WRITABLE and HUGE_PAGE and no other flag. */
  lemma HugeFlags(j: nat, i: nat)
    requires j < 4 && i < ENTRIES
    ensures Flags(HugeEntry(j, i)) == 0x83
  {
    NewEntryReads((j * 512 + i) * 0x20_0000, PRESENT + WRITABLE + HUGE_PAGE);
  }

  lemma HugeReads(j: nat, i: nat)
    requires j < 4 && i < ENTRIES
    ensures Present(HugeEntry(j, i)) && Writable(HugeEntry(j, i)) && Huge(HugeEntry(j, i))
    ensures Addr(HugeEntry(j, i)) == (j * 512 + i) * 0x20_0000
  {
    var addr := (j * 512 + i) * 0x20_0000;
    NewEntryReads(addr, PRESENT + WRITABLE + HUGE_PAGE);
    PackedFields(0, 0, (j * 512 + i) * 512, 0, addr);
  }
}
