/** The masks of a page-table entry, bit by bit: the arithmetic of PageTables is ADDR_MASK and
    FLAG_MASK of the kernel. */
module EntryBits {
  import opened Words
  import opened Bits
  import opened PageTables

  lemma FieldWidths()
    ensures Pow2(12) == PAGE_SIZE && Pow2(40) == FRAMES && Pow2(63) == NX
  {
    hide Pow2;
    SmallPowers();
    JoinPowers(4, 0x10, 4, 0x10);
    JoinPowers(8, 0x100, 4, 0x10);
    JoinPowers(8, 0x100, 8, 0x100);
    JoinPowers(16, 0x1_0000, 16, 0x1_0000);
    JoinPowers(32, 0x1_0000_0000, 8, 0x100);
    JoinPowers(40, FRAMES, 16, 0x1_0000);
    JoinPowers(56, 0x100_0000_0000_0000, 7, 0x80);
  }

  /** `e & 0x000F_FFFF_FFFF_F000` keeps bits 12 to 51. */
  lemma AddrMaskBits(e: u64, j: nat)
    ensures Bit(Addr(e), j) == (12 <= j < 52 && Bit(e, j))
  {
    hide Bit, Pow2;
    FieldWidths();
    var page, top := e / PAGE_SIZE, e / PAGE_SIZE / FRAMES;
    assert page == top * FRAMES + FrameOf(e);
    JoinedReads(FrameOf(e), 0, 12, j);
    JoinedReads(page, e % PAGE_SIZE, 12, j);
    if j < 12 {
      ZeroHasNoBits(j);
    } else {
      JoinedReads(top, FrameOf(e), 40, j - 12);
      if j >= 52 { NoHighBits(FrameOf(e), 40, j - 12); }
    }
  }

  /** `e & 0x8000_0000_0000_0FFF` keeps bits 0 to 11 and bit 63. */
  lemma FlagMaskBits(e: u64, j: nat)
    requires j < 64
    ensures Bit(Flags(e), j) == ((j < 12 || j == 63) && Bit(e, j))
  {
    hide Bit, Pow2;
    FieldWidths();
    var low := e % PAGE_SIZE;
    JoinedReads(e / PAGE_SIZE, low, 12, j);
    JoinedReads(e / NX, low, 63, j);
    JoinedReads(e / NX, e % NX, 63, j);
    if 12 <= j < 63 { NoHighBits(low, 12, j); }
  }

  /** The flag tests of the kernel read the bits they name. */
  lemma FlagTests(e: u64)
    ensures Present(e) <==> Bit(e, 0)
    ensures Writable(e) <==> Bit(e, 1)
    ensures Huge(e) <==> Bit(e, 7)
  {
    FlagMaskBits(e, 0);
    FlagMaskBits(e, 1);
    FlagMaskBits(e, 7);
    hide Flags;
    FlagAt(Flags(e), 0, 1);
    FlagAt(Flags(e), 1, WRITABLE);
    FlagAt(Flags(e), 7, HUGE_PAGE);
  }

  /** `flags | PRESENT` sets bit 0 and keeps every other bit. */
  lemma OrPresentBits(flags: u64, j: nat)
    ensures Bit(OrPresent(flags), j) == (j == 0 || Bit(flags, j))
  {
    SetBitReads(flags, 0, j);
  }

  /** An entry takes bits 12 to 51 from the address, bits 0 to 11 and 63 from the flags, and has no
      other bit. */
  lemma NewEntryBits(addr: u64, flags: u64, j: nat)
    requires j < 64
    ensures Bit(NewEntry(addr, flags), j) ==
            if 12 <= j < 52 then Bit(addr, j) else (j < 12 || j == 63) && Bit(flags, j)
  {
    hide Bit, Pow2, NewEntry;
    var e := NewEntry(addr, flags);
    NewEntryReads(addr, flags);
    AddrMaskBits(e, j);
    AddrMaskBits(addr, j);
    FlagMaskBits(e, j);
    FlagMaskBits(flags, j);
    if 52 <= j < 63 { ReservedBits(e, j); }
  }

  lemma ReservedBits(e: u64, j: nat)
    requires ReservedClear(e) && 52 <= j < 63
    ensures !Bit(e, j)
  {
    hide Bit, Pow2;
    FieldWidths();
    JoinPowers(40, FRAMES, 12, PAGE_SIZE);
    SmallPowers();
    JoinPowers(4, 0x10, 7, 0x80);
    var top := e / 0x10_0000_0000_0000;
    JoinedReads(top, e % 0x10_0000_0000_0000, 52, j);
    JoinedReads(top / 0x800, 0, 11, j - 52);
    ZeroHasNoBits(j - 52);
  }

  lemma FlagAt(w: nat, n: nat, mask: nat)
    requires mask == Pow2(n)
    ensures (w / mask) % 2 == 1 <==> Bit(w, n)
  {
    hide Pow2;
    assert w == (w / mask) * mask + w % mask;
    JoinedReads(w / mask, w % mask, n, n);
  }
}
