/** The Multiboot2 information block: the tag walk of the kernel, on bytes. */
module BootInfo {
  import opened Words
  import opened MemoryMap

  const MAX_ENTRIES: nat := 128

  // ---------------------------------------------------------------- little-endian reads


  function ReadU32(b: seq<u8>, at: nat): u32
    requires at + 4 <= |b|
  {
    var b0: int, b1: int, b2: int, b3: int := b[at], b[at + 1], b[at + 2], b[at + 3];
    b0 + 0x100 * b1 + 0x1_0000 * b2 + 0x100_0000 * b3
  }

  function ReadU64(b: seq<u8>, at: nat): u64
    requires at + 8 <= |b|
  {
    var low: int, high: int := ReadU32(b, at), ReadU32(b, at + 4);
    low + 0x1_0000_0000 * high
  }

  // ---------------------------------------------------------------- what is extracted

  datatype FramebufferInfo = FramebufferInfo(address: u64, width: u32, height: u32, pitch: u32, bpp: u8,
                                     redShift: u8, greenShift: u8, blueShift: u8,
                                     redMask: u8, greenMask: u8, blueMask: u8)

  const DEFAULT_FRAMEBUFFER := FramebufferInfo(0xb8000, 80, 25, 160, 16, 16, 8, 16, 0, 0, 0)

  /** What the walk has gathered: the framebuffer locals and the filled part of the static buffer. */
  datatype Gathered = Gathered(framebuffer: FramebufferInfo, memoryMap: seq<Entry>)

  const END_TAG: u32 := 0
  const MEMORY_MAP_TAG: u32 := 6
  const FRAMEBUFFER_TAG: u32 := 8
  const RGB: u8 := 1

  function Classify(kind: u32): MemoryType {
    match kind
    case 1 => Available
    case 3 => AcpiReclaimable
    case 4 => AcpiNvs
    case 5 => BadMemory
    case _ => Reserved
  }

  /** Types 1 to 5 keep their number, every other type is reserved. */
  lemma ClassifyKeepsNumbers(kind: u32)
    ensures Discriminant(Classify(kind)) == if 1 <= kind <= 5 then kind else 2
  {
  }

  function ReadEntry(b: seq<u8>, at: nat): Entry
    requires at + 20 <= |b|
  {
    Entry(ReadU64(b, at), ReadU64(b, at + 8), Classify(ReadU32(b, at + 16)))
  }

  function ReadFramebuffer(b: seq<u8>, at: nat): FramebufferInfo
    requires at + 38 <= |b|
  {
    FramebufferInfo(ReadU64(b, at + 8), ReadU32(b, at + 20), ReadU32(b, at + 24), ReadU32(b, at + 16), b[at + 28],
                b[at + 32], b[at + 34], b[at + 36], b[at + 33], b[at + 35], b[at + 37])
  }

  /** `(size + 7) & !7` */
  function Align8(size: nat): (r: nat)
    ensures size <= r < size + 8 && r % 8 == 0
  {
    (size + 7) / 8 * 8
  }

  // ---------------------------------------------------------------- the two loops

  /** Every read of the entry loop stays inside the block. */
  predicate EntriesSafe(b: seq<u8>, at: nat, end: nat, entrySize: nat, count: nat)
    decreases MAX_ENTRIES - count
  {
    at + entrySize <= end && count < MAX_ENTRIES ==>
      at + 20 <= |b| && EntriesSafe(b, at + entrySize, end, entrySize, count + 1)
  }

  /** The entries read by the loop from the `count`-th on; at most 128 whatever the entry size. */
  function ReadEntries(b: seq<u8>, at: nat, end: nat, entrySize: nat, count: nat): (r: seq<Entry>)
    requires EntriesSafe(b, at, end, entrySize, count)
    ensures count <= MAX_ENTRIES ==> |r| <= MAX_ENTRIES - count
    decreases MAX_ENTRIES - count
  {
    if at + entrySize <= end && count < MAX_ENTRIES
    then [ReadEntry(b, at)] + ReadEntries(b, at + entrySize, end, entrySize, count + 1)
    else []
  }

  lemma EntriesStep(b: seq<u8>, at: nat, end: nat, entrySize: nat, count: nat, whole: seq<Entry>)
    requires EntriesSafe(b, at, end, entrySize, count) && count <= |whole|
    requires ReadEntries(b, at, end, entrySize, count) == whole[count..]
    ensures if at + entrySize <= end && count < MAX_ENTRIES
            then count < |whole| && whole[count] == ReadEntry(b, at)
                 && ReadEntries(b, at + entrySize, end, entrySize, count + 1) == whole[count + 1..]
            else count == |whole|
  {
    hide ReadEntry;
    if at + entrySize <= end && count < MAX_ENTRIES {
      assert whole[count..][0] == whole[count] && whole[count..][1..] == whole[count + 1..];
    }
  }

  /** One tag is readable: its header, the fields the code reads for its type, and progress. */
  predicate TagSafe(b: seq<u8>, at: nat) {
    && at + 8 <= |b|
    && var kind, size := ReadU32(b, at), ReadU32(b, at + 4);
       (kind != END_TAG ==>
          && size > 0
          && (kind == FRAMEBUFFER_TAG ==> at + 30 <= |b| && (b[at + 29] == RGB ==> at + 38 <= |b|))
          && (kind == MEMORY_MAP_TAG ==>
                at + 12 <= |b| && EntriesSafe(b, at + 16, at + size, ReadU32(b, at + 8), 0)))
  }

  /** The walk panics at this tag. */
  predicate Unsupported(b: seq<u8>, at: nat)
    requires TagSafe(b, at)
  {
    ReadU32(b, at) == FRAMEBUFFER_TAG && b[at + 29] != RGB
  }

  /** Exactly what the walk needs of its caller: every read it makes is inside the block, and it
      moves forward. */
  predicate WalkSafe(b: seq<u8>, at: nat, end: nat)
    decreases end - at
  {
    at < end ==>
      && TagSafe(b, at)
      && (ReadU32(b, at) != END_TAG && !Unsupported(b, at) ==>
            WalkSafe(b, at + Align8(ReadU32(b, at + 4)), end))
  }

  /** What one tag contributes. */
  function TakeTag(b: seq<u8>, at: nat, g: Gathered): Gathered
    requires TagSafe(b, at) && !Unsupported(b, at)
  {
    var kind, size := ReadU32(b, at), ReadU32(b, at + 4);
    if kind == FRAMEBUFFER_TAG then g.(framebuffer := ReadFramebuffer(b, at))
    else if kind == MEMORY_MAP_TAG then g.(memoryMap := ReadEntries(b, at + 16, at + size, ReadU32(b, at + 8), 0))
    else g
  }

  /** The walk from `at`; None where the code panics. */
  function Walk(b: seq<u8>, at: nat, end: nat, g: Gathered): Option<Gathered>
    requires WalkSafe(b, at, end)
    decreases end - at
  {
    if at >= end || ReadU32(b, at) == END_TAG then Some(g)
    else if Unsupported(b, at) then None
    else Walk(b, at + Align8(ReadU32(b, at + 4)), end, TakeTag(b, at, g))
  }

  /** The whole parse of the block at `multibootInfo`; a null pointer leaves everything as it was. */
  function Parsed(multibootInfo: u64, block: seq<u8>, start: Gathered): Option<Gathered>
    requires BlockSafe(multibootInfo, block)
  {
    if multibootInfo == 0 then Some(start) else Walk(block, 8, ReadU32(block, 0), start)
  }

  predicate BlockSafe(multibootInfo: u64, block: seq<u8>) {
    multibootInfo != 0 ==> |block| >= 4 && WalkSafe(block, 8, ReadU32(block, 0))
  }

  // ---------------------------------------------------------------- the parser

  datatype Info = Info(magic: u64, memoryMapEntries: nat, framebuffer: FramebufferInfo)

  /** The statics MEMORY_MAP_BUFFER and MEMORY_MAP_COUNT, and the code that fills them. */
  class BootData {
    const buffer: array<Entry>
    var count: nat

    ghost predicate Valid()
      reads this
    {
      buffer.Length == MAX_ENTRIES && count <= MAX_ENTRIES
    }

    constructor ()
      ensures Valid() && fresh(buffer) && count == 0
    {
      buffer := new Entry[MAX_ENTRIES](_ => Entry(0, 0, Reserved));
      count := 0;
    }

    /** `block` is the memory at `multibootInfo`. None is the panic on a framebuffer that is not RGB. */
    method FromBootloader(multibootInfo: u64, block: seq<u8>) returns (r: Option<Info>)
      requires Valid() && BlockSafe(multibootInfo, block)
      modifies this, buffer
      ensures Valid()
      ensures var start := Gathered(DEFAULT_FRAMEBUFFER, old(buffer[..count]));
              match Parsed(multibootInfo, block, start)
              case Some(g) => r == Some(Info(multibootInfo, |g.memoryMap|, g.framebuffer)) && buffer[..count] == g.memoryMap
              case None => r == None
    {
      hide ReadU32, ReadFramebuffer, ReadEntries, EntriesSafe, Align8;
      var framebuffer := DEFAULT_FRAMEBUFFER;
      if multibootInfo != 0 {
        var end := ReadU32(block, 0);
        var at := 8;
        ghost var whole := Walk(block, 8, end, Gathered(framebuffer, buffer[..count]));
        while at < end
          invariant Valid() && WalkSafe(block, at, end)
          invariant Walk(block, at, end, Gathered(framebuffer, buffer[..count])) == whole
          decreases end - at
        {
          var tagType := ReadU32(block, at);
          var tagSize := ReadU32(block, at + 4);
          if tagType == END_TAG {
            break;
          }
          if tagType == FRAMEBUFFER_TAG {
            if block[at + 29] != RGB {
              return None;
            }
            framebuffer := ReadFramebuffer(block, at);
          }
          if tagType == MEMORY_MAP_TAG {
            FillBuffer(block, at + 16, at + tagSize, ReadU32(block, at + 8));
          }
          at := at + Align8(tagSize);
        }
      }
      return Some(Info(multibootInfo, count, framebuffer));
    }

    /** The entry loop. */
    method FillBuffer(block: seq<u8>, entriesStart: nat, entriesEnd: nat, entrySize: nat)
      requires Valid() && EntriesSafe(block, entriesStart, entriesEnd, entrySize, 0)
      modifies this, buffer
      ensures Valid() && buffer[..count] == ReadEntries(block, entriesStart, entriesEnd, entrySize, 0)
    {
      hide ReadEntry, ReadEntries;
      ghost var whole := ReadEntries(block, entriesStart, entriesEnd, entrySize, 0);
      var entryAddr: nat := entriesStart;
      var filled := 0;
      while entryAddr + entrySize <= entriesEnd && filled < buffer.Length
        invariant filled <= |whole| <= MAX_ENTRIES && EntriesSafe(block, entryAddr, entriesEnd, entrySize, filled)
        invariant forall i | 0 <= i < filled :: buffer[i] == whole[i]
        invariant ReadEntries(block, entryAddr, entriesEnd, entrySize, filled) == whole[filled..]
        decreases buffer.Length - filled
      {
        EntriesStep(block, entryAddr, entriesEnd, entrySize, filled, whole);
        buffer[filled] := ReadEntry(block, entryAddr);
        filled := filled + 1;
        entryAddr := entryAddr + entrySize;
      }
      EntriesStep(block, entryAddr, entriesEnd, entrySize, filled, whole);
      count := filled;
    }
  }

  // ---------------------------------------------------------------- blocks that are safe to walk

  /** Tags of at least 8 bytes that lie inside the block and are large enough for their type. */
  predicate Consistent(b: seq<u8>, at: nat, end: nat)
    decreases end - at
  {
    at < end ==>
      && at + 8 <= |b|
      && var kind, size := ReadU32(b, at), ReadU32(b, at + 4);
         (kind != END_TAG ==>
            && size >= 8 && at + size <= |b|
            && (kind == FRAMEBUFFER_TAG ==> size >= 38)
            && (kind == MEMORY_MAP_TAG ==> size >= 16 && ReadU32(b, at + 8) >= 20)
            && Consistent(b, at + Align8(size), end))
  }

  lemma {:induction false} ConsistentEntries(b: seq<u8>, at: nat, end: nat, entrySize: nat, count: nat)
    requires entrySize >= 20 && end <= |b|
    ensures EntriesSafe(b, at, end, entrySize, count)
    decreases MAX_ENTRIES - count
  {
    if at + entrySize <= end && count < MAX_ENTRIES {
      ConsistentEntries(b, at + entrySize, end, entrySize, count + 1);
    }
  }

  /** On a consistent block every read stays inside it and the walk terminates. */
  lemma {:induction false} ConsistentIsSafe(b: seq<u8>, at: nat, end: nat)
    requires Consistent(b, at, end)
    ensures WalkSafe(b, at, end)
    decreases end - at
  {
    if at < end && ReadU32(b, at) != END_TAG {
      var size := ReadU32(b, at + 4);
      if ReadU32(b, at) == MEMORY_MAP_TAG {
        ConsistentEntries(b, at + 16, at + size, ReadU32(b, at + 8), 0);
      }
      ConsistentIsSafe(b, at + Align8(size), end);
    }
  }
}
