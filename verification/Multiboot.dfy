/** Multiboot2 information blocks as a boot loader writes them, and the round trip through the
    kernel's walk. Layout: section 3.6 of the Multiboot2 specification. */
module Multiboot {
  import opened Words
  import opened FramePool
  import opened MemoryMap
  import opened BootInfo

  // ---------------------------------------------------------------- encoding

  function U32Bytes(x: u32): (r: seq<u8>)
    ensures |r| == 4
  {
    [x % 0x100, x / 0x100 % 0x100, x / 0x1_0000 % 0x100, x / 0x100_0000]
  }

  function U64Bytes(x: u64): (r: seq<u8>)
    ensures |r| == 8
  {
    U32Bytes(x % 0x1_0000_0000) + U32Bytes(x / 0x1_0000_0000)
  }

  /** A memory-map entry, with whatever the entry size leaves after the three fields. */
  datatype RawEntry = RawEntry(base: u64, length: u64, kind: u32, rest: seq<u8>)

  /** A tag with the bytes that follow it up to the next multiple of 8. */
  datatype Tag =
    | MemoryMapTag(entrySize: u32, version: u32, entries: seq<RawEntry>, padding: seq<u8>)
    | FramebufferTag(info: FramebufferInfo, colors: u8, reserved0: u8, reserved1: u8, tail: seq<u8>, padding: seq<u8>)
    | OtherTag(kind: u32, payload: seq<u8>, padding: seq<u8>)

  function EncodeEntry(e: RawEntry): (r: seq<u8>)
    ensures |r| == 20 + |e.rest|
  {
    U64Bytes(e.base) + U64Bytes(e.length) + U32Bytes(e.kind) + e.rest
  }

  function EncodeEntries(entries: seq<RawEntry>): seq<u8> {
    if entries == [] then [] else EncodeEntry(entries[0]) + EncodeEntries(entries[1..])
  }

  function Payload(t: Tag): seq<u8> {
    match t
    case MemoryMapTag(entrySize, version, entries, _) => U32Bytes(entrySize) + U32Bytes(version) + EncodeEntries(entries)
    case FramebufferTag(f, colors, r0, r1, tail, _) =>
      U64Bytes(f.address) + U32Bytes(f.pitch) + U32Bytes(f.width) + U32Bytes(f.height)
      + [f.bpp, colors, r0, r1, f.redShift, f.redMask, f.greenShift, f.greenMask, f.blueShift, f.blueMask] + tail
    case OtherTag(_, payload, _) => payload
  }

  function KindOf(t: Tag): u32 {
    match t
    case MemoryMapTag(_, _, _, _) => MEMORY_MAP_TAG
    case FramebufferTag(_, _, _, _, _, _) => FRAMEBUFFER_TAG
    case OtherTag(kind, _, _) => kind
  }

  ghost predicate WellFormed(t: Tag) {
    && 8 + |Payload(t)| < 0x1_0000_0000
    && |t.padding| == Align8(8 + |Payload(t)|) - (8 + |Payload(t)|)
    && (t.MemoryMapTag? ==> t.entrySize >= 20 && forall i | 0 <= i < |t.entries| :: |t.entries[i].rest| == t.entrySize - 20)
    && (t.OtherTag? ==> t.kind != END_TAG && t.kind != MEMORY_MAP_TAG && t.kind != FRAMEBUFFER_TAG)
  }

  /** The kernel does not panic at this tag. */
  predicate Supported(t: Tag) {
    t.FramebufferTag? ==> t.colors == RGB
  }

  ghost predicate AllSupported(tags: seq<Tag>) {
    forall t | t in tags :: Supported(t)
  }

  function EncodeTag(t: Tag): (r: seq<u8>)
    requires WellFormed(t)
    ensures |r| == Align8(8 + |Payload(t)|)
  {
    U32Bytes(KindOf(t)) + U32Bytes(8 + |Payload(t)|) + Payload(t) + t.padding
  }

  function EncodeTags(tags: seq<Tag>): seq<u8>
    requires forall t | t in tags :: WellFormed(t)
  {
    if tags == [] then U32Bytes(END_TAG) + U32Bytes(8)
    else
      assert WellFormed(tags[0]) by { assert tags[0] in tags; }
      EncodeTag(tags[0]) + EncodeTags(tags[1..])
  }

  function EncodeBlock(tags: seq<Tag>, reserved: u32): seq<u8>
    requires forall t | t in tags :: WellFormed(t)
    requires 8 + |EncodeTags(tags)| < 0x1_0000_0000
  {
    U32Bytes(8 + |EncodeTags(tags)|) + U32Bytes(reserved) + EncodeTags(tags)
  }

  // ---------------------------------------------------------------- meaning of a list of tags

  function Meaning(e: RawEntry): Entry {
    Entry(e.base, e.length, Classify(e.kind))
  }

  function Meanings(entries: seq<RawEntry>): (r: seq<Entry>)
    ensures |r| == |entries| && forall i | 0 <= i < |r| :: r[i] == Meaning(entries[i])
  {
    if entries == [] then [] else [Meaning(entries[0])] + Meanings(entries[1..])
  }

  /** The first 128 entries of the last memory-map tag. */
  function LastMap(tags: seq<Tag>, default: seq<Entry>): seq<Entry> {
    if tags == [] then default
    else
      var t := tags[|tags| - 1];
      if t.MemoryMapTag? then Meanings(t.entries)[..Min(|t.entries|, 128)]
      else LastMap(tags[..|tags| - 1], default)
  }

  /** The fields of the last framebuffer tag. */
  function LastFramebuffer(tags: seq<Tag>, default: FramebufferInfo): FramebufferInfo {
    if tags == [] then default
    else
      var t := tags[|tags| - 1];
      if t.FramebufferTag? then t.info else LastFramebuffer(tags[..|tags| - 1], default)
  }

  // ---------------------------------------------------------------- reading back what was written

  /** `part` stands at offset `at` of `b`. */
  ghost predicate At(b: seq<u8>, at: nat, part: seq<u8>) {
    at + |part| <= |b| && b[at..at + |part|] == part
  }

  lemma AtSplit(b: seq<u8>, at: nat, x: seq<u8>, y: seq<u8>)
    requires At(b, at, x + y)
    ensures At(b, at, x) && At(b, at + |x|, y)
  {
    var whole := b[at..at + |x + y|];
    assert whole[..|x|] == x && whole[|x|..] == y;
    assert b[at..at + |x|] == whole[..|x|];
    assert b[at + |x|..at + |x| + |y|] == whole[|x|..];
  }

  lemma AtIndex(b: seq<u8>, at: nat, part: seq<u8>, i: nat)
    requires At(b, at, part) && i < |part|
    ensures b[at + i] == part[i]
  {
    assert b[at..at + |part|][i] == b[at + i];
  }

  lemma ReadBackU32(b: seq<u8>, at: nat, x: u32)
    requires At(b, at, U32Bytes(x))
    ensures ReadU32(b, at) == x
  {
    var p := U32Bytes(x);
    AtIndex(b, at, p, 0);
    AtIndex(b, at, p, 1);
    AtIndex(b, at, p, 2);
    AtIndex(b, at, p, 3);
    assert x / 0x1_0000 == x / 0x100 / 0x100 && x / 0x100_0000 == x / 0x1_0000 / 0x100;
  }

  lemma ReadBackU64(b: seq<u8>, at: nat, x: u64)
    requires At(b, at, U64Bytes(x))
    ensures ReadU64(b, at) == x
  {
    AtSplit(b, at, U32Bytes(x % 0x1_0000_0000), U32Bytes(x / 0x1_0000_0000));
    ReadBackU32(b, at, x % 0x1_0000_0000);
    ReadBackU32(b, at + 4, x / 0x1_0000_0000);
  }

  lemma ReadBackEntry(b: seq<u8>, at: nat, e: RawEntry)
    requires At(b, at, EncodeEntry(e))
    ensures at + 20 <= |b| && ReadEntry(b, at) == Meaning(e)
  {
    hide ReadU32, ReadU64;
    AtSplit(b, at, U64Bytes(e.base) + U64Bytes(e.length) + U32Bytes(e.kind), e.rest);
    AtSplit(b, at, U64Bytes(e.base) + U64Bytes(e.length), U32Bytes(e.kind));
    AtSplit(b, at, U64Bytes(e.base), U64Bytes(e.length));
    ReadBackU64(b, at, e.base);
    ReadBackU64(b, at + 8, e.length);
    ReadBackU32(b, at + 16, e.kind);
  }

  lemma {:induction false} ReadBackEntries(b: seq<u8>, at: nat, entries: seq<RawEntry>, entrySize: nat, count: nat)
    requires entrySize >= 20 && forall i | 0 <= i < |entries| :: |entries[i].rest| == entrySize - 20
    requires At(b, at, EncodeEntries(entries)) && count <= MAX_ENTRIES
    ensures var end := at + |EncodeEntries(entries)|;
            && EntriesSafe(b, at, end, entrySize, count)
            && ReadEntries(b, at, end, entrySize, count) == Meanings(entries)[..Min(|entries|, MAX_ENTRIES - count)]
    decreases |entries|
  {
    hide ReadEntry;
    if entries != [] {
      AtSplit(b, at, EncodeEntry(entries[0]), EncodeEntries(entries[1..]));
      ReadBackEntry(b, at, entries[0]);
      if count < MAX_ENTRIES {
        ReadBackEntries(b, at + entrySize, entries[1..], entrySize, count + 1);
      }
    }
  }

  lemma ReadBackWords(b: seq<u8>, at: nat, address: u64, pitch: u32, width: u32, height: u32, last: seq<u8>)
    requires At(b, at, U64Bytes(address) + U32Bytes(pitch) + U32Bytes(width) + U32Bytes(height) + last)
    ensures At(b, at + 20, last) && at + 20 <= |b|
    ensures ReadU64(b, at) == address && ReadU32(b, at + 8) == pitch
    ensures ReadU32(b, at + 12) == width && ReadU32(b, at + 16) == height
  {
    hide ReadU32, ReadU64, U32Bytes, U64Bytes;
    var a, p, w, h := U64Bytes(address), U32Bytes(pitch), U32Bytes(width), U32Bytes(height);
    AtSplit(b, at, a + p + w + h, last);
    AtSplit(b, at, a + p + w, h);
    AtSplit(b, at, a + p, w);
    AtSplit(b, at, a, p);
    ReadBackU64(b, at, address);
    ReadBackU32(b, at + 8, pitch);
    ReadBackU32(b, at + 12, width);
    ReadBackU32(b, at + 16, height);
  }

  lemma ReadBackFramebuffer(b: seq<u8>, at: nat, t: Tag)
    requires t.FramebufferTag? && At(b, at + 8, Payload(t))
    ensures at + 38 <= |b| && b[at + 29] == t.colors && ReadFramebuffer(b, at) == t.info
  {
    hide ReadU32, ReadU64, U32Bytes, U64Bytes, At;
    var f := t.info;
    var last := [f.bpp, t.colors, t.reserved0, t.reserved1,
                 f.redShift, f.redMask, f.greenShift, f.greenMask, f.blueShift, f.blueMask];
    var words := U64Bytes(f.address) + U32Bytes(f.pitch) + U32Bytes(f.width) + U32Bytes(f.height);
    AtSplit(b, at + 8, words + last, t.tail);
    ReadBackWords(b, at + 8, f.address, f.pitch, f.width, f.height, last);
    ReadBackBytes(b, at + 28, last);
  }

  lemma ReadBackBytes(b: seq<u8>, at: nat, last: seq<u8>)
    requires |last| == 10 && At(b, at, last)
    ensures at + 10 <= |b|
    ensures b[at] == last[0] && b[at + 1] == last[1] && b[at + 4] == last[4] && b[at + 5] == last[5]
    ensures b[at + 6] == last[6] && b[at + 7] == last[7] && b[at + 8] == last[8] && b[at + 9] == last[9]
  {
    forall i: nat | i < 10 ensures b[at + i] == last[i] { AtIndex(b, at, last, i); }
  }

  // ---------------------------------------------------------------- the round trip

  function Absorb(t: Tag, g: Gathered): Gathered {
    match t
    case MemoryMapTag(_, _, entries, _) => g.(memoryMap := Meanings(entries)[..Min(|entries|, MAX_ENTRIES)])
    case FramebufferTag(info, _, _, _, _, _) => g.(framebuffer := info)
    case OtherTag(_, _, _) => g
  }

  lemma ReadBackHeader(b: seq<u8>, at: nat, t: Tag)
    requires WellFormed(t) && At(b, at, EncodeTag(t))
    ensures at + 8 <= |b| && At(b, at + 8, Payload(t))
    ensures ReadU32(b, at) == KindOf(t) && ReadU32(b, at + 4) == 8 + |Payload(t)|
  {
    hide ReadU32, Align8, Payload, U32Bytes;
    var size := 8 + |Payload(t)|;
    var head := U32Bytes(KindOf(t)) + U32Bytes(size);
    AtSplit(b, at, head + Payload(t), t.padding);
    AtSplit(b, at, head, Payload(t));
    AtSplit(b, at, U32Bytes(KindOf(t)), U32Bytes(size));
    ReadBackU32(b, at, KindOf(t));
    ReadBackU32(b, at + 4, size);
  }

  lemma ReadBackMap(b: seq<u8>, at: nat, t: Tag)
    requires WellFormed(t) && t.MemoryMapTag? && At(b, at + 8, Payload(t))
    ensures at + 12 <= |b| && ReadU32(b, at + 8) == t.entrySize
    ensures EntriesSafe(b, at + 16, at + (8 + |Payload(t)|), t.entrySize, 0)
    ensures ReadEntries(b, at + 16, at + (8 + |Payload(t)|), t.entrySize, 0)
         == Meanings(t.entries)[..Min(|t.entries|, MAX_ENTRIES)]
  {
    hide ReadU32, U32Bytes, EntriesSafe, ReadEntries, EncodeEntries;
    AtSplit(b, at + 8, U32Bytes(t.entrySize) + U32Bytes(t.version), EncodeEntries(t.entries));
    AtSplit(b, at + 8, U32Bytes(t.entrySize), U32Bytes(t.version));
    ReadBackU32(b, at + 8, t.entrySize);
    ReadBackEntries(b, at + 16, t.entries, t.entrySize, 0);
  }

  lemma ReadBackTag(b: seq<u8>, at: nat, t: Tag, g: Gathered)
    requires WellFormed(t) && At(b, at, EncodeTag(t))
    ensures TagSafe(b, at) && (Unsupported(b, at) <==> !Supported(t))
    ensures ReadU32(b, at) == KindOf(t) != END_TAG && ReadU32(b, at + 4) == 8 + |Payload(t)|
    ensures Supported(t) ==> TakeTag(b, at, g) == Absorb(t, g)
  {
    hide ReadU32, ReadFramebuffer, ReadEntries, EntriesSafe, Align8, Payload, EncodeTag, At;
    ReadBackHeader(b, at, t);
    match t
    case MemoryMapTag(_, _, _, _) => ReadBackMap(b, at, t);
    case FramebufferTag(_, _, _, _, _, _) => ReadBackFramebuffer(b, at, t);
    case OtherTag(_, _, _) =>
  }

  function AbsorbAll(tags: seq<Tag>, g: Gathered): Gathered {
    if tags == [] then g else AbsorbAll(tags[1..], Absorb(tags[0], g))
  }

  lemma {:induction false} WalkReadsBack(b: seq<u8>, at: nat, tags: seq<Tag>, g: Gathered)
    requires forall t | t in tags :: WellFormed(t)
    requires At(b, at, EncodeTags(tags))
    ensures var end := at + |EncodeTags(tags)|;
            && WalkSafe(b, at, end)
            && Walk(b, at, end, g) == if AllSupported(tags) then Some(AbsorbAll(tags, g)) else None
    decreases |tags|
  {
    hide ReadU32, TagSafe, Unsupported, TakeTag, Supported, AllSupported, WellFormed, Walk, WalkSafe, EncodeTag,
         Absorb, Align8;
    FirstSupported(tags);
    if tags == [] {
      AtSplit(b, at, U32Bytes(END_TAG), U32Bytes(8));
      ReadBackU32(b, at, END_TAG);
      WalkEnds(b, at, at + 8, g);
    } else {
      var t := tags[0];
      assert t in tags;
      AtSplit(b, at, EncodeTag(t), EncodeTags(tags[1..]));
      ReadBackTag(b, at, t, g);
      WalkStep(b, at, at + |EncodeTags(tags)|, g);
      if Supported(t) { WalkReadsBack(b, at + |EncodeTag(t)|, tags[1..], Absorb(t, g)); }
    }
  }

  lemma FirstSupported(tags: seq<Tag>)
    ensures AllSupported(tags) <==> tags == [] || (Supported(tags[0]) && AllSupported(tags[1..]))
  {
    if tags != [] { assert tags == [tags[0]] + tags[1..]; }
  }

  lemma WalkEnds(b: seq<u8>, at: nat, end: nat, g: Gathered)
    requires at + 8 <= |b| && ReadU32(b, at) == END_TAG
    ensures WalkSafe(b, at, end) && Walk(b, at, end, g) == Some(g)
  {
  }

  lemma WalkStep(b: seq<u8>, at: nat, end: nat, g: Gathered)
    requires at < end && TagSafe(b, at) && ReadU32(b, at) != END_TAG
    ensures var next := at + Align8(ReadU32(b, at + 4));
            && (Unsupported(b, at) ==> WalkSafe(b, at, end) && Walk(b, at, end, g) == None)
            && (!Unsupported(b, at) && WalkSafe(b, next, end) ==>
                  WalkSafe(b, at, end) && Walk(b, at, end, g) == Walk(b, next, end, TakeTag(b, at, g)))
  {
    hide ReadU32, EntriesSafe, TakeTag;
  }

  lemma {:induction false} AbsorbAppend(tags: seq<Tag>, t: Tag, g: Gathered)
    ensures AbsorbAll(tags + [t], g) == Absorb(t, AbsorbAll(tags, g))
    decreases |tags|
  {
    if tags == [] {
      assert tags + [t] == [t];
    } else {
      assert (tags + [t])[1..] == tags[1..] + [t];
      AbsorbAppend(tags[1..], t, Absorb(tags[0], g));
    }
  }

  /** The last tag of each kind wins. */
  lemma {:induction false} AbsorbIsLast(tags: seq<Tag>, g: Gathered)
    ensures AbsorbAll(tags, g) == Gathered(LastFramebuffer(tags, g.framebuffer), LastMap(tags, g.memoryMap))
    decreases |tags|
  {
    if tags != [] {
      var n := |tags| - 1;
      assert tags[..n] + [tags[n]] == tags;
      AbsorbAppend(tags[..n], tags[n], g);
      AbsorbIsLast(tags[..n], g);
    }
  }

  /** Round trip: parsing the encoding of any list of tags yields the first 128 entries of the last
      memory map and the fields of the last framebuffer, and skips everything else, padding
      included; it panics exactly when some framebuffer is not RGB. Without a block nothing changes. */
  lemma RoundTrip(multibootInfo: u64, tags: seq<Tag>, reserved: u32, g: Gathered)
    requires forall t | t in tags :: WellFormed(t)
    requires 8 + |EncodeTags(tags)| < 0x1_0000_0000
    ensures var b := EncodeBlock(tags, reserved);
            && BlockSafe(multibootInfo, b)
            && Parsed(multibootInfo, b, g)
               == if multibootInfo == 0 then Some(g)
                  else if AllSupported(tags)
                  then Some(Gathered(LastFramebuffer(tags, g.framebuffer), LastMap(tags, g.memoryMap)))
                  else None
  {
    hide ReadU32, Walk, WalkSafe;
    var b := EncodeBlock(tags, reserved);
    var head := U32Bytes(8 + |EncodeTags(tags)|) + U32Bytes(reserved);
    assert b[0..|b|] == b;
    AtSplit(b, 0, head, EncodeTags(tags));
    AtSplit(b, 0, U32Bytes(8 + |EncodeTags(tags)|), U32Bytes(reserved));
    ReadBackU32(b, 0, 8 + |EncodeTags(tags)|);
    WalkReadsBack(b, 8, tags, g);
    AbsorbIsLast(tags, g);
  }

  /** What the kernel starts from: no memory map, and the text screen at 0xb8000. A block without
      such tags, or no block at all, leaves it at that. */
  lemma BootDefaults(multibootInfo: u64, tags: seq<Tag>, reserved: u32)
    requires forall t | t in tags :: WellFormed(t)
    requires 8 + |EncodeTags(tags)| < 0x1_0000_0000
    requires multibootInfo != 0 ==> forall t | t in tags :: t.OtherTag?
    ensures var b := EncodeBlock(tags, reserved);
            && BlockSafe(multibootInfo, b)
            && Parsed(multibootInfo, b, Gathered(DEFAULT_FRAMEBUFFER, []))
               == Some(Gathered(FramebufferInfo(0xb8000, 80, 25, 160, 16, 16, 8, 16, 0, 0, 0), []))
  {
    hide EncodeBlock, Parsed, BlockSafe;
    var g := Gathered(DEFAULT_FRAMEBUFFER, []);
    RoundTrip(multibootInfo, tags, reserved, g);
    if multibootInfo != 0 { NothingRelevant(tags, g); }
  }

  lemma {:induction false} NothingRelevant(tags: seq<Tag>, g: Gathered)
    requires forall t | t in tags :: t.OtherTag?
    ensures AllSupported(tags)
    ensures LastFramebuffer(tags, g.framebuffer) == g.framebuffer && LastMap(tags, g.memoryMap) == g.memoryMap
    decreases |tags|
  {
    if tags != [] {
      assert tags[|tags| - 1] in tags;
      assert forall t | t in tags[..|tags| - 1] :: t in tags;
      NothingRelevant(tags[..|tags| - 1], g);
    }
  }

  /** From the loader's bytes to the allocator: a page is free after boot exactly when it lies
      inside an Available entry among the first 128 of the last memory map. */
  lemma BootedFreeSet(multibootInfo: u64, tags: seq<Tag>, reserved: u32, page: nat)
    requires multibootInfo != 0 && AllSupported(tags) && forall t | t in tags :: WellFormed(t)
    requires 8 + |EncodeTags(tags)| < 0x1_0000_0000
    requires AllRoundExactly(LastMap(tags, []))
    ensures var b := EncodeBlock(tags, reserved);
            && BlockSafe(multibootInfo, b)
            && var g := Parsed(multibootInfo, b, Gathered(DEFAULT_FRAMEBUFFER, []));
               && g.Some?
               && (page in InitialPool(g.value.memoryMap).free <==>
                     page < 0x10_0000 && Covered(page, LastMap(tags, [])))
  {
    hide EncodeBlock, Parsed, BlockSafe, InitialPool;
    RoundTrip(multibootInfo, tags, reserved, Gathered(DEFAULT_FRAMEBUFFER, []));
    InitialFreeSet(LastMap(tags, []), page);
  }
}
