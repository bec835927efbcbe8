/** Where heap blocks lie: size classes, the pages of a segment, and the bitmap of a page.

    Addresses are numbers.  A segment is 4 MiB, aligned to its size; its first 64 KiB hold the segment and
    page records, and page i is the i-th 64 KiB after them, cut into equal blocks.  A bitmap word is
    modelled as its 64 bits, bit 0 first. */
module HeapLayout {
  import opened Common
  import Bits
  import RemoteFree

  const HEADER_SIZE := 16
  const BUCKET_COUNT := 29
  const BUCKET_LARGE := 0xFFFF_FFFF
  const BUCKET_NONE := 0xFFFF_FFFE
  const BLOCK_SIZES: seq<nat> := [
    32, 40, 48, 56,
    64, 80, 96, 112,
    128, 160, 192, 224,
    256, 320, 384, 448,
    512, 640, 768, 896,
    1024, 1280, 1536, 1792,
    2048, 2560, 3072, 3584, 4096]

  const SEGMENT_SIZE := 0x40_0000
  const PAGE_SIZE := 0x1_0000
  const PAGES_PER_SEGMENT := 63

  // The page record is 40 bytes and a bitmap of 32 words; the segment record is 16 bytes and its page records.
  const BITMAP_WORDS := 32
  const SEGMENT_RECORD := 16 + PAGES_PER_SEGMENT * (40 + 8 * BITMAP_WORDS)

  // ----- size classes -----

  // The position of the highest set bit.
  function HighBit(n: nat): nat
    requires n > 0
  {
    if n == 1 then 0 else 1 + HighBit(n / 2)
  }

  // needed lies between the power of two that its highest bit stands for and the next.
  lemma {:induction false} HighBitExact(n: nat)
    requires n > 0
    ensures Bits.Pow2(HighBit(n)) <= n < 2 * Bits.Pow2(HighBit(n))
  {
    if n > 1 { HighBitExact(n / 2); }
  }

  lemma SmallPowers()
    ensures Bits.Pow2(5) == 32 && Bits.Pow2(6) == 64 && Bits.Pow2(7) == 128 && Bits.Pow2(8) == 256
    ensures Bits.Pow2(9) == 512 && Bits.Pow2(10) == 1024 && Bits.Pow2(11) == 2048 && Bits.Pow2(12) == 4096
  {
    assert Bits.Pow2(4) == 16;
    Bits.Pow2Add(4, 4);
    Bits.Pow2Add(4, 8);
  }

  // Classes before the group of the highest bit are too small.
  lemma SkippedTooSmall(needed: nat)
    requires 32 < needed <= 4096
    ensures 5 <= HighBit(needed) <= 12
    ensures forall i :: 0 <= i < (HighBit(needed) - 5) * 4 ==> BLOCK_SIZES[i] < needed
  {
    SmallPowers();
    HighBitExact(needed);
    var bit := HighBit(needed);
    if bit < 5 { Bits.Pow2Grows(bit, 4); }
    if bit > 12 { Bits.Pow2Grows(13, bit); }
    ClassesBelow(bit);
  }

  lemma ClassesBelow(bit: nat)
    requires 5 <= bit <= 12
    ensures forall i :: 0 <= i < (bit - 5) * 4 ==> BLOCK_SIZES[i] < Bits.Pow2(bit)
  {
    SmallPowers();
  }

  ghost predicate LeastFitting(b: int, needed: nat) {
    0 <= b < BUCKET_COUNT && needed <= BLOCK_SIZES[b] && forall i :: 0 <= i < b ==> BLOCK_SIZES[i] < needed
  }

  method FindBucket(size: nat) returns (b: int)
    requires size <= SIZE_MAX
    ensures if size + HEADER_SIZE <= 4096 then LeastFitting(b, size + HEADER_SIZE) else b == BUCKET_LARGE
  {
    hide AddSizes;
    if size > SIZE_MAX - HEADER_SIZE { return BUCKET_LARGE; }
    var needed := AddSizes(size, HEADER_SIZE);
    if needed <= 32 { return 0; }
    if needed > 4096 { return BUCKET_LARGE; }
    SkippedTooSmall(needed);
    var bit := HighBit(needed);
    var group := bit - 5;
    var base := group * 4;
    var i := base;
    while i < BUCKET_COUNT && needed > BLOCK_SIZES[i]
      invariant i <= 28 && forall j :: 0 <= j < i ==> BLOCK_SIZES[j] < needed
    {
      i := i + 1;
    }
    return if i < BUCKET_COUNT then i else BUCKET_LARGE;
  }

  // ----- segments, pages and blocks -----

  predicate IsSegment(seg: int) { seg % SEGMENT_SIZE == 0 }

  function DataStart(seg: nat, page: nat): nat { seg + PAGE_SIZE + page * PAGE_SIZE }

  function BlockCount(bucket: nat): nat
    requires bucket < BUCKET_COUNT
  {
    PAGE_SIZE / BLOCK_SIZES[bucket]
  }

  function BlockAddress(seg: nat, page: nat, bucket: nat, block: nat): nat
    requires bucket < BUCKET_COUNT
  {
    DataStart(seg, page) + block * BLOCK_SIZES[bucket]
  }

  datatype BlockId = BlockId(seg: nat, page: nat, bucket: nat, block: nat)

  predicate IsBlock(b: BlockId) {
    IsSegment(b.seg) && b.page < PAGES_PER_SEGMENT && b.bucket < BUCKET_COUNT && b.block < BlockCount(b.bucket)
  }

  predicate Covers(b: BlockId, a: nat)
    requires IsBlock(b)
  {
    var start := BlockAddress(b.seg, b.page, b.bucket, b.block);
    start <= a < start + BLOCK_SIZES[b.bucket]
  }

  // page_from_pointer: the segment and the index of the page record.
  function PageFromPointer(a: nat): (int, int) {
    var seg := a - Bits.And(a, SEGMENT_SIZE - 1);
    (seg, (a - (seg + PAGE_SIZE)) / PAGE_SIZE)
  }

  // A block lies inside its page.
  lemma BlockInPage(b: BlockId)
    requires IsBlock(b)
    ensures var start := BlockAddress(b.seg, b.page, b.bucket, b.block);
      DataStart(b.seg, b.page) <= start && start + BLOCK_SIZES[b.bucket] <= DataStart(b.seg, b.page) + PAGE_SIZE
  {
    var size := BLOCK_SIZES[b.bucket];
    var n := PAGE_SIZE / size;
    Bits.MulStep(size, b.block, n);
    assert size * n <= PAGE_SIZE;
  }

  lemma SegmentSizeIsPower()
    ensures Bits.Pow2(22) == SEGMENT_SIZE
  {
    SmallPowers();
    Bits.Pow2Add(10, 12);
  }

  // Any address inside a block leads back to the page that owns the block.
  lemma PageFromPointerExact(b: BlockId, a: nat)
    requires IsBlock(b) && Covers(b, a)
    ensures PageFromPointer(a) == (b.seg, b.page)
  {
    BlockInPage(b);
    SegmentSizeIsPower();
    Bits.MaskIsModulo(a, 22);
    var off := a - b.seg;
    Bits.DivModUnique(a, SEGMENT_SIZE, b.seg / SEGMENT_SIZE, off);
    Bits.DivModUnique(off - PAGE_SIZE, PAGE_SIZE, b.page, off - PAGE_SIZE - b.page * PAGE_SIZE);
  }

  // The records at the start of a segment fit before its first page, and no block reaches them.
  lemma ClearOfRecords(b: BlockId, a: nat)
    requires IsBlock(b) && Covers(b, a)
    ensures b.seg + SEGMENT_RECORD < a < b.seg + SEGMENT_SIZE
  {
    BlockInPage(b);
  }

  // The bucket that a page has been cut for; a page has one bucket.
  predicate SameCut(b: BlockId, c: BlockId) {
    (b.seg, b.page) == (c.seg, c.page) ==> b.bucket == c.bucket
  }

  // Different blocks have no byte in common, in whatever pages and segments they are.
  lemma BlocksDisjoint(b: BlockId, c: BlockId, a: nat)
    requires IsBlock(b) && IsBlock(c) && SameCut(b, c) && Covers(b, a) && Covers(c, a)
    ensures b == c
  {
    PageFromPointerExact(b, a);
    PageFromPointerExact(c, a);
    SameStride(DataStart(b.seg, b.page), BLOCK_SIZES[b.bucket], b.block, c.block, a);
  }

  lemma SameStride(start: nat, size: nat, m: nat, n: nat, a: nat)
    requires start + m * size <= a < start + m * size + size && start + n * size <= a < start + n * size + size
    ensures m == n
  {
    if m < n {
      Bits.MulStep(size, m, n);
    } else if n < m {
      Bits.MulStep(size, n, m);
    }
  }

  // bitmap_free_block and drain_remote_frees recover a block's number from its address.
  lemma BlockNumber(start: nat, size: nat, block: nat)
    requires size > 0
    ensures (start + block * size - start) / size == block
  {
    Bits.DivModUnique(block * size, size, block, 0);
  }

  lemma MultipleOf(m: nat, q: nat, n: nat)
    requires m > 0
    ensures n * (m * q) % m == 0
  {
    assert n * (m * q) == m * (n * q);
    Bits.DivModUnique(m * (n * q), m, n * q, 0);
  }

  lemma SumOf16(k: nat, y: nat)
    ensures (16 * k + y + HEADER_SIZE) % 16 == y % 16 && (16 * k + y + HEADER_SIZE) % 8 == y % 8
  {
    var q, r := y / 16, y % 16;
    Bits.DivModUnique(16 * k + y + 16, 16, k + q + 1, r);
    var q8, r8 := y / 8, y % 8;
    Bits.DivModUnique(16 * k + y + 16, 8, 2 * k + q8 + 2, r8);
  }

  lemma DataStartAligned(seg: nat, page: nat) returns (k: nat)
    requires IsSegment(seg)
    ensures DataStart(seg, page) == 16 * k
  {
    var q := seg / SEGMENT_SIZE;
    assert seg == SEGMENT_SIZE * q;
    k := 0x4_0000 * q + 0x1000 + 0x1000 * page;
  }

  // Blocks start at multiples of 8, and so does what callers get.
  lemma Aligned8(b: BlockId)
    requires IsBlock(b)
    ensures (BlockAddress(b.seg, b.page, b.bucket, b.block) + HEADER_SIZE) % 8 == 0
  {
    var size := BLOCK_SIZES[b.bucket];
    var k := DataStartAligned(b.seg, b.page);
    SumOf16(k, b.block * size);
    assert size == 8 * (size / 8);
    MultipleOf(8, size / 8, b.block);
  }

  // The 16-byte alignment that the source describes holds for a class exactly when its size is a multiple of 16.
  lemma Aligned16Exactly(seg: nat, page: nat, bucket: nat)
    requires IsSegment(seg) && page < PAGES_PER_SEGMENT && bucket < BUCKET_COUNT
    ensures BLOCK_SIZES[bucket] % 16 == 0 <==>
      (forall n: nat :: n < BlockCount(bucket) ==> (BlockAddress(seg, page, bucket, n) + HEADER_SIZE) % 16 == 0)
  {
    var size := BLOCK_SIZES[bucket];
    var k := DataStartAligned(seg, page);
    if size % 16 == 0 {
      forall n: nat | n < BlockCount(bucket) ensures (BlockAddress(seg, page, bucket, n) + HEADER_SIZE) % 16 == 0 {
        SumOf16(k, n * size);
        assert size == 16 * (size / 16);
        MultipleOf(16, size / 16, n);
      }
    } else {
      assert 1 < BlockCount(bucket);
      SumOf16(k, 1 * size);
      assert (BlockAddress(seg, page, bucket, 1) + HEADER_SIZE) % 16 != 0;
    }
  }

  // The second block of the 40-byte class is not aligned to 16.
  lemma Aligned16Fails(seg: nat, page: nat)
    requires IsSegment(seg) && page < PAGES_PER_SEGMENT
    ensures BLOCK_SIZES[1] == 40 && (BlockAddress(seg, page, 1, 1) + HEADER_SIZE) % 16 == 8
  {
    var k := DataStartAligned(seg, page);
    SumOf16(k, 40);
  }

  lemma {:induction false} AndBelow(a: nat, b: nat)
    ensures Bits.And(a, b) <= a
  {
    if a > 0 && b > 0 { AndBelow(a / 2, b / 2); }
  }

  // segment_create cuts an aligned segment out of a mapping of twice its size.
  function AlignUp(addr: nat): nat {
    var x := addr + SEGMENT_SIZE - 1;
    AndBelow(x, SEGMENT_SIZE - 1);
    x - Bits.And(x, SEGMENT_SIZE - 1)
  }

  lemma SegmentInMapping(addr: nat)
    ensures IsSegment(AlignUp(addr)) && addr <= AlignUp(addr) && AlignUp(addr) + SEGMENT_SIZE <= addr + 2 * SEGMENT_SIZE
    ensures forall s: nat :: IsSegment(s) && addr <= s ==> AlignUp(addr) <= s
  {
    SegmentSizeIsPower();
    Bits.MaskIsModulo(addr + SEGMENT_SIZE - 1, 22);
  }

  // ----- pages are given out once -----

  // The buckets of a segment's pages, and the number of pages that have one.
  datatype Segment = Segment(base: nat, used: nat, buckets: seq<nat>)

  predicate HasBucket(bucket: nat) { bucket != BUCKET_NONE }

  function Taken(buckets: seq<nat>): nat { Count(buckets, HasBucket) }

  ghost predicate SegmentOk(s: Segment) {
    IsSegment(s.base) && |s.buckets| == PAGES_PER_SEGMENT && s.used == Taken(s.buckets)
  }

  predicate AllTakenIn(s: Segment) {
    |s.buckets| == PAGES_PER_SEGMENT && forall i :: 0 <= i < PAGES_PER_SEGMENT ==> s.buckets[i] != BUCKET_NONE
  }

  class PageStore {
    var segments: seq<Segment>     // the list of all segments, newest first

    ghost predicate Valid()
      reads this
    {
      && (forall k :: 0 <= k < |segments| ==> SegmentOk(segments[k]))
      && (forall j, k :: 0 <= j < k < |segments| ==> segments[j].base != segments[k].base)
    }

    constructor ()
      ensures Valid() && segments == []
    {
      segments := [];
    }

    ghost predicate Untouched(base: nat)
      reads this
    {
      forall k :: 0 <= k < |segments| ==> segments[k].base != base
    }

    // The first page of segment k without a bucket.
    method FirstFree(k: nat) returns (i: nat)
      requires Valid() && k < |segments| && segments[k].used < PAGES_PER_SEGMENT
      ensures i < PAGES_PER_SEGMENT && segments[k].buckets[i] == BUCKET_NONE
    {
      CountBounds(segments[k].buckets, HasBucket);
      i := 0;
      while segments[k].buckets[i] != BUCKET_NONE
        invariant i < PAGES_PER_SEGMENT && forall j :: 0 <= j < i ==> segments[k].buckets[j] != BUCKET_NONE
        decreases PAGES_PER_SEGMENT - i
      {
        i := i + 1;
      }
    }

    // get_fresh_page: a page that nobody has, of an old segment or of a new one; `answer` is the kernel's
    // answer to a request for a new mapping.
    method GetFreshPage(bucket: nat, answer: Option<nat>) returns (r: Option<(nat, nat)>)
      requires Valid() && bucket < BUCKET_COUNT && (answer.Some? ==> Untouched(AlignUp(answer.value)))
      modifies this
      ensures Valid()
      ensures r.None? ==> segments == old(segments)
      ensures r.Some? ==> r.value.0 < |segments| && r.value.1 < PAGES_PER_SEGMENT
      // the page had no bucket, and no other page changes
      ensures r.Some? && |segments| == |old(segments)| ==>
        && old(segments)[r.value.0].buckets[r.value.1] == BUCKET_NONE
        && segments == old(segments)[r.value.0 := Take(old(segments)[r.value.0], r.value.1, bucket)]
      ensures r.Some? && |segments| != |old(segments)| ==>
        && r.value == (0, 0) && answer.Some?
        && segments == [Take(NewSegment(AlignUp(answer.value)), 0, bucket)] + old(segments)
        && forall k :: 0 <= k < |old(segments)| ==> AllTakenIn(old(segments)[k])
      ensures r.None? ==> answer.None?
    {
      for k := 0 to |segments|
        invariant unchanged(this)
        invariant forall j :: 0 <= j < k ==> segments[j].used == PAGES_PER_SEGMENT
      {
        CountBounds(segments[k].buckets, HasBucket);
        if segments[k].used < PAGES_PER_SEGMENT {
          var i := FirstFree(k);
          CountUpdate(segments[k].buckets, HasBucket, i, bucket);
          segments := segments[k := Take(segments[k], i, bucket)];
          return Some((k, i));
        }
      }
      if answer.None? { return None; }
      forall k | 0 <= k < |segments| ensures AllTakenIn(segments[k]) {
        CountBounds(segments[k].buckets, HasBucket);
      }
      var seg := NewSegment(AlignUp(answer.value));
      SegmentInMapping(answer.value);
      CountBounds(seg.buckets, HasBucket);
      CountUpdate(seg.buckets, HasBucket, 0, bucket);
      segments := [Take(seg, 0, bucket)] + segments;
      return Some((0, 0));
    }
  }

  function NewSegment(base: nat): Segment {
    Segment(base, 0, seq(PAGES_PER_SEGMENT, _ => BUCKET_NONE))
  }

  function Take(s: Segment, i: nat, bucket: nat): Segment
    requires i < |s.buckets|
  {
    s.(used := s.used + 1, buckets := s.buckets[i := bucket])
  }

  // ----- the bitmap of a page -----

  type Word = w: seq<bool> | |w| == 64 witness seq(64, _ => false)

  const FULL: Word := seq(64, _ => true)

  // The bits of the first n words, in order.
  ghost function Flatten(ws: seq<Word>): seq<bool> {
    seq(64 * |ws|, i requires 0 <= i < 64 * |ws| => ws[i / 64][i % 64])
  }

  lemma FlattenUpdate(ws: seq<Word>, w: nat, bit: nat, x: bool)
    requires w < |ws| && bit < 64
    ensures Flatten(ws[w := ws[w][bit := x]]) == Flatten(ws)[64 * w + bit := x]
  {
    var ws' := ws[w := ws[w][bit := x]];
    forall i | 0 <= i < 64 * |ws| ensures Flatten(ws')[i] == Flatten(ws)[64 * w + bit := x][i] {
      assert i == 64 * w + bit <==> i / 64 == w && i % 64 == bit;
    }
  }

  predicate IsSet(bit: bool) { bit }

  lemma SomeClear(w: Word) returns (z: nat)
    requires w != FULL
    ensures z < 64 && !w[z]
  {
    assert exists i: nat :: i < 64 && w[i] != FULL[i];
    z :| z < 64 && w[z] != FULL[z];
  }

  // The number of the lowest clear bit, as count-trailing-zeros of the complement gives it.
  method LowestClearBit(w: Word) returns (bit: nat)
    requires w != FULL
    ensures bit < 64 && !w[bit] && forall i :: 0 <= i < bit ==> w[i]
  {
    ghost var z := SomeClear(w);
    bit := 0;
    while w[bit]
      invariant bit <= z && forall i :: 0 <= i < bit ==> w[i]
      decreases z - bit
    {
      bit := bit + 1;
    }
  }

  class HeapPage {
    var dataStart: nat
    var bucket: nat
    var blockCount: nat
    var usedCount: nat
    const bitmap: array<Word>

    // The page's bits; those from blockCount on are padding.
    ghost function Flags(): seq<bool>
      reads this, bitmap
    {
      Flatten(bitmap[..])
    }

    ghost predicate Valid()
      reads this, bitmap
    {
      && bitmap.Length == BITMAP_WORDS && bucket < BUCKET_COUNT && blockCount == BlockCount(bucket) <= 64 * BITMAP_WORDS
      && (forall i :: blockCount <= i < 64 * BITMAP_WORDS ==> Flags()[i])
      && usedCount == Count(Flags()[..blockCount], IsSet)
    }

    constructor ()
      ensures bitmap.Length == BITMAP_WORDS && fresh(bitmap)
    {
      dataStart, bucket, blockCount, usedCount := 0, BUCKET_NONE, 0, 0;
      bitmap := new Word[BITMAP_WORDS](_ => FULL);
    }

    // page_init_for_bucket: every block is free and the padding is set.
    method InitForBucket(newBucket: nat)
      requires bitmap.Length == BITMAP_WORDS && newBucket < BUCKET_COUNT
      modifies this`bucket, this`blockCount, this`usedCount, bitmap
      ensures Valid() && bucket == newBucket && usedCount == 0
      ensures forall i :: 0 <= i < 64 * BITMAP_WORDS ==> (Flags()[i] <==> i >= blockCount)
    {
      bucket := newBucket;
      blockCount := PAGE_SIZE / BLOCK_SIZES[bucket];
      usedCount := 0;
      BlockCountBound(bucket);
      FillBitmap(blockCount);
      InitialFlags(bitmap[..], blockCount);
      CountBounds(Flags()[..blockCount], IsSet);
    }

    method FillBitmap(count: nat)
      requires bitmap.Length == BITMAP_WORDS && 0 < count <= 64 * BITMAP_WORDS
      modifies bitmap
      ensures forall j :: 0 <= j < BITMAP_WORDS ==> bitmap[j] == InitialWord(count, j)
    {
      var wordsNeeded := (count + 63) / 64;
      for i := 0 to wordsNeeded
        invariant forall j :: 0 <= j < i ==> bitmap[j] == EmptyWord()
      {
        bitmap[i] := EmptyWord();
      }
      var remainder := count % 64;
      if remainder != 0 {
        bitmap[wordsNeeded - 1] := PaddedWord(remainder);
      }
      for i := wordsNeeded to BITMAP_WORDS
        invariant forall j :: 0 <= j < i ==> bitmap[j] == InitialWord(count, j)
      {
        assert FULL == PaddedWord(0);
        bitmap[i] := FULL;
      }
    }

    // Sets or clears the bit of a block and counts it.
    method WriteBit(w: nat, bit: nat, x: bool)
      requires Valid() && bit < 64 && 64 * w + bit < blockCount <= 64 * BITMAP_WORDS && Flags()[64 * w + bit] != x
      modifies this`usedCount, bitmap
      ensures Valid() && Flags() == old(Flags())[64 * w + bit := x]
      ensures usedCount == old(usedCount) + if x then 1 else -1
    {
      FlattenUpdate(bitmap[..], w, bit, x);
      UsedAfter(Flags(), 64 * w + bit, blockCount, x);
      bitmap[w] := bitmap[w][bit := x];
      assert bitmap[..] == old(bitmap[..])[w := old(bitmap[w])[bit := x]];
      usedCount := if x then usedCount + 1 else usedCount - 1;
    }

    // The first of the given words that has a clear bit.
    method FirstOpenWord(words: nat) returns (w: nat)
      requires words <= bitmap.Length
      ensures w <= words && (forall i :: 0 <= i < w ==> bitmap[i] == FULL) && (w < words ==> bitmap[w] != FULL)
    {
      w := 0;
      while w < words && bitmap[w] == FULL
        invariant w <= words && forall i :: 0 <= i < w ==> bitmap[i] == FULL
      {
        w := w + 1;
      }
    }

    // Marks the first block that is free and returns its number, or -1 if all are taken.
    method TakeLowest() returns (b: int)
      requires Valid()
      modifies this`usedCount, bitmap
      ensures Valid() && b < blockCount
      ensures b < 0 ==> old(usedCount) == blockCount && Flags() == old(Flags()) && usedCount == old(usedCount)
      ensures b >= 0 ==> RemoteFree.LowestClear(old(Flags()), b) && Flags() == old(Flags())[b := true]
      ensures b >= 0 ==> usedCount == old(usedCount) + 1
    {
      var words := (blockCount + 63) / 64;
      var w := FirstOpenWord(words);
      if w == words {
        AllTaken(bitmap[..], words, blockCount);
        return -1;
      }
      var bit := LowestClearBit(bitmap[w]);
      LowestOfWord(bitmap[..], w, bit);
      WriteBit(w, bit, true);
      return 64 * w + bit;
    }

    // bitmap_allocate_block: the address of the first block that was free, or none.
    method AllocateBlock() returns (r: Option<nat>, ghost b: int)
      requires Valid()
      modifies this`usedCount, bitmap
      ensures Valid()
      ensures r.None? ==> old(usedCount) == blockCount && Flags() == old(Flags()) && usedCount == old(usedCount)
      ensures r.Some? ==>
        && 0 <= b < blockCount && RemoteFree.LowestClear(old(Flags()), b)
        && r.value == dataStart + b * BLOCK_SIZES[bucket]
        && Flags() == old(Flags())[b := true] && usedCount == old(usedCount) + 1
    {
      var blockIdx := TakeLowest();
      b := blockIdx;
      r := if blockIdx < 0 then None else Some(dataStart + blockIdx * BLOCK_SIZES[bucket]);
    }

    // bitmap_free_block and the loop body of drain_remote_frees.
    method FreeBlock(address: nat, ghost b: nat)
      requires Valid() && b < blockCount && Flags()[b] && address == dataStart + b * BLOCK_SIZES[bucket]
      modifies this`usedCount, bitmap
      ensures Valid() && Flags() == old(Flags())[b := false] && usedCount == old(usedCount) - 1
    {
      var blockSize := BLOCK_SIZES[bucket];
      var blockIdx := (address - dataStart) / blockSize;
      assert blockIdx == b by { BlockNumber(dataStart, blockSize, b); }
      var wordIdx, bitIdx := blockIdx / 64, blockIdx % 64;
      WriteBit(wordIdx, bitIdx, false);
    }
  }

  // The lowest clear bit of the first word that is not full is the lowest of all.
  lemma LowestOfWord(ws: seq<Word>, w: nat, bit: nat)
    requires w < |ws| && bit < 64 && !ws[w][bit]
    requires (forall i :: 0 <= i < w ==> ws[i] == FULL) && forall i :: 0 <= i < bit ==> ws[w][i]
    ensures RemoteFree.LowestClear(Flatten(ws), 64 * w + bit)
  {
    forall i | 0 <= i < 64 * w + bit ensures Flatten(ws)[i] {
      if i / 64 < w { assert ws[i / 64] == FULL; }
    }
  }

  lemma UsedAfter(flags: seq<bool>, b: nat, n: nat, x: bool)
    requires b < n <= |flags|
    ensures Count(flags[b := x][..n], IsSet)
         == Count(flags[..n], IsSet) + (if x then 1 else 0) - (if flags[b] then 1 else 0)
  {
    assert flags[b := x][..n] == flags[..n][b := x];
    CountUpdate(flags[..n], IsSet, b, x);
  }

  lemma AllTaken(ws: seq<Word>, words: nat, n: nat)
    requires words <= |ws| && n <= 64 * words && forall i :: 0 <= i < words ==> ws[i] == FULL
    ensures Count(Flatten(ws)[..n], IsSet) == n
  {
    forall i | 0 <= i < n ensures Flatten(ws)[..n][i] {
      assert ws[i / 64] == FULL;
    }
    CountBounds(Flatten(ws)[..n], IsSet);
  }

  function EmptyWord(): Word { seq(64, _ => false) }

  // All bits set but the lowest `remainder`.
  function PaddedWord(remainder: nat): Word { seq(64, i => i >= remainder) }

  // A page has as many blocks as fit.
  lemma BlockCountExact(bucket: nat, n: nat)
    requires bucket < BUCKET_COUNT
    ensures n <= BlockCount(bucket) <==> BLOCK_SIZES[bucket] * n <= PAGE_SIZE
  {
    Bits.DivBounds(PAGE_SIZE, BLOCK_SIZES[bucket], n);
  }

  lemma BlockCountBound(bucket: nat)
    requires bucket < BUCKET_COUNT
    ensures 16 <= BlockCount(bucket) <= 64 * BITMAP_WORDS
  {
  }

  // Word j of the bitmap of a page with `count` free blocks.
  function InitialWord(count: nat, j: nat): Word {
    if j >= (count + 63) / 64 then PaddedWord(0)
    else if count % 64 != 0 && j == (count + 63) / 64 - 1 then PaddedWord(count % 64)
    else EmptyWord()
  }

  lemma InitialWordBits(count: nat, j: nat, k: nat)
    requires k < 64
    ensures InitialWord(count, j)[k] <==> 64 * j + k >= count
  {
  }

  lemma InitialFlags(ws: seq<Word>, n: nat)
    requires |ws| == BITMAP_WORDS && forall j :: 0 <= j < BITMAP_WORDS ==> ws[j] == InitialWord(n, j)
    ensures forall i :: 0 <= i < 64 * BITMAP_WORDS ==> (Flatten(ws)[i] <==> i >= n)
  {
    forall i | 0 <= i < 64 * BITMAP_WORDS ensures Flatten(ws)[i] <==> i >= n {
      InitialWordBits(n, i / 64, i % 64);
    }
  }
}
