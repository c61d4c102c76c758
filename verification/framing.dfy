/** The image as a whole: which bytes belong to what, from the superblock to the padding. */
module Framing {
  import opened Bytes
  import opened Metadata
  import opened Lookup
  import opened SuperblockFormat
  import opened Reader
  import opened Tables

  // ----- what is asked of an image -----

  /** Metadata blocks, each a length of 15 bits and as many bytes, fill the image from `pos` to `end`. */
  ghost predicate BlocksFill(data: Bytes, pos: nat, end: nat)
    decreases end - pos
  {
    pos == end || (&& pos + 2 <= end <= |data| && pos + 2 + U16At(data, pos) % 0x8000 <= end
                   && BlocksFill(data, pos + 2 + U16At(data, pos) % 0x8000, end))
  }

  /** A table of `count` blocks: they fill the image from `base` to `start`, where their offsets
      stand in order. */
  ghost predicate TableFills(data: Bytes, base: nat, start: nat, count: nat) {
    && start + 8 * count <= |data| && (count == 0 ==> base == start)
    && forall k: nat :: k < count ==> IsBlock(data, base, start, count, k)
  }

  /** Block `k` begins where the one before it ends, and ends where the next begins. */
  ghost predicate IsBlock(data: Bytes, base: nat, start: nat, count: nat, k: nat)
    requires start + 8 * count <= |data| && k < count
  {
    var pos := U64At(data, start + 8 * k);
    && (k == 0 ==> pos == base) && pos + 2 <= |data|
    && pos + 2 + U16At(data, pos) % 0x8000 == if k + 1 < count then U64At(data, start + 8 * k + 8) else start
  }

  /** From the superblock's tables on, the bytes in use are the metadata blocks of inodes and
      directories, then fragment entries, export table and ID table, each followed by its offsets;
      nothing is between them. What is in use is recorded; zeros follow up to a multiple of 4096. */
  ghost predicate Framed(img: Image) {
    var data, sb := img.data, img.sb;
    && 96 <= sb.inodeTableStart < sb.directoryTableStart && BlocksFill(data, sb.inodeTableStart, sb.directoryTableStart)
    && (exists end: nat :: BlocksFill(data, sb.directoryTableStart, end)
                           && TableFills(data, end, sb.fragmentTableStart, BlocksOf(16 * sb.fragmentEntryCount)))
    && TableFills(data, sb.fragmentTableStart + 8 * BlocksOf(16 * sb.fragmentEntryCount), sb.lookupTableStart,
                  BlocksOf(8 * sb.inodeCount))
    && TableFills(data, sb.lookupTableStart + 8 * BlocksOf(8 * sb.inodeCount), sb.idTableStart, 1)
    && sb.bytesUsed == sb.idTableStart + 8
    && Padded(data, sb.bytesUsed)
  }

  ghost predicate Padded(data: Bytes, n: nat) {
    |data| % 4096 == 0 && n <= |data| < n + 4096 && forall k :: n <= k < |data| ==> data[k] == 0
  }

  /** What the superblock says apart from offsets and counts. */
  ghost predicate Recorded(sb: Superblock) {
    && sb.modificationTime == 0 && sb.blockSize == 131072 && sb.blockLog == 17 && sb.compressionId == 6
    && sb.flags == 0x0200 + 0x0080 + 0x0040 && sb.idCount == 1 && sb.xattrIdTableStart == 0xFFFF_FFFF_FFFF_FFFF
  }

  // ----- proofs -----

  lemma {:induction false} EncodeFills(z: Zstd, data: Bytes, pos: nat, s: Bytes)
    requires Lossless(z) && At(data, pos, Encode(z, s))
    ensures BlocksFill(data, pos, pos + |Encode(z, s)|)
    decreases |s|
  {
    hide MetaBlock, Lossless, At, U16At;
    if |s| == 0 {
    } else if |s| <= 8192 {
      BlockFits(z, data, pos, s);
    } else {
      var h, t := s[..8192], s[8192..];
      AtSplit(data, pos, MetaBlock(z, h), Encode(z, t));
      BlockFits(z, data, pos, h);
      EncodeFills(z, data, pos + |MetaBlock(z, h)|, t);
      AtRoom(data, pos + |MetaBlock(z, h)|, Encode(z, t));
    }
  }

  lemma BlockFits(z: Zstd, data: Bytes, pos: nat, raw: Bytes)
    requires Lossless(z) && |raw| <= 8192 && At(data, pos, MetaBlock(z, raw))
    ensures pos + |MetaBlock(z, raw)| <= |data| && |MetaBlock(z, raw)| == 2 + U16At(data, pos) % 0x8000
  {
    MetaBlockReads(z, data, pos, raw);
  }

  lemma {:induction false} OffsetsFill(z: Zstd, data: Bytes, base: nat, s: Bytes, start: nat, k: nat)
    requires Lossless(z) && At(data, base, Encode(z, s)) && |data| < 0x1_0000_0000_0000_0000
    requires At(data, start, LE64s(BlockOffsets(z, s, base))) && k < BlocksOf(|s|)
    ensures start + 8 * BlocksOf(|s|) <= |data|
    ensures var pos := U64At(data, start + 8 * k);
            && (k == 0 ==> pos == base) && pos + 2 <= |data|
            && pos + 2 + U16At(data, pos) % 0x8000
            == if k + 1 < BlocksOf(|s|) then U64At(data, start + 8 * k + 8) else base + |Encode(z, s)|
    decreases |s|
  {
    hide MetaBlock, Lossless, LE64, U64At, At, Encode, BlockOffsets, U16At;
    EmptyTable(z, base);
    var end := Min(8192, |s|);
    FirstBlock(z, s, 0, end, base);
    assert s[0..] == s && s == s[0..end] + s[end..];
    var t := s[end..];
    var base' := base + |MetaBlock(z, s[0..end])|;
    AtSplit(data, base, MetaBlock(z, s[0..end]), Encode(z, t));
    var rest := BlockOffsets(z, t, base');
    assert ([base] + rest)[1..] == rest;
    Take64(data, start, base, LE64s(rest));
    BlockFits(z, data, base, s[0..end]);
    assert BlocksOf(|s|) == 1 + BlocksOf(|t|);
    AtRoom(data, start + 8, LE64s(rest));
    if t == [] {
      EmptyTable(z, base');
    } else {
      OffsetsFill(z, data, base', t, start + 8, if k == 0 then 0 else k - 1);
    }
  }

  lemma TableFilled(z: Zstd, data: Bytes, base: nat, s: Bytes, start: nat)
    requires Lossless(z) && TableAt(z, data, base, s, start) && |data| < 0x1_0000_0000_0000_0000
    ensures TableFills(data, base, start, BlocksOf(|s|))
  {
    hide Lossless, LE64s, U64At, At, Encode, BlockOffsets, U16At;
    AtSplit(data, base, Encode(z, s), LE64s(BlockOffsets(z, s, base)));
    AtRoom(data, start, LE64s(BlockOffsets(z, s, base)));
    EmptyTable(z, base);
    if s != [] { OffsetsFill(z, data, base, s, start, 0); }
    forall k: nat | k < BlocksOf(|s|)
      ensures start + 8 * BlocksOf(|s|) <= |data| && IsBlock(data, base, start, BlocksOf(|s|), k)
    {
      OffsetsFill(z, data, base, s, start, k);
    }
  }

  /** The tables' places as the writer knows them. */
  lemma FramedWhen(z: Zstd, img: Image, inodes: Bytes, dirs: Bytes, fragments: Bytes, exports: Bytes, ids: Bytes)
    requires Lossless(z) && |img.data| < 0x1_0000_0000_0000_0000 && 96 <= img.sb.inodeTableStart && inodes != []
    requires At(img.data, img.sb.inodeTableStart, Encode(z, inodes))
    requires img.sb.directoryTableStart == img.sb.inodeTableStart + |Encode(z, inodes)|
    requires At(img.data, img.sb.directoryTableStart, Encode(z, dirs))
    requires |fragments| == 16 * img.sb.fragmentEntryCount && |exports| == 8 * img.sb.inodeCount && |ids| == 4
    requires TableAt(z, img.data, img.sb.directoryTableStart + |Encode(z, dirs)|, fragments, img.sb.fragmentTableStart)
    requires TableAt(z, img.data, img.sb.fragmentTableStart + 8 * BlocksOf(|fragments|), exports,
                     img.sb.lookupTableStart)
    requires TableAt(z, img.data, img.sb.lookupTableStart + 8 * BlocksOf(|exports|), ids, img.sb.idTableStart)
    requires img.sb.bytesUsed == img.sb.idTableStart + 8 && Padded(img.data, img.sb.bytesUsed)
    ensures Framed(img)
  {
    hide Lossless, At, Encode, TableAt, BlocksFill, TableFills, Padded, BlocksOf;
    OneBlock();
    var data, sb := img.data, img.sb;
    EncodeNonEmpty(z, inodes);
    EncodeFills(z, data, sb.inodeTableStart, inodes);
    EncodeFills(z, data, sb.directoryTableStart, dirs);
    TableFilled(z, data, sb.directoryTableStart + |Encode(z, dirs)|, fragments, sb.fragmentTableStart);
    TableFilled(z, data, sb.fragmentTableStart + 8 * BlocksOf(|fragments|), exports, sb.lookupTableStart);
    TableFilled(z, data, sb.lookupTableStart + 8 * BlocksOf(|exports|), ids, sb.idTableStart);
  }

  // ----- what follows from it -----

  /** Blocks that fill a range end within it. */
  lemma {:induction false} TableEnds(data: Bytes, base: nat, start: nat, count: nat, k: nat)
    requires TableFills(data, base, start, count) && k < count
    ensures base <= U64At(data, start + 8 * k) < start
    decreases k
  {
    hide U64At, U16At;
    TableAscends(data, base, start, count, k, count - 1);
    TableAscends(data, base, start, count, 0, k);
    assert IsBlock(data, base, start, count, 0) && IsBlock(data, base, start, count, count - 1);
  }

  lemma {:induction false} TableAscends(data: Bytes, base: nat, start: nat, count: nat, k: nat, m: nat)
    requires TableFills(data, base, start, count) && k <= m < count
    ensures U64At(data, start + 8 * k) <= U64At(data, start + 8 * m)
    decreases m - k
  {
    hide U64At, U16At;
    if k < m {
      assert IsBlock(data, base, start, count, k);
      TableAscends(data, base, start, count, k + 1, m);
    }
  }

  lemma {:induction false} BlocksRun(data: Bytes, pos: nat, end: nat)
    requires BlocksFill(data, pos, end)
    ensures pos <= end
    decreases end - pos
  {
  }

  /** The tables lie one behind the other, the last before the recorded end. */
  lemma TablesInOrder(img: Image)
    requires Framed(img)
    ensures var sb := img.sb;
            && 96 <= sb.inodeTableStart < sb.directoryTableStart <= sb.fragmentTableStart <= sb.lookupTableStart
            && sb.lookupTableStart < sb.idTableStart < sb.bytesUsed <= |img.data|
  {
    hide U64At, U16At, BlocksFill;
    var data, sb := img.data, img.sb;
    var end: nat :| BlocksFill(data, sb.directoryTableStart, end)
                    && TableFills(data, end, sb.fragmentTableStart, BlocksOf(16 * sb.fragmentEntryCount));
    BlocksRun(data, sb.directoryTableStart, end);
    var n, m := BlocksOf(16 * sb.fragmentEntryCount), BlocksOf(8 * sb.inodeCount);
    if n > 0 { TableEnds(data, end, sb.fragmentTableStart, n, 0); }
    if m > 0 { TableEnds(data, sb.fragmentTableStart + 8 * n, sb.lookupTableStart, m, 0); }
    TableEnds(data, sb.lookupTableStart + 8 * m, sb.idTableStart, 1, 0);
  }
}
