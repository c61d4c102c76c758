/** The 96-byte superblock. */
module SuperblockFormat {
  import opened Bytes
  import opened Metadata
  import opened Inodes

  const SQUASHFS_MAGIC: nat := 0x7371_7368
  const MAJOR_VERSION: nat := 4
  const MINOR_VERSION: nat := 0
  const DATA_BLOCK_LOG: nat := 17
  const ZSTD_COMPRESSION: nat := 6
  const FLAG_NO_XATTRS: nat := 0x0200
  const FLAG_EXPORTABLE: nat := 0x0080
  const FLAG_DUPLICATES: nat := 0x0040
  const INVALID_BLK: nat := 0xFFFF_FFFF_FFFF_FFFF
  const SUPERBLOCK_SIZE: nat := 96

  datatype Superblock = Superblock(
    inodeCount: nat, modificationTime: nat, blockSize: nat, fragmentEntryCount: nat, compressionId: nat,
    blockLog: nat, flags: nat, idCount: nat, rootInodeRef: nat, bytesUsed: nat, idTableStart: nat,
    xattrIdTableStart: nat, inodeTableStart: nat, directoryTableStart: nat, fragmentTableStart: nat,
    lookupTableStart: nat)

  /** Counts, sizes and flags: the first 32 bytes. */
  function CountsBytes(sb: Superblock): (s: Bytes)
    ensures |s| == 32
  {
    LE32(SQUASHFS_MAGIC) + (LE32(sb.inodeCount) + (LE32(sb.modificationTime) + (LE32(sb.blockSize) +
    (LE32(sb.fragmentEntryCount) + (LE16(sb.compressionId) + (LE16(sb.blockLog) + (LE16(sb.flags) +
    (LE16(sb.idCount) + (LE16(MAJOR_VERSION) + (LE16(MINOR_VERSION) + []))))))))))
  }

  /** References and table offsets: the remaining 64 bytes. */
  function OffsetsBytes(sb: Superblock): (s: Bytes)
    ensures |s| == 64
  {
    LE64(sb.rootInodeRef) + (LE64(sb.bytesUsed) + (LE64(sb.idTableStart) + (LE64(sb.xattrIdTableStart) +
    (LE64(sb.inodeTableStart) + (LE64(sb.directoryTableStart) + (LE64(sb.fragmentTableStart) +
    (LE64(sb.lookupTableStart) + [])))))))
  }

  function SuperblockBytes(sb: Superblock): (s: Bytes)
    ensures |s| == SUPERBLOCK_SIZE
  {
    CountsBytes(sb) + OffsetsBytes(sb)
  }

  function Pow2(n: nat): (p: nat)
    ensures p > 0
  {
    if n == 0 then 1 else 2 * Pow2(n - 1)
  }

  /** Parse and validate. */
  function ParseSuperblock(s: Bytes): (r: Option<Superblock>)
    ensures r.Some? ==> r.value.blockSize > 0
  {
    if |s| < SUPERBLOCK_SIZE || U32At(s, 0) != SQUASHFS_MAGIC then None
    else if U16At(s, 28) != MAJOR_VERSION || U16At(s, 30) != MINOR_VERSION then None
    else if U16At(s, 22) >= 32 || U32At(s, 12) != Pow2(U16At(s, 22)) then None
    else if U16At(s, 20) != ZSTD_COMPRESSION then None
    else if U64At(s, 64) >= U64At(s, 72) || U16At(s, 26) == 0 then None
    else Some(Superblock(U32At(s, 4), U32At(s, 8), U32At(s, 12), U32At(s, 16), U16At(s, 20), U16At(s, 22),
                         U16At(s, 24), U16At(s, 26), U64At(s, 32), U64At(s, 40), U64At(s, 48), U64At(s, 56),
                         U64At(s, 64), U64At(s, 72), U64At(s, 80), U64At(s, 88)))
  }

  ghost predicate SuperblockFits(sb: Superblock) {
    && sb.inodeCount < 0x1_0000_0000 && sb.modificationTime < 0x1_0000_0000 && sb.fragmentEntryCount < 0x1_0000_0000
    && sb.flags < 0x1_0000 && sb.idCount < 0x1_0000
    && sb.rootInodeRef < 0x1_0000_0000_0000_0000 && sb.bytesUsed < 0x1_0000_0000_0000_0000
    && sb.idTableStart < 0x1_0000_0000_0000_0000 && sb.xattrIdTableStart < 0x1_0000_0000_0000_0000
    && sb.inodeTableStart < 0x1_0000_0000_0000_0000 && sb.directoryTableStart < 0x1_0000_0000_0000_0000
    && sb.fragmentTableStart < 0x1_0000_0000_0000_0000 && sb.lookupTableStart < 0x1_0000_0000_0000_0000
  }

  lemma CountsRead(s: Bytes, sb: Superblock)
    requires At(s, 0, CountsBytes(sb))
    ensures |s| >= 32 && U32At(s, 0) == SQUASHFS_MAGIC && U32At(s, 4) == sb.inodeCount % 0x1_0000_0000
    ensures U32At(s, 8) == sb.modificationTime % 0x1_0000_0000 && U32At(s, 12) == sb.blockSize % 0x1_0000_0000
    ensures U32At(s, 16) == sb.fragmentEntryCount % 0x1_0000_0000 && U16At(s, 20) == sb.compressionId % 0x1_0000
    ensures U16At(s, 22) == sb.blockLog % 0x1_0000 && U16At(s, 24) == sb.flags % 0x1_0000
    ensures U16At(s, 26) == sb.idCount % 0x1_0000 && U16At(s, 28) == MAJOR_VERSION && U16At(s, 30) == MINOR_VERSION
  {
    hide LE16, LE32, U16At, U32At, At;
    var r10 := LE16(MINOR_VERSION) + [];
    var r9 := LE16(MAJOR_VERSION) + r10;
    var r8 := LE16(sb.idCount) + r9;
    var r7 := LE16(sb.flags) + r8;
    var r6 := LE16(sb.blockLog) + r7;
    var r5 := LE16(sb.compressionId) + r6;
    var r4 := LE32(sb.fragmentEntryCount) + r5;
    var r3 := LE32(sb.blockSize) + r4;
    var r2 := LE32(sb.modificationTime) + r3;
    var r1 := LE32(sb.inodeCount) + r2;
    Take32(s, 0, SQUASHFS_MAGIC, r1);
    Take32(s, 4, sb.inodeCount, r2);
    Take32(s, 8, sb.modificationTime, r3);
    Take32(s, 12, sb.blockSize, r4);
    Take32(s, 16, sb.fragmentEntryCount, r5);
    Take16(s, 20, sb.compressionId, r6);
    Take16(s, 22, sb.blockLog, r7);
    Take16(s, 24, sb.flags, r8);
    Take16(s, 26, sb.idCount, r9);
    Take16(s, 28, MAJOR_VERSION, r10);
    Take16(s, 30, MINOR_VERSION, []);
  }

  lemma OffsetsRead(s: Bytes, n: nat, sb: Superblock)
    requires At(s, n, OffsetsBytes(sb)) && SuperblockFits(sb)
    ensures |s| >= n + 64 && U64At(s, n) == sb.rootInodeRef && U64At(s, n + 8) == sb.bytesUsed
    ensures U64At(s, n + 16) == sb.idTableStart && U64At(s, n + 24) == sb.xattrIdTableStart
    ensures U64At(s, n + 32) == sb.inodeTableStart && U64At(s, n + 40) == sb.directoryTableStart
    ensures U64At(s, n + 48) == sb.fragmentTableStart && U64At(s, n + 56) == sb.lookupTableStart
  {
    hide LE64, U64At, At;
    var r7 := LE64(sb.lookupTableStart) + [];
    var r6 := LE64(sb.fragmentTableStart) + r7;
    var r5 := LE64(sb.directoryTableStart) + r6;
    var r4 := LE64(sb.inodeTableStart) + r5;
    var r3 := LE64(sb.xattrIdTableStart) + r4;
    var r2 := LE64(sb.idTableStart) + r3;
    var r1 := LE64(sb.bytesUsed) + r2;
    Take64(s, n, sb.rootInodeRef, r1);
    Take64(s, n + 8, sb.bytesUsed, r2);
    Take64(s, n + 16, sb.idTableStart, r3);
    Take64(s, n + 24, sb.xattrIdTableStart, r4);
    Take64(s, n + 32, sb.inodeTableStart, r5);
    Take64(s, n + 40, sb.directoryTableStart, r6);
    Take64(s, n + 48, sb.fragmentTableStart, r7);
    Take64(s, n + 56, sb.lookupTableStart, []);
  }

  /** A superblock with valid constants and ordered tables parses back unchanged. */
  lemma SuperblockRoundTrip(s: Bytes, sb: Superblock)
    requires At(s, 0, SuperblockBytes(sb)) && SuperblockFits(sb)
    requires sb.blockSize == DATA_BLOCK_SIZE && sb.blockLog == DATA_BLOCK_LOG && sb.compressionId == ZSTD_COMPRESSION
    requires sb.inodeTableStart < sb.directoryTableStart && sb.idCount > 0
    ensures ParseSuperblock(s) == Some(sb)
  {
    hide CountsBytes, OffsetsBytes, U16At, U32At, U64At, At;
    AtSplit(s, 0, CountsBytes(sb), OffsetsBytes(sb));
    CountsRead(s, sb);
    OffsetsRead(s, 32, sb);
    assert Pow2(6) == 64 && Pow2(12) == 4096 && Pow2(17) == DATA_BLOCK_SIZE;
  }
}
