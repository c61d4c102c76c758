/** The records of an image, number by number. */
module Layouts {
  import opened Bytes
  import opened Metadata
  import opened Inodes
  import opened Directory
  import opened Fragments
  import opened SuperblockFormat
  import opened Tables

  // ----- inodes -----

  /** The 16 bytes that every inode begins with: type, permissions, owner, group, no time, number. */
  ghost predicate IsHeader(s: Bytes, n: nat, inodeType: nat, permissions: nat, uid: nat, gid: nat, inum: nat) {
    && n + 16 <= |s| && U16At(s, n) == inodeType && U16At(s, n + 2) == permissions && U16At(s, n + 4) == uid
    && U16At(s, n + 6) == gid && U32At(s, n + 8) == 0 && U32At(s, n + 12) == inum
  }

  ghost predicate AreSizes(s: Bytes, n: nat, sizes: seq<nat>) {
    n + 4 * |sizes| <= |s| && forall k :: 0 <= k < |sizes| ==> U32At(s, n + 4 * k) == sizes[k]
  }

  /** Type 9 if there are several links or a number needs more than 32 bits, else type 2. */
  ghost predicate IsFile(s: Bytes, n: nat, inum: nat, permissions: nat, uid: nat, gid: nat, info: FileInfo,
                         nlink: nat) {
    if nlink > 1 || info.fileSize >= 0x1_0000_0000 || info.startBlock >= 0x1_0000_0000 then
      && IsHeader(s, n, 9, permissions, uid, gid, inum) && n + 56 <= |s| && U64At(s, n + 16) == info.startBlock
      && U64At(s, n + 24) == info.fileSize && U64At(s, n + 32) == info.sparse && U32At(s, n + 40) == nlink
      && U32At(s, n + 44) == info.fragIdx && U32At(s, n + 48) == info.fragOffset && U32At(s, n + 52) == 0xFFFF_FFFF
      && AreSizes(s, n + 56, info.blockSizes)
    else
      && IsHeader(s, n, 2, permissions, uid, gid, inum) && n + 32 <= |s| && U32At(s, n + 16) == info.startBlock
      && U32At(s, n + 20) == info.fragIdx && U32At(s, n + 24) == info.fragOffset && U32At(s, n + 28) == info.fileSize
      && AreSizes(s, n + 32, info.blockSizes)
  }

  lemma FileLayout(s: Bytes, n: nat, inum: nat, permissions: nat, uid: nat, gid: nat, info: FileInfo, nlink: nat)
    requires HeaderFits(inum, permissions, uid, gid) && InfoFits(info, nlink)
    requires info.sparse < 0x1_0000_0000_0000_0000
    requires At(s, n, FileInodeBytes(inum, permissions, uid, gid, info, nlink))
    ensures IsFile(s, n, inum, permissions, uid, gid, info, nlink)
  {
    hide At, HeaderBytes, ExtFileBody, BasicFileBody, LE32s, U16At, U32At, U64At, BlockCount;
    var tail := LE32s(info.blockSizes);
    if UseExtFile(info, nlink) {
      HeaderReads(s, n, INODE_EXT_FILE, permissions, uid, gid, inum, ExtFileBody(info, nlink) + tail);
      ExtFileBodyReads(s, n + 16, info, nlink, tail);
      SizesRead(s, n + 56, info.blockSizes);
    } else {
      HeaderReads(s, n, INODE_BASIC_FILE, permissions, uid, gid, inum, BasicFileBody(info) + tail);
      BasicFileBodyReads(s, n + 16, info, tail);
      SizesRead(s, n + 32, info.blockSizes);
    }
  }

  lemma SizesRead(s: Bytes, n: nat, sizes: seq<nat>)
    requires At(s, n, LE32s(sizes)) && AllU32(sizes)
    ensures AreSizes(s, n, sizes)
  {
    hide At, LE32s, U32At;
    LE32sRead(s, n, sizes);
    assert forall k :: 0 <= k < |sizes| ==> U32sAt(s, n, |sizes|)[k] == U32At(s, n + 4 * k);
  }

  /** Type 8 if the directory has more than 256 entries, 8192 bytes of them, more than 65535 bytes
      of data, or an index; else type 1. */
  ghost predicate IsDir(s: Bytes, n: nat, inum: nat, permissions: nat, uid: nat, gid: nat, d: DirInfo) {
    if d.childCount > 256 || d.entryByteCount >= 8192 || d.dirSize > 65535 || d.index != [] then
      && IsHeader(s, n, 8, permissions, uid, gid, inum) && n + 40 <= |s| && U32At(s, n + 16) == d.nlink
      && U32At(s, n + 20) == d.dirSize && U32At(s, n + 24) == d.blockOffset && U32At(s, n + 28) == d.parentInode
      && U16At(s, n + 32) == |d.index| % 0x1_0000 && U16At(s, n + 34) == d.byteOffset
      && U32At(s, n + 36) == 0xFFFF_FFFF
    else
      && IsHeader(s, n, 1, permissions, uid, gid, inum) && n + 32 <= |s| && U32At(s, n + 16) == d.blockOffset
      && U32At(s, n + 20) == d.nlink && U16At(s, n + 24) == d.dirSize && U16At(s, n + 26) == d.byteOffset
      && U32At(s, n + 28) == d.parentInode
  }

  lemma DirLayout(s: Bytes, n: nat, inum: nat, permissions: nat, uid: nat, gid: nat, d: DirInfo)
    requires HeaderFits(inum, permissions, uid, gid) && DirFits(d)
    requires At(s, n, DirInodeBytes(inum, permissions, uid, gid, d))
    ensures IsDir(s, n, inum, permissions, uid, gid, d)
  {
    hide At, HeaderBytes, ExtDirBody, BasicDirBody, IndexBytes, U16At, U32At;
    if UseExtDir(d) {
      HeaderReads(s, n, INODE_EXT_DIR, permissions, uid, gid, inum, ExtDirBody(d) + IndexBytes(d.index));
      ExtDirBodyReads(s, n + 16, d, IndexBytes(d.index));
    } else {
      assert HeaderBytes(INODE_BASIC_DIR, permissions, uid, gid, inum) + BasicDirBody(d)
          == DirInodeBytes(inum, permissions, uid, gid, d);
      HeaderReads(s, n, INODE_BASIC_DIR, permissions, uid, gid, inum, BasicDirBody(d));
      BasicDirBodyReads(s, n + 16, d);
    }
  }

  lemma SymlinkLayout(s: Bytes, n: nat, inum: nat, permissions: nat, uid: nat, gid: nat, target: Bytes, nlink: nat)
    requires HeaderFits(inum, permissions, uid, gid) && nlink < 0x1_0000_0000 && |target| < 0x1_0000_0000
    requires At(s, n, SymlinkInodeBytes(inum, permissions, uid, gid, target, nlink))
    ensures IsHeader(s, n, 3, permissions, uid, gid, inum) && n + 24 + |target| <= |s|
    ensures U32At(s, n + 16) == nlink && U32At(s, n + 20) == |target| && s[n + 24..n + 24 + |target|] == target
  {
    hide HeaderBytes, LE32, U16At, U32At, At;
    HeaderReads(s, n, INODE_BASIC_SYMLINK, permissions, uid, gid, inum, LE32(nlink) + (LE32(|target|) + target));
    Take32(s, n + 16, nlink, LE32(|target|) + target);
    Take32(s, n + 20, |target|, target);
    AtMeans(s, n + 24, target);
  }

  /** The reader also takes type 10, which nothing here writes: a symlink with four more bytes. */
  lemma ExtSymlinkReads(s: Bytes, n: nat, inum: nat, permissions: nat, uid: nat, gid: nat, target: Bytes, nlink: nat)
    requires HeaderFits(inum, permissions, uid, gid) && nlink < 0x1_0000_0000 && |target| < 0x1_0000_0000
    requires At(s, n, HeaderBytes(10, permissions, uid, gid, inum) + (LE32(nlink) + (LE32(|target|) + target)))
    ensures ParseInode(DATA_BLOCK_SIZE, s, n) ==
            if n + 24 + |target| + 4 > |s| then None
            else Some(SymlinkInode(inum, permissions, uid, gid, nlink, target))
  {
    hide HeaderBytes, LE32, U16At, U32At, At;
    HeaderReads(s, n, 10, permissions, uid, gid, inum, LE32(nlink) + (LE32(|target|) + target));
    Take32(s, n + 16, nlink, LE32(|target|) + target);
    Take32(s, n + 20, |target|, target);
    AtMeans(s, n + 24, target);
  }

  // ----- directories -----

  /** A group begins with one less than the number of its entries, the block of their inodes, and
      the first one's number; its first entry follows. */
  lemma GroupLayout(s: Bytes, n: nat, g: Group)
    requires ValidGroup(g) && AllRepresentable(g.members) && At(s, n, GroupBytes(g))
    ensures n + 12 <= |s| && U32At(s, n) == |g.members| - 1 && U32At(s, n + 4) == g.startBlock
    ensures U32At(s, n + 8) == g.baseInode && At(s, n + 12, EntriesBytes(g.baseInode, g.members))
  {
    hide LE32, U32At, At, EntriesBytes;
    var body := EntriesBytes(g.baseInode, g.members);
    assert Representable(g.members[0]) && Fits(g, g.members[0]);
    Take32(s, n, |g.members| - 1, LE32(g.startBlock) + (LE32(g.baseInode) + body));
    Take32(s, n + 4, g.startBlock, LE32(g.baseInode) + body);
    Take32(s, n + 8, g.baseInode, body);
  }

  /** An entry: where in its block the inode begins, the inode's number less the group's first
      (as 16 bits), its type, one less than the length of its name, and the name. */
  lemma EntryLayout(s: Bytes, n: nat, base: nat, cs: seq<DirChild>)
    requires cs != [] && 0 < |cs[0].name| < 0x1_0000 && cs[0].entryType < 0x1_0000
    requires At(s, n, EntriesBytes(base, cs))
    ensures var c := cs[0];
            && n + 8 + |c.name| <= |s| && U16At(s, n) == c.inodeRef % 0x1_0000
            && U16At(s, n + 2) == (c.inodeNumber - base) % 0x1_0000 && U16At(s, n + 4) == c.entryType
            && U16At(s, n + 6) == |c.name| - 1 && s[n + 8..n + 8 + |c.name|] == c.name
            && At(s, n + 8 + |c.name|, EntriesBytes(base, cs[1..]))
  {
    hide EntryBytes, U16At;
    EntryReads(s, n, base, cs[0], EntriesBytes(base, cs[1..]));
  }

  // ----- tables and superblock -----

  /** Fragment entries: start, size, and four zeros. */
  lemma FragmentLayout(s: Bytes, n: nat, es: seq<FragmentEntry>, k: nat)
    requires k < |es| && At(s, n, FragmentEntriesBytes(es)) && AllNarrow(es)
    ensures n + 16 * k + 16 <= |s| && U64At(s, n + 16 * k) == es[k].start
    ensures U32At(s, n + 16 * k + 8) == es[k].size
  {
    hide U64At, U32At, FragmentEntriesBytes, At;
    FragmentEntriesRead(s, n, es);
  }

  /** The superblock: magic number, counts, version 4.0, references and offsets. */
  lemma SuperblockLayout(s: Bytes, sb: Superblock)
    requires At(s, 0, SuperblockBytes(sb)) && SuperblockFits(sb) && sb.blockSize < 0x1_0000_0000
    requires sb.compressionId < 0x1_0000 && sb.blockLog < 0x1_0000
    ensures |s| >= 96 && s[..4] == ['h' as byte, 's' as byte, 'q' as byte, 's' as byte]
    ensures U32At(s, 4) == sb.inodeCount && U32At(s, 8) == sb.modificationTime && U32At(s, 12) == sb.blockSize
    ensures U32At(s, 16) == sb.fragmentEntryCount && U16At(s, 20) == sb.compressionId && U16At(s, 22) == sb.blockLog
    ensures U16At(s, 24) == sb.flags && U16At(s, 26) == sb.idCount && U16At(s, 28) == 4 && U16At(s, 30) == 0
    ensures U64At(s, 32) == sb.rootInodeRef && U64At(s, 40) == sb.bytesUsed && U64At(s, 48) == sb.idTableStart
    ensures U64At(s, 56) == sb.xattrIdTableStart && U64At(s, 64) == sb.inodeTableStart
    ensures U64At(s, 72) == sb.directoryTableStart && U64At(s, 80) == sb.fragmentTableStart
    ensures U64At(s, 88) == sb.lookupTableStart
  {
    hide CountsBytes, OffsetsBytes, U16At, U32At, U64At, At;
    AtSplit(s, 0, CountsBytes(sb), OffsetsBytes(sb));
    CountsRead(s, sb);
    OffsetsRead(s, 32, sb);
    MagicExactly(s);
  }

  /** A superblock is taken if it has the magic number, version 4.0, zstd, a block size that is the
      power of two recorded with it, an ID, and the inode table before the directory table. */
  lemma SuperblockTaken(s: Bytes)
    ensures ParseSuperblock(s).Some? <==>
            && |s| >= 96 && s[..4] == ['h' as byte, 's' as byte, 'q' as byte, 's' as byte]
            && U16At(s, 28) == 4 && U16At(s, 30) == 0 && U16At(s, 20) == 6
            && U16At(s, 22) < 32 && U32At(s, 12) == Pow2(U16At(s, 22))
            && U16At(s, 26) > 0 && U64At(s, 64) < U64At(s, 72)
  {
    hide U16At, U64At, Pow2;
    if |s| >= 4 { MagicExactly(s); }
  }

  lemma MagicExactly(s: Bytes)
    requires |s| >= 4
    ensures U32At(s, 0) == SQUASHFS_MAGIC <==> s[..4] == ['h' as byte, 's' as byte, 'q' as byte, 's' as byte]
  {
    if s[..4] == ['h' as byte, 's' as byte, 'q' as byte, 's' as byte] {
      assert s[0] == s[..4][0] && s[1] == s[..4][1] && s[2] == s[..4][2] && s[3] == s[..4][3];
    }
  }
}
