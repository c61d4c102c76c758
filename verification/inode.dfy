/** On-disk inodes: serialisation into the inode table and parsing back. */
module Inodes {
  import opened Bytes
  import opened Metadata
  import opened Writer

  const DATA_BLOCK_SIZE: nat := 131072
  const NO_FRAGMENT: nat := 0xFFFF_FFFF
  const NO_XATTR: nat := 0xFFFF_FFFF

  const INODE_BASIC_DIR: nat := 1
  const INODE_BASIC_FILE: nat := 2
  const INODE_BASIC_SYMLINK: nat := 3
  const INODE_EXT_DIR: nat := 8
  const INODE_EXT_FILE: nat := 9
  const INODE_EXT_SYMLINK: nat := 10

  datatype Inode =
    | FileInode(inodeNumber: nat, permissions: nat, uidIdx: nat, gidIdx: nat, fileSize: nat, startBlock: nat,
                fragment: nat, fragmentOffset: nat, nlink: nat, blockSizes: seq<nat>)
    | DirInode(inodeNumber: nat, permissions: nat, uidIdx: nat, gidIdx: nat, nlink: nat, fileSize: nat,
               startBlock: nat, offset: nat, parentInode: nat)
    | SymlinkInode(inodeNumber: nat, permissions: nat, uidIdx: nat, gidIdx: nat, nlink: nat, target: Bytes)

  /** Where a file's bytes went. */
  datatype FileInfo = FileInfo(fileSize: nat, startBlock: nat, blockSizes: seq<nat>, fragIdx: nat, fragOffset: nat,
                               sparse: nat)

  /** One directory index record, followed on disk by its name. */
  datatype IndexEntry = IndexEntry(index: nat, startBlock: nat, nameSize: nat, name: Bytes)

  // ----- parsing -----

  function CeilDiv(a: nat, b: nat): nat
    requires b > 0
  {
    (a + b - 1) / b
  }

  /** The reader's formula for the number of block sizes that follow a file inode. */
  function BlockCount(blockSize: nat, fileSize: nat, fragment: nat): nat
    requires blockSize > 0
  {
    if fragment != NO_FRAGMENT then fileSize / blockSize else CeilDiv(fileSize, blockSize)
  }

  function U32sAt(s: Bytes, n: nat, count: nat): (xs: seq<nat>)
    requires n + 4 * count <= |s|
    ensures |xs| == count
    ensures forall i :: 0 <= i < count ==> xs[i] == U32At(s, n + 4 * i)
  {
    seq(count, i requires 0 <= i < count => U32At(s, n + 4 * i))
  }

  /** The inode at offset `n` of a metadata stream. */
  function ParseInode(blockSize: nat, s: Bytes, n: nat): Option<Inode>
    requires blockSize > 0
  {
    if n + 16 > |s| then None
    else
      var t := U16At(s, n);
      if t == INODE_BASIC_DIR then ParseBasicDir(s, n)
      else if t == INODE_EXT_DIR then ParseExtDir(s, n)
      else if t == INODE_BASIC_FILE then ParseBasicFile(blockSize, s, n)
      else if t == INODE_EXT_FILE then ParseExtFile(blockSize, s, n)
      else if t == INODE_BASIC_SYMLINK then ParseSymlink(s, n, 0)
      else if t == INODE_EXT_SYMLINK then ParseSymlink(s, n, 4)
      else None
  }

  function ParseBasicDir(s: Bytes, n: nat): Option<Inode>
    requires n + 16 <= |s|
  {
    if n + 32 > |s| then None
    else Some(DirInode(U32At(s, n + 12), U16At(s, n + 2), U16At(s, n + 4), U16At(s, n + 6), U32At(s, n + 20),
                       U16At(s, n + 24), U32At(s, n + 16), U16At(s, n + 26), U32At(s, n + 28)))
  }

  function ParseExtDir(s: Bytes, n: nat): Option<Inode>
    requires n + 16 <= |s|
  {
    if n + 40 > |s| then None
    else Some(DirInode(U32At(s, n + 12), U16At(s, n + 2), U16At(s, n + 4), U16At(s, n + 6), U32At(s, n + 16),
                       U32At(s, n + 20), U32At(s, n + 24), U16At(s, n + 34), U32At(s, n + 28)))
  }

  function ParseBasicFile(blockSize: nat, s: Bytes, n: nat): Option<Inode>
    requires blockSize > 0 && n + 16 <= |s|
  {
    if n + 32 > |s| then None
    else
      var count := BlockCount(blockSize, U32At(s, n + 28), U32At(s, n + 20));
      if n + 32 + 4 * count > |s| then None
      else Some(FileInode(U32At(s, n + 12), U16At(s, n + 2), U16At(s, n + 4), U16At(s, n + 6), U32At(s, n + 28),
                          U32At(s, n + 16), U32At(s, n + 20), U32At(s, n + 24), 1, U32sAt(s, n + 32, count)))
  }

  function ParseExtFile(blockSize: nat, s: Bytes, n: nat): Option<Inode>
    requires blockSize > 0 && n + 16 <= |s|
  {
    if n + 56 > |s| then None
    else
      var count := BlockCount(blockSize, U64At(s, n + 24), U32At(s, n + 44));
      if n + 56 + 4 * count > |s| then None
      else Some(FileInode(U32At(s, n + 12), U16At(s, n + 2), U16At(s, n + 4), U16At(s, n + 6), U64At(s, n + 24),
                          U64At(s, n + 16), U32At(s, n + 44), U32At(s, n + 48), U32At(s, n + 40),
                          U32sAt(s, n + 56, count)))
  }

  /** `trailer` bytes follow the target: none, or the extended form's xattr index. */
  function ParseSymlink(s: Bytes, n: nat, trailer: nat): Option<Inode>
    requires n + 16 <= |s|
  {
    if n + 24 > |s| then None
    else
      var size := U32At(s, n + 20);
      if n + 24 + size + trailer > |s| then None
      else Some(SymlinkInode(U32At(s, n + 12), U16At(s, n + 2), U16At(s, n + 4), U16At(s, n + 6), U32At(s, n + 16),
                             s[n + 24..n + 24 + size]))
  }

  // ----- serialisation -----

  predicate AllU32(xs: seq<nat>) {
    forall i :: 0 <= i < |xs| ==> xs[i] < 0x1_0000_0000
  }

  function LE32s(xs: seq<nat>): (s: Bytes)
    ensures |s| == 4 * |xs|
  {
    if xs == [] then [] else LE32(xs[0]) + LE32s(xs[1..])
  }

  function HeaderBytes(inodeType: nat, permissions: nat, uid: nat, gid: nat, inum: nat): (s: Bytes)
    ensures |s| == 16
  {
    LE16(inodeType) + (LE16(permissions) + (LE16(uid) + (LE16(gid) + (LE32(0) + (LE32(inum) + [])))))
  }

  predicate UseExtFile(info: FileInfo, nlink: nat) {
    nlink > 1 || info.fileSize >= 0x1_0000_0000 || info.startBlock >= 0x1_0000_0000
  }

  function ExtFileBody(info: FileInfo, nlink: nat): (s: Bytes)
    ensures |s| == 40
  {
    LE64(info.startBlock) + (LE64(info.fileSize) + (LE64(info.sparse) + (LE32(nlink) +
    (LE32(info.fragIdx) + (LE32(info.fragOffset) + (LE32(NO_XATTR) + []))))))
  }

  function BasicFileBody(info: FileInfo): (s: Bytes)
    ensures |s| == 16
  {
    LE32(info.startBlock) + (LE32(info.fragIdx) + (LE32(info.fragOffset) + (LE32(info.fileSize) + [])))
  }

  function FileInodeBytes(inum: nat, permissions: nat, uid: nat, gid: nat, info: FileInfo, nlink: nat): Bytes {
    if UseExtFile(info, nlink) then
      HeaderBytes(INODE_EXT_FILE, permissions, uid, gid, inum) + (ExtFileBody(info, nlink) + LE32s(info.blockSizes))
    else
      HeaderBytes(INODE_BASIC_FILE, permissions, uid, gid, inum) + (BasicFileBody(info) + LE32s(info.blockSizes))
  }

  function SymlinkInodeBytes(inum: nat, permissions: nat, uid: nat, gid: nat, target: Bytes, nlink: nat): Bytes {
    HeaderBytes(INODE_BASIC_SYMLINK, permissions, uid, gid, inum) + (LE32(nlink) + (LE32(|target|) + target))
  }

  /** What the writer knows about a directory when it serialises its inode. */
  datatype DirInfo = DirInfo(blockOffset: nat, byteOffset: nat, dirSize: nat, nlink: nat, parentInode: nat,
                             childCount: nat, entryByteCount: nat, index: seq<IndexEntry>)

  predicate UseExtDir(d: DirInfo) {
    d.childCount >= 257 || d.entryByteCount >= METADATA_BLOCK_SIZE || d.dirSize > 65535 || d.index != []
  }

  function IndexEntryBytes(e: IndexEntry): Bytes {
    LE32(e.index) + (LE32(e.startBlock) + (LE32(e.nameSize) + e.name))
  }

  function IndexBytes(index: seq<IndexEntry>): Bytes {
    if index == [] then [] else IndexEntryBytes(index[0]) + IndexBytes(index[1..])
  }

  function ExtDirBody(d: DirInfo): (s: Bytes)
    ensures |s| == 24
  {
    LE32(d.nlink) + (LE32(d.dirSize) + (LE32(d.blockOffset) + (LE32(d.parentInode) +
    (LE16(|d.index|) + (LE16(d.byteOffset) + (LE32(NO_XATTR) + []))))))
  }

  function BasicDirBody(d: DirInfo): (s: Bytes)
    ensures |s| == 16
  {
    LE32(d.blockOffset) + (LE32(d.nlink) + (LE16(d.dirSize) + (LE16(d.byteOffset) + (LE32(d.parentInode) + []))))
  }

  function DirInodeBytes(inum: nat, permissions: nat, uid: nat, gid: nat, d: DirInfo): Bytes {
    if UseExtDir(d) then
      HeaderBytes(INODE_EXT_DIR, permissions, uid, gid, inum) + (ExtDirBody(d) + IndexBytes(d.index))
    else
      HeaderBytes(INODE_BASIC_DIR, permissions, uid, gid, inum) + BasicDirBody(d)
  }

  // ----- round trips -----

  lemma HeaderReads(s: Bytes, n: nat, inodeType: nat, permissions: nat, uid: nat, gid: nat, inum: nat, body: Bytes)
    requires At(s, n, HeaderBytes(inodeType, permissions, uid, gid, inum) + body)
    requires inodeType < 0x1_0000 && permissions < 0x1_0000 && uid < 0x1_0000 && gid < 0x1_0000
    requires inum < 0x1_0000_0000
    ensures n + 16 <= |s| && U16At(s, n) == inodeType && U16At(s, n + 2) == permissions
    ensures U16At(s, n + 4) == uid && U16At(s, n + 6) == gid && U32At(s, n + 8) == 0 && U32At(s, n + 12) == inum
    ensures At(s, n + 16, body)
  {
    hide LE16, LE32, U16At, U32At;
    AtSplit(s, n, HeaderBytes(inodeType, permissions, uid, gid, inum), body);
    var r5 := LE32(inum) + [];
    var r4 := LE32(0) + r5;
    var r3 := LE16(gid) + r4;
    var r2 := LE16(uid) + r3;
    var r1 := LE16(permissions) + r2;
    Take16(s, n, inodeType, r1);
    Take16(s, n + 2, permissions, r2);
    Take16(s, n + 4, uid, r3);
    Take16(s, n + 6, gid, r4);
    Take32(s, n + 8, 0, r5);
    Take32(s, n + 12, inum, []);
  }

  lemma {:induction false} LE32sRead(s: Bytes, n: nat, xs: seq<nat>)
    requires At(s, n, LE32s(xs)) && AllU32(xs)
    ensures n + 4 * |xs| <= |s| && U32sAt(s, n, |xs|) == xs
    decreases |xs|
  {
    hide U32At, LE32;
    if xs != [] {
      Take32(s, n, xs[0], LE32s(xs[1..]));
      LE32sRead(s, n + 4, xs[1..]);
      forall i | 0 <= i < |xs| ensures U32At(s, n + 4 * i) == xs[i] {
        if i > 0 {
          assert U32sAt(s, n + 4, |xs| - 1)[i - 1] == xs[1..][i - 1];
          assert n + 4 + 4 * (i - 1) == n + 4 * i;
        }
      }
    }
  }

  lemma ExtFileBodyReads(s: Bytes, n: nat, info: FileInfo, nlink: nat, rest: Bytes)
    requires At(s, n, ExtFileBody(info, nlink) + rest)
    ensures n + 40 <= |s| && At(s, n + 40, rest)
    ensures U64At(s, n) == info.startBlock % 0x1_0000_0000_0000_0000
    ensures U64At(s, n + 8) == info.fileSize % 0x1_0000_0000_0000_0000
    ensures U64At(s, n + 16) == info.sparse % 0x1_0000_0000_0000_0000 && U32At(s, n + 36) == NO_XATTR
    ensures U32At(s, n + 24) == nlink % 0x1_0000_0000
    ensures U32At(s, n + 28) == info.fragIdx % 0x1_0000_0000
    ensures U32At(s, n + 32) == info.fragOffset % 0x1_0000_0000
  {
    hide LE64, LE32, U64At, U32At;
    AtSplit(s, n, ExtFileBody(info, nlink), rest);
    var r6 := LE32(NO_XATTR) + [];
    var r5 := LE32(info.fragOffset) + r6;
    var r4 := LE32(info.fragIdx) + r5;
    var r3 := LE32(nlink) + r4;
    var r2 := LE64(info.sparse) + r3;
    var r1 := LE64(info.fileSize) + r2;
    Take64(s, n, info.startBlock, r1);
    Take64(s, n + 8, info.fileSize, r2);
    Take64(s, n + 16, info.sparse, r3);
    Take32(s, n + 24, nlink, r4);
    Take32(s, n + 28, info.fragIdx, r5);
    Take32(s, n + 32, info.fragOffset, r6);
    Take32(s, n + 36, NO_XATTR, []);
  }

  lemma BasicFileBodyReads(s: Bytes, n: nat, info: FileInfo, rest: Bytes)
    requires At(s, n, BasicFileBody(info) + rest)
    ensures n + 16 <= |s| && At(s, n + 16, rest)
    ensures U32At(s, n) == info.startBlock % 0x1_0000_0000
    ensures U32At(s, n + 4) == info.fragIdx % 0x1_0000_0000
    ensures U32At(s, n + 8) == info.fragOffset % 0x1_0000_0000
    ensures U32At(s, n + 12) == info.fileSize % 0x1_0000_0000
  {
    hide LE32, U32At;
    AtSplit(s, n, BasicFileBody(info), rest);
    var r3 := LE32(info.fileSize) + [];
    var r2 := LE32(info.fragOffset) + r3;
    var r1 := LE32(info.fragIdx) + r2;
    Take32(s, n, info.startBlock, r1);
    Take32(s, n + 4, info.fragIdx, r2);
    Take32(s, n + 8, info.fragOffset, r3);
    Take32(s, n + 12, info.fileSize, []);
  }

  ghost predicate HeaderFits(inum: nat, permissions: nat, uid: nat, gid: nat) {
    inum < 0x1_0000_0000 && permissions < 0x1_0000 && uid < 0x1_0000 && gid < 0x1_0000
  }

  /** A file's layout fits the on-disk field widths, and lists as many block sizes as the
      reader will look for. */
  ghost predicate InfoFits(info: FileInfo, nlink: nat) {
    && info.fileSize < 0x1_0000_0000_0000_0000 && info.startBlock < 0x1_0000_0000_0000_0000
    && nlink < 0x1_0000_0000 && info.fragIdx < 0x1_0000_0000 && info.fragOffset < 0x1_0000_0000
    && |info.blockSizes| == BlockCount(DATA_BLOCK_SIZE, info.fileSize, info.fragIdx)
    && AllU32(info.blockSizes)
  }

  /** What the reader reports for a file written with this layout. */
  function FileInodeOf(inum: nat, permissions: nat, uid: nat, gid: nat, info: FileInfo, nlink: nat): Inode {
    FileInode(inum, permissions, uid, gid, info.fileSize, info.startBlock, info.fragIdx, info.fragOffset,
              if UseExtFile(info, nlink) then nlink else 1, info.blockSizes)
  }

  /** The choice between the basic and the extended form never loses a field. */
  lemma FileInodeRoundTrip(s: Bytes, n: nat, inum: nat, permissions: nat, uid: nat, gid: nat, info: FileInfo,
                           nlink: nat)
    requires HeaderFits(inum, permissions, uid, gid) && InfoFits(info, nlink)
    requires At(s, n, FileInodeBytes(inum, permissions, uid, gid, info, nlink))
    ensures ParseInode(DATA_BLOCK_SIZE, s, n) == Some(FileInodeOf(inum, permissions, uid, gid, info, nlink))
  {
    hide At, HeaderBytes, ExtFileBody, BasicFileBody, LE32s, U16At, U32At, U64At, U32sAt, BlockCount;
    var tail := LE32s(info.blockSizes);
    if UseExtFile(info, nlink) {
      HeaderReads(s, n, INODE_EXT_FILE, permissions, uid, gid, inum, ExtFileBody(info, nlink) + tail);
      ExtFileBodyReads(s, n + 16, info, nlink, tail);
      LE32sRead(s, n + 56, info.blockSizes);
    } else {
      HeaderReads(s, n, INODE_BASIC_FILE, permissions, uid, gid, inum, BasicFileBody(info) + tail);
      BasicFileBodyReads(s, n + 16, info, tail);
      LE32sRead(s, n + 32, info.blockSizes);
    }
  }

  lemma SymlinkInodeRoundTrip(s: Bytes, n: nat, inum: nat, permissions: nat, uid: nat, gid: nat, target: Bytes,
                              nlink: nat)
    requires HeaderFits(inum, permissions, uid, gid) && nlink < 0x1_0000_0000 && |target| < 0x1_0000_0000
    requires At(s, n, SymlinkInodeBytes(inum, permissions, uid, gid, target, nlink))
    ensures ParseInode(DATA_BLOCK_SIZE, s, n) == Some(SymlinkInode(inum, permissions, uid, gid, nlink, target))
  {
    hide HeaderBytes, LE32, U16At, U32At;
    HeaderReads(s, n, INODE_BASIC_SYMLINK, permissions, uid, gid, inum, LE32(nlink) + (LE32(|target|) + target));
    Take32(s, n + 16, nlink, LE32(|target|) + target);
    Take32(s, n + 20, |target|, target);
  }

  lemma ExtDirBodyReads(s: Bytes, n: nat, d: DirInfo, rest: Bytes)
    requires At(s, n, ExtDirBody(d) + rest)
    ensures n + 24 <= |s| && At(s, n + 24, rest)
    ensures U16At(s, n + 16) == |d.index| % 0x1_0000
    ensures U32At(s, n) == d.nlink % 0x1_0000_0000 && U32At(s, n + 4) == d.dirSize % 0x1_0000_0000
    ensures U32At(s, n + 8) == d.blockOffset % 0x1_0000_0000 && U32At(s, n + 12) == d.parentInode % 0x1_0000_0000
    ensures U16At(s, n + 18) == d.byteOffset % 0x1_0000 && U32At(s, n + 20) == NO_XATTR
  {
    hide LE32, LE16, U32At, U16At;
    AtSplit(s, n, ExtDirBody(d), rest);
    var r6 := LE32(NO_XATTR) + [];
    var r5 := LE16(d.byteOffset) + r6;
    var r4 := LE16(|d.index|) + r5;
    var r3 := LE32(d.parentInode) + r4;
    var r2 := LE32(d.blockOffset) + r3;
    var r1 := LE32(d.dirSize) + r2;
    Take32(s, n, d.nlink, r1);
    Take32(s, n + 4, d.dirSize, r2);
    Take32(s, n + 8, d.blockOffset, r3);
    Take32(s, n + 12, d.parentInode, r4);
    Take16(s, n + 16, |d.index|, r5);
    Take16(s, n + 18, d.byteOffset, r6);
    Take32(s, n + 20, NO_XATTR, []);
  }

  lemma BasicDirBodyReads(s: Bytes, n: nat, d: DirInfo)
    requires At(s, n, BasicDirBody(d))
    ensures n + 16 <= |s|
    ensures U32At(s, n) == d.blockOffset % 0x1_0000_0000 && U32At(s, n + 4) == d.nlink % 0x1_0000_0000
    ensures U16At(s, n + 8) == d.dirSize % 0x1_0000 && U16At(s, n + 10) == d.byteOffset % 0x1_0000
    ensures U32At(s, n + 12) == d.parentInode % 0x1_0000_0000
  {
    hide LE32, LE16, U32At, U16At;
    var r4 := LE32(d.parentInode) + [];
    var r3 := LE16(d.byteOffset) + r4;
    var r2 := LE16(d.dirSize) + r3;
    var r1 := LE32(d.nlink) + r2;
    Take32(s, n, d.blockOffset, r1);
    Take32(s, n + 4, d.nlink, r2);
    Take16(s, n + 8, d.dirSize, r3);
    Take16(s, n + 10, d.byteOffset, r4);
    Take32(s, n + 12, d.parentInode, []);
  }

  ghost predicate DirFits(d: DirInfo) {
    && d.blockOffset < 0x1_0000_0000 && d.byteOffset < 0x1_0000 && d.dirSize < 0x1_0000_0000
    && d.nlink < 0x1_0000_0000 && d.parentInode < 0x1_0000_0000
  }

  lemma DirInodeRoundTrip(s: Bytes, n: nat, inum: nat, permissions: nat, uid: nat, gid: nat, d: DirInfo)
    requires HeaderFits(inum, permissions, uid, gid) && DirFits(d)
    requires At(s, n, DirInodeBytes(inum, permissions, uid, gid, d))
    ensures ParseInode(DATA_BLOCK_SIZE, s, n) ==
            Some(DirInode(inum, permissions, uid, gid, d.nlink, d.dirSize, d.blockOffset, d.byteOffset, d.parentInode))
  {
    hide At, HeaderBytes, ExtDirBody, BasicDirBody, IndexBytes, U16At, U32At;
    if UseExtDir(d) {
      HeaderReads(s, n, INODE_EXT_DIR, permissions, uid, gid, inum, ExtDirBody(d) + IndexBytes(d.index));
      ExtDirBodyReads(s, n + 16, d, IndexBytes(d.index));
    } else {
      HeaderReads(s, n, INODE_BASIC_DIR, permissions, uid, gid, inum, BasicDirBody(d));
      BasicDirBodyReads(s, n + 16, d);
    }
  }

  // ----- the inode table -----

  /** Builds the inode table. Each method appends one inode and returns the packed reference
      of the stream offset at which it begins. */
  class InodeTable {
    const meta: MetadataWriter

    constructor (z: Zstd)
      ensures meta.Valid() && meta.z == z && meta.stream == [] && fresh(meta)
    {
      meta := new MetadataWriter(z);
    }

    method AddFile(inum: nat, permissions: nat, uid: nat, gid: nat, info: FileInfo, nlink: nat) returns (iref: nat)
      requires meta.Valid()
      modifies meta
      ensures meta.Valid() && iref == RefAt(meta.z, old(meta.stream), |old(meta.stream)|)
      ensures meta.stream == old(meta.stream) + FileInodeBytes(inum, permissions, uid, gid, info, nlink)
    {
      hide HeaderBytes, ExtFileBody, BasicFileBody, LE32s, BlockStart;
      var blk, off := meta.Position();
      iref := blk * 0x1_0000 + off;
      var buf;
      if nlink > 1 || info.fileSize >= 0x1_0000_0000 || info.startBlock >= 0x1_0000_0000 {
        buf := HeaderBytes(INODE_EXT_FILE, permissions, uid, gid, inum)
               + (ExtFileBody(info, nlink) + LE32s(info.blockSizes));
      } else {
        buf := HeaderBytes(INODE_BASIC_FILE, permissions, uid, gid, inum)
               + (BasicFileBody(info) + LE32s(info.blockSizes));
      }
      meta.Write(buf);
    }

    method AddDir(inum: nat, permissions: nat, uid: nat, gid: nat, d: DirInfo) returns (iref: nat)
      requires meta.Valid()
      modifies meta
      ensures meta.Valid() && iref == RefAt(meta.z, old(meta.stream), |old(meta.stream)|)
      ensures meta.stream == old(meta.stream) + DirInodeBytes(inum, permissions, uid, gid, d)
    {
      hide HeaderBytes, ExtDirBody, BasicDirBody, IndexBytes, BlockStart;
      var blk, off := meta.Position();
      iref := blk * 0x1_0000 + off;
      var buf;
      if d.childCount >= 257 || d.entryByteCount >= METADATA_BLOCK_SIZE || d.dirSize > 65535 || d.index != [] {
        buf := HeaderBytes(INODE_EXT_DIR, permissions, uid, gid, inum) + (ExtDirBody(d) + IndexBytes(d.index));
      } else {
        buf := HeaderBytes(INODE_BASIC_DIR, permissions, uid, gid, inum) + BasicDirBody(d);
      }
      meta.Write(buf);
    }

    method AddSymlink(inum: nat, permissions: nat, uid: nat, gid: nat, target: Bytes, nlink: nat) returns (iref: nat)
      requires meta.Valid()
      modifies meta
      ensures meta.Valid() && iref == RefAt(meta.z, old(meta.stream), |old(meta.stream)|)
      ensures meta.stream == old(meta.stream) + SymlinkInodeBytes(inum, permissions, uid, gid, target, nlink)
    {
      hide BlockStart;
      var blk, off := meta.Position();
      iref := blk * 0x1_0000 + off;
      meta.Write(SymlinkInodeBytes(inum, permissions, uid, gid, target, nlink));
    }
  }
}
