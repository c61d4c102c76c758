/** An image whose root directory lists itself: it opens, and a walk of it does not end. */
module LoopImages {
  import opened Bytes
  import opened Metadata
  import opened Inodes
  import opened Directory
  import opened DirTable
  import opened Lookup
  import opened SuperblockFormat
  import opened Reader
  import opened WalkEnds
  import opened Costs
  import opened Tables

  /** One entry, named `a`, that refers to the first inode of the table: the root itself. */
  function LoopGroups(): seq<Group> {
    [Group(0, 1, [DirChild([97], 1, 0, INODE_BASIC_DIR)])]
  }

  function LoopDir(): DirInfo {
    DirInfo(0, 0, |GroupsBytes(LoopGroups())| + 3, 3, 2, 1, 9, [])
  }

  function LoopInode(): Bytes {
    DirInodeBytes(1, 493, 0, 0, LoopDir())
  }

  /** Where the tables begin: the inode table behind the superblock, then the others. */
  function DirectoryBase(z: Zstd): nat {
    SUPERBLOCK_SIZE + |Encode(z, LoopInode())|
  }

  function IdBase(z: Zstd): nat {
    DirectoryBase(z) + |Encode(z, GroupsBytes(LoopGroups()))|
  }

  function IdBytes(z: Zstd): Bytes {
    Encode(z, LE32s([0])) + LE64s(BlockOffsets(z, LE32s([0]), IdBase(z)))
  }

  function LoopSuperblock(z: Zstd): Superblock {
    Superblock(1, 0, DATA_BLOCK_SIZE, 0, ZSTD_COMPRESSION, DATA_BLOCK_LOG, FLAG_NO_XATTRS, 1, 0,
               IdBase(z) + |IdBytes(z)|, IdBase(z) + |Encode(z, LE32s([0]))|, INVALID_BLK, SUPERBLOCK_SIZE,
               DirectoryBase(z), INVALID_BLK, INVALID_BLK)
  }

  function LoopImage(z: Zstd): Bytes {
    SuperblockBytes(LoopSuperblock(z)) + Encode(z, LoopInode()) + Encode(z, GroupsBytes(LoopGroups())) + IdBytes(z)
  }

  lemma TableSizes(z: Zstd)
    ensures |GroupsBytes(LoopGroups())| == 21 && |LoopInode()| == 32
    ensures |Encode(z, LoopInode())| < 100 && |Encode(z, GroupsBytes(LoopGroups()))| < 100 && |IdBytes(z)| < 200
    ensures |Encode(z, LE32s([0]))| < 100 && Encode(z, LoopInode()) != []
  {
    LoopSizes();
    EncodeBound(z, LoopInode());
    EncodeBound(z, GroupsBytes(LoopGroups()));
    EncodeBound(z, LE32s([0]));
    EncodeNonEmpty(z, LoopInode());
    OneOffset(z, LE32s([0]), IdBase(z));
    hide LoopInode, LoopGroups, GroupsBytes, Encode, LE32s, LE64s, BlockOffsets;
  }

  lemma LoopSizes()
    ensures |GroupsBytes(LoopGroups())| == 21 && |LoopInode()| == 32
  {
    hide HeaderBytes, BasicDirBody, LE32, EntryBytes;
    var g := LoopGroups()[0];
    assert EntriesBytes(1, g.members) == EntryBytes(1, g.members[0]) + EntriesBytes(1, g.members[1..]);
    assert GroupsBytes(LoopGroups()) == GroupBytes(g) + GroupsBytes(LoopGroups()[1..]);
  }

  lemma OneOffset(z: Zstd, s: Bytes, base: nat)
    requires 0 < |s| <= METADATA_BLOCK_SIZE
    ensures |BlockOffsets(z, s, base)| == 1
  {
  }

  /** The parts are where the superblock says. */
  lemma LoopParts(z: Zstd)
    ensures var data := LoopImage(z);
            && At(data, 0, SuperblockBytes(LoopSuperblock(z)))
            && At(data, SUPERBLOCK_SIZE, Encode(z, LoopInode()))
            && At(data, DirectoryBase(z), Encode(z, GroupsBytes(LoopGroups())))
            && TableAt(z, data, IdBase(z), LE32s([0]), LoopSuperblock(z).idTableStart)
            && |data| == LoopSuperblock(z).bytesUsed
  {
    hide SuperblockBytes, Encode, GroupsBytes, LoopGroups, LoopInode, LE64s, LE32s, BlockOffsets, At;
    var sb, id := LoopSuperblock(z), IdBytes(z);
    FourParts(SuperblockBytes(sb), Encode(z, LoopInode()), Encode(z, GroupsBytes(LoopGroups())), id);
  }

  lemma FourParts(a: Bytes, b: Bytes, c: Bytes, d: Bytes)
    ensures At(a + b + c + d, 0, a) && At(a + b + c + d, |a|, b)
    ensures At(a + b + c + d, |a + b|, c) && At(a + b + c + d, |a + b + c|, d)
  {
    AtPushed([], a);
    assert [] + a == a;
    AtPushed(a, b);
    AtPushed(a + b, c);
    AtPushed(a + b + c, d);
    hide At;
    AtPrefix(a, a + b + c + d, 0, a);
    AtPrefix(a + b, a + b + c + d, |a|, b);
    AtPrefix(a + b + c, a + b + c + d, |a + b|, c);
  }

  lemma LoopImageOpens(z: Zstd)
    requires Lossless(z)
    ensures Open(z, LoopImage(z)) == Some(Image(LoopImage(z), LoopSuperblock(z), [0], []))
  {
    TableSizes(z);
    LoopParts(z);
    hide Lossless, Encode, GroupsBytes, LoopGroups, LoopInode, LE64s, LE32s, BlockOffsets, IdBytes, LoopImage;
    hide SuperblockBytes, ParseSuperblock, At, TableAt, ReadIdTable;
    SuperblockRoundTrip(LoopImage(z), LoopSuperblock(z));
    IdTableReads(z, LoopImage(z), IdBase(z), LoopSuperblock(z));
  }

  lemma LoopRootReads(z: Zstd, img: Image)
    requires Lossless(z) && img == Image(LoopImage(z), LoopSuperblock(z), [0], [])
    ensures ReadInode(z, img, 0) == Some(DirInode(1, 493, 0, 0, 3, 24, 0, 0, 2))
  {
    TableSizes(z);
    LoopParts(z);
    hide Lossless, Encode, GroupsBytes, LoopGroups, IdBytes, LoopImage, At, TableAt, StreamFrom, ParseInode;
    hide DirInodeBytes;
    EncodedStreamReads(z, img.data, SUPERBLOCK_SIZE, LoopInode());
    WholePrefix(LoopInode(), StreamFrom(z, img.data, SUPERBLOCK_SIZE));
    DirInodeRoundTrip(StreamFrom(z, img.data, SUPERBLOCK_SIZE), 0, 1, 493, 0, 0, LoopDir());
  }

  lemma WholePrefix(s: Bytes, t: Bytes)
    requires s <= t
    ensures At(t, 0, s)
  {
  }

  lemma LoopRootLists(z: Zstd, img: Image)
    requires Lossless(z) && img == Image(LoopImage(z), LoopSuperblock(z), [0], [])
    ensures ReadDir(z, img, DirInode(1, 493, 0, 0, 3, 24, 0, 0, 2)) == Some(Infos(Members(LoopGroups())))
  {
    TableSizes(z);
    LoopParts(z);
    LoopGroupsValid();
    hide Lossless, Encode, GroupsBytes, LoopGroups, LoopInode, IdBytes, LoopImage, At, TableAt, StreamFrom;
    hide ParseGroups, Members, Infos, ValidGroups, AllRepresentable;
    EncodedStreamReads(z, img.data, DirectoryBase(z), GroupsBytes(LoopGroups()));
    var s := StreamFrom(z, img.data, DirectoryBase(z));
    WholePrefix(GroupsBytes(LoopGroups()), s);
    GroupsRead(s, 0, LoopGroups(), 0);
  }

  lemma LoopGroupsValid()
    ensures ValidGroups(LoopGroups()) && AllRepresentable(Members(LoopGroups()))
    ensures |Infos(Members(LoopGroups()))| == 1 && Infos(Members(LoopGroups()))[0].inodeRef == 0
  {
    assert Members(LoopGroups()) == LoopGroups()[0].members + Members(LoopGroups()[1..]);
  }

  /** The code's walk of this image, once opened, does not end. */
  lemma LoopImageNeverEnds(z: Zstd)
    requires Lossless(z)
    ensures var img := Open(z, LoopImage(z));
            img.Some? && LeadsBack(z, img.value, img.value.sb.rootInodeRef) && !Ends(z, img.value)
  {
    hide Lossless, LoopImage, Open, ReadInode, ReadDir, Members, Infos, Ends, LoopGroups;
    LoopImageOpens(z);
    var img := Open(z, LoopImage(z)).value;
    LoopRootReads(z, img);
    LoopRootLists(z, img);
    LoopGroupsValid();
    assert img.sb.rootInodeRef == 0;
    LoopNeverEnds(z, img);
  }
}
