/** Reading undoes writing: from placed nodes to what the reader reports, node by node and
    then for a whole walk. */
module RoundTrip {
  import opened Bytes
  import opened Metadata
  import opened Inodes
  import opened DataBlocks
  import opened Fragments
  import opened Directory
  import opened DirTable
  import opened SuperblockFormat
  import opened Reader
  import opened Tree
  import opened Dedup
  import opened FileData
  import opened Placement
  import opened Costs

  /** The two tables are in the image where its superblock says, and are small enough for the
      32-bit offsets that point into them. */
  ghost predicate Located(img: Image, z: Zstd, inodes: Bytes, dirs: Bytes) {
    && img.sb.blockSize == DATA_BLOCK_SIZE
    && At(img.data, img.sb.inodeTableStart, Encode(z, inodes)) && |inodes| < METADATA_LIMIT
    && At(img.data, img.sb.directoryTableStart, Encode(z, dirs)) && |dirs| < METADATA_LIMIT
  }

  /** What the phase's inputs must satisfy for their on-disk fields not to overflow. */
  ghost predicate Narrow(c: Context) {
    && c.total < 0x8000_0000 && |c.ns| < 0x8000_0000
    && (forall i :: 0 <= i < |c.ns| ==> NodeFits(c.ns[i]))
    && forall i :: 1 <= i < |c.ns| && c.ns[i].kind.File? && DataIdx(c.ns, c.hlFirst, i) in c.fileData ==>
      InfoFits(InfoFor(c, i), c.ns[i].kind.nlink)
  }

  /** What the reader reports for a placed node. */
  function InodeOf(c: Context, i: nat, p: Place): Inode
    requires i < |c.ns| && i in c.numbers && (c.ns[i].kind.File? ==> DataIdx(c.ns, c.hlFirst, i) in c.fileData)
  {
    match c.ns[i].kind
    case File(_, nlink) => FileInodeOf(c.numbers[i], c.ns[i].permissions, 0, 0, InfoFor(c, i), nlink)
    case Symlink(target) => SymlinkInode(c.numbers[i], c.ns[i].permissions, 0, 0, 1, target)
    case Directory(_) => DirInode(c.numbers[i], c.ns[i].permissions, 0, 0, p.dir.nlink, p.dir.dirSize,
                                  p.dir.blockOffset, p.dir.byteOffset, p.dir.parentInode)
  }

  lemma InodeParses(c: Context, i: nat, p: Place, s: Bytes, n: nat)
    requires Narrow(c) && i < |c.ns| && (i == ROOT ==> c.ns[i].kind.Directory?)
    requires i in c.numbers && c.numbers[i] <= c.total
    requires c.ns[i].kind.File? ==> DataIdx(c.ns, c.hlFirst, i) in c.fileData
    requires c.ns[i].kind.Directory? ==> DirFits(p.dir)
    requires At(s, n, InodeBytes(c, i, p))
    ensures ParseInode(DATA_BLOCK_SIZE, s, n) == Some(InodeOf(c, i, p))
  {
    hide ParseInode, At, FileInodeBytes, SymlinkInodeBytes, DirInodeBytes, DataIdx, InfoFits, DirFits;
    assert NodeFits(c.ns[i]);
    var perms := c.ns[i].permissions;
    match c.ns[i].kind
    case File(_, nlink) => FileInodeRoundTrip(s, n, c.numbers[i], perms, 0, 0, InfoFor(c, i), nlink);
    case Symlink(target) => SymlinkInodeRoundTrip(s, n, c.numbers[i], perms, 0, 0, target, 1);
    case Directory(_) => DirInodeRoundTrip(s, n, c.numbers[i], perms, 0, 0, p.dir);
  }

  lemma SubdirBound(ns: seq<Node>, kids: seq<nat>)
    ensures SubdirCount(ns, kids) <= |kids|
  {
  }

  /** Names take room, so a directory that fits lists fewer than 2^32 children. */
  lemma DirInfoFits(c: Context, dirs: Bytes, places: Places, i: nat, p: Place)
    requires Narrow(c) && Ready(c) && i < |c.ns| && c.ns[i].kind.Directory? && DirPlaced(c, dirs, places, i, p)
    requires |dirs| < METADATA_LIMIT
    ensures DirFits(p.dir) && |GroupsBytes(p.groups)| < METADATA_LIMIT
  {
    hide GroupsBytes, Members, BlockStart, Encode, ValidGroups, WellLaid, ClassOf, DataIdx, Ready, Narrow, SubdirCount;
    hide ParentNumber;
    BlockStartBound(c.z, dirs, p.dirAt);
    EncodeFits(c.z, dirs);
    SubdirBound(c.ns, c.ns[i].kind.children);
    GroupsSize(p.groups);
    EntriesTakeRoom(Members(p.groups));
    ParentBound(c, i);
  }

  lemma ParentBound(c: Context, i: nat)
    requires Narrow(c) && Ready(c) && i < |c.ns|
    ensures ParentNumber(c, i) <= c.total + 1 < 0x1_0000_0000
  {
    hide WellLaid, ClassOf, DataIdx, InfoFits, NodeFits;
  }

  lemma {:induction false} EntriesTakeRoom(cs: seq<DirChild>)
    ensures |cs| <= EntryByteCount(cs)
  {
    if cs != [] { EntriesTakeRoom(cs[1..]); }
  }

  /** Reading the reference handed out for a node gives that node's inode. */
  lemma InodeReads(c: Context, img: Image, inodes: Bytes, dirs: Bytes, places: Places, i: nat)
    requires Lossless(c.z) && Narrow(c) && Ready(c) && Located(img, c.z, inodes, dirs)
    requires Placed(c, inodes, dirs, places, i)
    ensures ReadInode(c.z, img, places[i].iref) == Some(InodeOf(c, i, places[i]))
  {
    hide Lossless, StreamFrom, ParseInode, Encode, RefAt, DirPlaced, InodeBytes, InodeOf, Narrow, BlockStart, At;
    hide DirFits, Ready, DataIdx;
    var p := places[i];
    ReadyNumber(c, i);
    var s := StreamFrom(c.z, img.data, img.sb.inodeTableStart + BlockStart(c.z, inodes, p.at));
    StreamAtPosition(c.z, img.data, img.sb.inodeTableStart, inodes, p.at, InodeBytes(c, i, p));
    if c.ns[i].kind.Directory? { DirInfoFits(c, dirs, places, i, p); }
    hide Located;
    InodeParses(c, i, p, s, p.at % METADATA_BLOCK_SIZE);
    RefParts(c.z, inodes, p.at);
  }

  lemma RefParts(z: Zstd, s: Bytes, n: nat)
    requires n <= |s|
    ensures RefAt(z, s, n) / 0x1_0000 == BlockStart(z, s, n) && RefAt(z, s, n) % 0x1_0000 == n % METADATA_BLOCK_SIZE
  {
    hide RefAt, BlockStart;
  }

  lemma ReadyNumber(c: Context, i: nat)
    requires Ready(c) && i < |c.ns|
    ensures i in c.numbers && 1 <= c.numbers[i] <= c.total && |c.ns| > 0 && c.ns[ROOT].kind.Directory?
  {
    hide SubEnd, DirLaid;
  }

  /** A listed child's entry fields do not overflow. */
  lemma ChildRepresentable(c: Context, inodes: Bytes, dirs: Bytes, places: Places, k: nat)
    requires Narrow(c) && Ready(c) && Placed(c, inodes, dirs, places, k) && |inodes| < METADATA_LIMIT
    ensures Representable(ChildOf(c, places, k))
  {
    hide Encode, DirPlaced, InodeBytes, BlockStart, At, RefAt;
    ReadyNumber(c, k);
    hide Ready;
    BlockStartBound(c.z, inodes, places[k].at);
    EncodeFits(c.z, inodes);
    RefParts(c.z, inodes, places[k].at);
  }

  lemma ListedRepresentable(c: Context, inodes: Bytes, dirs: Bytes, places: Places, kids: seq<nat>,
                            listed: seq<DirChild>)
    requires Narrow(c) && Ready(c) && AllPlaced(c, inodes, dirs, places) && |inodes| < METADATA_LIMIT
    requires ListsChildren(c, places, kids, listed)
    ensures AllRepresentable(listed)
  {
    hide Narrow, Ready, Placed, ChildOf, Representable;
    forall k | 0 <= k < |listed| ensures Representable(listed[k]) {
      assert kids[k] in places;
      ChildRepresentable(c, inodes, dirs, places, kids[k]);
    }
  }

  /** Reading a placed directory gives its children, in order, with their numbers,
      references and types. */
  lemma DirReads(c: Context, img: Image, inodes: Bytes, dirs: Bytes, places: Places, i: nat)
    requires Lossless(c.z) && Narrow(c) && Ready(c) && Located(img, c.z, inodes, dirs)
    requires AllPlaced(c, inodes, dirs, places) && i in places && i in c.numbers
    requires i < |c.ns| && c.ns[i].kind.Directory?
    ensures ReadDir(c.z, img, InodeOf(c, i, places[i])) == Some(Infos(Members(places[i].groups)))
    ensures ListsChildren(c, places, c.ns[i].kind.children, Members(places[i].groups))
  {
    hide Lossless, StreamFrom, ParseGroups, Encode, InodeBytes, Narrow, Ready, BlockStart, At, GroupsBytes, Members;
    hide Infos, ListsChildren;
    hide ValidGroups, AllRepresentable, SubdirCount, ParentNumber;
    var p := places[i];
    assert Placed(c, inodes, dirs, places, i);
    DirInfoFits(c, dirs, places, i, p);
    ListedRepresentable(c, inodes, dirs, places, c.ns[i].kind.children, Members(p.groups));
    hide AllPlaced, DirFits;
    var s := StreamFrom(c.z, img.data, img.sb.directoryTableStart + BlockStart(c.z, dirs, p.dirAt));
    var n := p.dirAt % METADATA_BLOCK_SIZE;
    StreamAtPosition(c.z, img.data, img.sb.directoryTableStart, dirs, p.dirAt, GroupsBytes(p.groups));
    AtRange(s, n, GroupsBytes(p.groups));
    GroupsRead(s, n, p.groups, 0);
    assert DirDataSize(p.dir.dirSize) == |GroupsBytes(p.groups)|;
  }

  /** The entries of a written directory refer to inodes below its own: a walk of the image
      descends, and so ends. */
  lemma ReferencesDescend(c: Context, img: Image, inodes: Bytes, dirs: Bytes, places: Places, i: nat)
    requires Lossless(c.z) && Narrow(c) && Ready(c) && Located(img, c.z, inodes, dirs)
    requires AllPlaced(c, inodes, dirs, places) && i in places && i in c.numbers
    requires i < |c.ns| && c.ns[i].kind.Directory?
    ensures var entries := ReadDir(c.z, img, InodeOf(c, i, places[i]));
            entries.Some? && forall e <- entries.value :: e.inodeRef < places[i].iref
  {
    hide Lossless, ReadDir, Narrow, Ready, At, GroupsBytes, Located, RefAt, InodeOf;
    DirReads(c, img, inodes, dirs, places, i);
    var kids, listed := c.ns[i].kind.children, Members(places[i].groups);
    assert Placed(c, inodes, dirs, places, i);
    forall k | 0 <= k < |kids| ensures listed[k].inodeRef < places[i].iref {
      assert kids[k] in places && listed[k] == ChildOf(c, places, kids[k]);
      assert Placed(c, inodes, dirs, places, kids[k]);
      assert kids[k] in kids;
      RefMonotone(c.z, inodes, places[kids[k]].at, places[i].at);
    }
    hide Placed, Members;
    assert forall k :: 0 <= k < |kids| ==> Infos(listed)[k].inodeRef == listed[k].inodeRef;
  }
}
