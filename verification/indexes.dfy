/** The index of every directory of a written image, against the directory's listing. */
module DirectoryIndexes {
  import opened Bytes
  import opened Metadata
  import opened Inodes
  import opened Directory
  import opened DirTable
  import opened DirIndex
  import opened SuperblockFormat
  import opened Reader
  import opened Tree
  import opened Dedup
  import opened FileData
  import opened Fragments
  import opened Placement
  import opened Costs
  import opened RoundTrip
  import opened Walking

  /** The fields of an index record hold its values, and its name has the recorded size. */
  ghost predicate RecordFits(e: IndexEntry) {
    && e.index < 0x1_0000_0000 && e.startBlock < 0x1_0000_0000 && e.nameSize < 0x1_0000_0000
    && e.nameSize + 1 == |e.name|
  }

  ghost predicate RecordsFit(index: seq<IndexEntry>) {
    forall k :: 0 <= k < |index| ==> RecordFits(index[k])
  }

  /** `index` is the index of the directory inode at offset `n`: only an extended inode has
      one, counted (modulo 2^16) in the inode and following it. */
  ghost predicate IndexStored(s: Bytes, n: nat, index: seq<IndexEntry>) {
    && n + 2 <= |s| && RecordsFit(index)
    && if U16At(s, n) != INODE_EXT_DIR then index == []
       else n + 40 <= |s| && U16At(s, n + 32) == |index| % 0x1_0000 && At(s, n + 40, IndexBytes(index))
  }

  /** Decoding the directory from where `e` leads: the stored block it gives, at the offset it
      gives within the directory's data. */
  function ScanFrom(z: Zstd, img: Image, dir: Inode, e: IndexEntry): Option<seq<DirEntryInfo>>
    requires dir.DirInode? && e.index <= DirDataSize(dir.fileSize)
  {
    ParseGroups(StreamFrom(z, img.data, img.sb.directoryTableStart + e.startBlock),
                (dir.offset + e.index) % METADATA_BLOCK_SIZE, 0, DirDataSize(dir.fileSize) - e.index)
  }

  /** What is decoded from there is the rest of the listing, from the entry named in `e` on. */
  ghost predicate LeadsToTail(z: Zstd, img: Image, dir: Inode, entries: seq<DirEntryInfo>, e: IndexEntry)
    requires dir.DirInode?
  {
    && e.index <= DirDataSize(dir.fileSize)
    && exists rank :: 0 <= rank < |entries| && entries[rank].name == e.name
                      && ScanFrom(z, img, dir, e) == Some(entries[rank..])
  }

  /** If the inode at `iref` is a directory, then its listing can be read and each entry of its
      index leads into it. */
  ghost predicate IndexAgrees(z: Zstd, img: Image, iref: nat)
    requires img.sb.blockSize > 0
  {
    var inode := ReadInode(z, img, iref);
    inode.Some? && inode.value.DirInode? ==>
      var entries := ReadDir(z, img, inode.value);
      entries.Some? && exists index :: IndexLeads(z, img, iref, inode.value, entries.value, index)
  }

  ghost predicate IndexLeads(z: Zstd, img: Image, iref: nat, dir: Inode, entries: seq<DirEntryInfo>,
                             index: seq<IndexEntry>)
    requires dir.DirInode?
  {
    && IndexStored(StreamFrom(z, img.data, img.sb.inodeTableStart + iref / 0x1_0000), iref % 0x1_0000, index)
    && forall k :: 0 <= k < |index| ==> LeadsToTail(z, img, dir, entries, index[k])
  }

  lemma IndexFollowsInode(s: Bytes, n: nat, inum: nat, permissions: nat, uid: nat, gid: nat, d: DirInfo)
    requires HeaderFits(inum, permissions, uid, gid) && At(s, n, DirInodeBytes(inum, permissions, uid, gid, d))
    requires RecordsFit(d.index)
    ensures IndexStored(s, n, d.index)
  {
    hide RecordsFit;
    hide At, HeaderBytes, ExtDirBody, BasicDirBody, IndexBytes, U16At, U32At;
    if UseExtDir(d) {
      HeaderReads(s, n, INODE_EXT_DIR, permissions, uid, gid, inum, ExtDirBody(d) + IndexBytes(d.index));
      ExtDirBodyReads(s, n + 16, d, IndexBytes(d.index));
    } else {
      HeaderReads(s, n, INODE_BASIC_DIR, permissions, uid, gid, inum, BasicDirBody(d));
    }
  }

  /** The count stored in an extended directory inode is the number of index records if and only
      if there are fewer than 65536 of them. */
  lemma StoredCountExactly(s: Bytes, n: nat, inum: nat, permissions: nat, uid: nat, gid: nat, d: DirInfo)
    requires HeaderFits(inum, permissions, uid, gid) && UseExtDir(d)
    requires At(s, n, DirInodeBytes(inum, permissions, uid, gid, d))
    ensures n + 34 <= |s| && (U16At(s, n + 32) == |d.index| <==> |d.index| < 0x1_0000)
  {
    hide At, HeaderBytes, ExtDirBody, IndexBytes, U16At, U32At;
    HeaderReads(s, n, INODE_EXT_DIR, permissions, uid, gid, inum, ExtDirBody(d) + IndexBytes(d.index));
    ExtDirBodyReads(s, n + 16, d, IndexBytes(d.index));
  }

  /** Up to that number the bytes determine the index. */
  lemma IndexDetermined(s: Bytes, n: nat, a: seq<IndexEntry>, b: seq<IndexEntry>)
    requires IndexStored(s, n, a) && IndexStored(s, n, b) && |a| < 0x1_0000 && |b| < 0x1_0000
    ensures a == b
  {
    hide U16At, At, IndexBytes, RecordsFit;
    if U16At(s, n) == INODE_EXT_DIR { RecordsDetermined(s, n + 40, a, b); }
  }

  lemma {:induction false} RecordsDetermined(s: Bytes, n: nat, a: seq<IndexEntry>, b: seq<IndexEntry>)
    requires RecordsFit(a) && RecordsFit(b) && |a| == |b|
    requires At(s, n, IndexBytes(a)) && At(s, n, IndexBytes(b))
    ensures a == b
    decreases |a|
  {
    hide At, RecordFits, IndexEntryBytes, U32At;
    if a != [] {
      assert RecordFits(a[0]) && RecordFits(b[0]);
      RecordReads(s, n, a[0], IndexBytes(a[1..]));
      RecordReads(s, n, b[0], IndexBytes(b[1..]));
      SameRecord(s, n, a[0], b[0]);
      RecordsDetermined(s, n + 12 + |a[0].name|, a[1..], b[1..]);
      assert a == [a[0]] + a[1..] && b == [b[0]] + b[1..];
    }
  }

  lemma RecordReads(s: Bytes, n: nat, e: IndexEntry, rest: Bytes)
    requires RecordFits(e) && At(s, n, IndexEntryBytes(e) + rest)
    ensures n + 12 + |e.name| <= |s| && At(s, n + 12 + |e.name|, rest)
    ensures U32At(s, n) == e.index && U32At(s, n + 4) == e.startBlock && U32At(s, n + 8) == e.nameSize
    ensures s[n + 12..n + 12 + |e.name|] == e.name
  {
    hide LE32, U32At;
    AtSplit(s, n, IndexEntryBytes(e), rest);
    Take32(s, n, e.index, LE32(e.startBlock) + (LE32(e.nameSize) + e.name));
    Take32(s, n + 4, e.startBlock, LE32(e.nameSize) + e.name);
    Take32(s, n + 8, e.nameSize, e.name);
  }

  lemma SameRecord(s: Bytes, n: nat, a: IndexEntry, b: IndexEntry)
    requires RecordFits(a) && RecordFits(b) && n + 12 + |a.name| <= |s| && n + 12 + |b.name| <= |s|
    requires U32At(s, n) == a.index == b.index && U32At(s, n + 4) == a.startBlock == b.startBlock
    requires U32At(s, n + 8) == a.nameSize == b.nameSize
    requires s[n + 12..n + 12 + |a.name|] == a.name && s[n + 12..n + 12 + |b.name|] == b.name
    ensures a == b
  {
  }

  /** The inode of a placed directory is followed by the index found while grouping. */
  lemma PlacedIndexStored(c: Context, img: Image, inodes: Bytes, dirs: Bytes, places: Places, i: nat)
    requires Lossless(c.z) && Narrow(c) && Ready(c) && Located(img, c.z, inodes, dirs)
    requires Placed(c, inodes, dirs, places, i) && c.ns[i].kind.Directory? && RecordsFit(places[i].dir.index)
    ensures var iref := places[i].iref;
            IndexStored(StreamFrom(c.z, img.data, img.sb.inodeTableStart + iref / 0x1_0000), iref % 0x1_0000,
                        places[i].dir.index)
  {
    hide Lossless, StreamFrom, Encode, RefAt, DirPlaced, Narrow, BlockStart, At, Ready, DirInodeBytes, IndexStored;
    hide RecordsFit;
    var p := places[i];
    NodeHeaderFits(c, i);
    StreamAtPosition(c.z, img.data, img.sb.inodeTableStart, inodes, p.at, InodeBytes(c, i, p));
    RefParts(c.z, inodes, p.at);
    IndexFollowsInode(StreamFrom(c.z, img.data, img.sb.inodeTableStart + BlockStart(c.z, inodes, p.at)),
                      p.at % METADATA_BLOCK_SIZE, c.numbers[i], c.ns[i].permissions, 0, 0, p.dir);
  }

  lemma NodeHeaderFits(c: Context, i: nat)
    requires Narrow(c) && Ready(c) && i < |c.ns|
    ensures i in c.numbers && HeaderFits(c.numbers[i], c.ns[i].permissions, 0, 0)
  {
    hide Ready, InfoFits;
    ReadyNumber(c, i);
    assert NodeFits(c.ns[i]);
  }

  lemma PlacedRecordsFit(c: Context, dirs: Bytes, places: Places, i: nat, p: Place)
    requires Narrow(c) && Ready(c) && i < |c.ns| && c.ns[i].kind.Directory? && DirPlaced(c, dirs, places, i, p)
    requires |dirs| < METADATA_LIMIT
    ensures RecordsFit(p.dir.index)
  {
    hide GroupsBytes, BlockStart, Encode, At, ListsChildren, SubdirCount, ParentNumber, DirFits, Ready, Narrow, Members;
    DirInfoFits(c, dirs, places, i, p);
    forall k | 0 <= k < |p.dir.index| ensures RecordFits(p.dir.index[k]) {
      var r, j := p.raw[k], p.landing[k];
      assert Names(r, j, p.groups) && PointsAt(c.z, dirs, p.dirAt, r, p.dir.index[k]);
      assert ValidGroup(p.groups[j]);
      GroupStartsInside(p.groups, j);
    }
  }

  /** Each index leads, in the stored directory table, to the group it names. */
  lemma PlacedIndexLeads(c: Context, img: Image, inodes: Bytes, dirs: Bytes, places: Places, i: nat, k: nat)
    requires Lossless(c.z) && Narrow(c) && Ready(c) && Located(img, c.z, inodes, dirs)
    requires AllPlaced(c, inodes, dirs, places) && i in places && Placed(c, inodes, dirs, places, i)
    requires c.ns[i].kind.Directory? && k < |places[i].dir.index|
    ensures LeadsToTail(c.z, img, InodeOf(c, i, places[i]), Infos(Members(places[i].groups)), places[i].dir.index[k])
  {
    hide Lossless, StreamFrom, ParseGroups, Encode, InodeBytes, Narrow, Ready, BlockStart, At, GroupsBytes, Members;
    hide ListsChildren, ValidGroups, AllRepresentable, SubdirCount, ParentNumber, Names, PointsAt, Rank, Ascending;
    var p := places[i];
    DirInfoFits(c, dirs, places, i, p);
    ListedRepresentable(c, inodes, dirs, places, c.ns[i].kind.children, Members(p.groups));
    hide AllPlaced, DirFits, RefAt;
    EncodeFits(c.z, dirs);
    var r, j, e := p.raw[k], p.landing[k], p.dir.index[k];
    assert Names(r, j, p.groups) && PointsAt(c.z, dirs, p.dirAt, r, e);
    LandingInside(r, j, p.groups);
    IndexAgreesWithScan(c.z, img.data, img.sb.directoryTableStart, dirs, p.dirAt, p.groups, r, j, e);
    var rank := Rank(p.groups, j);
    InfosFrom(Members(p.groups), rank);
    assert DirDataSize(p.dir.dirSize) == |GroupsBytes(p.groups)|;
    var entries := Infos(Members(p.groups));
    assert entries[rank].name == e.name;
    assert ScanFrom(c.z, img, InodeOf(c, i, p), e) == Some(entries[rank..]);
  }

  lemma LandingInside(r: RawIndex, j: nat, gs: seq<Group>)
    requires Names(r, j, gs)
    ensures j < |gs|
  {
  }

  lemma InfosFrom(cs: seq<DirChild>, n: nat)
    requires n <= |cs|
    ensures Infos(cs[n..]) == Infos(cs)[n..]
    ensures forall i :: 0 <= i < |cs| ==> Infos(cs)[i].name == cs[i].name
  {
  }

  lemma PlacedHasData(c: Context, inodes: Bytes, dirs: Bytes, places: Places, i: nat)
    requires Placed(c, inodes, dirs, places, i)
    ensures c.ns[i].kind.File? ==> DataIdx(c.ns, c.hlFirst, i) in c.fileData
  {
    hide At, RefAt, InodeBytes, DirPlaced, DataIdx;
  }

  lemma PlacedFits(c: Context, img: Image, inodes: Bytes, dirs: Bytes, places: Places, i: nat)
    requires Narrow(c) && Ready(c) && Located(img, c.z, inodes, dirs)
    requires Placed(c, inodes, dirs, places, i) && c.ns[i].kind.Directory?
    ensures RecordsFit(places[i].dir.index)
  {
    hide Narrow, Ready, At, RefAt, InodeBytes, DirPlaced, Encode, RecordsFit;
    PlacedRecordsFit(c, dirs, places, i, places[i]);
  }

  lemma IndexParts(c: Context, img: Image, raws: seq<Bytes>, inodes: Bytes, dirs: Bytes, places: Places, i: nat,
                   dir: Inode)
    requires Written(c, img, raws, inodes, dirs, places) && i in places && Placed(c, inodes, dirs, places, i)
    requires c.ns[i].kind.Directory? && i in c.numbers && dir == InodeOf(c, i, places[i]) && dir.DirInode?
    ensures IndexLeads(c.z, img, places[i].iref, dir, EntriesOf(places, i), places[i].dir.index)
  {
    hide Lossless, Narrow, Ready, Located, AllPlaced, Placed, LeadsToTail, IndexStored, AllStored, InfoHolds, InodeOf;
    hide StreamFrom, Members, Infos, RecordsFit;
    PlacedFits(c, img, inodes, dirs, places, i);
    PlacedIndexStored(c, img, inodes, dirs, places, i);
    forall k | 0 <= k < |places[i].dir.index|
      ensures LeadsToTail(c.z, img, dir, EntriesOf(places, i), places[i].dir.index[k])
    {
      PlacedIndexLeads(c, img, inodes, dirs, places, i, k);
    }
  }

  /** In a written image the index of every directory agrees with its listing. */
  lemma WrittenIndexAgrees(c: Context, img: Image, raws: seq<Bytes>, inodes: Bytes, dirs: Bytes, places: Places, i: nat)
    requires Written(c, img, raws, inodes, dirs, places) && i < |c.ns| && i in places && img.sb.blockSize > 0
    ensures IndexAgrees(c.z, img, places[i].iref)
  {
    hide Written, ReadInode, ReadDir, InodeOf, Placed, IndexLeads, Members, ListsChildren, EntriesOf;
    NodeReads(c, img, raws, inodes, dirs, places, i);
    PlacedHasData(c, inodes, dirs, places, i);
    InodeKind(c, i, places[i]);
    if c.ns[i].kind.Directory? {
      DirEntries(c, img, raws, inodes, dirs, places, i);
      IndexParts(c, img, raws, inodes, dirs, places, i, InodeOf(c, i, places[i]));
    }
  }

  // ----- the entries -----

  /** The type that an entry for an inode bears, whichever form the inode has. */
  function TypeNumber(i: Inode): nat {
    match i
    case DirInode(_, _, _, _, _, _, _, _, _) => 1
    case FileInode(_, _, _, _, _, _, _, _, _, _) => 2
    case SymlinkInode(_, _, _, _, _, _) => 3
  }

  /** The entry bears the number and the type of the inode it refers to. */
  ghost predicate EntryAgrees(z: Zstd, img: Image, e: DirEntryInfo)
    requires img.sb.blockSize > 0
  {
    var inode := ReadInode(z, img, e.inodeRef);
    inode.Some? && e.inodeNumber == inode.value.inodeNumber && e.entryType == TypeNumber(inode.value)
  }

  function ListingSize(es: seq<DirEntryInfo>): nat {
    if es == [] then 0 else 8 + |es[0].name| + ListingSize(es[1..])
  }

  /** A directory's size: 3, and 12 bytes for each group and 8 and the name for each entry. */
  ghost predicate SizeAgrees(size: nat, es: seq<DirEntryInfo>) {
    exists groups: nat :: SizeWith(size, es, groups)
  }

  ghost predicate SizeWith(size: nat, es: seq<DirEntryInfo>, groups: nat) {
    groups <= |es| && (groups == 0 <==> es == []) && size == 3 + 12 * groups + ListingSize(es)
  }

  /** If the inode at `iref` is a directory, its size is that of its listing, all of whose entries
      agree with their inodes. */
  ghost predicate EntriesAgree(z: Zstd, img: Image, iref: nat)
    requires img.sb.blockSize > 0
  {
    var inode := ReadInode(z, img, iref);
    inode.Some? && inode.value.DirInode? ==>
      var entries := ReadDir(z, img, inode.value);
      && entries.Some? && SizeAgrees(inode.value.fileSize, entries.value)
      && forall k :: 0 <= k < |entries.value| ==> EntryAgrees(z, img, entries.value[k])
  }

  lemma {:induction false} ListingSizeIs(cs: seq<DirChild>)
    ensures ListingSize(Infos(cs)) == EntryByteCount(cs)
    decreases |cs|
  {
    if cs != [] {
      ListingSizeIs(cs[1..]);
      assert Infos(cs)[1..] == Infos(cs[1..]);
    }
  }

  lemma DirSizeAgrees(c: Context, dirs: Bytes, places: Places, i: nat, p: Place)
    requires Narrow(c) && Ready(c) && i < |c.ns| && c.ns[i].kind.Directory? && DirPlaced(c, dirs, places, i, p)
    requires |dirs| < METADATA_LIMIT
    ensures SizeAgrees(p.dir.dirSize, Infos(Members(p.groups)))
  {
    hide GroupsBytes, BlockStart, Encode, At, ListsChildren, SubdirCount, ParentNumber, DirFits, Ready, Narrow, Members;
    hide ValidGroups, Indexed, Resolved, ListingSize;
    DirInfoFits(c, dirs, places, i, p);
    GroupsSize(p.groups);
    NoMembers(p.groups);
    ListingSizeIs(Members(p.groups));
    assert SizeWith(p.dir.dirSize, Infos(Members(p.groups)), |p.groups|);
  }

  lemma NoMembers(gs: seq<Group>)
    requires ValidGroups(gs)
    ensures Members(gs) == [] <==> gs == []
  {
    if gs != [] {
      assert ValidGroup(gs[0]);
      ValidGroupSize(gs[0]);
    }
  }

  lemma PlacedSize(c: Context, img: Image, raws: seq<Bytes>, inodes: Bytes, dirs: Bytes, places: Places, i: nat)
    requires Written(c, img, raws, inodes, dirs, places) && i < |c.ns| && i in places && i in c.numbers
    requires Placed(c, inodes, dirs, places, i) && c.ns[i].kind.Directory?
    ensures InodeOf(c, i, places[i]).DirInode?
    ensures SizeAgrees(InodeOf(c, i, places[i]).fileSize, EntriesOf(places, i))
  {
    hide Lossless, Narrow, Ready, AllPlaced, AllStored, InfoHolds, At, RefAt, InodeBytes, DirPlaced, SizeAgrees, Encode;
    hide Members, Infos;
    DirSizeAgrees(c, dirs, places, i, places[i]);
  }

  lemma KidAgrees(c: Context, img: Image, raws: seq<Bytes>, inodes: Bytes, dirs: Bytes, places: Places, i: nat, k: nat)
    requires Written(c, img, raws, inodes, dirs, places) && i < |c.ns| && c.ns[i].kind.Directory? && i in places
    requires ListsChildren(c, places, c.ns[i].kind.children, Members(places[i].groups)) && img.sb.blockSize > 0
    requires k < |c.ns[i].kind.children| == |EntriesOf(places, i)|
    ensures EntryAgrees(c.z, img, EntriesOf(places, i)[k])
  {
    hide Written, ReadInode, Placed, InodeOf, Members;
    var kid := c.ns[i].kind.children[k];
    assert Members(places[i].groups)[k] == ChildOf(c, places, kid);
    NodeReads(c, img, raws, inodes, dirs, places, kid);
    PlacedHasData(c, inodes, dirs, places, kid);
    InodeTyped(c, kid, places[kid]);
  }

  lemma InodeTyped(c: Context, i: nat, p: Place)
    requires i < |c.ns| && i in c.numbers && (c.ns[i].kind.File? ==> DataIdx(c.ns, c.hlFirst, i) in c.fileData)
    ensures InodeOf(c, i, p).inodeNumber == c.numbers[i] && TypeNumber(InodeOf(c, i, p)) == EntryType(c.ns[i].kind)
  {
    hide DataIdx;
  }

  /** In a written image the entries of every directory agree with their inodes. */
  lemma WrittenEntriesAgree(c: Context, img: Image, raws: seq<Bytes>, inodes: Bytes, dirs: Bytes, places: Places,
                            i: nat)
    requires Written(c, img, raws, inodes, dirs, places) && i < |c.ns| && i in places && img.sb.blockSize > 0
    ensures EntriesAgree(c.z, img, places[i].iref)
  {
    hide Written, ReadInode, ReadDir, InodeOf, Placed, Members, ListsChildren, EntriesOf, EntryAgrees, SizeAgrees;
    NodeReads(c, img, raws, inodes, dirs, places, i);
    PlacedHasData(c, inodes, dirs, places, i);
    InodeKind(c, i, places[i]);
    if c.ns[i].kind.Directory? {
      DirEntries(c, img, raws, inodes, dirs, places, i);
      PlacedSize(c, img, raws, inodes, dirs, places, i);
      forall k | 0 <= k < |EntriesOf(places, i)| ensures EntryAgrees(c.z, img, EntriesOf(places, i)[k]) {
        KidAgrees(c, img, raws, inodes, dirs, places, i, k);
      }
    }
  }
}
