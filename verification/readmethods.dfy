/** The reader's operations as the code runs them, each computing the function that says what
    it returns. */
module ReadOperations {
  import opened Bytes
  import opened Metadata
  import opened MetaReader
  import opened Inodes
  import opened Directory
  import opened DataBlocks
  import opened Fragments
  import opened SuperblockFormat
  import opened Reader
  import opened WalkEnds

  datatype Header = Header(inodeType: nat, permissions: nat, uidIdx: nat, gidIdx: nat, inodeNumber: nat)

  method ReadHeader(r: MetadataReader) returns (h: Option<Header>)
    requires r.Valid()
    modifies r
    ensures h.Some? <==> old(r.consumed) + 16 <= |r.Stream()|
    ensures h.Some? ==> r.Valid() && r.consumed == old(r.consumed) + 16
    ensures h.Some? ==> var s, n := r.Stream(), old(r.consumed);
      h.value == Header(U16At(s, n), U16At(s, n + 2), U16At(s, n + 4), U16At(s, n + 6), U32At(s, n + 12))
  {
    hide MetadataReader.Valid, StreamFrom, U16At, U32At;
    var inodeType := r.ReadU16();
    if inodeType.None? { return None; }
    var permissions := r.ReadU16();
    if permissions.None? { return None; }
    var uidIdx := r.ReadU16();
    if uidIdx.None? { return None; }
    var gidIdx := r.ReadU16();
    if gidIdx.None? { return None; }
    var mtime := r.ReadU32();
    if mtime.None? { return None; }
    var inodeNumber := r.ReadU32();
    if inodeNumber.None? { return None; }
    h := Some(Header(inodeType.value, permissions.value, uidIdx.value, gidIdx.value, inodeNumber.value));
  }

  /** The header at `n` of the stream has just been read. */
  ghost predicate AfterHeader(r: MetadataReader, n: nat, h: Header)
    reads r
  {
    && r.Valid() && r.consumed == n + 16 && n + 16 <= |r.Stream()|
    && h == Header(U16At(r.Stream(), n), U16At(r.Stream(), n + 2), U16At(r.Stream(), n + 4), U16At(r.Stream(), n + 6),
                   U32At(r.Stream(), n + 12))
  }

  method ReadBasicDir(r: MetadataReader, h: Header, ghost n: nat) returns (inode: Option<Inode>)
    requires AfterHeader(r, n, h)
    modifies r
    ensures inode == ParseBasicDir(r.Stream(), n)
  {
    hide MetadataReader.Valid, StreamFrom, U16At, U32At;
    var startBlock := r.ReadU32();
    if startBlock.None? { return None; }
    var nlink := r.ReadU32();
    if nlink.None? { return None; }
    var fileSize := r.ReadU16();
    if fileSize.None? { return None; }
    var offset := r.ReadU16();
    if offset.None? { return None; }
    var parentInode := r.ReadU32();
    if parentInode.None? { return None; }
    inode := Some(DirInode(h.inodeNumber, h.permissions, h.uidIdx, h.gidIdx, nlink.value, fileSize.value,
                           startBlock.value, offset.value, parentInode.value));
  }

  method ReadExtDir(r: MetadataReader, h: Header, ghost n: nat) returns (inode: Option<Inode>)
    requires AfterHeader(r, n, h)
    modifies r
    ensures inode == ParseExtDir(r.Stream(), n)
  {
    hide MetadataReader.Valid, StreamFrom, U16At, U32At;
    var nlink := r.ReadU32();
    if nlink.None? { return None; }
    var fileSize := r.ReadU32();
    if fileSize.None? { return None; }
    var startBlock := r.ReadU32();
    if startBlock.None? { return None; }
    var parentInode := r.ReadU32();
    if parentInode.None? { return None; }
    var indexCount := r.ReadU16();
    if indexCount.None? { return None; }
    var offset := r.ReadU16();
    if offset.None? { return None; }
    var xattrIdx := r.ReadU32();
    if xattrIdx.None? { return None; }
    inode := Some(DirInode(h.inodeNumber, h.permissions, h.uidIdx, h.gidIdx, nlink.value, fileSize.value,
                           startBlock.value, offset.value, parentInode.value));
  }

  /** `count` block sizes. */
  method ReadU32s(r: MetadataReader, count: nat) returns (xs: Option<seq<nat>>)
    requires r.Valid() && r.consumed <= |r.Stream()|
    modifies r
    ensures xs.Some? <==> old(r.consumed) + 4 * count <= |r.Stream()|
    ensures xs.Some? ==> xs.value == U32sAt(r.Stream(), old(r.consumed), count)
  {
    hide MetadataReader.Valid, StreamFrom, U32At;
    var sizes: seq<nat> := [];
    ghost var n := r.consumed;
    for i := 0 to count
      invariant r.Valid() && r.consumed == n + 4 * i <= |r.Stream()| && |sizes| == i
      invariant forall j :: 0 <= j < i ==> sizes[j] == U32At(r.Stream(), n + 4 * j)
    {
      var x := r.ReadU32();
      if x.None? { return None; }
      sizes := sizes + [x.value];
    }
    xs := Some(sizes);
  }

  method ReadBasicFile(blockSize: nat, r: MetadataReader, h: Header, ghost n: nat) returns (inode: Option<Inode>)
    requires AfterHeader(r, n, h) && blockSize > 0
    modifies r
    ensures inode == ParseBasicFile(blockSize, r.Stream(), n)
  {
    hide MetadataReader.Valid, StreamFrom, U16At, U32At, U32sAt;
    var startBlock := r.ReadU32();
    if startBlock.None? { return None; }
    var fragment := r.ReadU32();
    if fragment.None? { return None; }
    var fragmentOffset := r.ReadU32();
    if fragmentOffset.None? { return None; }
    var fileSize := r.ReadU32();
    if fileSize.None? { return None; }
    var blockCount :=
      if fragment.value != NO_FRAGMENT then fileSize.value / blockSize else CeilDiv(fileSize.value, blockSize);
    var blockSizes := ReadU32s(r, blockCount);
    if blockSizes.None? { return None; }
    inode := Some(FileInode(h.inodeNumber, h.permissions, h.uidIdx, h.gidIdx, fileSize.value, startBlock.value,
                            fragment.value, fragmentOffset.value, 1, blockSizes.value));
  }

  method ReadExtFile(blockSize: nat, r: MetadataReader, h: Header, ghost n: nat) returns (inode: Option<Inode>)
    requires AfterHeader(r, n, h) && blockSize > 0
    modifies r
    ensures inode == ParseExtFile(blockSize, r.Stream(), n)
  {
    hide MetadataReader.Valid, StreamFrom, U16At, U32At, U64At, U32sAt;
    var startBlock := r.ReadU64();
    if startBlock.None? { return None; }
    var fileSize := r.ReadU64();
    if fileSize.None? { return None; }
    var sparse := r.ReadU64();
    if sparse.None? { return None; }
    var nlink := r.ReadU32();
    if nlink.None? { return None; }
    var fragment := r.ReadU32();
    if fragment.None? { return None; }
    var fragmentOffset := r.ReadU32();
    if fragmentOffset.None? { return None; }
    var xattrIdx := r.ReadU32();
    if xattrIdx.None? { return None; }
    var blockCount :=
      if fragment.value != NO_FRAGMENT then fileSize.value / blockSize else CeilDiv(fileSize.value, blockSize);
    var blockSizes := ReadU32s(r, blockCount);
    if blockSizes.None? { return None; }
    inode := Some(FileInode(h.inodeNumber, h.permissions, h.uidIdx, h.gidIdx, fileSize.value, startBlock.value,
                            fragment.value, fragmentOffset.value, nlink.value, blockSizes.value));
  }

  method ReadSymlink(r: MetadataReader, h: Header, extended: bool, ghost n: nat) returns (inode: Option<Inode>)
    requires AfterHeader(r, n, h)
    modifies r
    ensures inode == ParseSymlink(r.Stream(), n, if extended then 4 else 0)
  {
    hide MetadataReader.Valid, StreamFrom, U16At, U32At;
    var nlink := r.ReadU32();
    if nlink.None? { return None; }
    var size := r.ReadU32();
    if size.None? { return None; }
    var target := r.ReadExact(size.value);
    if target.None? { return None; }
    if extended {
      var xattrIdx := r.ReadU32();
      if xattrIdx.None? { return None; }
    }
    inode := Some(SymlinkInode(h.inodeNumber, h.permissions, h.uidIdx, h.gidIdx, nlink.value, target.value));
  }

  /** Seek, skip, read field by field. */
  method ReadInodeAt(z: Zstd, img: Image, iref: nat) returns (inode: Option<Inode>)
    requires img.sb.blockSize > 0
    ensures inode == ReadInode(z, img, iref)
  {
    hide MetadataReader.Valid, StreamFrom, U16At, U32At, ParseBasicDir, ParseExtDir, ParseBasicFile, ParseExtFile;
    hide ParseSymlink;
    var n := iref % 0x1_0000;
    var r := new MetadataReader(z, img.data, img.sb.inodeTableStart + iref / 0x1_0000);
    var ok := r.Skip(n);
    if !ok { return None; }
    var h := ReadHeader(r);
    if h.None? { return None; }
    var t := h.value.inodeType;
    if t == INODE_BASIC_DIR {
      inode := ReadBasicDir(r, h.value, n);
    } else if t == INODE_EXT_DIR {
      inode := ReadExtDir(r, h.value, n);
    } else if t == INODE_BASIC_FILE {
      inode := ReadBasicFile(img.sb.blockSize, r, h.value, n);
    } else if t == INODE_EXT_FILE {
      inode := ReadExtFile(img.sb.blockSize, r, h.value, n);
    } else if t == INODE_BASIC_SYMLINK {
      inode := ReadSymlink(r, h.value, false, n);
    } else if t == INODE_EXT_SYMLINK {
      inode := ReadSymlink(r, h.value, true, n);
    } else {
      inode := None;
    }
  }

  // ----- directories -----

  function PrependEntries(head: seq<DirEntryInfo>, tail: Option<(seq<DirEntryInfo>, nat)>)
    : Option<(seq<DirEntryInfo>, nat)>
  {
    match tail
    case None => None
    case Some((t, n)) => Some((head + t, n))
  }

  method ReadEntry(r: MetadataReader, startBlock: nat, base: nat) returns (e: Option<DirEntryInfo>)
    requires r.Valid()
    modifies r
    ensures var s, n := r.Stream(), old(r.consumed);
            && (e.None? <==> n + 8 > |s| || n + 9 + U16At(s, n + 6) > |s|)
            && (e.Some? ==>
                  && r.Valid() && r.consumed == n + 9 + U16At(s, n + 6)
                  && e.value == DirEntryInfo(s[n + 8..n + 9 + U16At(s, n + 6)],
                                             (base + SignExtend16(U16At(s, n + 2))) % 0x1_0000_0000,
                                             startBlock * 0x1_0000 + U16At(s, n), U16At(s, n + 4)))
  {
    hide MetadataReader.Valid, StreamFrom, U16At, SignExtend16;
    var offset := r.ReadU16();
    if offset.None? { return None; }
    var delta := r.ReadU16();
    if delta.None? { return None; }
    var entryType := r.ReadU16();
    if entryType.None? { return None; }
    var nameSize := r.ReadU16();
    if nameSize.None? { return None; }
    var name := r.ReadExact(nameSize.value + 1);
    if name.None? { return None; }
    e := Some(DirEntryInfo(name.value, (base + SignExtend16(delta.value)) % 0x1_0000_0000,
                           startBlock * 0x1_0000 + offset.value, entryType.value));
  }

  method ReadEntries(r: MetadataReader, count: nat, startBlock: nat, base: nat)
    returns (es: Option<seq<DirEntryInfo>>, bytesRead: nat)
    requires r.Valid()
    modifies r
    ensures es.Some? ==> r.consumed == old(r.consumed) + bytesRead
    ensures var p := ParseEntries(r.Stream(), old(r.consumed), count, startBlock, base);
            && (es.None? <==> p.None?)
            && (es.Some? ==> r.Valid() && p == Some((es.value, r.consumed)))
  {
    hide MetadataReader.Valid, StreamFrom, U16At, SignExtend16;
    var entries: seq<DirEntryInfo> := [];
    ghost var whole := ParseEntries(r.Stream(), r.consumed, count, startBlock, base);
    PrependNothing(whole);
    bytesRead := 0;
    for k := 0 to count
      invariant r.Valid() && r.consumed == old(r.consumed) + bytesRead
      invariant whole == PrependEntries(entries, ParseEntries(r.Stream(), r.consumed, count - k, startBlock, base))
    {
      ghost var n := r.consumed;
      var e := ReadEntry(r, startBlock, base);
      if e.None? { return None, bytesRead; }
      bytesRead := bytesRead + 8 + |e.value.name|;
      PrependOne(entries, e.value, ParseEntries(r.Stream(), r.consumed, count - k - 1, startBlock, base));
      entries := entries + [e.value];
    }
    assert entries + [] == entries;
    es := Some(entries);
  }

  lemma PrependNothing(r: Option<(seq<DirEntryInfo>, nat)>)
    ensures PrependEntries([], r) == r
  {
    match r
    case None =>
    case Some((t, n)) => assert [] + t == t;
  }

  lemma PrependOne(a: seq<DirEntryInfo>, e: DirEntryInfo, r: Option<(seq<DirEntryInfo>, nat)>)
    ensures PrependEntries(a, PrependEntries([e], r)) == PrependEntries(a + [e], r)
  {
    match r
    case None =>
    case Some((t, n)) => assert a + ([e] + t) == (a + [e]) + t;
  }

  /** One header and its entries. */
  method ReadGroup(r: MetadataReader) returns (es: Option<seq<DirEntryInfo>>, bytesRead: nat)
    requires r.Valid()
    modifies r
    ensures var s, n := r.Stream(), old(r.consumed);
            && (n + 12 > |s| ==> es.None?)
            && (n + 12 <= |s| ==>
                  var p := ParseEntries(s, n + 12, (U32At(s, n) + 1) % 0x1_0000_0000, U32At(s, n + 4), U32At(s, n + 8));
                  && (es.None? <==> p.None?)
                  && (es.Some? ==>
                        r.Valid() && p == Some((es.value, r.consumed)) && r.consumed == n + bytesRead <= |s|))
  {
    hide MetadataReader.Valid, StreamFrom, U32At, ParseEntries;
    bytesRead := 0;
    var count := r.ReadU32();
    if count.None? { return None, 0; }
    var startBlock := r.ReadU32();
    if startBlock.None? { return None, 0; }
    var base := r.ReadU32();
    if base.None? { return None, 0; }
    es, bytesRead := ReadEntries(r, (count.value + 1) % 0x1_0000_0000, startBlock.value, base.value);
    bytesRead := 12 + bytesRead;
  }

  /** Read groups until the recorded size, less 3, is used up. */
  method ReadDirEntries(z: Zstd, img: Image, dir: Inode) returns (es: Option<seq<DirEntryInfo>>)
    requires dir.DirInode?
    ensures es == ReadDir(z, img, dir)
  {
    hide MetadataReader.Valid, StreamFrom, U32At, ParseEntries, Prepend, ParseGroups;
    var r := new MetadataReader(z, img.data, img.sb.directoryTableStart + dir.startBlock);
    var ok := r.Skip(dir.offset);
    if !ok { return None; }
    var entries: seq<DirEntryInfo> := [];
    var bytesRead: nat := 0;
    var dataSize := if dir.fileSize < 3 then 0 else dir.fileSize - 3;
    ghost var s := r.Stream();
    ghost var whole := ParseGroups(s, dir.offset, 0, dataSize);
    PrependMore([], [], whole);
    while bytesRead < dataSize
      invariant r.Valid() && r.consumed <= |s| && r.Stream() == s
      invariant whole == Prepend(entries, ParseGroups(s, r.consumed, bytesRead, dataSize))
      decreases |s| - r.consumed
    {
      ghost var n := r.consumed;
      var group, groupBytes := ReadGroup(r);
      NextGroup(s, n, bytesRead, dataSize, entries);
      if group.None? { return None; }
      bytesRead := (bytesRead + groupBytes) % 0x1_0000_0000;
      PrependMore(entries, group.value, ParseGroups(s, r.consumed, bytesRead, dataSize));
      entries := entries + group.value;
    }
    NoMoreGroups(s, r.consumed, bytesRead, dataSize);
    PrependSome(entries, []);
    es := Some(entries);
  }

  lemma NoMoreGroups(s: Bytes, n: nat, read: nat, size: nat)
    requires read >= size
    ensures ParseGroups(s, n, read, size) == Some([])
  {
  }

  lemma NextGroup(s: Bytes, n: nat, read: nat, size: nat, entries: seq<DirEntryInfo>)
    requires read < size
    ensures n + 12 > |s| ==> Prepend(entries, ParseGroups(s, n, read, size)) == None
    ensures n + 12 <= |s| ==>
      var p := ParseEntries(s, n + 12, (U32At(s, n) + 1) % 0x1_0000_0000, U32At(s, n + 4), U32At(s, n + 8));
      && (p.None? ==> Prepend(entries, ParseGroups(s, n, read, size)) == None)
      && (p.Some? ==> ParseGroups(s, n, read, size)
                      == Prepend(p.value.0, ParseGroups(s, p.value.1, (read + (p.value.1 - n)) % 0x1_0000_0000, size)))
  {
    hide ParseEntries, U32At;
  }

  // ----- files -----

  method ReadFileBlocks(z: Zstd, img: Image, file: Inode) returns (result: Option<Bytes>)
    requires file.FileInode?
    ensures result == ReadBlocks(z, img.sb.blockSize, img.data, file.blockSizes, file.startBlock)
  {
    hide ReadBlock, StoredLength, IsUncompressed, Prepend;
    var blockSize, sizes := img.sb.blockSize, file.blockSizes;
    var bytes: Bytes, currentOffset: nat := [], file.startBlock;
    ghost var whole := ReadBlocks(z, blockSize, img.data, sizes, currentOffset);
    assert sizes[0..] == sizes;
    PrependMore([], [], whole);
    for k := 0 to |sizes|
      invariant whole == Prepend(bytes, ReadBlocks(z, blockSize, img.data, sizes[k..], currentOffset))
    {
      assert sizes[k..][0] == sizes[k] && sizes[k..][1..] == sizes[k + 1..];
      var block := ReadOneBlock(z, img, sizes[k], currentOffset);
      NextBlock(z, blockSize, img.data, sizes[k..], currentOffset);
      if block.None? { PrependSome(bytes, []); return None; }
      PrependMore(bytes, block.value,
                  ReadBlocks(z, blockSize, img.data, sizes[k + 1..], currentOffset + StoredLength(sizes[k])));
      bytes := bytes + block.value;
      currentOffset := currentOffset + StoredLength(sizes[k]);
    }
    assert sizes[|sizes|..] == [];
    PrependSome(bytes, []);
    result := Some(bytes);
  }

  lemma NextBlock(z: Zstd, blockSize: nat, data: Bytes, sizes: seq<nat>, off: nat)
    requires sizes != []
    ensures ReadBlocks(z, blockSize, data, [], off) == Some([])
    ensures ReadBlocks(z, blockSize, data, sizes, off) ==
            match ReadBlock(z, blockSize, data, sizes[0], off)
            case None => None
            case Some(b) => Prepend(b, ReadBlocks(z, blockSize, data, sizes[1..], off + StoredLength(sizes[0])))
  {
    hide ReadBlock, StoredLength;
  }

  method ReadOneBlock(z: Zstd, img: Image, stored: nat, off: nat) returns (block: Option<Bytes>)
    ensures block == ReadBlock(z, img.sb.blockSize, img.data, stored, off)
  {
    var size := StoredLength(stored);
    if size == 0 {
      return Some(Zeros(img.sb.blockSize));
    }
    if off + size > |img.data| {
      return None;
    }
    var blockData := img.data[off..off + size];
    block := if IsUncompressed(stored) then Some(blockData) else z.decompress(blockData, img.sb.blockSize);
  }

  method ReadWholeFile(z: Zstd, img: Image, file: Inode) returns (result: Option<Bytes>)
    requires file.FileInode?
    ensures result == ReadFile(z, img, file)
  {
    hide ReadBlocks, ReadFragmentBlock;
    var head := ReadFileBlocks(z, img, file);
    if head.None? { return None; }
    var bytes := head.value;
    if file.fragment != NO_FRAGMENT {
      if file.fragment >= |img.fragments| || file.fileSize < |bytes| { return None; }
      var block := ReadFragmentBlock(z, img.sb.blockSize, img.data, img.fragments[file.fragment]);
      if block.None? { return None; }
      var tailSize := file.fileSize - |bytes|;
      if file.fragmentOffset + tailSize > |block.value| { return None; }
      bytes := bytes + block.value[file.fragmentOffset..file.fragmentOffset + tailSize];
    }
    assert head.value + [] == head.value;
    if |bytes| != file.fileSize { return None; }
    result := Some(bytes);
  }

  // ----- walking -----

  /** What a method returning `r` reports of a walk. */
  function Reported(r: Option<seq<Visit>>): Walked {
    match r
    case None => Failed
    case Some(visits) => Visits(visits)
  }

  /** On every image on which the walk ends. */
  method WalkTree(z: Zstd, img: Image) returns (visits: Option<seq<Visit>>)
    requires img.sb.blockSize > 0 && Ends(z, img)
    ensures WalksTo(z, img, Reported(visits))
  {
    hide ReadInode, WalkDirectory;
    ghost var r :| WalksTo(z, img, r);
    ghost var levels :| Walk(z, img, levels) == r;
    assert Walk(z, img, levels) != TooDeep;
    var root := ReadInodeAt(z, img, img.sb.rootInodeRef);
    if root.None? { return None; }
    visits := Some([Visit([SLASH], root.value)]);
    if root.value.DirInode? {
      var below := WalkDir(z, img, root.value, [SLASH], levels);
      if below.None? { return None; }
      visits := Some([Visit([SLASH], root.value)] + below.value);
    }
  }

  method WalkDir(z: Zstd, img: Image, dir: Inode, path: Bytes, ghost levels: nat) returns (visits: Option<seq<Visit>>)
    requires img.sb.blockSize > 0 && dir.DirInode? && WalkDirectory(z, img, dir, path, levels) != TooDeep
    ensures Reported(visits) == WalkDirectory(z, img, dir, path, levels)
    decreases levels
  {
    hide ReadInode, ReadDir, Join, WalkEntries, Then, WalkNode;
    var listed := ReadDirEntries(z, img, dir);
    if listed.None? { return None; }
    var entries := listed.value;
    var seen: seq<Visit> := [];
    ghost var inside := levels - 1;
    ghost var whole := WalkEntries(z, img, entries, path, inside);
    assert entries[0..] == entries;
    ThenNothing(whole);
    for k := 0 to |entries|
      invariant whole == Then(Visits(seen), WalkEntries(z, img, entries[k..], path, inside))
    {
      var entry := entries[k];
      assert entries[k..][0] == entry && entries[k..][1..] == entries[k + 1..];
      var childPath := Join(path, entry.name);
      ghost var rest := WalkEntries(z, img, entries[k + 1..], path, inside);
      NextEntry(z, img, entries[k..], path, inside);
      ThenFirst(seen, WalkNode(z, img, entry.inodeRef, childPath, inside), rest);
      NodeVisits(z, img, entry.inodeRef, childPath, inside);
      var inode := ReadInodeAt(z, img, entry.inodeRef);
      if inode.None? { return None; }
      var node := [Visit(childPath, inode.value)];
      if inode.value.DirInode? {
        ThenStops(node, WalkDirectory(z, img, inode.value, childPath, inside));
        var below := WalkDir(z, img, inode.value, childPath, inside);
        if below.None? { return None; }
        node := node + below.value;
      }
      seen := seen + node;
    }
    assert entries[|entries|..] == [];
    NoEntries(z, img, path, inside);
    ThenDone(seen);
    visits := Some(seen);
  }

  lemma ThenNothing(w: Walked)
    ensures Then(Visits([]), w) == w
  {
    if w.Visits? { assert [] + w.visits == w.visits; }
  }

  lemma ThenDone(seen: seq<Visit>)
    ensures Then(Visits(seen), Visits([])) == Visits(seen)
  {
    assert seen + [] == seen;
  }

  /** After `seen`, a walk goes on with `node`, and stops there unless `node` can be visited. */
  lemma ThenFirst(seen: seq<Visit>, node: Walked, rest: Walked)
    ensures !node.Visits? ==> Then(Visits(seen), Then(node, rest)) == node
    ensures node.Visits? ==> Then(Visits(seen), Then(node, rest)) == Then(Visits(seen + node.visits), rest)
  {
    if node.Visits? && rest.Visits? {
      assert seen + (node.visits + rest.visits) == (seen + node.visits) + rest.visits;
    }
  }

  lemma ThenStops(visits: seq<Visit>, below: Walked)
    ensures Then(Visits(visits), below) == if below.Visits? then Visits(visits + below.visits) else below
  {
  }

  lemma NoEntries(z: Zstd, img: Image, path: Bytes, levels: nat)
    requires img.sb.blockSize > 0
    ensures WalkEntries(z, img, [], path, levels) == Visits([])
  {
  }

  lemma NextEntry(z: Zstd, img: Image, entries: seq<DirEntryInfo>, path: Bytes, levels: nat)
    requires img.sb.blockSize > 0 && entries != []
    ensures WalkEntries(z, img, entries, path, levels) ==
            Then(WalkNode(z, img, entries[0].inodeRef, Join(path, entries[0].name), levels),
                 WalkEntries(z, img, entries[1..], path, levels))
  {
    hide WalkNode, Join, Then;
  }

  lemma NodeVisits(z: Zstd, img: Image, iref: nat, path: Bytes, levels: nat)
    requires img.sb.blockSize > 0
    ensures WalkNode(z, img, iref, path, levels) ==
            match ReadInode(z, img, iref)
            case None => Failed
            case Some(inode) =>
              if !inode.DirInode? then Visits([Visit(path, inode)])
              else Then(Visits([Visit(path, inode)]), WalkDirectory(z, img, inode, path, levels))
  {
    hide ReadInode, WalkDirectory, Then;
  }
}
