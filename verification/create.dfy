/** Creating an image, phase by phase, and what opening and walking it gives back. */
module Create {
  import opened Bytes
  import opened Metadata
  import opened Writer
  import opened Inodes
  import opened DataBlocks
  import opened Fragments
  import opened Lookup
  import opened SuperblockFormat
  import opened Reader
  import opened Tree
  import opened Scanning
  import opened InodeNumbers
  import opened Dedup
  import opened FileData
  import opened Costs
  import opened Placement
  import opened TableWriting
  import opened RoundTrip
  import opened ReadOperations
  import opened WalkEnds
  import opened TreePaths
  import opened Walking
  import opened DirectoryIndexes
  import opened Tables
  import opened Framing

  const IMAGE_ALIGNMENT: nat := 4096

  // ----- file data -----

  /** Every file has data information, of the right size. */
  ghost predicate DataServed(ns: seq<Node>, hlFirst: map<(nat, nat), nat>, fileData: map<nat, FileInfo>) {
    && (forall i :: 1 <= i < |ns| && IsLink(ns, i) ==> LinkKey(ns, i) in hlFirst)
    && forall i :: 1 <= i < |ns| && IsFile(ns, i) ==>
      DataIdx(ns, hlFirst, i) in fileData && Sized(fileData[DataIdx(ns, hlFirst, i)], |ns[i].kind.data|)
  }

  /** Every file's information leads to its own bytes. */
  ghost predicate DataHeld(z: Zstd, out: Bytes, raws: seq<Bytes>, ns: seq<Node>, hlFirst: map<(nat, nat), nat>,
                           fileData: map<nat, FileInfo>) {
    forall i :: 1 <= i < |ns| && IsFile(ns, i) ==>
      DataIdx(ns, hlFirst, i) in fileData && InfoHolds(z, out, raws, fileData[DataIdx(ns, hlFirst, i)], ns[i].kind.data)
  }

  /** All names of a file have its data, so serving one of them serves all. */
  lemma SameData(ns: seq<Node>, p: nat, hlFirst: map<(nat, nat), nat>, i: nat)
    requires ConsistentLinks(ns) && p == |ns| && LinksFound(ns, p, hlFirst) && 1 <= i < |ns| && IsFile(ns, i)
    ensures IsFile(ns, DataIdx(ns, hlFirst, i)) && ns[DataIdx(ns, hlFirst, i)].kind == ns[i].kind
  {
    if IsLink(ns, i) {
      var j := hlFirst[LinkKey(ns, i)];
      assert ClassOf(ns, i) == ClassOf(ns, j);
    }
  }

  lemma ServedSized(ns: seq<Node>, files: seq<(nat, DataFileEntry)>, copies: seq<DedupCopy>,
                    hlFirst: map<(nat, nat), nat>, fileData: map<nat, FileInfo>)
    requires ConsistentLinks(ns) && LinksFound(ns, |ns|, hlFirst) && Served(ns, |ns|, files, copies, hlFirst)
    requires AllSized(ns, fileData, Originals(files) + CopyIdxs(copies))
    ensures DataServed(ns, hlFirst, fileData)
  {
    hide Originals, CopyIdxs, Sized, ConsistentLinks, DataIdx;
    forall i | 1 <= i < |ns| && IsFile(ns, i)
      ensures DataIdx(ns, hlFirst, i) in fileData && Sized(fileData[DataIdx(ns, hlFirst, i)], |ns[i].kind.data|)
    {
      SameData(ns, |ns|, hlFirst, i);
      SizedAt(ns, fileData, Originals(files) + CopyIdxs(copies), DataIdx(ns, hlFirst, i));
    }
  }

  lemma ServedHeld(z: Zstd, out: Bytes, raws: seq<Bytes>, ns: seq<Node>, files: seq<(nat, DataFileEntry)>,
                   copies: seq<DedupCopy>, hlFirst: map<(nat, nat), nat>, fileData: map<nat, FileInfo>)
    requires ConsistentLinks(ns) && LinksFound(ns, |ns|, hlFirst) && Served(ns, |ns|, files, copies, hlFirst)
    requires AllHold(z, out, raws, ns, fileData, Originals(files) + CopyIdxs(copies))
    ensures DataHeld(z, out, raws, ns, hlFirst, fileData)
  {
    hide Originals, CopyIdxs, InfoHolds, ConsistentLinks, DataIdx, AllHold;
    forall i | 1 <= i < |ns| && IsFile(ns, i)
      ensures DataIdx(ns, hlFirst, i) in fileData
      ensures InfoHolds(z, out, raws, fileData[DataIdx(ns, hlFirst, i)], ns[i].kind.data)
    {
      SameData(ns, |ns|, hlFirst, i);
      HoldsAt(z, out, raws, ns, fileData, Originals(files) + CopyIdxs(copies), DataIdx(ns, hlFirst, i));
    }
  }

  /** All names and copies of one content use one range; apart from that no two in-line ranges
      share a byte, nor do an in-line range and a fragment block, nor two fragment blocks. */
  ghost predicate StorageApart(ns: seq<Node>, hlFirst: map<(nat, nat), nat>, fileData: map<nat, FileInfo>,
                               entries: seq<FragmentEntry>) {
    && (forall i :: 1 <= i && IsFile(ns, i) ==> HasInfo(ns, hlFirst, fileData, i))
    && (forall i, j :: HasInfo(ns, hlFirst, fileData, i) && HasInfo(ns, hlFirst, fileData, j) ==>
          var a, b := FileExtent(InfoAt(ns, hlFirst, fileData, i)), FileExtent(InfoAt(ns, hlFirst, fileData, j));
          a == b || Apart(a, b))
    && (forall i, k :: HasInfo(ns, hlFirst, fileData, i) && 0 <= k < |entries| ==>
          Apart(FileExtent(InfoAt(ns, hlFirst, fileData, i)), BlockExtent(entries[k])))
    && forall k, l :: 0 <= k < l < |entries| ==> Apart(BlockExtent(entries[k]), BlockExtent(entries[l]))
  }

  ghost predicate HasInfo(ns: seq<Node>, hlFirst: map<(nat, nat), nat>, fileData: map<nat, FileInfo>, i: nat) {
    1 <= i && IsFile(ns, i) && DataIdx(ns, hlFirst, i) in fileData
  }

  function InfoAt(ns: seq<Node>, hlFirst: map<(nat, nat), nat>, fileData: map<nat, FileInfo>, i: nat): FileInfo
    requires HasInfo(ns, hlFirst, fileData, i)
  {
    fileData[DataIdx(ns, hlFirst, i)]
  }

  lemma ServedApart(n: nat, ns: seq<Node>, files: seq<(nat, DataFileEntry)>, copies: seq<DedupCopy>,
                    hlFirst: map<(nat, nat), nat>, original: map<nat, FileInfo>, fileData: map<nat, FileInfo>,
                    entries: seq<FragmentEntry>)
    requires Served(ns, |ns|, files, copies, hlFirst) && RangesApart(n, original, Originals(files), entries)
    requires SharedWith(original, fileData, Originals(files), Originals(files) + CopyIdxs(copies))
    ensures StorageApart(ns, hlFirst, fileData, entries)
  {
    hide Originals, CopyIdxs, FileExtent, BlockExtent, Apart, DataIdx;
    var stored := Originals(files);
    forall i | HasInfo(ns, hlFirst, fileData, i)
      ensures UsesRange(original, stored, InfoAt(ns, hlFirst, fileData, i))
    {
    }
    forall i, j | HasInfo(ns, hlFirst, fileData, i) && HasInfo(ns, hlFirst, fileData, j)
      ensures var a, b := FileExtent(InfoAt(ns, hlFirst, fileData, i)), FileExtent(InfoAt(ns, hlFirst, fileData, j));
              a == b || Apart(a, b)
    {
      var x :| x in stored && FileExtent(InfoAt(ns, hlFirst, fileData, i)) == FileExtent(original[x]);
      var y :| y in stored && FileExtent(InfoAt(ns, hlFirst, fileData, j)) == FileExtent(original[y]);
    }
    forall i, k | HasInfo(ns, hlFirst, fileData, i) && 0 <= k < |entries|
      ensures Apart(FileExtent(InfoAt(ns, hlFirst, fileData, i)), BlockExtent(entries[k]))
    {
      var x :| x in stored && FileExtent(InfoAt(ns, hlFirst, fileData, i)) == FileExtent(original[x]);
    }
  }

  lemma PlanParts(ns: seq<Node>, sha: Hash, p: nat, files: seq<(nat, DataFileEntry)>, copies: seq<DedupCopy>,
                  hlFirst: map<(nat, nat), nat>)
    requires p <= |ns| && Plan(ns, sha, p, files, copies, hlFirst)
    ensures StoredOnce(ns, files) && CopiesSound(ns, sha, files, copies)
    ensures LinksFound(ns, p, hlFirst) && Served(ns, p, files, copies, hlFirst)
  {
    hide StoredOnce, CopiesSound, LinksFound, Served, ContentOnce;
  }

  /** Collect the files, compress and store them, resolve the copies, flush the last fragment
      block. */
  method WriteData(z: Zstd, sha: Hash, ns: seq<Node>, output: Output)
    returns (fileData: map<nat, FileInfo>, hlFirst: map<(nat, nat), nat>, entries: seq<FragmentEntry>,
             ghost raws: seq<Bytes>)
    requires WellLaid(ns) && ConsistentLinks(ns) && TreeFits(ns) && |output.bytes| == SUPERBLOCK_SIZE
    modifies output
    ensures old(output.bytes) <= output.bytes && AllStored(z, output.bytes, entries, raws) && |entries| <= |ns|
    ensures DataServed(ns, hlFirst, fileData) && StorageApart(ns, hlFirst, fileData, entries)
    ensures CollisionFree(ns, sha) ==> DataHeld(z, output.bytes, raws, ns, hlFirst, fileData)
  {
    hide WellLaid, ConsistentLinks, SubEnd, Plan, MapSound, Before, AllHold, AllSized, CollisionFree, AllStored;
    hide DataServed, DataHeld, StorageApart, RangesApart, SharedWith, EntriesGrown;
    hide StoredOnce, CopiesSound, LinksFound, Served, Originals, CopyIdxs;
    RootWhole(ns);
    var frags := new FragmentTable(z);
    var collector := new Collector(ns, sha);
    collector.CollectDataFilesDfs(ROOT);
    var files, copies := collector.dataFiles, collector.dedupCopies;
    hlFirst := collector.hlFirst;
    PlanParts(ns, sha, |ns|, files, copies, hlFirst);
    var original := StoreAll(z, ns, files, output, frags);
    fileData := ResolveCopies(z, ns, sha, files, copies, original, output.bytes, frags.Pool());
    ServedSized(ns, files, copies, hlFirst, fileData);
    ghost var out, pool, flushed := output.bytes, frags.Pool(), frags.entries;
    frags.Finish(output);
    entries, raws := frags.entries, frags.raws;
    RangesGrown(z, |out|, original, Originals(files), flushed, output.bytes, entries, raws);
    ServedApart(|output.bytes|, ns, files, copies, hlFirst, original, fileData, entries);
    StoredCount(z, output.bytes, entries, raws);
    if CollisionFree(ns, sha) {
      FinishedHeld(z, out, pool, output.bytes, raws, ns, fileData, Originals(files) + CopyIdxs(copies));
      ServedHeld(z, output.bytes, raws, ns, files, copies, hlFirst, fileData);
    }
  }

  lemma RootWhole(ns: seq<Node>)
    requires WellLaid(ns)
    ensures |ns| > 0 && ns[ROOT].kind.Directory? && SubEnd(ns, ROOT) == |ns|
  {
    hide SubEnd;
  }

  /** Flushing turns the block being filled, if there is anything in it, into the last block
      of the pool. */
  lemma FinishedHeld(z: Zstd, out: Bytes, pool: seq<Bytes>, out': Bytes, raws: seq<Bytes>, ns: seq<Node>,
                     fileData: map<nat, FileInfo>, idxs: set<nat>)
    requires AllHold(z, out, pool, ns, fileData, idxs) && out <= out'
    requires pool == raws || pool == raws + [[]]
    ensures AllHold(z, out', raws, ns, fileData, idxs)
  {
    hide AllHold;
    if pool == raws {
      AllKept(z, out, pool, out', raws, ns, fileData, idxs);
    } else {
      AllKept(z, out, pool, out', pool, ns, fileData, idxs);
      AllFinished(z, out', raws, ns, fileData, idxs);
    }
  }

  // ----- inode and directory tables -----

  lemma ContextReady(c: Context)
    requires WellLaid(c.ns) && ConsistentLinks(c.ns) && TreeFits(c.ns) && Numbering(c.ns, c.numbers, c.total)
    requires DataServed(c.ns, c.hlFirst, c.fileData)
    ensures Ready(c)
  {
    hide WellLaid, ConsistentLinks, ClassOf, DataIdx, Hit, NodeFits;
  }

  /** Room for the metadata of a whole tree, from the tree alone. */
  function TreeCost(ns: seq<Node>): nat
    requires |ns| > 0
  {
    InodeCost(ns[ROOT]) + RangeCost(ns, 1, |ns|)
  }

  /** Every export slot is filled (and `TableWriter.Export` fills none twice). */
  ghost predicate AllFilled(c: Context, filled: set<nat>) {
    forall n :: 1 <= n <= c.total ==> n in filled
  }

  method WriteTables(c: Context, output: Output)
    returns (rootRef: nat, inodeStart: nat, directoryStart: nat, exportRefs: seq<nat>,
             ghost inodes: Bytes, ghost dirs: Bytes, ghost places: Places, ghost filled: set<nat>)
    requires Ready(c) && Numbering(c.ns, c.numbers, c.total)
    modifies output
    ensures output.bytes == old(output.bytes) + Encode(c.z, inodes) + Encode(c.z, dirs)
    ensures inodeStart == |old(output.bytes)| && directoryStart == inodeStart + |Encode(c.z, inodes)|
    ensures AllPlaced(c, inodes, dirs, places) && Exported(c, places, exportRefs) && AllFilled(c, filled)
    ensures (forall i :: 0 <= i < |c.ns| ==> i in places) && |c.ns| > 0 && rootRef == places[ROOT].iref
    ensures |inodes| + |dirs| <= TreeCost(c.ns)
  {
    hide Ready, Sound, AllPlaced, Exported, Encode, InodeCost, RangeCost, WellLaid, AllFilled, Numbering;
    hide MetadataWriter.Valid;
    ReadyAt0(c);
    RootWhole(c.ns);
    var w := new TableWriter(c);
    var rootInum;
    rootInum, rootRef := w.WriteTablesDfs(ROOT);
    inodes, dirs, places, filled, exportRefs := w.inodeTable.meta.stream, w.dirTable.meta.stream, w.places, w.filled,
          w.exportRefs;
    SoundParts(c, inodes, dirs, places, w.hlIrefMap, exportRefs, filled);
    assert w.Room() == |inodes| + |dirs|;
    inodeStart := w.inodeTable.meta.Finish(output);
    directoryStart := w.dirTable.meta.Finish(output);
  }

  lemma ReadyAt0(c: Context)
    requires Ready(c)
    ensures WellLaid(c.ns)
  {
    hide WellLaid;
  }

  lemma SoundParts(c: Context, inodes: Bytes, dirs: Bytes, places: Places, hl: map<(nat, nat), (nat, nat)>,
                   refs: seq<nat>, filled: set<nat>)
    requires Sound(c, inodes, dirs, places, hl, refs, filled) && Numbering(c.ns, c.numbers, c.total)
    requires forall i :: 0 <= i < |c.ns| ==> i in places
    ensures AllPlaced(c, inodes, dirs, places) && Exported(c, places, refs) && AllFilled(c, filled)
  {
    hide AllPlaced, LinksShared, Exported;
    forall n | 1 <= n <= c.total ensures n in filled {
      assert Hit(c.numbers, n);
    }
  }

  // ----- the finished image -----

  datatype Layout = Layout(entries: seq<FragmentEntry>, raws: seq<Bytes>, inodes: Bytes, dirs: Bytes, places: Places,
                           exportRefs: seq<nat>, fragmentBase: nat, exportBase: nat, idBase: nat)

  /** Everything the superblock `sb` refers to is in `out`, behind the superblock. */
  ghost predicate Complete(c: Context, out: Bytes, sb: Superblock, l: Layout) {
    && SUPERBLOCK_SIZE <= |out|
    && SUPERBLOCK_SIZE <= sb.inodeTableStart && At(out, sb.inodeTableStart, Encode(c.z, l.inodes))
    && sb.directoryTableStart == sb.inodeTableStart + |Encode(c.z, l.inodes)|
    && At(out, sb.directoryTableStart, Encode(c.z, l.dirs))
    && SUPERBLOCK_SIZE <= l.fragmentBase
    && TableAt(c.z, out, l.fragmentBase, FragmentEntriesBytes(l.entries), sb.fragmentTableStart)
    && SUPERBLOCK_SIZE <= l.exportBase && TableAt(c.z, out, l.exportBase, LE64s(l.exportRefs), sb.lookupTableStart)
    && SUPERBLOCK_SIZE <= l.idBase && TableAt(c.z, out, l.idBase, LE32s([0]), sb.idTableStart)
    && AllStored(c.z, out, l.entries, l.raws)
  }

  lemma TableOverwritten(z: Zstd, out: Bytes, head: Bytes, base: nat, s: Bytes, start: nat)
    requires |head| <= base && TableAt(z, out, base, s, start)
    ensures TableAt(z, head + out[|head|..], base, s, start)
  {
    hide Encode, LE64s, BlockOffsets, At;
    AtOverwritten(out, head, base, Encode(z, s) + LE64s(BlockOffsets(z, s, base)));
  }

  lemma CompleteOverwritten(c: Context, out: Bytes, sb: Superblock, l: Layout, head: Bytes)
    requires Complete(c, out, sb, l) && |head| == SUPERBLOCK_SIZE
    ensures Complete(c, head + out[|head|..], sb, l)
  {
    hide Encode, LE64s, LE32s, FragmentEntriesBytes, TableAt, AllStored, At;
    AtOverwritten(out, head, sb.inodeTableStart, Encode(c.z, l.inodes));
    AtOverwritten(out, head, sb.directoryTableStart, Encode(c.z, l.dirs));
    TableOverwritten(c.z, out, head, l.fragmentBase, FragmentEntriesBytes(l.entries), sb.fragmentTableStart);
    TableOverwritten(c.z, out, head, l.exportBase, LE64s(l.exportRefs), sb.lookupTableStart);
    TableOverwritten(c.z, out, head, l.idBase, LE32s([0]), sb.idTableStart);
    StoredOverwritten(c.z, out, head, l.entries, l.raws);
  }

  lemma HeldOverwritten(z: Zstd, out: Bytes, head: Bytes, raws: seq<Bytes>, ns: seq<Node>,
                        hlFirst: map<(nat, nat), nat>, fileData: map<nat, FileInfo>)
    requires DataHeld(z, out, raws, ns, hlFirst, fileData) && |head| == SUPERBLOCK_SIZE <= |out|
    ensures DataHeld(z, head + out[|head|..], raws, ns, hlFirst, fileData)
  {
    hide InfoHolds, DataIdx;
    forall i | 1 <= i < |ns| && IsFile(ns, i)
      ensures InfoHolds(z, head + out[|head|..], raws, fileData[DataIdx(ns, hlFirst, i)], ns[i].kind.data)
    {
      InfoOverwritten(z, out, head, raws, fileData[DataIdx(ns, hlFirst, i)], ns[i].kind.data);
    }
  }

  lemma HeldKept(z: Zstd, out: Bytes, out': Bytes, raws: seq<Bytes>, ns: seq<Node>, hlFirst: map<(nat, nat), nat>,
                 fileData: map<nat, FileInfo>)
    requires DataHeld(z, out, raws, ns, hlFirst, fileData) && out <= out'
    ensures DataHeld(z, out', raws, ns, hlFirst, fileData)
  {
    hide InfoHolds, DataIdx;
    assert Extends(raws, raws);
    forall i | 1 <= i < |ns| && IsFile(ns, i)
      ensures InfoHolds(z, out', raws, fileData[DataIdx(ns, hlFirst, i)], ns[i].kind.data)
    {
      InfoKept(z, out, raws, out', raws, fileData[DataIdx(ns, hlFirst, i)], ns[i].kind.data);
    }
  }

  // ----- opening the image -----

  lemma EntriesNarrow(z: Zstd, data: Bytes, entries: seq<FragmentEntry>, raws: seq<Bytes>)
    requires Lossless(z) && AllStored(z, data, entries, raws) && |data| < 0x1_0000_0000_0000_0000
    ensures AllNarrow(entries)
  {
    hide Lossless, FragmentPayload, FragmentSize;
    forall i | 0 <= i < |entries|
      ensures entries[i].start < 0x1_0000_0000_0000_0000 && entries[i].size < 0x1_0000_0000
    {
      assert Stored(z, data, entries[i], raws[i]);
      FragmentBlockReads(z, data, entries[i], raws[i]);
    }
  }

  /** The constants and counts of a finished superblock. */
  ghost predicate Final(c: Context, sb: Superblock, l: Layout) {
    && sb.blockSize == DATA_BLOCK_SIZE && sb.blockLog == DATA_BLOCK_LOG && sb.compressionId == ZSTD_COMPRESSION
    && sb.flags == FLAG_NO_XATTRS + FLAG_DUPLICATES + FLAG_EXPORTABLE && sb.idCount == 1
    && sb.inodeCount == c.total && sb.fragmentEntryCount == |l.entries|
    && ROOT in l.places && sb.rootInodeRef == l.places[ROOT].iref
  }

  /** The tables follow each other, the ID table last. */
  ghost predicate Contiguous(c: Context, sb: Superblock, l: Layout) {
    && sb.modificationTime == 0 && sb.xattrIdTableStart == INVALID_BLK
    && l.fragmentBase == sb.directoryTableStart + |Encode(c.z, l.dirs)|
    && l.exportBase == sb.fragmentTableStart + 8 * BlocksOf(16 * |l.entries|)
    && l.idBase == sb.lookupTableStart + 8 * BlocksOf(8 * |l.exportRefs|)
    && sb.bytesUsed == sb.idTableStart + 8
  }

  lemma OpenComplete(c: Context, image: Bytes, sb: Superblock, l: Layout)
    requires Lossless(c.z) && |image| < 0x1_0000_0000_0000_0000 && l.inodes != []
    requires At(image, 0, SuperblockBytes(sb)) && Complete(c, image, sb, l) && Final(c, sb, l) && SuperblockFits(sb)
    ensures Open(c.z, image) == Some(Image(image, sb, [0], l.entries))
  {
    hide Lossless, Encode, SuperblockBytes, TableAt, At, ReadIdTable, ReadFragmentTable, ParseSuperblock, AllStored;
    hide SuperblockFits;
    EncodeNonEmpty(c.z, l.inodes);
    SuperblockRoundTrip(image, sb);
    IdTableReads(c.z, image, l.idBase, sb);
    EntriesNarrow(c.z, image, l.entries, l.raws);
    FragmentTableReads(c.z, image, l.fragmentBase, l.entries, sb);
  }

  lemma TableInside(z: Zstd, data: Bytes, base: nat, s: Bytes, start: nat)
    requires TableAt(z, data, base, s, start)
    ensures start <= |data|
  {
    hide Encode, LE64s, BlockOffsets;
  }

  lemma FinalFits(c: Context, image: Bytes, sb: Superblock, l: Layout)
    requires Complete(c, image, sb, l) && Final(c, sb, l) && |image| < 0x1_0000_0000_0000_0000
    requires sb.bytesUsed <= |image| && sb.modificationTime == 0 && sb.xattrIdTableStart == INVALID_BLK
    requires c.total < 0x8000_0000 && |l.entries| < 0x8000_0000
    requires AllPlaced(c, l.inodes, l.dirs, l.places) && |l.inodes| < METADATA_LIMIT
    ensures SuperblockFits(sb)
  {
    hide Encode, TableAt, AllStored, LE32s, LE64s, FragmentEntriesBytes, Placed;
    TableInside(c.z, image, l.fragmentBase, FragmentEntriesBytes(l.entries), sb.fragmentTableStart);
    TableInside(c.z, image, l.exportBase, LE64s(l.exportRefs), sb.lookupTableStart);
    TableInside(c.z, image, l.idBase, LE32s([0]), sb.idTableStart);
    assert Placed(c, l.inodes, l.dirs, l.places, ROOT);
    ReferenceFits(c, l.inodes, l.dirs, l.places, ROOT);
  }

  lemma ReferenceFits(c: Context, inodes: Bytes, dirs: Bytes, places: Places, i: nat)
    requires Placed(c, inodes, dirs, places, i) && |inodes| < METADATA_LIMIT
    ensures i in places && places[i].iref < 0x1_0000_0000_0000 && inodes != []
  {
    hide Encode, RefAt, BlockStart, InodeBytes, At, DirPlaced;
    PlacedEnds(c, inodes, dirs, places, i);
    BlockStartBound(c.z, inodes, places[i].at);
    EncodeFits(c.z, inodes);
    RefParts(c.z, inodes, places[i].at);
  }

  lemma ContextNarrow(c: Context, image: Bytes, raws: seq<Bytes>)
    requires Lossless(c.z) && |image| < 0x1_0000_0000_0000_0000
    requires TreeFits(c.ns) && c.total < 0x8000_0000 && DataHeld(c.z, image, raws, c.ns, c.hlFirst, c.fileData)
    ensures Narrow(c)
  {
    hide Lossless, InfoHolds, InfoFits, DataIdx;
    forall i | 1 <= i < |c.ns| && c.ns[i].kind.File? && DataIdx(c.ns, c.hlFirst, i) in c.fileData
      ensures InfoFits(InfoFor(c, i), c.ns[i].kind.nlink)
    {
      assert NodeFits(c.ns[i]);
      InfoHoldsFits(c.z, image, raws, InfoFor(c, i), c.ns[i].kind.data, c.ns[i].kind.nlink);
    }
  }

  lemma ImageWritten(c: Context, image: Bytes, sb: Superblock, l: Layout)
    requires Lossless(c.z) && |image| < 0x1_0000_0000_0000_0000 && Complete(c, image, sb, l) && Final(c, sb, l)
    requires Ready(c) && TreeFits(c.ns) && c.total < 0x8000_0000
    requires DataHeld(c.z, image, l.raws, c.ns, c.hlFirst, c.fileData)
    requires AllPlaced(c, l.inodes, l.dirs, l.places) && (forall i :: 0 <= i < |c.ns| ==> i in l.places)
    requires |l.inodes| + |l.dirs| < METADATA_LIMIT
    ensures Written(c, Image(image, sb, [0], l.entries), l.raws, l.inodes, l.dirs, l.places)
  {
    hide Lossless, Ready, TreeFits, AllPlaced, AllStored, TableAt, Narrow, InfoHolds, DataIdx, Encode, At, LE64s;
    hide LE32s, InfoFor;
    hide FragmentEntriesBytes;
    ContextNarrow(c, image, l.raws);
    forall i | 1 <= i < |c.ns| && c.ns[i].kind.File?
      ensures DataIdx(c.ns, c.hlFirst, i) in c.fileData
      ensures InfoHolds(c.z, image, l.raws, InfoFor(c, i), c.ns[i].kind.data)
    {
      HeldAt(c, image, l.raws, i);
    }
  }

  lemma HeldAt(c: Context, image: Bytes, raws: seq<Bytes>, i: nat)
    requires DataHeld(c.z, image, raws, c.ns, c.hlFirst, c.fileData) && 1 <= i < |c.ns| && c.ns[i].kind.File?
    ensures DataIdx(c.ns, c.hlFirst, i) in c.fileData && InfoHolds(c.z, image, raws, InfoFor(c, i), c.ns[i].kind.data)
  {
    hide InfoHolds, DataIdx;
    assert IsFile(c.ns, i);
  }

  // ----- the export table -----

  /** The export table is in the image, and its entry `n - 1` refers to the inode numbered `n`. If
      that is a directory, its index agrees with its listing, and its entries with the inodes they
      refer to. */
  ghost predicate ExportTableRight(c: Context, img: Image)
    requires img.sb.blockSize > 0
  {
    var raw := ReadLookupTable(c.z, img.data, img.sb.lookupTableStart, img.sb.inodeCount, 8);
    && raw.Some? && |raw.value| == 8 * c.total
    && forall n :: 0 <= n < c.total ==>
      && NumberedInode(c.z, img, U64At(raw.value, 8 * n), n + 1)
      && IndexAgrees(c.z, img, U64At(raw.value, 8 * n)) && EntriesAgree(c.z, img, U64At(raw.value, 8 * n))
  }

  ghost predicate NumberedInode(z: Zstd, img: Image, iref: nat, number: nat)
    requires img.sb.blockSize > 0
  {
    var inode := ReadInode(z, img, iref);
    inode.Some? && inode.value.inodeNumber == number
  }

  /** The node whose reference is in a slot of the export table. */
  lemma SlotNode(c: Context, img: Image, l: Layout, n: nat) returns (i: nat)
    requires Written(c, img, l.raws, l.inodes, l.dirs, l.places) && Exported(c, l.places, l.exportRefs)
    requires Numbering(c.ns, c.numbers, c.total) && n < c.total && img.sb.blockSize > 0 && |l.inodes| < METADATA_LIMIT
    ensures |l.exportRefs| == c.total && i < |c.ns| && i in c.numbers && c.numbers[i] == n + 1 && i in l.places
    ensures Placed(c, l.inodes, l.dirs, l.places, i) && l.exportRefs[n] == l.places[i].iref
    ensures c.ns[i].kind.File? ==> DataIdx(c.ns, c.hlFirst, i) in c.fileData
    ensures ReadInode(c.z, img, l.exportRefs[n]) == Some(InodeOf(c, i, l.places[i]))
  {
    hide Written, ReadInode, ClassOf, Placed, DataIdx;
    var p := n + 1;
    assert Hit(c.numbers, p);
    i :| i in c.numbers && c.numbers[i] == p;
    hide Hit;
    NodeReads(c, img, l.raws, l.inodes, l.dirs, l.places, i);
    PlacedHasData(c, l.inodes, l.dirs, l.places, i);
  }

  lemma SlotReads(c: Context, img: Image, l: Layout, n: nat)
    requires Written(c, img, l.raws, l.inodes, l.dirs, l.places) && Exported(c, l.places, l.exportRefs)
    requires Numbering(c.ns, c.numbers, c.total) && n < c.total && img.sb.blockSize > 0 && |l.inodes| < METADATA_LIMIT
    ensures |l.exportRefs| == c.total && l.exportRefs[n] < 0x1_0000_0000_0000
    ensures NumberedInode(c.z, img, l.exportRefs[n], n + 1) && IndexAgrees(c.z, img, l.exportRefs[n])
    ensures EntriesAgree(c.z, img, l.exportRefs[n])
  {
    hide IndexAgrees, EntriesAgree, Written, ReadInode, Numbering, Placed, Exported, InodeOf;
    var i := SlotNode(c, img, l, n);
    ReferenceFits(c, l.inodes, l.dirs, l.places, i);
    InodeNumber(c, l.inodes, l.dirs, l.places, i);
    WrittenIndexAgrees(c, img, l.raws, l.inodes, l.dirs, l.places, i);
    WrittenEntriesAgree(c, img, l.raws, l.inodes, l.dirs, l.places, i);
  }

  lemma InodeNumber(c: Context, inodes: Bytes, dirs: Bytes, places: Places, i: nat)
    requires Placed(c, inodes, dirs, places, i)
    ensures InodeOf(c, i, places[i]).inodeNumber == c.numbers[i]
  {
    hide DataIdx, At, RefAt, DirPlaced, InodeBytes;
  }

  lemma ExportReads(c: Context, img: Image, l: Layout)
    requires Written(c, img, l.raws, l.inodes, l.dirs, l.places) && Exported(c, l.places, l.exportRefs) && Lossless(c.z)
    requires Numbering(c.ns, c.numbers, c.total) && img.sb.blockSize > 0 && |l.inodes| < METADATA_LIMIT
    requires |img.data| < 0x1_0000_0000_0000_0000 && img.sb.inodeCount == c.total
    requires TableAt(c.z, img.data, l.exportBase, LE64s(l.exportRefs), img.sb.lookupTableStart)
    ensures ExportTableRight(c, img)
  {
    hide Written, Lossless, ReadLookupTable, Numbering, Exported, NumberedInode, Encode, BlockOffsets, LE64s, U64At;
    hide Located, IndexAgrees, EntriesAgree;
    var s := ExportTableBytes(c, img, l);
    forall n | 0 <= n < c.total
      ensures NumberedInode(c.z, img, U64At(s, 8 * n), n + 1) && IndexAgrees(c.z, img, U64At(s, 8 * n))
      ensures EntriesAgree(c.z, img, U64At(s, 8 * n))
    {
      SlotReads(c, img, l, n);
    }
  }

  /** The export table read from the image: the references written. */
  lemma ExportTableBytes(c: Context, img: Image, l: Layout) returns (s: Bytes)
    requires Written(c, img, l.raws, l.inodes, l.dirs, l.places) && Exported(c, l.places, l.exportRefs) && Lossless(c.z)
    requires Numbering(c.ns, c.numbers, c.total) && img.sb.blockSize > 0 && |l.inodes| < METADATA_LIMIT
    requires |img.data| < 0x1_0000_0000_0000_0000 && img.sb.inodeCount == c.total
    requires TableAt(c.z, img.data, l.exportBase, LE64s(l.exportRefs), img.sb.lookupTableStart)
    ensures ReadLookupTable(c.z, img.data, img.sb.lookupTableStart, img.sb.inodeCount, 8) == Some(s)
    ensures |s| == 8 * c.total && |l.exportRefs| == c.total
    ensures forall n :: 0 <= n < c.total ==> U64At(s, 8 * n) == l.exportRefs[n]
  {
    hide Written, Lossless, ReadLookupTable, Numbering, Encode, BlockOffsets, LE64s, U64At, IndexAgrees, NumberedInode;
    var refs := l.exportRefs;
    s := LE64s(refs);
    assert |refs| == c.total;
    LookupRoundTrip(c.z, img.data, l.exportBase, s, c.total, 8);
    forall n | 0 <= n < |refs| ensures refs[n] < 0x1_0000_0000_0000_0000 {
      SlotReads(c, img, l, n);
    }
    LE64sRead(s, 0, refs);
    forall n | 0 <= n < c.total ensures U64At(s, 8 * n) == refs[n] {
      assert U64At(s, 0 + 8 * n) == refs[n];
    }
  }

  // ----- the stored ranges -----

  /** The bytes that a file inode refers to. */
  function InodeExtent(f: Inode): Extent
    requires f.FileInode?
  {
    Extent(f.startBlock, TotalLength(f.blockSizes))
  }

  /** Between the superblock and `n`; or no bytes at all. */
  ghost predicate Inside(e: Extent, n: nat) {
    e.length == 0 || (SUPERBLOCK_SIZE <= e.start && e.start + e.length <= n)
  }

  /** If two references are to files, their bytes are the same range or disjoint ranges. */
  ghost predicate FilesShareOrPart(z: Zstd, img: Image, iref: nat, iref': nat)
    requires img.sb.blockSize > 0
  {
    var a, b := ReadInode(z, img, iref), ReadInode(z, img, iref');
    a.Some? && b.Some? && a.value.FileInode? && b.value.FileInode? ==>
      InodeExtent(a.value) == InodeExtent(b.value) || Apart(InodeExtent(a.value), InodeExtent(b.value))
  }

  /** If a reference is to a file, its bytes lie before the inode table and in no fragment block. */
  ghost predicate FileClear(z: Zstd, img: Image, iref: nat)
    requires img.sb.blockSize > 0
  {
    var a := ReadInode(z, img, iref);
    a.Some? && a.value.FileInode? ==>
      && Inside(InodeExtent(a.value), img.sb.inodeTableStart)
      && forall k :: 0 <= k < |img.fragments| ==> Apart(InodeExtent(a.value), BlockExtent(img.fragments[k]))
  }

  /** The ranges that the inodes found through the export table and the fragment entries refer
      to lie between the superblock and the inode table. Two inodes may share one range;
      otherwise no two of the ranges have a byte in common. */
  ghost predicate DataApart(z: Zstd, img: Image)
    requires img.sb.blockSize > 0
  {
    var raw := ReadLookupTable(z, img.data, img.sb.lookupTableStart, img.sb.inodeCount, 8);
    && raw.Some? && |raw.value| == 8 * img.sb.inodeCount
    && (forall m, n :: 0 <= m < n < img.sb.inodeCount ==>
          FilesShareOrPart(z, img, U64At(raw.value, 8 * m), U64At(raw.value, 8 * n)))
    && (forall n :: 0 <= n < img.sb.inodeCount ==> FileClear(z, img, U64At(raw.value, 8 * n)))
    && FragmentsApart(img)
  }

  ghost predicate FragmentsApart(img: Image) {
    && (forall k :: 0 <= k < |img.fragments| ==> Inside(BlockExtent(img.fragments[k]), img.sb.inodeTableStart))
    && forall k, l :: 0 <= k < l < |img.fragments| ==>
         Apart(BlockExtent(img.fragments[k]), BlockExtent(img.fragments[l]))
  }

  /** What the writer knows of its ranges, `n` being where the inode table begins. */
  ghost predicate StorageSound(c: Context, entries: seq<FragmentEntry>, n: nat) {
    StorageApart(c.ns, c.hlFirst, c.fileData, entries) && StorageInside(c, entries, n)
  }

  ghost predicate StorageInside(c: Context, entries: seq<FragmentEntry>, n: nat) {
    && (forall i: nat :: HasInfo(c.ns, c.hlFirst, c.fileData, i) ==> Inside(FileExtent(InfoFor(c, i)), n))
    && forall k :: 0 <= k < |entries| ==> Inside(BlockExtent(entries[k]), n)
  }

  lemma StoredInside(c: Context, data: Bytes, raws: seq<Bytes>, entries: seq<FragmentEntry>)
    requires DataHeld(c.z, data, raws, c.ns, c.hlFirst, c.fileData) && AllStored(c.z, data, entries, raws)
    ensures StorageInside(c, entries, |data|)
  {
    BlocksApart(c.z, data, entries, raws);
    hide InfoHolds, DataIdx, FileExtent, FragmentSize, FragmentPayload, At, BlockExtent;
    forall i: nat | HasInfo(c.ns, c.hlFirst, c.fileData, i) ensures Inside(FileExtent(InfoFor(c, i)), |data|) {
      InfoInside(c.z, data, raws, InfoFor(c, i), c.ns[i].kind.data);
    }
    forall k | 0 <= k < |entries| ensures Inside(BlockExtent(entries[k]), |data|) {
      assert Stored(c.z, data, entries[k], raws[k]);
      ExtentStarts(FileInfo(0, 0, [], 0, 0, 0), entries[k]);
    }
  }

  lemma InfoInside(z: Zstd, out: Bytes, pool: seq<Bytes>, info: FileInfo, d: Bytes)
    requires InfoHolds(z, out, pool, info, d)
    ensures Inside(FileExtent(info), |out|)
  {
    InfoExtent(z, out, pool, info, d);
    hide CompressChunks, Chunks, BlocksBytes, StoredFields, At;
  }

  lemma InodeExtentOf(c: Context, i: nat, p: Place)
    requires i < |c.ns| && i in c.numbers && (c.ns[i].kind.File? ==> DataIdx(c.ns, c.hlFirst, i) in c.fileData)
    ensures InodeOf(c, i, p).FileInode? <==> c.ns[i].kind.File?
    ensures c.ns[i].kind.File? ==> InodeExtent(InodeOf(c, i, p)) == FileExtent(InfoFor(c, i))
  {
    hide DataIdx;
  }

  lemma SlotsApart(c: Context, img: Image, l: Layout, m: nat, n: nat)
    requires Written(c, img, l.raws, l.inodes, l.dirs, l.places) && Exported(c, l.places, l.exportRefs)
    requires Numbering(c.ns, c.numbers, c.total) && m < c.total && n < c.total && |l.inodes| < METADATA_LIMIT
    requires img.sb.blockSize > 0 && StorageSound(c, img.fragments, img.sb.inodeTableStart)
    ensures |l.exportRefs| == c.total && FilesShareOrPart(c.z, img, l.exportRefs[m], l.exportRefs[n])
    ensures FileClear(c.z, img, l.exportRefs[n])
  {
    hide Written, ReadInode, Numbering, Placed, Exported, InodeOf, DataIdx, FileExtent, BlockExtent, InodeExtent, Apart;
    hide InfoFor, Inside;
    var i := SlotNode(c, img, l, m);
    var j := SlotNode(c, img, l, n);
    InodeExtentOf(c, i, l.places[i]);
    InodeExtentOf(c, j, l.places[j]);
    RootNoFile(c, img, l);
    if c.ns[i].kind.File? { InfoIs(c, i); }
    if c.ns[j].kind.File? { InfoIs(c, j); }
  }

  lemma InfoIs(c: Context, i: nat)
    requires 1 <= i < |c.ns| && c.ns[i].kind.File? && DataIdx(c.ns, c.hlFirst, i) in c.fileData
    ensures HasInfo(c.ns, c.hlFirst, c.fileData, i) && InfoAt(c.ns, c.hlFirst, c.fileData, i) == InfoFor(c, i)
  {
    hide DataIdx;
  }

  lemma RootNoFile(c: Context, img: Image, l: Layout)
    requires Written(c, img, l.raws, l.inodes, l.dirs, l.places)
    ensures |c.ns| > 0 && !c.ns[ROOT].kind.File?
  {
    hide AllPlaced, AllStored, InfoHolds, Narrow, Located, Lossless, WellLaid;
    ReadyAt0(c);
    RootWhole(c.ns);
  }

  /** So the ranges recorded in the image are apart. */
  lemma ImageApart(c: Context, img: Image, l: Layout)
    requires Written(c, img, l.raws, l.inodes, l.dirs, l.places) && Exported(c, l.places, l.exportRefs) && Lossless(c.z)
    requires Numbering(c.ns, c.numbers, c.total) && img.sb.blockSize > 0 && |l.inodes| < METADATA_LIMIT
    requires |img.data| < 0x1_0000_0000_0000_0000 && img.sb.inodeCount == c.total
    requires TableAt(c.z, img.data, l.exportBase, LE64s(l.exportRefs), img.sb.lookupTableStart)
    requires StorageSound(c, img.fragments, img.sb.inodeTableStart)
    ensures DataApart(c.z, img)
  {
    hide Written, Lossless, ReadLookupTable, Numbering, Exported, Encode, BlockOffsets, LE64s, U64At, StorageSound;
    hide FilesShareOrPart, FileClear, FragmentsApart;
    var s := ExportTableBytes(c, img, l);
    forall m, n | 0 <= m < n < c.total ensures FilesShareOrPart(c.z, img, U64At(s, 8 * m), U64At(s, 8 * n)) {
      SlotsApart(c, img, l, m, n);
    }
    forall n | 0 <= n < c.total ensures FileClear(c.z, img, U64At(s, 8 * n)) {
      SlotsApart(c, img, l, n, n);
    }
    SoundFragments(c, img);
  }

  lemma SoundFragments(c: Context, img: Image)
    requires StorageSound(c, img.fragments, img.sb.inodeTableStart)
    ensures FragmentsApart(img)
  {
    hide FileExtent, BlockExtent, Apart, DataIdx;
  }

  // ----- the result -----

  /** The image opens; walking it ends, and shows exactly the tree, in pre-order; its export
      table finds every inode by number; every directory's index leads into its listing; and
      the ranges that file inodes and fragment entries refer to are apart. */
  ghost predicate Reproduces(c: Context, image: Bytes) {
    var img := Open(c.z, image);
    && img.Some? && (forall i :: 0 <= i < |c.ns| ==> i in c.numbers)
    && Walkable(c.z, img.value)
    && WalkShows(c, img.value)
    && ExportTableRight(c, img.value)
    && DataApart(c.z, img.value)
  }

  lemma ImageOpens(c: Context, image: Bytes, sb: Superblock, l: Layout)
    requires Lossless(c.z) && |image| < 0x1_0000_0000_0000_0000
    requires At(image, 0, SuperblockBytes(sb)) && Complete(c, image, sb, l) && Final(c, sb, l)
    requires sb.bytesUsed <= |image| && sb.modificationTime == 0 && sb.xattrIdTableStart == INVALID_BLK
    requires c.total < 0x8000_0000 && |l.entries| < 0x8000_0000
    requires AllPlaced(c, l.inodes, l.dirs, l.places) && |l.inodes| < METADATA_LIMIT
    ensures Open(c.z, image) == Some(Image(image, sb, [0], l.entries))
  {
    hide Lossless, Complete, Placed, At, Open, SuperblockBytes, SuperblockFits;
    assert Placed(c, l.inodes, l.dirs, l.places, ROOT);
    ReferenceFits(c, l.inodes, l.dirs, l.places, ROOT);
    FinalFits(c, image, sb, l);
    OpenComplete(c, image, sb, l);
  }

  lemma ImageReproduces(c: Context, image: Bytes, sb: Superblock, l: Layout)
    requires Lossless(c.z) && |image| < 0x1_0000_0000_0000_0000
    requires At(image, 0, SuperblockBytes(sb)) && Complete(c, image, sb, l) && Final(c, sb, l)
    requires Contiguous(c, sb, l) && Padded(image, sb.bytesUsed)
    requires Ready(c) && TreeFits(c.ns) && Numbering(c.ns, c.numbers, c.total) && |l.entries| <= |c.ns|
    requires DataHeld(c.z, image, l.raws, c.ns, c.hlFirst, c.fileData)
    requires StorageSound(c, l.entries, sb.inodeTableStart)
    requires AllPlaced(c, l.inodes, l.dirs, l.places) && (forall i :: 0 <= i < |c.ns| ==> i in l.places)
    requires Exported(c, l.places, l.exportRefs) && |l.inodes| + |l.dirs| < METADATA_LIMIT
    ensures Reproduces(c, image)
  {
    hide StorageSound;
    hide Lossless, Ready, Numbering, AllPlaced, DataHeld, At, Open, TreeFits, SuperblockBytes, Complete, TableAt;
    hide Written, Reproduces, Exported, Framed, Recorded, Encode;
    NumberingBasics(c);
    TreeSize(c.ns);
    ImageOpens(c, image, sb, l);
    ImageWritten(c, image, sb, l);
    ExportAt(c, image, sb, l);
    ImageFramed(c, Image(image, sb, [0], l.entries), l);
    WrittenReproduces(c, Image(image, sb, [0], l.entries), l);
  }

  lemma ImageFramed(c: Context, img: Image, l: Layout)
    requires Lossless(c.z) && |img.data| < 0x1_0000_0000_0000_0000
    requires Complete(c, img.data, img.sb, l) && Final(c, img.sb, l) && Contiguous(c, img.sb, l)
    requires AllPlaced(c, l.inodes, l.dirs, l.places) && |l.inodes| < METADATA_LIMIT
    requires Exported(c, l.places, l.exportRefs) && Padded(img.data, img.sb.bytesUsed)
    ensures Framed(img) && Recorded(img.sb)
  {
    hide Lossless, At, Encode, TableAt, AllStored, Framed, Padded, FragmentEntriesBytes, LE64s, LE32s, Placed;
    assert Placed(c, l.inodes, l.dirs, l.places, ROOT);
    ReferenceFits(c, l.inodes, l.dirs, l.places, ROOT);
    FramedWhen(c.z, img, l.inodes, l.dirs, FragmentEntriesBytes(l.entries), LE64s(l.exportRefs), LE32s([0]));
  }

  /** The padding is behind the superblock. */
  lemma PaddedOverwritten(out: Bytes, head: Bytes, n: nat)
    requires Padded(out, n) && |head| <= n
    ensures Padded(head + out[|head|..], n)
  {
  }

  lemma PaddedBody(body: Bytes, full: Bytes)
    requires var padded := (|body| + IMAGE_ALIGNMENT - 1) / IMAGE_ALIGNMENT * IMAGE_ALIGNMENT;
             full == if padded > |body| then body + Zeros(padded - |body|) else body
    ensures Padded(full, |body|)
  {
  }

  lemma WrittenReproduces(c: Context, img: Image, l: Layout)
    requires Written(c, img, l.raws, l.inodes, l.dirs, l.places) && Lossless(c.z)
    requires |img.data| < 0x1_0000_0000_0000_0000
    requires img.sb.blockSize > 0 && img.sb.inodeCount == c.total && Open(c.z, img.data) == Some(img)
    requires ROOT in l.places && img.sb.rootInodeRef == l.places[ROOT].iref
    requires Numbering(c.ns, c.numbers, c.total) && Exported(c, l.places, l.exportRefs) && |l.inodes| < METADATA_LIMIT
    requires TableAt(c.z, img.data, l.exportBase, LE64s(l.exportRefs), img.sb.lookupTableStart)
    requires StorageSound(c, img.fragments, img.sb.inodeTableStart)
    requires Framed(img) && Recorded(img.sb) && img.sb.fragmentEntryCount == |img.fragments|
    ensures Reproduces(c, img.data)
  {
    hide StorageSound, DataApart, Framed, Recorded;
    hide Lossless, Numbering, Open, Written, ExportTableRight, Exported, WalkShows, TableAt, LE64s;
    hide Walkable;
    NumberingBasics(c);
    WalkShowsTree(c, img, l.raws, l.inodes, l.dirs, l.places);
    WrittenDescends(c, img, l.raws, l.inodes, l.dirs, l.places);
    ExportReads(c, img, l);
    ImageApart(c, img, l);
  }

  lemma TreeSize(ns: seq<Node>)
    requires TreeFits(ns)
    ensures |ns| < 0x8000_0000
  {
    hide NodeFits;
  }

  lemma ExportAt(c: Context, image: Bytes, sb: Superblock, l: Layout)
    requires Complete(c, image, sb, l)
    ensures TableAt(c.z, image, l.exportBase, LE64s(l.exportRefs), sb.lookupTableStart)
  {
    hide TableAt, At, AllStored;
  }

  lemma NumberingBasics(c: Context)
    requires Numbering(c.ns, c.numbers, c.total)
    ensures |c.ns| > 0 && c.total <= |c.ns| && forall i :: 0 <= i < |c.ns| ==> i in c.numbers
  {
    hide ClassOf, Hit;
  }

  lemma BodyComplete(c: Context, data: Bytes, tables: Bytes, body: Bytes, sb: Superblock, l: Layout)
    requires |data| >= SUPERBLOCK_SIZE && AllStored(c.z, data, l.entries, l.raws)
    requires tables == data + Encode(c.z, l.inodes) + Encode(c.z, l.dirs) && tables <= body
    requires sb.inodeTableStart == |data| && sb.directoryTableStart == |data| + |Encode(c.z, l.inodes)|
    requires |tables| <= l.fragmentBase
    requires TableAt(c.z, body, l.fragmentBase, FragmentEntriesBytes(l.entries), sb.fragmentTableStart)
    requires |tables| <= l.exportBase && TableAt(c.z, body, l.exportBase, LE64s(l.exportRefs), sb.lookupTableStart)
    requires |tables| <= l.idBase && TableAt(c.z, body, l.idBase, LE32s([0]), sb.idTableStart)
    ensures Complete(c, body, sb, l)
  {
    hide Encode, AllStored, TableAt, At, FragmentEntriesBytes, LE64s, LE32s;
    var i, d := Encode(c.z, l.inodes), Encode(c.z, l.dirs);
    AtPushed(data, i);
    AtPushed(data + i, d);
    AtPrefix(data + i, body, |data|, i);
    AtPrefix(tables, body, |data + i|, d);
    StoredKept(c.z, data, body, l.entries, l.raws);
  }

  lemma StoredKept(z: Zstd, out: Bytes, out': Bytes, entries: seq<FragmentEntry>, raws: seq<Bytes>)
    requires AllStored(z, out, entries, raws) && out <= out'
    ensures AllStored(z, out', entries, raws)
  {
    hide AllStored;
    assert out' == out + out'[|out|..];
    AllStoredAppend(z, out, entries, raws, out'[|out|..]);
  }

  lemma CompleteKept(c: Context, out: Bytes, out': Bytes, sb: Superblock, l: Layout)
    requires Complete(c, out, sb, l) && out <= out'
    ensures Complete(c, out', sb, l)
  {
    hide Encode, AllStored, TableAt, At, FragmentEntriesBytes, LE64s, LE32s;
    AtPrefix(out, out', sb.inodeTableStart, Encode(c.z, l.inodes));
    AtPrefix(out, out', sb.directoryTableStart, Encode(c.z, l.dirs));
    TableKept(c.z, out, out', l.fragmentBase, FragmentEntriesBytes(l.entries), sb.fragmentTableStart);
    TableKept(c.z, out, out', l.exportBase, LE64s(l.exportRefs), sb.lookupTableStart);
    TableKept(c.z, out, out', l.idBase, LE32s([0]), sb.idTableStart);
    StoredKept(c.z, out, out', l.entries, l.raws);
  }

  lemma ImageFinished(c: Context, sha: Hash, data: Bytes, full: Bytes, sb: Superblock, l: Layout, image: Bytes)
    requires Lossless(c.z) && |image| < 0x1_0000_0000_0000_0000
    requires data <= full && Complete(c, full, sb, l) && Final(c, sb, l) && |full| >= SUPERBLOCK_SIZE
    requires image == SuperblockBytes(sb) + full[SUPERBLOCK_SIZE..]
    requires Contiguous(c, sb, l) && Padded(full, sb.bytesUsed) && sb.bytesUsed >= SUPERBLOCK_SIZE
    requires Ready(c) && TreeFits(c.ns) && Numbering(c.ns, c.numbers, c.total) && |l.entries| <= |c.ns|
    requires DataHeld(c.z, data, l.raws, c.ns, c.hlFirst, c.fileData)
    requires StorageApart(c.ns, c.hlFirst, c.fileData, l.entries)
    requires AllStored(c.z, data, l.entries, l.raws) && sb.inodeTableStart == |data|
    requires AllPlaced(c, l.inodes, l.dirs, l.places) && (forall i :: 0 <= i < |c.ns| ==> i in l.places)
    requires Exported(c, l.places, l.exportRefs) && |c.ns| > 0
    requires |l.inodes| + |l.dirs| <= TreeCost(c.ns) < METADATA_LIMIT
    ensures Reproduces(c, image)
  {
    hide Lossless, Complete, Final, SuperblockBytes, Ready, TreeFits, Numbering, DataHeld, AllPlaced, Exported;
    hide StorageApart, StorageInside, AllStored, TreeCost, Reproduces, Contiguous, Padded;
    PaddedOverwritten(full, SuperblockBytes(sb), sb.bytesUsed);
    StoredInside(c, data, l.raws, l.entries);
    HeldKept(c.z, data, full, l.raws, c.ns, c.hlFirst, c.fileData);
    HeldOverwritten(c.z, full, SuperblockBytes(sb), l.raws, c.ns, c.hlFirst, c.fileData);
    CompleteOverwritten(c, full, sb, l, SuperblockBytes(sb));
    AtPushed([], SuperblockBytes(sb));
    assert [] + SuperblockBytes(sb) == SuperblockBytes(sb);
    AtPrefix(SuperblockBytes(sb), image, 0, SuperblockBytes(sb));
    ImageReproduces(c, image, sb, l);
  }

  /** zstd is lossless, no two files collide under the hash, and the offsets of the metadata
      fit 32 bits, those of the image 64. */
  ghost predicate WithinLimits(z: Zstd, sha: Hash, ns: seq<Node>, image: Bytes)
    requires |ns| > 0
  {
    && Lossless(z) && CollisionFree(ns, sha)
    && TreeCost(ns) < METADATA_LIMIT && |image| < 0x1_0000_0000_0000_0000
  }

  function InitialSuperblock(): Superblock {
    Superblock(0, 0, DATA_BLOCK_SIZE, 0, ZSTD_COMPRESSION, DATA_BLOCK_LOG, FLAG_NO_XATTRS + FLAG_DUPLICATES, 0, 0, 0,
               INVALID_BLK, INVALID_BLK, 0, 0, INVALID_BLK, INVALID_BLK)
  }

  /** Write a scanned tree as an image. Whatever the tree, inode numbers are a bijection from
      hard-link classes onto 1..total; and if zstd is lossless, no two files collide under
      the hash and the image is within the format's offsets, the image gives the tree back. */
  method WriteImage(z: Zstd, sha: Hash, ns: seq<Node>) returns (image: Bytes, ghost c: Context)
    requires WellLaid(ns) && ConsistentLinks(ns) && TreeFits(ns)
    ensures c.z == z && c.ns == ns && Numbering(ns, c.numbers, c.total)
    ensures |image| % IMAGE_ALIGNMENT == 0
    ensures WithinLimits(z, sha, ns, image) ==> Reproduces(c, image)
  {
    hide WellLaid, ConsistentLinks, TreeFits, Numbering, CollisionFree, Lossless, Reproduces, Ordered, DataServed;
    hide DataHeld, AllStored, StorageApart;
    hide Ready, AllPlaced, Exported, Encode, TableAt, SuperblockBytes, TreeCost, Complete, FragmentEntriesBytes, LE64s;
    hide LE32s, BlocksOf, Padded;
    var out := new Output();
    var numbers, total := NumberTree(ns);
    var sb := InitialSuperblock();
    out.WriteAll(SuperblockBytes(sb));
    var fileData, hlFirst, entries;
    ghost var raws;
    fileData, hlFirst, entries, raws := WriteData(z, sha, ns, out);
    ghost var data := out.bytes;
    var context := Context(z, ns, numbers, total, fileData, hlFirst);
    c := context;
    ContextReady(c);
    var rootRef, inodeStart, directoryStart, exportRefs;
    ghost var inodes, dirs, places, filled;
    rootRef, inodeStart, directoryStart, exportRefs, inodes, dirs, places, filled := WriteTables(context, out);
    ghost var tables := out.bytes;
    var fragmentStart, exportStart, idStart;
    ghost var fragmentBase, exportBase, idBase;
    fragmentStart, exportStart, idStart, fragmentBase, exportBase, idBase :=
      WriteLookupTables(z, entries, exportRefs, out);
    sb := sb.(rootInodeRef := rootRef, inodeTableStart := inodeStart, directoryTableStart := directoryStart,
              fragmentTableStart := fragmentStart, fragmentEntryCount := |entries|, lookupTableStart := exportStart,
              idTableStart := idStart, idCount := 1, inodeCount := total,
              flags := FLAG_NO_XATTRS + FLAG_DUPLICATES + FLAG_EXPORTABLE, bytesUsed := |out.bytes|);
    ghost var l := Layout(entries, raws, inodes, dirs, places, exportRefs, fragmentBase, exportBase, idBase);
    ghost var body := out.bytes;
    BodyComplete(c, data, tables, body, sb, l);
    var padded := (sb.bytesUsed + IMAGE_ALIGNMENT - 1) / IMAGE_ALIGNMENT * IMAGE_ALIGNMENT;
    if padded > sb.bytesUsed {
      out.WriteAll(Zeros(padded - sb.bytesUsed));
    }
    ghost var full := out.bytes;
    PaddedBody(body, full);
    CompleteKept(c, body, full, sb, l);
    out.OverwriteStart(SuperblockBytes(sb));
    image := out.bytes;
    if WithinLimits(z, sha, ns, image) {
      ImageFinished(c, sha, data, full, sb, l, image);
    }
  }

  /** Scan a tree and write it. Nothing is asked of the tree's shape: any nesting of
      directories gives an arena in depth-first layout. */
  method CreateSquashfs(z: Zstd, sha: Hash, permissions: nat, dev: nat, ino: nat, entries: seq<Entry>)
    returns (image: Bytes, ghost c: Context)
    requires var ns := Laid(DirEntry([], permissions, dev, ino, entries), ROOT, 0); ConsistentLinks(ns) && TreeFits(ns)
    ensures c.z == z && c.ns == Laid(DirEntry([], permissions, dev, ino, entries), ROOT, 0)
    ensures |c.ns| > 0 && Numbering(c.ns, c.numbers, c.total) && |image| % IMAGE_ALIGNMENT == 0
    ensures WithinLimits(z, sha, c.ns, image) ==> Reproduces(c, image)
  {
    hide Laid, ConsistentLinks, TreeFits, Numbering, WithinLimits, Reproduces;
    var ns := ScanTree(permissions, dev, ino, entries);
    ScannedWellLaid(DirEntry([], permissions, dev, ino, entries));
    image, c := WriteImage(z, sha, ns);
    NumberingBasics(c);
  }
}
