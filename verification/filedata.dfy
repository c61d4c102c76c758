/** Storing file contents: full blocks in line, small files in fragments, duplicates by
    reference; and reading each file back. */
module FileData {
  import opened Bytes
  import opened Metadata
  import opened Writer
  import opened Inodes
  import opened DataBlocks
  import opened SuperblockFormat
  import opened Fragments
  import opened Reader
  import opened Tree
  import opened Dedup

  /** Bytes of the file that are stored as sparse blocks, as the writer counts them. */
  function SparseFrom(sizes: seq<nat>, fileSize: nat, i: nat): nat
    requires i <= |sizes|
    decreases |sizes| - i
  {
    if i == |sizes| then 0
    else
      (if sizes[i] != 0 then 0
       else if i < |sizes| - 1 then DATA_BLOCK_SIZE
       else if fileSize < i * DATA_BLOCK_SIZE then 0 else fileSize - i * DATA_BLOCK_SIZE)
      + SparseFrom(sizes, fileSize, i + 1)
  }

  /** `info` tells where the bytes `d` are: in the output, or in a block of the fragment pool. */
  ghost predicate InfoHolds(z: Zstd, out: Bytes, pool: seq<Bytes>, info: FileInfo, d: Bytes) {
    && info.fileSize == |d|
    && (if |d| >= DATA_BLOCK_SIZE then
          && info.fragIdx == NO_FRAGMENT && info.fragOffset == 0
          && SUPERBLOCK_SIZE <= info.startBlock
          && info.blockSizes == StoredFields(CompressChunks(z, Chunks(d)))
          && At(out, info.startBlock, BlocksBytes(CompressChunks(z, Chunks(d))))
        else
          && info.blockSizes == [] && info.startBlock == 0
          && (if d == [] then info.fragIdx == NO_FRAGMENT && info.fragOffset == 0 else InPool(pool, info, d)))
  }

  ghost predicate InPool(pool: seq<Bytes>, info: FileInfo, d: Bytes) {
    && info.fragIdx < NO_FRAGMENT && info.fragIdx < |pool| && info.fragOffset < DATA_BLOCK_SIZE
    && At(pool[info.fragIdx], info.fragOffset, d)
  }

  lemma InfoKept(z: Zstd, out: Bytes, pool: seq<Bytes>, out': Bytes, pool': seq<Bytes>, info: FileInfo, d: Bytes)
    requires InfoHolds(z, out, pool, info, d) && out <= out' && Extends(pool, pool')
    ensures InfoHolds(z, out', pool', info, d)
  {
    hide CompressChunks, Chunks, BlocksBytes, StoredFields, At;
    if |d| >= DATA_BLOCK_SIZE {
      AtPrefix(out, out', info.startBlock, BlocksBytes(CompressChunks(z, Chunks(d))));
    } else if d != [] {
      ExtendsKeeps(pool, pool', info.fragIdx, info.fragOffset, d);
    }
  }

  /** A flushed pool no longer ends in the (empty) block being filled. */
  lemma InfoFinished(z: Zstd, out: Bytes, pool: seq<Bytes>, info: FileInfo, d: Bytes)
    requires InfoHolds(z, out, pool + [[]], info, d)
    ensures InfoHolds(z, out, pool, info, d)
  {
    hide CompressChunks, Chunks, BlocksBytes, StoredFields;
  }

  // ----- ranges of the output -----

  /** The bytes a file occupies in line; none for a file without full blocks. */
  function FileExtent(info: FileInfo): Extent {
    Extent(info.startBlock, TotalLength(info.blockSizes))
  }

  /** The in-line ranges of the files `idxs` and the ranges of all fragment blocks end by `n`,
      and no two of them share a byte. */
  ghost predicate RangesApart(n: nat, fileData: map<nat, FileInfo>, idxs: set<nat>, entries: seq<FragmentEntry>) {
    && FilesApart(n, fileData, idxs)
    && (forall i, k :: i in idxs && 0 <= k < |entries| ==> Apart(FileExtent(fileData[i]), BlockExtent(entries[k])))
    && forall k, l :: 0 <= k < l < |entries| ==> Apart(BlockExtent(entries[k]), BlockExtent(entries[l]))
  }

  ghost predicate FilesApart(n: nat, fileData: map<nat, FileInfo>, idxs: set<nat>) {
    && (forall i :: i in idxs ==> i in fileData && fileData[i].startBlock + FileExtent(fileData[i]).length <= n)
    && forall i, j :: i in idxs && j in idxs && i != j ==> Apart(FileExtent(fileData[i]), FileExtent(fileData[j]))
  }

  /** A file with full blocks occupies exactly its blocks, any other file nothing. */
  lemma InfoExtent(z: Zstd, out: Bytes, pool: seq<Bytes>, info: FileInfo, d: Bytes)
    requires InfoHolds(z, out, pool, info, d)
    ensures |d| >= DATA_BLOCK_SIZE ==>
      FileExtent(info) == Extent(info.startBlock, |BlocksBytes(CompressChunks(z, Chunks(d)))|)
    ensures |d| < DATA_BLOCK_SIZE ==> FileExtent(info) == Extent(0, 0)
    ensures info.startBlock + FileExtent(info).length <= |out|
  {
    hide CompressChunks, Chunks, BlocksBytes, StoredFields;
    if |d| >= DATA_BLOCK_SIZE { BlocksLength(z, Chunks(d)); }
  }

  /** Blocks added behind everything stored stay apart from it. */
  lemma RangesGrown(z: Zstd, n: nat, fileData: map<nat, FileInfo>, idxs: set<nat>, entries: seq<FragmentEntry>,
                    out: Bytes, entries': seq<FragmentEntry>, raws': seq<Bytes>)
    requires RangesApart(n, fileData, idxs, entries) && EntriesGrown(entries, entries', n)
    requires AllStored(z, out, entries', raws') && n <= |out|
    ensures RangesApart(|out|, fileData, idxs, entries')
  {
    BlocksApart(z, out, entries', raws');
    hide AllStored, FileExtent, BlockExtent;
    forall i, k | i in idxs && 0 <= k < |entries'| ensures Apart(FileExtent(fileData[i]), BlockExtent(entries'[k])) {
      if k < |entries| { assert entries'[k] == entries[k]; }
      assert FileExtent(fileData[i]).start == fileData[i].startBlock by { ExtentStarts(fileData[i], entries'[k]); }
      assert BlockExtent(entries'[k]).start == entries'[k].start by { ExtentStarts(fileData[i], entries'[k]); }
    }
  }

  lemma ExtentStarts(info: FileInfo, e: FragmentEntry)
    ensures FileExtent(info).start == info.startBlock && BlockExtent(e).start == e.start
  {
  }

  /** So does a file stored behind everything, or stored without using any bytes. */
  lemma RangesAdded(z: Zstd, n: nat, fileData: map<nat, FileInfo>, idxs: set<nat>, i: nat, info: FileInfo,
                    out: Bytes, entries: seq<FragmentEntry>, raws: seq<Bytes>)
    requires RangesApart(n, fileData, idxs, entries) && i !in idxs && n <= |out|
    requires info.startBlock + FileExtent(info).length <= |out|
    requires FileExtent(info) == Extent(0, 0) || (n <= info.startBlock && EntriesEnd(entries, n))
    ensures RangesApart(|out|, fileData[i := info], idxs + {i}, entries)
  {
    hide FileExtent, BlockExtent;
    ExtentStarts(info, FragmentEntry(0, 0));
    forall j | j in idxs
      ensures Apart(FileExtent(info), FileExtent(fileData[j])) && Apart(FileExtent(fileData[j]), FileExtent(info))
    {
      ExtentStarts(fileData[j], FragmentEntry(0, 0));
    }
    forall k | 0 <= k < |entries| ensures Apart(FileExtent(info), BlockExtent(entries[k])) {
      ExtentStarts(info, entries[k]);
    }
  }

  ghost predicate EntriesEnd(entries: seq<FragmentEntry>, n: nat) {
    forall k :: 0 <= k < |entries| ==> entries[k].start + BlockExtent(entries[k]).length <= n
  }

  /** Storing one more file, with or without flushing a fragment block, keeps all ranges apart. */
  lemma RangesStored(z: Zstd, out: Bytes, fileData: map<nat, FileInfo>, idxs: set<nat>, entries: seq<FragmentEntry>,
                     raws: seq<Bytes>, i: nat, info: FileInfo, d: Bytes, out': Bytes, pool': seq<Bytes>,
                     entries': seq<FragmentEntry>, raws': seq<Bytes>)
    requires RangesApart(|out|, fileData, idxs, entries) && AllStored(z, out, entries, raws) && i !in idxs
    requires out <= out' && AllStored(z, out', entries', raws') && EntriesGrown(entries, entries', |out|)
    requires InfoHolds(z, out', pool', info, d)
    requires |d| >= DATA_BLOCK_SIZE ==> info.startBlock == |out| && entries' == entries
    ensures RangesApart(|out'|, fileData[i := info], idxs + {i}, entries')
  {
    hide AllStored, FileExtent, BlockExtent, InfoHolds;
    hide RangesApart;
    InfoExtent(z, out', pool', info, d);
    if |d| >= DATA_BLOCK_SIZE {
      BlocksApart(z, out, entries, raws);
      RangesAdded(z, |out|, fileData, idxs, i, info, out', entries, raws);
    } else {
      RangesGrown(z, |out|, fileData, idxs, entries, out', entries', raws');
      RangesAdded(z, |out'|, fileData, idxs, i, info, out', entries', raws');
    }
  }

  /** Store one scheduled file. */
  method StoreFile(z: Zstd, compressed: CompressedFile, entry: DataFileEntry, output: Output, frags: FragmentTable)
    returns (info: FileInfo)
    requires entry == EntryOf(entry.data) && compressed.blocks == CompressChunks(z, Chunks(entry.data))
    requires frags.z == z && frags.Valid(output.bytes) && |output.bytes| >= SUPERBLOCK_SIZE
    requires |frags.entries| < 0xFFFF_FFFE
    modifies output, frags
    ensures frags.Valid(output.bytes) && old(output.bytes) <= output.bytes
    ensures Extends(old(frags.Pool()), frags.Pool()) && |frags.raws| <= |old(frags.raws)| + 1
    ensures InfoHolds(z, output.bytes, frags.Pool(), info, entry.data)
    ensures info.sparse == SparseFrom(info.blockSizes, |entry.data|, 0)
    ensures EntriesGrown(old(frags.entries), frags.entries, |old(output.bytes)|)
    ensures |entry.data| >= DATA_BLOCK_SIZE ==>
      info.startBlock == |old(output.bytes)| && frags.entries == old(frags.entries)
  {
    hide CompressChunks, Chunks, BlocksBytes, StoredFields, AllStored, SparseFrom;
    var startBlock, blockSizes := 0, [];
    if entry.hasFullBlocks {
      ghost var out := output.bytes;
      startBlock, blockSizes := WriteCompressedFile(compressed, output);
      AllStoredAppend(z, out, frags.entries, frags.raws, BlocksBytes(compressed.blocks));
      AtPushed(out, BlocksBytes(compressed.blocks));
    }
    var tail := entry.data[entry.fullBlocksLen..];
    var fragIdx, fragOffset := NO_FRAGMENT, 0;
    if !entry.hasFullBlocks && tail != [] {
      StoredCount(z, output.bytes, frags.entries, frags.raws);
      fragIdx, fragOffset := frags.AddFragment(tail, output);
    }
    info := FileInfo(|entry.data|, startBlock, blockSizes, fragIdx, fragOffset,
                     SparseFrom(blockSizes, |entry.data|, 0));
  }

  /** Every file in `idxs` has information leading to its own bytes. */
  ghost predicate AllHold(z: Zstd, out: Bytes, pool: seq<Bytes>, ns: seq<Node>, fileData: map<nat, FileInfo>,
                          idxs: set<nat>)
  {
    forall i :: i in idxs ==> IsFile(ns, i) && i in fileData && InfoHolds(z, out, pool, fileData[i], ns[i].kind.data)
  }

  lemma AllKept(z: Zstd, out: Bytes, pool: seq<Bytes>, out': Bytes, pool': seq<Bytes>, ns: seq<Node>,
                fileData: map<nat, FileInfo>, idxs: set<nat>)
    requires AllHold(z, out, pool, ns, fileData, idxs) && out <= out' && Extends(pool, pool')
    ensures AllHold(z, out', pool', ns, fileData, idxs)
  {
    hide InfoHolds, Extends;
    forall i | i in idxs ensures InfoHolds(z, out', pool', fileData[i], ns[i].kind.data) {
      InfoKept(z, out, pool, out', pool', fileData[i], ns[i].kind.data);
    }
  }

  lemma AllAdded(z: Zstd, out: Bytes, pool: seq<Bytes>, ns: seq<Node>, fileData: map<nat, FileInfo>, idxs: set<nat>,
                 i: nat, info: FileInfo)
    requires AllHold(z, out, pool, ns, fileData, idxs)
    requires IsFile(ns, i) && InfoHolds(z, out, pool, info, ns[i].kind.data)
    ensures AllHold(z, out, pool, ns, fileData[i := info], idxs + {i})
  {
    hide InfoHolds;
  }

  lemma AllFinished(z: Zstd, out: Bytes, pool: seq<Bytes>, ns: seq<Node>, fileData: map<nat, FileInfo>, idxs: set<nat>)
    requires AllHold(z, out, pool + [[]], ns, fileData, idxs)
    ensures AllHold(z, out, pool, ns, fileData, idxs)
  {
    hide InfoHolds;
    forall i | i in idxs ensures InfoHolds(z, out, pool, fileData[i], ns[i].kind.data) {
      InfoFinished(z, out, pool, fileData[i], ns[i].kind.data);
    }
  }

  /** No two files of the tree have equal size and equal hash but different contents. */
  ghost predicate CollisionFree(ns: seq<Node>, sha: Hash) {
    forall i: nat, j: nat :: IsFile(ns, i) && IsFile(ns, j) ==>
      var a, b := ns[i].kind.data, ns[j].kind.data;
      ContentKey(sha, a) == ContentKey(sha, b) ==> a == b
  }

  /** Compress all scheduled files, then store them one by one. */
  method StoreAll(z: Zstd, ns: seq<Node>, files: seq<(nat, DataFileEntry)>, output: Output, frags: FragmentTable)
    returns (fileData: map<nat, FileInfo>)
    requires StoredOnce(ns, files) && |files| < 0x8000_0000
    requires frags.z == z && frags.Valid(output.bytes) && |output.bytes| >= SUPERBLOCK_SIZE && |frags.raws| == 0
    modifies output, frags
    ensures frags.Valid(output.bytes) && old(output.bytes) <= output.bytes && |frags.raws| <= |files|
    ensures AllHold(z, output.bytes, frags.Pool(), ns, fileData, Originals(files))
    ensures RangesApart(|output.bytes|, fileData, Originals(files), frags.entries)
  {
    hide CompressChunks, Chunks, AllStored, Extends, InfoHolds, Originals, AllHold, RangesApart, EntriesGrown;
    var contents := seq(|files|, i requires 0 <= i < |files| => (files[i].0, files[i].1.data));
    var compressed := CompressFilesParallel(z, contents);
    fileData := map[];
    assert AllHold(z, output.bytes, frags.Pool(), ns, fileData, Originals(files[..0])) by {
      NoneScheduled(z, output.bytes, frags.Pool(), ns, files);
    }
    NothingStored(z, output.bytes, files, frags.entries, frags.raws);
    for k := 0 to |files|
      invariant frags.Valid(output.bytes) && old(output.bytes) <= output.bytes && |frags.raws| <= k
      invariant AllHold(z, output.bytes, frags.Pool(), ns, fileData, Originals(files[..k]))
      invariant RangesApart(|output.bytes|, fileData, Originals(files[..k]), frags.entries)
    {
      var (idx, entry) := files[k];
      StoredCount(z, output.bytes, frags.entries, frags.raws);
      ghost var out, pool, entries, raws := output.bytes, frags.Pool(), frags.entries, frags.raws;
      var info := StoreFile(z, compressed[k], entry, output, frags);
      AllKept(z, out, pool, output.bytes, frags.Pool(), ns, fileData, Originals(files[..k]));
      AllAdded(z, output.bytes, frags.Pool(), ns, fileData, Originals(files[..k]), idx, info);
      assert files[..k + 1] == files[..k] + [files[k]];
      OriginalsPush(files[..k], files[k]);
      NotScheduled(ns, files, k);
      RangesStored(z, out, fileData, Originals(files[..k]), entries, raws, idx, info, entry.data, output.bytes,
                   frags.Pool(), frags.entries, frags.raws);
      fileData := fileData[idx := info];
    }
    assert files[..|files|] == files;
  }

  lemma NotScheduled(ns: seq<Node>, files: seq<(nat, DataFileEntry)>, k: nat)
    requires StoredOnce(ns, files) && k < |files|
    ensures files[k].0 !in Originals(files[..k])
  {
  }

  lemma NothingStored(z: Zstd, out: Bytes, files: seq<(nat, DataFileEntry)>, entries: seq<FragmentEntry>,
                      raws: seq<Bytes>)
    requires AllStored(z, out, entries, raws) && raws == []
    ensures RangesApart(|out|, map[], Originals(files[..0]), entries)
  {
  }

  lemma NoneScheduled(z: Zstd, out: Bytes, pool: seq<Bytes>, ns: seq<Node>, files: seq<(nat, DataFileEntry)>)
    ensures AllHold(z, out, pool, ns, map[], Originals(files[..0]))
  {
  }

  /** Every file in `idxs` has information with as many block sizes as its length calls for. */
  ghost predicate AllSized(ns: seq<Node>, fileData: map<nat, FileInfo>, idxs: set<nat>) {
    forall i :: i in idxs ==> IsFile(ns, i) && i in fileData && Sized(fileData[i], |ns[i].kind.data|)
  }

  ghost predicate Sized(info: FileInfo, size: nat) {
    info.fileSize == size && |info.blockSizes| <= CeilDiv(size, DATA_BLOCK_SIZE)
  }

  lemma InfoSized(z: Zstd, out: Bytes, pool: seq<Bytes>, info: FileInfo, d: Bytes)
    requires InfoHolds(z, out, pool, info, d)
    ensures Sized(info, |d|)
  {
    hide CompressChunks, Chunks, BlocksBytes, StoredFields, At;
    ChunkCount(d);
  }

  lemma AllHoldSized(z: Zstd, out: Bytes, pool: seq<Bytes>, ns: seq<Node>, fileData: map<nat, FileInfo>, idxs: set<nat>)
    requires AllHold(z, out, pool, ns, fileData, idxs)
    ensures AllSized(ns, fileData, idxs)
  {
    hide InfoHolds, Sized;
    forall i | i in idxs ensures Sized(fileData[i], |ns[i].kind.data|) {
      InfoSized(z, out, pool, fileData[i], ns[i].kind.data);
    }
  }

  lemma AllSizedAdded(ns: seq<Node>, fileData: map<nat, FileInfo>, idxs: set<nat>, i: nat, info: FileInfo)
    requires AllSized(ns, fileData, idxs) && IsFile(ns, i) && Sized(info, |ns[i].kind.data|)
    ensures AllSized(ns, fileData[i := info], idxs + {i})
  {
    hide Sized;
  }

  /** Give every copy the information of the file it duplicates. No lookup fails; and equal
      (size, hash) means equal contents, unless two files of the tree collide. */
  method ResolveCopies(z: Zstd, ns: seq<Node>, sha: Hash, files: seq<(nat, DataFileEntry)>, copies: seq<DedupCopy>,
                       original: map<nat, FileInfo>, ghost out: Bytes, ghost pool: seq<Bytes>)
    returns (fileData: map<nat, FileInfo>)
    requires CopiesSound(ns, sha, files, copies)
    requires AllHold(z, out, pool, ns, original, Originals(files))
    ensures AllSized(ns, fileData, Originals(files) + CopyIdxs(copies))
    ensures CollisionFree(ns, sha) ==> AllHold(z, out, pool, ns, fileData, Originals(files) + CopyIdxs(copies))
    ensures SharedWith(original, fileData, Originals(files), Originals(files) + CopyIdxs(copies))
  {
    hide InfoHolds, Originals, CopyIdxs, CollisionFree, AllHold, AllSized, Sized;
    hide SharedWith;
    fileData := original;
    assert CopyIdxs(copies[..0]) == {} by { NoCopies(copies); }
    assert Originals(files) + {} == Originals(files);
    AllHoldSized(z, out, pool, ns, original, Originals(files));
    SharedAtFirst(ns, original, Originals(files));
    for k := 0 to |copies|
      invariant AllSized(ns, fileData, Originals(files) + CopyIdxs(copies[..k]))
      invariant CollisionFree(ns, sha) ==> AllHold(z, out, pool, ns, fileData, Originals(files) + CopyIdxs(copies[..k]))
      invariant SharedWith(original, fileData, Originals(files), Originals(files) + CopyIdxs(copies[..k]))
    {
      var c := copies[k];
      ghost var idxs := Originals(files) + CopyIdxs(copies[..k]);
      assert CopySound(ns, sha, files, c);
      assert c.first in idxs;
      SizedAt(ns, fileData, idxs, c.first);
      var first := fileData[c.first];
      var info := FileInfo(c.fileSize, first.startBlock, first.blockSizes, first.fragIdx, first.fragOffset,
                           first.sparse);
      CopySized(ns, sha, files, c, first, info);
      AllSizedAdded(ns, fileData, idxs, c.idx, info);
      SharedStored(original, fileData, Originals(files), idxs, c.first);
      assert c.idx !in Originals(files);
      SharedAdded(original, fileData, Originals(files), idxs, c.first, c.idx, info);
      if CollisionFree(ns, sha) {
        HoldsAt(z, out, pool, ns, fileData, idxs, c.first);
        CopyHolds(z, out, pool, ns, sha, files, c, first, info);
        AllAdded(z, out, pool, ns, fileData, idxs, c.idx, info);
      }
      assert copies[..k + 1] == copies[..k] + [c];
      CopyIdxsPush(copies[..k], c);
      assert Originals(files) + CopyIdxs(copies[..k + 1]) == idxs + {c.idx};
      fileData := fileData[c.idx := info];
    }
    assert copies[..|copies|] == copies;
  }

  /** Stored files keep their own information; every other file uses a stored file's range. */
  ghost predicate SharedWith(original: map<nat, FileInfo>, fileData: map<nat, FileInfo>, stored: set<nat>,
                             idxs: set<nat>) {
    && (forall i :: i in stored ==> i in original && i in fileData && fileData[i] == original[i])
    && forall i :: i in idxs ==> i in fileData && UsesRange(original, stored, fileData[i])
  }

  ghost predicate UsesRange(original: map<nat, FileInfo>, stored: set<nat>, info: FileInfo) {
    exists j :: j in stored && j in original && FileExtent(info) == FileExtent(original[j])
  }

  lemma SharedAtFirst(ns: seq<Node>, original: map<nat, FileInfo>, stored: set<nat>)
    requires AllSized(ns, original, stored)
    ensures SharedWith(original, original, stored, stored)
  {
    hide Sized, FileExtent;
  }

  lemma SharedAdded(original: map<nat, FileInfo>, fileData: map<nat, FileInfo>, stored: set<nat>, idxs: set<nat>,
                    first: nat, i: nat, info: FileInfo)
    requires SharedWith(original, fileData, stored, idxs) && first in stored && i !in stored && first in original
    requires info.startBlock == original[first].startBlock && info.blockSizes == original[first].blockSizes
    ensures SharedWith(original, fileData[i := info], stored, idxs + {i})
  {
    assert FileExtent(info) == FileExtent(original[first]);
    hide FileExtent;
  }

  lemma SharedStored(original: map<nat, FileInfo>, fileData: map<nat, FileInfo>, stored: set<nat>, idxs: set<nat>,
                     i: nat)
    requires SharedWith(original, fileData, stored, idxs) && i in stored
    ensures i in original && i in fileData && fileData[i] == original[i]
  {
  }

  lemma SizedAt(ns: seq<Node>, fileData: map<nat, FileInfo>, idxs: set<nat>, i: nat)
    requires AllSized(ns, fileData, idxs) && i in idxs
    ensures IsFile(ns, i) && i in fileData && Sized(fileData[i], |ns[i].kind.data|)
  {
    hide Sized;
  }

  lemma CopySized(ns: seq<Node>, sha: Hash, files: seq<(nat, DataFileEntry)>, c: DedupCopy, first: FileInfo,
                  info: FileInfo)
    requires CopySound(ns, sha, files, c) && Sized(first, |ns[c.first].kind.data|)
    requires info.fileSize == c.fileSize && info.blockSizes == first.blockSizes
    ensures Sized(info, |ns[c.idx].kind.data|)
  {
    hide Originals, CeilDiv;
  }

  lemma NoCopies(copies: seq<DedupCopy>)
    ensures CopyIdxs(copies[..0]) == {}
  {
  }

  lemma HoldsAt(z: Zstd, out: Bytes, pool: seq<Bytes>, ns: seq<Node>, fileData: map<nat, FileInfo>, idxs: set<nat>,
                i: nat)
    requires AllHold(z, out, pool, ns, fileData, idxs) && i in idxs
    ensures IsFile(ns, i) && i in fileData && InfoHolds(z, out, pool, fileData[i], ns[i].kind.data)
  {
    hide InfoHolds;
  }

  lemma CopyHolds(z: Zstd, out: Bytes, pool: seq<Bytes>, ns: seq<Node>, sha: Hash, files: seq<(nat, DataFileEntry)>,
                  c: DedupCopy, first: FileInfo, info: FileInfo)
    requires CopySound(ns, sha, files, c) && CollisionFree(ns, sha)
    requires InfoHolds(z, out, pool, first, ns[c.first].kind.data)
    requires info == FileInfo(c.fileSize, first.startBlock, first.blockSizes, first.fragIdx, first.fragOffset,
                              first.sparse)
    ensures InfoHolds(z, out, pool, info, ns[c.idx].kind.data)
  {
    hide Originals, CompressChunks, Chunks, BlocksBytes, StoredFields, At;
  }

  // ----- reading back -----

  /** The reader on a file written with `info`: the file's bytes, or, exactly for a short
      all-zero last block, an error. Never other bytes. */
  lemma FileReadsBack(z: Zstd, img: Image, raws: seq<Bytes>, info: FileInfo, d: Bytes, inum: nat, perms: nat,
                      nlink: nat)
    requires Lossless(z) && img.sb.blockSize == DATA_BLOCK_SIZE
    requires AllStored(z, img.data, img.fragments, raws) && InfoHolds(z, img.data, raws, info, d)
    ensures ReadFile(z, img, FileInodeOf(inum, perms, 0, 0, info, nlink)) == if ShortZeroTail(d) then None else Some(d)
  {
    hide Lossless, ReadBlocks, Chunks, CompressChunks, BlocksBytes, StoredFields, ExpandedAll, ReadFragmentBlock, At;
    hide AllZero;
    if |d| >= DATA_BLOCK_SIZE {
      BlocksRead(z, img.data, info.startBlock, Chunks(d));
      ExpansionOfChunks(d);
      assert ExpandedAll(Chunks(d)) + [] == ExpandedAll(Chunks(d));
    } else {
      assert [] + d == d;
      NoBlocksRead(z, img.data, info.startBlock);
      if d != [] {
        assert Stored(z, img.data, img.fragments[info.fragIdx], raws[info.fragIdx]);
        FragmentBlockReads(z, img.data, img.fragments[info.fragIdx], raws[info.fragIdx]);
        AtRange(raws[info.fragIdx], info.fragOffset, d);
      }
    }
  }

  /** The smallest such file: a block of zeros and one more zero. What was written for it
      cannot be read. */
  lemma ZeroTailUnreadable(z: Zstd, img: Image, raws: seq<Bytes>, info: FileInfo, d: Bytes, inum: nat, perms: nat,
                           nlink: nat)
    requires |d| == DATA_BLOCK_SIZE + 1 && AllZero(d)
    requires Lossless(z) && img.sb.blockSize == DATA_BLOCK_SIZE && AllStored(z, img.data, img.fragments, raws)
    requires InfoHolds(z, img.data, raws, info, d)
    ensures ReadFile(z, img, FileInodeOf(inum, perms, 0, 0, info, nlink)) == None
  {
    ZeroTail(d);
    hide Lossless, ReadFile, AllStored, InfoHolds, ShortZeroTail;
    FileReadsBack(z, img, raws, info, d, inum, perms, nlink);
  }

  lemma ZeroTail(d: Bytes)
    requires |d| == DATA_BLOCK_SIZE + 1 && AllZero(d)
    ensures ShortZeroTail(d)
  {
  }

  lemma NoBlocksRead(z: Zstd, data: Bytes, off: nat)
    ensures ReadBlocks(z, DATA_BLOCK_SIZE, data, [], off) == Some([])
  {
  }

  lemma AtRange(s: Bytes, n: nat, e: Bytes)
    requires At(s, n, e)
    ensures n + |e| <= |s| && s[n..n + |e|] == e
  {
  }

  // ----- keeping a layout while the image is completed -----

  /** Rewriting the superblock leaves everything behind it in place. */
  lemma AtOverwritten(out: Bytes, head: Bytes, n: nat, e: Bytes)
    requires |head| <= n && At(out, n, e)
    ensures At(head + out[|head|..], n, e)
  {
    AtSuffix(out, |head|, n, e);
    AtPushed(head, out[|head|..]);
    AtWithin(head + out[|head|..], |head|, out[|head|..], n - |head|, e);
  }

  lemma StoredOverwritten(z: Zstd, out: Bytes, head: Bytes, entries: seq<FragmentEntry>, raws: seq<Bytes>)
    requires |head| == SUPERBLOCK_SIZE <= |out| && AllStored(z, out, entries, raws)
    ensures AllStored(z, head + out[|head|..], entries, raws)
  {
    hide FragmentPayload, At;
    forall k | 0 <= k < |raws| ensures Stored(z, head + out[|head|..], entries[k], raws[k]) {
      assert Stored(z, out, entries[k], raws[k]);
      AtOverwritten(out, head, entries[k].start, FragmentPayload(z, raws[k]));
    }
  }

  lemma InfoOverwritten(z: Zstd, out: Bytes, head: Bytes, pool: seq<Bytes>, info: FileInfo, d: Bytes)
    requires |head| == SUPERBLOCK_SIZE <= |out| && InfoHolds(z, out, pool, info, d)
    ensures InfoHolds(z, head + out[|head|..], pool, info, d)
  {
    hide CompressChunks, Chunks, BlocksBytes, StoredFields, At;
    if |d| >= DATA_BLOCK_SIZE {
      AtOverwritten(out, head, info.startBlock, BlocksBytes(CompressChunks(z, Chunks(d))));
    }
  }

  /** The reader looks for exactly the block sizes that were written, and no field overflows. */
  lemma InfoHoldsFits(z: Zstd, out: Bytes, pool: seq<Bytes>, info: FileInfo, d: Bytes, nlink: nat)
    requires Lossless(z) && InfoHolds(z, out, pool, info, d)
    requires |out| < 0x1_0000_0000_0000_0000 && |d| < 0x1_0000_0000_0000_0000 && nlink < 0x1_0000_0000
    ensures InfoFits(info, nlink)
  {
    hide Lossless, CompressChunks, Chunks, BlocksBytes, StoredFields;
    ChunkCount(d);
    if |d| >= DATA_BLOCK_SIZE {
      BlocksRead(z, out, info.startBlock, Chunks(d));
    }
  }

  // ----- sparse accounting -----

  function ZeroBytes(cs: seq<Bytes>): nat {
    if cs == [] then 0 else (if AllZero(cs[0]) then |cs[0]| else 0) + ZeroBytes(cs[1..])
  }

  function DataBytes(cs: seq<Bytes>): nat {
    if cs == [] then 0 else (if AllZero(cs[0]) then 0 else |cs[0]|) + DataBytes(cs[1..])
  }

  lemma {:induction false} ChunkLength(d: Bytes, i: nat)
    requires i < |Chunks(d)|
    ensures |Chunks(d)[i]| == (if i < |Chunks(d)| - 1 then DATA_BLOCK_SIZE else |d| - i * DATA_BLOCK_SIZE)
    decreases |d|
  {
    if |d| > DATA_BLOCK_SIZE {
      ChunkCount(d[DATA_BLOCK_SIZE..]);
      if i > 0 { ChunkLength(d[DATA_BLOCK_SIZE..], i - 1); }
    }
  }

  lemma {:induction false} BytesSplit(d: Bytes)
    ensures ZeroBytes(Chunks(d)) + DataBytes(Chunks(d)) == |d|
    decreases |d|
  {
    hide AllZero;
    if |d| > DATA_BLOCK_SIZE {
      BytesSplit(d[DATA_BLOCK_SIZE..]);
      assert Chunks(d)[1..] == Chunks(d[DATA_BLOCK_SIZE..]);
    } else if d != [] {
      assert [d][1..] == [];
    }
  }

  lemma ZeroField(z: Zstd, c: Bytes)
    requires Lossless(z) && c != []
    ensures StoredField(CompressChunk(z, c)) == 0 <==> AllZero(c)
  {
    match CompressChunk(z, c)
    case Sparse =>
    case Compressed(d) => assert z.compress(c) == Some(d);
    case Uncompressed(d) =>
  }

  lemma {:induction false} SparseTail(z: Zstd, d: Bytes, i: nat)
    requires Lossless(z) && i <= |Chunks(d)|
    ensures SparseFrom(StoredFields(CompressChunks(z, Chunks(d))), |d|, i) == ZeroBytes(Chunks(d)[i..])
    decreases |Chunks(d)| - i
  {
    hide Lossless, Chunks, CompressChunk, StoredField, AllZero;
    if i < |Chunks(d)| {
      SparseTail(z, d, i + 1);
      assert Chunks(d)[i..][1..] == Chunks(d)[i + 1..];
      ChunkLength(d, i);
      ZeroField(z, Chunks(d)[i]);
    }
  }

  /** The bytes recorded as sparse and the bytes of stored blocks make up the file. */
  lemma SparseAddsUp(z: Zstd, d: Bytes)
    requires Lossless(z)
    ensures SparseFrom(StoredFields(CompressChunks(z, Chunks(d))), |d|, 0) + DataBytes(Chunks(d)) == |d|
  {
    hide Lossless, Chunks, CompressChunks, StoredFields, SparseFrom;
    SparseTail(z, d, 0);
    BytesSplit(d);
    assert Chunks(d)[0..] == Chunks(d);
  }
}
