/** Fragment blocks: small files packed together into shared 128 KiB blocks. */
module Fragments {
  import opened Bytes
  import opened Metadata
  import opened Writer
  import opened Inodes
  import opened DataBlocks
  import opened SuperblockFormat

  datatype FragmentEntry = FragmentEntry(start: nat, size: nat)

  /** The stored form of one fragment block, and the size field describing it. */
  function FragmentPayload(z: Zstd, raw: Bytes): Bytes {
    match ZstdCompress(z, raw)
    case Some(c) => c
    case None => raw
  }

  function FragmentSize(z: Zstd, raw: Bytes): nat {
    match ZstdCompress(z, raw)
    case Some(c) => |c|
    case None => |raw| + DATA_BLOCK_UNCOMPRESSED
  }

  function ReadFragmentBlock(z: Zstd, blockSize: nat, data: Bytes, e: FragmentEntry): Option<Bytes> {
    if e.start + StoredLength(e.size) > |data| then None
    else
      var block := data[e.start..e.start + StoredLength(e.size)];
      if IsUncompressed(e.size) then Some(block) else z.decompress(block, blockSize)
  }

  /** Entry `e` describes the stored form of `raw` in the output `out`, past the superblock. */
  ghost predicate Stored(z: Zstd, out: Bytes, e: FragmentEntry, raw: Bytes) {
    && 0 < |raw| <= DATA_BLOCK_SIZE
    && SUPERBLOCK_SIZE <= e.start
    && e.size == FragmentSize(z, raw)
    && At(out, e.start, FragmentPayload(z, raw))
  }

  /** Every flushed block is in the output, and no two share bytes of it. */
  ghost predicate AllStored(z: Zstd, out: Bytes, entries: seq<FragmentEntry>, raws: seq<Bytes>) {
    && |entries| == |raws|
    && (forall k :: 0 <= k < |raws| ==> Stored(z, out, entries[k], raws[k]))
    && forall k, l :: 0 <= k < l < |raws| ==> Precedes(z, entries[k], raws[k], entries[l])
  }

  ghost predicate Precedes(z: Zstd, e: FragmentEntry, raw: Bytes, later: FragmentEntry) {
    e.start + |FragmentPayload(z, raw)| <= later.start
  }

  /** A range of the output. */
  datatype Extent = Extent(start: nat, length: nat)

  predicate Apart(a: Extent, b: Extent) {
    a.start + a.length <= b.start || b.start + b.length <= a.start
  }

  /** The bytes a fragment entry refers to. */
  function BlockExtent(e: FragmentEntry): Extent {
    Extent(e.start, StoredLength(e.size))
  }

  /** At most one entry is new, and it refers to bytes at `n` or later. */
  ghost predicate EntriesGrown(older: seq<FragmentEntry>, newer: seq<FragmentEntry>, n: nat) {
    && older <= newer && |newer| <= |older| + 1
    && forall k :: |older| <= k < |newer| ==> n <= newer[k].start
  }

  lemma PayloadExtent(z: Zstd, e: FragmentEntry, raw: Bytes)
    requires 0 < |raw| <= DATA_BLOCK_SIZE && e.size == FragmentSize(z, raw)
    ensures BlockExtent(e) == Extent(e.start, |FragmentPayload(z, raw)|) && e.size < 0x1_0000_0000
  {
    match ZstdCompress(z, raw)
    case Some(c) => assert |c| / DATA_BLOCK_UNCOMPRESSED == 0;
    case None => assert (|raw| + DATA_BLOCK_UNCOMPRESSED) / DATA_BLOCK_UNCOMPRESSED == 1;
  }

  lemma BlocksApart(z: Zstd, out: Bytes, entries: seq<FragmentEntry>, raws: seq<Bytes>)
    requires AllStored(z, out, entries, raws)
    ensures forall k :: 0 <= k < |entries| ==> entries[k].start + BlockExtent(entries[k]).length <= |out|
    ensures forall k, l :: 0 <= k < l < |entries| ==> Apart(BlockExtent(entries[k]), BlockExtent(entries[l]))
  {
    hide FragmentPayload, FragmentSize, BlockExtent;
    forall k | 0 <= k < |entries|
      ensures BlockExtent(entries[k]) == Extent(entries[k].start, |FragmentPayload(z, raws[k])|)
      ensures entries[k].start + |FragmentPayload(z, raws[k])| <= |out|
    {
      assert Stored(z, out, entries[k], raws[k]);
      PayloadExtent(z, entries[k], raws[k]);
    }
    forall k, l | 0 <= k < l < |entries| ensures Apart(BlockExtent(entries[k]), BlockExtent(entries[l])) {
      assert Precedes(z, entries[k], raws[k], entries[l]);
    }
  }

  lemma AllStoredAppend(z: Zstd, out: Bytes, entries: seq<FragmentEntry>, raws: seq<Bytes>, t: Bytes)
    requires AllStored(z, out, entries, raws)
    ensures AllStored(z, out + t, entries, raws)
  {
    hide FragmentPayload, At;
    forall k | 0 <= k < |raws| ensures Stored(z, out + t, entries[k], raws[k]) {
      assert Stored(z, out, entries[k], raws[k]);
      AtAppend(out, entries[k].start, FragmentPayload(z, raws[k]), t);
    }
  }

  lemma FragmentBlockReads(z: Zstd, data: Bytes, e: FragmentEntry, raw: Bytes)
    requires Lossless(z) && Stored(z, data, e, raw)
    ensures ReadFragmentBlock(z, DATA_BLOCK_SIZE, data, e) == Some(raw)
    ensures e.size < 0x1_0000_0000
  {
    match ZstdCompress(z, raw)
    case Some(c) => assert |c| / DATA_BLOCK_UNCOMPRESSED == 0;
    case None => assert (|raw| + DATA_BLOCK_UNCOMPRESSED) / DATA_BLOCK_UNCOMPRESSED == 1;
  }

  /** A block is stored in its compressed form if that is shorter. If not, bit 24 of the size
      says so. */
  lemma FragmentForm(z: Zstd, out: Bytes, e: FragmentEntry, raw: Bytes)
    requires Stored(z, out, e, raw)
    ensures var c := z.compress(raw);
            if c.Some? && |c.value| < |raw| then e.size == |c.value| && At(out, e.start, c.value)
            else e.size == 0x100_0000 + |raw| && At(out, e.start, raw)
  {
    hide At;
  }

  /** The fragment packer. `raws` are the blocks already flushed; `Pool` adds the one being
      filled. */
  class FragmentTable {
    const z: Zstd
    var buf: Bytes
    var entries: seq<FragmentEntry>
    ghost var raws: seq<Bytes>

    ghost predicate Valid(out: Bytes)
      reads this
    {
      |buf| <= DATA_BLOCK_SIZE && AllStored(z, out, entries, raws)
    }

    ghost function Pool(): (p: seq<Bytes>)
      reads this
      ensures |p| == |raws| + 1
    {
      raws + [buf]
    }

    constructor (z: Zstd)
      ensures this.z == z && (forall out :: Valid(out)) && buf == [] && entries == [] && raws == []
    {
      this.z := z;
      buf, entries, raws := [], [], [];
    }

    /** Place `data` in the block being filled if it fits; else flush that and begin another. The
        returned pair locates exactly `data`; what was placed before does not move. */
    method AddFragment(data: Bytes, output: Output) returns (idx: nat, off: nat)
      requires Valid(output.bytes) && |data| <= DATA_BLOCK_SIZE && |entries| < 0xFFFF_FFFE
      requires |output.bytes| >= SUPERBLOCK_SIZE
      modifies this, output
      ensures Valid(output.bytes) && old(output.bytes) <= output.bytes
      ensures idx == |raws| && off + |data| == |buf| && At(buf, off, data)
      ensures if |old(buf)| + |data| <= 131072 then idx == |old(raws)| && off == |old(buf)|
              else idx == |old(raws)| + 1 && off == 0
      ensures Extends(old(Pool()), Pool()) && |raws| <= |old(raws)| + 1
      ensures EntriesGrown(old(entries), entries, |old(output.bytes)|)
    {
      hide AllStored;
      StoredCount(z, output.bytes, entries, raws);
      if buf != [] && |buf| + |data| > DATA_BLOCK_SIZE {
        FlushBlock(output);
      }
      off := |buf|;
      idx := |entries| % 0x1_0000_0000;
      assert |entries| == |raws| by { StoredCount(z, output.bytes, entries, raws); }
      AtPushed(buf, data);
      buf := buf + data;
    }

    method FlushBlock(output: Output)
      requires Valid(output.bytes) && |output.bytes| >= SUPERBLOCK_SIZE
      modifies this, output
      ensures Valid(output.bytes) && old(output.bytes) <= output.bytes && buf == []
      ensures raws == if old(buf) == [] then old(raws) else old(Pool())
      ensures EntriesGrown(old(entries), entries, |old(output.bytes)|)
    {
      hide AllStored, FragmentPayload, FragmentSize, Stored;
      if buf == [] {
        return;
      }
      var raw := buf;
      var e := FragmentEntry(|output.bytes|, FragmentSize(z, raw));
      FlushStored(z, output.bytes, entries, raws, raw);
      output.WriteAll(FragmentPayload(z, raw));
      entries := entries + [e];
      raws := raws + [raw];
      buf := [];
    }

    method Finish(output: Output)
      requires Valid(output.bytes) && |output.bytes| >= SUPERBLOCK_SIZE
      modifies this, output
      ensures Valid(output.bytes) && old(output.bytes) <= output.bytes && buf == []
      ensures raws == if old(buf) == [] then old(raws) else old(Pool())
      ensures EntriesGrown(old(entries), entries, |old(output.bytes)|)
    {
      FlushBlock(output);
    }
  }

  lemma FlushStored(z: Zstd, out: Bytes, entries: seq<FragmentEntry>, raws: seq<Bytes>, raw: Bytes)
    requires AllStored(z, out, entries, raws) && 0 < |raw| <= DATA_BLOCK_SIZE && |out| >= SUPERBLOCK_SIZE
    ensures AllStored(z, out + FragmentPayload(z, raw), entries + [FragmentEntry(|out|, FragmentSize(z, raw))],
                      raws + [raw])
  {
    hide FragmentPayload, FragmentSize;
    AllStoredAppend(z, out, entries, raws, FragmentPayload(z, raw));
    AtPushed(out, FragmentPayload(z, raw));
    forall k | 0 <= k < |raws| ensures Precedes(z, entries[k], raws[k], FragmentEntry(|out|, FragmentSize(z, raw))) {
      assert Stored(z, out, entries[k], raws[k]);
    }
  }

  lemma StoredCount(z: Zstd, out: Bytes, entries: seq<FragmentEntry>, raws: seq<Bytes>)
    requires AllStored(z, out, entries, raws)
    ensures |entries| == |raws|
  {
  }

  /** Every block of the older pool is a prefix of the same block in the newer one. */
  ghost predicate Extends(older: seq<Bytes>, newer: seq<Bytes>) {
    |older| <= |newer| && forall k :: 0 <= k < |older| ==> older[k] <= newer[k]
  }

  lemma ExtendsKeeps(older: seq<Bytes>, newer: seq<Bytes>, k: nat, off: nat, d: Bytes)
    requires Extends(older, newer) && k < |older| && At(older[k], off, d)
    ensures k < |newer| && At(newer[k], off, d)
  {
    AtPrefix(older[k], newer[k], off, d);
  }
}
