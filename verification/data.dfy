/** File data blocks: chunking, compression across files, writing and reading back. */
module DataBlocks {
  import opened Bytes
  import opened Metadata
  import opened Writer
  import opened Inodes

  const DATA_BLOCK_UNCOMPRESSED: nat := 0x100_0000

  datatype CompressedBlock = Sparse | Compressed(data: Bytes) | Uncompressed(data: Bytes)

  datatype CompressedFile = CompressedFile(fileIdx: nat, blocks: seq<CompressedBlock>)

  /** A file's data cut into 128 KiB chunks, the last one possibly shorter. */
  function Chunks(d: Bytes): (cs: seq<Bytes>)
    ensures forall i :: 0 <= i < |cs| ==> 0 < |cs[i]| <= DATA_BLOCK_SIZE
  {
    if d == [] then []
    else if |d| <= DATA_BLOCK_SIZE then [d]
    else [d[..DATA_BLOCK_SIZE]] + Chunks(d[DATA_BLOCK_SIZE..])
  }

  predicate AllZero(c: Bytes) {
    forall i :: 0 <= i < |c| ==> c[i] == 0
  }

  function CompressChunk(z: Zstd, c: Bytes): CompressedBlock {
    if AllZero(c) then Sparse
    else
      match ZstdCompress(z, c)
      case Some(d) => Compressed(d)
      case None => Uncompressed(c)
  }

  function CompressChunks(z: Zstd, cs: seq<Bytes>): (bs: seq<CompressedBlock>)
    ensures |bs| == |cs|
  {
    seq(|cs|, i requires 0 <= i < |cs| => CompressChunk(z, cs[i]))
  }

  // ----- compressing all files at once -----

  /** The second components of the pairs tagged `k`, in order. */
  function Select<T>(pairs: seq<(nat, T)>, k: nat): seq<T> {
    if pairs == [] then []
    else
      var last := pairs[|pairs| - 1];
      Select(pairs[..|pairs| - 1], k) + if last.0 == k then [last.1] else []
  }

  lemma SelectPush<T>(pairs: seq<(nat, T)>, p: (nat, T), k: nat)
    ensures Select(pairs + [p], k) == Select(pairs, k) + if p.0 == k then [p.1] else []
  {
    assert (pairs + [p])[..|pairs|] == pairs;
  }

  lemma {:induction false} SelectTagged<T>(pairs: seq<(nat, T)>, tag: nat, xs: seq<T>, k: nat)
    ensures Select(pairs + Tagged(tag, xs), k) == Select(pairs, k) + if tag == k then xs else []
    decreases |xs|
  {
    hide Select;
    if xs == [] {
      assert pairs + Tagged(tag, xs) == pairs;
    } else {
      var init, x := xs[..|xs| - 1], xs[|xs| - 1];
      SelectTagged(pairs, tag, init, k);
      assert Tagged(tag, xs) == Tagged(tag, init) + [(tag, x)];
      hide Tagged;
      assert pairs + Tagged(tag, xs) == (pairs + Tagged(tag, init)) + [(tag, x)];
      SelectPush(pairs + Tagged(tag, init), (tag, x), k);
      assert init + [x] == xs;
    }
  }

  function Tagged<T>(tag: nat, xs: seq<T>): (ps: seq<(nat, T)>)
    ensures |ps| == |xs|
  {
    seq(|xs|, i requires 0 <= i < |xs| => (tag, xs[i]))
  }

  /** An order-preserving parallel map. */
  function CompressPairs(z: Zstd, pairs: seq<(nat, Bytes)>): (rs: seq<(nat, CompressedBlock)>)
    ensures |rs| == |pairs|
  {
    seq(|pairs|, i requires 0 <= i < |pairs| => (pairs[i].0, CompressChunk(z, pairs[i].1)))
  }

  lemma {:induction false} SelectCompressed(z: Zstd, pairs: seq<(nat, Bytes)>, k: nat)
    ensures Select(CompressPairs(z, pairs), k) == CompressChunks(z, Select(pairs, k))
    decreases |pairs|
  {
    hide CompressChunk;
    if pairs != [] {
      var init, p := pairs[..|pairs| - 1], pairs[|pairs| - 1];
      SelectCompressed(z, init, k);
      assert CompressPairs(z, pairs)[..|pairs| - 1] == CompressPairs(z, init);
    }
  }

  lemma NoChunks()
    ensures Chunks([]) == [] && DATA_BLOCK_SIZE > 0
  {
  }

  lemma NextChunk(d: Bytes, offset: nat, end: nat)
    requires offset < |d| && end == Min(offset + DATA_BLOCK_SIZE, |d|)
    ensures Chunks(d[offset..]) == [d[offset..end]] + Chunks(d[end..])
  {
    var rest := d[offset..];
    assert rest[..end - offset] == d[offset..end] && rest[end - offset..] == d[end..];
    assert |rest| <= DATA_BLOCK_SIZE ==> d[offset..end] == rest && d[end..] == [];
  }

  method ChunkFile(d: Bytes) returns (chunks: seq<Bytes>)
    ensures chunks == Chunks(d)
  {
    hide Chunks, DATA_BLOCK_SIZE;
    NoChunks();
    assert d[0..] == d && d[|d|..] == [];
    chunks := [];
    var offset := 0;
    while offset < |d|
      invariant 0 <= offset <= |d|
      invariant Chunks(d) == chunks + Chunks(d[offset..])
    {
      var end := Min(offset + DATA_BLOCK_SIZE, |d|);
      NextChunk(d, offset, end);
      chunks := chunks + [d[offset..end]];
      offset := end;
    }
  }

  method FlattenChunks(files: seq<(nat, Bytes)>) returns (all: seq<(nat, Bytes)>)
    ensures forall i :: 0 <= i < |files| ==> Select(all, i) == Chunks(files[i].1)
    ensures forall j :: 0 <= j < |all| ==> all[j].0 < |files|
  {
    hide Chunks, Select, Tagged;
    all := [];
    NothingSelected(files);
    for n := 0 to |files|
      invariant forall i :: 0 <= i < n ==> Select(all, i) == Chunks(files[i].1)
      invariant forall i :: n <= i < |files| ==> Select(all, i) == []
      invariant forall j :: 0 <= j < |all| ==> all[j].0 < |files|
    {
      var chunks := ChunkFile(files[n].1);
      ghost var before := all;
      all := all + Tagged(n, chunks);
      TagsAre(n, chunks);
      forall i | 0 <= i < |files| ensures Select(all, i) == Select(before, i) + if n == i then chunks else [] {
        SelectTagged(before, n, chunks, i);
      }
    }
  }

  lemma NothingSelected(files: seq<(nat, Bytes)>)
    ensures forall i: nat :: i < |files| ==> Select<Bytes>([], i) == []
  {
  }

  lemma TagsAre<T>(tag: nat, xs: seq<T>)
    ensures forall j :: 0 <= j < |xs| ==> Tagged(tag, xs)[j].0 == tag
  {
  }

  /** Compressing the flat list of all files' chunks and regrouping the results gives every
      file exactly the compression of its own chunks, in order. */
  method CompressFilesParallel(z: Zstd, files: seq<(nat, Bytes)>) returns (results: seq<CompressedFile>)
    ensures |results| == |files|
    ensures forall i :: 0 <= i < |files| ==>
      results[i] == CompressedFile(files[i].0, CompressChunks(z, Chunks(files[i].1)))
  {
    hide Chunks, CompressChunks, CompressChunk;
    var all := FlattenChunks(files);
    var compressed := CompressPairs(z, all);
    results := seq(|files|, i requires 0 <= i < |files| => CompressedFile(files[i].0, []));
    for n := 0 to |compressed|
      invariant |results| == |files|
      invariant forall i :: 0 <= i < |files| ==> results[i] == CompressedFile(files[i].0, Select(compressed[..n], i))
    {
      var (k, block) := compressed[n];
      assert compressed[..n + 1] == compressed[..n] + [compressed[n]];
      forall i | 0 <= i < |files|
        ensures Select(compressed[..n + 1], i) == Select(compressed[..n], i) + if k == i then [block] else []
      {
        SelectPush(compressed[..n], compressed[n], i);
      }
      results := results[k := results[k].(blocks := results[k].blocks + [block])];
    }
    assert compressed[..|compressed|] == compressed;
    forall i | 0 <= i < |files| ensures results[i].blocks == CompressChunks(z, Chunks(files[i].1)) {
      SelectCompressed(z, all, i);
    }
  }

  // ----- writing -----

  function Payload(b: CompressedBlock): Bytes {
    match b
    case Sparse => []
    case Compressed(d) => d
    case Uncompressed(d) => d
  }

  /** The u32 recorded for a block: 0 for a sparse one, bit 24 for an uncompressed one. */
  function StoredField(b: CompressedBlock): nat {
    match b
    case Sparse => 0
    case Compressed(d) => |d|
    case Uncompressed(d) => |d| + DATA_BLOCK_UNCOMPRESSED
  }

  /** A chunk of zeros is not stored. Any other is stored in its compressed form if that is
      shorter; if not, bit 24 of the size says so. */
  lemma ChunkForm(z: Zstd, c: Bytes)
    ensures var b, d := CompressChunk(z, c), z.compress(c);
            if forall i :: 0 <= i < |c| ==> c[i] == 0 then StoredField(b) == 0 && Payload(b) == []
            else if d.Some? && |d.value| < |c| then StoredField(b) == |d.value| && Payload(b) == d.value
            else StoredField(b) == 0x100_0000 + |c| && Payload(b) == c
  {
  }

  function BlocksBytes(bs: seq<CompressedBlock>): Bytes {
    if bs == [] then [] else Payload(bs[0]) + BlocksBytes(bs[1..])
  }

  function StoredFields(bs: seq<CompressedBlock>): (sizes: seq<nat>)
    ensures |sizes| == |bs|
  {
    seq(|bs|, i requires 0 <= i < |bs| => StoredField(bs[i]))
  }

  lemma {:induction false} BlocksPush(bs: seq<CompressedBlock>, b: CompressedBlock)
    ensures BlocksBytes(bs + [b]) == BlocksBytes(bs) + Payload(b)
  {
    hide Payload;
    if bs == [] {
      assert [b][1..] == [] && bs + [b] == [b];
    } else {
      assert (bs + [b])[1..] == bs[1..] + [b];
      BlocksPush(bs[1..], b);
    }
  }

  method WriteCompressedFile(file: CompressedFile, output: Output) returns (start: nat, sizes: seq<nat>)
    modifies output
    ensures start == |old(output.bytes)| && sizes == StoredFields(file.blocks)
    ensures output.bytes == old(output.bytes) + BlocksBytes(file.blocks)
  {
    hide BlocksBytes;
    start := |output.bytes|;
    sizes := [];
    var bs := file.blocks;
    assert BlocksBytes(bs[..0]) == [] by { NoBlocks(bs); }
    for n := 0 to |bs|
      invariant sizes == StoredFields(bs[..n])
      invariant output.bytes == old(output.bytes) + BlocksBytes(bs[..n])
    {
      assert bs[..n + 1] == bs[..n] + [bs[n]];
      BlocksPush(bs[..n], bs[n]);
      match bs[n] {
        case Sparse =>
          sizes := sizes + [0];
        case Compressed(d) =>
          output.WriteAll(d);
          sizes := sizes + [|d|];
        case Uncompressed(d) =>
          output.WriteAll(d);
          sizes := sizes + [|d| + DATA_BLOCK_UNCOMPRESSED];
      }
    }
    assert bs[..|bs|] == bs;
  }

  lemma NoBlocks(bs: seq<CompressedBlock>)
    ensures BlocksBytes(bs[..0]) == []
  {
  }

  // ----- reading -----

  function IsUncompressed(stored: nat): bool {
    stored / DATA_BLOCK_UNCOMPRESSED % 2 == 1
  }

  function StoredLength(stored: nat): nat {
    if IsUncompressed(stored) then stored - DATA_BLOCK_UNCOMPRESSED else stored
  }

  /** The reader's expansion of a file's blocks. A block of stored length 0 always expands to
      a whole block of zeros. */
  function ReadBlocks(z: Zstd, blockSize: nat, data: Bytes, sizes: seq<nat>, off: nat): Option<Bytes>
    decreases |sizes|
  {
    if sizes == [] then Some([])
    else
      match ReadBlock(z, blockSize, data, sizes[0], off)
      case None => None
      case Some(b) =>
        match ReadBlocks(z, blockSize, data, sizes[1..], off + StoredLength(sizes[0]))
        case None => None
        case Some(rest) => Some(b + rest)
  }

  function ReadBlock(z: Zstd, blockSize: nat, data: Bytes, stored: nat, off: nat): Option<Bytes> {
    var len := StoredLength(stored);
    if len == 0 then Some(Zeros(blockSize))
    else if off + len > |data| then None
    else if IsUncompressed(stored) then Some(data[off..off + len])
    else z.decompress(data[off..off + len], blockSize)
  }

  /** Bytes that blocks with these size fields take in the output. */
  function TotalLength(sizes: seq<nat>): nat {
    if sizes == [] then 0 else StoredLength(sizes[0]) + TotalLength(sizes[1..])
  }

  lemma PayloadLength(z: Zstd, c: Bytes)
    requires 0 < |c| <= DATA_BLOCK_SIZE
    ensures var stored := StoredField(CompressChunk(z, c));
            StoredLength(stored) == |Payload(CompressChunk(z, c))| && stored < 0x1_0000_0000
  {
    match CompressChunk(z, c)
    case Sparse =>
    case Compressed(d) => assert |d| / DATA_BLOCK_UNCOMPRESSED == 0;
    case Uncompressed(d) => assert (|d| + DATA_BLOCK_UNCOMPRESSED) / DATA_BLOCK_UNCOMPRESSED == 1;
  }

  lemma {:induction false} BlocksLength(z: Zstd, cs: seq<Bytes>)
    requires forall i :: 0 <= i < |cs| ==> 0 < |cs[i]| <= DATA_BLOCK_SIZE
    ensures TotalLength(StoredFields(CompressChunks(z, cs))) == |BlocksBytes(CompressChunks(z, cs))|
    decreases |cs|
  {
    hide CompressChunk, Payload, StoredField, StoredLength;
    var bs := CompressChunks(z, cs);
    if cs != [] {
      assert bs[1..] == CompressChunks(z, cs[1..]);
      assert StoredFields(bs)[1..] == StoredFields(bs[1..]);
      PayloadLength(z, cs[0]);
      BlocksLength(z, cs[1..]);
    }
  }

  /** What the reader makes of a chunk. */
  function Expanded(c: Bytes): Bytes {
    if AllZero(c) then Zeros(DATA_BLOCK_SIZE) else c
  }

  function ExpandedAll(cs: seq<Bytes>): Bytes {
    if cs == [] then [] else Expanded(cs[0]) + ExpandedAll(cs[1..])
  }

  lemma ChunkReads(z: Zstd, data: Bytes, off: nat, c: Bytes)
    requires Lossless(z) && 0 < |c| <= DATA_BLOCK_SIZE
    requires At(data, off, Payload(CompressChunk(z, c)))
    ensures var stored := StoredField(CompressChunk(z, c));
            && StoredLength(stored) == |Payload(CompressChunk(z, c))| && stored < 0x1_0000_0000
            && ReadBlock(z, DATA_BLOCK_SIZE, data, stored, off) == Some(Expanded(c))
  {
    match CompressChunk(z, c)
    case Sparse =>
    case Compressed(d) =>
      assert z.compress(c) == Some(d);
      assert d != [];
      assert |d| / DATA_BLOCK_UNCOMPRESSED == 0;
    case Uncompressed(d) =>
      assert (|d| + DATA_BLOCK_UNCOMPRESSED) / DATA_BLOCK_UNCOMPRESSED == 1;
  }

  lemma {:induction false} BlocksRead(z: Zstd, data: Bytes, off: nat, cs: seq<Bytes>)
    requires Lossless(z) && forall i :: 0 <= i < |cs| ==> 0 < |cs[i]| <= DATA_BLOCK_SIZE
    requires At(data, off, BlocksBytes(CompressChunks(z, cs)))
    ensures ReadBlocks(z, DATA_BLOCK_SIZE, data, StoredFields(CompressChunks(z, cs)), off) == Some(ExpandedAll(cs))
    ensures AllU32(StoredFields(CompressChunks(z, cs)))
    decreases |cs|
  {
    hide CompressChunk, Payload, StoredField, StoredLength, IsUncompressed, Expanded, Lossless, ReadBlock;
    var bs := CompressChunks(z, cs);
    if cs != [] {
      assert bs[1..] == CompressChunks(z, cs[1..]);
      AtSplit(data, off, Payload(bs[0]), BlocksBytes(bs[1..]));
      ChunkReads(z, data, off, cs[0]);
      BlocksRead(z, data, off + |Payload(bs[0])|, cs[1..]);
      assert StoredFields(bs)[1..] == StoredFields(bs[1..]);
      assert forall i :: 0 < i < |bs| ==> StoredFields(bs)[i] == StoredFields(bs[1..])[i - 1];
    }
  }

  /** A file with a short, all-zero last block after at least one full block. */
  predicate ShortZeroTail(d: Bytes) {
    |d| > DATA_BLOCK_SIZE && |d| % DATA_BLOCK_SIZE != 0 && AllZero(d[|d| - |d| % DATA_BLOCK_SIZE..])
  }

  /** Expansion restores exactly the file's bytes, unless a short all-zero tail was stored as
      sparse, in which case it comes out too long. */
  lemma {:induction false} ExpansionOfChunks(d: Bytes)
    requires |d| >= DATA_BLOCK_SIZE
    ensures !ShortZeroTail(d) ==> ExpandedAll(Chunks(d)) == d
    ensures ShortZeroTail(d) ==> |ExpandedAll(Chunks(d))| > |d|
    decreases |d|
  {
    var h, t := d[..DATA_BLOCK_SIZE], d[DATA_BLOCK_SIZE..];
    FullChunkExpands(h);
    if |d| == DATA_BLOCK_SIZE {
      assert d == h;
      OnlyChunk(d);
    } else {
      FirstChunk(d);
      hide AllZero, Chunks, ExpandedAll;
      assert d == h + t;
      if |t| >= DATA_BLOCK_SIZE {
        ExpansionOfChunks(t);
        assert |d| % DATA_BLOCK_SIZE == |t| % DATA_BLOCK_SIZE;
        assert d[|d| - |d| % DATA_BLOCK_SIZE..] == t[|t| - |t| % DATA_BLOCK_SIZE..];
        if |t| == DATA_BLOCK_SIZE { assert |t| % DATA_BLOCK_SIZE == 0; }
      } else {
        OnlyChunk(t);
        assert d[|d| - |d| % DATA_BLOCK_SIZE..] == t;
      }
    }
  }

  lemma OnlyChunk(d: Bytes)
    requires 0 < |d| <= DATA_BLOCK_SIZE
    ensures ExpandedAll(Chunks(d)) == Expanded(d)
  {
    hide Expanded;
    assert ExpandedAll([d]) == Expanded(d) + ExpandedAll([d][1..]);
  }

  lemma FirstChunk(d: Bytes)
    requires |d| > DATA_BLOCK_SIZE
    ensures ExpandedAll(Chunks(d)) == Expanded(d[..DATA_BLOCK_SIZE]) + ExpandedAll(Chunks(d[DATA_BLOCK_SIZE..]))
  {
    hide Expanded;
    assert Chunks(d)[1..] == Chunks(d[DATA_BLOCK_SIZE..]);
  }

  lemma FullChunkExpands(c: Bytes)
    requires |c| == DATA_BLOCK_SIZE
    ensures Expanded(c) == c
  {
    if AllZero(c) { assert Zeros(DATA_BLOCK_SIZE) == c; }
  }

  /** The number of chunks is the reader's block count. */
  lemma {:induction false} ChunkCount(d: Bytes)
    ensures |Chunks(d)| == CeilDiv(|d|, DATA_BLOCK_SIZE)
    decreases |d|
  {
    if |d| > DATA_BLOCK_SIZE {
      ChunkCount(d[DATA_BLOCK_SIZE..]);
      var t := |d| - DATA_BLOCK_SIZE;
      assert (t + DATA_BLOCK_SIZE - 1) / DATA_BLOCK_SIZE + 1 == (|d| + DATA_BLOCK_SIZE - 1) / DATA_BLOCK_SIZE;
    }
  }
}
