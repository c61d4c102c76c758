/** Metadata blocks (at most 8 KiB each) and the byte stream they carry: the block codec,
    the stream a reader sees from any image offset, and positions inside a table. */
module Metadata {
  import opened Bytes

  const METADATA_BLOCK_SIZE: nat := 8192
  const META_BLOCK_UNCOMPRESSED: nat := 0x8000

  /** zstd as the code uses it: `compress` may fail, `decompress` takes the output capacity. */
  datatype Zstd = Zstd(compress: Bytes -> Option<Bytes>, decompress: (Bytes, nat) -> Option<Bytes>)

  /** All that is assumed of zstd. */
  ghost predicate Lossless(z: Zstd) {
    forall x: Bytes :: z.compress(x).Some? ==>
      && (x != [] ==> z.compress(x).value != [])
      && forall cap: nat :: |x| <= cap ==> z.decompress(z.compress(x).value, cap) == Some(x)
  }

  /** The compressed form, if it is strictly shorter. */
  function ZstdCompress(z: Zstd, data: Bytes): (r: Option<Bytes>)
    ensures r.Some? ==> |r.value| < |data|
  {
    match z.compress(data)
    case Some(c) => if |c| < |data| then Some(c) else None
    case None => None
  }

  /** One stored metadata block: a u16 header, then the payload. */
  function MetaBlock(z: Zstd, raw: Bytes): (b: Bytes)
    requires |raw| <= METADATA_BLOCK_SIZE
    ensures |b| >= 2
  {
    match ZstdCompress(z, raw)
    case Some(c) => LE16(|c|) + c
    case None => LE16(|raw| + META_BLOCK_UNCOMPRESSED) + raw
  }

  function StoredSize(data: Bytes, off: nat): (n: nat)
    requires off + 2 <= |data|
  {
    U16At(data, off) % META_BLOCK_UNCOMPRESSED
  }

  function ReadMetadataBlock(z: Zstd, data: Bytes, off: nat): (r: Option<Bytes>)
    ensures r.Some? ==> off + 2 <= |data| && off + 2 + StoredSize(data, off) <= |data|
  {
    if off + 2 > |data| || off + 2 + StoredSize(data, off) > |data| then None
    else
      var block := data[off + 2..off + 2 + StoredSize(data, off)];
      if U16At(data, off) >= META_BLOCK_UNCOMPRESSED then Some(block)
      else z.decompress(block, METADATA_BLOCK_SIZE)
  }

  lemma MetaBlockReads(z: Zstd, data: Bytes, off: nat, raw: Bytes)
    requires Lossless(z) && |raw| <= METADATA_BLOCK_SIZE
    requires At(data, off, MetaBlock(z, raw))
    ensures ReadMetadataBlock(z, data, off) == Some(raw)
    ensures |MetaBlock(z, raw)| == 2 + StoredSize(data, off)
  {
    hide LE16, ReadMetadataBlock, StoredSize, Lossless;
    match ZstdCompress(z, raw)
    case Some(c) =>
      Decompresses(z, raw, c);
      CompressedReads(z, data, off, raw, c);
    case None =>
      UncompressedReads(z, data, off, raw);
  }

  /** The header of a stored block is the length of the compressed form that follows, if that is
      shorter; else bit 15 and the length of the block itself. */
  lemma MetaBlockForm(z: Zstd, data: Bytes, off: nat, raw: Bytes)
    requires |raw| <= METADATA_BLOCK_SIZE && At(data, off, MetaBlock(z, raw))
    ensures off + 2 <= |data|
    ensures var c := z.compress(raw);
            if c.Some? && |c.value| < |raw| then U16At(data, off) == |c.value| && At(data, off + 2, c.value)
            else U16At(data, off) == 0x8000 + |raw| && At(data, off + 2, raw)
  {
    hide LE16, U16At, At;
    match ZstdCompress(z, raw)
    case Some(c) => Take16(data, off, |c|, c);
    case None => Take16(data, off, |raw| + META_BLOCK_UNCOMPRESSED, raw);
  }

  lemma Decompresses(z: Zstd, raw: Bytes, c: Bytes)
    requires Lossless(z) && |raw| <= METADATA_BLOCK_SIZE && ZstdCompress(z, raw) == Some(c)
    ensures z.decompress(c, METADATA_BLOCK_SIZE) == Some(raw) && |c| < META_BLOCK_UNCOMPRESSED
  {
    assert z.compress(raw) == Some(c);
  }

  lemma CompressedReads(z: Zstd, data: Bytes, off: nat, raw: Bytes, c: Bytes)
    requires |c| < META_BLOCK_UNCOMPRESSED && z.decompress(c, METADATA_BLOCK_SIZE) == Some(raw)
    requires At(data, off, LE16(|c|) + c)
    ensures ReadMetadataBlock(z, data, off) == Some(raw) && StoredSize(data, off) == |c|
  {
    hide LE16, U16At;
    Take16(data, off, |c|, c);
  }

  lemma UncompressedReads(z: Zstd, data: Bytes, off: nat, raw: Bytes)
    requires |raw| <= METADATA_BLOCK_SIZE && At(data, off, LE16(|raw| + META_BLOCK_UNCOMPRESSED) + raw)
    ensures ReadMetadataBlock(z, data, off) == Some(raw) && StoredSize(data, off) == |raw|
  {
    hide LE16, U16At;
    Take16(data, off, |raw| + META_BLOCK_UNCOMPRESSED, raw);
  }

  /** Everything a streaming reader can obtain from `pos` on: blocks are chained until one
      cannot be read. Defined for every image. */
  function StreamFrom(z: Zstd, data: Bytes, pos: nat): Bytes
    decreases if pos <= |data| then |data| - pos else 0
  {
    match ReadMetadataBlock(z, data, pos)
    case None => []
    case Some(raw) => raw + StreamFrom(z, data, pos + 2 + StoredSize(data, pos))
  }

  /** A stream cut into 8 KiB blocks and stored block after block. */
  function Encode(z: Zstd, s: Bytes): Bytes {
    if |s| == 0 then []
    else if |s| <= METADATA_BLOCK_SIZE then MetaBlock(z, s)
    else MetaBlock(z, s[..METADATA_BLOCK_SIZE]) + Encode(z, s[METADATA_BLOCK_SIZE..])
  }

  lemma {:induction false} EncodeAppend(z: Zstd, a: Bytes, b: Bytes)
    requires |a| % METADATA_BLOCK_SIZE == 0
    ensures Encode(z, a + b) == Encode(z, a) + Encode(z, b)
    decreases |a|
  {
    hide MetaBlock;
    if a == [] {
      assert a + b == b;
    } else if b == [] {
      assert a + b == a;
    } else {
      var h, t := a[..METADATA_BLOCK_SIZE], a[METADATA_BLOCK_SIZE..];
      assert (a + b)[..METADATA_BLOCK_SIZE] == h && (a + b)[METADATA_BLOCK_SIZE..] == t + b;
      EncodeAppend(z, t, b);
      assert t == [] ==> a == h;
    }
  }

  lemma {:induction false} EncodedStreamReads(z: Zstd, data: Bytes, pos: nat, s: Bytes)
    requires Lossless(z) && At(data, pos, Encode(z, s))
    ensures s <= StreamFrom(z, data, pos)
    decreases |s|
  {
    hide MetaBlock, ReadMetadataBlock, Lossless;
    if |s| == 0 {
    } else if |s| <= METADATA_BLOCK_SIZE {
      MetaBlockReads(z, data, pos, s);
    } else {
      var h, t := s[..METADATA_BLOCK_SIZE], s[METADATA_BLOCK_SIZE..];
      AtSplit(data, pos, MetaBlock(z, h), Encode(z, t));
      MetaBlockReads(z, data, pos, h);
      EncodedStreamReads(z, data, pos + |MetaBlock(z, h)|, t);
      assert s == h + t;
    }
  }

  /** Start of the 8 KiB block holding stream offset `n`. */
  function BlockBase(n: nat): (m: nat)
    ensures m <= n < m + METADATA_BLOCK_SIZE && m % METADATA_BLOCK_SIZE == 0
    ensures n - m == n % METADATA_BLOCK_SIZE
  {
    n / METADATA_BLOCK_SIZE * METADATA_BLOCK_SIZE
  }

  /** Where, in the stored table, the block holding stream offset `n` begins. */
  function BlockStart(z: Zstd, s: Bytes, n: nat): nat
    requires n <= |s|
  {
    |Encode(z, s[..BlockBase(n)])|
  }

  /** The packed reference of stream offset `n`: stored block offset and offset within it. */
  function RefAt(z: Zstd, s: Bytes, n: nat): (r: nat)
    requires n <= |s|
    ensures r / 0x1_0000 == BlockStart(z, s, n)
    ensures r % 0x1_0000 == n % METADATA_BLOCK_SIZE
  {
    BlockStart(z, s, n) * 0x1_0000 + n % METADATA_BLOCK_SIZE
  }

  /** A position captured while the stream was `s` is still right once `t` has followed. */
  lemma RefStable(z: Zstd, s: Bytes, t: Bytes, n: nat)
    requires n <= |s|
    ensures RefAt(z, s + t, n) == RefAt(z, s, n) && BlockStart(z, s + t, n) == BlockStart(z, s, n)
  {
    hide Encode, BlockBase;
    assert (s + t)[..BlockBase(n)] == s[..BlockBase(n)];
  }

  lemma {:induction false} EncodeNonEmpty(z: Zstd, s: Bytes)
    requires s != []
    ensures Encode(z, s) != []
  {
  }

  /** References order stream offsets strictly. */
  lemma RefMonotone(z: Zstd, s: Bytes, n: nat, n': nat)
    requires n < n' <= |s|
    ensures RefAt(z, s, n) < RefAt(z, s, n')
  {
    hide Encode;
    var m, m' := BlockBase(n), BlockBase(n');
    if m == m' {
    } else {
      assert m < m';
      assert s[..m'] == s[..m] + s[m..m'];
      EncodeAppend(z, s[..m], s[m..m']);
      EncodeNonEmpty(z, s[m..m']);
    }
  }

  /** The refinement between the two halves: bytes written at stream offset `n` are what a
      reader finds after seeking to the block of `n` and skipping `n % 8192` bytes. */
  lemma StreamAtPosition(z: Zstd, data: Bytes, base: nat, s: Bytes, n: nat, e: Bytes)
    requires Lossless(z) && At(data, base, Encode(z, s)) && At(s, n, e)
    ensures At(StreamFrom(z, data, base + BlockStart(z, s, n)), n % METADATA_BLOCK_SIZE, e)
  {
    hide Encode, StreamFrom, Lossless;
    var m := BlockBase(n);
    assert s == s[..m] + s[m..];
    EncodeAppend(z, s[..m], s[m..]);
    AtSplit(data, base, Encode(z, s[..m]), Encode(z, s[m..]));
    EncodedStreamReads(z, data, base + BlockStart(z, s, n), s[m..]);
    AtSuffix(s, m, n, e);
    AtPrefix(s[m..], StreamFrom(z, data, base + BlockStart(z, s, n)), n - m, e);
  }

  lemma BlockStartBound(z: Zstd, s: Bytes, n: nat)
    requires n <= |s|
    ensures BlockStart(z, s, n) <= |Encode(z, s)|
  {
    hide Encode;
    var m := BlockBase(n);
    assert s == s[..m] + s[m..];
    EncodeAppend(z, s[..m], s[m..]);
  }
}
