/** Two-level lookup tables: metadata blocks of fixed-size entries, then the u64 offsets of
    those blocks. */
module Lookup {
  import opened Bytes
  import opened Metadata
  import opened Writer
  import opened Inodes

  /** Offsets of the stored blocks of `s` when its encoding starts at `base`. */
  function BlockOffsets(z: Zstd, s: Bytes, base: nat): (offs: seq<nat>)
    decreases |s|
  {
    if s == [] then []
    else if |s| <= METADATA_BLOCK_SIZE then [base]
    else [base] + BlockOffsets(z, s[METADATA_BLOCK_SIZE..], base + |MetaBlock(z, s[..METADATA_BLOCK_SIZE])|)
  }

  function LE64s(xs: seq<nat>): (s: Bytes)
    ensures |s| == 8 * |xs|
  {
    if xs == [] then [] else LE64(xs[0]) + LE64s(xs[1..])
  }

  /** Append the entries as metadata blocks, then the table of their offsets. */
  method WriteLookupTable(z: Zstd, entryBytes: Bytes, output: Output) returns (tableStart: nat)
    modifies output
    ensures tableStart == |old(output.bytes)| + |Encode(z, entryBytes)|
    ensures output.bytes == old(output.bytes) + Encode(z, entryBytes)
                            + LE64s(BlockOffsets(z, entryBytes, |old(output.bytes)|))
  {
    hide MetaBlock, LE64s, Encode, BlockOffsets;
    ghost var out := output.bytes;
    EmptyTable(z, |out|);
    if entryBytes == [] {
      assert out + [] + [] == out;
      return |output.bytes|;
    }
    var offsets: seq<nat> := [];
    var pos := 0;
    assert entryBytes[0..] == entryBytes;
    while pos < |entryBytes|
      invariant 0 <= pos <= |entryBytes|
      invariant |out| <= |output.bytes|
      invariant out + Encode(z, entryBytes) == output.bytes + Encode(z, entryBytes[pos..])
      invariant BlockOffsets(z, entryBytes, |out|) == offsets + BlockOffsets(z, entryBytes[pos..], |output.bytes|)
    {
      var end := Min(pos + METADATA_BLOCK_SIZE, |entryBytes|);
      var chunk := entryBytes[pos..end];
      FirstBlock(z, entryBytes, pos, end, |output.bytes|);
      ghost var next := |output.bytes| + |MetaBlock(z, chunk)|;
      ghost var here, rest, tail := [|output.bytes|], BlockOffsets(z, entryBytes[end..], next),
                                    Encode(z, entryBytes[end..]);
      assert offsets + (here + rest) == (offsets + here) + rest;
      assert output.bytes + (MetaBlock(z, chunk) + tail) == (output.bytes + MetaBlock(z, chunk)) + tail;
      offsets := offsets + [|output.bytes|];
      output.WriteAll(MetaBlock(z, chunk));
      pos := end;
    }
    assert entryBytes[pos..] == [];
    EmptyTable(z, |output.bytes|);
    assert offsets + [] == offsets;
    assert output.bytes == out + Encode(z, entryBytes);
    tableStart := |output.bytes|;
    WriteOffsets(offsets, output);
  }

  lemma EmptyTable(z: Zstd, base: nat)
    ensures LE64s([]) == [] && Encode(z, []) == [] && BlockOffsets(z, [], base) == []
  {
  }

  lemma FirstBlock(z: Zstd, s: Bytes, pos: nat, end: nat, base: nat)
    requires pos < |s| && end == Min(pos + METADATA_BLOCK_SIZE, |s|)
    ensures Encode(z, s[pos..]) == MetaBlock(z, s[pos..end]) + Encode(z, s[end..])
    ensures BlockOffsets(z, s[pos..], base) == [base] + BlockOffsets(z, s[end..], base + |MetaBlock(z, s[pos..end])|)
  {
    hide MetaBlock;
    var r := s[pos..];
    assert r[..end - pos] == s[pos..end] && r[end - pos..] == s[end..];
    if |r| <= METADATA_BLOCK_SIZE {
      assert s[pos..end] == r && s[end..] == [];
    }
  }

  method WriteOffsets(offsets: seq<nat>, output: Output)
    modifies output
    ensures output.bytes == old(output.bytes) + LE64s(offsets)
  {
    hide LE64;
    assert offsets[0..] == offsets;
    for n := 0 to |offsets|
      invariant old(output.bytes) + LE64s(offsets) == output.bytes + LE64s(offsets[n..])
    {
      assert offsets[n..][1..] == offsets[n + 1..];
      output.WriteAll(LE64(offsets[n]));
    }
  }

  // ----- reading -----

  /** The blocks at `count` consecutive u64 offsets stored from `pos` on, concatenated. */
  function ReadBlocksAt(z: Zstd, data: Bytes, pos: nat, count: nat): Option<Bytes>
    decreases count
  {
    if count == 0 then Some([])
    else if pos + 8 > |data| then None
    else
      match ReadMetadataBlock(z, data, U64At(data, pos))
      case None => None
      case Some(block) =>
        match ReadBlocksAt(z, data, pos + 8, count - 1)
        case None => None
        case Some(rest) => Some(block + rest)
  }

  function ReadLookupTable(z: Zstd, data: Bytes, tableStart: nat, entryCount: nat, entrySize: nat): Option<Bytes>
    requires 0 < entrySize <= METADATA_BLOCK_SIZE
  {
    if entryCount == 0 then Some([])
    else
      match ReadBlocksAt(z, data, tableStart, CeilDiv(entryCount, METADATA_BLOCK_SIZE / entrySize))
      case None => None
      case Some(s) => Some(if |s| > entryCount * entrySize then s[..entryCount * entrySize] else s)
  }

  lemma {:induction false} BlocksAtRead(z: Zstd, data: Bytes, pos: nat, s: Bytes, base: nat)
    requires Lossless(z) && At(data, base, Encode(z, s)) && |data| < 0x1_0000_0000_0000_0000
    requires At(data, pos, LE64s(BlockOffsets(z, s, base)))
    ensures |BlockOffsets(z, s, base)| == CeilDiv(|s|, METADATA_BLOCK_SIZE)
    ensures ReadBlocksAt(z, data, pos, |BlockOffsets(z, s, base)|) == Some(s)
    decreases |s|
  {
    hide MetaBlock, ReadMetadataBlock, Lossless, LE64, U64At, At, Encode, BlockOffsets;
    EmptyTable(z, base);
    if s != [] {
      var end := Min(METADATA_BLOCK_SIZE, |s|);
      FirstBlock(z, s, 0, end, base);
      assert s[0..] == s && s == s[0..end] + s[end..];
      var t := s[end..];
      var base' := base + |MetaBlock(z, s[0..end])|;
      AtSplit(data, base, MetaBlock(z, s[0..end]), Encode(z, t));
      var rest := BlockOffsets(z, t, base');
      assert ([base] + rest)[1..] == rest;
      Take64(data, pos, base, LE64s(rest));
      MetaBlockReads(z, data, base, s[0..end]);
      BlocksAtRead(z, data, pos + 8, t, base');
      assert CeilDiv(|s|, METADATA_BLOCK_SIZE) == 1 + CeilDiv(|t|, METADATA_BLOCK_SIZE);
    }
  }

  /** Entry sizes that divide the metadata block size make the writer's chunking and the
      reader's block count agree. */
  lemma BlockCountAgrees(count: nat, entrySize: nat)
    requires entrySize == 4 || entrySize == 8 || entrySize == 16
    ensures CeilDiv(count, METADATA_BLOCK_SIZE / entrySize) == CeilDiv(count * entrySize, METADATA_BLOCK_SIZE)
  {
  }

  /** A table reads back byte for byte, so entry for entry. */
  lemma LookupRoundTrip(z: Zstd, data: Bytes, base: nat, s: Bytes, count: nat, entrySize: nat)
    requires Lossless(z) && |data| < 0x1_0000_0000_0000_0000
    requires (entrySize == 4 || entrySize == 8 || entrySize == 16) && |s| == count * entrySize
    requires At(data, base, Encode(z, s) + LE64s(BlockOffsets(z, s, base)))
    ensures ReadLookupTable(z, data, base + |Encode(z, s)|, count, entrySize) == Some(s)
  {
    hide Encode, LE64s, ReadBlocksAt, BlockOffsets, Lossless, At;
    AtSplit(data, base, Encode(z, s), LE64s(BlockOffsets(z, s, base)));
    BlocksAtRead(z, data, base + |Encode(z, s)|, s, base);
    BlockCountAgrees(count, entrySize);
    if count == 0 { assert s == []; }
  }
}
