/** The output file and the streaming metadata writer. */
module Writer {
  import opened Bytes
  import opened Metadata

  /** The image under construction: append-only, except for the final superblock rewrite. */
  class Output {
    var bytes: Bytes

    constructor ()
      ensures bytes == []
    {
      bytes := [];
    }

    method WriteAll(data: Bytes)
      modifies this
      ensures bytes == old(bytes) + data
    {
      bytes := bytes + data;
    }

    /** Seek to the start and write over the first |data| bytes. */
    method OverwriteStart(data: Bytes)
      requires |data| <= |bytes|
      modifies this
      ensures bytes == data + old(bytes)[|data|..]
    {
      bytes := data + bytes[|data|..];
    }
  }

  /** Accumulates a metadata stream and stores it in 8 KiB blocks. `stream` is every byte
      written so far; `Valid` says that the finished blocks are exactly the encoding of all
      of it except the bytes still in `buf`. */
  class MetadataWriter {
    const z: Zstd
    var buf: Bytes
    var blocks: seq<Bytes>
    var blocksByteLen: nat
    ghost var stream: Bytes

    ghost predicate Valid()
      reads this
    {
      && |buf| < METADATA_BLOCK_SIZE
      && Consistent()
    }

    ghost predicate Consistent()
      reads this
    {
      && |buf| <= |stream|
      && (|stream| - |buf|) % METADATA_BLOCK_SIZE == 0
      && buf == stream[|stream| - |buf|..]
      && Flatten(blocks) == Encode(z, stream[..|stream| - |buf|])
      && blocksByteLen == |Flatten(blocks)|
    }

    constructor (z: Zstd)
      ensures Valid() && this.z == z && stream == []
    {
      this.z := z;
      buf, blocks, blocksByteLen := [], [], 0;
      stream := [];
    }

    /** The position is that of the end of the stream: stored block offset, offset within. */
    method Position() returns (blk: nat, off: nat)
      requires Valid()
      ensures blk == BlockStart(z, stream, |stream|)
      ensures off == |stream| % METADATA_BLOCK_SIZE
    {
      hide Encode, Flatten;
      blk, off := blocksByteLen, |buf| % 0x1_0000;
    }

    method Write(data: Bytes)
      requires Valid()
      modifies this
      ensures Valid() && stream == old(stream) + data
    {
      hide Encode, Flatten;
      var offset := 0;
      while offset < |data|
        invariant offset <= |data|
        invariant Valid()
        invariant stream == old(stream) + data[..offset]
      {
        var toCopy := Min(METADATA_BLOCK_SIZE - |buf|, |data| - offset);
        var piece := data[offset..offset + toCopy];
        Append(piece);
        assert data[..offset] + piece == data[..offset + toCopy];
        offset := offset + toCopy;
        if |buf| == METADATA_BLOCK_SIZE {
          FlushBlockInternal();
        }
      }
      assert data[..offset] == data;
    }

    method Append(piece: Bytes)
      requires Valid() && |buf| + |piece| <= METADATA_BLOCK_SIZE
      modifies this`buf, this`stream
      ensures Consistent() && stream == old(stream) + piece && |buf| == |old(buf)| + |piece|
    {
      hide Encode, Flatten;
      ghost var k := |stream| - |buf|;
      assert (stream + piece)[..k] == stream[..k];
      assert (stream + piece)[k..] == stream[k..] + piece;
      buf := buf + piece;
      stream := stream + piece;
    }

    method FlushBlockInternal()
      requires Consistent() && |buf| <= METADATA_BLOCK_SIZE
      modifies this`buf, this`blocks, this`blocksByteLen
      ensures buf == [] && stream == old(stream)
      ensures Flatten(blocks) == Encode(z, stream) && blocksByteLen == |Flatten(blocks)|
      ensures |old(buf)| == METADATA_BLOCK_SIZE ==> Valid()
    {
      hide MetaBlock;
      ghost var k := |stream| - |buf|;
      assert stream == stream[..k] + stream[k..];
      if buf == [] {
        assert stream[..k] == stream;
        return;
      }
      var raw := buf;
      var block := MetaBlock(z, raw);
      EncodeAppend(z, stream[..k], stream[k..]);
      FlattenPush(blocks, block);
      blocksByteLen := blocksByteLen + |block|;
      blocks := blocks + [block];
      buf := [];
      assert stream[..|stream|] == stream;
    }

    /** Flush what remains and append the whole table to the output. */
    method Finish(output: Output) returns (start: nat)
      requires Valid()
      modifies this, output
      ensures start == |old(output.bytes)|
      ensures output.bytes == old(output.bytes) + Encode(z, old(stream))
    {
      hide Encode, Flatten;
      FlushBlockInternal();
      start := |output.bytes|;
      WriteBlocks(blocks, output);
      blocks := [];
      blocksByteLen := 0;
    }
  }

  method WriteBlocks(parts: seq<Bytes>, output: Output)
    modifies output
    ensures output.bytes == old(output.bytes) + Flatten(parts)
  {
    var i := 0;
    while i < |parts|
      invariant i <= |parts|
      invariant output.bytes == old(output.bytes) + Flatten(parts[..i])
    {
      FlattenPush(parts[..i], parts[i]);
      assert parts[..i + 1] == parts[..i] + [parts[i]];
      output.WriteAll(parts[i]);
      i := i + 1;
    }
    assert parts[..i] == parts;
  }
}
