/** The streaming metadata reader. Its abstract state is a cursor, `consumed`, into the
    stream that starts at the image offset it was opened at. */
module MetaReader {
  import opened Bytes
  import opened Metadata

  class MetadataReader {
    const z: Zstd
    const data: Bytes
    var blockPos: nat
    var blockData: Bytes
    var offset: nat
    ghost const start: nat
    ghost var consumed: nat

    ghost function Stream(): Bytes {
      StreamFrom(z, data, start)
    }

    ghost predicate Valid()
      reads this
    {
      && offset <= |blockData|
      && consumed <= |Stream()|
      && blockData[offset..] + StreamFrom(z, data, blockPos) == Stream()[consumed..]
    }

    constructor (z: Zstd, data: Bytes, startOffset: nat)
      ensures Valid() && this.z == z && this.data == data && start == startOffset && consumed == 0
    {
      this.z, this.data, this.start := z, data, startOffset;
      blockPos, blockData, offset, consumed := startOffset, [], 0, 0;
    }

    /** Load the next block if the current one is used up. */
    method EnsureLoaded() returns (ok: bool)
      requires Valid()
      modifies this`blockPos, this`blockData, this`offset
      ensures Valid()
      ensures !ok ==> consumed == |Stream()|
      ensures ok && old(offset) < |old(blockData)| ==>
        blockPos == old(blockPos) && blockData == old(blockData) && offset == old(offset)
      ensures ok && old(offset) == |old(blockData)| ==> old(blockPos) < blockPos <= |data|
    {
      if offset < |blockData| {
        return true;
      }
      var block := ReadMetadataBlock(z, data, blockPos);
      if block.None? {
        return false;
      }
      blockData := block.value;
      blockPos := blockPos + 2 + StoredSize(data, blockPos);
      offset := 0;
      ok := true;
    }

    method Skip(n: nat) returns (ok: bool)
      requires Valid()
      modifies this
      ensures ok <==> old(consumed) + n <= |Stream()|
      ensures ok ==> Valid() && consumed == old(consumed) + n
    {
      hide StreamFrom, ReadMetadataBlock;
      var remaining := n;
      while remaining > 0
        invariant 0 <= remaining <= n && Valid()
        invariant consumed == old(consumed) + (n - remaining)
        decreases remaining, if blockPos <= |data| then |data| - blockPos + 1 else 0
      {
        ok := EnsureLoaded();
        if !ok {
          return;
        }
        var toSkip := Min(remaining, |blockData| - offset);
        var _ := TakeBytes(toSkip);
        remaining := remaining - toSkip;
      }
      ok := true;
    }

    /** Exactly the next `n` bytes of the stream, or failure if there are fewer. Terminates
        on every image, including one with empty stored blocks. */
    method ReadExact(n: nat) returns (r: Option<Bytes>)
      requires Valid()
      modifies this
      ensures r.Some? <==> old(consumed) + n <= |Stream()|
      ensures r.Some? ==> Valid() && consumed == old(consumed) + n
      ensures r.Some? ==> r.value == Stream()[old(consumed)..old(consumed) + n]
    {
      hide StreamFrom, ReadMetadataBlock;
      var buf: Bytes := [];
      while |buf| < n
        invariant |buf| <= n && Valid()
        invariant consumed == old(consumed) + |buf| && buf == Stream()[old(consumed)..consumed]
        decreases n - |buf|, if blockPos <= |data| then |data| - blockPos + 1 else 0
      {
        var ok := EnsureLoaded();
        if !ok {
          return None;
        }
        var take := Min(n - |buf|, |blockData| - offset);
        var piece := TakeBytes(take);
        buf := buf + piece;
      }
      r := Some(buf);
    }

    method TakeBytes(take: nat) returns (piece: Bytes)
      requires Valid() && offset + take <= |blockData|
      modifies this`offset, this`consumed
      ensures Valid() && consumed == old(consumed) + take && offset == old(offset) + take
      ensures piece == Stream()[old(consumed)..consumed]
    {
      hide StreamFrom;
      ghost var s := Stream()[consumed..];
      piece := blockData[offset..offset + take];
      assert s[..take] == piece;
      assert s[take..] == Stream()[consumed + take..];
      assert blockData[offset + take..] == blockData[offset..][take..];
      offset := offset + take;
      consumed := consumed + take;
    }

    method ReadU16() returns (r: Option<nat>)
      requires Valid()
      modifies this
      ensures r.Some? <==> old(consumed) + 2 <= |Stream()|
      ensures r.Some? ==> Valid() && consumed == old(consumed) + 2
      ensures r.Some? ==> r.value == U16At(Stream(), old(consumed))
    {
      hide StreamFrom;
      var buf := ReadExact(2);
      if buf.None? { return None; }
      r := Some(U16At(buf.value, 0));
    }

    method ReadU32() returns (r: Option<nat>)
      requires Valid()
      modifies this
      ensures r.Some? <==> old(consumed) + 4 <= |Stream()|
      ensures r.Some? ==> Valid() && consumed == old(consumed) + 4
      ensures r.Some? ==> r.value == U32At(Stream(), old(consumed))
    {
      hide StreamFrom;
      var buf := ReadExact(4);
      if buf.None? { return None; }
      r := Some(U32At(buf.value, 0));
    }

    method ReadU64() returns (r: Option<nat>)
      requires Valid()
      modifies this
      ensures r.Some? <==> old(consumed) + 8 <= |Stream()|
      ensures r.Some? ==> Valid() && consumed == old(consumed) + 8
      ensures r.Some? ==> r.value == U64At(Stream(), old(consumed))
    {
      hide StreamFrom;
      var buf := ReadExact(8);
      if buf.None? { return None; }
      r := Some(U64At(buf.value, 0));
    }
  }
}
