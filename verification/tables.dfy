/** The fragment, export and ID tables: their entries on disk, and reading them back. */
module Tables {
  import opened Bytes
  import opened Metadata
  import opened Writer
  import opened Inodes
  import opened Fragments
  import opened Lookup
  import opened SuperblockFormat
  import opened Reader

  function FragmentEntryBytes(e: FragmentEntry): (s: Bytes)
    ensures |s| == FRAGMENT_ENTRY_SIZE
  {
    LE64(e.start) + (LE32(e.size) + (LE32(0) + []))
  }

  function FragmentEntriesBytes(es: seq<FragmentEntry>): (s: Bytes)
    ensures |s| == FRAGMENT_ENTRY_SIZE * |es|
  {
    if es == [] then [] else FragmentEntryBytes(es[0]) + FragmentEntriesBytes(es[1..])
  }

  /** A lookup table holding `s` lies at `base` of the image, its offset table at `start`. */
  ghost predicate TableAt(z: Zstd, data: Bytes, base: nat, s: Bytes, start: nat) {
    && At(data, base, Encode(z, s) + LE64s(BlockOffsets(z, s, base)))
    && start == base + |Encode(z, s)|
  }

  ghost predicate AllNarrow(es: seq<FragmentEntry>) {
    forall i :: 0 <= i < |es| ==> es[i].start < 0x1_0000_0000_0000_0000 && es[i].size < 0x1_0000_0000
  }

  lemma {:induction false} FragmentEntriesRead(s: Bytes, n: nat, es: seq<FragmentEntry>)
    requires At(s, n, FragmentEntriesBytes(es)) && AllNarrow(es)
    ensures n + 16 * |es| <= |s|
    ensures forall i :: 0 <= i < |es| ==> U64At(s, n + 16 * i) == es[i].start && U32At(s, n + 16 * i + 8) == es[i].size
    decreases |es|
  {
    hide U64At, U32At, LE64, LE32;
    if es != [] {
      var rest := FragmentEntriesBytes(es[1..]);
      AtSplit(s, n, FragmentEntryBytes(es[0]), rest);
      Take64(s, n, es[0].start, LE32(es[0].size) + (LE32(0) + []));
      Take32(s, n + 8, es[0].size, LE32(0) + []);
      FragmentEntriesRead(s, n + 16, es[1..]);
      forall i | 0 <= i < |es|
        ensures U64At(s, n + 16 * i) == es[i].start && U32At(s, n + 16 * i + 8) == es[i].size
      {
        if i > 0 {
          var k := n + 16 + 16 * (i - 1);
          assert k == n + 16 * i && es[1..][i - 1] == es[i];
          assert U64At(s, k) == es[i].start && U32At(s, k + 8) == es[i].size;
        }
      }
    }
  }

  lemma FragmentTableReads(z: Zstd, data: Bytes, base: nat, es: seq<FragmentEntry>, sb: Superblock)
    requires Lossless(z) && |data| < 0x1_0000_0000_0000_0000 && AllNarrow(es)
    requires TableAt(z, data, base, FragmentEntriesBytes(es), sb.fragmentTableStart) && sb.fragmentEntryCount == |es|
    ensures ReadFragmentTable(z, data, sb) == Some(es)
  {
    hide Lossless, Encode, LE64s, BlockOffsets, ReadLookupTable, FragmentEntriesBytes, U64At, U32At;
    var s := FragmentEntriesBytes(es);
    LookupRoundTrip(z, data, base, s, |es|, FRAGMENT_ENTRY_SIZE);
    if es != [] {
      BlockOffsetsCount(z, s, base);
      AtRoom(data, base, Encode(z, s) + LE64s(BlockOffsets(z, s, base)));
      hide At, TableAt;
      EntriesDecode(s, es);
      assert ReadFragmentTable(z, data, sb).value == es;
    }
  }

  lemma EntriesDecode(s: Bytes, es: seq<FragmentEntry>)
    requires s == FragmentEntriesBytes(es) && AllNarrow(es) && |s| == FRAGMENT_ENTRY_SIZE * |es|
    ensures |s| / FRAGMENT_ENTRY_SIZE == |es|
    ensures forall i :: 0 <= i < |es| ==>
      es[i] == FragmentEntry(U64At(s, FRAGMENT_ENTRY_SIZE * i), U32At(s, FRAGMENT_ENTRY_SIZE * i + 8))
  {
    hide U64At, U32At, At, FragmentEntriesBytes;
    WholeTable(s);
    FragmentEntriesRead(s, 0, es);
    forall i | 0 <= i < |es|
      ensures es[i] == FragmentEntry(U64At(s, FRAGMENT_ENTRY_SIZE * i), U32At(s, FRAGMENT_ENTRY_SIZE * i + 8))
    {
      assert U64At(s, 0 + 16 * i) == es[i].start && U32At(s, 0 + 16 * i + 8) == es[i].size;
    }
  }

  lemma WholeTable(s: Bytes)
    ensures At(s, 0, s)
  {
  }

  lemma AtRoom(s: Bytes, n: nat, e: Bytes)
    requires At(s, n, e)
    ensures n + |e| <= |s|
  {
  }

  lemma BlockOffsetsCount(z: Zstd, s: Bytes, base: nat)
    requires s != []
    ensures |BlockOffsets(z, s, base)| > 0
  {
    hide MetaBlock;
  }

  lemma IdTableReads(z: Zstd, data: Bytes, base: nat, sb: Superblock)
    requires Lossless(z) && |data| < 0x1_0000_0000_0000_0000
    requires TableAt(z, data, base, LE32s([0]), sb.idTableStart) && sb.idCount == 1
    ensures ReadIdTable(z, data, sb) == Some([0])
  {
    hide Lossless, Encode, LE64s, BlockOffsets, ReadLookupTable, LE32, U32At;
    var s := LE32s([0]);
    LookupRoundTrip(z, data, base, s, 1, ID_SIZE);
    LE32sRead(s, 0, [0]);
    assert U32sAt(s, 0, 1)[0] == U32At(s, 0) == 0;
    assert ReadIdTable(z, data, sb).value == [0];
  }

  lemma {:induction false} LE64sRead(s: Bytes, n: nat, xs: seq<nat>)
    requires At(s, n, LE64s(xs)) && forall i :: 0 <= i < |xs| ==> xs[i] < 0x1_0000_0000_0000_0000
    ensures n + 8 * |xs| <= |s| && forall i :: 0 <= i < |xs| ==> U64At(s, n + 8 * i) == xs[i]
    decreases |xs|
  {
    hide U64At, LE64;
    if xs != [] {
      Take64(s, n, xs[0], LE64s(xs[1..]));
      LE64sRead(s, n + 8, xs[1..]);
      forall i | 0 <= i < |xs| ensures U64At(s, n + 8 * i) == xs[i] {
        if i > 0 { assert n + 8 + 8 * (i - 1) == n + 8 * i; }
      }
    }
  }

  /** The number of 8 KiB blocks. */
  function BlocksOf(size: nat): nat {
    (size + 8191) / 8192
  }

  lemma OneBlock()
    ensures BlocksOf(4) == 1
  {
  }

  lemma {:induction false} CountBlocks(z: Zstd, s: Bytes, base: nat)
    ensures |BlockOffsets(z, s, base)| == BlocksOf(|s|)
    decreases |s|
  {
    hide MetaBlock;
    if |s| > METADATA_BLOCK_SIZE {
      CountBlocks(z, s[METADATA_BLOCK_SIZE..], base + |MetaBlock(z, s[..METADATA_BLOCK_SIZE])|);
    }
  }

  /** Append the three tables. */
  method WriteLookupTables(z: Zstd, entries: seq<FragmentEntry>, exportRefs: seq<nat>, output: Output)
    returns (fragmentStart: nat, exportStart: nat, idStart: nat, ghost fragmentBase: nat, ghost exportBase: nat,
             ghost idBase: nat)
    modifies output
    ensures old(output.bytes) <= output.bytes
    ensures TableAt(z, output.bytes, fragmentBase, FragmentEntriesBytes(entries), fragmentStart)
    ensures fragmentBase == |old(output.bytes)|
    ensures TableAt(z, output.bytes, exportBase, LE64s(exportRefs), exportStart)
    ensures fragmentBase <= fragmentStart <= exportBase <= exportStart <= idBase
    ensures exportBase == fragmentStart + 8 * BlocksOf(16 * |entries|)
    ensures TableAt(z, output.bytes, idBase, LE32s([0]), idStart)
    ensures idBase == exportStart + 8 * BlocksOf(8 * |exportRefs|) && |output.bytes| == idStart + 8
  {
    hide Encode, LE64s, BlockOffsets, FragmentEntriesBytes, LE32s, TableAt, BlocksOf;
    OneBlock();
    fragmentBase := |output.bytes|;
    fragmentStart := WriteTable(z, FragmentEntriesBytes(entries), output);
    exportBase := |output.bytes|;
    ghost var out := output.bytes;
    exportStart := WriteTable(z, LE64s(exportRefs), output);
    TableKept(z, out, output.bytes, fragmentBase, FragmentEntriesBytes(entries), fragmentStart);
    idBase := |output.bytes|;
    out := output.bytes;
    idStart := WriteTable(z, LE32s([0]), output);
    TableKept(z, out, output.bytes, fragmentBase, FragmentEntriesBytes(entries), fragmentStart);
    TableKept(z, out, output.bytes, exportBase, LE64s(exportRefs), exportStart);
  }

  method WriteTable(z: Zstd, s: Bytes, output: Output) returns (start: nat)
    modifies output
    ensures old(output.bytes) <= output.bytes && TableAt(z, output.bytes, |old(output.bytes)|, s, start)
    ensures |output.bytes| == start + 8 * BlocksOf(|s|) && start >= |old(output.bytes)|
  {
    hide Encode, LE64s, BlockOffsets;
    CountBlocks(z, s, |output.bytes|);
    ghost var out := output.bytes;
    start := WriteLookupTable(z, s, output);
    var e, t := Encode(z, s), LE64s(BlockOffsets(z, s, |out|));
    assert (out + e) + t == out + (e + t);
    AtPushed(out, e + t);
  }

  lemma TableKept(z: Zstd, out: Bytes, out': Bytes, base: nat, s: Bytes, start: nat)
    requires TableAt(z, out, base, s, start) && out <= out'
    ensures TableAt(z, out', base, s, start)
  {
    hide Encode, LE64s, BlockOffsets;
    AtPrefix(out, out', base, Encode(z, s) + LE64s(BlockOffsets(z, s, base)));
  }
}
