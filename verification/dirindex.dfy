/** The directory index against a linear scan of the directory. */
module DirIndex {
  import opened Bytes
  import opened Metadata
  import opened Inodes
  import opened Directory
  import opened DirTable

  /** Byte-wise name order, the order children are written in. */
  predicate NameLess(a: Bytes, b: Bytes) {
    if b == [] then false
    else if a == [] then true
    else a[0] < b[0] || (a[0] == b[0] && NameLess(a[1..], b[1..]))
  }

  lemma {:induction false} NameLessAsymmetric(a: Bytes, b: Bytes)
    requires NameLess(a, b)
    ensures !NameLess(b, a)
  {
    if a != [] && a[0] == b[0] { NameLessAsymmetric(a[1..], b[1..]); }
  }

  ghost predicate SortedByName(cs: seq<DirChild>) {
    forall i, j :: 0 <= i < j < |cs| ==> NameLess(cs[i].name, cs[j].name)
  }

  /** The rank, among all children, of the first entry of the group that index `k` names. */
  function Rank(gs: seq<Group>, j: nat): nat
    requires j <= |gs|
  {
    |Members(gs[..j])|
  }

  /** Following an index entry `e` (its stored block, then `(start_off + index) % 8192` bytes
      in) and decoding what is left of the directory gives exactly the tail of the listing
      that starts with the entry the index is named after. */
  lemma IndexAgreesWithScan(z: Zstd, data: Bytes, base: nat, stream: Bytes, m: nat, gs: seq<Group>, r: RawIndex,
                            j: nat, e: IndexEntry)
    requires Lossless(z) && At(data, base, Encode(z, stream)) && |Encode(z, stream)| < 0x1_0000_0000
    requires At(stream, m, GroupsBytes(gs)) && ValidGroups(gs) && AllRepresentable(Members(gs))
    requires |GroupsBytes(gs)| < 0x1_0000_0000
    requires Names(r, j, gs) && PointsAt(z, stream, m, r, e)
    ensures Rank(gs, j) < |Members(gs)| && Members(gs)[Rank(gs, j)].name == e.name
    ensures var off := (m % METADATA_BLOCK_SIZE + e.index) % METADATA_BLOCK_SIZE;
            ParseGroups(StreamFrom(z, data, base + e.startBlock), off, 0, |GroupsBytes(gs[j..])|)
            == Some(Infos(Members(gs)[Rank(gs, j)..]))
    ensures |GroupsBytes(gs)| == e.index + |GroupsBytes(gs[j..])|
  {
    hide GroupsBytes, Members, ParseGroups, StreamFrom, Encode, BlockStart, ValidGroup, Lossless, AllRepresentable;
    hide Infos, At;
    var a, b := gs[..j], gs[j..];
    assert gs == a + b;
    GroupsAppend(a, b);
    MembersFirst(b);
    var n := m + r.index;
    AtSplit(stream, m, GroupsBytes(a), GroupsBytes(b));
    BlockStartBound(z, stream, n);
    RepresentableParts(Members(a), Members(b));
    SameOffset(m, r.index);
    TailReads(z, data, base, stream, n, b);
    assert Members(gs)[Rank(gs, j)..] == Members(b);
  }

  lemma SameOffset(m: nat, i: nat)
    ensures (m % METADATA_BLOCK_SIZE + i) % METADATA_BLOCK_SIZE == (m + i) % METADATA_BLOCK_SIZE
  {
  }

  lemma TailReads(z: Zstd, data: Bytes, base: nat, stream: Bytes, n: nat, gs: seq<Group>)
    requires Lossless(z) && At(data, base, Encode(z, stream)) && n <= |stream|
    requires At(stream, n, GroupsBytes(gs)) && ValidGroups(gs) && AllRepresentable(Members(gs))
    requires |GroupsBytes(gs)| < 0x1_0000_0000
    ensures var off := n % METADATA_BLOCK_SIZE;
            ParseGroups(StreamFrom(z, data, base + BlockStart(z, stream, n)), off, 0, |GroupsBytes(gs)|)
            == Some(Infos(Members(gs)))
  {
    hide GroupsBytes, Members, ParseGroups, StreamFrom, Encode, BlockStart, ValidGroups, Lossless, AllRepresentable;
    hide Infos, At;
    StreamAtPosition(z, data, base, stream, n, GroupsBytes(gs));
    GroupsRead(StreamFrom(z, data, base + BlockStart(z, stream, n)), n % METADATA_BLOCK_SIZE, gs, 0);
  }

  /** Hence a search may start at the index: every entry before it has a smaller name, no
      entry from it on has. */
  lemma IndexDividesNames(gs: seq<Group>, j: nat)
    requires j < |gs| && gs[j].members != [] && SortedByName(Members(gs))
    ensures Rank(gs, j) < |Members(gs)|
    ensures forall i :: 0 <= i < |Members(gs)| ==>
            (NameLess(Members(gs)[i].name, gs[j].members[0].name) <==> i < Rank(gs, j))
  {
    hide Members, NameLess;
    assert gs == gs[..j] + gs[j..];
    GroupsAppend(gs[..j], gs[j..]);
    MembersFirst(gs[j..]);
    assert Members(gs)[Rank(gs, j)] == gs[j].members[0];
    NamesAround(Members(gs), Rank(gs, j));
  }

  lemma MembersFirst(gs: seq<Group>)
    requires gs != [] && gs[0].members != []
    ensures Members(gs) != [] && Members(gs)[0] == gs[0].members[0]
  {
  }

  lemma NamesAround(cs: seq<DirChild>, p: nat)
    requires SortedByName(cs) && p < |cs|
    ensures forall i :: 0 <= i < |cs| ==> (NameLess(cs[i].name, cs[p].name) <==> i < p)
  {
    hide NameLess;
    forall i | 0 <= i < |cs| ensures NameLess(cs[i].name, cs[p].name) <==> i < p {
      if i > p {
        NameLessAsymmetric(cs[p].name, cs[i].name);
      } else if i == p && NameLess(cs[i].name, cs[p].name) {
        NameLessAsymmetric(cs[i].name, cs[p].name);
      }
    }
  }
}
