/** How much room a tree's metadata can take, from the tree alone. */
module Costs {
  import opened Bytes
  import opened Metadata
  import opened Inodes
  import opened Directory
  import opened DirTable
  import opened Tree

  /** Room for a node's inode, index entries of a directory aside. */
  function InodeCost(n: Node): nat {
    match n.kind
    case File(data, _) => 56 + 4 * CeilDiv(|data|, DATA_BLOCK_SIZE)
    case Symlink(target) => 24 + |target|
    case Directory(_) => 40
  }

  /** Room for a node's entry in its directory: the entry, a header and an index record. */
  function ListCost(n: Node): nat {
    32 + 2 * |n.name|
  }

  /** Room for the nodes a..b. */
  function RangeCost(ns: seq<Node>, a: nat, b: nat): nat
    requires b <= |ns|
    decreases b
  {
    if b <= a then 0 else RangeCost(ns, a, b - 1) + InodeCost(ns[b - 1]) + ListCost(ns[b - 1])
  }

  lemma {:induction false} RangeCostJoin(ns: seq<Node>, a: nat, m: nat, b: nat)
    requires a <= m <= b <= |ns|
    ensures RangeCost(ns, a, b) == RangeCost(ns, a, m) + RangeCost(ns, m, b)
    decreases b
  {
    hide InodeCost, ListCost;
    if m < b { RangeCostJoin(ns, a, m, b - 1); }
  }

  function KidsCost(ns: seq<Node>, kids: seq<nat>): nat {
    if kids == [] then 0
    else
      var last := kids[|kids| - 1];
      KidsCost(ns, kids[..|kids| - 1]) + if last < |ns| then ListCost(ns[last]) else 0
  }

  lemma KidsCostPush(ns: seq<Node>, kids: seq<nat>, k: nat)
    requires k < |ns|
    ensures KidsCost(ns, kids + [k]) == KidsCost(ns, kids) + ListCost(ns[k])
  {
    assert (kids + [k])[..|kids|] == kids;
  }

  // ----- directories -----

  /** Index records for the first entries of groups. */
  function FirstNames(gs: seq<Group>): nat {
    if gs == [] then 0
    else
      var g := gs[|gs| - 1];
      FirstNames(gs[..|gs| - 1]) + 12 + if g.members == [] then 0 else |g.members[0].name|
  }

  lemma {:induction false} FirstNamesGrow(gs: seq<Group>, a: nat, b: nat)
    requires a <= b <= |gs|
    ensures FirstNames(gs[..a]) <= FirstNames(gs[..b])
    decreases b
  {
    if a < b {
      assert gs[..b][..b - 1] == gs[..b - 1];
      FirstNamesGrow(gs, a, b - 1);
    }
  }

  lemma {:induction false} FirstNamesBound(gs: seq<Group>)
    requires ValidGroups(gs)
    ensures FirstNames(gs) <= EntryByteCount(Members(gs)) + 4 * |gs|
    decreases |gs|
  {
    hide Members, EntryByteCount, ValidGroup;
    if gs == [] {
    } else {
      var init, g := gs[..|gs| - 1], gs[|gs| - 1];
      assert gs == init + [g];
      FirstNamesBound(init);
      GroupsPush(init, g);
      EntryByteCountAppend(Members(init), g.members);
      FirstEntryCounts(g);
    }
  }

  lemma FirstEntryCounts(g: Group)
    requires ValidGroup(g)
    ensures g.members != [] && EntryByteCount(g.members) >= 8 + |g.members[0].name|
  {
  }

  lemma {:induction false} IndexBytesPush(index: seq<IndexEntry>, e: IndexEntry)
    ensures IndexBytes(index + [e]) == IndexBytes(index) + IndexEntryBytes(e)
  {
    hide IndexEntryBytes;
    if index == [] {
      assert [e][1..] == [] && index + [e] == [e];
    } else {
      assert (index + [e])[1..] == index[1..] + [e];
      IndexBytesPush(index[1..], e);
    }
  }

  lemma {:induction false} IndexCost(z: Zstd, stream: Bytes, m: nat, raw: seq<RawIndex>, landing: seq<nat>,
                                     gs: seq<Group>, final: seq<IndexEntry>, k: nat)
    requires |raw| == |landing| == |final| && k <= |raw|
    requires forall i :: 0 <= i < |landing| ==> landing[i] < |gs|
    requires forall i :: 0 <= i < |raw| ==> Names(raw[i], landing[i], gs) && PointsAt(z, stream, m, raw[i], final[i])
    requires forall i, j :: 0 <= i < j < |raw| ==> landing[i] < landing[j]
    ensures |IndexBytes(final[..k])| <= FirstNames(gs[..if k == 0 then 0 else landing[k - 1] + 1])
  {
    hide Names, PointsAt, FirstNames;
    if k > 0 {
      IndexCost(z, stream, m, raw, landing, gs, final, k - 1);
      var j := landing[k - 1];
      IndexStepCost(z, stream, m, raw[k - 1], j, gs, final[k - 1]);
      assert final[..k] == final[..k - 1] + [final[k - 1]];
      IndexBytesPush(final[..k - 1], final[k - 1]);
      FirstNamesGrow(gs, if k == 1 then 0 else landing[k - 2] + 1, j);
    }
  }

  lemma IndexStepCost(z: Zstd, stream: Bytes, m: nat, r: RawIndex, j: nat, gs: seq<Group>, e: IndexEntry)
    requires Names(r, j, gs) && PointsAt(z, stream, m, r, e)
    ensures j < |gs| && FirstNames(gs[..j + 1]) == FirstNames(gs[..j]) + |IndexEntryBytes(e)|
  {
    hide GroupsBytes, BlockStart;
    assert gs[..j + 1][..j] == gs[..j];
  }

  /** Groups named in ascending offset order are in ascending order. */
  lemma LandingAscends(raw: seq<RawIndex>, landing: seq<nat>, gs: seq<Group>)
    requires Indexed(raw, landing, gs)
    ensures forall i, j :: 0 <= i < j < |raw| ==> landing[i] < landing[j]
  {
    hide GroupsBytes;
    forall i, j | 0 <= i < j < |raw| ensures landing[i] < landing[j] {
      assert Names(raw[i], landing[i], gs) && Names(raw[j], landing[j], gs);
      if landing[j] <= landing[i] { GroupStartGrows(gs, landing[j], landing[i]); }
    }
  }

  lemma GroupStartGrows(gs: seq<Group>, a: nat, b: nat)
    requires a <= b <= |gs|
    ensures GroupStart(gs, a) <= GroupStart(gs, b)
  {
    hide GroupsBytes;
    assert gs[..b] == gs[..a] + gs[a..b];
    GroupsAppend(gs[..a], gs[a..b]);
  }

  /** Data and index of one directory, from its entries. */
  lemma DirectoryCost(z: Zstd, stream: Bytes, m: nat, raw: seq<RawIndex>, landing: seq<nat>, gs: seq<Group>,
                      final: seq<IndexEntry>)
    requires ValidGroups(gs) && Indexed(raw, landing, gs) && Resolved(z, stream, m, raw, final)
    ensures |GroupsBytes(gs)| + |IndexBytes(final)| <= 2 * EntryByteCount(Members(gs)) + 16 * |Members(gs)|
  {
    hide GroupsBytes, Members, IndexBytes, FirstNames, EntryByteCount, Names, PointsAt, ValidGroup;
    LandingAscends(raw, landing, gs);
    var k := |raw|;
    forall i | 0 <= i < |landing| ensures landing[i] < |gs| { LandsInside(raw[i], landing[i], gs); }
    IndexCost(z, stream, m, raw, landing, gs, final, k);
    assert final[..k] == final;
    FirstNamesGrow(gs, if k == 0 then 0 else landing[k - 1] + 1, |gs|);
    assert gs[..|gs|] == gs;
    FirstNamesBound(gs);
    GroupsSize(gs);
  }

  lemma LandsInside(r: RawIndex, j: nat, gs: seq<Group>)
    requires Names(r, j, gs)
    ensures j < |gs|
  {
  }

  // ----- stored size of a stream -----

  /** Storing never adds more than a header to a block. */
  lemma {:induction false} EncodeBound(z: Zstd, s: Bytes)
    ensures METADATA_BLOCK_SIZE * |Encode(z, s)| <= (METADATA_BLOCK_SIZE + 2) * |s| + 2 * METADATA_BLOCK_SIZE
    decreases |s|
  {
    if |s| > METADATA_BLOCK_SIZE { EncodeBound(z, s[METADATA_BLOCK_SIZE..]); }
  }

  const METADATA_LIMIT: nat := 0xFFF0_0000

  lemma EncodeFits(z: Zstd, s: Bytes)
    requires |s| < METADATA_LIMIT
    ensures |Encode(z, s)| < 0x1_0000_0000
  {
    EncodeBound(z, s);
    hide Encode;
  }
}
