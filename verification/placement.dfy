/** What it means for a node of the tree to have been written to the inode and directory
    tables. */
module Placement {
  import opened Bytes
  import opened Metadata
  import opened Inodes
  import opened Directory
  import opened DirTable
  import opened Tree
  import opened Dedup

  const DIR_TYPE_DIR: nat := 1
  const DIR_TYPE_FILE: nat := 2
  const DIR_TYPE_SYMLINK: nat := 3

  /** The inputs of the table-writing phase. */
  datatype Context = Context(z: Zstd, ns: seq<Node>, numbers: map<nat, nat>, total: nat,
                             fileData: map<nat, FileInfo>, hlFirst: map<(nat, nat), nat>)

  /** Where a node went: the reference handed out for it, the inode table offset of its inode
      and, for a directory, the directory table offset and grouping of its entries, and the
      indices found while grouping them, with the groups these name. */
  datatype Place = Place(iref: nat, at: nat, dirAt: nat, groups: seq<Group>, raw: seq<RawIndex>, landing: seq<nat>,
                         dir: DirInfo)

  type Places = map<nat, Place>

  function EntryType(k: Kind): nat {
    match k
    case File(_, _) => DIR_TYPE_FILE
    case Symlink(_) => DIR_TYPE_SYMLINK
    case Directory(_) => DIR_TYPE_DIR
  }

  /** The inputs answer every question the phase asks. */
  ghost predicate Ready(c: Context) {
    && WellLaid(c.ns) && ConsistentLinks(c.ns)
    && (forall i :: 0 <= i < |c.ns| ==> i in c.numbers)
    && (forall i :: i in c.numbers ==> 1 <= c.numbers[i] <= c.total)
    && (forall i, j :: 0 <= i < |c.ns| && 0 <= j < |c.ns| ==>
          (c.numbers[i] == c.numbers[j] <==> ClassOf(c.ns, i) == ClassOf(c.ns, j)))
    && (forall i :: 1 <= i < |c.ns| ==> 0 < |c.ns[i].name| < 0x1_0000)
    && (forall i :: 1 <= i < |c.ns| && IsLink(c.ns, i) ==> LinkKey(c.ns, i) in c.hlFirst)
    && (forall i :: 1 <= i < |c.ns| && c.ns[i].kind.File? ==>
          DataIdx(c.ns, c.hlFirst, i) in c.fileData
          && |InfoFor(c, i).blockSizes| <= CeilDiv(|c.ns[i].kind.data|, DATA_BLOCK_SIZE))
  }

  function InfoFor(c: Context, i: nat): FileInfo
    requires i < |c.ns| && DataIdx(c.ns, c.hlFirst, i) in c.fileData
  {
    c.fileData[DataIdx(c.ns, c.hlFirst, i)]
  }

  /** The directory entry by which a placed node is listed. */
  function ChildOf(c: Context, places: Places, i: nat): DirChild
    requires i < |c.ns| && i in c.numbers && i in places
  {
    DirChild(c.ns[i].name, c.numbers[i], places[i].iref, EntryType(c.ns[i].kind))
  }

  ghost predicate ListsChildren(c: Context, places: Places, kids: seq<nat>, listed: seq<DirChild>) {
    && |listed| == |kids|
    && forall k :: 0 <= k < |kids| ==>
      kids[k] < |c.ns| && kids[k] in c.numbers && kids[k] in places && listed[k] == ChildOf(c, places, kids[k])
  }

  function SubdirCount(ns: seq<Node>, kids: seq<nat>): nat {
    if kids == [] then 0
    else (if kids[0] < |ns| && ns[kids[0]].kind.Directory? then 1 else 0) + SubdirCount(ns, kids[1..])
  }

  /** `mksquashfs` gives the root a parent number past every inode. */
  function ParentNumber(c: Context, i: nat): nat
    requires i < |c.ns|
  {
    if i == ROOT || c.ns[i].parentIdx !in c.numbers then c.total + 1 else c.numbers[c.ns[i].parentIdx]
  }

  /** Directory `i` is in the directory table at `p.dirAt`, and `p.dir` describes it. */
  ghost predicate DirPlaced(c: Context, dirs: Bytes, places: Places, i: nat, p: Place)
    requires i < |c.ns| && c.ns[i].kind.Directory?
  {
    && p.dirAt <= |dirs| && At(dirs, p.dirAt, GroupsBytes(p.groups)) && ValidGroups(p.groups)
    && ListsChildren(c, places, c.ns[i].kind.children, Members(p.groups))
    && p.dir.blockOffset == BlockStart(c.z, dirs, p.dirAt)
    && p.dir.byteOffset == p.dirAt % METADATA_BLOCK_SIZE
    && p.dir.dirSize == (|GroupsBytes(p.groups)| % 0x1_0000_0000 + 3) % 0x1_0000_0000
    && p.dir.nlink == 2 + SubdirCount(c.ns, c.ns[i].kind.children)
    && p.dir.parentInode == ParentNumber(c, i)
    && Indexed(p.raw, p.landing, p.groups) && Resolved(c.z, dirs, p.dirAt, p.raw, p.dir.index)
    && forall k <- c.ns[i].kind.children :: k in places ==> places[k].at < p.at
  }

  /** The inode a placed node gets. */
  function InodeBytes(c: Context, i: nat, p: Place): Bytes
    requires i < |c.ns| && i in c.numbers && (c.ns[i].kind.File? ==> DataIdx(c.ns, c.hlFirst, i) in c.fileData)
  {
    match c.ns[i].kind
    case File(_, nlink) => FileInodeBytes(c.numbers[i], c.ns[i].permissions, 0, 0, InfoFor(c, i), nlink)
    case Symlink(target) => SymlinkInodeBytes(c.numbers[i], c.ns[i].permissions, 0, 0, target, 1)
    case Directory(_) => DirInodeBytes(c.numbers[i], c.ns[i].permissions, 0, 0, p.dir)
  }

  /** Node `i` is in the tables: its inode lies where its reference points, and, if it is a
      directory, its entries list its children by their references. */
  ghost predicate Placed(c: Context, inodes: Bytes, dirs: Bytes, places: Places, i: nat) {
    && i < |c.ns| && i in c.numbers && i in places
    && (c.ns[i].kind.File? ==> DataIdx(c.ns, c.hlFirst, i) in c.fileData)
    && places[i].at <= |inodes| && places[i].iref == RefAt(c.z, inodes, places[i].at)
    && At(inodes, places[i].at, InodeBytes(c, i, places[i]))
    && (c.ns[i].kind.Directory? ==> DirPlaced(c, dirs, places, i, places[i]))
  }

  /** `newer` keeps every place of `older`. */
  ghost predicate Keeps(older: Places, newer: Places) {
    forall i :: i in older ==> i in newer && newer[i] == older[i]
  }

  lemma ListsKept(c: Context, places: Places, places': Places, kids: seq<nat>, listed: seq<DirChild>)
    requires ListsChildren(c, places, kids, listed) && Keeps(places, places')
    ensures ListsChildren(c, places', kids, listed)
  {
    forall k | 0 <= k < |kids| ensures kids[k] in places' && listed[k] == ChildOf(c, places', kids[k]) {
      assert kids[k] in places;
    }
  }

  lemma BlockStartPrefix(z: Zstd, s: Bytes, s': Bytes, n: nat)
    requires n <= |s| && s <= s'
    ensures BlockStart(z, s', n) == BlockStart(z, s, n) && RefAt(z, s', n) == RefAt(z, s, n)
  {
    hide BlockStart, RefAt;
    assert s' == s + s'[|s|..];
    RefStable(z, s, s'[|s|..], n);
  }

  /** Indices stay resolved while the directory table grows. */
  lemma ResolvedKept(z: Zstd, dirs: Bytes, dirs': Bytes, m: nat, raw: seq<RawIndex>, final: seq<IndexEntry>)
    requires Resolved(z, dirs, m, raw, final) && dirs <= dirs'
    ensures Resolved(z, dirs', m, raw, final)
  {
    hide BlockStart;
    forall k | 0 <= k < |raw| ensures PointsAt(z, dirs', m, raw[k], final[k]) {
      assert PointsAt(z, dirs, m, raw[k], final[k]);
      BlockStartPrefix(z, dirs, dirs', m + raw[k].index);
    }
  }

  lemma DirKept(c: Context, dirs: Bytes, places: Places, dirs': Bytes, places': Places, i: nat, p: Place)
    requires i < |c.ns| && c.ns[i].kind.Directory? && DirPlaced(c, dirs, places, i, p)
    requires dirs <= dirs' && Keeps(places, places')
    ensures DirPlaced(c, dirs', places', i, p)
  {
    hide GroupsBytes, ValidGroups, Members, BlockStart, At, ListsChildren, ParentNumber, SubdirCount, Indexed, Resolved;
    ResolvedKept(c.z, dirs, dirs', p.dirAt, p.raw, p.dir.index);
    var kids := c.ns[i].kind.children;
    ListsKept(c, places, places', kids, Members(p.groups));
    AtPrefix(dirs, dirs', p.dirAt, GroupsBytes(p.groups));
    BlockStartPrefix(c.z, dirs, dirs', p.dirAt);
    forall k | k in kids && k in places' ensures places'[k].at < p.at {
      ListedIn(c, places, kids, Members(p.groups), k);
    }
  }

  lemma ListedIn(c: Context, places: Places, kids: seq<nat>, listed: seq<DirChild>, k: nat)
    requires ListsChildren(c, places, kids, listed) && k in kids
    ensures k in places
  {
    var j :| 0 <= j < |kids| && kids[j] == k;
  }

  /** What has been placed stays placed while the tables grow. */
  lemma PlacedKept(c: Context, inodes: Bytes, dirs: Bytes, places: Places, inodes': Bytes, dirs': Bytes,
                   places': Places, i: nat)
    requires Placed(c, inodes, dirs, places, i)
    requires inodes <= inodes' && dirs <= dirs' && Keeps(places, places')
    ensures Placed(c, inodes', dirs', places', i)
  {
    hide InodeBytes, At, DirPlaced, RefAt;
    var p := places[i];
    AtPrefix(inodes, inodes', p.at, InodeBytes(c, i, p));
    BlockStartPrefix(c.z, inodes, inodes', p.at);
    if c.ns[i].kind.Directory? { DirKept(c, dirs, places, dirs', places', i, p); }
  }

  ghost predicate AllPlaced(c: Context, inodes: Bytes, dirs: Bytes, places: Places) {
    forall i :: i in places ==> Placed(c, inodes, dirs, places, i)
  }

  /** Adding one place to sound tables. */
  lemma AllPlacedAdd(c: Context, inodes: Bytes, dirs: Bytes, places: Places, inodes': Bytes, dirs': Bytes, i: nat,
                     p: Place)
    requires AllPlaced(c, inodes, dirs, places) && inodes <= inodes' && dirs <= dirs' && i !in places
    requires Placed(c, inodes', dirs', places[i := p], i)
    ensures AllPlaced(c, inodes', dirs', places[i := p])
  {
    hide Placed;
    var places' := places[i := p];
    forall j | j in places' ensures Placed(c, inodes', dirs', places', j) {
      if j != i { PlacedKept(c, inodes, dirs, places, inodes', dirs', places', j); }
    }
  }

  // ----- hard links and the export table -----

  /** The hard-link map gives, for the link classes placed, the number and reference shared by
      all their names. */
  ghost predicate LinksShared(c: Context, places: Places, hl: map<(nat, nat), (nat, nat)>) {
    && (forall i :: i in places ==> i < |c.ns| && i in c.numbers)
    && (forall i :: i in places && IsLink(c.ns, i) ==>
          LinkKey(c.ns, i) in hl && hl[LinkKey(c.ns, i)] == (c.numbers[i], places[i].iref))
    && (forall k :: k in hl ==> exists i :: i in places && IsLink(c.ns, i) && LinkKey(c.ns, i) == k)
  }

  /** Slot `n - 1` of the export table holds the reference of the inode numbered `n`, for
      every node placed. */
  ghost predicate Exported(c: Context, places: Places, exportRefs: seq<nat>) {
    && |exportRefs| == c.total
    && forall i :: i in places ==>
      i in c.numbers && 1 <= c.numbers[i] <= c.total && exportRefs[c.numbers[i] - 1] == places[i].iref
  }

  ghost predicate Untouched(c: Context, places: Places, i: nat) {
    i in c.numbers && forall j :: j in places && j in c.numbers ==> c.numbers[j] != c.numbers[i]
  }

  /** A node whose class has not been placed has an export slot of its own. */
  lemma FreshSlot(c: Context, places: Places, hl: map<(nat, nat), (nat, nat)>, i: nat)
    requires Ready(c) && i < |c.ns| && i !in places && LinksShared(c, places, hl)
    requires IsLink(c.ns, i) ==> LinkKey(c.ns, i) !in hl
    ensures Untouched(c, places, i)
  {
    forall j | j in places && j in c.numbers ensures ClassOf(c.ns, j) != ClassOf(c.ns, i) {
    }
  }

  lemma ExportedAdd(c: Context, places: Places, refs: seq<nat>, i: nat, p: Place)
    requires Exported(c, places, refs) && Untouched(c, places, i) && 1 <= c.numbers[i] <= c.total
    ensures Exported(c, places[i := p], refs[c.numbers[i] - 1 := p.iref])
  {
  }

  lemma ExportedShare(c: Context, places: Places, refs: seq<nat>, i: nat, w: nat)
    requires Exported(c, places, refs) && w in places && i in c.numbers && c.numbers[i] == c.numbers[w]
    ensures Exported(c, places[i := places[w]], refs)
  {
  }

  lemma LinksAdd(c: Context, places: Places, hl: map<(nat, nat), (nat, nat)>, i: nat, p: Place)
    requires LinksShared(c, places, hl) && i < |c.ns| && i in c.numbers && i !in places
    requires IsLink(c.ns, i) ==> LinkKey(c.ns, i) !in hl
    ensures LinksShared(c, places[i := p],
                        if IsLink(c.ns, i) then hl[LinkKey(c.ns, i) := (c.numbers[i], p.iref)] else hl)
  {
    var hl' := if IsLink(c.ns, i) then hl[LinkKey(c.ns, i) := (c.numbers[i], p.iref)] else hl;
    var places' := places[i := p];
    forall k | k in hl' ensures exists j :: j in places' && IsLink(c.ns, j) && LinkKey(c.ns, j) == k {
      if k in hl {
        var j :| j in places && IsLink(c.ns, j) && LinkKey(c.ns, j) == k;
        assert j in places';
      } else {
        assert i in places';
      }
    }
  }

  lemma LinksShareAdd(c: Context, places: Places, hl: map<(nat, nat), (nat, nat)>, i: nat, w: nat)
    requires LinksShared(c, places, hl) && i < |c.ns| && i in c.numbers && i !in places && w in places
    requires IsLink(c.ns, i) && IsLink(c.ns, w) && LinkKey(c.ns, w) == LinkKey(c.ns, i) && c.numbers[i] == c.numbers[w]
    ensures LinksShared(c, places[i := places[w]], hl)
  {
    var places' := places[i := places[w]];
    forall k | k in hl ensures exists j :: j in places' && IsLink(c.ns, j) && LinkKey(c.ns, j) == k {
      var j :| j in places && IsLink(c.ns, j) && LinkKey(c.ns, j) == k;
      assert j in places';
    }
  }

  /** A further name of a placed file is placed where that file is. */
  lemma SharedPlace(c: Context, inodes: Bytes, dirs: Bytes, places: Places, i: nat, w: nat)
    requires Ready(c) && 1 <= i < |c.ns| && 1 <= w < |c.ns| && Placed(c, inodes, dirs, places, w)
    requires IsLink(c.ns, i) && IsLink(c.ns, w) && LinkKey(c.ns, w) == LinkKey(c.ns, i)
    ensures Placed(c, inodes, dirs, places[i := places[w]], i)
    ensures c.numbers[i] == c.numbers[w]
  {
    hide At, RefAt, WellLaid, FileInodeBytes;
    assert ClassOf(c.ns, i) == ClassOf(c.ns, w);
    assert c.ns[i].kind == c.ns[w].kind && c.ns[i].permissions == c.ns[w].permissions;
    assert DataIdx(c.ns, c.hlFirst, i) == DataIdx(c.ns, c.hlFirst, w);
  }
}
