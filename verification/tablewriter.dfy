/** Writing the inode table and the directory table, depth first. */
module TableWriting {
  import opened Bytes
  import opened Metadata
  import opened Writer
  import opened Inodes
  import opened Directory
  import opened DirTable
  import opened Tree
  import opened Dedup
  import opened Placement
  import opened Costs

  class TableWriter {
    const c: Context
    const inodeTable: InodeTable
    const dirTable: DirectoryTable
    var exportRefs: seq<nat>
    var hlIrefMap: map<(nat, nat), (nat, nat)>
    ghost var places: Places
    ghost var filled: set<nat>

    ghost predicate Valid()
      reads this, inodeTable.meta, dirTable.meta
    {
      && inodeTable.meta != dirTable.meta && inodeTable.meta.z == c.z && dirTable.meta.z == c.z
      && inodeTable.meta.Valid() && dirTable.meta.Valid()
      && Sound(c, inodeTable.meta.stream, dirTable.meta.stream, places, hlIrefMap, exportRefs, filled)
    }

    ghost function Room(): nat
      reads inodeTable.meta, dirTable.meta
    {
      |inodeTable.meta.stream| + |dirTable.meta.stream|
    }

    constructor (c: Context)
      requires Ready(c)
      ensures Valid() && this.c == c && places == map[] && filled == {} && Room() == 0
      ensures fresh(inodeTable.meta) && fresh(dirTable.meta)
    {
      hide Sound, Ready, MetadataWriter.Valid;
      EmptySound(c);
      this.c := c;
      inodeTable := new InodeTable(c.z);
      dirTable := new DirectoryTable(c.z);
      exportRefs := seq(c.total, _ => 0);
      hlIrefMap, places, filled := map[], map[], {};
    }

    /** Fill an export slot. Callers show that it is filled for the first time. */
    method Export(inum: nat, iref: nat)
      requires 1 <= inum <= |exportRefs| && inum !in filled
      modifies this`exportRefs, this`filled
      ensures exportRefs == old(exportRefs)[inum - 1 := iref] && filled == old(filled) + {inum}
    {
      exportRefs := exportRefs[inum - 1 := iref];
      filled := filled + {inum};
    }

    /** A file: a further name of a written file is listed under that file's inode, any other
        file gets an inode of its own. */
    method WriteFile(child: nat) returns (entry: DirChild)
      requires Valid() && Ready(c) && 1 <= child < |c.ns| && c.ns[child].kind.File? && child !in places
      modifies this`exportRefs, this`hlIrefMap, this`places, this`filled, inodeTable.meta
      ensures Valid() && dirTable.meta.stream == old(dirTable.meta.stream)
      ensures Grown(old(places), places, child, child + 1) && entry == ChildOf(c, places, child)
      ensures Room() <= old(Room()) + InodeCost(c.ns[child])
    {
      hide Sound, InodeCost, FileInodeBytes, MetadataWriter.Valid, RefAt, Ready, Grown;
      ReadyAt(c, child);
      var node := c.ns[child];
      var nlink := node.kind.nlink;
      ghost var inodes, dirs := inodeTable.meta.stream, dirTable.meta.stream;
      if nlink > 1 {
        if LinkKey(c.ns, child) in hlIrefMap {
          var (existingInum, existingIref) := hlIrefMap[LinkKey(c.ns, child)];
          ghost var w := ShareStep(c, inodes, dirs, places, hlIrefMap, exportRefs, filled, child);
          GrownOne(places, child, places[w]);
          places := places[child := places[w]];
          return DirChild(node.name, existingInum, existingIref, DIR_TYPE_FILE);
        }
      }
      var info := c.fileData[if nlink > 1 then c.hlFirst[LinkKey(c.ns, child)] else child];
      var inum := c.numbers[child];
      var iref := inodeTable.AddFile(inum, node.permissions, 0, 0, info, nlink);
      FileInodeSize(c, child);
      ghost var p := Place(iref, |inodes|, 0, [], [], [], NoDir());
      AddStep(c, inodes, dirs, places, hlIrefMap, exportRefs, filled, child, p, inodeTable.meta.stream, dirs);
      Export(inum, iref);
      if nlink > 1 {
        hlIrefMap := hlIrefMap[LinkKey(c.ns, child) := (inum, iref)];
      }
      GrownOne(places, child, p);
      places := places[child := p];
      entry := DirChild(node.name, inum, iref, DIR_TYPE_FILE);
    }

    method WriteSymlink(child: nat) returns (entry: DirChild)
      requires Valid() && Ready(c) && 1 <= child < |c.ns| && c.ns[child].kind.Symlink? && child !in places
      modifies this`exportRefs, this`places, this`filled, inodeTable.meta
      ensures Valid() && dirTable.meta.stream == old(dirTable.meta.stream)
      ensures Grown(old(places), places, child, child + 1) && entry == ChildOf(c, places, child)
      ensures Room() <= old(Room()) + InodeCost(c.ns[child])
    {
      hide Sound, SymlinkInodeBytes, MetadataWriter.Valid, RefAt, Ready, Grown, InodeBytes, InodeCost, DataIdx;
      hide BlockStart, Encode, WellLaid;
      ReadyAt(c, child);
      var node := c.ns[child];
      ghost var inodes, dirs := inodeTable.meta.stream, dirTable.meta.stream;
      var inum := c.numbers[child];
      var iref := inodeTable.AddSymlink(inum, node.permissions, 0, 0, node.kind.target, 1);
      SymlinkBytes(c, child, Place(iref, |inodes|, 0, [], [], [], NoDir()));
      ghost var p := Place(iref, |inodes|, 0, [], [], [], NoDir());
      AddStep(c, inodes, dirs, places, hlIrefMap, exportRefs, filled, child, p, inodeTable.meta.stream, dirs);
      Export(inum, iref);
      GrownOne(places, child, p);
      places := places[child := p];
      entry := DirChild(node.name, inum, iref, DIR_TYPE_SYMLINK);
    }

    /** The directory's own entries and inode, once all its children are written. */
    method WriteDirectoryNode(dir: nat, dirChildren: seq<DirChild>) returns (inum: nat, iref: nat)
      requires Valid() && Ready(c) && dir < |c.ns| && c.ns[dir].kind.Directory? && dir !in places
      requires ListsChildren(c, places, c.ns[dir].kind.children, dirChildren)
      modifies this`exportRefs, this`places, this`filled, inodeTable.meta, dirTable.meta
      ensures Valid() && dir in places && places == old(places)[dir := places[dir]]
      ensures old(dirTable.meta.stream) <= dirTable.meta.stream
      ensures inum == c.numbers[dir] && iref == places[dir].iref
      ensures Room() <= old(Room()) + InodeCost(c.ns[dir]) + KidsCost(c.ns, c.ns[dir].kind.children)
    {
      hide Sound, DirInodeBytes, MetadataWriter.Valid, RefAt, BlockStart, ListsChildren, Ready, Indexed;
      hide Resolved, Spaced;
      hide ValidGroups, KidsCost, ParentNumber, GroupsBytes, Members, SubdirCount, InodeCost, EntryByteCount;
      ReadyAt(c, dir);
      ghost var inodes, dirs := inodeTable.meta.stream, dirTable.meta.stream;
      var children := c.ns[dir].kind.children;
      ListedNamed(c, places, dir, dirChildren);
      var dirBlk, dirOff, dirSize, index;
      ghost var raw, gs, landing;
      dirBlk, dirOff, dirSize, index, raw, gs, landing := dirTable.WriteDirectory(dirChildren);
      var childCount := |dirChildren| % 0x1_0000_0000;
      var entryByteCount := EntryByteCount(dirChildren) % 0x1_0000_0000;
      var d := DirInfo(dirBlk, dirOff, (dirSize + 3) % 0x1_0000_0000, 2 + SubdirCount(c.ns, children),
                       ParentNumber(c, dir), childCount, entryByteCount, index);
      inum := c.numbers[dir];
      iref := inodeTable.AddDir(inum, c.ns[dir].permissions, 0, 0, d);
      ghost var p := Place(iref, |inodes|, |dirs|, gs, raw, landing, d);
      DirStep(c, inodes, dirs, places, hlIrefMap, exportRefs, filled, dir, p, inodeTable.meta.stream,
              dirTable.meta.stream);
      DirectorySize(c, places, dir, dirChildren, p, dirTable.meta.stream, raw, landing);
      Export(inum, iref);
      places := places[dir := p];
    }

    /** Write everything below `dir`, then `dir` itself. */
    method WriteTablesDfs(dir: nat) returns (inum: nat, iref: nat)
      requires Valid() && Ready(c) && dir < |c.ns| && c.ns[dir].kind.Directory? && forall i :: i in places ==> i < dir
      modifies this`exportRefs, this`hlIrefMap, this`places, this`filled, inodeTable.meta, dirTable.meta
      ensures Valid() && Grown(old(places), places, dir, SubEnd(c.ns, dir))
      ensures inum == c.numbers[dir] && iref == places[dir].iref
      ensures old(dirTable.meta.stream) <= dirTable.meta.stream
      ensures Room() <= old(Room()) + InodeCost(c.ns[dir]) + RangeCost(c.ns, dir + 1, SubEnd(c.ns, dir))
      decreases |c.ns| - dir
    {
      hide Sound, MetadataWriter.Valid, ListsChildren, Ready, KidsCost, RangeCost, InodeCost, ListCost, WellLaid;
      hide SubEnd, Position;
      ReadyAt(c, dir);
      var children := c.ns[dir].kind.children;
      var dirChildren: seq<DirChild> := [];
      ghost var before, room := places, Room();
      FirstPosition(c, places, dir);
      for k := 0 to |children|
        invariant Valid() && Grown(before, places, dir + 1, Position(c.ns, dir, k)) && Position(c.ns, dir, k) > dir
        invariant ListsChildren(c, places, children[..k], dirChildren)
        invariant old(dirTable.meta.stream) <= dirTable.meta.stream
        invariant Room() + KidsCost(c.ns, children[..k]) <= room + RangeCost(c.ns, dir + 1, Position(c.ns, dir, k))
      {
        var child := children[k];
        ChildAt(c.ns, dir, k);
        SubEndOfLeaf(c.ns, child);
        ReadyAt(c, child);
        ghost var mid, midRoom := places, Room();
        var entry;
        match c.ns[child].kind {
          case File(_, _) =>
            entry := WriteFile(child);
          case Symlink(_) =>
            entry := WriteSymlink(child);
          case Directory(_) =>
            var childInum, childIref := WriteTablesDfs(child);
            entry := DirChild(c.ns[child].name, childInum, childIref, DIR_TYPE_DIR);
        }
        ChildStep(c, before, mid, places, dir, k, child, entry, dirChildren);
        RoomStep(c.ns, dir, k, child, room, midRoom, Room());
        dirChildren := dirChildren + [entry];
      }
      assert children[..|children|] == children;
      ChildAt(c.ns, dir, |children|);
      ghost var mid := places;
      inum, iref := WriteDirectoryNode(dir, dirChildren);
      GrownWhole(before, mid, places, dir, SubEnd(c.ns, dir));
    }
  }

  /** The state of the phase between two nodes. */
  ghost predicate Sound(c: Context, inodes: Bytes, dirs: Bytes, places: Places, hl: map<(nat, nat), (nat, nat)>,
                        refs: seq<nat>, filled: set<nat>) {
    && AllPlaced(c, inodes, dirs, places)
    && LinksShared(c, places, hl)
    && Exported(c, places, refs)
    && (forall n :: n in filled ==> exists i :: i in places && i in c.numbers && c.numbers[i] == n)
    && (forall i :: i in places && i in c.numbers ==> c.numbers[i] in filled)
  }

  lemma EmptySound(c: Context)
    ensures Sound(c, [], [], map[], map[], seq(c.total, _ => 0), {})
  {
    hide Placed;
  }

  /** Exactly the nodes a..b have been added. */
  ghost predicate Grown(older: Places, newer: Places, a: nat, b: nat) {
    Keeps(older, newer) && forall i :: i in newer <==> i in older || a <= i < b
  }

  function NoDir(): DirInfo {
    DirInfo(0, 0, 0, 0, 0, 0, 0, [])
  }

  lemma ReadyAt(c: Context, i: nat)
    requires Ready(c) && i < |c.ns|
    ensures WellLaid(c.ns) && i in c.numbers && 1 <= c.numbers[i] <= c.total
    ensures i >= 1 && c.ns[i].kind.File? ==>
      && DataIdx(c.ns, c.hlFirst, i) in c.fileData
      && (c.ns[i].kind.nlink > 1 ==> LinkKey(c.ns, i) in c.hlFirst)
      && DataIdx(c.ns, c.hlFirst, i) == (if c.ns[i].kind.nlink > 1 then c.hlFirst[LinkKey(c.ns, i)] else i)
      && |InfoFor(c, i).blockSizes| <= CeilDiv(|c.ns[i].kind.data|, DATA_BLOCK_SIZE)
  {
    hide WellLaid;
  }

  lemma ShareStep(c: Context, inodes: Bytes, dirs: Bytes, places: Places, hl: map<(nat, nat), (nat, nat)>,
                  refs: seq<nat>, filled: set<nat>, i: nat) returns (w: nat)
    requires Sound(c, inodes, dirs, places, hl, refs, filled) && Ready(c) && 1 <= i < |c.ns| && i !in places
    requires IsLink(c.ns, i) && LinkKey(c.ns, i) in hl
    ensures w in places && i in c.numbers && hl[LinkKey(c.ns, i)] == (c.numbers[i], places[w].iref)
    ensures Sound(c, inodes, dirs, places[i := places[w]], hl, refs, filled)
  {
    hide Ready, AllPlaced, LinksShared, Exported, Placed;
    w := SharedFacts(c, inodes, dirs, places, hl, i);
    AllPlacedAdd(c, inodes, dirs, places, inodes, dirs, i, places[w]);
    LinksShareAdd(c, places, hl, i, w);
    ExportedShare(c, places, refs, i, w);
    FilledShare(c, places, filled, i, w);
  }

  lemma SharedFacts(c: Context, inodes: Bytes, dirs: Bytes, places: Places, hl: map<(nat, nat), (nat, nat)>, i: nat)
    returns (w: nat)
    requires Ready(c) && 1 <= i < |c.ns| && IsLink(c.ns, i) && LinkKey(c.ns, i) in hl
    requires AllPlaced(c, inodes, dirs, places) && LinksShared(c, places, hl)
    ensures 1 <= w < |c.ns| && w in places && IsLink(c.ns, w) && LinkKey(c.ns, w) == LinkKey(c.ns, i)
    ensures i in c.numbers && w in c.numbers && c.numbers[i] == c.numbers[w]
    ensures hl[LinkKey(c.ns, i)] == (c.numbers[i], places[w].iref)
    ensures Placed(c, inodes, dirs, places[i := places[w]], i)
  {
    hide Placed, Ready, LinksShared, AllPlaced, ClassOf, WellLaid;
    w := Sharer(c, places, hl, i);
    ReadyAt(c, i);
    RootNotLink(c);
    PlacedIn(c, inodes, dirs, places, w);
    SharedPlace(c, inodes, dirs, places, i, w);
    ReadyAt(c, w);
  }

  lemma Sharer(c: Context, places: Places, hl: map<(nat, nat), (nat, nat)>, i: nat) returns (w: nat)
    requires i < |c.ns| && LinkKey(c.ns, i) in hl && LinksShared(c, places, hl)
    ensures w in places && w < |c.ns| && IsLink(c.ns, w) && LinkKey(c.ns, w) == LinkKey(c.ns, i)
    ensures w in c.numbers && hl[LinkKey(c.ns, i)] == (c.numbers[w], places[w].iref)
  {
    w :| w in places && IsLink(c.ns, w) && LinkKey(c.ns, w) == LinkKey(c.ns, i);
  }

  lemma PlacedIn(c: Context, inodes: Bytes, dirs: Bytes, places: Places, i: nat)
    requires AllPlaced(c, inodes, dirs, places) && i in places
    ensures Placed(c, inodes, dirs, places, i)
  {
  }

  lemma RootNotLink(c: Context)
    requires Ready(c)
    ensures |c.ns| > 0 && !IsLink(c.ns, ROOT)
  {
  }

  lemma FilledShare(c: Context, places: Places, filled: set<nat>, i: nat, w: nat)
    requires forall n :: n in filled ==> exists i :: i in places && i in c.numbers && c.numbers[i] == n
    requires forall i :: i in places && i in c.numbers ==> c.numbers[i] in filled
    requires w in places && i in c.numbers && w in c.numbers && c.numbers[i] == c.numbers[w]
    ensures forall n :: n in filled ==> exists j :: j in places[i := places[w]] && j in c.numbers && c.numbers[j] == n
    ensures forall j :: j in places[i := places[w]] && j in c.numbers ==> c.numbers[j] in filled
  {
    var places' := places[i := places[w]];
    forall n | n in filled ensures exists j :: j in places' && j in c.numbers && c.numbers[j] == n {
      var j :| j in places && j in c.numbers && c.numbers[j] == n;
      assert j in places';
    }
  }

  lemma FilledAdd(c: Context, places: Places, filled: set<nat>, i: nat, p: Place)
    requires forall n :: n in filled ==> exists i :: i in places && i in c.numbers && c.numbers[i] == n
    requires forall i :: i in places && i in c.numbers ==> c.numbers[i] in filled
    requires i in c.numbers
    ensures forall n :: n in filled + {c.numbers[i]} ==>
      exists j :: j in places[i := p] && j in c.numbers && c.numbers[j] == n
    ensures forall j :: j in places[i := p] && j in c.numbers ==> c.numbers[j] in filled + {c.numbers[i]}
  {
    var places' := places[i := p];
    forall n | n in filled + {c.numbers[i]} ensures exists j :: j in places' && j in c.numbers && c.numbers[j] == n {
      if n == c.numbers[i] {
        assert i in places';
      } else {
        var j :| j in places && j in c.numbers && c.numbers[j] == n;
        assert j in places';
      }
    }
  }

  /** Adding a node with an inode of its own. */
  lemma FreshStep(c: Context, inodes: Bytes, dirs: Bytes, places: Places, hl: map<(nat, nat), (nat, nat)>,
                  refs: seq<nat>, filled: set<nat>, i: nat, p: Place, inodes': Bytes, dirs': Bytes)
    requires Sound(c, inodes, dirs, places, hl, refs, filled) && Ready(c) && i < |c.ns| && i !in places
    requires IsLink(c.ns, i) ==> LinkKey(c.ns, i) !in hl
    requires inodes <= inodes' && dirs <= dirs' && Placed(c, inodes', dirs', places[i := p], i)
    ensures i in c.numbers && 1 <= c.numbers[i] <= c.total == |refs| && c.numbers[i] !in filled
    ensures Sound(c, inodes', dirs', places[i := p],
                  if IsLink(c.ns, i) then hl[LinkKey(c.ns, i) := (c.numbers[i], p.iref)] else hl,
                  refs[c.numbers[i] - 1 := p.iref], filled + {c.numbers[i]})
  {
    hide Placed, Ready, AllPlaced, LinksShared;
    ReadyAt(c, i);
    FreshSlot(c, places, hl, i);
    AllPlacedAdd(c, inodes, dirs, places, inodes', dirs', i, p);
    LinksAdd(c, places, hl, i, p);
    ExportedAdd(c, places, refs, i, p);
    FilledAdd(c, places, filled, i, p);
  }

  lemma AddStep(c: Context, inodes: Bytes, dirs: Bytes, places: Places, hl: map<(nat, nat), (nat, nat)>, refs: seq<nat>,
                filled: set<nat>, i: nat, p: Place, inodes': Bytes, dirs': Bytes)
    requires Sound(c, inodes, dirs, places, hl, refs, filled) && Ready(c) && 1 <= i < |c.ns| && i !in places
    requires !c.ns[i].kind.Directory? && (IsLink(c.ns, i) ==> LinkKey(c.ns, i) !in hl)
    requires i in c.numbers && (c.ns[i].kind.File? ==> DataIdx(c.ns, c.hlFirst, i) in c.fileData)
    requires inodes' == inodes + InodeBytes(c, i, p) && dirs' == dirs
    requires p.at == |inodes| && p.iref == RefAt(c.z, inodes, |inodes|)
    ensures 1 <= c.numbers[i] <= c.total == |refs| && c.numbers[i] !in filled
    ensures Sound(c, inodes', dirs', places[i := p],
                  if IsLink(c.ns, i) then hl[LinkKey(c.ns, i) := (c.numbers[i], p.iref)] else hl,
                  refs[c.numbers[i] - 1 := p.iref], filled + {c.numbers[i]})
  {
    hide Sound, InodeBytes, RefAt, Ready;
    AtPushed(inodes, InodeBytes(c, i, p));
    BlockStartPrefix(c.z, inodes, inodes', |inodes|);
    FreshStep(c, inodes, dirs, places, hl, refs, filled, i, p, inodes', dirs');
  }

  lemma DirStep(c: Context, inodes: Bytes, dirs: Bytes, places: Places, hl: map<(nat, nat), (nat, nat)>, refs: seq<nat>,
                filled: set<nat>, i: nat, p: Place, inodes': Bytes, dirs': Bytes)
    requires Sound(c, inodes, dirs, places, hl, refs, filled) && Ready(c) && i < |c.ns| && i !in places
    requires c.ns[i].kind.Directory? && i in c.numbers
    requires inodes' == inodes + InodeBytes(c, i, p) && dirs' == dirs + GroupsBytes(p.groups)
    requires p.at == |inodes| && p.iref == RefAt(c.z, inodes, |inodes|)
    requires p.dirAt == |dirs| && ValidGroups(p.groups)
    requires Indexed(p.raw, p.landing, p.groups) && Resolved(c.z, dirs', p.dirAt, p.raw, p.dir.index)
    requires ListsChildren(c, places, c.ns[i].kind.children, Members(p.groups))
    requires p.dir.blockOffset == BlockStart(c.z, dirs, |dirs|) && p.dir.byteOffset == |dirs| % METADATA_BLOCK_SIZE
    requires p.dir.dirSize == (|GroupsBytes(p.groups)| % 0x1_0000_0000 + 3) % 0x1_0000_0000
    requires p.dir.nlink == 2 + SubdirCount(c.ns, c.ns[i].kind.children) && p.dir.parentInode == ParentNumber(c, i)
    ensures 1 <= c.numbers[i] <= c.total == |refs| && c.numbers[i] !in filled
    ensures Sound(c, inodes', dirs', places[i := p], hl, refs[c.numbers[i] - 1 := p.iref], filled + {c.numbers[i]})
  {
    hide InodeBytes, RefAt, Ready, GroupsBytes, ValidGroups, BlockStart, ListsChildren, ParentNumber, SubdirCount;
    hide Members, Indexed, Resolved, Exported, LinksShared;
    AtPushed(inodes, InodeBytes(c, i, p));
    AtPushed(dirs, GroupsBytes(p.groups));
    BlockStartPrefix(c.z, inodes, inodes', |inodes|);
    BlockStartPrefix(c.z, dirs, dirs', |dirs|);
    ListsKept(c, places, places[i := p], c.ns[i].kind.children, Members(p.groups));
    KidsBelow(c, inodes, dirs, places, i, p);
    hide Sound, At;
    FreshStep(c, inodes, dirs, places, hl, refs, filled, i, p, inodes', dirs');
  }

  /** Children are written, in full, before their directory. */
  lemma KidsBelow(c: Context, inodes: Bytes, dirs: Bytes, places: Places, i: nat, p: Place)
    requires AllPlaced(c, inodes, dirs, places) && p.at == |inodes| && i < |c.ns| && c.ns[i].kind.Directory?
    requires i !in places
    requires ListsChildren(c, places, c.ns[i].kind.children, Members(p.groups))
    ensures forall k <- c.ns[i].kind.children :: k in places[i := p] ==> places[i := p][k].at < p.at
  {
    hide At, RefAt, InodeBytes, DirPlaced, GroupsBytes;
    forall k | k in c.ns[i].kind.children && k in places[i := p] ensures places[i := p][k].at < p.at {
      ListedIn(c, places, c.ns[i].kind.children, Members(p.groups), k);
      assert Placed(c, inodes, dirs, places, k);
      PlacedEnds(c, inodes, dirs, places, k);
    }
  }

  lemma PlacedEnds(c: Context, inodes: Bytes, dirs: Bytes, places: Places, i: nat)
    requires Placed(c, inodes, dirs, places, i)
    ensures places[i].at < |inodes|
  {
    hide RefAt, DirPlaced, LE32s, IndexBytes, BasicDirBody, ExtDirBody, BasicFileBody, ExtFileBody, HeaderBytes;
  }

  lemma ListedNamed(c: Context, places: Places, dir: nat, listed: seq<DirChild>)
    requires Ready(c) && dir < |c.ns| && c.ns[dir].kind.Directory?
    requires ListsChildren(c, places, c.ns[dir].kind.children, listed)
    ensures Named(listed)
  {
    hide SubEnd;
    assert DirLaid(c.ns, dir);
  }

  // ----- room -----

  lemma FileInodeSize(c: Context, i: nat)
    requires Ready(c) && 1 <= i < |c.ns| && c.ns[i].kind.File? && i in c.numbers
    requires DataIdx(c.ns, c.hlFirst, i) in c.fileData
    ensures |FileInodeBytes(c.numbers[i], c.ns[i].permissions, 0, 0, InfoFor(c, i),
                            c.ns[i].kind.nlink)| <= InodeCost(c.ns[i])
  {
    ReadyAt(c, i);
    hide Ready, LE32s, ExtFileBody, BasicFileBody, HeaderBytes, CeilDiv;
  }

  lemma SymlinkBytes(c: Context, i: nat, p: Place)
    requires i < |c.ns| && i in c.numbers && c.ns[i].kind.Symlink?
    ensures InodeBytes(c, i, p) == SymlinkInodeBytes(c.numbers[i], c.ns[i].permissions, 0, 0, c.ns[i].kind.target, 1)
    ensures |InodeBytes(c, i, p)| <= InodeCost(c.ns[i])
  {
    hide HeaderBytes, LE32;
  }

  lemma {:induction false} ListedCost(c: Context, places: Places, kids: seq<nat>, listed: seq<DirChild>)
    requires ListsChildren(c, places, kids, listed)
    ensures KidsCost(c.ns, kids) == 2 * EntryByteCount(listed) + 16 * |listed|
    decreases |kids|
  {
    if kids == [] {
    } else {
      var n := |kids| - 1;
      ListedCost(c, places, kids[..n], listed[..n]);
      assert listed == listed[..n] + [listed[n]];
      EntryByteCountAppend(listed[..n], [listed[n]]);
      assert EntryByteCount([listed[n]]) == 8 + |listed[n].name| + EntryByteCount([listed[n]][1..]);
      assert listed[n] == ChildOf(c, places, kids[n]);
    }
  }

  lemma DirInodeSize(inum: nat, perms: nat, d: DirInfo)
    ensures |DirInodeBytes(inum, perms, 0, 0, d)| <= 40 + |IndexBytes(d.index)|
  {
    hide HeaderBytes, ExtDirBody, BasicDirBody, IndexBytes;
  }

  lemma DirectorySize(c: Context, places: Places, dir: nat, listed: seq<DirChild>, p: Place, stream: Bytes,
                      raw: seq<RawIndex>, landing: seq<nat>)
    requires dir < |c.ns| && c.ns[dir].kind.Directory? && dir in c.numbers
    requires ListsChildren(c, places, c.ns[dir].kind.children, listed) && Members(p.groups) == listed
    requires ValidGroups(p.groups) && Indexed(raw, landing, p.groups)
    requires Resolved(c.z, stream, p.dirAt, raw, p.dir.index)
    ensures |DirInodeBytes(c.numbers[dir], c.ns[dir].permissions, 0, 0, p.dir)| + |GroupsBytes(p.groups)|
            <= InodeCost(c.ns[dir]) + KidsCost(c.ns, c.ns[dir].kind.children)
  {
    hide DirInodeBytes, GroupsBytes, Members, EntryByteCount, KidsCost, IndexBytes, ListsChildren, Indexed, Resolved;
    hide ValidGroups;
    DirectoryCost(c.z, stream, p.dirAt, raw, landing, p.groups, p.dir.index);
    ListedCost(c, places, c.ns[dir].kind.children, listed);
    DirInodeSize(c.numbers[dir], c.ns[dir].permissions, p.dir);
  }

  // ----- steps of the traversal -----

  lemma FirstPosition(c: Context, places: Places, dir: nat)
    requires Ready(c) && dir < |c.ns| && c.ns[dir].kind.Directory?
    ensures Position(c.ns, dir, 0) == dir + 1 && Grown(places, places, dir + 1, dir + 1)
    ensures c.ns[dir].kind.children[..0] == [] && ListsChildren(c, places, [], [])
    ensures KidsCost(c.ns, []) == 0 && RangeCost(c.ns, dir + 1, dir + 1) == 0
  {
    hide WellLaid, SubEnd;
    ChildAt(c.ns, dir, 0);
  }

  lemma ChildStep(c: Context, before: Places, mid: Places, places: Places, dir: nat, k: nat, child: nat,
                  entry: DirChild, listed: seq<DirChild>)
    requires Ready(c) && dir < |c.ns| && c.ns[dir].kind.Directory? && k < |c.ns[dir].kind.children|
    requires child == c.ns[dir].kind.children[k]
    requires Grown(before, mid, dir + 1, Position(c.ns, dir, k))
    requires child < |c.ns| && Grown(mid, places, child, SubEnd(c.ns, child))
    requires child in c.numbers && child in places && entry == ChildOf(c, places, child)
    requires ListsChildren(c, mid, c.ns[dir].kind.children[..k], listed)
    ensures Grown(before, places, dir + 1, Position(c.ns, dir, k + 1)) && Position(c.ns, dir, k + 1) > dir
    ensures ListsChildren(c, places, c.ns[dir].kind.children[..k + 1], listed + [entry])
  {
    hide SubEnd, ChildStart, ChildOf, Position, WellLaid;
    ReadyAt(c, dir);
    ChildAt(c.ns, dir, k);
    ListsKept(c, mid, places, c.ns[dir].kind.children[..k], listed);
    hide Ready;
  }

  lemma RoomStep(ns: seq<Node>, dir: nat, k: nat, child: nat, room: nat, mid: nat, now: nat)
    requires WellLaid(ns) && dir < |ns| && ns[dir].kind.Directory? && k < |ns[dir].kind.children|
    requires child == ns[dir].kind.children[k] && child < |ns|
    requires Position(ns, dir, k) > dir
    requires mid + KidsCost(ns, ns[dir].kind.children[..k]) <= room + RangeCost(ns, dir + 1, Position(ns, dir, k))
    requires now <= mid + InodeCost(ns[child]) + RangeCost(ns, child + 1, SubEnd(ns, child))
    ensures now + KidsCost(ns, ns[dir].kind.children[..k + 1])
            <= room + RangeCost(ns, dir + 1, Position(ns, dir, k + 1))
  {
    hide WellLaid, SubEnd, Position, InodeCost, ListCost;
    ChildAt(ns, dir, k);
    var kids := ns[dir].kind.children;
    assert kids[..k + 1] == kids[..k] + [kids[k]];
    KidsCostPush(ns, kids[..k], kids[k]);
    RangeCostJoin(ns, dir + 1, child, SubEnd(ns, child));
    RangeCostJoin(ns, child, child + 1, SubEnd(ns, child));
    assert RangeCost(ns, child, child + 1) == InodeCost(ns[child]) + ListCost(ns[child]) by { SingleCost(ns, child); }
  }

  lemma SingleCost(ns: seq<Node>, i: nat)
    requires i < |ns|
    ensures RangeCost(ns, i, i + 1) == InodeCost(ns[i]) + ListCost(ns[i])
    ensures RangeCost(ns, i + 1, i + 1) == 0
  {
    hide InodeCost, ListCost;
    assert RangeCost(ns, i, i) == 0;
  }

  lemma GrownWhole(before: Places, mid: Places, places: Places, dir: nat, end: nat)
    requires dir < end && dir in places && dir !in before
    requires Grown(before, mid, dir + 1, end) && places == mid[dir := places[dir]]
    ensures Grown(before, places, dir, end)
  {
  }

  lemma GrownOne(places: Places, i: nat, p: Place)
    requires i !in places
    ensures Grown(places, places[i := p], i, i + 1)
  {
  }
}
