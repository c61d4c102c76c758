/** Walking a written image visits the tree it was written from. */
module Walking {
  import opened Bytes
  import opened Metadata
  import opened Inodes
  import opened DataBlocks
  import opened Fragments
  import opened Directory
  import opened SuperblockFormat
  import opened Reader
  import opened Tree
  import opened Dedup
  import opened FileData
  import opened Placement
  import opened Costs
  import opened RoundTrip
  import opened ReadOperations
  import opened WalkEnds
  import opened TreePaths

  /** What a visitor learns of an entry, file contents included. */
  datatype View = View(path: Bytes, number: nat, permissions: nat, owner: Option<nat>, group: Option<nat>,
                       content: Content)

  datatype Content =
    | FileContent(nlink: nat, data: Option<Bytes>)
    | LinkTarget(target: Bytes)
    | Subdirectory(nlink: nat, parent: nat)

  function ViewOf(z: Zstd, img: Image, v: Visit): View {
    View(v.path, v.inode.inodeNumber, v.inode.permissions, GetId(img, v.inode.uidIdx), GetId(img, v.inode.gidIdx),
         match v.inode
         case FileInode(_, _, _, _, _, _, _, _, nlink, _) => FileContent(nlink, ReadFile(z, img, v.inode))
         case SymlinkInode(_, _, _, _, _, target) => LinkTarget(target)
         case DirInode(_, _, _, _, nlink, _, _, _, parent) => Subdirectory(nlink, parent))
  }

  function Views(z: Zstd, img: Image, vs: seq<Visit>): (ws: seq<View>)
    ensures |ws| == |vs|
  {
    seq(|vs|, i requires 0 <= i < |vs| => ViewOf(z, img, vs[i]))
  }

  // ----- what the tree says a visitor should see -----

  /** A file reads as its own bytes; only one with a short all-zero last block cannot be read. */
  function Expected(c: Context, i: nat): View
    requires i < |c.ns| && i in c.numbers
  {
    View(PathOf(c.ns, i), c.numbers[i], c.ns[i].permissions, Some(0), Some(0),
         match c.ns[i].kind
         case File(data, nlink) => FileContent(nlink, if ShortZeroTail(data) then None else Some(data))
         case Symlink(target) => LinkTarget(target)
         case Directory(kids) => Subdirectory(2 + SubdirCount(c.ns, kids), ParentNumber(c, i)))
  }

  /** What a directory is expected to show, in terms of the tree alone: two links and one for
      each subdirectory, and the number of the directory that lists it; a number past all
      others for the root. */
  lemma ExpectedDirectory(c: Context, i: nat)
    requires Ready(c) && i < |c.ns| && c.ns[i].kind.Directory? && i in c.numbers
    ensures Expected(c, i).content.Subdirectory?
    ensures Expected(c, i).content.nlink == 2 + |set k | k in c.ns[i].kind.children && IsDirectory(c.ns, k)|
    ensures i == ROOT ==> Expected(c, i).content.parent == c.total + 1
    ensures forall d: nat :: HasChild(c.ns, d, i) ==>
      d in c.numbers && Expected(c, i).content.parent == c.numbers[d]
    ensures i != ROOT ==> exists d: nat :: HasChild(c.ns, d, i)
  {
    hide Ready, WellLaid, PathOf, SubEnd, SubdirCount;
    EveryNumbered(c);
    ChildrenAscend(c.ns, i);
    SubdirsCounted(c.ns, c.ns[i].kind.children);
    forall d: nat | HasChild(c.ns, d, i) ensures d in c.numbers && Expected(c, i).content.parent == c.numbers[d] {
      var k: nat :| k < |c.ns[d].kind.children| && c.ns[d].kind.children[k] == i;
      ChildAt(c.ns, d, k);
    }
    if i != ROOT {
      Listed(c.ns, i);
      assert HasChild(c.ns, c.ns[i].parentIdx, i);
    }
  }

  predicate HasChild(ns: seq<Node>, d: nat, i: nat) {
    d < |ns| && ns[d].kind.Directory? && i in ns[d].kind.children
  }

  predicate IsDirectory(ns: seq<Node>, k: nat) {
    k < |ns| && ns[k].kind.Directory?
  }

  lemma {:induction false} PositionsAscend(ns: seq<Node>, i: nat, a: nat, b: nat)
    requires WellLaid(ns) && i < |ns| && ns[i].kind.Directory? && a < b < |ns[i].kind.children|
    ensures ns[i].kind.children[a] < ns[i].kind.children[b]
    decreases b
  {
    hide WellLaid, SubEnd, Position;
    ChildAt(ns, i, b - 1);
    ChildAt(ns, i, b);
    if a < b - 1 { PositionsAscend(ns, i, a, b - 1); }
  }

  ghost predicate Different(kids: seq<nat>) {
    forall a, b :: 0 <= a < b < |kids| ==> kids[a] != kids[b]
  }

  lemma ChildrenAscend(ns: seq<Node>, i: nat)
    requires WellLaid(ns) && i < |ns| && ns[i].kind.Directory?
    ensures Different(ns[i].kind.children)
  {
    hide WellLaid;
    forall a, b | 0 <= a < b < |ns[i].kind.children| ensures ns[i].kind.children[a] != ns[i].kind.children[b] {
      PositionsAscend(ns, i, a, b);
    }
  }

  lemma {:induction false} SubdirsCounted(ns: seq<Node>, kids: seq<nat>)
    requires Different(kids)
    ensures SubdirCount(ns, kids) == |set k | k in kids && IsDirectory(ns, k)|
    decreases |kids|
  {
    var all := set k | k in kids && IsDirectory(ns, k);
    if kids == [] {
      assert all == {};
    } else {
      var rest := set k | k in kids[1..] && IsDirectory(ns, k);
      SubdirsCounted(ns, kids[1..]);
      assert kids == [kids[0]] + kids[1..];
      assert kids[0] !in rest;
      if IsDirectory(ns, kids[0]) {
        assert all == rest + {kids[0]};
      } else {
        assert all == rest;
      }
    }
  }

  function ExpectedRange(c: Context, a: nat, b: nat): (ws: seq<View>)
    requires a <= b <= |c.ns| && forall i :: 0 <= i < |c.ns| ==> i in c.numbers
    ensures |ws| == b - a
  {
    seq(b - a, k requires 0 <= k < b - a => Expected(c, a + k))
  }

  /** A complete image of the tree. */
  ghost predicate Written(c: Context, img: Image, raws: seq<Bytes>, inodes: Bytes, dirs: Bytes, places: Places) {
    && Lossless(c.z) && Narrow(c) && Ready(c) && Located(img, c.z, inodes, dirs)
    && AllPlaced(c, inodes, dirs, places) && (forall i :: 0 <= i < |c.ns| ==> i in places)
    && img.ids == [0]
    && AllStored(c.z, img.data, img.fragments, raws)
    && forall i :: 1 <= i < |c.ns| && c.ns[i].kind.File? ==>
      DataIdx(c.ns, c.hlFirst, i) in c.fileData && InfoHolds(c.z, img.data, raws, InfoFor(c, i), c.ns[i].kind.data)
  }

  lemma EveryNumbered(c: Context)
    requires Ready(c)
    ensures WellLaid(c.ns) && forall i :: 0 <= i < |c.ns| ==> i in c.numbers
  {
    hide WellLaid;
  }

  lemma NodeReads(c: Context, img: Image, raws: seq<Bytes>, inodes: Bytes, dirs: Bytes, places: Places, i: nat)
    requires Written(c, img, raws, inodes, dirs, places) && i < |c.ns|
    ensures i in c.numbers && i in places && Placed(c, inodes, dirs, places, i)
    ensures ReadInode(c.z, img, places[i].iref) == Some(InodeOf(c, i, places[i]))
  {
    hide Lossless, Ready, Located, ReadInode, AllStored, InfoHolds, Narrow, InodeOf, Placed;
    ReadyNumber(c, i);
    assert Placed(c, inodes, dirs, places, i);
    InodeReads(c, img, inodes, dirs, places, i);
    assert i in c.numbers && i in places;
  }

  /** A placed node's inode shows what the tree says. */
  lemma NodeViews(c: Context, img: Image, raws: seq<Bytes>, inodes: Bytes, dirs: Bytes, places: Places, i: nat)
    requires Written(c, img, raws, inodes, dirs, places) && i < |c.ns|
    requires i in c.numbers && i in places && Placed(c, inodes, dirs, places, i)
    ensures c.ns[i].kind.File? ==> DataIdx(c.ns, c.hlFirst, i) in c.fileData
    ensures ViewOf(c.z, img, Visit(PathOf(c.ns, i), InodeOf(c, i, places[i]))) == Expected(c, i)
  {
    hide Lossless, Ready, AllStored, InfoHolds, PathOf, ReadFile, DataIdx, ShortZeroTail, SubdirCount, ParentNumber;
    hide Narrow;
    hide At, RefAt, InodeBytes, DirPlaced, AllPlaced, Encode, UseExtFile;
    ReadyNumber(c, i);
    match c.ns[i].kind
    case File(data, nlink) =>
      FileViews(c, img, raws, i);
    case Symlink(_) =>
    case Directory(_) =>
      DirViews(c, inodes, dirs, places, i);
  }

  lemma DirViews(c: Context, inodes: Bytes, dirs: Bytes, places: Places, i: nat)
    requires Placed(c, inodes, dirs, places, i) && c.ns[i].kind.Directory?
    ensures places[i].dir.nlink == 2 + SubdirCount(c.ns, c.ns[i].kind.children)
    ensures places[i].dir.parentInode == ParentNumber(c, i)
  {
    hide SubdirCount, ParentNumber, At, RefAt, BlockStart, GroupsBytes, Members, ListsChildren, InodeBytes;
  }

  lemma FileViews(c: Context, img: Image, raws: seq<Bytes>, i: nat)
    requires Lossless(c.z) && Narrow(c) && 1 <= i < |c.ns| && c.ns[i].kind.File? && i in c.numbers
    requires DataIdx(c.ns, c.hlFirst, i) in c.fileData
    requires InfoHolds(c.z, img.data, raws, InfoFor(c, i), c.ns[i].kind.data)
    requires img.sb.blockSize == DATA_BLOCK_SIZE && AllStored(c.z, img.data, img.fragments, raws)
    ensures var node, info := c.ns[i], InfoFor(c, i);
            var inode := FileInodeOf(c.numbers[i], node.permissions, 0, 0, info, node.kind.nlink);
            inode.nlink == node.kind.nlink
            && ReadFile(c.z, img, inode) == if ShortZeroTail(node.kind.data) then None else Some(node.kind.data)
  {
    hide Lossless, AllStored, InfoHolds, DataIdx, ReadFile, ShortZeroTail, InfoFits;
    assert NodeFits(c.ns[i]);
    FileReadsBack(c.z, img, raws, InfoFor(c, i), c.ns[i].kind.data, c.numbers[i], c.ns[i].permissions,
                  c.ns[i].kind.nlink);
  }

  lemma ChildPath(c: Context, i: nat, k: nat)
    requires Ready(c) && i < |c.ns| && c.ns[i].kind.Directory? && k < |c.ns[i].kind.children|
    ensures i < c.ns[i].kind.children[k] < |c.ns|
    ensures PathOf(c.ns, c.ns[i].kind.children[k]) == Join(PathOf(c.ns, i), c.ns[c.ns[i].kind.children[k]].name)
  {
    hide WellLaid, Join, PathOf;
    ChildAt(c.ns, i, k);
    ChildPathJoins(c.ns, i, c.ns[i].kind.children[k]);
  }

  lemma RangeJoin(c: Context, a: nat, m: nat, b: nat)
    requires a <= m <= b <= |c.ns| && forall i :: 0 <= i < |c.ns| ==> i in c.numbers
    ensures ExpectedRange(c, a, b) == ExpectedRange(c, a, m) + ExpectedRange(c, m, b)
  {
    hide Expected;
  }

  lemma ViewsJoin(z: Zstd, img: Image, a: seq<Visit>, b: seq<Visit>)
    ensures Views(z, img, a + b) == Views(z, img, a) + Views(z, img, b)
  {
    hide ViewOf;
  }

  // ----- the walk -----

  function EntriesOf(places: Places, i: nat): seq<DirEntryInfo>
    requires i in places
  {
    Infos(Members(places[i].groups))
  }

  lemma DirEntries(c: Context, img: Image, raws: seq<Bytes>, inodes: Bytes, dirs: Bytes, places: Places, i: nat)
    requires Written(c, img, raws, inodes, dirs, places) && i < |c.ns| && c.ns[i].kind.Directory? && i in c.numbers
    requires i in places
    ensures ReadDir(c.z, img, InodeOf(c, i, places[i])) == Some(EntriesOf(places, i))
    ensures |EntriesOf(places, i)| == |c.ns[i].kind.children|
    ensures forall e <- EntriesOf(places, i) :: e.inodeRef < places[i].iref
    ensures ListsChildren(c, places, c.ns[i].kind.children, Members(places[i].groups))
  {
    hide Lossless, Narrow, Ready, Located, AllPlaced, InodeOf, ReadDir, Members, AllStored, InfoHolds, Infos;
    DirReads(c, img, inodes, dirs, places, i);
    ReferencesDescend(c, img, inodes, dirs, places, i);
  }

  /** Entry `k` of a directory leads to child `k`. */
  lemma EntryLeads(c: Context, places: Places, i: nat, k: nat)
    requires i < |c.ns| && c.ns[i].kind.Directory? && i in places && k < |c.ns[i].kind.children|
    requires ListsChildren(c, places, c.ns[i].kind.children, Members(places[i].groups))
    ensures var kid := c.ns[i].kind.children[k];
            && k < |EntriesOf(places, i)| && kid < |c.ns| && kid in places
            && EntriesOf(places, i)[k].name == c.ns[kid].name && EntriesOf(places, i)[k].inodeRef == places[kid].iref
  {
    hide Members;
  }

  /** The walk ended there, having shown exactly the nodes a..b of the tree. */
  ghost predicate Shows(c: Context, img: Image, w: Walked, a: nat, b: nat)
    requires a <= b <= |c.ns| && forall j :: 0 <= j < |c.ns| ==> j in c.numbers
  {
    w.Visits? && Views(c.z, img, w.visits) == ExpectedRange(c, a, b)
  }

  lemma ShowsThen(c: Context, img: Image, first: Walked, next: Walked, a: nat, m: nat, b: nat)
    requires a <= m <= b <= |c.ns| && forall j :: 0 <= j < |c.ns| ==> j in c.numbers
    requires Shows(c, img, first, a, m) && Shows(c, img, next, m, b)
    ensures Shows(c, img, Then(first, next), a, b)
  {
    hide Views, ExpectedRange;
    ViewsJoin(c.z, img, first.visits, next.visits);
    RangeJoin(c, a, m, b);
  }

  lemma {:induction false} WalkKids(c: Context, img: Image, raws: seq<Bytes>, inodes: Bytes, dirs: Bytes,
                                    places: Places, i: nat, k: nat, levels: nat)
    requires Written(c, img, raws, inodes, dirs, places) && WellLaid(c.ns) && img.sb.blockSize > 0
    requires i < |c.ns| && c.ns[i].kind.Directory? && k <= |c.ns[i].kind.children| && i in places
    requires forall j :: 0 <= j < |c.ns| ==> j in c.numbers
    requires ListsChildren(c, places, c.ns[i].kind.children, Members(places[i].groups))
    requires |EntriesOf(places, i)| == |c.ns[i].kind.children|
    requires Position(c.ns, i, k) <= SubEnd(c.ns, i) && |c.ns| - i - 1 <= levels
    ensures Shows(c, img, WalkEntries(c.z, img, EntriesOf(places, i)[k..], PathOf(c.ns, i), levels),
                  Position(c.ns, i, k), SubEnd(c.ns, i))
    decreases |c.ns| - i, 0, |c.ns[i].kind.children| - k
  {
    hide Written, WellLaid, WalkNode, EntriesOf, PathOf, Join, Position, SubEnd, ListsChildren, Members, Views;
    hide ExpectedRange, WalkEntries, Shows, Then;
    ChildAt(c.ns, i, k);
    var entries, kids := EntriesOf(places, i), c.ns[i].kind.children;
    if k == |kids| {
      NoEntries(c.z, img, PathOf(c.ns, i), levels);
      NothingLeft(c, img, SubEnd(c.ns, i));
      assert entries[k..] == [];
    } else {
      var kid := kids[k];
      EntryLeads(c, places, i, k);
      NumbersOf(c, img, raws, inodes, dirs, places);
      ChildPath(c, i, k);
      WalkVisits(c, img, raws, inodes, dirs, places, kid, levels);
      var p := k + 1;
      ChildEnds(c.ns, i, p);
      WalkKids(c, img, raws, inodes, dirs, places, i, p, levels);
      NextEntry(c.z, img, entries[k..], PathOf(c.ns, i), levels);
      assert entries[k..][0] == entries[k] && entries[k..][1..] == entries[p..];
      var first := WalkNode(c.z, img, places[kid].iref, PathOf(c.ns, kid), levels);
      var rest := WalkEntries(c.z, img, entries[p..], PathOf(c.ns, i), levels);
      ShowsThen(c, img, first, rest, kid, SubEnd(c.ns, kid), SubEnd(c.ns, i));
    }
  }

  lemma NothingLeft(c: Context, img: Image, e: nat)
    requires e <= |c.ns| && forall i :: 0 <= i < |c.ns| ==> i in c.numbers
    ensures Shows(c, img, Visits([]), e, e)
  {
  }

  lemma NumbersOf(c: Context, img: Image, raws: seq<Bytes>, inodes: Bytes, dirs: Bytes, places: Places)
    requires Written(c, img, raws, inodes, dirs, places)
    ensures Ready(c) && img.sb.blockSize > 0
    ensures WellLaid(c.ns) && forall i :: 0 <= i < |c.ns| ==> i in c.numbers
  {
    hide Ready, Narrow, AllPlaced, AllStored, InfoHolds, WellLaid, Lossless;
    EveryNumbered(c);
  }

  lemma {:induction false} ChildEnds(ns: seq<Node>, i: nat, k: nat)
    requires WellLaid(ns) && i < |ns| && ns[i].kind.Directory? && k <= |ns[i].kind.children|
    ensures Position(ns, i, k) <= SubEnd(ns, i)
    decreases |ns[i].kind.children| - k
  {
    hide WellLaid, SubEnd, Position;
    ChildAt(ns, i, k);
    if k < |ns[i].kind.children| { ChildEnds(ns, i, k + 1); }
  }

  /** Walking from a node visits its subtree: every node of it once, in tree order, as the
      tree says. The nodes that follow it in the tree bound how deep it can lead. */
  lemma {:induction false} WalkVisits(c: Context, img: Image, raws: seq<Bytes>, inodes: Bytes, dirs: Bytes,
                                      places: Places, i: nat, levels: nat)
    requires Written(c, img, raws, inodes, dirs, places) && WellLaid(c.ns) && i < |c.ns| && i in places
    requires img.sb.blockSize > 0 && |c.ns| - i <= levels
    requires forall j :: 0 <= j < |c.ns| ==> j in c.numbers
    ensures i <= SubEnd(c.ns, i) <= |c.ns|
    ensures Shows(c, img, WalkNode(c.z, img, places[i].iref, PathOf(c.ns, i), levels), i, SubEnd(c.ns, i))
    decreases |c.ns| - i, 1, 0
  {
    hide Written, WellLaid, WalkEntries, EntriesOf, PathOf, Position, SubEnd, ListsChildren, Members, Shows;
    hide WalkNode, Then, ReadInode, ReadDir, InodeOf, Placed, ViewOf, Expected;
    NodeReads(c, img, raws, inodes, dirs, places, i);
    NodeViews(c, img, raws, inodes, dirs, places, i);
    var inode, path := InodeOf(c, i, places[i]), PathOf(c.ns, i);
    InodeKind(c, i, places[i]);
    FirstView(c, img, i, inode);
    SubEndOfLeaf(c.ns, i);
    NodeVisits(c.z, img, places[i].iref, path, levels);
    if c.ns[i].kind.Directory? {
      DirEntries(c, img, raws, inodes, dirs, places, i);
      ChildAt(c.ns, i, 0);
      ChildEnds(c.ns, i, 0);
      WalkKids(c, img, raws, inodes, dirs, places, i, 0, levels - 1);
      assert EntriesOf(places, i)[0..] == EntriesOf(places, i);
      ShowsThen(c, img, Visits([Visit(path, inode)]), WalkDirectory(c.z, img, inode, path, levels), i, i + 1,
                SubEnd(c.ns, i));
    }
  }

  lemma InodeKind(c: Context, i: nat, p: Place)
    requires i < |c.ns| && i in c.numbers && (c.ns[i].kind.File? ==> DataIdx(c.ns, c.hlFirst, i) in c.fileData)
    ensures InodeOf(c, i, p).DirInode? <==> c.ns[i].kind.Directory?
  {
    hide DataIdx;
  }

  lemma FirstView(c: Context, img: Image, i: nat, inode: Inode)
    requires i < |c.ns| && forall j :: 0 <= j < |c.ns| ==> j in c.numbers
    requires ViewOf(c.z, img, Visit(PathOf(c.ns, i), inode)) == Expected(c, i)
    ensures Shows(c, img, Visits([Visit(PathOf(c.ns, i), inode)]), i, i + 1)
  {
    hide ViewOf, Expected, PathOf;
  }

  /** A walk of the image ends, and shows exactly the tree, in pre-order. */
  ghost predicate WalkShows(c: Context, img: Image)
    requires img.sb.blockSize > 0 && forall j :: 0 <= j < |c.ns| ==> j in c.numbers
  {
    exists visits :: WalksTo(c.z, img, Visits(visits)) && Shows(c, img, Visits(visits), 0, |c.ns|)
  }

  /** The whole walk: exactly the tree's nodes, in pre-order. */
  lemma WalkShowsTree(c: Context, img: Image, raws: seq<Bytes>, inodes: Bytes, dirs: Bytes, places: Places)
    requires Written(c, img, raws, inodes, dirs, places) && ROOT in places && img.sb.rootInodeRef == places[ROOT].iref
    requires img.sb.blockSize > 0 && forall j :: 0 <= j < |c.ns| ==> j in c.numbers
    ensures WalkShows(c, img)
  {
    hide Written, WalkNode, SubEnd, Shows, DirLaid;
    NumbersOf(c, img, raws, inodes, dirs, places);
    var levels := |c.ns|;
    WalkVisits(c, img, raws, inodes, dirs, places, ROOT, levels);
    assert Shows(c, img, Walk(c.z, img, levels), 0, |c.ns|);
    ShownWalk(c, img, levels);
  }

  lemma ShownWalk(c: Context, img: Image, levels: nat)
    requires img.sb.blockSize > 0 && forall j :: 0 <= j < |c.ns| ==> j in c.numbers
    requires Shows(c, img, Walk(c.z, img, levels), 0, |c.ns|)
    ensures WalkShows(c, img)
  {
    hide Walk, Views, ExpectedRange;
    assert WalksTo(c.z, img, Visits(Walk(c.z, img, levels).visits));
  }

  /** The references handed out for the tree's nodes descend along directories. */
  lemma WrittenDescends(c: Context, img: Image, raws: seq<Bytes>, inodes: Bytes, dirs: Bytes, places: Places)
    requires Written(c, img, raws, inodes, dirs, places) && ROOT in places && img.sb.rootInodeRef == places[ROOT].iref
    requires img.sb.blockSize > 0 && |c.ns| > 0
    ensures Walkable(c.z, img)
  {
    hide Written, DescendsFrom;
    var refs := set i | 0 <= i < |c.ns| && i in places :: places[i].iref;
    forall r | r in refs ensures DescendsFrom(c.z, img, refs, r) {
      var i :| 0 <= i < |c.ns| && i in places && places[i].iref == r;
      NodeDescends(c, img, raws, inodes, dirs, places, i, refs);
    }
    assert ROOT < |c.ns| && places[ROOT].iref in refs;
    assert Descending(c.z, img, refs);
  }

  lemma NodeDescends(c: Context, img: Image, raws: seq<Bytes>, inodes: Bytes, dirs: Bytes, places: Places, i: nat,
                     refs: set<nat>)
    requires Written(c, img, raws, inodes, dirs, places) && i < |c.ns| && i in places && img.sb.blockSize > 0
    requires forall j :: 0 <= j < |c.ns| && j in places ==> places[j].iref in refs
    ensures DescendsFrom(c.z, img, refs, places[i].iref)
  {
    hide Written, ReadInode, ReadDir, InodeOf, Placed, Members, EntriesOf, ListsChildren, ViewOf, Expected, PathOf;
    NodeReads(c, img, raws, inodes, dirs, places, i);
    NodeViews(c, img, raws, inodes, dirs, places, i);
    InodeKind(c, i, places[i]);
    if c.ns[i].kind.Directory? {
      DirEntries(c, img, raws, inodes, dirs, places, i);
      var entries := EntriesOf(places, i);
      forall e | e in entries ensures e.inodeRef in refs {
        var k :| 0 <= k < |entries| && entries[k] == e;
        EntryLeads(c, places, i, k);
      }
    }
  }
}
