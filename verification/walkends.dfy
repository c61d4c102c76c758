/** Exactly when a walk of an image ends. */
module WalkEnds {
  import opened Bytes
  import opened Metadata
  import opened Inodes
  import opened Directory
  import opened Reader

  ghost predicate Ends(z: Zstd, img: Image)
    requires img.sb.blockSize > 0
  {
    exists r :: WalksTo(z, img, r)
  }

  /** However many levels it is followed for, the walk from `iref` goes deeper. */
  ghost predicate Bottomless(z: Zstd, img: Image, iref: nat)
    requires img.sb.blockSize > 0
  {
    forall levels: nat :: WalkNode(z, img, iref, [SLASH], levels) == TooDeep
  }

  /** The walk from `iref` ends without an error. */
  ghost predicate Visited(z: Zstd, img: Image, iref: nat)
    requires img.sb.blockSize > 0
  {
    exists levels: nat :: WalkNode(z, img, iref, [SLASH], levels).Visits?
  }

  /** The listing of the directory at `iref`; none if there is no directory, or it cannot be
      read. */
  function Listing(z: Zstd, img: Image, iref: nat): Option<seq<DirEntryInfo>>
    requires img.sb.blockSize > 0
  {
    match ReadInode(z, img, iref)
    case None => None
    case Some(inode) => if inode.DirInode? then ReadDir(z, img, inode) else None
  }

  /** Entry `k` leads back into `s`, and the walk gets as far as that entry. */
  ghost predicate LeadsInto(z: Zstd, img: Image, s: iset<nat>, entries: seq<DirEntryInfo>, k: nat)
    requires img.sb.blockSize > 0
  {
    && k < |entries| && entries[k].inodeRef in s
    && forall j :: 0 <= j < k ==> Visited(z, img, entries[j].inodeRef)
  }

  /** Every reference in `s` is to a directory from which the walk gets to another one in `s`. */
  ghost predicate Endless(z: Zstd, img: Image, s: iset<nat>)
    requires img.sb.blockSize > 0
  {
    forall r :: r in s ==> GoesOn(z, img, s, r)
  }

  ghost predicate GoesOn(z: Zstd, img: Image, s: iset<nat>, r: nat)
    requires img.sb.blockSize > 0
  {
    var entries := Listing(z, img, r);
    entries.Some? && exists k :: LeadsInto(z, img, s, entries.value, k)
  }

  // ----- paths do not matter -----

  /** Both end, both fail, or both are cut short. */
  predicate Alike(a: Walked, b: Walked) {
    (a.Visits? <==> b.Visits?) && (a.Failed? <==> b.Failed?)
  }

  lemma {:induction false} DirectoryAlike(z: Zstd, img: Image, dir: Inode, p: Bytes, q: Bytes, levels: nat)
    requires img.sb.blockSize > 0 && dir.DirInode?
    ensures Alike(WalkDirectory(z, img, dir, p, levels), WalkDirectory(z, img, dir, q, levels))
    decreases levels, 0
  {
    hide ReadDir, WalkEntries;
    match ReadDir(z, img, dir)
    case None =>
    case Some(entries) => if levels > 0 { EntriesAlike(z, img, entries, p, q, levels - 1); }
  }

  lemma {:induction false} EntriesAlike(z: Zstd, img: Image, entries: seq<DirEntryInfo>, p: Bytes, q: Bytes,
                                        levels: nat)
    requires img.sb.blockSize > 0
    ensures Alike(WalkEntries(z, img, entries, p, levels), WalkEntries(z, img, entries, q, levels))
    decreases levels, 2 + |entries|
  {
    hide WalkNode, Join;
    if entries != [] {
      var e := entries[0];
      NodeAlike(z, img, e.inodeRef, Join(p, e.name), Join(q, e.name), levels);
      EntriesAlike(z, img, entries[1..], p, q, levels);
    }
  }

  lemma {:induction false} NodeAlike(z: Zstd, img: Image, iref: nat, p: Bytes, q: Bytes, levels: nat)
    requires img.sb.blockSize > 0
    ensures Alike(WalkNode(z, img, iref, p, levels), WalkNode(z, img, iref, q, levels))
    decreases levels, 1
  {
    hide ReadInode, WalkDirectory;
    match ReadInode(z, img, iref)
    case None =>
    case Some(inode) => if inode.DirInode? { DirectoryAlike(z, img, inode, p, q, levels); }
  }

  // ----- an endless set is walked without end -----

  lemma {:induction false} EndlessGoesDeeper(z: Zstd, img: Image, s: iset<nat>, iref: nat, path: Bytes, levels: nat)
    requires img.sb.blockSize > 0 && Endless(z, img, s) && iref in s
    ensures WalkNode(z, img, iref, path, levels) == TooDeep
    decreases levels
  {
    hide ReadInode, ReadDir, Endless, WalkEntries, Visited;
    assert GoesOn(z, img, s, iref) by { EndlessAt(z, img, s, iref); }
    var entries := Listing(z, img, iref).value;
    var k: nat :| LeadsInto(z, img, s, entries, k);
    if levels > 0 {
      var next, below := entries[k].inodeRef, levels - 1;
      forall p: Bytes ensures WalkNode(z, img, next, p, below) == TooDeep {
        EndlessGoesDeeper(z, img, s, next, p, below);
      }
      EntriesTooDeep(z, img, entries, k, path, below);
    }
  }

  lemma EndlessAt(z: Zstd, img: Image, s: iset<nat>, iref: nat)
    requires img.sb.blockSize > 0 && Endless(z, img, s) && iref in s
    ensures GoesOn(z, img, s, iref)
  {
    hide GoesOn;
  }

  /** A listing is not walked to its end if one entry is not, and none before it fails. */
  lemma {:induction false} EntriesTooDeep(z: Zstd, img: Image, entries: seq<DirEntryInfo>, k: nat, path: Bytes,
                                          levels: nat)
    requires img.sb.blockSize > 0 && k < |entries|
    requires forall p: Bytes :: WalkNode(z, img, entries[k].inodeRef, p, levels) == TooDeep
    requires forall j :: 0 <= j < k ==> Visited(z, img, entries[j].inodeRef)
    ensures WalkEntries(z, img, entries, path, levels) == TooDeep
    decreases k
  {
    hide WalkNode, Join, Visited;
    if k > 0 {
      NeverFails(z, img, entries[0].inodeRef, Join(path, entries[0].name), levels);
      EntriesTooDeep(z, img, entries[1..], k - 1, path, levels);
    }
  }

  lemma NeverFails(z: Zstd, img: Image, iref: nat, path: Bytes, levels: nat)
    requires img.sb.blockSize > 0 && Visited(z, img, iref)
    ensures !WalkNode(z, img, iref, path, levels).Failed?
  {
    hide WalkNode;
    var a: nat :| WalkNode(z, img, iref, [SLASH], a).Visits?;
    NodeAlike(z, img, iref, path, [SLASH], levels);
    if a <= levels {
      NodeDeeper(z, img, iref, [SLASH], a, levels);
    } else if WalkNode(z, img, iref, [SLASH], levels) != TooDeep {
      NodeDeeper(z, img, iref, [SLASH], levels, a);
    }
  }

  // ----- what is walked without end is an endless set -----

  /** The bottomless references are an endless set. */
  lemma BottomlessEndless(z: Zstd, img: Image, s: iset<nat>)
    requires img.sb.blockSize > 0 && forall r :: r in s <==> Bottomless(z, img, r)
    ensures Endless(z, img, s)
  {
    hide GoesOn, Bottomless;
    forall r | r in s ensures GoesOn(z, img, s, r) {
      BottomlessGoesOn(z, img, s, r);
    }
  }

  lemma BottomlessGoesOn(z: Zstd, img: Image, s: iset<nat>, r: nat)
    requires img.sb.blockSize > 0 && Bottomless(z, img, r) && forall q :: q in s <==> Bottomless(z, img, q)
    ensures GoesOn(z, img, s, r)
  {
    BottomlessListing(z, img, r);
    hide Bottomless, Listing;
    var entries := Listing(z, img, r).value;
    var k := BottomlessEntry(z, img, entries, [SLASH]);
    assert LeadsInto(z, img, s, entries, k);
  }

  lemma BottomlessListing(z: Zstd, img: Image, r: nat)
    requires img.sb.blockSize > 0 && Bottomless(z, img, r)
    ensures Listing(z, img, r).Some?
    ensures forall levels: nat :: WalkEntries(z, img, Listing(z, img, r).value, [SLASH], levels) == TooDeep
  {
    hide ReadInode, ReadDir, WalkEntries;
    assert WalkNode(z, img, r, [SLASH], 0) == TooDeep;
    forall levels: nat ensures WalkEntries(z, img, Listing(z, img, r).value, [SLASH], levels) == TooDeep {
      assert WalkNode(z, img, r, [SLASH], levels + 1) == TooDeep;
    }
  }

  /** A listing that is not walked to its end, within any number of levels, has a first entry
      that is not. */
  lemma {:induction false} BottomlessEntry(z: Zstd, img: Image, entries: seq<DirEntryInfo>, path: Bytes)
    returns (k: nat)
    requires img.sb.blockSize > 0
    requires forall levels: nat :: WalkEntries(z, img, entries, path, levels) == TooDeep
    ensures k < |entries| && Bottomless(z, img, entries[k].inodeRef)
    ensures forall j :: 0 <= j < k ==> Visited(z, img, entries[j].inodeRef)
    decreases |entries|
  {
    hide WalkNode, Join, Visited, Bottomless;
    assert WalkEntries(z, img, entries, path, 0) == TooDeep;
    if Bottomless(z, img, entries[0].inodeRef) {
      k := 0;
    } else {
      var a := EndsWithin(z, img, entries[0].inodeRef);
      assert WalkEntries(z, img, entries, path, a) == TooDeep;
      NodeAlike(z, img, entries[0].inodeRef, [SLASH], Join(path, entries[0].name), a);
      VisitedWithin(z, img, entries[0].inodeRef, a);
      forall levels: nat ensures WalkEntries(z, img, entries[1..], path, levels) == TooDeep {
        RestTooDeep(z, img, entries, path, a, levels);
      }
      k := BottomlessEntry(z, img, entries[1..], path);
      k := k + 1;
    }
  }

  lemma EndsWithin(z: Zstd, img: Image, iref: nat) returns (a: nat)
    requires img.sb.blockSize > 0 && !Bottomless(z, img, iref)
    ensures WalkNode(z, img, iref, [SLASH], a) != TooDeep
  {
    hide WalkNode;
    a :| WalkNode(z, img, iref, [SLASH], a) != TooDeep;
  }

  lemma VisitedWithin(z: Zstd, img: Image, iref: nat, a: nat)
    requires img.sb.blockSize > 0 && WalkNode(z, img, iref, [SLASH], a).Visits?
    ensures Visited(z, img, iref)
  {
    hide WalkNode;
  }

  lemma RestTooDeep(z: Zstd, img: Image, entries: seq<DirEntryInfo>, path: Bytes, a: nat, levels: nat)
    requires img.sb.blockSize > 0 && entries != []
    requires forall b: nat :: WalkEntries(z, img, entries, path, b) == TooDeep
    requires WalkNode(z, img, entries[0].inodeRef, Join(path, entries[0].name), a).Visits?
    ensures WalkEntries(z, img, entries[1..], path, levels) == TooDeep
  {
    hide WalkNode, Join;
    var b := if a < levels then levels else a;
    NodeDeeper(z, img, entries[0].inodeRef, Join(path, entries[0].name), a, b);
    assert WalkEntries(z, img, entries, path, b) == TooDeep;
    if WalkEntries(z, img, entries[1..], path, levels) != TooDeep {
      EntriesDeeper(z, img, entries[1..], path, levels, b);
    }
  }

  // ----- exactly -----

  lemma EndsUnlessBottomless(z: Zstd, img: Image)
    requires img.sb.blockSize > 0
    ensures Ends(z, img) <==> !Bottomless(z, img, img.sb.rootInodeRef)
  {
    hide WalkNode;
    if !Bottomless(z, img, img.sb.rootInodeRef) {
      var a := EndsWithin(z, img, img.sb.rootInodeRef);
      assert Walk(z, img, a) == WalkNode(z, img, img.sb.rootInodeRef, [SLASH], a);
      assert WalksTo(z, img, Walk(z, img, a));
    }
    if Ends(z, img) {
      var r :| WalksTo(z, img, r);
      var levels: nat :| Walk(z, img, levels) == r;
      assert WalkNode(z, img, img.sb.rootInodeRef, [SLASH], levels) != TooDeep;
    }
  }

  /** A walk ends if and only if the root is in no endless set. */
  lemma EndsExactly(z: Zstd, img: Image)
    requires img.sb.blockSize > 0
    ensures Ends(z, img) <==> !exists s: iset<nat> :: img.sb.rootInodeRef in s && Endless(z, img, s)
  {
    hide WalkNode, Endless, Bottomless, Ends;
    var root := img.sb.rootInodeRef;
    EndsUnlessBottomless(z, img);
    if Bottomless(z, img, root) {
      var s := iset r: nat | Bottomless(z, img, r);
      BottomlessEndless(z, img, s);
      assert root in s;
    }
    if s: iset<nat> :| root in s && Endless(z, img, s) {
      EndlessBottomless(z, img, s, root);
    }
  }

  lemma EndlessBottomless(z: Zstd, img: Image, s: iset<nat>, iref: nat)
    requires img.sb.blockSize > 0 && Endless(z, img, s) && iref in s
    ensures Bottomless(z, img, iref)
  {
    hide WalkNode, Endless;
    forall levels: nat ensures WalkNode(z, img, iref, [SLASH], levels) == TooDeep {
      EndlessGoesDeeper(z, img, s, iref, [SLASH], levels);
    }
  }

  // ----- images that can be read -----

  /** Everything that directories lead to from `refs` is in `refs`, and can be read. */
  ghost predicate Readable(z: Zstd, img: Image, refs: set<nat>)
    requires img.sb.blockSize > 0
  {
    forall r :: r in refs ==> ReadableAt(z, img, refs, r)
  }

  ghost predicate ReadableAt(z: Zstd, img: Image, refs: set<nat>, r: nat)
    requires img.sb.blockSize > 0
  {
    var inode := ReadInode(z, img, r);
    && inode.Some?
    && (inode.value.DirInode? ==>
          var entries := ReadDir(z, img, inode.value);
          entries.Some? && forall k :: 0 <= k < |entries.value| ==> entries.value[k].inodeRef in refs)
  }

  /** The directory at `r` lists `q`. */
  ghost predicate Lists(z: Zstd, img: Image, r: nat, q: nat)
    requires img.sb.blockSize > 0
  {
    var entries := Listing(z, img, r);
    entries.Some? && exists k :: 0 <= k < |entries.value| && entries.value[k].inodeRef == q
  }

  ghost predicate Path(z: Zstd, img: Image, path: seq<nat>)
    requires img.sb.blockSize > 0
  {
    forall k :: 0 < k < |path| ==> Lists(z, img, path[k - 1], path[k])
  }

  /** A path from the root that meets a directory again. */
  ghost predicate ComesBack(z: Zstd, img: Image, path: seq<nat>)
    requires img.sb.blockSize > 0
  {
    && path != [] && path[0] == img.sb.rootInodeRef && Path(z, img, path)
    && exists i :: 0 <= i < |path| - 1 && path[i] == path[|path| - 1]
  }

  lemma {:induction false} ReadableNeverFails(z: Zstd, img: Image, refs: set<nat>, iref: nat, path: Bytes, levels: nat)
    requires img.sb.blockSize > 0 && Readable(z, img, refs) && iref in refs
    ensures !WalkNode(z, img, iref, path, levels).Failed?
    decreases levels, 0
  {
    hide ReadInode, ReadDir, WalkEntries, Readable;
    assert ReadableAt(z, img, refs, iref) by { ReadableIn(z, img, refs, iref); }
    var inode := ReadInode(z, img, iref).value;
    if inode.DirInode? && levels > 0 {
      EntriesNeverFail(z, img, refs, ReadDir(z, img, inode).value, path, levels - 1);
    }
  }

  lemma ReadableIn(z: Zstd, img: Image, refs: set<nat>, r: nat)
    requires img.sb.blockSize > 0 && Readable(z, img, refs) && r in refs
    ensures ReadableAt(z, img, refs, r)
  {
    hide ReadableAt;
  }

  lemma {:induction false} EntriesNeverFail(z: Zstd, img: Image, refs: set<nat>, entries: seq<DirEntryInfo>,
                                            path: Bytes, levels: nat)
    requires img.sb.blockSize > 0 && Readable(z, img, refs)
    requires forall k :: 0 <= k < |entries| ==> entries[k].inodeRef in refs
    ensures !WalkEntries(z, img, entries, path, levels).Failed?
    decreases levels, 1 + |entries|
  {
    hide WalkNode, Join, Readable;
    if entries != [] {
      ReadableNeverFails(z, img, refs, entries[0].inodeRef, Join(path, entries[0].name), levels);
      EntriesNeverFail(z, img, refs, entries[1..], path, levels);
    }
  }

  /** Visiting a directory visits what it lists, in fewer levels. */
  lemma ListedVisited(z: Zstd, img: Image, r: nat, q: nat, levels: nat)
    requires img.sb.blockSize > 0 && WalkNode(z, img, r, [SLASH], levels).Visits? && Lists(z, img, r, q)
    ensures levels > 0 && WalkNode(z, img, q, [SLASH], levels - 1).Visits?
  {
    hide ReadInode, ReadDir, WalkEntries;
    var entries := Listing(z, img, r).value;
    var k :| 0 <= k < |entries| && entries[k].inodeRef == q;
    EntryVisited(z, img, entries, k, [SLASH], levels - 1);
  }

  lemma {:induction false} EntryVisited(z: Zstd, img: Image, entries: seq<DirEntryInfo>, k: nat, path: Bytes,
                                        levels: nat)
    requires img.sb.blockSize > 0 && k < |entries| && WalkEntries(z, img, entries, path, levels).Visits?
    ensures WalkNode(z, img, entries[k].inodeRef, [SLASH], levels).Visits?
    decreases k
  {
    hide WalkNode, Join;
    if k == 0 {
      NodeAlike(z, img, entries[0].inodeRef, Join(path, entries[0].name), [SLASH], levels);
    } else {
      EntryVisited(z, img, entries[1..], k - 1, path, levels);
    }
  }

  lemma {:induction false} PathVisited(z: Zstd, img: Image, path: seq<nat>, k: nat, levels: nat)
    requires img.sb.blockSize > 0 && Path(z, img, path) && k < |path|
    requires WalkNode(z, img, path[0], [SLASH], levels).Visits?
    ensures k <= levels && WalkNode(z, img, path[k], [SLASH], levels - k).Visits?
    decreases k
  {
    hide WalkNode, Lists;
    if k > 0 {
      PathVisited(z, img, path, k - 1, levels);
      assert Lists(z, img, path[k - 1], path[k]);
      ListedVisited(z, img, path[k - 1], path[k], levels - (k - 1));
    }
  }

  /** No directory on a cycle is ever visited completely. */
  lemma {:induction false} CycleNotVisited(z: Zstd, img: Image, cycle: seq<nat>, levels: nat)
    requires img.sb.blockSize > 0 && Path(z, img, cycle) && |cycle| > 1 && cycle[0] == cycle[|cycle| - 1]
    ensures !WalkNode(z, img, cycle[0], [SLASH], levels).Visits?
    decreases levels
  {
    hide WalkNode, Path;
    if WalkNode(z, img, cycle[0], [SLASH], levels).Visits? {
      PathVisited(z, img, cycle, |cycle| - 1, levels);
      CycleNotVisited(z, img, cycle, levels - (|cycle| - 1));
    }
  }

  lemma CycleBottomless(z: Zstd, img: Image, refs: set<nat>, path: seq<nat>)
    requires img.sb.blockSize > 0 && Readable(z, img, refs) && img.sb.rootInodeRef in refs && ComesBack(z, img, path)
    ensures Bottomless(z, img, img.sb.rootInodeRef)
  {
    hide WalkNode, Readable, Lists;
    var root, n := img.sb.rootInodeRef, |path| - 1;
    var i: nat :| i < n && path[i] == path[n];
    forall levels: nat ensures WalkNode(z, img, root, [SLASH], levels) == TooDeep {
      ReadableNeverFails(z, img, refs, root, [SLASH], levels);
      if WalkNode(z, img, root, [SLASH], levels).Visits? {
        PathVisited(z, img, path, i, levels);
        PathFrom(z, img, path, i);
        CycleNotVisited(z, img, path[i..], levels - i);
      }
    }
  }

  lemma PathFrom(z: Zstd, img: Image, path: seq<nat>, i: nat)
    requires img.sb.blockSize > 0 && Path(z, img, path) && i <= |path|
    ensures Path(z, img, path[i..])
  {
    hide Lists;
    forall k | 0 < k < |path[i..]| ensures Lists(z, img, path[i..][k - 1], path[i..][k]) {
      assert path[i..][k - 1] == path[i + k - 1] && path[i..][k] == path[i + k];
    }
  }

  /** From a bottomless reference a path goes on along bottomless ones, through finitely many
      references, until it comes back. */
  lemma {:induction false} BottomlessComesBack(z: Zstd, img: Image, refs: set<nat>, path: seq<nat>)
    returns (longer: seq<nat>)
    requires img.sb.blockSize > 0 && Readable(z, img, refs)
    requires path != [] && path[0] == img.sb.rootInodeRef && Path(z, img, path)
    requires (forall k :: 0 <= k < |path| ==> path[k] in refs) && Bottomless(z, img, path[|path| - 1])
    ensures ComesBack(z, img, longer)
    decreases refs - Met(path)
  {
    hide Readable, Bottomless, Lists, Met;
    var q := NextBottomless(z, img, refs, path[|path| - 1]);
    longer := path + [q];
    if i: nat :| i < |path| && path[i] == q {
      assert longer[i] == longer[|longer| - 1];
    } else {
      MetMore(path, q);
      longer := BottomlessComesBack(z, img, refs, path + [q]);
    }
  }

  ghost function Met(path: seq<nat>): set<nat> {
    set r | r in path
  }

  lemma MetMore(path: seq<nat>, q: nat)
    requires q !in path
    ensures Met(path) <= Met(path + [q]) && q in Met(path + [q]) && q !in Met(path)
  {
  }

  lemma NextBottomless(z: Zstd, img: Image, refs: set<nat>, r: nat) returns (q: nat)
    requires img.sb.blockSize > 0 && Readable(z, img, refs) && r in refs && Bottomless(z, img, r)
    ensures q in refs && Bottomless(z, img, q) && Lists(z, img, r, q)
  {
    ReadableIn(z, img, refs, r);
    BottomlessListing(z, img, r);
    hide ReadInode, ReadDir, Bottomless, Readable, WalkEntries;
    var entries := Listing(z, img, r).value;
    var k := BottomlessEntry(z, img, entries, [SLASH]);
    q := entries[k].inodeRef;
  }

  /** Where everything can be read, a walk ends if and only if no path comes back to a
      directory it has left. */
  lemma ReadableEndsExactly(z: Zstd, img: Image, refs: set<nat>)
    requires img.sb.blockSize > 0 && Readable(z, img, refs) && img.sb.rootInodeRef in refs
    ensures Ends(z, img) <==> !exists path :: ComesBack(z, img, path)
  {
    hide Readable, Bottomless, Ends, Lists, ComesBack;
    var root := img.sb.rootInodeRef;
    EndsUnlessBottomless(z, img);
    if Bottomless(z, img, root) {
      var path := BottomlessComesBack(z, img, refs, [root]);
    }
    if path :| ComesBack(z, img, path) { CycleBottomless(z, img, refs, path); }
  }

  // ----- two simple cases -----

  /** References into `refs` descend along directories. */
  ghost predicate Descending(z: Zstd, img: Image, refs: set<nat>)
    requires img.sb.blockSize > 0
  {
    forall r :: r in refs ==> DescendsFrom(z, img, refs, r)
  }

  ghost predicate DescendsFrom(z: Zstd, img: Image, refs: set<nat>, r: nat)
    requires img.sb.blockSize > 0
  {
    var inode := ReadInode(z, img, r);
    inode.Some? && inode.value.DirInode? ==>
      var entries := ReadDir(z, img, inode.value);
      entries.Some? ==> forall e <- entries.value :: e.inodeRef in refs && e.inodeRef < r
  }

  ghost predicate Walkable(z: Zstd, img: Image)
    requires img.sb.blockSize > 0
  {
    exists refs: set<nat> :: img.sb.rootInodeRef in refs && Descending(z, img, refs)
  }

  /** Descending references are in no endless set. */
  lemma {:induction false} DescendingNotEndless(z: Zstd, img: Image, refs: set<nat>, s: iset<nat>, r: nat)
    requires img.sb.blockSize > 0 && Descending(z, img, refs) && r in refs && Endless(z, img, s)
    ensures r !in s
    decreases r
  {
    hide ReadInode, ReadDir, Endless, Visited;
    if r in s {
      assert DescendsFrom(z, img, refs, r);
      EndlessAt(z, img, s, r);
      var entries := Listing(z, img, r).value;
      var k: nat :| LeadsInto(z, img, s, entries, k);
      assert entries[k] in entries;
      DescendingNotEndless(z, img, refs, s, entries[k].inodeRef);
    }
  }

  /** Where references descend, a walk ends. */
  lemma DescendingEnds(z: Zstd, img: Image)
    requires img.sb.blockSize > 0 && Walkable(z, img)
    ensures Ends(z, img)
  {
    hide Endless, Descending, Ends;
    var refs: set<nat> :| img.sb.rootInodeRef in refs && Descending(z, img, refs);
    EndsExactly(z, img);
    forall s: iset<nat> | Endless(z, img, s) ensures img.sb.rootInodeRef !in s {
      DescendingNotEndless(z, img, refs, s, img.sb.rootInodeRef);
    }
  }

  /** The first entry of the directory at `iref` is that directory itself. */
  ghost predicate LeadsBack(z: Zstd, img: Image, iref: nat)
    requires img.sb.blockSize > 0
  {
    var entries := Listing(z, img, iref);
    entries.Some? && entries.value != [] && entries.value[0].inodeRef == iref
  }

  /** A walk of such a root does not end: the code recurses without a check for this. */
  lemma LoopNeverEnds(z: Zstd, img: Image)
    requires img.sb.blockSize > 0 && LeadsBack(z, img, img.sb.rootInodeRef)
    ensures !Ends(z, img)
  {
    hide Listing, Ends, Visited;
    var root := img.sb.rootInodeRef;
    var s := iset{root};
    assert LeadsInto(z, img, s, Listing(z, img, root).value, 0);
    assert GoesOn(z, img, s, root);
    hide GoesOn;
    assert Endless(z, img, s);
    EndsExactly(z, img);
  }
}
