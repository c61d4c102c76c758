/** Choosing which files' data to store: names of one file once, equal contents once. */
module Dedup {
  import opened Bytes
  import opened Metadata
  import opened Inodes
  import opened Tree

  type Hash = Bytes -> Bytes

  datatype DataFileEntry = DataFileEntry(data: Bytes, hasFullBlocks: bool, fullBlocksLen: nat)

  datatype DedupCopy = DedupCopy(idx: nat, first: nat, fileSize: nat)

  function EntryOf(data: Bytes): DataFileEntry {
    var len := |data| / DATA_BLOCK_SIZE * DATA_BLOCK_SIZE;
    DataFileEntry(data, len > 0, len)
  }

  predicate IsFile(ns: seq<Node>, i: nat) {
    i < |ns| && ns[i].kind.File?
  }

  function LinkKey(ns: seq<Node>, i: nat): (nat, nat)
    requires i < |ns|
  {
    (ns[i].hostDev, ns[i].hostIno)
  }

  function ContentKey(sha: Hash, data: Bytes): (nat, Bytes) {
    (|data|, sha(data))
  }

  function Originals(files: seq<(nat, DataFileEntry)>): set<nat> {
    set k | 0 <= k < |files| :: files[k].0
  }

  function CopyIdxs(copies: seq<DedupCopy>): set<nat> {
    set k | 0 <= k < |copies| :: copies[k].idx
  }

  lemma OriginalsPush(files: seq<(nat, DataFileEntry)>, f: (nat, DataFileEntry))
    ensures Originals(files + [f]) == Originals(files) + {f.0}
  {
    var a := files + [f];
    forall i | i in Originals(files) + {f.0} ensures i in Originals(a) {
      if i == f.0 {
        assert a[|files|].0 == i;
      } else {
        var k :| 0 <= k < |files| && files[k].0 == i;
        assert a[k].0 == i;
      }
    }
  }

  lemma CopyIdxsPush(copies: seq<DedupCopy>, c: DedupCopy)
    ensures CopyIdxs(copies + [c]) == CopyIdxs(copies) + {c.idx}
  {
    var a := copies + [c];
    forall i | i in CopyIdxs(copies) + {c.idx} ensures i in CopyIdxs(a) {
      if i == c.idx {
        assert a[|copies|].idx == i;
      } else {
        var k :| 0 <= k < |copies| && copies[k].idx == i;
        assert a[k].idx == i;
      }
    }
  }

  /** The node whose data information serves file `i`. */
  function DataIdx(ns: seq<Node>, hlFirst: map<(nat, nat), nat>, i: nat): nat
    requires i < |ns|
  {
    if IsLink(ns, i) && LinkKey(ns, i) in hlFirst then hlFirst[LinkKey(ns, i)] else i
  }

  /** Every stored file is a file of the tree, once, with its own data. */
  ghost predicate StoredOnce(ns: seq<Node>, files: seq<(nat, DataFileEntry)>) {
    && (forall k :: 0 <= k < |files| ==> IsFile(ns, files[k].0) && files[k].1 == EntryOf(ns[files[k].0].kind.data))
    && forall k, l :: 0 <= k < l < |files| ==> files[k].0 != files[l].0
  }

  /** No two stored files have equal (size, hash), empty ones aside. */
  ghost predicate ContentOnce(sha: Hash, files: seq<(nat, DataFileEntry)>) {
    forall k, l :: 0 <= k < l < |files| && files[k].1.data != [] ==>
      ContentKey(sha, files[k].1.data) != ContentKey(sha, files[l].1.data)
  }

  /** Copies refer to stored files of equal size and hash, never to other copies. */
  ghost predicate CopiesSound(ns: seq<Node>, sha: Hash, files: seq<(nat, DataFileEntry)>, copies: seq<DedupCopy>) {
    forall k :: 0 <= k < |copies| ==> CopySound(ns, sha, files, copies[k])
  }

  ghost predicate CopySound(ns: seq<Node>, sha: Hash, files: seq<(nat, DataFileEntry)>, c: DedupCopy) {
    && IsFile(ns, c.idx) && IsFile(ns, c.first)
    && c.first in Originals(files) && c.idx !in Originals(files)
    && c.fileSize == |ns[c.idx].kind.data|
    && ContentKey(sha, ns[c.idx].kind.data) == ContentKey(sha, ns[c.first].kind.data)
  }

  ghost predicate LinksFound(ns: seq<Node>, p: nat, hlFirst: map<(nat, nat), nat>)
    requires p <= |ns|
  {
    && (forall i :: 1 <= i < p && IsLink(ns, i) ==> LinkKey(ns, i) in hlFirst)
    && (forall k :: k in hlFirst ==> 1 <= hlFirst[k] < p && IsLink(ns, hlFirst[k]) && LinkKey(ns, hlFirst[k]) == k)
  }

  /** Every file among the nodes 1..p has data information coming to it. */
  ghost predicate Served(ns: seq<Node>, p: nat, files: seq<(nat, DataFileEntry)>, copies: seq<DedupCopy>,
                         hlFirst: map<(nat, nat), nat>)
    requires p <= |ns|
  {
    forall i :: 1 <= i < p && IsFile(ns, i) ==> DataIdx(ns, hlFirst, i) in Originals(files) + CopyIdxs(copies)
  }

  /** The content map remembers exactly the non-empty stored files. */
  ghost predicate MapSound(sha: Hash, files: seq<(nat, DataFileEntry)>, dedupMap: map<(nat, Bytes), nat>) {
    && (forall k :: 0 <= k < |files| && files[k].1.data != [] ==> ContentKey(sha, files[k].1.data) in dedupMap)
    && (forall key :: key in dedupMap ==> exists k :: 0 <= k < |files| && files[k].0 == dedupMap[key]
                                              && ContentKey(sha, files[k].1.data) == key)
  }

  ghost predicate Before(p: nat, files: seq<(nat, DataFileEntry)>, copies: seq<DedupCopy>) {
    (forall i :: i in Originals(files) ==> i < p) && (forall i :: i in CopyIdxs(copies) ==> i < p)
  }

  ghost predicate Plan(ns: seq<Node>, sha: Hash, p: nat, files: seq<(nat, DataFileEntry)>, copies: seq<DedupCopy>,
                       hlFirst: map<(nat, nat), nat>)
    requires p <= |ns|
  {
    && StoredOnce(ns, files) && ContentOnce(sha, files) && CopiesSound(ns, sha, files, copies)
    && LinksFound(ns, p, hlFirst) && Served(ns, p, files, copies, hlFirst)
  }

  class Collector {
    const ns: seq<Node>
    const sha: Hash
    var dataFiles: seq<(nat, DataFileEntry)>
    var dedupCopies: seq<DedupCopy>
    var hlFirst: map<(nat, nat), nat>
    var dedupMap: map<(nat, Bytes), nat>

    ghost predicate Collected(p: nat)
      reads this
    {
      && p <= |ns| && |dataFiles| < p
      && Plan(ns, sha, p, dataFiles, dedupCopies, hlFirst)
      && MapSound(sha, dataFiles, dedupMap) && Before(p, dataFiles, dedupCopies)
    }

    constructor (ns: seq<Node>, sha: Hash)
      requires |ns| > 0
      ensures this.ns == ns && this.sha == sha && Collected(1)
    {
      this.ns, this.sha := ns, sha;
      dataFiles, dedupCopies, hlFirst, dedupMap := [], [], map[], map[];
    }

    method CollectDataFilesDfs(dir: nat)
      requires WellLaid(ns) && dir < |ns| && ns[dir].kind.Directory? && Collected(dir + 1)
      modifies this
      ensures Collected(SubEnd(ns, dir))
      decreases |ns| - dir
    {
      hide Plan, MapSound, Before, WellLaid, SubEnd, Position;
      var children := ns[dir].kind.children;
      ChildAt(ns, dir, 0);
      for k := 0 to |children|
        invariant Collected(Position(ns, dir, k))
      {
        var child := children[k];
        ChildAt(ns, dir, k);
        SubEndOfLeaf(ns, child);
        match ns[child].kind {
          case File(data, nlink) =>
            CollectFile(child);
          case Symlink(target) =>
            PlanSkip(ns, sha, child, dataFiles, dedupCopies, hlFirst);
          case Directory(cs) =>
            PlanSkip(ns, sha, child, dataFiles, dedupCopies, hlFirst);
            CollectDataFilesDfs(child);
        }
      }
    }

    /** One file: skip a further name of a seen file, record a copy of a seen content, or
        schedule the data for storing. */
    method CollectFile(child: nat)
      requires 1 <= child < |ns| && ns[child].kind.File? && Collected(child)
      modifies this
      ensures Collected(child + 1)
    {
      hide Plan, MapSound, Before;
      var data, key := ns[child].kind.data, LinkKey(ns, child);
      ghost var hl := hlFirst;
      if ns[child].kind.nlink > 1 {
        if key in hlFirst {
          PlanLink(ns, sha, child, dataFiles, dedupCopies, hlFirst);
          return;
        }
        hlFirst := hlFirst[key := child];
      }
      if data != [] {
        var dedupKey := ContentKey(sha, data);
        if dedupKey in dedupMap {
          PlanCopy(ns, sha, child, dataFiles, dedupCopies, hl, dedupMap);
          dedupCopies := dedupCopies + [DedupCopy(child, dedupMap[dedupKey], |data|)];
          return;
        }
        PlanStore(ns, sha, child, dataFiles, dedupCopies, hl, dedupMap);
        dedupMap := dedupMap[dedupKey := child];
      } else {
        PlanStore(ns, sha, child, dataFiles, dedupCopies, hl, dedupMap);
      }
      dataFiles := dataFiles + [(child, EntryOf(data))];
    }
  }

  function Noted(ns: seq<Node>, c: nat, hl: map<(nat, nat), nat>): map<(nat, nat), nat>
    requires c < |ns|
  {
    if IsLink(ns, c) then hl[LinkKey(ns, c) := c] else hl
  }

  lemma PlanSkip(ns: seq<Node>, sha: Hash, c: nat, files: seq<(nat, DataFileEntry)>, copies: seq<DedupCopy>,
                 hl: map<(nat, nat), nat>)
    requires 1 <= c < |ns| && !ns[c].kind.File? && Plan(ns, sha, c, files, copies, hl) && Before(c, files, copies)
    ensures Plan(ns, sha, c + 1, files, copies, hl) && Before(c + 1, files, copies)
  {
    hide StoredOnce, ContentOnce, CopiesSound, Originals, CopyIdxs;
  }

  lemma PlanLink(ns: seq<Node>, sha: Hash, c: nat, files: seq<(nat, DataFileEntry)>, copies: seq<DedupCopy>,
                 hl: map<(nat, nat), nat>)
    requires 1 <= c < |ns| && IsLink(ns, c) && LinkKey(ns, c) in hl
    requires Plan(ns, sha, c, files, copies, hl) && Before(c, files, copies)
    ensures Plan(ns, sha, c + 1, files, copies, hl) && Before(c + 1, files, copies)
  {
    hide StoredOnce, ContentOnce, CopiesSound, Originals, CopyIdxs;
    assert DataIdx(ns, hl, c) == DataIdx(ns, hl, hl[LinkKey(ns, c)]);
  }

  lemma LinksNoted(ns: seq<Node>, c: nat, hl: map<(nat, nat), nat>)
    requires 1 <= c < |ns| && LinksFound(ns, c, hl) && (IsLink(ns, c) ==> LinkKey(ns, c) !in hl)
    ensures LinksFound(ns, c + 1, Noted(ns, c, hl))
    ensures DataIdx(ns, Noted(ns, c, hl), c) == c
    ensures forall i :: 1 <= i < c ==> DataIdx(ns, Noted(ns, c, hl), i) == DataIdx(ns, hl, i)
  {
  }

  lemma ServedMore(ns: seq<Node>, c: nat, files: seq<(nat, DataFileEntry)>, copies: seq<DedupCopy>,
                   hl: map<(nat, nat), nat>, files': seq<(nat, DataFileEntry)>, copies': seq<DedupCopy>)
    requires 1 <= c < |ns| && LinksFound(ns, c, hl) && (IsLink(ns, c) ==> LinkKey(ns, c) !in hl)
    requires Served(ns, c, files, copies, hl)
    requires Originals(files) <= Originals(files') && CopyIdxs(copies) <= CopyIdxs(copies')
    requires c in Originals(files') + CopyIdxs(copies')
    ensures Served(ns, c + 1, files', copies', Noted(ns, c, hl))
  {
    LinksNoted(ns, c, hl);
    hide LinksFound, Noted, Originals, CopyIdxs, DataIdx, IsFile;
  }

  lemma PlanCopy(ns: seq<Node>, sha: Hash, c: nat, files: seq<(nat, DataFileEntry)>, copies: seq<DedupCopy>,
                 hl: map<(nat, nat), nat>, dm: map<(nat, Bytes), nat>)
    requires 1 <= c < |ns| && ns[c].kind.File? && (IsLink(ns, c) ==> LinkKey(ns, c) !in hl)
    requires Plan(ns, sha, c, files, copies, hl) && MapSound(sha, files, dm) && Before(c, files, copies)
    requires ContentKey(sha, ns[c].kind.data) in dm
    ensures var key := ContentKey(sha, ns[c].kind.data);
            var copies' := copies + [DedupCopy(c, dm[key], |ns[c].kind.data|)];
            Plan(ns, sha, c + 1, files, copies', Noted(ns, c, hl)) && Before(c + 1, files, copies')
  {
    hide ContentOnce, Served, Originals, CopyIdxs;
    var copy := DedupCopy(c, dm[ContentKey(sha, ns[c].kind.data)], |ns[c].kind.data|);
    LinksNoted(ns, c, hl);
    CopyIdxsPush(copies, copy);
    ServedMore(ns, c, files, copies, hl, files, copies + [copy]);
    CopyIsSound(ns, sha, files, dm, copy);
  }

  lemma CopyIsSound(ns: seq<Node>, sha: Hash, files: seq<(nat, DataFileEntry)>, dm: map<(nat, Bytes), nat>,
                    copy: DedupCopy)
    requires IsFile(ns, copy.idx) && copy.idx !in Originals(files) && StoredOnce(ns, files) && MapSound(sha, files, dm)
    requires var key := ContentKey(sha, ns[copy.idx].kind.data);
             key in dm && copy.first == dm[key] && copy.fileSize == |ns[copy.idx].kind.data|
    ensures CopySound(ns, sha, files, copy)
  {
    var key := ContentKey(sha, ns[copy.idx].kind.data);
    var k :| 0 <= k < |files| && files[k].0 == dm[key] && ContentKey(sha, files[k].1.data) == key;
    assert files[k].1 == EntryOf(ns[files[k].0].kind.data);
  }

  lemma PlanStore(ns: seq<Node>, sha: Hash, c: nat, files: seq<(nat, DataFileEntry)>, copies: seq<DedupCopy>,
                  hl: map<(nat, nat), nat>, dm: map<(nat, Bytes), nat>)
    requires 1 <= c < |ns| && ns[c].kind.File? && (IsLink(ns, c) ==> LinkKey(ns, c) !in hl)
    requires Plan(ns, sha, c, files, copies, hl) && MapSound(sha, files, dm) && Before(c, files, copies)
    requires ns[c].kind.data == [] || ContentKey(sha, ns[c].kind.data) !in dm
    ensures var data := ns[c].kind.data;
            var files' := files + [(c, EntryOf(data))];
            && Plan(ns, sha, c + 1, files', copies, Noted(ns, c, hl)) && Before(c + 1, files', copies)
            && MapSound(sha, files', if data == [] then dm else dm[ContentKey(sha, data) := c])
  {
    hide Served, Originals, CopyIdxs;
    var f := (c, EntryOf(ns[c].kind.data));
    LinksNoted(ns, c, hl);
    OriginalsPush(files, f);
    ServedMore(ns, c, files, copies, hl, files + [f], copies);
    StoredMore(ns, sha, files, dm, c);
    CopiesKept(ns, sha, files, copies, f);
  }

  lemma StoredMore(ns: seq<Node>, sha: Hash, files: seq<(nat, DataFileEntry)>, dm: map<(nat, Bytes), nat>, c: nat)
    requires c < |ns| && ns[c].kind.File? && c !in Originals(files)
    requires StoredOnce(ns, files) && ContentOnce(sha, files) && MapSound(sha, files, dm)
    requires ns[c].kind.data == [] || ContentKey(sha, ns[c].kind.data) !in dm
    ensures var data := ns[c].kind.data;
            var files' := files + [(c, EntryOf(data))];
            && StoredOnce(ns, files') && ContentOnce(sha, files')
            && MapSound(sha, files', if data == [] then dm else dm[ContentKey(sha, data) := c])
  {
    StoredOnceMore(ns, files, c);
    ContentOnceMore(sha, files, dm, c, ns[c].kind.data);
    MapSoundMore(sha, files, dm, c, ns[c].kind.data);
    hide StoredOnce, ContentOnce, MapSound;
  }

  lemma StoredOnceMore(ns: seq<Node>, files: seq<(nat, DataFileEntry)>, c: nat)
    requires c < |ns| && ns[c].kind.File? && c !in Originals(files) && StoredOnce(ns, files)
    ensures StoredOnce(ns, files + [(c, EntryOf(ns[c].kind.data))])
  {
  }

  lemma ContentOnceMore(sha: Hash, files: seq<(nat, DataFileEntry)>, dm: map<(nat, Bytes), nat>, c: nat, data: Bytes)
    requires ContentOnce(sha, files) && MapSound(sha, files, dm) && (data == [] || ContentKey(sha, data) !in dm)
    ensures ContentOnce(sha, files + [(c, EntryOf(data))])
  {
    forall k | 0 <= k < |files| && files[k].1.data != []
      ensures ContentKey(sha, files[k].1.data) != ContentKey(sha, data)
    {
      assert ContentKey(sha, files[k].1.data) in dm;
    }
    hide MapSound;
  }

  lemma MapSoundMore(sha: Hash, files: seq<(nat, DataFileEntry)>, dm: map<(nat, Bytes), nat>, c: nat, data: Bytes)
    requires MapSound(sha, files, dm)
    ensures MapSound(sha, files + [(c, EntryOf(data))], if data == [] then dm else dm[ContentKey(sha, data) := c])
  {
    var files' := files + [(c, EntryOf(data))];
    var dm' := if data == [] then dm else dm[ContentKey(sha, data) := c];
    forall key | key in dm'
      ensures exists k :: 0 <= k < |files'| && files'[k].0 == dm'[key] && ContentKey(sha, files'[k].1.data) == key
    {
      if data != [] && key == ContentKey(sha, data) {
        assert files'[|files|].0 == dm'[key];
      } else {
        var k :| 0 <= k < |files| && files[k].0 == dm[key] && ContentKey(sha, files[k].1.data) == key;
        assert files'[k] == files[k];
      }
    }
  }

  lemma CopiesKept(ns: seq<Node>, sha: Hash, files: seq<(nat, DataFileEntry)>, copies: seq<DedupCopy>,
                   f: (nat, DataFileEntry))
    requires CopiesSound(ns, sha, files, copies) && f.0 !in CopyIdxs(copies)
    ensures CopiesSound(ns, sha, files + [f], copies)
  {
    OriginalsPush(files, f);
    hide Originals;
    forall k | 0 <= k < |copies| ensures CopySound(ns, sha, files + [f], copies[k]) {
      assert CopySound(ns, sha, files, copies[k]);
      assert copies[k].idx in CopyIdxs(copies);
    }
  }
}
