/** Scanning a file system tree into the arena the writer works on. */
module Scanning {
  import opened Bytes
  import opened Tree

  /** What the scanner finds; the entries of a directory in the order it takes them. Special
      files are skipped. */
  datatype Entry =
    | RegularEntry(name: Bytes, permissions: nat, dev: nat, ino: nat, data: Bytes, nlink: nat)
    | LinkEntry(name: Bytes, permissions: nat, dev: nat, ino: nat, target: Bytes)
    | DirEntry(name: Bytes, permissions: nat, dev: nat, ino: nat, entries: seq<Entry>)
    | SpecialEntry(name: Bytes)

  /** `es` are entries of `owner`. */
  ghost predicate Inside(owner: Entry, es: seq<Entry>) {
    forall k :: 0 <= k < |es| ==> es[k] < owner
  }

  /** The nodes of one entry when the first of them gets index `at`: parents before children,
      siblings in order. */
  function Laid(e: Entry, parent: nat, at: nat): (ns: seq<Node>)
    ensures |ns| == 0 <==> e.SpecialEntry?
    decreases e, 1, 0
  {
    match e
    case RegularEntry(name, permissions, dev, ino, data, nlink) =>
      [Node(name, permissions, dev, ino, parent, File(data, nlink))]
    case LinkEntry(name, permissions, dev, ino, target) => [Node(name, permissions, dev, ino, parent, Symlink(target))]
    case DirEntry(name, permissions, dev, ino, entries) =>
      [Node(name, permissions, dev, ino, parent, Directory(Starts(e, entries, at, at + 1)))]
      + LaidAll(e, entries, at, at + 1)
    case SpecialEntry(_) => []
  }

  function LaidAll(owner: Entry, es: seq<Entry>, dir: nat, at: nat): seq<Node>
    requires Inside(owner, es)
    decreases owner, 0, |es|
  {
    if es == [] then []
    else
      var first := Laid(es[0], dir, at);
      first + LaidAll(owner, es[1..], dir, at + |first|)
  }

  /** The indices of the entries' own nodes. */
  function Starts(owner: Entry, es: seq<Entry>, dir: nat, at: nat): seq<nat>
    requires Inside(owner, es)
    decreases owner, 0, |es|
  {
    if es == [] then []
    else (if es[0].SpecialEntry? then [] else [at]) + Starts(owner, es[1..], dir, at + |Laid(es[0], dir, at)|)
  }

  function WithChildren(n: Node, cs: seq<nat>): Node {
    n.(kind := Directory(cs))
  }

  class Scanner {
    var nodes: seq<Node>

    constructor ()
      ensures nodes == []
    {
      nodes := [];
    }

    /** A new node, listed by its directory. */
    method Push(node: Node, dirIdx: nat)
      requires dirIdx < |nodes| && nodes[dirIdx].kind.Directory?
      modifies this
      ensures nodes == old(nodes)[dirIdx := WithChildren(old(nodes)[dirIdx],
                                                         old(nodes)[dirIdx].kind.children + [|old(nodes)|])] + [node]
    {
      var childIdx := |nodes|;
      nodes := nodes + [node];
      nodes := nodes[dirIdx := WithChildren(nodes[dirIdx], nodes[dirIdx].kind.children + [childIdx])];
    }

    /** One entry: nothing for a special file, else its node and, for a directory, everything
        below. */
    method ScanEntry(e: Entry, dirIdx: nat)
      requires dirIdx < |nodes| && nodes[dirIdx].kind.Directory?
      modifies this
      ensures nodes == Grown(old(nodes), dirIdx, if e.SpecialEntry? then [] else [|old(nodes)|],
                             Laid(e, dirIdx, |old(nodes)|))
      decreases e, 1
    {
      hide Laid, Starts, LaidAll;
      EntryNodes(e, dirIdx, |nodes|);
      ghost var before := nodes;
      match e {
        case RegularEntry(name, permissions, dev, ino, data, nlink) =>
          Push(Node(name, permissions, dev, ino, dirIdx, File(data, nlink)), dirIdx);
        case LinkEntry(name, permissions, dev, ino, target) =>
          Push(Node(name, permissions, dev, ino, dirIdx, Symlink(target)), dirIdx);
        case DirEntry(name, permissions, dev, ino, entries) =>
          var childIdx := |nodes|;
          Push(Node(name, permissions, dev, ino, dirIdx, Directory([])), dirIdx);
          ScanDirRecursive(e, entries, childIdx);
          ghost var node := Node(name, permissions, dev, ino, dirIdx, Directory([]));
          DirectoryGrown(before, dirIdx, node, Starts(e, entries, childIdx, childIdx + 1),
                         LaidAll(e, entries, childIdx, childIdx + 1));
        case SpecialEntry(_) =>
          NothingGrown(nodes, dirIdx);
      }
    }

    method ScanDirRecursive(owner: Entry, es: seq<Entry>, dirIdx: nat)
      requires dirIdx < |nodes| && nodes[dirIdx].kind.Directory? && Inside(owner, es)
      modifies this
      ensures nodes == Grown(old(nodes), dirIdx, Starts(owner, es, dirIdx, |old(nodes)|),
                             LaidAll(owner, es, dirIdx, |old(nodes)|))
      decreases owner, 0
    {
      hide Laid, Starts, LaidAll, Grown;
      ghost var before := nodes;
      ghost var allStarts, all := Starts(owner, es, dirIdx, |nodes|), LaidAll(owner, es, dirIdx, |nodes|);
      ghost var cs: seq<nat>, rest: seq<Node> := [], [];
      assert es[0..] == es && [] + allStarts == allStarts && [] + all == all;
      NothingGrown(nodes, dirIdx);
      for k := 0 to |es|
        invariant nodes == Grown(before, dirIdx, cs, rest)
        invariant cs + Starts(owner, es[k..], dirIdx, |nodes|) == allStarts
        invariant rest + LaidAll(owner, es[k..], dirIdx, |nodes|) == all
      {
        var e := es[k];
        ghost var at := |nodes|;
        assert es[k..][0] == e && es[k..][1..] == es[k + 1..];
        NextEntry(owner, es[k..], dirIdx, at);
        ghost var laid, here := Laid(e, dirIdx, at), if e.SpecialEntry? then [] else [at];
        ScanEntry(e, dirIdx);
        GrownTwice(before, dirIdx, cs, rest, here, laid);
        Regroup(cs, here, Starts(owner, es[k + 1..], dirIdx, at + |laid|));
        RegroupNodes(rest, laid, LaidAll(owner, es[k + 1..], dirIdx, at + |laid|));
        cs, rest := cs + here, rest + laid;
      }
      assert es[|es|..] == [];
      NoEntries(owner, dirIdx, |nodes|);
      assert cs + [] == cs && rest + [] == rest;
    }
  }

  /** The arena after directory `dir` has gained children `cs` and nodes `more` have followed. */
  function Grown(ns: seq<Node>, dir: nat, cs: seq<nat>, more: seq<Node>): (r: seq<Node>)
    requires dir < |ns| && ns[dir].kind.Directory?
    ensures |r| == |ns| + |more| && r[dir].kind.Directory?
  {
    ns[dir := WithChildren(ns[dir], ns[dir].kind.children + cs)] + more
  }

  lemma NothingGrown(ns: seq<Node>, dir: nat)
    requires dir < |ns| && ns[dir].kind.Directory?
    ensures Grown(ns, dir, [], []) == ns
  {
    assert ns[dir].kind.children + [] == ns[dir].kind.children;
    assert ns[dir := ns[dir]] == ns && ns + [] == ns;
  }

  /** A directory pushed empty and then filled. */
  lemma DirectoryGrown(ns: seq<Node>, dir: nat, node: Node, cs: seq<nat>, more: seq<Node>)
    requires dir < |ns| && ns[dir].kind.Directory? && node.kind == Directory([])
    ensures Grown(ns, dir, [|ns|], [node])[|ns|] == node
    ensures Grown(Grown(ns, dir, [|ns|], [node]), |ns|, cs, more)
            == Grown(ns, dir, [|ns|], [WithChildren(node, cs)] + more)
  {
    assert [] + cs == cs;
  }

  lemma GrownTwice(ns: seq<Node>, dir: nat, cs: seq<nat>, more: seq<Node>, cs': seq<nat>, more': seq<Node>)
    requires dir < |ns| && ns[dir].kind.Directory?
    ensures Grown(Grown(ns, dir, cs, more), dir, cs', more') == Grown(ns, dir, cs + cs', more + more')
  {
    var g := Grown(ns, dir, cs, more);
    assert g[dir].kind.children + cs' == ns[dir].kind.children + (cs + cs');
  }

  lemma Regroup(a: seq<nat>, b: seq<nat>, c: seq<nat>)
    ensures a + (b + c) == (a + b) + c
  {
  }

  lemma RegroupNodes(a: seq<Node>, b: seq<Node>, c: seq<Node>)
    ensures a + (b + c) == (a + b) + c
  {
  }

  lemma NoEntries(owner: Entry, dir: nat, at: nat)
    ensures Inside(owner, [])
    ensures LaidAll(owner, [], dir, at) == [] && Starts(owner, [], dir, at) == []
  {
  }

  lemma NextEntry(owner: Entry, es: seq<Entry>, dir: nat, at: nat)
    requires es != [] && Inside(owner, es)
    ensures var first := Laid(es[0], dir, at);
            && LaidAll(owner, es, dir, at) == first + LaidAll(owner, es[1..], dir, at + |first|)
            && Starts(owner, es, dir, at) == (if es[0].SpecialEntry? then [] else [at])
              + Starts(owner, es[1..], dir, at + |first|)
  {
    hide Laid;
  }

  lemma EntryNodes(e: Entry, parent: nat, at: nat)
    ensures match e
            case RegularEntry(name, permissions, dev, ino, data, nlink) =>
              Laid(e, parent, at) == [Node(name, permissions, dev, ino, parent, File(data, nlink))]
            case LinkEntry(name, permissions, dev, ino, target) =>
              Laid(e, parent, at) == [Node(name, permissions, dev, ino, parent, Symlink(target))]
            case DirEntry(name, permissions, dev, ino, entries) =>
              Laid(e, parent, at)
              == [Node(name, permissions, dev, ino, parent, Directory(Starts(e, entries, at, at + 1)))]
                                     + LaidAll(e, entries, at, at + 1)
            case SpecialEntry(_) => Laid(e, parent, at) == []
  {
    hide LaidAll, Starts;
  }

  /** The arena of a tree whose root is a directory. */
  method ScanTree(permissions: nat, dev: nat, ino: nat, entries: seq<Entry>) returns (ns: seq<Node>)
    ensures ns == Laid(DirEntry([], permissions, dev, ino, entries), ROOT, 0)
  {
    hide Laid, LaidAll, Starts;
    var root := DirEntry([], permissions, dev, ino, entries);
    var scanner := new Scanner();
    scanner.nodes := [Node([], permissions, dev, ino, ROOT, Directory([]))];
    scanner.ScanDirRecursive(root, entries, ROOT);
    EntryNodes(root, ROOT, 0);
    assert [] + Starts(root, entries, ROOT, 1) == Starts(root, entries, ROOT, 1);
    ns := scanner.nodes;
  }

  // ----- the arena is laid out depth first -----

  /** `part` lies in the arena from index `at` on. */
  ghost predicate Within(ns: seq<Node>, at: nat, part: seq<Node>) {
    at + |part| <= |ns| && ns[at..at + |part|] == part
  }

  /** Every directory among the nodes a..b of the arena is laid out depth first. */
  ghost predicate RangeLaid(ns: seq<Node>, a: nat, b: nat) {
    forall i :: a <= i < b && i < |ns| && ns[i].kind.Directory? ==> DirLaid(ns, i)
  }

  lemma WithinSplit(ns: seq<Node>, at: nat, a: seq<Node>, b: seq<Node>)
    requires Within(ns, at, a + b)
    ensures Within(ns, at, a) && Within(ns, at + |a|, b)
  {
    var w := ns[at..at + |a + b|];
    assert ns[at..at + |a|] == w[..|a|] && ns[at + |a|..at + |a| + |b|] == w[|a|..];
  }

  /** The laid-out nodes of an entry form its subtree. */
  lemma {:induction false} EntryLaid(ns: seq<Node>, e: Entry, parent: nat, at: nat)
    requires Within(ns, at, Laid(e, parent, at)) && !e.SpecialEntry?
    ensures at < |ns| && ns[at].parentIdx == parent && SubEnd(ns, at) == at + |Laid(e, parent, at)|
    ensures RangeLaid(ns, at, at + |Laid(e, parent, at)|)
    decreases e, 1, 0
  {
    hide Laid, LaidAll, Starts, SubEnd, DirLaid, Consecutive;
    EntryNodes(e, parent, at);
    assert ns[at] == ns[at..at + |Laid(e, parent, at)|][0];
    if e.DirEntry? {
      var cs := Starts(e, e.entries, at, at + 1);
      WithinSplit(ns, at, [ns[at]], LaidAll(e, e.entries, at, at + 1));
      EntriesLaid(ns, e, e.entries, at, at + 1);
      DirectoryLaid(ns, at, cs, at + 1 + |LaidAll(e, e.entries, at, at + 1)|);
    } else {
      SubEndOfLeaf(ns, at);
    }
  }

  /** Children one after another: each begins where the one before it ends. */
  ghost predicate Consecutive(ns: seq<Node>, dir: nat, cs: seq<nat>, at: nat, end: nat) {
    && (forall k :: 0 <= k < |cs| ==> dir < cs[k] < |ns| && ns[cs[k]].parentIdx == dir)
    && (forall k :: 0 < k < |cs| ==> cs[k] == SubEnd(ns, cs[k - 1]))
    && (if cs == [] then end == at else cs[0] == at && SubEnd(ns, cs[|cs| - 1]) == end)
  }

  lemma ConsecutiveCons(ns: seq<Node>, dir: nat, c: nat, cs: seq<nat>, end: nat)
    requires dir < c < |ns| && ns[c].parentIdx == dir && Consecutive(ns, dir, cs, SubEnd(ns, c), end)
    ensures Consecutive(ns, dir, [c] + cs, c, end)
  {
    hide SubEnd;
    var all := [c] + cs;
    forall k | 0 < k < |all| ensures all[k] == SubEnd(ns, all[k - 1]) {
      if k > 1 { assert cs[k - 1] == SubEnd(ns, cs[k - 2]); }
    }
  }

  lemma NoChildren(ns: seq<Node>, dir: nat, at: nat)
    ensures Consecutive(ns, dir, [], at, at)
  {
  }

  lemma RangeJoin(ns: seq<Node>, a: nat, m: nat, b: nat)
    ensures RangeLaid(ns, a, a)
    ensures RangeLaid(ns, a, m) && RangeLaid(ns, m, b) ==> RangeLaid(ns, a, b)
  {
    hide DirLaid;
  }

  lemma {:induction false} EntriesLaid(ns: seq<Node>, owner: Entry, es: seq<Entry>, dir: nat, at: nat)
    requires Inside(owner, es) && dir < at && Within(ns, at, LaidAll(owner, es, dir, at))
    ensures Consecutive(ns, dir, Starts(owner, es, dir, at), at, at + |LaidAll(owner, es, dir, at)|)
    ensures RangeLaid(ns, at, at + |LaidAll(owner, es, dir, at)|)
    decreases owner, 0, |es|
  {
    hide Laid, LaidAll, Starts, SubEnd, DirLaid, Consecutive, Within, RangeLaid;
    RangeJoin(ns, at, at, at);
    if es == [] {
      NoEntries(owner, dir, at);
      NoChildren(ns, dir, at);
    } else {
      var first, t := Laid(es[0], dir, at), es[1..];
      NextEntry(owner, es, dir, at);
      WithinSplit(ns, at, first, LaidAll(owner, t, dir, at + |first|));
      EntriesLaid(ns, owner, t, dir, at + |first|);
      if es[0].SpecialEntry? {
        EntryNodes(es[0], dir, at);
        assert first + LaidAll(owner, t, dir, at) == LaidAll(owner, t, dir, at);
        assert [] + Starts(owner, t, dir, at) == Starts(owner, t, dir, at);
      } else {
        EntryLaid(ns, es[0], dir, at);
        RangeJoin(ns, at, at + |first|, at + |LaidAll(owner, es, dir, at)|);
        ConsecutiveCons(ns, dir, at, Starts(owner, t, dir, at + |first|), at + |LaidAll(owner, es, dir, at)|);
      }
    }
  }

  lemma DirectoryLaid(ns: seq<Node>, at: nat, cs: seq<nat>, end: nat)
    requires at < |ns| && ns[at].kind == Directory(cs) && Consecutive(ns, at, cs, at + 1, end)
    ensures DirLaid(ns, at) && SubEnd(ns, at) == end
  {
    assert SubEnd(ns, at) == end by { DirectoryEnd(ns, at, cs, end); }
    hide SubEnd;
  }

  lemma DirectoryEnd(ns: seq<Node>, at: nat, cs: seq<nat>, end: nat)
    requires at < |ns| && ns[at].kind == Directory(cs) && Consecutive(ns, at, cs, at + 1, end)
    ensures SubEnd(ns, at) == end
  {
  }

  /** Every scanned tree is laid out depth first. */
  lemma ScannedWellLaid(root: Entry)
    requires root.DirEntry?
    ensures WellLaid(Laid(root, ROOT, 0))
  {
    hide Laid, SubEnd, DirLaid;
    var ns := Laid(root, ROOT, 0);
    EntryNodes(root, ROOT, 0);
    assert ns[0..|ns|] == ns;
    EntryLaid(ns, root, ROOT, 0);
  }
}
