/** The scanned tree: an arena of nodes in depth-first order, as the scanner pushes them. */
module Tree {
  import opened Bytes

  datatype Kind =
    | File(data: Bytes, nlink: nat)
    | Symlink(target: Bytes)
    | Directory(children: seq<nat>)

  datatype Node = Node(name: Bytes, permissions: nat, hostDev: nat, hostIno: nat, parentIdx: nat, kind: Kind)

  /** The scanner creates the root first. */
  const ROOT: nat := 0

  /** One past the last node of the subtree of `i`. */
  function SubEnd(ns: seq<Node>, i: nat): (e: nat)
    requires i < |ns|
    ensures i < e <= |ns|
    decreases |ns| - i
  {
    if ns[i].kind.Directory? && ns[i].kind.children != [] then
      var last := ns[i].kind.children[|ns[i].kind.children| - 1];
      if i < last < |ns| then SubEnd(ns, last) else i + 1
    else i + 1
  }

  /** Where child `k` of directory `i` lies: right after the directory, or after the subtree
      of the child before it. */
  function ChildStart(ns: seq<Node>, i: nat, k: nat): nat
    requires i < |ns| && ns[i].kind.Directory? && k <= |ns[i].kind.children|
    requires forall j :: 0 <= j < |ns[i].kind.children| ==> ns[i].kind.children[j] < |ns|
  {
    if k == 0 then i + 1 else SubEnd(ns, ns[i].kind.children[k - 1])
  }

  ghost predicate DirLaid(ns: seq<Node>, i: nat)
    requires i < |ns| && ns[i].kind.Directory?
  {
    var cs := ns[i].kind.children;
    && (forall k :: 0 <= k < |cs| ==> i < cs[k] < |ns| && ns[cs[k]].parentIdx == i)
    && (forall k :: 0 <= k < |cs| ==> cs[k] == ChildStart(ns, i, k))
  }

  /** Depth-first layout: the subtree of every node is a contiguous range. */
  ghost predicate WellLaid(ns: seq<Node>) {
    && |ns| > 0 && ns[ROOT].kind.Directory? && SubEnd(ns, ROOT) == |ns|
    && forall i :: 0 <= i < |ns| && ns[i].kind.Directory? ==> DirLaid(ns, i)
  }

  lemma SubEndOfDir(ns: seq<Node>, i: nat)
    requires i < |ns| && ns[i].kind.Directory? && DirLaid(ns, i)
    ensures SubEnd(ns, i) == ChildStart(ns, i, |ns[i].kind.children|)
  {
  }

  lemma SubEndOfLeaf(ns: seq<Node>, i: nat)
    requires i < |ns|
    ensures !ns[i].kind.Directory? ==> SubEnd(ns, i) == i + 1
  {
  }

  /** Visiting the children of a directory in turn walks through its range. */
  lemma ChildAt(ns: seq<Node>, i: nat, k: nat)
    requires WellLaid(ns) && i < |ns| && ns[i].kind.Directory? && k <= |ns[i].kind.children|
    ensures Position(ns, i, 0) == i + 1 && Position(ns, i, |ns[i].kind.children|) == SubEnd(ns, i)
    ensures k < |ns[i].kind.children| ==>
      var c := ns[i].kind.children[k];
      i < c < |ns| && c == Position(ns, i, k) && SubEnd(ns, c) == Position(ns, i, k + 1) && ns[c].parentIdx == i
  {
    hide SubEnd;
    assert DirLaid(ns, i);
    SubEndOfDir(ns, i);
  }

  /** Where the traversal of directory `i` stands before child `k`. */
  function Position(ns: seq<Node>, i: nat, k: nat): (p: nat)
    requires i < |ns| && ns[i].kind.Directory? && k <= |ns[i].kind.children|
    ensures p <= |ns|
  {
    if forall j :: 0 <= j < |ns[i].kind.children| ==> ns[i].kind.children[j] < |ns| then ChildStart(ns, i, k) else i + 1
  }

  // ----- hard links -----

  /** Nodes that share an inode: names of one multiply-linked file; otherwise only the node
      itself. */
  datatype Class = Link(dev: nat, ino: nat) | Own(idx: nat)

  predicate IsLink(ns: seq<Node>, i: nat)
    requires i < |ns|
  {
    ns[i].kind.File? && ns[i].kind.nlink > 1
  }

  function ClassOf(ns: seq<Node>, i: nat): Class
    requires i < |ns|
  {
    if IsLink(ns, i) then Link(ns[i].hostDev, ns[i].hostIno) else Own(i)
  }

  /** Names of one file agree on everything but the name, as on any file system. */
  ghost predicate ConsistentLinks(ns: seq<Node>) {
    forall i, j :: 0 <= i < |ns| && 0 <= j < |ns| && ClassOf(ns, i) == ClassOf(ns, j) ==>
      ns[i].kind == ns[j].kind && ns[i].permissions == ns[j].permissions
  }

  /** Sizes the on-disk format can hold. */
  ghost predicate NodeFits(n: Node) {
    && n.permissions < 0x1_0000
    && match n.kind
       case File(data, nlink) => |data| < 0x1_0000_0000_0000_0000 && 1 <= nlink < 0x1_0000_0000
       case Symlink(target) => |target| < 0x1_0000_0000
       case Directory(children) => true
  }

  ghost predicate TreeFits(ns: seq<Node>) {
    && |ns| < 0x8000_0000
    && (forall i :: 0 <= i < |ns| ==> NodeFits(ns[i]))
    && forall i :: 0 < i < |ns| ==> 0 < |ns[i].name| < 0x1_0000
  }
}
