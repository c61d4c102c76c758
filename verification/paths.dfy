/** The path of a node of the tree: a slash and a name for every step below the root. */
module TreePaths {
  import opened Bytes
  import opened Reader
  import opened Tree

  /** The names met on the way from the root, which contributes none, down to node `i`. */
  function NamesTo(ns: seq<Node>, i: nat): seq<Bytes>
    requires i < |ns|
  {
    if i == ROOT || ns[i].parentIdx >= i then [] else NamesTo(ns, ns[i].parentIdx) + [ns[i].name]
  }

  /** One 0x2F byte and the name, for each name. */
  function Slashed(names: seq<Bytes>): Bytes {
    Joined(seq(|names|, k requires 0 <= k < |names| => [0x2F] + names[k]))
  }

  function PathOf(ns: seq<Node>, i: nat): Bytes
    requires i < |ns|
  {
    if NamesTo(ns, i) == [] then [0x2F] else Slashed(NamesTo(ns, i))
  }

  lemma SlashedPush(names: seq<Bytes>, name: Bytes)
    ensures Slashed(names + [name]) == Slashed(names) + ([0x2F] + name)
  {
    var a := seq(|names|, k requires 0 <= k < |names| => [0x2F] + names[k]);
    JoinedPush(a, [0x2F] + name);
    assert seq(|names + [name]|, k requires 0 <= k < |names + [name]| => [0x2F] + (names + [name])[k])
        == a + [[0x2F] + name];
  }

  lemma SlashedLast(names: seq<Bytes>)
    requires names != []
    ensures Slashed(names) == Slashed(names[..|names| - 1]) + ([0x2F] + names[|names| - 1])
  {
    assert names == names[..|names| - 1] + [names[|names| - 1]];
    SlashedPush(names[..|names| - 1], names[|names| - 1]);
  }

  /** Joining a name to a node's path gives the path of the child with that name. */
  lemma ChildPathJoins(ns: seq<Node>, i: nat, child: nat)
    requires i < child < |ns| && ns[child].parentIdx == i
    requires forall k :: 1 <= k < |ns| ==> ns[k].name != []
    ensures PathOf(ns, child) == Join(PathOf(ns, i), ns[child].name)
  {
    hide Slashed;
    var names, name := NamesTo(ns, i), ns[child].name;
    assert NamesTo(ns, child) == names + [name];
    SlashedPush(names, name);
    if names == [] {
      assert Slashed([]) == [] by { NoNames(); }
      assert [] + ([0x2F] + name) == [SLASH] + name;
    } else {
      SlashedLast(names);
      assert names[|names| - 1] == ns[i].name;
      assert Slashed(names) + ([0x2F] + name) == Slashed(names) + [SLASH] + name;
    }
  }

  lemma NoNames()
    ensures Slashed([]) == []
  {
  }

  // ----- different nodes have different paths -----

  predicate SlashFree(name: Bytes) {
    name != [] && 0x2F !in name
  }

  /** As in any file system: names contain no slash, and the entries of a directory differ. */
  ghost predicate ProperNames(ns: seq<Node>) {
    && (forall i :: 1 <= i < |ns| ==> SlashFree(ns[i].name))
    && forall i, j :: 1 <= i < j < |ns| && ns[i].parentIdx == ns[j].parentIdx ==> ns[i].name != ns[j].name
  }

  lemma LastSlash(s: Bytes, a: Bytes, x: Bytes)
    requires SlashFree(x) && s == a + ([0x2F] + x)
    ensures |a| < |s| && s[|a|] == 0x2F && (forall k :: |a| < k < |s| ==> s[k] != 0x2F)
    ensures a == s[..|a|] && x == s[|a| + 1..]
  {
    forall k | |a| < k < |s| ensures s[k] != 0x2F {
      assert s[k] == x[k - |a| - 1];
    }
  }

  lemma LastNameIs(a: Bytes, x: Bytes, b: Bytes, y: Bytes)
    requires SlashFree(x) && SlashFree(y) && a + ([0x2F] + x) == b + ([0x2F] + y)
    ensures a == b && x == y
  {
    LastSlash(a + ([0x2F] + x), a, x);
    LastSlash(a + ([0x2F] + x), b, y);
    hide SlashFree;
    assert |a| == |b|;
  }

  lemma {:induction false} SlashedInjective(a: seq<Bytes>, b: seq<Bytes>)
    requires forall k :: 0 <= k < |a| ==> SlashFree(a[k])
    requires forall k :: 0 <= k < |b| ==> SlashFree(b[k])
    requires Slashed(a) == Slashed(b)
    ensures a == b
    decreases |a|
  {
    hide Slashed, SlashFree;
    NoNames();
    if a == [] || b == [] {
      if a != [] { SlashedLast(a); }
      if b != [] { SlashedLast(b); }
    } else {
      var m, n := |a| - 1, |b| - 1;
      SlashedLast(a);
      SlashedLast(b);
      LastNameIs(Slashed(a[..m]), a[m], Slashed(b[..n]), b[n]);
      SlashedInjective(a[..m], b[..n]);
      assert a == a[..m] + [a[m]] && b == b[..n] + [b[n]];
    }
  }

  lemma {:induction false} NamesProper(ns: seq<Node>, i: nat)
    requires ProperNames(ns) && i < |ns|
    ensures forall k :: 0 <= k < |NamesTo(ns, i)| ==> SlashFree(NamesTo(ns, i)[k])
    decreases i
  {
    hide SlashFree;
    if i != ROOT && ns[i].parentIdx < i { NamesProper(ns, ns[i].parentIdx); }
  }

  /** Every node but the root is listed by the directory before it that it names as parent. */
  lemma {:induction false} ListedBelow(ns: seq<Node>, a: nat, i: nat)
    requires WellLaid(ns) && a < |ns| && a < i < SubEnd(ns, a)
    ensures ns[i].parentIdx < i && ns[ns[i].parentIdx].kind.Directory? && i in ns[ns[i].parentIdx].kind.children
    decreases i - a
  {
    hide WellLaid, SubEnd, Position;
    SubEndOfLeaf(ns, a);
    var cs := ns[a].kind.children;
    ChildAt(ns, a, 0);
    var k: nat := 0;
    while k < |cs| && Position(ns, a, k + 1) <= i
      invariant k <= |cs| && Position(ns, a, k) <= i
    {
      k := k + 1;
    }
    ChildAt(ns, a, k);
    if i != cs[k] { ListedBelow(ns, cs[k], i); }
  }

  lemma Listed(ns: seq<Node>, i: nat)
    requires WellLaid(ns) && 1 <= i < |ns|
    ensures ns[i].parentIdx < i && ns[ns[i].parentIdx].kind.Directory? && i in ns[ns[i].parentIdx].kind.children
  {
    hide SubEnd, DirLaid;
    ListedBelow(ns, ROOT, i);
  }

  lemma {:induction false} NamesDetermine(ns: seq<Node>, i: nat, j: nat)
    requires WellLaid(ns) && ProperNames(ns) && i < |ns| && j < |ns| && NamesTo(ns, i) == NamesTo(ns, j)
    ensures i == j
    decreases i
  {
    hide WellLaid, SlashFree;
    if i != ROOT { Listed(ns, i); }
    if j != ROOT { Listed(ns, j); }
    if i != ROOT && j != ROOT {
      var p, q := ns[i].parentIdx, ns[j].parentIdx;
      var a, b := NamesTo(ns, i), NamesTo(ns, j);
      assert a[..|a| - 1] == NamesTo(ns, p) && b[..|b| - 1] == NamesTo(ns, q);
      assert a[|a| - 1] == ns[i].name && b[|b| - 1] == ns[j].name;
      NamesDetermine(ns, p, q);
    }
  }

  /** A path determines the node. */
  lemma PathsDiffer(ns: seq<Node>, i: nat, j: nat)
    requires WellLaid(ns) && ProperNames(ns) && i < |ns| && j < |ns| && PathOf(ns, i) == PathOf(ns, j)
    ensures i == j
  {
    hide WellLaid, Slashed, ProperNames, SlashFree;
    var a, b := NamesTo(ns, i), NamesTo(ns, j);
    NamesProper(ns, i);
    NamesProper(ns, j);
    if a == [] && b != [] { RootPathIsShort(b); }
    if b == [] && a != [] { RootPathIsShort(a); }
    if a != [] && b != [] { SlashedInjective(a, b); }
    NamesDetermine(ns, i, j);
  }

  lemma RootPathIsShort(names: seq<Bytes>)
    requires names != [] && SlashFree(names[|names| - 1])
    ensures |Slashed(names)| > 1
  {
    hide Slashed;
    SlashedLast(names);
  }
}
