/** Inode numbers: assigned depth first, one per hard-link class, the root last. */
module InodeNumbers {
  import opened Bytes
  import opened Tree

  /** The numbering of the nodes 1..p: one number per class, numbers 1..next-1 all used, in
      the order in which classes are first met. */
  ghost predicate Numbered(ns: seq<Node>, p: nat, next: nat, numbers: map<nat, nat>)
    requires p <= |ns|
  {
    && Covers(p, next, numbers)
    && Faithful(ns, p, numbers)
    && Onto(p, next, numbers)
    && Ordered(ns, p, numbers)
  }

  ghost predicate Covers(p: nat, next: nat, numbers: map<nat, nat>) {
    && (forall i :: i in numbers <==> 1 <= i < p)
    && (forall i :: i in numbers ==> 1 <= numbers[i] < next)
    && 1 <= next && (p > 0 ==> next <= p)
  }

  ghost predicate Faithful(ns: seq<Node>, p: nat, numbers: map<nat, nat>)
    requires p <= |ns|
  {
    forall i, j :: 1 <= i < p && 1 <= j < p && i in numbers && j in numbers ==>
      (numbers[i] == numbers[j] <==> ClassOf(ns, i) == ClassOf(ns, j))
  }

  ghost predicate Onto(p: nat, next: nat, numbers: map<nat, nat>) {
    forall v :: 1 <= v < next ==> Used(p, numbers, v)
  }

  ghost predicate Used(p: nat, numbers: map<nat, nat>, v: nat) {
    exists i :: 1 <= i < p && i in numbers && numbers[i] == v
  }

  ghost predicate Ordered(ns: seq<Node>, p: nat, numbers: map<nat, nat>)
    requires p <= |ns|
  {
    forall i, j :: 1 <= i < j < p && i in numbers && j in numbers && First(ns, j) ==> numbers[i] < numbers[j]
  }

  /** No earlier node shares `i`'s inode. */
  ghost predicate First(ns: seq<Node>, i: nat)
    requires i < |ns|
  {
    forall j :: 1 <= j < i ==> ClassOf(ns, j) != ClassOf(ns, i)
  }

  /** The hard-link map holds exactly the link classes met, with their numbers. */
  ghost predicate LinksNumbered(ns: seq<Node>, p: nat, numbers: map<nat, nat>, hl: map<(nat, nat), nat>)
    requires p <= |ns|
  {
    && (forall i :: 1 <= i < p && IsLink(ns, i) && i in numbers ==>
          (ns[i].hostDev, ns[i].hostIno) in hl && hl[(ns[i].hostDev, ns[i].hostIno)] == numbers[i])
    && (forall k :: k in hl ==> Met(ns, p, k))
  }

  ghost predicate Met(ns: seq<Node>, p: nat, k: (nat, nat))
    requires p <= |ns|
  {
    exists i :: 1 <= i < p && IsLink(ns, i) && (ns[i].hostDev, ns[i].hostIno) == k
  }

  class Numberer {
    const ns: seq<Node>
    var next: nat
    var numbers: map<nat, nat>
    var hlMap: map<(nat, nat), nat>

    constructor (ns: seq<Node>)
      requires |ns| > 0
      ensures this.ns == ns && next == 1 && Numbered(ns, 1, next, numbers) && LinksNumbered(ns, 1, numbers, hlMap)
    {
      this.ns := ns;
      next, numbers, hlMap := 1, map[], map[];
    }

    /** Number everything below directory `dir`. */
    method AssignInodeNumbersDfs(dir: nat)
      requires WellLaid(ns) && dir < |ns| && ns[dir].kind.Directory?
      requires Numbered(ns, dir + 1, next, numbers) && LinksNumbered(ns, dir + 1, numbers, hlMap)
      modifies this
      ensures Numbered(ns, SubEnd(ns, dir), next, numbers) && LinksNumbered(ns, SubEnd(ns, dir), numbers, hlMap)
      decreases |ns| - dir
    {
      hide Numbered, LinksNumbered, WellLaid, SubEnd, Position;
      var children := ns[dir].kind.children;
      ChildAt(ns, dir, 0);
      for k := 0 to |children|
        invariant Numbered(ns, Position(ns, dir, k), next, numbers)
        invariant LinksNumbered(ns, Position(ns, dir, k), numbers, hlMap)
      {
        var child := children[k];
        ChildAt(ns, dir, k);
        SubEndOfLeaf(ns, child);
        match ns[child].kind {
          case File(data, nlink) =>
            NumberFile(child);
          case Symlink(target) =>
            NumberFresh(child);
          case Directory(cs) =>
            NumberFresh(child);
            AssignInodeNumbersDfs(child);
        }
      }
    }

    /** A later name of a numbered file gets that file's number; any other file the next. */
    method NumberFile(child: nat)
      requires 1 <= child < |ns| && ns[child].kind.File?
      requires Numbered(ns, child, next, numbers) && LinksNumbered(ns, child, numbers, hlMap)
      modifies this
      ensures Numbered(ns, child + 1, next, numbers) && LinksNumbered(ns, child + 1, numbers, hlMap)
    {
      var key := (ns[child].hostDev, ns[child].hostIno);
      if ns[child].kind.nlink > 1 {
        if key in hlMap {
          SharedNumber(ns, child, next, numbers, hlMap);
          numbers := numbers[child := hlMap[key]];
          return;
        }
      }
      FreshNumber(ns, child, next, numbers, hlMap);
      var inum := next;
      next := next + 1;
      numbers := numbers[child := inum];
      if ns[child].kind.nlink > 1 {
        hlMap := hlMap[key := inum];
      }
    }

    method NumberFresh(child: nat)
      requires 1 <= child < |ns| && !ns[child].kind.File?
      requires Numbered(ns, child, next, numbers) && LinksNumbered(ns, child, numbers, hlMap)
      modifies this
      ensures Numbered(ns, child + 1, next, numbers) && LinksNumbered(ns, child + 1, numbers, hlMap)
    {
      FreshNumber(ns, child, next, numbers, hlMap);
      numbers := numbers[child := next];
      next := next + 1;
    }
  }

  lemma SharedNumber(ns: seq<Node>, c: nat, next: nat, numbers: map<nat, nat>, hl: map<(nat, nat), nat>)
    requires 1 <= c < |ns| && IsLink(ns, c) && (ns[c].hostDev, ns[c].hostIno) in hl
    requires Numbered(ns, c, next, numbers) && LinksNumbered(ns, c, numbers, hl)
    ensures Numbered(ns, c + 1, next, numbers[c := hl[(ns[c].hostDev, ns[c].hostIno)]])
    ensures LinksNumbered(ns, c + 1, numbers[c := hl[(ns[c].hostDev, ns[c].hostIno)]], hl)
  {
    hide Faithful, Onto, Ordered, Used, First, LinksNumbered;
    var key := (ns[c].hostDev, ns[c].hostIno);
    var w := FirstMet(ns, c, numbers, hl, key);
    var numbers' := numbers[c := hl[key]];
    FaithfulShared(ns, c, next, numbers, w);
    OntoGrows(c, next, numbers, numbers');
    OrderedNotFirst(ns, c, numbers, w, hl[key]);
    LinksNumberedShared(ns, c, numbers, hl);
  }

  lemma FirstMet(ns: seq<Node>, c: nat, numbers: map<nat, nat>, hl: map<(nat, nat), nat>, key: (nat, nat))
    returns (w: nat)
    requires c <= |ns| && LinksNumbered(ns, c, numbers, hl) && key in hl
    requires forall i :: i in numbers <==> 1 <= i < c
    ensures 1 <= w < c && IsLink(ns, w) && (ns[w].hostDev, ns[w].hostIno) == key && numbers[w] == hl[key]
  {
    assert Met(ns, c, key);
    w :| 1 <= w < c && IsLink(ns, w) && (ns[w].hostDev, ns[w].hostIno) == key;
  }

  lemma FaithfulShared(ns: seq<Node>, c: nat, next: nat, numbers: map<nat, nat>, w: nat)
    requires 1 <= w < c < |ns| && Covers(c, next, numbers) && Faithful(ns, c, numbers)
    requires ClassOf(ns, w) == ClassOf(ns, c)
    ensures Faithful(ns, c + 1, numbers[c := numbers[w]])
  {
    hide ClassOf;
  }

  lemma OntoGrows(c: nat, next: nat, numbers: map<nat, nat>, numbers': map<nat, nat>)
    requires Onto(c, next, numbers) && c !in numbers && numbers.Keys <= numbers'.Keys
    requires forall i :: i in numbers ==> numbers'[i] == numbers[i]
    ensures Onto(c + 1, next, numbers')
  {
    var p := c + 1;
    forall v | 1 <= v < next ensures Used(p, numbers', v) {
      assert Used(c, numbers, v);
      var i :| 1 <= i < c && i in numbers && numbers[i] == v;
    }
  }

  lemma OrderedNotFirst(ns: seq<Node>, c: nat, numbers: map<nat, nat>, w: nat, v: nat)
    requires 1 <= w < c < |ns| && Ordered(ns, c, numbers) && ClassOf(ns, w) == ClassOf(ns, c) && c !in numbers
    ensures Ordered(ns, c + 1, numbers[c := v])
  {
    hide ClassOf;
    assert !First(ns, c);
    hide First;
  }

  lemma LinksNumberedShared(ns: seq<Node>, c: nat, numbers: map<nat, nat>, hl: map<(nat, nat), nat>)
    requires 1 <= c < |ns| && LinksNumbered(ns, c, numbers, hl) && (ns[c].hostDev, ns[c].hostIno) in hl
    ensures LinksNumbered(ns, c + 1, numbers[c := hl[(ns[c].hostDev, ns[c].hostIno)]], hl)
  {
    forall k | k in hl ensures Met(ns, c + 1, k) {
      assert Met(ns, c, k);
    }
  }

  lemma FreshNumber(ns: seq<Node>, c: nat, next: nat, numbers: map<nat, nat>, hl: map<(nat, nat), nat>)
    requires 1 <= c < |ns| && Numbered(ns, c, next, numbers) && LinksNumbered(ns, c, numbers, hl)
    requires IsLink(ns, c) ==> (ns[c].hostDev, ns[c].hostIno) !in hl
    ensures Numbered(ns, c + 1, next + 1, numbers[c := next])
    ensures LinksNumbered(ns, c + 1, numbers[c := next],
                          if IsLink(ns, c) then hl[(ns[c].hostDev, ns[c].hostIno) := next] else hl)
  {
    hide Faithful, Onto, Ordered, Used, First, LinksNumbered;
    FaithfulFresh(ns, c, next, numbers, hl);
    OntoFresh(c, next, numbers);
    OrderedFresh(ns, c, next, numbers);
    LinksNumberedFresh(ns, c, next, numbers, hl);
  }

  lemma FaithfulFresh(ns: seq<Node>, c: nat, next: nat, numbers: map<nat, nat>, hl: map<(nat, nat), nat>)
    requires 1 <= c < |ns| && Covers(c, next, numbers) && Faithful(ns, c, numbers) && LinksNumbered(ns, c, numbers, hl)
    requires IsLink(ns, c) ==> (ns[c].hostDev, ns[c].hostIno) !in hl
    ensures Faithful(ns, c + 1, numbers[c := next])
  {
    forall i | 1 <= i < c ensures ClassOf(ns, i) != ClassOf(ns, c) && numbers[i] < next {
      assert i in numbers;
    }
    hide ClassOf, LinksNumbered;
  }

  lemma OntoFresh(c: nat, next: nat, numbers: map<nat, nat>)
    requires c >= 1 && Onto(c, next, numbers) && c !in numbers
    ensures Onto(c + 1, next + 1, numbers[c := next])
  {
    OntoGrows(c, next, numbers, numbers[c := next]);
    assert numbers[c := next][c] == next;
    assert Used(c + 1, numbers[c := next], next);
  }

  lemma OrderedFresh(ns: seq<Node>, c: nat, next: nat, numbers: map<nat, nat>)
    requires c < |ns| && Covers(c, next, numbers) && Ordered(ns, c, numbers)
    ensures Ordered(ns, c + 1, numbers[c := next])
  {
    hide First;
  }

  lemma LinksNumberedFresh(ns: seq<Node>, c: nat, next: nat, numbers: map<nat, nat>, hl: map<(nat, nat), nat>)
    requires 1 <= c < |ns| && LinksNumbered(ns, c, numbers, hl)
    requires forall i :: i in numbers <==> 1 <= i < c
    requires IsLink(ns, c) ==> (ns[c].hostDev, ns[c].hostIno) !in hl
    ensures LinksNumbered(ns, c + 1, numbers[c := next],
                          if IsLink(ns, c) then hl[(ns[c].hostDev, ns[c].hostIno) := next] else hl)
  {
    var hl' := if IsLink(ns, c) then hl[(ns[c].hostDev, ns[c].hostIno) := next] else hl;
    forall k | k in hl' ensures Met(ns, c + 1, k) {
      if k in hl { assert Met(ns, c, k); }
    }
  }

  /** The complete numbering: a bijection between hard-link classes and 1..total, the root
      being `total`. */
  ghost predicate Numbering(ns: seq<Node>, numbers: map<nat, nat>, total: nat) {
    && |ns| > 0 && (forall i :: i in numbers <==> 0 <= i < |ns|)
    && numbers[ROOT] == total && total <= |ns|
    && (forall i :: i in numbers ==> 1 <= numbers[i] <= total)
    && (forall i, j :: i in numbers && j in numbers ==>
          (numbers[i] == numbers[j] <==> ClassOf(ns, i) == ClassOf(ns, j)))
    && (forall v :: 1 <= v <= total ==> Hit(numbers, v))
  }

  ghost predicate Hit(numbers: map<nat, nat>, v: nat) {
    exists i :: i in numbers && numbers[i] == v
  }

  method NumberTree(ns: seq<Node>) returns (numbers: map<nat, nat>, total: nat)
    requires WellLaid(ns)
    ensures Numbering(ns, numbers, total)
    ensures Ordered(ns, |ns|, numbers)
  {
    hide Numbered, LinksNumbered, First, SubEnd, Numbering, DirLaid;
    var numberer := new Numberer(ns);
    numberer.AssignInodeNumbersDfs(ROOT);
    NumberRoot(ns, numberer.next, numberer.numbers);
    numbers := numberer.numbers[ROOT := numberer.next];
    total := numberer.next;
  }

  lemma NumberRoot(ns: seq<Node>, next: nat, numbers: map<nat, nat>)
    requires |ns| > 0 && !IsLink(ns, ROOT) && Numbered(ns, |ns|, next, numbers)
    ensures Numbering(ns, numbers[ROOT := next], next)
    ensures Ordered(ns, |ns|, numbers[ROOT := next])
  {
    hide First;
    var all := numbers[ROOT := next];
    assert forall i :: i in all <==> i == ROOT || i in numbers;
    forall v | 1 <= v <= next ensures Hit(all, v) {
      if v == next {
        assert all[ROOT] == v;
      } else {
        assert Used(|ns|, numbers, v);
        var i :| 1 <= i < |ns| && i in numbers && numbers[i] == v;
        assert all[i] == v;
      }
    }
    forall i | i in numbers ensures ClassOf(ns, i) != ClassOf(ns, ROOT) {
    }
    hide ClassOf;
  }
}
