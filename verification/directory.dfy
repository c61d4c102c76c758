/** The directory table: grouping of entries under headers, back-patched counts, the
    distance-triggered index, and decoding. */
module Directory {
  import opened Bytes
  import opened Metadata
  import opened Writer
  import opened Inodes

  datatype DirChild = DirChild(name: Bytes, inodeNumber: nat, inodeRef: nat, entryType: nat)

  /** Entries that share one header. */
  datatype Group = Group(startBlock: nat, baseInode: nat, members: seq<DirChild>)

  datatype RawIndex = RawIndex(index: nat, nameSize: nat, name: Bytes)

  datatype DirEntryInfo = DirEntryInfo(name: Bytes, inodeNumber: nat, inodeRef: nat, entryType: nat)

  // ----- layout -----

  function BlockOf(c: DirChild): (b: nat)
    ensures b < 0x1_0000_0000
  {
    c.inodeRef / 0x1_0000 % 0x1_0000_0000
  }

  function EntryBytes(base: nat, c: DirChild): (s: Bytes)
    ensures |s| == 8 + |c.name|
  {
    LE16(c.inodeRef % 0x1_0000) + (LE16((c.inodeNumber - base) % 0x1_0000) + (LE16(c.entryType) +
    (LE16((|c.name| - 1) % 0x1_0000) + c.name)))
  }

  ghost predicate Named(cs: seq<DirChild>) {
    forall i :: 0 <= i < |cs| ==> 0 < |cs[i].name| < 0x1_0000
  }

  function EntriesBytes(base: nat, cs: seq<DirChild>): Bytes {
    if cs == [] then [] else EntryBytes(base, cs[0]) + EntriesBytes(base, cs[1..])
  }

  function HeadedBytes(count: nat, g: Group): Bytes {
    LE32(count) + (LE32(g.startBlock) + (LE32(g.baseInode) + EntriesBytes(g.baseInode, g.members)))
  }

  /** What may share a header: 1 to 256 entries of one inode block whose inode numbers are
      within an i16 of the first one's. */
  ghost predicate ValidGroup(g: Group) {
    && 0 < |g.members| <= 256 && Named(g.members)
    && g.baseInode == g.members[0].inodeNumber
    && forall i :: 0 <= i < |g.members| ==> Fits(g, g.members[i])
  }

  ghost predicate Fits(g: Group, c: DirChild) {
    BlockOf(c) == g.startBlock && -0x8000 <= c.inodeNumber - g.baseInode < 0x8000
  }

  ghost predicate ValidGroups(gs: seq<Group>) {
    forall j :: 0 <= j < |gs| ==> ValidGroup(gs[j])
  }

  function GroupBytes(g: Group): (s: Bytes)
    ensures |s| >= 12
  {
    HeadedBytes((|g.members| - 1) % 0x1_0000_0000, g)
  }

  function GroupsBytes(gs: seq<Group>): Bytes {
    if gs == [] then [] else GroupBytes(gs[0]) + GroupsBytes(gs[1..])
  }

  function Members(gs: seq<Group>): seq<DirChild> {
    if gs == [] then [] else gs[0].members + Members(gs[1..])
  }

  // ----- decoding -----

  function SignExtend16(u: nat): int {
    if u < 0x8000 then u else u - 0x1_0000
  }

  /** `count` entries from offset `n`, and the offset after them. */
  function ParseEntries(s: Bytes, n: nat, count: nat, startBlock: nat, base: nat): (r: Option<(seq<DirEntryInfo>, nat)>)
    ensures r.Some? ==> n <= r.value.1 && (n <= |s| ==> r.value.1 <= |s|)
    decreases count
  {
    if count == 0 then Some(([], n))
    else if n + 8 > |s| || n + 9 + U16At(s, n + 6) > |s| then None
    else
      var nameLen := U16At(s, n + 6) + 1;
      var e := DirEntryInfo(s[n + 8..n + 8 + nameLen], (base + SignExtend16(U16At(s, n + 2))) % 0x1_0000_0000,
                            startBlock * 0x1_0000 + U16At(s, n), U16At(s, n + 4));
      match ParseEntries(s, n + 8 + nameLen, count - 1, startBlock, base)
      case None => None
      case Some((es, m)) => Some(([e] + es, m))
  }

  /** Groups from offset `n` until `size` bytes have been consumed, of which `read` are counted
      already. The count is a u32, and wraps. */
  function ParseGroups(s: Bytes, n: nat, read: nat, size: nat): Option<seq<DirEntryInfo>>
    decreases if n <= |s| then |s| - n else 0
  {
    if read >= size then Some([])
    else if n + 12 > |s| then None
    else
      match ParseEntries(s, n + 12, (U32At(s, n) + 1) % 0x1_0000_0000, U32At(s, n + 4), U32At(s, n + 8))
      case None => None
      case Some((es, m)) =>
        match ParseGroups(s, m, (read + (m - n)) % 0x1_0000_0000, size)
        case None => None
        case Some(rest) => Some(es + rest)
  }

  // ----- layout algebra -----

  lemma {:induction false} EntriesPush(base: nat, cs: seq<DirChild>, c: DirChild)
    ensures EntriesBytes(base, cs + [c]) == EntriesBytes(base, cs) + EntryBytes(base, c)
  {
    hide EntryBytes;
    if cs == [] {
      assert [c][1..] == [];
      assert cs + [c] == [c];
    } else {
      assert (cs + [c])[1..] == cs[1..] + [c];
      EntriesPush(base, cs[1..], c);
    }
  }

  lemma {:induction false} GroupsAppend(a: seq<Group>, b: seq<Group>)
    ensures GroupsBytes(a + b) == GroupsBytes(a) + GroupsBytes(b)
    ensures Members(a + b) == Members(a) + Members(b)
  {
    hide GroupBytes;
    if a == [] {
      assert a + b == b;
    } else {
      assert (a + b)[1..] == a[1..] + b;
      GroupsAppend(a[1..], b);
    }
  }

  lemma GroupsPush(gs: seq<Group>, g: Group)
    ensures GroupsBytes(gs + [g]) == GroupsBytes(gs) + GroupBytes(g)
    ensures Members(gs + [g]) == Members(gs) + g.members
  {
    hide GroupBytes;
    GroupsAppend(gs, [g]);
    assert [g][1..] == [];
  }

  // ----- decoding undoes the layout -----

  /** Numbers and types that the entry's fields can hold. */
  ghost predicate Representable(c: DirChild) {
    c.inodeNumber < 0x1_0000_0000 && c.inodeRef < 0x1_0000_0000_0000 && c.entryType < 0x1_0000
  }

  ghost predicate AllRepresentable(cs: seq<DirChild>) {
    forall i :: 0 <= i < |cs| ==> Representable(cs[i])
  }

  function Infos(cs: seq<DirChild>): (es: seq<DirEntryInfo>)
    ensures |es| == |cs|
  {
    seq(|cs|, i requires 0 <= i < |cs| =>
      DirEntryInfo(cs[i].name, cs[i].inodeNumber, cs[i].inodeRef, cs[i].entryType))
  }

  lemma EntryReads(s: Bytes, n: nat, base: nat, c: DirChild, rest: Bytes)
    requires 0 < |c.name| < 0x1_0000 && c.entryType < 0x1_0000
    requires At(s, n, EntryBytes(base, c) + rest)
    ensures n + 8 + |c.name| <= |s| && At(s, n + 8 + |c.name|, rest)
    ensures U16At(s, n) == c.inodeRef % 0x1_0000 && U16At(s, n + 2) == (c.inodeNumber - base) % 0x1_0000
    ensures U16At(s, n + 4) == c.entryType && U16At(s, n + 6) == |c.name| - 1
    ensures s[n + 8..n + 8 + |c.name|] == c.name
  {
    hide LE16, U16At;
    AtSplit(s, n, EntryBytes(base, c), rest);
    var r3 := LE16(|c.name| - 1) + c.name;
    var r2 := LE16(c.entryType) + r3;
    var r1 := LE16((c.inodeNumber - base) % 0x1_0000) + r2;
    Take16(s, n, c.inodeRef % 0x1_0000, r1);
    Take16(s, n + 2, (c.inodeNumber - base) % 0x1_0000, r2);
    Take16(s, n + 4, c.entryType, r3);
    assert (|c.name| - 1) % 0x1_0000 == |c.name| - 1;
    Take16(s, n + 6, |c.name| - 1, c.name);
  }

  lemma DeltaRoundTrip(base: nat, inum: nat)
    requires -0x8000 <= inum - base < 0x8000 && inum < 0x1_0000_0000
    ensures (base + SignExtend16((inum - base) % 0x1_0000)) % 0x1_0000_0000 == inum
  {
    var d := inum - base;
    if d >= 0 {
      assert d % 0x1_0000 == d;
    } else {
      assert d % 0x1_0000 == d + 0x1_0000;
    }
  }

  lemma {:induction false} EntriesRead(s: Bytes, n: nat, g: Group, cs: seq<DirChild>)
    requires Named(cs) && AllRepresentable(cs) && forall i :: 0 <= i < |cs| ==> Fits(g, cs[i])
    requires At(s, n, EntriesBytes(g.baseInode, cs))
    ensures ParseEntries(s, n, |cs|, g.startBlock, g.baseInode)
            == Some((Infos(cs), n + |EntriesBytes(g.baseInode, cs)|))
    decreases |cs|
  {
    hide U16At, EntryBytes, SignExtend16, At;
    if cs == [] {
    } else {
      var c, t := cs[0], cs[1..];
      EntryReads(s, n, g.baseInode, c, EntriesBytes(g.baseInode, t));
      assert Fits(g, c) && Representable(c);
      DeltaRoundTrip(g.baseInode, c.inodeNumber);
      assert g.startBlock * 0x1_0000 + c.inodeRef % 0x1_0000 == c.inodeRef;
      EntriesRead(s, n + 8 + |c.name|, g, t);
      assert Infos(cs) == [Infos(cs)[0]] + Infos(t);
    }
  }

  lemma GroupReads(s: Bytes, n: nat, g: Group, rest: Bytes)
    requires ValidGroup(g) && AllRepresentable(g.members)
    requires At(s, n, GroupBytes(g) + rest)
    ensures n + 12 <= |s| && At(s, n + |GroupBytes(g)|, rest)
    ensures ParseEntries(s, n + 12, (U32At(s, n) + 1) % 0x1_0000_0000, U32At(s, n + 4), U32At(s, n + 8))
            == Some((Infos(g.members), n + |GroupBytes(g)|))
  {
    hide LE32, U32At, EntriesBytes, ParseEntries;
    AtSplit(s, n, GroupBytes(g), rest);
    var es := EntriesBytes(g.baseInode, g.members);
    assert (|g.members| - 1) % 0x1_0000_0000 == |g.members| - 1;
    Take32(s, n, |g.members| - 1, LE32(g.startBlock) + (LE32(g.baseInode) + es));
    Take32(s, n + 4, g.startBlock, LE32(g.baseInode) + es);
    Take32(s, n + 8, g.baseInode, es);
    assert Fits(g, g.members[0]) && Representable(g.members[0]);
    EntriesRead(s, n + 12, g, g.members);
  }

  lemma InfosAppend(a: seq<DirChild>, b: seq<DirChild>)
    ensures Infos(a + b) == Infos(a) + Infos(b)
  {
  }

  lemma RepresentableParts(a: seq<DirChild>, b: seq<DirChild>)
    requires AllRepresentable(a + b)
    ensures AllRepresentable(a) && AllRepresentable(b)
  {
    hide Representable;
    forall i | 0 <= i < |a| ensures Representable(a[i]) {
      assert Representable((a + b)[i]);
    }
    forall i | 0 <= i < |b| ensures Representable(b[i]) {
      assert Representable((a + b)[|a| + i]);
    }
  }

  lemma GroupThenRest(s: Bytes, n: nat, read: nat, size: nat, es: seq<DirEntryInfo>, m: nat, rest: seq<DirEntryInfo>)
    requires read < size && n + 12 <= |s| && n <= m
    requires ParseEntries(s, n + 12, (U32At(s, n) + 1) % 0x1_0000_0000, U32At(s, n + 4), U32At(s, n + 8))
             == Some((es, m))
    requires ParseGroups(s, m, (read + (m - n)) % 0x1_0000_0000, size) == Some(rest)
    ensures ParseGroups(s, n, read, size) == Some(es + rest)
  {
    hide ParseEntries, U32At;
  }

  /** Reading a directory back: exactly its children, in order, and decoding stops exactly
      at the end of its data whatever follows. */
  lemma {:induction false} GroupsRead(s: Bytes, n: nat, gs: seq<Group>, read: nat)
    requires ValidGroups(gs) && AllRepresentable(Members(gs))
    requires At(s, n, GroupsBytes(gs)) && read + |GroupsBytes(gs)| < 0x1_0000_0000
    ensures ParseGroups(s, n, read, read + |GroupsBytes(gs)|) == Some(Infos(Members(gs)))
    decreases |gs|
  {
    hide At, ParseEntries, GroupBytes, ValidGroup, U32At, AllRepresentable, Infos;
    if gs == [] {
      assert Infos([]) == [];
    } else {
      hide ParseGroups;
      var g, t := gs[0], gs[1..];
      RepresentableParts(g.members, Members(t));
      GroupReads(s, n, g, GroupsBytes(t));
      var m := |GroupBytes(g)|;
      GroupsRead(s, n + m, t, read + m);
      InfosAppend(g.members, Members(t));
      GroupThenRest(s, n, read, read + m + |GroupsBytes(t)|, Infos(g.members), n + m, Infos(Members(t)));
    }
  }
}
