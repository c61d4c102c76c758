/** Building one directory's data and writing it to the directory table. */
module DirTable {
  import opened Bytes
  import opened Metadata
  import opened Writer
  import opened Inodes
  import opened Directory

  const PLACEHOLDER: nat := 0xFFFF_FFFF

  /** Byte offset, in the directory's data, of group `j`. */
  function GroupStart(gs: seq<Group>, j: nat): nat
    requires j <= |gs|
  {
    |GroupsBytes(gs[..j])|
  }

  /** The last group of `gs` is still open: its count field holds the placeholder. */
  ghost predicate OpenLayout(dirBuf: Bytes, gs: seq<Group>) {
    && gs != []
    && dirBuf == GroupsBytes(gs[..|gs| - 1]) + HeadedBytes(PLACEHOLDER, gs[|gs| - 1])
  }

  ghost predicate Ascending(raw: seq<RawIndex>) {
    forall a, b :: 0 <= a < b < |raw| ==> raw[a].index < raw[b].index
  }

  /** Raw index `r` names group `j`: its offset is that group's header, its name the name of
      the group's first entry. */
  ghost predicate Names(r: RawIndex, j: nat, gs: seq<Group>) {
    && 0 < j < |gs|
    && gs[j].members != []
    && r.index == GroupStart(gs, j)
    && r.name == gs[j].members[0].name
    && r.nameSize == (|r.name| - 1) % 0x1_0000_0000
  }

  /** `landing[k]` is the group of index `k`. */
  ghost predicate Indexed(raw: seq<RawIndex>, landing: seq<nat>, gs: seq<Group>) {
    && |landing| == |raw|
    && Ascending(raw)
    && forall k :: 0 <= k < |raw| ==> Names(raw[k], landing[k], gs)
  }

  /** Offset up to which the `k`-th stretch of the directory is scanned from: the directory's
      start, or the index before. */
  function LastIndex(raw: seq<RawIndex>): nat {
    if raw == [] then 0 else raw[|raw| - 1].index
  }

  const MAX_STRETCH: nat := 8204

  /** Indices ascend, and no stretch between neighbours exceeds a metadata block and a header. */
  ghost predicate Spaced(raw: seq<RawIndex>, total: nat) {
    && (forall k :: 0 <= k < |raw| ==>
      LastIndex(raw[..k]) < raw[k].index <= LastIndex(raw[..k]) + MAX_STRETCH)
    && LastIndex(raw) <= total <= LastIndex(raw) + MAX_STRETCH
  }

  ghost predicate ShortNames(cs: seq<DirChild>) {
    forall i :: 0 <= i < |cs| ==> |cs[i].name| <= 255
  }

  /** Why group `j` was begun: its first entry would end more than 8192 bytes behind the index
      before, so that an index was made here; or the group before it was full, or does not take
      the entry. `lasts[j]` is where the last index is from group `j` on. */
  ghost predicate Begun(gs: seq<Group>, landing: seq<nat>, lasts: seq<nat>, j: nat)
    requires 0 < j < |gs| == |lasts|
  {
    && gs[j].members != []
    && var far := GroupStart(gs, j) + 8 + |gs[j].members[0].name| > lasts[j - 1] + 8192;
    && lasts[j] == (if far then GroupStart(gs, j) else lasts[j - 1])
    && (far <==> j in landing)
    && (far || |gs[j - 1].members| == 256 || !Fits(gs[j - 1], gs[j].members[0]))
  }

  /** The other entries of group `j` end within 8192 bytes of that index. */
  ghost predicate Compact(gs: seq<Group>, lasts: seq<nat>, j: nat)
    requires j < |gs| == |lasts|
  {
    |gs[j].members| > 1 ==> GroupStart(gs, j + 1) <= lasts[j] + 8192
  }

  /** Groups and indices are made exactly where they are needed. */
  ghost predicate Greedy(gs: seq<Group>, landing: seq<nat>, lasts: seq<nat>) {
    && |lasts| == |gs| && (gs != [] ==> lasts[0] == 0 && 0 !in landing)
    && (forall j :: 0 < j < |gs| ==> Begun(gs, landing, lasts, j))
    && (forall j :: 0 <= j < |gs| ==> Compact(gs, lasts, j))
    && forall k :: 0 <= k < |landing| ==> landing[k] < |gs|
  }

  lemma GreedyFirst(c: DirChild)
    ensures Greedy([Single(c)], [], [0])
  {
  }

  lemma GreedyExtended(gs: seq<Group>, landing: seq<nat>, lasts: seq<nat>, c: DirChild)
    requires Greedy(gs, landing, lasts) && gs != [] && gs[|gs| - 1].members != []
    requires |GroupsBytes(Extended(gs, c))| <= lasts[|gs| - 1] + 8192
    ensures Greedy(Extended(gs, c), landing, lasts)
  {
    hide GroupsBytes, Fits;
    var gs' := Extended(gs, c);
    assert gs'[..|gs|] == gs';
    forall j | 0 <= j < |gs| ensures GroupStart(gs', j) == GroupStart(gs, j) {
      assert gs'[..j] == gs[..j];
    }
    forall j | 0 < j < |gs| ensures Begun(gs', landing, lasts, j) {
      assert Begun(gs, landing, lasts, j);
    }
    forall j | 0 <= j < |gs| ensures Compact(gs', lasts, j) {
      assert Compact(gs, lasts, j);
    }
  }

  lemma GreedySplit(gs: seq<Group>, landing: seq<nat>, lasts: seq<nat>, c: DirChild)
    returns (landing': seq<nat>, lasts': seq<nat>)
    requires Greedy(gs, landing, lasts) && gs != []
    requires var far := |GroupsBytes(gs)| + 8 + |c.name| > lasts[|gs| - 1] + 8192;
             far || |gs[|gs| - 1].members| == 256 || !Fits(gs[|gs| - 1], c)
    ensures Greedy(gs + [Single(c)], landing', lasts') && |lasts'| == |gs| + 1
    ensures if |GroupsBytes(gs)| + 8 + |c.name| > lasts[|gs| - 1] + 8192
            then landing' == landing + [|gs|] && lasts'[|gs|] == |GroupsBytes(gs)|
            else landing' == landing && lasts'[|gs|] == lasts[|gs| - 1]
  {
    hide GroupsBytes, Fits;
    var n, gs' := |gs|, gs + [Single(c)];
    var far := |GroupsBytes(gs)| + 8 + |c.name| > lasts[n - 1] + 8192;
    landing' := if far then landing + [n] else landing;
    lasts' := lasts + [if far then |GroupsBytes(gs)| else lasts[n - 1]];
    assert gs[..n] == gs;
    forall j | 0 <= j <= n ensures GroupStart(gs', j) == GroupStart(gs, j) {
      assert gs'[..j] == gs[..j];
    }
    forall j | 0 < j <= n ensures Begun(gs', landing', lasts', j) {
      if j < n { assert Begun(gs, landing, lasts, j); }
    }
    forall j | 0 <= j <= n ensures Compact(gs', lasts', j) {
      if j < n { assert Compact(gs, lasts, j); }
    }
  }

  // ----- steps of the builder -----

  /** Back-patching the open header's count closes the group. */
  lemma Patched(dirBuf: Bytes, gs: seq<Group>, h: nat)
    requires OpenLayout(dirBuf, gs) && h == GroupStart(gs, |gs| - 1) && ValidGroups(gs)
    ensures h + 4 <= |dirBuf|
    ensures dirBuf[..h] + LE32(|gs[|gs| - 1].members| - 1) + dirBuf[h + 4..] == GroupsBytes(gs)
  {
    hide LE32, EntriesBytes, GroupsBytes, ValidGroup;
    var g := gs[|gs| - 1];
    assert ValidGroup(g);
    assert 0 < |g.members| <= 256 by { ValidGroupSize(g); }
    assert (|g.members| - 1) % 0x1_0000_0000 == |g.members| - 1;
    var pre := GroupsBytes(gs[..|gs| - 1]);
    var rest := LE32(g.startBlock) + (LE32(g.baseInode) + EntriesBytes(g.baseInode, g.members));
    assert dirBuf == pre + (LE32(PLACEHOLDER) + rest);
    assert dirBuf[..h] == pre && dirBuf[h + 4..] == rest;
    GroupsPush(gs[..|gs| - 1], g);
    assert gs == gs[..|gs| - 1] + [g];
  }

  lemma ValidGroupSize(g: Group)
    requires ValidGroup(g)
    ensures 0 < |g.members| <= 256
  {
  }

  function Extended(gs: seq<Group>, c: DirChild): seq<Group>
    requires gs != []
  {
    var g := gs[|gs| - 1];
    gs[..|gs| - 1] + [g.(members := g.members + [c])]
  }

  lemma HeadedPush(g: Group, c: DirChild)
    ensures HeadedBytes(PLACEHOLDER, g.(members := g.members + [c]))
            == HeadedBytes(PLACEHOLDER, g) + EntryBytes(g.baseInode, c)
  {
    hide LE32, EntryBytes, EntriesBytes;
    EntriesPush(g.baseInode, g.members, c);
    var es, e := EntriesBytes(g.baseInode, g.members), EntryBytes(g.baseInode, c);
    assert LE32(g.baseInode) + (es + e) == (LE32(g.baseInode) + es) + e;
  }

  /** One more entry under the open header. */
  lemma EntryAdded(dirBuf: Bytes, gs: seq<Group>, c: DirChild)
    requires OpenLayout(dirBuf, gs)
    ensures OpenLayout(dirBuf + EntryBytes(gs[|gs| - 1].baseInode, c), Extended(gs, c))
  {
    hide EntryBytes, GroupsBytes, HeadedBytes;
    var init, g := gs[..|gs| - 1], gs[|gs| - 1];
    HeadedPush(g, c);
    assert Extended(gs, c)[..|gs| - 1] == init;
    var p, h, e := GroupsBytes(init), HeadedBytes(PLACEHOLDER, g), EntryBytes(g.baseInode, c);
    assert (p + h) + e == p + (h + e);
  }

  lemma MembersExtended(gs: seq<Group>, c: DirChild)
    requires gs != []
    ensures Members(Extended(gs, c)) == Members(gs) + [c]
  {
    hide Members;
    var init, g := gs[..|gs| - 1], gs[|gs| - 1];
    assert gs == init + [g];
    GroupsPush(init, g);
    GroupsPush(init, g.(members := g.members + [c]));
    assert Members(init) + (g.members + [c]) == (Members(init) + g.members) + [c];
  }

  lemma EmptyHeaderSize(g: Group)
    requires g.members == []
    ensures |HeadedBytes(PLACEHOLDER, g)| == 12
  {
  }

  lemma ValidExtended(gs: seq<Group>, c: DirChild)
    requires gs != [] && ValidGroups(gs)
    requires |gs[|gs| - 1].members| < 256 && 0 < |c.name| < 0x1_0000 && Fits(gs[|gs| - 1], c)
    ensures ValidGroups(Extended(gs, c))
  {
    hide Fits;
    var g := gs[|gs| - 1];
    assert ValidGroup(g);
    var g' := g.(members := g.members + [c]);
    forall i | 0 <= i < |g'.members| ensures Fits(g', g'.members[i]) {
      assert Fits(g, g'.members[i]);
      SameHeader(g, g', g'.members[i]);
    }
    forall j | 0 <= j < |gs| ensures ValidGroup(Extended(gs, c)[j]) {
      if j < |gs| - 1 { assert Extended(gs, c)[j] == gs[j]; }
    }
  }

  lemma SameHeader(g: Group, g': Group, c: DirChild)
    requires g.startBlock == g'.startBlock && g.baseInode == g'.baseInode && Fits(g, c)
    ensures Fits(g', c)
  {
  }

  function Single(c: DirChild): Group {
    Group(BlockOf(c), c.inodeNumber, [c])
  }

  /** A new header and its first entry, after closed groups `gs`. */
  lemma GroupOpened(gs: seq<Group>, c: DirChild)
    requires ValidGroups(gs) && 0 < |c.name| < 0x1_0000
    ensures ValidGroups(gs + [Single(c)])
    ensures OpenLayout(GroupsBytes(gs) + HeadedBytes(PLACEHOLDER, Group(BlockOf(c), c.inodeNumber, []))
                       + EntryBytes(c.inodeNumber, c),
                       gs + [Single(c)])
    ensures Members(gs + [Single(c)]) == Members(gs) + [c]
  {
    hide LE32, EntryBytes, GroupsBytes, Members;
    GroupsPush(gs, Single(c));
    EntriesPush(c.inodeNumber, [], c);
    assert [] + [c] == [c];
    assert (gs + [Single(c)])[..|gs|] == gs;
    assert EntriesBytes(c.inodeNumber, []) == [];
    var e := EntryBytes(c.inodeNumber, c);
    assert HeadedBytes(PLACEHOLDER, Single(c)) == HeadedBytes(PLACEHOLDER, Group(BlockOf(c), c.inodeNumber, [])) + e;
  }

  lemma IndexedExtended(raw: seq<RawIndex>, landing: seq<nat>, gs: seq<Group>, c: DirChild)
    requires gs != [] && Indexed(raw, landing, gs)
    ensures Indexed(raw, landing, Extended(gs, c))
  {
    hide GroupsBytes, Ascending;
    forall k | 0 <= k < |raw| ensures Names(raw[k], landing[k], Extended(gs, c)) {
      assert Names(raw[k], landing[k], gs);
      assert Extended(gs, c)[..landing[k]] == gs[..landing[k]];
    }
  }

  lemma NamesOpened(r: RawIndex, j: nat, gs: seq<Group>, g: Group)
    requires Names(r, j, gs)
    ensures Names(r, j, gs + [g])
  {
    hide GroupsBytes;
    assert (gs + [g])[..j] == gs[..j];
  }

  lemma IndexedOpened(raw: seq<RawIndex>, landing: seq<nat>, gs: seq<Group>, g: Group)
    requires Indexed(raw, landing, gs)
    ensures Indexed(raw, landing, gs + [g])
  {
    hide Names, Ascending;
    forall k | 0 <= k < |raw| ensures Names(raw[k], landing[k], gs + [g]) {
      NamesOpened(raw[k], landing[k], gs, g);
    }
  }

  lemma AscendingPushed(raw: seq<RawIndex>, r: RawIndex)
    requires Ascending(raw) && LastIndex(raw) < r.index
    ensures Ascending(raw + [r])
  {
  }

  lemma NamesNew(gs: seq<Group>, c: DirChild)
    requires gs != []
    ensures Names(RawIndex(|GroupsBytes(gs)|, (|c.name| - 1) % 0x1_0000_0000, c.name), |gs|, gs + [Single(c)])
  {
    hide GroupsBytes;
    assert (gs + [Single(c)])[..|gs|] == gs;
  }

  lemma IndexedPushed(raw: seq<RawIndex>, landing: seq<nat>, gs: seq<Group>, c: DirChild)
    requires Indexed(raw, landing, gs) && gs != [] && LastIndex(raw) < |GroupsBytes(gs)|
    ensures Indexed(raw + [RawIndex(|GroupsBytes(gs)|, (|c.name| - 1) % 0x1_0000_0000, c.name)], landing + [|gs|],
                    gs + [Single(c)])
  {
    hide GroupsBytes, Ascending, LastIndex, Names;
    IndexedOpened(raw, landing, gs, Single(c));
    NamesNew(gs, c);
    AscendingPushed(raw, RawIndex(|GroupsBytes(gs)|, (|c.name| - 1) % 0x1_0000_0000, c.name));
  }

  lemma SpacedPushed(raw: seq<RawIndex>, r: RawIndex)
    requires Spaced(raw, r.index) && LastIndex(raw) < r.index
    ensures Spaced(raw + [r], r.index)
  {
    forall k | 0 <= k < |raw + [r]|
      ensures LastIndex((raw + [r])[..k]) < (raw + [r])[k].index <= LastIndex((raw + [r])[..k]) + MAX_STRETCH
    {
      assert (raw + [r])[..k] == raw[..k];
    }
    assert raw[..|raw|] == raw;
  }

  /** The state between two children. */
  ghost predicate Building(done: seq<DirChild>, dirBuf: Bytes, raw: seq<RawIndex>, landing: seq<nat>, gs: seq<Group>) {
    && (done == [] ==> gs == [] && dirBuf == [] && raw == [] && landing == [])
    && (done != [] ==> OpenLayout(dirBuf, gs) && LastIndex(raw) < |dirBuf|)
    && ValidGroups(gs) && Members(gs) == done
    && Indexed(raw, landing, gs)
    && (ShortNames(done) ==> Spaced(raw, |dirBuf|))
  }

  /** The builder's local variables describe the open group. */
  ghost predicate OpenGroup(gs: seq<Group>, headerOffset: nat, count: nat, startBlock: nat, base: nat) {
    && gs != [] && headerOffset == GroupStart(gs, |gs| - 1) && count == |gs[|gs| - 1].members|
    && startBlock == gs[|gs| - 1].startBlock && base == gs[|gs| - 1].baseInode
  }

  /** What closing the open group needs, and yields. */
  lemma Closing(done: seq<DirChild>, dirBuf: Bytes, raw: seq<RawIndex>, landing: seq<nat>, gs: seq<Group>,
                headerOffset: nat, count: nat, startBlock: nat, base: nat)
    requires Building(done, dirBuf, raw, landing, gs) && done != []
    requires OpenGroup(gs, headerOffset, count, startBlock, base)
    ensures 0 < count <= 256 && headerOffset + 4 <= |dirBuf| && LastIndex(raw) < |dirBuf|
    ensures dirBuf[..headerOffset] + LE32(count - 1) + dirBuf[headerOffset + 4..] == GroupsBytes(gs)
  {
    hide Indexed, Spaced, Members, HeadedBytes, OpenLayout, ValidGroup, GroupsBytes;
    ValidGroupSize(gs[|gs| - 1]);
    Patched(dirBuf, gs, headerOffset);
  }

  lemma Finished(done: seq<DirChild>, dirBuf: Bytes, raw: seq<RawIndex>, landing: seq<nat>, gs: seq<Group>)
    requires Building(done, dirBuf, raw, landing, gs)
    ensures ValidGroups(gs) && Members(gs) == done && Indexed(raw, landing, gs)
    ensures ShortNames(done) ==> Spaced(raw, |dirBuf|)
    ensures done == [] ==> dirBuf == GroupsBytes(gs)
  {
    hide Indexed, Spaced, Members, OpenLayout;
  }

  lemma EmptyStart()
    ensures Building([], [], [], [], [])
  {
  }

  /** The offset of the index a split creates, if it creates one. */
  function IndexesAfterSplit(raw: seq<RawIndex>, len: nat, c: DirChild): seq<RawIndex> {
    if len + 8 + |c.name| - LastIndex(raw) > METADATA_BLOCK_SIZE
    then raw + [RawIndex(len, (|c.name| - 1) % 0x1_0000_0000, c.name)]
    else raw
  }

  lemma ShortNamesPrefix(done: seq<DirChild>, c: DirChild)
    requires ShortNames(done + [c])
    ensures ShortNames(done) && |c.name| <= 255
  {
    assert forall i :: 0 <= i < |done| ==> (done + [c])[i] == done[i];
    assert (done + [c])[|done|] == c;
  }

  lemma StepExtend(done: seq<DirChild>, dirBuf: Bytes, raw: seq<RawIndex>, landing: seq<nat>, gs: seq<Group>,
                   c: DirChild)
    requires Building(done, dirBuf, raw, landing, gs) && done != [] && 0 < |c.name| < 0x1_0000
    requires |gs[|gs| - 1].members| < 256 && Fits(gs[|gs| - 1], c)
    requires |dirBuf| + 8 + |c.name| - LastIndex(raw) <= METADATA_BLOCK_SIZE
    ensures Building(done + [c], dirBuf + EntryBytes(gs[|gs| - 1].baseInode, c), raw, landing, Extended(gs, c))
    ensures OpenGroup(Extended(gs, c), GroupStart(gs, |gs| - 1), |gs[|gs| - 1].members| + 1, gs[|gs| - 1].startBlock,
                      gs[|gs| - 1].baseInode)
  {
    hide GroupsBytes, Members, HeadedBytes, Indexed, ValidGroups, EntryBytes, Extended, OpenLayout, Fits;
    assert gs != [] by { OpenNonEmpty(dirBuf, gs); }
    EntryAdded(dirBuf, gs, c);
    MembersExtended(gs, c);
    ValidExtended(gs, c);
    IndexedExtended(raw, landing, gs, c);
    if ShortNames(done + [c]) { ShortNamesPrefix(done, c); }
    ExtendedOpenGroup(gs, c);
  }

  lemma ExtendedOpenGroup(gs: seq<Group>, c: DirChild)
    requires gs != []
    ensures OpenGroup(Extended(gs, c), GroupStart(gs, |gs| - 1), |gs[|gs| - 1].members| + 1, gs[|gs| - 1].startBlock,
                      gs[|gs| - 1].baseInode)
  {
    hide GroupsBytes;
    assert Extended(gs, c)[..|gs| - 1] == gs[..|gs| - 1];
  }

  lemma SingleOpenGroup(gs: seq<Group>, c: DirChild)
    ensures OpenGroup(gs + [Single(c)], |GroupsBytes(gs)|, 1, BlockOf(c), c.inodeNumber)
  {
    hide GroupsBytes;
    assert (gs + [Single(c)])[..|gs|] == gs;
  }

  lemma OpenNonEmpty(dirBuf: Bytes, gs: seq<Group>)
    requires OpenLayout(dirBuf, gs)
    ensures gs != []
  {
  }

  lemma StepFirst(c: DirChild)
    requires 0 < |c.name| < 0x1_0000
    ensures Building([c], HeadedBytes(PLACEHOLDER, Group(BlockOf(c), c.inodeNumber, [])) + EntryBytes(c.inodeNumber, c),
                     [], [], [Single(c)])
    ensures OpenGroup([Single(c)], 0, 1, BlockOf(c), c.inodeNumber)
  {
    hide EntryBytes;
    GroupOpened([], c);
    SingleOpenGroup([], c);
    assert [] + [Single(c)] == [Single(c)];
    assert Members([]) + [c] == [c];
    var h := HeadedBytes(PLACEHOLDER, Group(BlockOf(c), c.inodeNumber, []));
    assert GroupsBytes([]) + h == h;
  }

  lemma StepSplit(done: seq<DirChild>, dirBuf: Bytes, raw: seq<RawIndex>, landing: seq<nat>, gs: seq<Group>,
                  c: DirChild)
    returns (landing': seq<nat>)
    requires Building(done, dirBuf, raw, landing, gs) && done != [] && 0 < |c.name| < 0x1_0000
    requires |GroupsBytes(gs)| == |dirBuf|
    ensures Building(done + [c],
                     GroupsBytes(gs) + HeadedBytes(PLACEHOLDER, Group(BlockOf(c), c.inodeNumber, []))
                     + EntryBytes(c.inodeNumber, c),
                     IndexesAfterSplit(raw, |dirBuf|, c), landing', gs + [Single(c)])
    ensures landing' == if |dirBuf| + 8 + |c.name| - LastIndex(raw) > METADATA_BLOCK_SIZE then landing + [|gs|]
                        else landing
    ensures OpenGroup(gs + [Single(c)], |GroupsBytes(gs)|, 1, BlockOf(c), c.inodeNumber)
  {
    hide GroupsBytes, Members, Indexed, ValidGroups, EntryBytes, Spaced, OpenLayout;
    assert gs != [] by { OpenNonEmpty(dirBuf, gs); }
    GroupOpened(gs, c);
    SingleOpenGroup(gs, c);
    var raw' := IndexesAfterSplit(raw, |dirBuf|, c);
    var head := HeadedBytes(PLACEHOLDER, Group(BlockOf(c), c.inodeNumber, []));
    EmptyHeaderSize(Group(BlockOf(c), c.inodeNumber, []));
    if raw' == raw {
      landing' := landing;
      IndexedOpened(raw, landing, gs, Single(c));
    } else {
      landing' := landing + [|gs|];
      IndexedPushed(raw, landing, gs, c);
    }
    if ShortNames(done + [c]) {
      ShortNamesPrefix(done, c);
      SpacedSplit(raw, |dirBuf|, c);
    }
  }

  lemma SpacedSplit(raw: seq<RawIndex>, len: nat, c: DirChild)
    requires Spaced(raw, len) && LastIndex(raw) < len && |c.name| <= 255
    ensures Spaced(IndexesAfterSplit(raw, len, c), len + 20 + |c.name|)
  {
    if len + 8 + |c.name| - LastIndex(raw) > METADATA_BLOCK_SIZE {
      SpacedPushed(raw, RawIndex(len, (|c.name| - 1) % 0x1_0000_0000, c.name));
    }
  }

  /** Build the flat data of one directory and its raw indices. */
  method BuildDirectoryData(children: seq<DirChild>)
    returns (dirBuf: Bytes, rawIndexes: seq<RawIndex>, ghost gs: seq<Group>, ghost landing: seq<nat>,
             ghost lasts: seq<nat>)
    requires Named(children)
    ensures Greedy(gs, landing, lasts)
    ensures ValidGroups(gs) && dirBuf == GroupsBytes(gs) && Members(gs) == children
    ensures Indexed(rawIndexes, landing, gs)
    ensures ShortNames(children) ==> Spaced(rawIndexes, |dirBuf|)
  {
    hide Building, OpenLayout, Extended, Single, GroupStart, Fits, HeadedBytes, EntryBytes, GroupsBytes, Members;
    hide Indexed, Spaced, ValidGroups, LE32, Begun, Compact;
    dirBuf, rawIndexes := [], [];
    gs, landing, lasts := [], [], [];
    var entryCount: nat, groupInodeBlock: nat, groupBaseInode: nat := 0, 0, 0;
    var headerCountOffset: nat, indexCountOffset: nat := 0, 0;
    var haveHeader := false;
    EmptyStart();
    assert children[..0] == [];
    for i := 0 to |children|
      invariant Building(children[..i], dirBuf, rawIndexes, landing, gs)
      invariant haveHeader <==> i > 0
      invariant !haveHeader ==> entryCount == 0 && dirBuf == [] && rawIndexes == []
      invariant haveHeader ==> OpenGroup(gs, headerCountOffset, entryCount, groupInodeBlock, groupBaseInode)
      invariant indexCountOffset == LastIndex(rawIndexes)
      invariant Greedy(gs, landing, lasts) && (i > 0 ==> lasts[|gs| - 1] == indexCountOffset)
    {
      var child := children[i];
      assert children[..i + 1] == children[..i] + [child];
      if haveHeader {
        Closing(children[..i], dirBuf, rawIndexes, landing, gs, headerCountOffset, entryCount, groupInodeBlock,
                groupBaseInode);
      }
      ghost var before, raw := dirBuf, rawIndexes;
      var childBlock := BlockOf(child);
      var entryTotal := 8 + |child.name|;
      var distance := |dirBuf| + entryTotal - indexCountOffset;
      var distanceExceeded := haveHeader && distance > METADATA_BLOCK_SIZE;
      var delta := child.inodeNumber - groupBaseInode;
      var needNewGroup :=
        || entryCount >= 256
        || (haveHeader && childBlock != groupInodeBlock)
        || distanceExceeded
        || (haveHeader && (delta > 0x7FFF || delta < -0x8000));
      if needNewGroup && haveHeader {
        var dist := |dirBuf| + entryTotal - indexCountOffset;
        if dist > METADATA_BLOCK_SIZE {
          rawIndexes := rawIndexes + [RawIndex(|dirBuf|, (|child.name| - 1) % 0x1_0000_0000, child.name)];
          indexCountOffset := |dirBuf|;
        }
        dirBuf := PatchCount(dirBuf, headerCountOffset, entryCount - 1);
        entryCount := 0;
        haveHeader := false;
      }
      if !haveHeader {
        headerCountOffset := |dirBuf|;
        dirBuf := dirBuf + HeadedBytes(PLACEHOLDER, Group(childBlock, child.inodeNumber, []));
        groupInodeBlock := childBlock;
        groupBaseInode := child.inodeNumber;
        haveHeader := true;
      }
      dirBuf := dirBuf + EntryBytes(groupBaseInode, child);
      entryCount := entryCount + 1;
      if i == 0 {
        StepFirst(child);
        assert children[..1] == [child] && before == [];
        assert dirBuf == HeadedBytes(PLACEHOLDER, Group(childBlock, child.inodeNumber, []))
               + EntryBytes(child.inodeNumber, child);
        GreedyFirst(child);
        gs, landing, lasts := [Single(child)], [], [0];
      } else if needNewGroup {
        Unfit(gs, child, childBlock, delta);
        ghost var landing';
        landing', lasts := GreedySplit(gs, landing, lasts, child);
        landing := StepSplit(children[..i], before, raw, landing, gs, child);
        gs := gs + [Single(child)];
      } else {
        FitsLast(gs, child);
        StepExtend(children[..i], before, raw, landing, gs, child);
        BuiltSize(children[..i], before, raw, landing, gs);
        BuiltSize(children[..i + 1], dirBuf, raw, landing, Extended(gs, child));
        GreedyExtended(gs, landing, lasts, child);
        gs := Extended(gs, child);
      }
    }
    assert children[..|children|] == children;
    Finished(children, dirBuf, rawIndexes, landing, gs);
    if haveHeader {
      Closing(children, dirBuf, rawIndexes, landing, gs, headerCountOffset, entryCount, groupInodeBlock,
              groupBaseInode);
    }
    if haveHeader && entryCount > 0 {
      dirBuf := PatchCount(dirBuf, headerCountOffset, entryCount - 1);
    }
  }

  lemma Unfit(gs: seq<Group>, c: DirChild, block: nat, delta: int)
    requires gs != [] && block == BlockOf(c) && delta == c.inodeNumber - gs[|gs| - 1].baseInode
    ensures block != gs[|gs| - 1].startBlock || delta > 0x7FFF || delta < -0x8000 ==> !Fits(gs[|gs| - 1], c)
  {
  }

  lemma BuiltSize(done: seq<DirChild>, dirBuf: Bytes, raw: seq<RawIndex>, landing: seq<nat>, gs: seq<Group>)
    requires Building(done, dirBuf, raw, landing, gs) && done != []
    ensures |GroupsBytes(gs)| == |dirBuf| && gs != [] && gs[|gs| - 1].members != []
  {
    hide Indexed, Spaced, Members, HeadedBytes, GroupsBytes;
    assert ValidGroup(gs[|gs| - 1]);
    hide ValidGroup;
    Patched(dirBuf, gs, GroupStart(gs, |gs| - 1));
    ValidGroupSize(gs[|gs| - 1]);
  }

  lemma FitsLast(gs: seq<Group>, c: DirChild)
    requires gs != [] && BlockOf(c) == gs[|gs| - 1].startBlock
    requires -0x8000 <= c.inodeNumber - gs[|gs| - 1].baseInode <= 0x7FFF
    ensures Fits(gs[|gs| - 1], c)
  {
  }

  method PatchCount(buf: Bytes, at: nat, count: nat) returns (r: Bytes)
    requires at + 4 <= |buf|
    ensures r == buf[..at] + LE32(count) + buf[at + 4..] && |r| == |buf|
  {
    r := buf[..at] + LE32(count) + buf[at + 4..];
  }

  // ----- sizes -----

  /** Entry bytes without headers. */
  function EntryByteCount(cs: seq<DirChild>): nat {
    if cs == [] then 0 else 8 + |cs[0].name| + EntryByteCount(cs[1..])
  }

  lemma {:induction false} EntriesSize(base: nat, cs: seq<DirChild>)
    ensures |EntriesBytes(base, cs)| == EntryByteCount(cs)
  {
    hide EntryBytes;
    if cs != [] { EntriesSize(base, cs[1..]); }
  }

  lemma {:induction false} EntryByteCountAppend(a: seq<DirChild>, b: seq<DirChild>)
    ensures EntryByteCount(a + b) == EntryByteCount(a) + EntryByteCount(b)
  {
    if a == [] {
      assert a + b == b;
    } else {
      assert (a + b)[1..] == a[1..] + b;
      EntryByteCountAppend(a[1..], b);
    }
  }

  lemma GroupSize(g: Group)
    ensures |GroupBytes(g)| == 12 + EntryByteCount(g.members)
  {
    EntriesSize(g.baseInode, g.members);
  }

  lemma {:induction false} GroupsSize(gs: seq<Group>)
    requires ValidGroups(gs)
    ensures |GroupsBytes(gs)| == EntryByteCount(Members(gs)) + 12 * |gs|
    ensures |gs| <= |Members(gs)|
  {
    hide GroupBytes, ValidGroup;
    if gs != [] {
      GroupsSize(gs[1..]);
      GroupSize(gs[0]);
      ValidGroupSize(gs[0]);
      EntryByteCountAppend(gs[0].members, Members(gs[1..]));
    }
  }

  /** The test `dir_size > 65535` never decides: a directory with fewer than 257 entries and
      under 8192 entry bytes occupies at most 11266 bytes, counting the format's extra 3. */
  lemma BasicDirectoryIsSmall(gs: seq<Group>)
    requires ValidGroups(gs) && |Members(gs)| < 257 && EntryByteCount(Members(gs)) < METADATA_BLOCK_SIZE
    ensures |GroupsBytes(gs)| + 3 <= 11266
  {
    GroupsSize(gs);
  }

  lemma GroupStartsInside(gs: seq<Group>, j: nat)
    requires j < |gs|
    ensures GroupStart(gs, j) + 12 <= |GroupsBytes(gs)|
  {
    hide GroupBytes;
    GroupsAppend(gs[..j], gs[j..]);
    assert gs == gs[..j] + gs[j..];
  }

  // ----- the directory table -----

  /** The final form of raw index `r` of the directory at stream offset `m`: it carries the
      offset of the stored block that holds the header it names. */
  ghost predicate PointsAt(z: Zstd, stream: Bytes, m: nat, r: RawIndex, e: IndexEntry) {
    && m + r.index <= |stream|
    && e == IndexEntry(r.index, BlockStart(z, stream, m + r.index) % 0x1_0000_0000, r.nameSize, r.name)
  }

  ghost predicate Resolved(z: Zstd, stream: Bytes, m: nat, raw: seq<RawIndex>, final: seq<IndexEntry>) {
    && |final| == |raw|
    && forall k :: 0 <= k < |raw| ==> PointsAt(z, stream, m, raw[k], final[k])
  }

  class DirectoryTable {
    const meta: MetadataWriter

    constructor (z: Zstd)
      ensures meta.Valid() && meta.z == z && meta.stream == [] && fresh(meta)
    {
      meta := new MetadataWriter(z);
    }

    /** Append one directory; report its position, its size and its index. */
    method WriteDirectory(children: seq<DirChild>)
      returns (startBlk: nat, startOff: nat, total: nat, final: seq<IndexEntry>,
               ghost raw: seq<RawIndex>, ghost gs: seq<Group>, ghost landing: seq<nat>)
      requires meta.Valid() && Named(children)
      modifies meta
      ensures meta.Valid() && meta.stream == old(meta.stream) + GroupsBytes(gs)
      ensures ValidGroups(gs) && Members(gs) == children && Indexed(raw, landing, gs)
      ensures startBlk == BlockStart(meta.z, old(meta.stream), |old(meta.stream)|)
      ensures startOff == |old(meta.stream)| % METADATA_BLOCK_SIZE
      ensures total == |GroupsBytes(gs)| % 0x1_0000_0000
      ensures Resolved(meta.z, meta.stream, |old(meta.stream)|, raw, final)
      ensures ShortNames(children) ==> Spaced(raw, |GroupsBytes(gs)|)
    {
      hide GroupsBytes, Members, Indexed, Spaced, ValidGroups, BlockStart;
      startBlk, startOff := meta.Position();
      if children == [] {
        EmptyDirectory();
        return startBlk, startOff, 0, [], [], [], [];
      }
      var dirBuf, rawIndexes;
      ghost var lasts;
      dirBuf, rawIndexes, gs, landing, lasts := BuildDirectoryData(children);
      raw := rawIndexes;
      total := |dirBuf| % 0x1_0000_0000;
      if rawIndexes == [] {
        meta.Write(dirBuf);
        final := [];
      } else {
        AllIndexesInside(raw, landing, gs);
        final := WriteIndexed(dirBuf, rawIndexes, startOff);
      }
    }

    /** Write the data up to each metadata block boundary in turn, giving every index that
        falls before the boundary the offset of the block being filled. */
    method WriteIndexed(dirBuf: Bytes, raw: seq<RawIndex>, startOff: nat) returns (final: seq<IndexEntry>)
      requires meta.Valid() && raw != [] && startOff == |meta.stream| % METADATA_BLOCK_SIZE
      requires Ascending(raw)
      requires forall k :: 0 <= k < |raw| ==> raw[k].index < |dirBuf|
      modifies meta
      ensures meta.Valid() && meta.stream == old(meta.stream) + dirBuf
      ensures Resolved(meta.z, meta.stream, |old(meta.stream)|, raw, final)
    {
      hide BlockStart, BlockBase, Resolved, Ascending, Batch, MetadataWriter.Valid;
      ghost var s, m := meta.stream, |meta.stream|;
      final := [];
      var idx, boundary, written := 0, METADATA_BLOCK_SIZE - startOff, 0;
      assert dirBuf[..0] == [] && s + [] == s;
      assert Resolved(meta.z, s + dirBuf, m, raw[..0], final) by { NothingResolved(meta.z, s + dirBuf, m, raw); }
      while true
        invariant meta.Valid()
        invariant 0 <= written < |dirBuf| && written < boundary <= written + METADATA_BLOCK_SIZE
        invariant meta.stream == s + dirBuf[..written]
        invariant (m + boundary) % METADATA_BLOCK_SIZE == 0
        invariant 0 <= idx <= |raw| && (idx < |raw| ==> raw[idx].index >= written)
        invariant Resolved(meta.z, s + dirBuf, m, raw[..idx], final)
        decreases |dirBuf| - written
      {
        var blockOffset, _ := meta.Position();
        ghost var first := idx;
        var batch;
        idx, batch := EmitBefore(raw, idx, boundary, blockOffset);
        BatchRange(raw, first, idx, boundary, blockOffset, batch);
        ResolvedBatch(meta.z, s, dirBuf, m, written, boundary, raw, first, idx, final, batch, blockOffset);
        final := final + batch;
        var chunkEnd := Min(boundary, |dirBuf|);
        if chunkEnd > written {
          WriteChunk(dirBuf, written, chunkEnd, s);
          written := chunkEnd;
        }
        if written >= |dirBuf| {
          assert dirBuf[..written] == dirBuf;
          assert raw[..idx] == raw;
          return;
        }
        boundary := boundary + METADATA_BLOCK_SIZE;
      }
    }

    method WriteChunk(dirBuf: Bytes, written: nat, chunkEnd: nat, ghost s: Bytes)
      requires meta.Valid() && written <= chunkEnd <= |dirBuf| && meta.stream == s + dirBuf[..written]
      modifies meta
      ensures meta.Valid() && meta.stream == s + dirBuf[..chunkEnd]
    {
      meta.Write(dirBuf[written..chunkEnd]);
      assert dirBuf[..chunkEnd] == dirBuf[..written] + dirBuf[written..chunkEnd];
    }
  }

  lemma BatchRange(raw: seq<RawIndex>, first: nat, next: nat, boundary: nat, blockOffset: nat, batch: seq<IndexEntry>)
    requires Batch(raw, first, next, boundary, blockOffset, batch)
    ensures first <= next <= |raw| && |batch| == next - first
  {
  }

  ghost predicate Batch(raw: seq<RawIndex>, first: nat, next: nat, boundary: nat, blockOffset: nat,
                        batch: seq<IndexEntry>)
  {
    && first <= next <= |raw| && |batch| == next - first
    && forall k :: first <= k < next ==>
      && raw[k].index < boundary
      && batch[k - first] == IndexEntry(raw[k].index, blockOffset % 0x1_0000_0000, raw[k].nameSize, raw[k].name)
  }

  /** The indices from `idx` on whose offset lies before `boundary`. */
  method EmitBefore(raw: seq<RawIndex>, idx: nat, boundary: nat, blockOffset: nat)
    returns (next: nat, batch: seq<IndexEntry>)
    requires idx <= |raw|
    ensures Batch(raw, idx, next, boundary, blockOffset, batch)
    ensures next < |raw| ==> raw[next].index >= boundary
  {
    next, batch := idx, [];
    while next < |raw| && raw[next].index < boundary
      invariant Batch(raw, idx, next, boundary, blockOffset, batch)
    {
      batch := batch + [IndexEntry(raw[next].index, blockOffset % 0x1_0000_0000, raw[next].nameSize, raw[next].name)];
      next := next + 1;
    }
  }

  lemma NothingResolved(z: Zstd, stream: Bytes, m: nat, raw: seq<RawIndex>)
    ensures Resolved(z, stream, m, raw[..0], [])
  {
  }

  lemma ResolvedBatch(z: Zstd, s: Bytes, dirBuf: Bytes, m: nat, written: nat, boundary: nat, raw: seq<RawIndex>,
                      first: nat, next: nat, final: seq<IndexEntry>, batch: seq<IndexEntry>, blockOffset: nat)
    requires m == |s| && written < |dirBuf| && written < boundary <= written + METADATA_BLOCK_SIZE
    requires (m + boundary) % METADATA_BLOCK_SIZE == 0
    requires Ascending(raw) && first <= |raw| && (first < |raw| ==> raw[first].index >= written)
    requires forall k :: 0 <= k < |raw| ==> raw[k].index < |dirBuf|
    requires blockOffset == BlockStart(z, s + dirBuf[..written], m + written)
    requires Resolved(z, s + dirBuf, m, raw[..first], final) && Batch(raw, first, next, boundary, blockOffset, batch)
    ensures Resolved(z, s + dirBuf, m, raw[..next], final + batch)
  {
    hide BlockStart, BlockBase;
    forall k | 0 <= k < next ensures PointsAt(z, s + dirBuf, m, raw[k], (final + batch)[k]) {
      if k < first {
        assert PointsAt(z, s + dirBuf, m, raw[..first][k], final[k]);
      } else {
        assert raw[k].index >= written;
        SameBlock(z, s, dirBuf, m, written, boundary, raw[k].index);
      }
    }
  }

  lemma EmptyDirectory()
    ensures GroupsBytes([]) == [] && ValidGroups([]) && Members([]) == [] && Indexed([], [], []) && Spaced([], 0)
  {
  }

  lemma AllIndexesInside(raw: seq<RawIndex>, landing: seq<nat>, gs: seq<Group>)
    requires Indexed(raw, landing, gs)
    ensures forall k :: 0 <= k < |raw| ==> raw[k].index < |GroupsBytes(gs)|
    ensures Ascending(raw)
  {
    hide GroupsBytes;
    forall k | 0 <= k < |raw| ensures raw[k].index < |GroupsBytes(gs)| {
      assert Names(raw[k], landing[k], gs);
      GroupStartsInside(gs, landing[k]);
    }
  }

  /** Offsets from `written` up to the next block boundary share its stored block. */
  lemma SameBlock(z: Zstd, s: Bytes, dirBuf: Bytes, m: nat, written: nat, boundary: nat, i: nat)
    requires m == |s| && written <= |dirBuf| && i <= |dirBuf|
    requires written <= i < boundary <= written + METADATA_BLOCK_SIZE
    requires (m + boundary) % METADATA_BLOCK_SIZE == 0
    ensures BlockStart(z, s + dirBuf, m + i) == BlockStart(z, s + dirBuf[..written], m + written)
  {
    hide Encode;
    var b := BlockBase(m + written);
    assert b + METADATA_BLOCK_SIZE == m + boundary;
    assert BlockBase(m + i) == b;
    assert (s + dirBuf)[..b] == (s + dirBuf[..written])[..b];
  }
}
