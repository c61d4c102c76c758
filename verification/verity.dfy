/** The dm-verity hash tree (hash type 1): built bottom-up, stored root first. */
module Verity {
  import opened Bytes
  import opened Hashing

  const BLOCK_SIZE: nat := 4096
  const DIGEST_SIZE: nat := 32
  const HASHES_PER_BLOCK: nat := 128

  function BlockCount(len: nat): nat {
    (len + BLOCK_SIZE - 1) / BLOCK_SIZE
  }

  function VerityHash(h: HashFunction, salt: Bytes, block: Bytes): Bytes {
    h(salt + block)
  }

  /** Block `i` of `s`, zero-padded if it is cut short. */
  function BlockAt(s: Bytes, i: nat): (b: Bytes)
    requires i < BlockCount(|s|)
    ensures |b| == BLOCK_SIZE
  {
    var part := s[i * BLOCK_SIZE..Min((i + 1) * BLOCK_SIZE, |s|)];
    part + Zeros(BLOCK_SIZE - |part|)
  }

  /** The digests of the first `k` blocks of `s`. */
  function Digested(h: HashFunction, salt: Bytes, s: Bytes, k: nat): Bytes
    requires k <= BlockCount(|s|)
  {
    if k == 0 then [] else Digested(h, salt, s, k - 1) + VerityHash(h, salt, BlockAt(s, k - 1))
  }

  function HashLevel(h: HashFunction, salt: Bytes, s: Bytes): Bytes {
    Digested(h, salt, s, BlockCount(|s|))
  }

  function Packed(s: Bytes): (p: Bytes)
    ensures |p| == BlockCount(|s|) * BLOCK_SIZE
  {
    s + Zeros(BlockCount(|s|) * BLOCK_SIZE - |s|)
  }

  // ----- sizes -----

  lemma {:induction false} DigestedSize(h: HashFunction, salt: Bytes, s: Bytes, k: nat)
    requires Digests(h, DIGEST_SIZE) && k <= BlockCount(|s|)
    ensures |Digested(h, salt, s, k)| == DIGEST_SIZE * k
    decreases k
  {
    hide BlockAt, BlockCount;
    if k > 0 { DigestedSize(h, salt, s, k - 1); }
  }

  /** Digest `i` of a level is that of block `i` below. */
  lemma {:induction false} DigestedAt(h: HashFunction, salt: Bytes, s: Bytes, k: nat, i: nat)
    requires Digests(h, DIGEST_SIZE) && i < k <= BlockCount(|s|)
    ensures At(Digested(h, salt, s, k), DIGEST_SIZE * i, VerityHash(h, salt, BlockAt(s, i)))
    decreases k
  {
    hide BlockAt, BlockCount, At, VerityHash;
    var init := Digested(h, salt, s, k - 1);
    DigestedSize(h, salt, s, k - 1);
    if i == k - 1 {
      AtPushed(init, VerityHash(h, salt, BlockAt(s, i)));
    } else {
      DigestedAt(h, salt, s, k - 1, i);
      AtAppend(init, DIGEST_SIZE * i, VerityHash(h, salt, BlockAt(s, i)), VerityHash(h, salt, BlockAt(s, k - 1)));
    }
  }

  /** Hash blocks needed for `n` digests. */
  function HashBlocks(n: nat): nat {
    (n + HASHES_PER_BLOCK - 1) / HASHES_PER_BLOCK
  }

  /** Blocks of the whole tree over `n` data blocks. */
  function TreeBlocks(n: nat): nat {
    var b := HashBlocks(n);
    if n <= HASHES_PER_BLOCK then b else TreeBlocks(b) + b
  }

  lemma BlocksOfDigests(n: nat)
    ensures BlockCount(DIGEST_SIZE * n) == HashBlocks(n)
  {
    var b := HashBlocks(n);
    assert (b - 1) * HASHES_PER_BLOCK < n <= b * HASHES_PER_BLOCK || n == 0;
  }

  // ----- the tree -----

  /** The levels stored above level `cur`, root first. */
  function Above(h: HashFunction, salt: Bytes, cur: Bytes): Bytes
    requires Digests(h, DIGEST_SIZE)
    decreases |cur|, 0
  {
    if |cur| <= BLOCK_SIZE then []
    else
      LevelShrinks(h, salt, cur);
      TreeOver(h, salt, HashLevel(h, salt, cur))
  }

  function TreeOver(h: HashFunction, salt: Bytes, cur: Bytes): Bytes
    requires Digests(h, DIGEST_SIZE)
    decreases |cur|, 1
  {
    Above(h, salt, cur) + Packed(cur)
  }

  function RootOver(h: HashFunction, salt: Bytes, cur: Bytes): Bytes
    requires Digests(h, DIGEST_SIZE)
    decreases |cur|
  {
    if |cur| <= DIGEST_SIZE then cur
    else
      LevelShrinks(h, salt, cur);
      RootOver(h, salt, HashLevel(h, salt, cur))
  }

  lemma LevelShrinks(h: HashFunction, salt: Bytes, cur: Bytes)
    requires Digests(h, DIGEST_SIZE) && |cur| > DIGEST_SIZE
    ensures 0 < |HashLevel(h, salt, cur)| < |cur|
    ensures |HashLevel(h, salt, cur)| == DIGEST_SIZE * BlockCount(|cur|)
  {
    DigestedSize(h, salt, cur, BlockCount(|cur|));
  }

  /** Zero-padded digests of the blocks of `s`. */
  method HashBlocksOf(h: HashFunction, salt: Bytes, s: Bytes) returns (hashes: Bytes)
    ensures hashes == HashLevel(h, salt, s)
  {
    hide BlockAt, VerityHash;
    hashes := [];
    for i := 0 to BlockCount(|s|)
      invariant hashes == Digested(h, salt, s, i)
    {
      var block := CopyBlock(s, i);
      hashes := hashes + VerityHash(h, salt, block);
    }
  }

  method CopyBlock(s: Bytes, i: nat) returns (block: Bytes)
    requires i < BlockCount(|s|)
    ensures block == BlockAt(s, i)
  {
    var start := i * BLOCK_SIZE;
    var end := Min(start + BLOCK_SIZE, |s|);
    block := s[start..end] + Zeros(BLOCK_SIZE)[end - start..];
    assert Zeros(BLOCK_SIZE)[end - start..] == Zeros(BLOCK_SIZE - (end - start));
  }

  /** Levels concatenated from the last pushed to the first. */
  function Reversed(levels: seq<Bytes>): Bytes {
    if levels == [] then [] else levels[|levels| - 1] + Reversed(levels[..|levels| - 1])
  }

  lemma ReversedPush(levels: seq<Bytes>, l: Bytes)
    ensures Reversed(levels + [l]) == l + Reversed(levels)
  {
    assert (levels + [l])[..|levels|] == levels;
  }

  // ----- verification -----

  /** What a verifier checks for block `i` of `n` (n > 1) below a stored tree whose leaf level
      comes last: the block's digest is in its slot of the last level, and the hash block with
      that slot verifies in the same way against the levels before it, up to the root hash. */
  predicate PathVerifies(h: HashFunction, salt: Bytes, root: Bytes, tree: Bytes, n: nat, block: Bytes, i: nat)
    decreases n
  {
    var b := HashBlocks(n);
    && 1 < n && i < n && b * BLOCK_SIZE <= |tree|
    && var start := |tree| - b * BLOCK_SIZE;
    && At(tree, start + DIGEST_SIZE * i, VerityHash(h, salt, block))
    && if b == 1 then start == 0 && VerityHash(h, salt, tree) == root
       else PathVerifies(h, salt, root, tree[..start], b, HashBlock(tree, start, i), i / HASHES_PER_BLOCK)
  }

  /** The hash block that holds slot `i` of the level at `start`. */
  function HashBlock(tree: Bytes, start: nat, i: nat): Bytes {
    var at := start + i / HASHES_PER_BLOCK * BLOCK_SIZE;
    if at + BLOCK_SIZE <= |tree| then tree[at..at + BLOCK_SIZE] else []
  }

  /** The result for `data`: every data block's path verifies. A single data block is its own
      root; its digest is then also the content of the one stored block. */
  ghost predicate TreeIsRight(h: HashFunction, salt: Bytes, data: Bytes, root: Bytes, tree: Bytes) {
    var n := BlockCount(|data|);
    && n > 0 && |root| == DIGEST_SIZE && |tree| == BLOCK_SIZE * TreeBlocks(n)
    && (n == 1 ==> root == VerityHash(h, salt, BlockAt(data, 0)) && tree == root + Zeros(BLOCK_SIZE - DIGEST_SIZE))
    && (n > 1 ==> forall i :: 0 <= i < n ==> PathVerifies(h, salt, root, tree, n, BlockAt(data, i), i))
  }

  lemma PackedBlock(s: Bytes, i: nat)
    requires i < BlockCount(|s|)
    ensures (i + 1) * BLOCK_SIZE <= |Packed(s)|
    ensures Packed(s)[i * BLOCK_SIZE..(i + 1) * BLOCK_SIZE] == BlockAt(s, i)
  {
  }

  lemma PackedHolds(s: Bytes, n: nat, e: Bytes)
    requires At(s, n, e)
    ensures At(Packed(s), n, e)
  {
    AtAppend(s, n, e, Zeros(BlockCount(|s|) * BLOCK_SIZE - |s|));
  }

  lemma OneBlock(s: Bytes)
    requires 0 < |s| <= BLOCK_SIZE
    ensures BlockCount(|s|) == 1 && BlockAt(s, 0) == Packed(s)
  {
  }

  lemma SlotBlock(n: nat, i: nat)
    requires i < n
    ensures i / HASHES_PER_BLOCK < HashBlocks(n)
  {
  }

  /** The level of `n` digests over `s`. */
  lemma LevelOf(h: HashFunction, salt: Bytes, s: Bytes)
    requires Digests(h, DIGEST_SIZE) && s != []
    ensures |HashLevel(h, salt, s)| == DIGEST_SIZE * BlockCount(|s|)
    ensures BlockCount(|HashLevel(h, salt, s)|) == HashBlocks(BlockCount(|s|))
  {
    DigestedSize(h, salt, s, BlockCount(|s|));
    BlocksOfDigests(BlockCount(|s|));
  }

  lemma SlotHolds(h: HashFunction, salt: Bytes, s: Bytes, above: Bytes, i: nat)
    requires Digests(h, DIGEST_SIZE) && i < BlockCount(|s|)
    ensures At(above + Packed(HashLevel(h, salt, s)), |above| + DIGEST_SIZE * i, VerityHash(h, salt, BlockAt(s, i)))
  {
    hide Packed, BlockAt, Digested, At;
    var l, d := HashLevel(h, salt, s), VerityHash(h, salt, BlockAt(s, i));
    DigestedAt(h, salt, s, BlockCount(|s|), i);
    PackedHolds(l, DIGEST_SIZE * i, d);
    AtPushed(above, Packed(l));
    AtWithin(above + Packed(l), |above|, Packed(l), DIGEST_SIZE * i, d);
  }

  lemma RootOfSmall(h: HashFunction, salt: Bytes, s: Bytes)
    requires Digests(h, DIGEST_SIZE) && DIGEST_SIZE < |s| <= BLOCK_SIZE
    ensures RootOver(h, salt, s) == VerityHash(h, salt, Packed(s))
  {
    hide Packed, BlockAt;
    OneBlock(s);
    DigestedSize(h, salt, s, 1);
    assert Digested(h, salt, s, 0) == [];
    assert Digested(h, salt, s, 1) == [] + VerityHash(h, salt, BlockAt(s, 0));
  }

  /** Every block of `s`, data or hash level, verifies against the tree over `s`. */
  lemma {:induction false} BlockVerifies(h: HashFunction, salt: Bytes, s: Bytes, i: nat)
    requires Digests(h, DIGEST_SIZE) && 1 < BlockCount(|s|) && i < BlockCount(|s|)
    ensures var l := HashLevel(h, salt, s);
            PathVerifies(h, salt, RootOver(h, salt, l), TreeOver(h, salt, l), BlockCount(|s|), BlockAt(s, i), i)
    decreases |s|
  {
    hide Packed, BlockAt, HashLevel, Digests, VerityHash, At, RootOver, Above;
    var n, l := BlockCount(|s|), HashLevel(h, salt, s);
    LevelOf(h, salt, s);
    SlotBlock(n, i);
    var above := Above(h, salt, l);
    SlotHolds(h, salt, s, above, i);
    TreeTop(h, salt, l);
    if HashBlocks(n) == 1 {
      RootOfSmall(h, salt, l);
      assert [] + Packed(l) == Packed(l);
    } else {
      var up := i / HASHES_PER_BLOCK;
      PackedBlock(l, up);
      BlockVerifies(h, salt, l, up);
      RootSteps(h, salt, l);
      BlockAbove(above, l, i);
    }
  }

  /** The hash block for block `i`, in the level that follows `above`. */
  lemma BlockAbove(above: Bytes, l: Bytes, i: nat)
    requires i / HASHES_PER_BLOCK < BlockCount(|l|)
    ensures var tree := above + Packed(l);
            tree[..|above|] == above && HashBlock(tree, |above|, i) == BlockAt(l, i / HASHES_PER_BLOCK)
  {
    hide Packed;
    var tree, start, up := above + Packed(l), |above|, i / HASHES_PER_BLOCK;
    PackedBlock(l, up);
    var a, b := up * BLOCK_SIZE, (up + 1) * BLOCK_SIZE;
    assert tree[start + a..start + b] == Packed(l)[a..b];
  }

  lemma TreeTop(h: HashFunction, salt: Bytes, cur: Bytes)
    requires Digests(h, DIGEST_SIZE)
    ensures TreeOver(h, salt, cur) == Above(h, salt, cur) + Packed(cur)
    ensures |cur| <= BLOCK_SIZE ==> Above(h, salt, cur) == []
    ensures |cur| > BLOCK_SIZE ==> Above(h, salt, cur) == TreeOver(h, salt, HashLevel(h, salt, cur))
  {
    hide Packed, HashLevel;
  }

  lemma RootSteps(h: HashFunction, salt: Bytes, cur: Bytes)
    requires Digests(h, DIGEST_SIZE) && |cur| > DIGEST_SIZE
    ensures RootOver(h, salt, cur) == RootOver(h, salt, HashLevel(h, salt, cur))
  {
    hide HashLevel;
  }

  lemma {:induction false} TreeSize(h: HashFunction, salt: Bytes, s: Bytes)
    requires Digests(h, DIGEST_SIZE) && s != []
    ensures |TreeOver(h, salt, HashLevel(h, salt, s))| == BLOCK_SIZE * TreeBlocks(BlockCount(|s|))
    decreases |s|
  {
    hide Digests, HashLevel, Above;
    var l := HashLevel(h, salt, s);
    LevelOf(h, salt, s);
    TreeTop(h, salt, l);
    if BlockCount(|s|) > HASHES_PER_BLOCK { TreeSize(h, salt, l); }
  }

  lemma {:induction false} RootSize(h: HashFunction, salt: Bytes, cur: Bytes)
    requires Digests(h, DIGEST_SIZE) && |cur| % DIGEST_SIZE == 0 && cur != []
    ensures |RootOver(h, salt, cur)| == DIGEST_SIZE
    decreases |cur|
  {
    hide Digests, HashLevel;
    if |cur| > DIGEST_SIZE {
      LevelShrinks(h, salt, cur);
      RootSize(h, salt, HashLevel(h, salt, cur));
    }
  }

  lemma TreeVerifies(h: HashFunction, salt: Bytes, data: Bytes)
    requires Digests(h, DIGEST_SIZE) && data != []
    ensures var l := HashLevel(h, salt, data);
            TreeIsRight(h, salt, data, RootOver(h, salt, l), TreeOver(h, salt, l))
  {
    hide Digests, HashLevel, PathVerifies, BlockAt, Above, TreeBlocks, RootOver, TreeOver;
    var l := HashLevel(h, salt, data);
    LevelOf(h, salt, data);
    TreeSize(h, salt, data);
    RootSize(h, salt, l);
    if BlockCount(|data|) == 1 {
      SingleBlock(h, salt, data);
    } else {
      forall i | 0 <= i < BlockCount(|data|)
        ensures PathVerifies(h, salt, RootOver(h, salt, l), TreeOver(h, salt, l),
                             BlockCount(|data|), BlockAt(data, i), i)
      {
        BlockVerifies(h, salt, data, i);
      }
    }
  }

  lemma SingleBlock(h: HashFunction, salt: Bytes, data: Bytes)
    requires Digests(h, DIGEST_SIZE) && BlockCount(|data|) == 1
    ensures var l := HashLevel(h, salt, data);
            && RootOver(h, salt, l) == l == VerityHash(h, salt, BlockAt(data, 0))
            && TreeOver(h, salt, l) == l + Zeros(BLOCK_SIZE - DIGEST_SIZE)
  {
    hide BlockAt;
    var l := HashLevel(h, salt, data);
    DigestedSize(h, salt, data, 1);
    assert Digested(h, salt, data, 0) == [];
    assert l == [] + VerityHash(h, salt, BlockAt(data, 0));
    TreeTop(h, salt, l);
    assert [] + Packed(l) == Packed(l);
  }

  // ----- the tree, byte for byte -----

  /** The 4096 bytes of block `i`: those of `s`, and zeros once it has ended. */
  ghost predicate IsBlock(s: Bytes, i: nat, b: Bytes) {
    |b| == 4096 && forall k: nat :: k < 4096 ==> b[k] == if 4096 * i + k < |s| then s[4096 * i + k] else 0
  }

  ghost predicate IsDigest(h: HashFunction, salt: Bytes, s: Bytes, i: nat, d: Bytes) {
    exists b :: IsBlock(s, i, b) && d == h(salt + b)
  }

  /** The level over `s`: for each of its `n` blocks the 32 bytes of the digest of salt and block,
      in order, and zeros. */
  ghost predicate IsLevel(h: HashFunction, salt: Bytes, s: Bytes, n: nat, level: Bytes) {
    && 32 * n <= |level|
    && (forall i: nat :: i < n ==> IsDigest(h, salt, s, i, level[32 * i..32 * i + 32]))
    && forall k :: 32 * n <= k < |level| ==> level[k] == 0
  }

  /** A stored tree ends in the level over `s`, 128 digests to a block. Before that is the tree
      over this level, unless it is one block; then its digest is the root. The root of a single
      block is that block's digest. */
  ghost predicate IsTree(h: HashFunction, salt: Bytes, s: Bytes, root: Bytes, tree: Bytes)
    decreases |tree|
  {
    var n := (|s| + 4095) / 4096;
    var b := (n + 127) / 128;
    && 1 <= n && 4096 * b <= |tree|
    && var start := |tree| - 4096 * b;
    && IsLevel(h, salt, s, n, tree[start..])
    && if b == 1 then start == 0 && root == if n == 1 then tree[..32] else h(salt + tree)
       else IsTree(h, salt, tree[start..], root, tree[..start])
  }

  lemma BlockExactly(s: Bytes, i: nat, b: Bytes)
    requires i < BlockCount(|s|)
    ensures IsBlock(s, i, b) <==> b == BlockAt(s, i)
  {
    var c := BlockAt(s, i);
    assert forall k: nat :: k < 4096 ==> c[k] == if 4096 * i + k < |s| then s[4096 * i + k] else 0;
  }

  lemma SlotOf(h: HashFunction, salt: Bytes, s: Bytes, i: nat)
    requires Digests(h, DIGEST_SIZE) && i < BlockCount(|s|)
    ensures var l := Packed(HashLevel(h, salt, s));
            32 * i + 32 <= |l| && l[32 * i..32 * i + 32] == VerityHash(h, salt, BlockAt(s, i))
  {
    hide Packed, BlockAt, HashLevel, VerityHash;
    SaltFirst(h, salt);
    DigestSize(h, salt + BlockAt(s, i));
    SlotHolds(h, salt, s, [], i);
    assert [] + Packed(HashLevel(h, salt, s)) == Packed(HashLevel(h, salt, s));
  }

  lemma LevelIs(h: HashFunction, salt: Bytes, s: Bytes)
    requires Digests(h, DIGEST_SIZE)
    ensures IsLevel(h, salt, s, BlockCount(|s|), Packed(HashLevel(h, salt, s)))
  {
    hide BlockAt, Digests, IsBlock;
    var n, l := BlockCount(|s|), HashLevel(h, salt, s);
    DigestedSize(h, salt, s, n);
    forall i: nat | i < n
      ensures 32 * i + 32 <= |Packed(l)| && IsDigest(h, salt, s, i, Packed(l)[32 * i..32 * i + 32])
    {
      SlotOf(h, salt, s, i);
      BlockExactly(s, i, BlockAt(s, i));
    }
  }

  /** Padding a level does not change its blocks. */
  lemma {:induction false} PackedDigests(h: HashFunction, salt: Bytes, s: Bytes, k: nat)
    requires k <= BlockCount(|s|)
    ensures BlockCount(|Packed(s)|) == BlockCount(|s|) && Digested(h, salt, Packed(s), k) == Digested(h, salt, s, k)
    decreases k
  {
    hide VerityHash;
    if k > 0 {
      PackedDigests(h, salt, s, k - 1);
      PackedBlock(s, k - 1);
      assert BlockAt(Packed(s), k - 1) == BlockAt(s, k - 1);
    }
  }

  lemma PackedLevel(h: HashFunction, salt: Bytes, s: Bytes)
    ensures BlockCount(|Packed(s)|) == BlockCount(|s|) && HashLevel(h, salt, Packed(s)) == HashLevel(h, salt, s)
  {
    hide Packed, Digested;
    PackedDigests(h, salt, s, BlockCount(|s|));
  }

  lemma SaltFirst(h: HashFunction, salt: Bytes)
    ensures forall b :: VerityHash(h, salt, b) == h(salt + b)
  {
  }

  /** The tree over `s` is the one that is written. */
  lemma {:induction false} TreeIs(h: HashFunction, salt: Bytes, s: Bytes)
    requires Digests(h, DIGEST_SIZE) && s != []
    ensures var l := HashLevel(h, salt, s); IsTree(h, salt, s, RootOver(h, salt, l), TreeOver(h, salt, l))
    decreases BlockCount(|s|)
  {
    SaltFirst(h, salt);
    hide Packed, BlockAt, HashLevel, Digests, VerityHash, RootOver, Above, IsLevel, TreeOver;
    var n, l := BlockCount(|s|), HashLevel(h, salt, s);
    LevelOf(h, salt, s);
    LevelIs(h, salt, s);
    TreeTop(h, salt, l);
    var above, tree := Above(h, salt, l), TreeOver(h, salt, l);
    assert tree[..|above|] == above && tree[|above|..] == Packed(l);
    if n == 1 {
      SingleBlock(h, salt, s);
      assert tree[..32] == l;
    } else if HashBlocks(n) == 1 {
      RootOfSmall(h, salt, l);
      assert tree == Packed(l);
    } else {
      var up := Packed(l);
      PackedLevel(h, salt, l);
      FewerBlocks(n);
      TreeIs(h, salt, up);
      RootSteps(h, salt, l);
    }
  }

  lemma OneLevel(h: HashFunction, salt: Bytes, s: Bytes, n: nat, a: Bytes, b: Bytes)
    requires IsLevel(h, salt, s, n, a) && IsLevel(h, salt, s, n, b) && |a| == |b|
    ensures a == b
  {
    hide IsBlock;
    forall k | 0 <= k < |a| ensures a[k] == b[k] {
      if k < 32 * n {
        var i := k / 32;
        var d, e := a[32 * i..32 * i + 32], b[32 * i..32 * i + 32];
        assert IsDigest(h, salt, s, i, d) && IsDigest(h, salt, s, i, e);
        OneDigest(h, salt, s, i, d, e);
        assert a[k] == d[k - 32 * i] && b[k] == e[k - 32 * i];
      }
    }
  }

  lemma OneDigest(h: HashFunction, salt: Bytes, s: Bytes, i: nat, d: Bytes, e: Bytes)
    requires IsDigest(h, salt, s, i, d) && IsDigest(h, salt, s, i, e)
    ensures d == e
  {
    var b :| IsBlock(s, i, b) && d == h(salt + b);
    var c :| IsBlock(s, i, c) && e == h(salt + c);
    assert b == c;
  }

  /** Data has one tree and one root. */
  lemma {:induction false} OneTree(h: HashFunction, salt: Bytes, s: Bytes, root: Bytes, tree: Bytes, root': Bytes,
                                   tree': Bytes)
    requires IsTree(h, salt, s, root, tree) && IsTree(h, salt, s, root', tree')
    ensures root == root' && tree == tree'
    decreases |tree|
  {
    hide IsLevel;
    var n := (|s| + 4095) / 4096;
    var b := (n + 127) / 128;
    var start, start' := |tree| - 4096 * b, |tree'| - 4096 * b;
    OneLevel(h, salt, s, n, tree[start..], tree'[start'..]);
    assert tree == tree[..start] + tree[start..] && tree' == tree'[..start'] + tree'[start'..];
    if b != 1 {
      OneTree(h, salt, tree[start..], root, tree[..start], root', tree'[..start']);
    }
  }

  lemma ReversedOne(l: Bytes)
    ensures Reversed([l]) == l
  {
    ReversedPush([], l);
    assert [] + [l] == [l];
    assert l + [] == l;
  }

  lemma ReversedLast(levels: seq<Bytes>, k: nat)
    requires k <= |levels|
    ensures Reversed(levels[..0]) == []
    ensures k < |levels| ==> Reversed(levels[..k + 1]) == levels[k] + Reversed(levels[..k])
  {
    if k < |levels| {
      assert levels[..k + 1] == levels[..k] + [levels[k]];
      ReversedPush(levels[..k], levels[k]);
    }
  }

  /** The root hash and the on-disk tree of `data`; nothing for empty data. */
  method ComputeVerityTree(h: HashFunction, salt: Bytes, data: Bytes) returns (r: Option<(Bytes, Bytes)>)
    requires Digests(h, DIGEST_SIZE)
    ensures r.None? <==> data == []
    ensures r.Some? ==> IsTree(h, salt, data, r.value.0, r.value.1)
    ensures r.Some? ==> TreeIsRight(h, salt, data, r.value.0, r.value.1)
  {
    hide Digests, HashLevel, Packed, Reversed, TreeIsRight, TreeOver, IsTree;
    if BlockCount(|data|) == 0 {
      return None;
    }
    var currentHashes := HashBlocksOf(h, salt, data);
    ghost var leaves := currentHashes;
    LevelOf(h, salt, data);
    var levelHashes := [Packed(currentHashes)];
    ReversedOne(Packed(currentHashes));
    assert TreeOver(h, salt, leaves) == Above(h, salt, leaves) + Packed(leaves) by { TreeTop(h, salt, leaves); }
    while |currentHashes| > DIGEST_SIZE
      invariant |currentHashes| > 0
      invariant RootOver(h, salt, currentHashes) == RootOver(h, salt, leaves)
      invariant TreeOver(h, salt, leaves) == Above(h, salt, currentHashes) + Reversed(levelHashes)
      decreases |currentHashes|
    {
      LevelShrinks(h, salt, currentHashes);
      ghost var below := currentHashes;
      currentHashes := HashBlocksOf(h, salt, currentHashes);
      if |currentHashes| > DIGEST_SIZE {
        ReversedPush(levelHashes, Packed(currentHashes));
        TreeTop(h, salt, currentHashes);
        ghost var a, p, rest := Above(h, salt, currentHashes), Packed(currentHashes), Reversed(levelHashes);
        assert (a + p) + rest == a + (p + rest);
        levelHashes := levelHashes + [Packed(currentHashes)];
      }
    }
    var hashTree := [];
    assert levelHashes[..|levelHashes|] == levelHashes;
    var level := |levelHashes|;
    while level > 0
      invariant 0 <= level <= |levelHashes|
      invariant hashTree + Reversed(levelHashes[..level]) == Reversed(levelHashes)
    {
      level := level - 1;
      ReversedLast(levelHashes, level);
      ghost var t := Reversed(levelHashes[..level]);
      assert hashTree + (levelHashes[level] + t) == (hashTree + levelHashes[level]) + t;
      hashTree := hashTree + levelHashes[level];
    }
    ReversedLast(levelHashes, |levelHashes|);
    assert hashTree + [] == hashTree;
    TreeTop(h, salt, currentHashes);
    TreeVerifies(h, salt, data);
    TreeIs(h, salt, data);
    r := Some((currentHashes, hashTree));
  }

  // ----- binding -----

  /** The salted blocks a verifier hashes for block `i`: the block, and the hash blocks on its
      path. */
  ghost function PathInputs(salt: Bytes, tree: Bytes, n: nat, block: Bytes, i: nat): set<Bytes>
    decreases n
  {
    var b := HashBlocks(n);
    {salt + block} +
    if n <= 1 || |tree| < b * BLOCK_SIZE then {}
    else if b == 1 then {salt + tree}
    else
      var start := |tree| - b * BLOCK_SIZE;
      PathInputs(salt, tree[..start], b, HashBlock(tree, start, i), i / HASHES_PER_BLOCK)
  }

  /** Against one root hash, a position verifies for one block only, whatever tree is presented
      with it; or an input hashed along the one path collides with one hashed along the other. */
  lemma {:induction false} PathBinding(h: HashFunction, salt: Bytes, root: Bytes, n: nat, i: nat,
                                       tree: Bytes, block: Bytes, tree': Bytes, block': Bytes)
    returns (x: Bytes, y: Bytes)
    requires Digests(h, DIGEST_SIZE)
    requires PathVerifies(h, salt, root, tree, n, block, i) && PathVerifies(h, salt, root, tree', n, block', i)
    ensures block == block'
            || Clash(h, PathInputs(salt, tree, n, block, i), PathInputs(salt, tree', n, block', i), x, y)
    decreases n
  {
    PathStep(h, salt, root, n, i, tree, block);
    PathStep(h, salt, root, n, i, tree', block');
    FewerBlocks(n);
    hide Digests, HashBlock, At, PathVerifies, PathInputs, HashBlocks, VerityHash, LastLevel;
    x, y := salt + block, salt + block';
    SaltCancels(salt, block, block');
    var b := HashBlocks(n);
    if b == 1 {
      if tree != tree' {
        SaltCancels(salt, tree, tree');
        x, y := salt + tree, salt + tree';
      } else {
        SlotsAgree(h, salt, root, n, i, tree, block, tree', block');
      }
    } else {
      var start, start' := LastLevel(tree, n), LastLevel(tree', n);
      var up, up' := HashBlock(tree, start, i), HashBlock(tree', start', i);
      if up != up' {
        x, y := PathBinding(h, salt, root, b, i / HASHES_PER_BLOCK, tree[..start], up, tree'[..start'], up');
      } else {
        SlotsAgree(h, salt, root, n, i, tree, block, tree', block');
      }
    }
  }

  lemma LevelHolds(tree: Bytes, n: nat, i: nat)
    requires HashBlocks(n) * BLOCK_SIZE <= |tree| && i < n
    ensures LastLevel(tree, n) + (i / HASHES_PER_BLOCK + 1) * BLOCK_SIZE <= |tree|
  {
    SlotBlock(n, i);
    hide HASHES_PER_BLOCK, HashBlocks;
    assert (i / HASHES_PER_BLOCK + 1) * BLOCK_SIZE <= HashBlocks(n) * BLOCK_SIZE;
  }

  /** Equal hash blocks hold equal digests in one slot. */
  lemma SlotsAgree(h: HashFunction, salt: Bytes, root: Bytes, n: nat, i: nat,
                   tree: Bytes, block: Bytes, tree': Bytes, block': Bytes)
    requires Digests(h, DIGEST_SIZE)
    requires PathVerifies(h, salt, root, tree, n, block, i) && PathVerifies(h, salt, root, tree', n, block', i)
    requires HashBlock(tree, LastLevel(tree, n), i) == HashBlock(tree', LastLevel(tree', n), i)
    ensures h(salt + block) == h(salt + block')
  {
    hide Digests, HashBlock, At, PathVerifies, PathInputs, LastLevel, HashBlocks, VerityHash, HASHES_PER_BLOCK;
    DigestSize(h, salt + block);
    DigestSize(h, salt + block');
    PathStep(h, salt, root, n, i, tree, block);
    PathStep(h, salt, root, n, i, tree', block');
    LevelHolds(tree, n, i);
    LevelHolds(tree', n, i);
    var start, start' := LastLevel(tree, n), LastLevel(tree', n);
    SameSlot(tree, start, VerityHash(h, salt, block), tree', start', VerityHash(h, salt, block'), i);
  }

  lemma FewerBlocks(n: nat)
    requires n > 1
    ensures HashBlocks(n) < n
  {
  }

  /** Where the last level of a stored tree begins. */
  function LastLevel(tree: Bytes, n: nat): (start: nat)
    ensures start <= |tree|
    ensures HashBlocks(n) * BLOCK_SIZE <= |tree| ==> start + HashBlocks(n) * BLOCK_SIZE == |tree|
  {
    if HashBlocks(n) * BLOCK_SIZE <= |tree| then |tree| - HashBlocks(n) * BLOCK_SIZE else 0
  }

  /** One step along a path: what is checked there, and hashed. */
  lemma PathStep(h: HashFunction, salt: Bytes, root: Bytes, n: nat, i: nat, tree: Bytes, block: Bytes)
    requires PathVerifies(h, salt, root, tree, n, block, i)
    ensures 1 < n && i < n && HashBlocks(n) * BLOCK_SIZE <= |tree|
    ensures VerityHash(h, salt, block) == h(salt + block) && VerityHash(h, salt, tree) == h(salt + tree)
    ensures salt + block in PathInputs(salt, tree, n, block, i)
    ensures var b, start := HashBlocks(n), LastLevel(tree, n);
            && At(tree, start + DIGEST_SIZE * i, VerityHash(h, salt, block))
            && (b == 1 ==> start == 0 && VerityHash(h, salt, tree) == root
                           && salt + tree in PathInputs(salt, tree, n, block, i))
            && (b != 1 ==>
                  var up, j := HashBlock(tree, start, i), i / HASHES_PER_BLOCK;
                  && PathVerifies(h, salt, root, tree[..start], b, up, j)
                  && PathInputs(salt, tree[..start], b, up, j) <= PathInputs(salt, tree, n, block, i))
  {
    hide At, HashBlock, HashBlocks;
  }

  lemma SaltCancels(salt: Bytes, a: Bytes, b: Bytes)
    ensures salt + a == salt + b ==> a == b
  {
    assert (salt + a)[|salt|..] == a && (salt + b)[|salt|..] == b;
  }

  lemma DigestSize(h: HashFunction, x: Bytes)
    requires Digests(h, DIGEST_SIZE)
    ensures |h(x)| == DIGEST_SIZE
  {
  }

  lemma SameSlot(tree: Bytes, start: nat, d: Bytes, tree': Bytes, start': nat, d': Bytes, i: nat)
    requires At(tree, start + DIGEST_SIZE * i, d) && At(tree', start' + DIGEST_SIZE * i, d')
    requires |d| == DIGEST_SIZE == |d'| && HashBlock(tree, start, i) == HashBlock(tree', start', i)
    requires start + (i / HASHES_PER_BLOCK + 1) * BLOCK_SIZE <= |tree|
    requires start' + (i / HASHES_PER_BLOCK + 1) * BLOCK_SIZE <= |tree'|
    ensures d == d'
  {
    SlotInBlock(tree, start, i, d);
    SlotInBlock(tree', start', i, d');
    hide HashBlock;
    AtUnique(HashBlock(tree, start, i), DIGEST_SIZE * (i % HASHES_PER_BLOCK), d, d');
  }

  lemma SlotOffset(i: nat)
    ensures i / HASHES_PER_BLOCK * BLOCK_SIZE + DIGEST_SIZE * (i % HASHES_PER_BLOCK) == DIGEST_SIZE * i
    ensures DIGEST_SIZE * (i % HASHES_PER_BLOCK) + DIGEST_SIZE <= BLOCK_SIZE
  {
    assert i == HASHES_PER_BLOCK * (i / HASHES_PER_BLOCK) + i % HASHES_PER_BLOCK;
  }

  /** Slot `i` of a level is slot `i % 128` of its hash block. */
  lemma SlotInBlock(tree: Bytes, start: nat, i: nat, digest: Bytes)
    requires At(tree, start + DIGEST_SIZE * i, digest) && |digest| == DIGEST_SIZE
    requires start + (i / HASHES_PER_BLOCK + 1) * BLOCK_SIZE <= |tree|
    ensures At(HashBlock(tree, start, i), DIGEST_SIZE * (i % HASHES_PER_BLOCK), digest)
  {
    var at := start + i / HASHES_PER_BLOCK * BLOCK_SIZE;
    var k := DIGEST_SIZE * (i % HASHES_PER_BLOCK);
    SlotOffset(i);
    assert at + k == start + DIGEST_SIZE * i;
    hide HASHES_PER_BLOCK;
    RangeOfRange(tree, at, BLOCK_SIZE, k, DIGEST_SIZE);
  }

  lemma RangeOfRange(s: Bytes, at: nat, length: nat, k: nat, n: nat)
    requires at + length <= |s| && k + n <= length
    ensures s[at..at + length][k..k + n] == s[at + k..at + k + n]
  {
    var a, b := s[at..at + length][k..k + n], s[at + k..at + k + n];
    assert |a| == |b|;
    forall i | 0 <= i < n ensures a[i] == b[i] {
      assert a[i] == s[at..at + length][k + i];
    }
  }

  /** What is hashed on the way from data block `i` to the root. A single block is hashed alone. */
  ghost function BlockInputs(salt: Bytes, data: Bytes, tree: Bytes, i: nat): set<Bytes>
    requires i < BlockCount(|data|)
  {
    if BlockCount(|data|) == 1 then {salt + BlockAt(data, i)}
    else PathInputs(salt, tree, BlockCount(|data|), BlockAt(data, i), i)
  }

  /** Equal roots over equally many blocks: equal blocks at every position, or a collision on
      the way from that position to the root. */
  lemma BlockBinding(h: HashFunction, salt: Bytes, a: Bytes, b: Bytes, root: Bytes, treeA: Bytes, treeB: Bytes, i: nat)
    returns (x: Bytes, y: Bytes)
    requires Digests(h, DIGEST_SIZE) && BlockCount(|a|) == BlockCount(|b|) && i < BlockCount(|a|)
    requires TreeIsRight(h, salt, a, root, treeA) && TreeIsRight(h, salt, b, root, treeB)
    ensures BlockAt(a, i) == BlockAt(b, i)
            || Clash(h, BlockInputs(salt, a, treeA, i), BlockInputs(salt, b, treeB, i), x, y)
  {
    hide Digests, PathVerifies, BlockAt, TreeBlocks, PathInputs;
    if BlockCount(|a|) == 1 {
      x, y := salt + BlockAt(a, 0), salt + BlockAt(b, 0);
      SaltCancels(salt, BlockAt(a, 0), BlockAt(b, 0));
    } else {
      x, y := PathBinding(h, salt, root, BlockCount(|a|), i, treeA, BlockAt(a, i), treeB, BlockAt(b, i));
    }
  }

  /** Equal roots over equally many blocks mean equal zero-padded data, or a collision between
      inputs hashed for some block `i` of the two. */
  lemma RootBinding(h: HashFunction, salt: Bytes, a: Bytes, b: Bytes, root: Bytes, treeA: Bytes, treeB: Bytes)
    returns (i: nat, x: Bytes, y: Bytes)
    requires Digests(h, DIGEST_SIZE) && BlockCount(|a|) == BlockCount(|b|)
    requires TreeIsRight(h, salt, a, root, treeA) && TreeIsRight(h, salt, b, root, treeB)
    ensures Packed(a) == Packed(b)
            || (i < BlockCount(|a|) && Clash(h, BlockInputs(salt, a, treeA, i), BlockInputs(salt, b, treeB, i), x, y))
  {
    hide Digests, BlockAt, BlockInputs, TreeIsRight, Packed;
    if k: nat :| k < BlockCount(|a|) && BlockAt(a, k) != BlockAt(b, k) {
      i := k;
      x, y := BlockBinding(h, salt, a, b, root, treeA, treeB, k);
    } else {
      i, x, y := 0, [], [];
      PackedAgree(a, b);
    }
  }

  lemma PackedAgree(a: Bytes, b: Bytes)
    requires BlockCount(|a|) == BlockCount(|b|)
    requires forall k :: 0 <= k < BlockCount(|a|) ==> BlockAt(a, k) == BlockAt(b, k)
    ensures Packed(a) == Packed(b)
  {
    forall j | 0 <= j < |Packed(a)| ensures Packed(a)[j] == Packed(b)[j] {
      var k, o := j / BLOCK_SIZE, j % BLOCK_SIZE;
      PackedBlock(a, k);
      PackedBlock(b, k);
      hide BlockAt, Packed;
      assert Packed(a)[k * BLOCK_SIZE..(k + 1) * BLOCK_SIZE][o] == Packed(a)[j];
      assert Packed(b)[k * BLOCK_SIZE..(k + 1) * BLOCK_SIZE][o] == Packed(b)[j];
    }
  }
}
