/** The SEV-SNP launch digest: a hash chain of PAGE_INFO records. */
module GuestContext {
  import opened Bytes
  import opened Hashing

  const SHA384_SIZE: nat := 48
  const PAGE_SIZE: nat := 4096
  const PAGE_TYPE_NORMAL: byte := 1
  const PAGE_TYPE_VMSA: byte := 2
  const PAGE_TYPE_ZERO: byte := 3
  const PAGE_TYPE_UNMEASURED: byte := 4
  const PAGE_TYPE_SECRETS: byte := 5
  const PAGE_TYPE_CPUID: byte := 6
  const VMSA_GPA: nat := 0xFFFF_FFFF_F000

  /** One launch update: page type, guest address, and digest of the page's contents. */
  datatype Update = Update(pageType: byte, gpa: nat, contents: Bytes)

  /** PAGE_INFO (section 8.17.2, Table 67 of the SEV-SNP firmware ABI specification). */
  function PageInfo(ld: Bytes, u: Update): Bytes {
    ld + (u.contents + (LE16(0x70) + ([u.pageType, 0, 0, 0, 0, 0] + LE64(u.gpa))))
  }

  /** The digest after a series of updates. */
  function Chain(h: HashFunction, ld: Bytes, us: seq<Update>): Bytes {
    if us == [] then ld else h(PageInfo(Chain(h, ld, us[..|us| - 1]), us[|us| - 1]))
  }

  lemma ChainPush(h: HashFunction, ld: Bytes, us: seq<Update>, u: Update)
    ensures Chain(h, ld, us + [u]) == h(PageInfo(Chain(h, ld, us), u))
  {
    assert (us + [u])[..|us|] == us;
  }

  lemma {:induction false} ChainAppend(h: HashFunction, ld: Bytes, a: seq<Update>, b: seq<Update>)
    ensures Chain(h, ld, a + b) == Chain(h, Chain(h, ld, a), b)
    decreases |b|
  {
    hide PageInfo;
    if b == [] {
      assert a + b == a;
    } else {
      var n := |b| - 1;
      ChainAppend(h, ld, a, b[..n]);
      assert (a + b)[..|a + b| - 1] == a + b[..n];
    }
  }

  // ----- binding -----

  ghost predicate WellFormed(us: seq<Update>) {
    forall k :: 0 <= k < |us| ==> |us[k].contents| == SHA384_SIZE
  }

  lemma PageInfoInjective(ld: Bytes, u: Update, ld': Bytes, u': Update)
    requires |ld| == SHA384_SIZE == |ld'| && |u.contents| == SHA384_SIZE == |u'.contents|
    requires PageInfo(ld, u) == PageInfo(ld', u')
    ensures ld == ld' && u.contents == u'.contents && u.pageType == u'.pageType
    ensures u.gpa % 0x1_0000_0000_0000_0000 == u'.gpa % 0x1_0000_0000_0000_0000
  {
    hide LE16, LE64;
    var p, p' := PageInfo(ld, u), PageInfo(ld', u');
    assert ld == p[..48] == p'[..48] == ld';
    assert u.contents == p[48..96] == p'[48..96] == u'.contents;
    assert u.pageType == p[98] == p'[98] == u'.pageType;
    assert LE64(u.gpa) == p[104..112] == p'[104..112] == LE64(u'.gpa);
    SameField(u.gpa, u'.gpa);
  }

  lemma SameField(a: nat, b: nat)
    requires LE64(a) == LE64(b)
    ensures a % 0x1_0000_0000_0000_0000 == b % 0x1_0000_0000_0000_0000
  {
    hide LE64, U64At;
    AtPushed([], LE64(a));
    assert [] + LE64(a) == LE64(a);
    U64OfLE64(LE64(a), 0, a);
    U64OfLE64(LE64(b), 0, b);
  }

  /** The digest of a chain, with 48-byte digests throughout. */
  lemma ChainSize(h: HashFunction, ld: Bytes, us: seq<Update>)
    requires Digests(h, SHA384_SIZE) && |ld| == SHA384_SIZE
    ensures |Chain(h, ld, us)| == SHA384_SIZE
  {
    hide PageInfo;
  }

  /** The same page, as far as its record shows. */
  ghost predicate SameUpdate(u: Update, v: Update) {
    && u.pageType == v.pageType && u.contents == v.contents
    && u.gpa % 0x1_0000_0000_0000_0000 == v.gpa % 0x1_0000_0000_0000_0000
  }

  ghost predicate SameUpdates(us: seq<Update>, vs: seq<Update>) {
    |us| == |vs| && forall k :: 0 <= k < |us| ==> SameUpdate(us[k], vs[k])
  }

  /** The PAGE_INFO records hashed along a chain. */
  ghost function Records(h: HashFunction, ld: Bytes, us: seq<Update>): set<Bytes> {
    if us == [] then {}
    else Records(h, ld, us[..|us| - 1]) + {PageInfo(Chain(h, ld, us[..|us| - 1]), us[|us| - 1])}
  }

  /** Equal digests after equally many updates: the same start and the same updates, or a
      record of the one chain that collides with one of the other. */
  lemma {:induction false} ChainBinding(h: HashFunction, ld: Bytes, us: seq<Update>, ld': Bytes, vs: seq<Update>)
    returns (x: Bytes, y: Bytes)
    requires Digests(h, SHA384_SIZE) && |ld| == SHA384_SIZE == |ld'|
    requires |us| == |vs| && WellFormed(us) && WellFormed(vs) && Chain(h, ld, us) == Chain(h, ld', vs)
    ensures (ld == ld' && SameUpdates(us, vs)) || Clash(h, Records(h, ld, us), Records(h, ld', vs), x, y)
    decreases |us|
  {
    hide Digests, PageInfo, SameUpdate;
    if us == [] {
      x, y := [], [];
    } else {
      var n := |us| - 1;
      var a, b := Chain(h, ld, us[..n]), Chain(h, ld', vs[..n]);
      x, y := PageInfo(a, us[n]), PageInfo(b, vs[n]);
      if x == y {
        ChainSize(h, ld, us[..n]);
        ChainSize(h, ld', vs[..n]);
        PageInfoInjective(a, us[n], b, vs[n]);
        assert SameUpdate(us[n], vs[n]) by { FieldsAgree(us[n], vs[n]); }
        x, y := ChainBinding(h, ld, us[..n], ld', vs[..n]);
        if !Clash(h, Records(h, ld, us[..n]), Records(h, ld', vs[..n]), x, y) {
          forall k | 0 <= k < |us| ensures SameUpdate(us[k], vs[k]) {
            if k < n { assert SameUpdate(us[..n][k], vs[..n][k]); }
          }
        }
      }
    }
  }

  lemma FieldsAgree(u: Update, v: Update)
    requires u.pageType == v.pageType && u.contents == v.contents
    requires u.gpa % 0x1_0000_0000_0000_0000 == v.gpa % 0x1_0000_0000_0000_0000
    ensures SameUpdate(u, v)
  {
  }

  // ----- page ranges -----

  function NormalUpdates(h: HashFunction, gpa: nat, data: Bytes): (us: seq<Update>)
    ensures |us| == |data| / PAGE_SIZE
  {
    seq(|data| / PAGE_SIZE, i requires 0 <= i < |data| / PAGE_SIZE =>
      Update(PAGE_TYPE_NORMAL, gpa + i * PAGE_SIZE, h(data[i * PAGE_SIZE..(i + 1) * PAGE_SIZE])))
  }

  function FillUpdates(pageType: byte, gpa: nat, length: nat): (us: seq<Update>)
    ensures |us| == length / PAGE_SIZE
  {
    seq(length / PAGE_SIZE, i requires 0 <= i < length / PAGE_SIZE =>
      Update(pageType, gpa + i * PAGE_SIZE, Zeros(SHA384_SIZE)))
  }

  /** The starting digest: zeros, or the start of a precomputed one. */
  function Seed(seed: Option<Bytes>): (ld: Bytes)
    ensures |ld| == SHA384_SIZE
  {
    match seed
    case None => Zeros(SHA384_SIZE)
    case Some(s) => s[..Min(|s|, SHA384_SIZE)] + Zeros(SHA384_SIZE - Min(|s|, SHA384_SIZE))
  }

  /** The running digest. `log` is every update so far. */
  class Gctx {
    const h: HashFunction
    var ld: Bytes
    ghost const start: Bytes
    ghost var log: seq<Update>

    ghost predicate Valid()
      reads this
    {
      ld == Chain(h, start, log)
    }

    constructor (h: HashFunction, seed: Option<Bytes>)
      ensures Valid() && this.h == h && start == Seed(seed) && log == []
    {
      this.h := h;
      ld, start, log := Seed(seed), Seed(seed), [];
    }

    method Record(pageType: byte, gpa: nat, contents: Bytes)
      requires Valid()
      modifies this
      ensures Valid() && log == old(log) + [Update(pageType, gpa, contents)]
    {
      hide Chain, LE64, LE16;
      ghost var u := Update(pageType, gpa, contents);
      ChainPush(h, start, log, u);
      var pageInfo := ld + (contents + (LE16(0x70) + ([pageType, 0, 0, 0, 0, 0] + LE64(gpa))));
      ld := h(pageInfo);
      log := log + [u];
    }

    /** False, and the digest unusable, unless the data is whole pages. */
    method UpdateNormalPages(startGpa: nat, data: Bytes) returns (ok: bool)
      requires Valid()
      modifies this
      ensures ok <==> |data| % PAGE_SIZE == 0
      ensures ok ==> Valid() && log == old(log) + NormalUpdates(h, startGpa, data)
    {
      hide Chain;
      if |data| % PAGE_SIZE != 0 { return false; }
      var offset := 0;
      ghost var us := NormalUpdates(h, startGpa, data);
      assert us[..0] == [];
      while offset < |data|
        invariant 0 <= offset <= |data| && offset % PAGE_SIZE == 0
        invariant Valid() && log == old(log) + us[..offset / PAGE_SIZE]
      {
        var pageData := data[offset..offset + PAGE_SIZE];
        ghost var i := offset / PAGE_SIZE;
        assert us[..i + 1] == us[..i] + [us[i]];
        assert i * PAGE_SIZE == offset;
        Record(PAGE_TYPE_NORMAL, startGpa + offset, h(pageData));
        offset := offset + PAGE_SIZE;
      }
      assert us[..|us|] == us;
      ok := true;
    }

    method UpdateVmsaPage(data: Bytes)
      requires Valid() && |data| == PAGE_SIZE
      modifies this
      ensures Valid() && log == old(log) + [Update(PAGE_TYPE_VMSA, VMSA_GPA, h(data))]
    {
      Record(PAGE_TYPE_VMSA, VMSA_GPA, h(data));
    }

    /** Zero and unmeasured ranges: the same loop with a different page type. */
    method UpdateFillPages(pageType: byte, gpa: nat, length: nat) returns (ok: bool)
      requires Valid()
      modifies this
      ensures ok <==> length % PAGE_SIZE == 0
      ensures ok ==> Valid() && log == old(log) + FillUpdates(pageType, gpa, length)
    {
      hide Chain;
      if length % PAGE_SIZE != 0 { return false; }
      var offset := 0;
      ghost var us := FillUpdates(pageType, gpa, length);
      assert us[..0] == [];
      while offset < length
        invariant 0 <= offset <= length && offset % PAGE_SIZE == 0
        invariant Valid() && log == old(log) + us[..offset / PAGE_SIZE]
      {
        ghost var i := offset / PAGE_SIZE;
        assert us[..i + 1] == us[..i] + [us[i]];
        assert i * PAGE_SIZE == offset;
        Record(pageType, gpa + offset, Zeros(SHA384_SIZE));
        offset := offset + PAGE_SIZE;
      }
      assert us[..|us|] == us;
      ok := true;
    }

    method UpdateSpecialPage(pageType: byte, gpa: nat)
      requires Valid()
      modifies this
      ensures Valid() && log == old(log) + [Update(pageType, gpa, Zeros(SHA384_SIZE))]
    {
      Record(pageType, gpa, Zeros(SHA384_SIZE));
    }
  }
}
