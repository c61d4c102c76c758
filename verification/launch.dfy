/** The SEV-SNP launch digest calculation, and what the digest commits to. */
module LaunchDigest {
  import opened Bytes
  import opened Hashing
  import opened GuestContext
  import opened SevHashTable
  import opened SaveAreas
  import opened Firmware
  import opened LaunchLog

  // ----- the updates of one section -----

  function Filled(pageType: byte, gpa: nat, size: nat): Option<seq<Update>> {
    if size % PAGE_SIZE == 0 then Some(FillUpdates(pageType, gpa, size)) else None
  }

  /** The page of hashes goes where the firmware's table says it is looked for, in a section of
      exactly one page. */
  function KernelHashUpdates(h: HashFunction, o: Ovmf, hashes: Option<SevHashes>, gpa: nat,
                             size: nat): Option<seq<Update>>
  {
    match hashes
    case None => Filled(PAGE_TYPE_ZERO, gpa, size)
    case Some(s) =>
      match EntryU32(o, SEV_HASH_TABLE_GUID)
      case None => None
      case Some(tableGpa) =>
        var offset := tableGpa % PAGE_SIZE;
        if offset + PADDED_TABLE_SIZE > HASH_PAGE_SIZE || size != HASH_PAGE_SIZE then None
        else Some(NormalUpdates(h, gpa, HashPage(s, offset)))
  }

  function SectionUpdates(h: HashFunction, o: Ovmf, hashes: Option<SevHashes>, vmm: VmmType,
                          d: MetadataSection): Option<seq<Update>>
  {
    match d.sectionType
    case SnpSecMem => Filled(if vmm == Gce then PAGE_TYPE_UNMEASURED else PAGE_TYPE_ZERO, d.gpa, d.size)
    case SnpSecrets => Some([Update(PAGE_TYPE_SECRETS, d.gpa, Zeros(SHA384_SIZE))])
    case Cpuid => Some(if vmm == Ec2 then [] else [Update(PAGE_TYPE_CPUID, d.gpa, Zeros(SHA384_SIZE))])
    case SnpKernelHashes => KernelHashUpdates(h, o, hashes, d.gpa, d.size)
    case SvsmCaa => Filled(PAGE_TYPE_ZERO, d.gpa, d.size)
  }

  function SectionsUpdates(h: HashFunction, o: Ovmf, hashes: Option<SevHashes>, vmm: VmmType,
                           ds: seq<MetadataSection>): Option<seq<Update>>
  {
    if ds == [] then Some([])
    else
      match SectionsUpdates(h, o, hashes, vmm, ds[..|ds| - 1])
      case None => None
      case Some(us) => Prepend(us, SectionUpdates(h, o, hashes, vmm, ds[|ds| - 1]))
  }

  /** EC2 measures the CPUID pages after everything else. */
  function LateCpuid(ds: seq<MetadataSection>): seq<Update> {
    if ds == [] then []
    else
      var d := ds[|ds| - 1];
      LateCpuid(ds[..|ds| - 1])
      + if d.sectionType == Cpuid then [Update(PAGE_TYPE_CPUID, d.gpa, Zeros(SHA384_SIZE))] else []
  }

  function MetadataUpdates(h: HashFunction, o: Ovmf, hashes: Option<SevHashes>, vmm: VmmType): Option<seq<Update>> {
    match SectionsUpdates(h, o, hashes, vmm, o.metadata)
    case None => None
    case Some(us) =>
      if hashes.Some? && !HasSection(o, SnpKernelHashes) then None
      else Some(us + if vmm == Ec2 then LateCpuid(o.metadata) else [])
  }

  ghost function VmsaUpdates(h: HashFunction, pages: seq<Bytes>): (us: seq<Update>)
    ensures |us| == |pages|
  {
    seq(|pages|, i requires 0 <= i < |pages| => Update(PAGE_TYPE_VMSA, VMSA_GPA, h(pages[i])))
  }

  function HashesFor(h256: HashFunction, opts: Options): Option<SevHashes> {
    match opts.kernel
    case None => None
    case Some(k) => Some(HashesOf(h256, k, if opts.initrd.Some? then opts.initrd.value else [], opts.append))
  }

  // ----- the calculation -----

  /** Everything measured after the firmware. */
  ghost function LaterUpdates(h256: HashFunction, h: HashFunction, o: Ovmf, opts: Options): Option<seq<Update>> {
    match MetadataUpdates(h, o, HashesFor(h256, opts), opts.vmm)
    case None => None
    case Some(us) =>
      match EntryU32(o, SEV_ES_RESET_GUID)
      case None => None
      case Some(eip) =>
        var pages := VmsaPagesOf(eip, opts.vcpuSig, opts.guestFeatures, opts.vmm, opts.vcpus);
        Some(us + VmsaUpdates(h, pages))
  }

  /** The digest of the firmware alone: a given one, or that of its pages. */
  function FirmwareDigest(h: HashFunction, o: Ovmf, ovmfHash: Option<Bytes>): Option<Bytes> {
    if ovmfHash.Some? then Some(Seed(ovmfHash))
    else if |o.data| % PAGE_SIZE != 0 then None
    else Some(Chain(h, Seed(None), NormalUpdates(h, o.gpa, o.data)))
  }

  ghost function DigestOf(h256: HashFunction, h: HashFunction, firmware: Bytes, opts: Options): Option<Bytes> {
    match OvmfOf(firmware)
    case None => None
    case Some(o) =>
      match FirmwareDigest(h, o, opts.ovmfHash)
      case None => None
      case Some(start) =>
        match LaterUpdates(h256, h, o, opts)
        case None => None
        case Some(us) => Some(Chain(h, start, us))
  }

  method CalcSnpOvmfHash(h: HashFunction, firmware: Bytes) returns (r: Option<Bytes>)
    ensures r == match OvmfOf(firmware)
                 case None => None
                 case Some(o) => FirmwareDigest(h, o, None)
  {
    hide OvmfOf, Chain;
    var ovmf := LoadOvmf(firmware);
    if ovmf.None? { return None; }
    var gctx := new Gctx(h, None);
    var ok := gctx.UpdateNormalPages(ovmf.value.gpa, ovmf.value.data);
    if !ok { return None; }
    assert [] + NormalUpdates(h, ovmf.value.gpa, ovmf.value.data) == NormalUpdates(h, ovmf.value.gpa, ovmf.value.data);
    r := Some(gctx.ld);
  }

  method SnpUpdateKernelHashes(g: Gctx, o: Ovmf, hashes: Option<SevHashes>, gpa: nat, size: nat) returns (ok: bool)
    requires g.Valid() && (hashes.Some? ==> SevHashTable.Sized(hashes.value))
    modifies g
    ensures var us := KernelHashUpdates(g.h, o, hashes, gpa, size);
            (ok <==> us.Some?) && (ok ==> g.Valid() && g.log == old(g.log) + us.value)
  {
    hide Chain, HashPage, EntryU32, NormalUpdates, SEV_HASH_TABLE_GUID;
    if hashes.Some? {
      var tableGpa := EntryU32(o, SEV_HASH_TABLE_GUID);
      if tableGpa.None? { return false; }
      var page := ConstructPage(hashes.value, tableGpa.value % PAGE_SIZE);
      if page.None? { return false; }
      if size != |page.value| { return false; }
      ok := g.UpdateNormalPages(gpa, page.value);
    } else {
      ok := g.UpdateFillPages(PAGE_TYPE_ZERO, gpa, size);
    }
  }

  method SnpUpdateSection(g: Gctx, o: Ovmf, hashes: Option<SevHashes>, vmm: VmmType, d: MetadataSection)
    returns (ok: bool)
    requires g.Valid() && (hashes.Some? ==> SevHashTable.Sized(hashes.value))
    modifies g
    ensures var us := SectionUpdates(g.h, o, hashes, vmm, d);
            (ok <==> us.Some?) && (ok ==> g.Valid() && g.log == old(g.log) + us.value)
  {
    hide Chain, KernelHashUpdates;
    match d.sectionType {
      case SnpSecMem =>
        if vmm == Gce {
          ok := g.UpdateFillPages(PAGE_TYPE_UNMEASURED, d.gpa, d.size);
        } else {
          ok := g.UpdateFillPages(PAGE_TYPE_ZERO, d.gpa, d.size);
        }
      case SnpSecrets =>
        g.UpdateSpecialPage(PAGE_TYPE_SECRETS, d.gpa);
        ok := true;
      case Cpuid =>
        if vmm != Ec2 {
          g.UpdateSpecialPage(PAGE_TYPE_CPUID, d.gpa);
        } else {
          assert g.log + [] == g.log;
        }
        ok := true;
      case SnpKernelHashes =>
        ok := SnpUpdateKernelHashes(g, o, hashes, d.gpa, d.size);
      case SvsmCaa =>
        ok := g.UpdateFillPages(PAGE_TYPE_ZERO, d.gpa, d.size);
    }
  }

  method SnpUpdateMetadataPages(g: Gctx, o: Ovmf, hashes: Option<SevHashes>, vmm: VmmType) returns (ok: bool)
    requires g.Valid() && (hashes.Some? ==> SevHashTable.Sized(hashes.value))
    modifies g
    ensures var us := MetadataUpdates(g.h, o, hashes, vmm);
            (ok <==> us.Some?) && (ok ==> g.Valid() && g.log == old(g.log) + us.value)
  {
    hide Chain, SectionUpdates, Prepend, Gctx.Valid;
    var ds := o.metadata;
    ghost var before := g.log;
    assert before + [] == before;
    assert ds[..0] == [];
    for k := 0 to |ds|
      invariant g.Valid()
      invariant var us := SectionsUpdates(g.h, o, hashes, vmm, ds[..k]); us.Some? && g.log == before + us.value
    {
      ghost var us := SectionsUpdates(g.h, o, hashes, vmm, ds[..k]).value;
      assert ds[..k + 1][..k] == ds[..k] && ds[..k + 1][k] == ds[k];
      ok := SnpUpdateSection(g, o, hashes, vmm, ds[k]);
      if !ok {
        PrependSome(us, []);
        SectionsFail(g.h, o, hashes, vmm, ds, k + 1);
        return;
      }
      ghost var more := SectionUpdates(g.h, o, hashes, vmm, ds[k]).value;
      PrependSome(us, more);
      assert before + us + more == before + (us + more);
    }
    assert ds[..|ds|] == ds;
    ghost var first := SectionsUpdates(g.h, o, hashes, vmm, ds).value;
    if vmm == Ec2 {
      LateCpuidPages(g, ds);
      assert before + first + LateCpuid(ds) == before + (first + LateCpuid(ds));
    } else {
      assert first + [] == first;
    }
    if hashes.Some? && !HasSection(o, SnpKernelHashes) {
      return false;
    }
    ok := true;
  }

  method LateCpuidPages(g: Gctx, ds: seq<MetadataSection>)
    requires g.Valid()
    modifies g
    ensures g.Valid() && g.log == old(g.log) + LateCpuid(ds)
  {
    hide Gctx.Valid;
    assert g.log + LateCpuid(ds[..0]) == g.log;
    for k := 0 to |ds|
      invariant g.Valid() && g.log == old(g.log) + LateCpuid(ds[..k])
    {
      assert ds[..k + 1][..k] == ds[..k];
      if ds[k].sectionType == Cpuid {
        g.UpdateSpecialPage(PAGE_TYPE_CPUID, ds[k].gpa);
      }
    }
    assert ds[..|ds|] == ds;
  }

  lemma {:induction false} SectionsFail(h: HashFunction, o: Ovmf, hashes: Option<SevHashes>, vmm: VmmType,
                                        ds: seq<MetadataSection>, k: nat)
    requires k <= |ds| && SectionsUpdates(h, o, hashes, vmm, ds[..k]).None?
    ensures SectionsUpdates(h, o, hashes, vmm, ds).None?
    decreases |ds|
  {
    hide SectionUpdates, Prepend;
    if k == |ds| {
      assert ds[..k] == ds;
    } else {
      assert ds[..|ds| - 1][..k] == ds[..k];
      SectionsFail(h, o, hashes, vmm, ds[..|ds| - 1], k);
    }
  }

  method SnpCalcLaunchDigest(h256: HashFunction, h: HashFunction, firmware: Bytes, opts: Options)
    returns (r: Option<Bytes>)
    requires Digests(h256, SHA256_SIZE)
    ensures r == DigestOf(h256, h, firmware, opts)
  {
    hide OvmfOf, Chain, MetadataUpdates, NormalUpdates, EntryU32, VmsaPagesOf, VmsaUpdates, Gctx.Valid, Seed;
    hide SEV_ES_RESET_GUID;
    hide FirmwareDigest, HashesFor;
    var ovmf := LoadOvmf(firmware);
    if ovmf.None? { return None; }
    var o := ovmf.value;
    var gctx := Start(h, o, opts.ovmfHash);
    if gctx == null { return None; }
    var g: Gctx := gctx;
    ghost var start, before := g.ld, g.log;
    var sevHashes := HashesFor(h256, opts);
    HashesSized(h256, opts);
    var ok := SnpUpdateMetadataPages(g, o, sevHashes, opts.vmm);
    if !ok { return None; }
    ghost var us := MetadataUpdates(h, o, sevHashes, opts.vmm).value;
    var resetEip := EntryU32(o, SEV_ES_RESET_GUID);
    if resetEip.None? { return None; }
    var pages := VmsaPages(resetEip.value, opts.vcpuSig, opts.guestFeatures, opts.vmm, opts.vcpus);
    ghost var vs := VmsaUpdates(h, pages);
    UpdateVmsaPages(g, pages);
    assert before + us + vs == before + (us + vs);
    LogDigest(g, start, before, us + vs);
    r := Some(g.ld);
  }

  method UpdateVmsaPages(g: Gctx, pages: seq<Bytes>)
    requires g.Valid() && forall i :: 0 <= i < |pages| ==> |pages[i]| == VMSA_SIZE
    modifies g
    ensures g.Valid() && g.log == old(g.log) + VmsaUpdates(g.h, pages)
  {
    hide Gctx.Valid;
    ghost var vs := VmsaUpdates(g.h, pages);
    assert vs[..0] == [] && g.log + [] == g.log;
    for i := 0 to |pages|
      invariant g.Valid() && g.log == old(g.log) + vs[..i]
    {
      assert vs[..i + 1] == vs[..i] + [vs[i]];
      g.UpdateVmsaPage(pages[i]);
    }
    assert vs[..|vs|] == vs;
  }

  /** The context after the firmware, or null if the firmware is not whole pages. */
  method Start(h: HashFunction, o: Ovmf, ovmfHash: Option<Bytes>) returns (g: Gctx?)
    ensures g == null <==> FirmwareDigest(h, o, ovmfHash).None?
    ensures g != null ==> fresh(g) && g.Valid() && g.h == h && FirmwareDigest(h, o, ovmfHash) == Some(g.ld)
    ensures g != null ==> g.ld == Chain(h, g.start, g.log)
  {
    hide NormalUpdates, Seed;
    if ovmfHash.Some? {
      g := new Gctx(h, ovmfHash);
    } else {
      var fresh' := new Gctx(h, None);
      var ok := fresh'.UpdateNormalPages(o.gpa, o.data);
      if !ok { return null; }
      assert [] + NormalUpdates(h, o.gpa, o.data) == NormalUpdates(h, o.gpa, o.data);
      g := fresh';
    }
  }

  lemma HashesSized(h256: HashFunction, opts: Options)
    requires Digests(h256, SHA256_SIZE)
    ensures HashesFor(h256, opts).Some? ==> SevHashTable.Sized(HashesFor(h256, opts).value)
  {
    if opts.kernel.Some? {
      var s := HashesFor(h256, opts).value;
      assert |s.kernel| == SHA256_SIZE && |s.initrd| == SHA256_SIZE && |s.cmdline| == SHA256_SIZE;
    }
  }

  lemma LogDigest(g: Gctx, start: Bytes, before: seq<Update>, more: seq<Update>)
    requires g.Valid() && g.log == before + more && start == Chain(g.h, g.start, before)
    ensures g.ld == Chain(g.h, start, more)
  {
    hide Chain;
    ChainAppend(g.h, g.start, before, more);
  }

  // ----- what the digest commits to -----

  lemma NormalWellFormed(h: HashFunction, gpa: nat, data: Bytes)
    requires Digests(h, SHA384_SIZE)
    ensures WellFormed(NormalUpdates(h, gpa, data))
  {
  }

  lemma SectionWellFormed(h: HashFunction, o: Ovmf, s: SevHashes, vmm: VmmType, d: MetadataSection)
    requires Digests(h, SHA384_SIZE) && SectionUpdates(h, o, Some(s), vmm, d).Some?
    ensures WellFormed(SectionUpdates(h, o, Some(s), vmm, d).value)
  {
    hide NormalUpdates, HashPage, EntryU32, Digests, FillUpdates, WellFormed, SEV_HASH_TABLE_GUID;
    match d.sectionType
    case SnpSecMem => FillWellFormed(if vmm == Gce then PAGE_TYPE_UNMEASURED else PAGE_TYPE_ZERO, d.gpa, d.size);
    case SnpKernelHashes => NormalWellFormed(h, d.gpa, HashPage(s, EntryU32(o, SEV_HASH_TABLE_GUID).value % PAGE_SIZE));
    case SvsmCaa => FillWellFormed(PAGE_TYPE_ZERO, d.gpa, d.size);
    case SnpSecrets => SpecialWellFormed(PAGE_TYPE_SECRETS, d.gpa);
    case Cpuid => SpecialWellFormed(PAGE_TYPE_CPUID, d.gpa);
  }

  lemma FillWellFormed(pageType: byte, gpa: nat, size: nat)
    ensures WellFormed(FillUpdates(pageType, gpa, size))
  {
    assert |Zeros(SHA384_SIZE)| == SHA384_SIZE;
  }

  lemma SpecialWellFormed(pageType: byte, gpa: nat)
    ensures WellFormed([]) && WellFormed([Update(pageType, gpa, Zeros(SHA384_SIZE))])
  {
    assert |Zeros(SHA384_SIZE)| == SHA384_SIZE;
  }

  lemma {:induction false} SectionsWellFormed(h: HashFunction, o: Ovmf, s: SevHashes, vmm: VmmType,
                                              ds: seq<MetadataSection>)
    requires Digests(h, SHA384_SIZE) && SectionsUpdates(h, o, Some(s), vmm, ds).Some?
    ensures WellFormed(SectionsUpdates(h, o, Some(s), vmm, ds).value)
    decreases |ds|
  {
    hide SectionUpdates, Digests;
    if ds != [] {
      SectionsWellFormed(h, o, s, vmm, ds[..|ds| - 1]);
      SectionWellFormed(h, o, s, vmm, ds[|ds| - 1]);
    }
  }

  lemma HashPageSize(s: SevHashes, offset: nat)
    requires SevHashTable.Sized(s) && offset + PADDED_TABLE_SIZE <= HASH_PAGE_SIZE
    ensures |HashPage(s, offset)| == HASH_PAGE_SIZE
  {
    TableLength(s);
    hide TableBytes;
  }

  lemma KernelHashSize(h: HashFunction, o: Ovmf, s: SevHashes, t: SevHashes, gpa: nat, size: nat)
    requires SevHashTable.Sized(s) && SevHashTable.Sized(t)
    ensures KernelHashUpdates(h, o, Some(s), gpa, size).Some? <==> KernelHashUpdates(h, o, Some(t), gpa, size).Some?
    ensures KernelHashUpdates(h, o, Some(s), gpa, size).Some? ==>
            |KernelHashUpdates(h, o, Some(s), gpa, size).value| == |KernelHashUpdates(h, o, Some(t), gpa, size).value|
  {
    hide HashPage, EntryU32, NormalUpdates, SevHashTable.Sized, SEV_HASH_TABLE_GUID;
    var tableGpa := EntryU32(o, SEV_HASH_TABLE_GUID);
    if tableGpa.Some? && tableGpa.value % PAGE_SIZE + PADDED_TABLE_SIZE <= HASH_PAGE_SIZE {
      HashPageSize(s, tableGpa.value % PAGE_SIZE);
      HashPageSize(t, tableGpa.value % PAGE_SIZE);
    }
  }

  /** With a kernel, the number of updates of a section depends on the section alone. */
  lemma SectionSize(h: HashFunction, o: Ovmf, s: SevHashes, t: SevHashes, vmm: VmmType, d: MetadataSection)
    requires SevHashTable.Sized(s) && SevHashTable.Sized(t)
    ensures SectionUpdates(h, o, Some(s), vmm, d).Some? <==> SectionUpdates(h, o, Some(t), vmm, d).Some?
    ensures SectionUpdates(h, o, Some(s), vmm, d).Some? ==>
            |SectionUpdates(h, o, Some(s), vmm, d).value| == |SectionUpdates(h, o, Some(t), vmm, d).value|
  {
    hide KernelHashUpdates, FillUpdates;
    KernelHashSize(h, o, s, t, d.gpa, d.size);
  }

  lemma {:induction false} SectionsSize(h: HashFunction, o: Ovmf, s: SevHashes, t: SevHashes, vmm: VmmType,
                                        ds: seq<MetadataSection>)
    requires SevHashTable.Sized(s) && SevHashTable.Sized(t)
    ensures SectionsUpdates(h, o, Some(s), vmm, ds).Some? <==> SectionsUpdates(h, o, Some(t), vmm, ds).Some?
    ensures SectionsUpdates(h, o, Some(s), vmm, ds).Some? ==>
            |SectionsUpdates(h, o, Some(s), vmm, ds).value| == |SectionsUpdates(h, o, Some(t), vmm, ds).value|
    decreases |ds|
  {
    hide SectionUpdates, SevHashTable.Sized;
    if ds != [] {
      SectionsSize(h, o, s, t, vmm, ds[..|ds| - 1]);
      SectionSize(h, o, s, t, vmm, ds[|ds| - 1]);
    }
  }

  lemma SameParts(a: seq<Update>, b: seq<Update>, a': seq<Update>, b': seq<Update>)
    requires |a| == |a'| && SameUpdates(a + b, a' + b')
    ensures SameUpdates(a, a') && SameUpdates(b, b')
  {
    hide SameUpdate;
    forall k | 0 <= k < |a| ensures SameUpdate(a[k], a'[k]) {
      assert SameUpdate((a + b)[k], (a' + b')[k]);
    }
    forall k | 0 <= k < |b| ensures SameUpdate(b[k], b'[k]) {
      assert SameUpdate((a + b)[|a| + k], (a' + b')[|a| + k]);
    }
  }

  /** The page of hashes measured for `s`, if the firmware has room for it. */
  function HashPages(o: Ovmf, s: SevHashes): set<Bytes> {
    match EntryU32(o, SEV_HASH_TABLE_GUID)
    case None => {}
    case Some(gpa) =>
      if gpa % PAGE_SIZE + PADDED_TABLE_SIZE > HASH_PAGE_SIZE then {} else {HashPage(s, gpa % PAGE_SIZE)}
  }

  /** A hash section's update fixes the hashes, up to a collision of the two hash pages. */
  lemma SectionBinds(h: HashFunction, o: Ovmf, s: SevHashes, t: SevHashes, vmm: VmmType, d: MetadataSection)
    returns (x: Bytes, y: Bytes)
    requires SevHashTable.Sized(s) && SevHashTable.Sized(t) && d.sectionType == SnpKernelHashes
    requires SectionUpdates(h, o, Some(s), vmm, d).Some? && SectionUpdates(h, o, Some(t), vmm, d).Some?
    requires SameUpdates(SectionUpdates(h, o, Some(s), vmm, d).value, SectionUpdates(h, o, Some(t), vmm, d).value)
    ensures s == t || Clash(h, HashPages(o, s), HashPages(o, t), x, y)
  {
    hide TableBytes, EntryU32, SEV_HASH_TABLE_GUID;
    var offset := EntryU32(o, SEV_HASH_TABLE_GUID).value % PAGE_SIZE;
    TableLength(s);
    TableLength(t);
    x, y := HashPage(s, offset), HashPage(t, offset);
    assert x[0..PAGE_SIZE] == x && y[0..PAGE_SIZE] == y;
    var us, vs := NormalUpdates(h, d.gpa, x), NormalUpdates(h, d.gpa, y);
    assert us[0].contents == h(x) && vs[0].contents == h(y);
    assert SameUpdate(us[0], vs[0]);
    if x == y { PageInjective(s, t, offset); }
  }

  lemma {:induction false} SectionsBind(h: HashFunction, o: Ovmf, s: SevHashes, t: SevHashes, vmm: VmmType,
                                        ds: seq<MetadataSection>, k: nat) returns (x: Bytes, y: Bytes)
    requires SevHashTable.Sized(s) && SevHashTable.Sized(t) && k < |ds| && ds[k].sectionType == SnpKernelHashes
    requires SectionsUpdates(h, o, Some(s), vmm, ds).Some? && SectionsUpdates(h, o, Some(t), vmm, ds).Some?
    requires SameUpdates(SectionsUpdates(h, o, Some(s), vmm, ds).value, SectionsUpdates(h, o, Some(t), vmm, ds).value)
    ensures s == t || Clash(h, HashPages(o, s), HashPages(o, t), x, y)
    decreases |ds|
  {
    hide SectionUpdates, SevHashTable.Sized, SameUpdates, HashPages;
    var n := |ds| - 1;
    SectionsSize(h, o, s, t, vmm, ds[..n]);
    SameParts(SectionsUpdates(h, o, Some(s), vmm, ds[..n]).value, SectionUpdates(h, o, Some(s), vmm, ds[n]).value,
              SectionsUpdates(h, o, Some(t), vmm, ds[..n]).value, SectionUpdates(h, o, Some(t), vmm, ds[n]).value);
    if k == n {
      x, y := SectionBinds(h, o, s, t, vmm, ds[n]);
    } else {
      x, y := SectionsBind(h, o, s, t, vmm, ds[..n], k);
    }
  }

  function Content(o: Option<Bytes>): Bytes {
    if o.Some? then o.value else []
  }

  /** Inputs within their machine types. */
  ghost predicate InRange(opts: Options) {
    opts.guestFeatures < 0x1_0000_0000_0000_0000 && opts.vcpuSig < 0x1_0000_0000
  }

  /** What a guest is launched with, as far as the digest shows. */
  ghost predicate SameGuest(a: Options, b: Options) {
    && a.kernel == b.kernel && Content(a.initrd) == Content(b.initrd) && Content(a.append) == Content(b.append)
    && a.vcpuSig == b.vcpuSig && a.guestFeatures == b.guestFeatures
  }

  /** The parts of a successful calculation. */
  lemma Parts(h256: HashFunction, h: HashFunction, firmware: Bytes, opts: Options)
    returns (o: Ovmf, start: Bytes, us: seq<Update>, vs: seq<Update>, eip: nat)
    requires Digests(h256, SHA256_SIZE) && Digests(h, SHA384_SIZE)
    requires opts.vmm == Qemu && opts.kernel.Some? && DigestOf(h256, h, firmware, opts).Some?
    ensures OvmfOf(firmware) == Some(o) && FirmwareDigest(h, o, opts.ovmfHash) == Some(start) && |start| == SHA384_SIZE
    ensures SectionsUpdates(h, o, HashesFor(h256, opts), Qemu, o.metadata) == Some(us)
    ensures HasSection(o, SnpKernelHashes) && EntryU32(o, SEV_ES_RESET_GUID) == Some(eip)
    ensures vs == VmsaUpdates(h, VmsaPagesOf(eip, opts.vcpuSig, opts.guestFeatures, Qemu, opts.vcpus))
    ensures WellFormed(us + vs) && DigestOf(h256, h, firmware, opts) == Some(Chain(h, start, us + vs))
    ensures RecordInputs(h256, h, o, opts) == Records(h, start, us + vs)
  {
    hide OvmfOf, Chain, NormalUpdates, EntryU32, VmsaPagesOf, SectionsUpdates, Seed, HashesOf, SEV_ES_RESET_GUID;
    o := OvmfOf(firmware).value;
    start := FirmwareDigest(h, o, opts.ovmfHash).value;
    if opts.ovmfHash.None? { ChainSize(h, Seed(None), NormalUpdates(h, o.gpa, o.data)); }
    us := SectionsUpdates(h, o, HashesFor(h256, opts), Qemu, o.metadata).value;
    eip := EntryU32(o, SEV_ES_RESET_GUID).value;
    vs := VmsaUpdates(h, VmsaPagesOf(eip, opts.vcpuSig, opts.guestFeatures, Qemu, opts.vcpus));
    SectionsWellFormed(h, o, HashesFor(h256, opts).value, Qemu, o.metadata);
    assert us + [] == us;
  }

  /** What a calculation puts through SHA-256. */
  function Inputs256(opts: Options): set<Bytes> {
    match opts.kernel
    case None => {}
    case Some(k) => HashInputs(k, Content(opts.initrd), opts.append)
  }

  /** What a calculation puts through SHA-384 once the firmware is measured: the hash page, the
      save areas, and every PAGE_INFO record. */
  ghost function Inputs384(h256: HashFunction, h: HashFunction, firmware: Bytes, opts: Options): set<Bytes> {
    match OvmfOf(firmware)
    case None => {}
    case Some(o) => PageInputs(h256, o, opts) + RecordInputs(h256, h, o, opts)
  }

  ghost function PageInputs(h256: HashFunction, o: Ovmf, opts: Options): set<Bytes> {
    (match HashesFor(h256, opts) case None => {} case Some(s) => HashPages(o, s))
    + match EntryU32(o, SEV_ES_RESET_GUID)
      case None => {}
      case Some(eip) => Elements(VmsaPagesOf(eip, opts.vcpuSig, opts.guestFeatures, opts.vmm, opts.vcpus))
  }

  ghost function RecordInputs(h256: HashFunction, h: HashFunction, o: Ovmf, opts: Options): set<Bytes> {
    match FirmwareDigest(h, o, opts.ovmfHash)
    case None => {}
    case Some(start) =>
      match LaterUpdates(h256, h, o, opts)
      case None => {}
      case Some(us) => Records(h, start, us)
  }

  /** Equal digests over one firmware and one number of vCPUs: the same guest, or two inputs,
      one hashed by each calculation, that collide. */
  lemma DigestCommits(h256: HashFunction, h: HashFunction, firmware: Bytes, a: Options, b: Options)
    returns (x: Bytes, y: Bytes)
    requires Digests(h256, SHA256_SIZE) && Digests(h, SHA384_SIZE) && InRange(a) && InRange(b)
    requires a.vmm == Qemu == b.vmm && a.vcpus == b.vcpus && a.vcpus >= 1 && a.kernel.Some? && b.kernel.Some?
    requires DigestOf(h256, h, firmware, a).Some? && DigestOf(h256, h, firmware, a) == DigestOf(h256, h, firmware, b)
    ensures SameGuest(a, b) || Clash(h256, Inputs256(a), Inputs256(b), x, y)
            || Clash(h, Inputs384(h256, h, firmware, a), Inputs384(h256, h, firmware, b), x, y)
  {
    hide Digests, DigestOf, OvmfOf, FirmwareDigest, SectionsUpdates, EntryU32, VmsaUpdates, Chain, HashesFor, Collision;
    hide SameUpdates, WellFormed, SaveAreaPage, Content, SEV_ES_RESET_GUID, HasSection, SameGuest, SevHashTable.Sized;
    hide PageInputs, RecordInputs, Inputs256, Records;
    var o, start, us, vs, eip := Parts(h256, h, firmware, a);
    var o', start', us', vs', eip' := Parts(h256, h, firmware, b);
    assert o' == o && eip' == eip;
    var s, t := HashesPart(h256, a, b);
    SectionsSize(h, o, s, t, Qemu, o.metadata);
    x, y := ChainBinding(h, start, us + vs, start', us' + vs');
    if !Clash(h, Records(h, start, us + vs), Records(h, start', us' + vs'), x, y) {
      SameParts(us, vs, us', vs');
      x, y := GuestBinds(h256, h, o, a, b, s, t, eip);
    }
  }

  lemma HashesPart(h256: HashFunction, a: Options, b: Options) returns (s: SevHashes, t: SevHashes)
    requires Digests(h256, SHA256_SIZE) && a.kernel.Some? && b.kernel.Some?
    ensures HashesFor(h256, a) == Some(s) && HashesFor(h256, b) == Some(t) && SevHashTable.Sized(s)
    ensures SevHashTable.Sized(t)
    ensures s == HashesOf(h256, a.kernel.value, Content(a.initrd), a.append)
    ensures t == HashesOf(h256, b.kernel.value, Content(b.initrd), b.append)
  {
    HashesSized(h256, a);
    HashesSized(h256, b);
    s, t := HashesFor(h256, a).value, HashesFor(h256, b).value;
  }

  lemma GuestBinds(h256: HashFunction, h: HashFunction, o: Ovmf, a: Options, b: Options, s: SevHashes, t: SevHashes,
                   eip: nat) returns (x: Bytes, y: Bytes)
    requires InRange(a) && InRange(b) && a.vcpus == b.vcpus && a.vcpus >= 1 && a.kernel.Some? && b.kernel.Some?
    requires a.vmm == Qemu == b.vmm && EntryU32(o, SEV_ES_RESET_GUID) == Some(eip)
    requires SevHashTable.Sized(s) && SevHashTable.Sized(t) && HasSection(o, SnpKernelHashes)
    requires HashesFor(h256, a) == Some(s) && HashesFor(h256, b) == Some(t)
    requires s == HashesOf(h256, a.kernel.value, Content(a.initrd), a.append)
    requires t == HashesOf(h256, b.kernel.value, Content(b.initrd), b.append)
    requires SectionsUpdates(h, o, Some(s), Qemu, o.metadata).Some?
    requires SectionsUpdates(h, o, Some(t), Qemu, o.metadata).Some?
    requires SameUpdates(SectionsUpdates(h, o, Some(s), Qemu, o.metadata).value,
                         SectionsUpdates(h, o, Some(t), Qemu, o.metadata).value)
    requires SameUpdates(VmsaUpdates(h, VmsaPagesOf(eip, a.vcpuSig, a.guestFeatures, Qemu, a.vcpus)),
                         VmsaUpdates(h, VmsaPagesOf(eip, b.vcpuSig, b.guestFeatures, Qemu, b.vcpus)))
    ensures SameGuest(a, b) || Clash(h256, Inputs256(a), Inputs256(b), x, y)
            || Clash(h, PageInputs(h256, o, a), PageInputs(h256, o, b), x, y)
  {
    hide SectionsUpdates, SevHashTable.Sized, SaveAreaPage, Content, HashesOf, CmdlineBytes, HashPages;
    hide HashesFor, EntryU32;
    hide HashInputs, VmsaUpdates, VmsaPagesOf, SameUpdates, SEV_ES_RESET_GUID, Collision;
    var k: nat :| k < |o.metadata| && o.metadata[k].sectionType == SnpKernelHashes;
    var pa := VmsaPagesOf(eip, a.vcpuSig, a.guestFeatures, Qemu, a.vcpus);
    var pb := VmsaPagesOf(eip, b.vcpuSig, b.guestFeatures, Qemu, b.vcpus);
    x, y := FirstPageBinds(h, eip, a, b);
    if !Clash(h, Elements(pa), Elements(pb), x, y) {
      x, y := SectionsBind(h, o, s, t, Qemu, o.metadata, k);
      if !Clash(h, HashPages(o, s), HashPages(o, t), x, y) {
        x, y := HashesBind(h256, a.kernel.value, Content(a.initrd), a.append,
                           b.kernel.value, Content(b.initrd), b.append);
        CmdlineInjective(a.append, b.append);
        assert Content(a.append) == (if a.append.Some? then a.append.value else []) by { ContentIs(a.append); }
        assert Content(b.append) == (if b.append.Some? then b.append.value else []) by { ContentIs(b.append); }
      }
    }
  }

  lemma ContentIs(o: Option<Bytes>)
    ensures Content(o) == if o.Some? then o.value else []
  {
  }

  /** The first vCPU's page fixes signature and features, up to a collision of save areas. */
  lemma FirstPageBinds(h: HashFunction, eip: nat, a: Options, b: Options) returns (x: Bytes, y: Bytes)
    requires InRange(a) && InRange(b) && a.vcpus == b.vcpus && a.vcpus >= 1
    requires SameUpdates(VmsaUpdates(h, VmsaPagesOf(eip, a.vcpuSig, a.guestFeatures, Qemu, a.vcpus)),
                         VmsaUpdates(h, VmsaPagesOf(eip, b.vcpuSig, b.guestFeatures, Qemu, b.vcpus)))
    ensures (a.vcpuSig == b.vcpuSig && a.guestFeatures == b.guestFeatures)
            || Clash(h, Elements(VmsaPagesOf(eip, a.vcpuSig, a.guestFeatures, Qemu, a.vcpus)),
                     Elements(VmsaPagesOf(eip, b.vcpuSig, b.guestFeatures, Qemu, b.vcpus)), x, y)
  {
    hide SaveAreaPage;
    x := SaveAreaPage(EipOf(eip, 0), a.guestFeatures, a.vcpuSig, Qemu);
    y := SaveAreaPage(EipOf(eip, 0), b.guestFeatures, b.vcpuSig, Qemu);
    var pa := VmsaPagesOf(eip, a.vcpuSig, a.guestFeatures, Qemu, a.vcpus);
    var pb := VmsaPagesOf(eip, b.vcpuSig, b.guestFeatures, Qemu, b.vcpus);
    assert pa[0] == x && pb[0] == y;
    var us, vs := VmsaUpdates(h, pa), VmsaUpdates(h, pb);
    assert us[0].contents == h(x) && vs[0].contents == h(y);
    assert SameUpdate(us[0], vs[0]);
    if x == y {
      PageBinds(EipOf(eip, 0), a.guestFeatures, a.vcpuSig, b.guestFeatures, b.vcpuSig);
    }
  }

  /** Starting from the precomputed firmware digest is the same as measuring the firmware. */
  lemma SeededMeasurement(h256: HashFunction, h: HashFunction, firmware: Bytes, o: Ovmf, hash: Bytes, opts: Options)
    requires Digests(h, SHA384_SIZE) && OvmfOf(firmware) == Some(o) && FirmwareDigest(h, o, None) == Some(hash)
    requires opts.ovmfHash.None?
    ensures DigestOf(h256, h, firmware, opts.(ovmfHash := Some(hash))) == DigestOf(h256, h, firmware, opts)
  {
    hide OvmfOf, Chain, NormalUpdates, MetadataUpdates, EntryU32, VmsaPagesOf, VmsaUpdates, HashesFor;
    ChainSize(h, Seed(None), NormalUpdates(h, o.gpa, o.data));
    assert hash[..SHA384_SIZE] + Zeros(0) == hash;
    SameLater(h256, h, o, opts, hash);
  }

  lemma SameLater(h256: HashFunction, h: HashFunction, o: Ovmf, opts: Options, hash: Bytes)
    ensures LaterUpdates(h256, h, o, opts.(ovmfHash := Some(hash))) == LaterUpdates(h256, h, o, opts)
  {
    hide MetadataUpdates, EntryU32, VmsaPagesOf, VmsaUpdates;
  }
}
