/** The launch digest in the numbers of its records: a calculation succeeds with a digest if and
    only if there is a launch with this digest. */
module LaunchExact {
  import opened Bytes
  import opened Hashing
  import opened GuestContext
  import opened SevHashTable
  import opened SaveAreas
  import opened Firmware
  import opened LaunchLog
  import opened LaunchDigest

  // ----- the table of hashes -----

  lemma GuidsSpelled()
    ensures HEADER_GUID ==
            [0x06, 0xD6, 0x38, 0x94, 0x22, 0x4F, 0xC9, 0x4C, 0xB4, 0x79, 0xA7, 0x93, 0xD4, 0x11, 0xFD, 0x21]
    ensures CMDLINE_GUID ==
            [0xD8, 0x2D, 0xD0, 0x97, 0x20, 0xBD, 0x94, 0x4C, 0xAA, 0x78, 0xE7, 0x71, 0x4D, 0x36, 0xAB, 0x2A]
    ensures INITRD_GUID ==
            [0x31, 0xF7, 0xBA, 0x44, 0x2F, 0x3A, 0xD7, 0x4B, 0x9A, 0xF1, 0x41, 0xE2, 0x91, 0x69, 0x78, 0x1D]
    ensures KERNEL_GUID ==
            [0x37, 0x94, 0xE7, 0x4D, 0xD2, 0xAB, 0x7F, 0x42, 0xB8, 0x35, 0xD5, 0xB1, 0x72, 0xD2, 0x04, 0x5B]
  {
  }

  lemma EntryParts(t: Bytes, n: nat, guid: Bytes, digest: Bytes)
    requires |guid| == 16
    ensures At(t, n, EntryBytes(guid, digest)) <==>
            At(t, n, guid) && At(t, n + 16, LE16(50)) && At(t, n + 18, digest)
  {
    hide LE16, At;
    AtParts(t, n, guid + LE16(50), digest);
    AtParts(t, n, guid, LE16(50));
  }

  lemma TableParts(t: Bytes, s: SevHashes)
    requires SevHashTable.Sized(s)
    ensures At(t, 0, TableBytes(s)) <==>
            && At(t, 0, HEADER_GUID) && At(t, 16, LE16(168)) && At(t, 18, EntryBytes(CMDLINE_GUID, s.cmdline))
            && At(t, 68, EntryBytes(INITRD_GUID, s.initrd)) && At(t, 118, EntryBytes(KERNEL_GUID, s.kernel))
            && At(t, 168, Zeros(8))
  {
    hide LE16, At, EntryBytes, HEADER_GUID, CMDLINE_GUID, INITRD_GUID, KERNEL_GUID;
    GuidSizes();
    var c, i := EntryBytes(CMDLINE_GUID, s.cmdline), EntryBytes(INITRD_GUID, s.initrd);
    var k := EntryBytes(KERNEL_GUID, s.kernel);
    EntrySize(CMDLINE_GUID, s.cmdline);
    EntrySize(INITRD_GUID, s.initrd);
    EntrySize(KERNEL_GUID, s.kernel);
    var head := HEADER_GUID + LE16(168);
    AtParts(t, 0, head + c + i + k, Zeros(8));
    AtParts(t, 0, head + c + i, k);
    AtParts(t, 0, head + c, i);
    AtParts(t, 0, head, c);
    AtParts(t, 0, HEADER_GUID, LE16(168));
  }

  /** The table is exactly what is written. */
  lemma HashTableExactly(t: Bytes, s: SevHashes)
    requires SevHashTable.Sized(s)
    ensures IsHashTable(t, s) <==> t == TableBytes(s)
  {
    TableLength(s);
    AtWhole(t, TableBytes(s));
    hide LE16, At, TableBytes, EntryBytes, HEADER_GUID, CMDLINE_GUID, INITRD_GUID, KERNEL_GUID;
    GuidsSpelled();
    GuidSizes();
    TableParts(t, s);
    EntryParts(t, 18, CMDLINE_GUID, s.cmdline);
    EntryParts(t, 68, INITRD_GUID, s.initrd);
    EntryParts(t, 118, KERNEL_GUID, s.kernel);
    assert Zeros(8) == [0, 0, 0, 0, 0, 0, 0, 0];
  }

  lemma AtWhole(t: Bytes, e: Bytes)
    ensures t == e <==> |t| == |e| && At(t, 0, e)
  {
  }

  lemma HashPageExactly(page: Bytes, s: SevHashes, offset: nat)
    requires SevHashTable.Sized(s) && offset + 176 <= 4096
    ensures IsHashPage(page, s, offset) <==> page == HashPage(s, offset)
  {
    hide IsHashTable, TableBytes;
    TableLength(s);
    var made := HashPage(s, offset);
    assert made[offset..offset + 176] == TableBytes(s);
    if |page| == 4096 { HashTableExactly(page[offset..offset + 176], s); }
    if IsHashPage(page, s, offset) {
      assert page == page[..offset] + page[offset..offset + 176] + page[offset + 176..];
      assert page[..offset] == Zeros(offset) && page[offset + 176..] == Zeros(4096 - offset - 176);
    }
  }

  // ----- sections -----

  lemma FillExactly(pageType: byte, gpa: nat, size: nat, us: seq<Update>)
    ensures Filled(pageType, gpa, size) == Some(us) <==> IsFill(us, pageType, gpa, size)
  {
    var vs := FillUpdates(pageType, gpa, size);
    if Filled(pageType, gpa, size) == Some(us) {
      forall i | 0 <= i < |us| ensures IsBlank(us[i], pageType, gpa + 4096 * i) {
        assert us[i] == Update(pageType, gpa + i * 4096, Zeros(48));
      }
    }
    if IsFill(us, pageType, gpa, size) {
      forall i | 0 <= i < |us| ensures us[i] == vs[i] {
        assert IsBlank(us[i], pageType, gpa + 4096 * i);
        assert us[i].contents == Zeros(48);
      }
      assert us == vs;
    }
  }

  lemma SpecialExactly(pageType: byte, gpa: nat, us: seq<Update>)
    ensures us == [Update(pageType, gpa, Zeros(SHA384_SIZE))] <==> IsSpecial(us, pageType, gpa)
  {
    if IsSpecial(us, pageType, gpa) { assert us[0].contents == Zeros(48); }
  }

  lemma OnePage(h: HashFunction, gpa: nat, page: Bytes)
    requires |page| == 4096
    ensures NormalUpdates(h, gpa, page) == [Update(1, gpa, h(page))]
  {
    assert page[0..4096] == page;
  }

  lemma KernelHashesExactly(h: HashFunction, o: Ovmf, hashes: Option<SevHashes>, gpa: nat, size: nat, us: seq<Update>)
    requires hashes.Some? ==> SevHashTable.Sized(hashes.value)
    ensures KernelHashUpdates(h, o, hashes, gpa, size) == Some(us) <==>
            IsKernelHashes(h, o.table, hashes, gpa, size, us)
  {
    hide IsFill, Filled, HashPage, IsHashPage, SEV_HASH_TABLE_GUID, NormalUpdates, SevHashTable.Sized, U32At;
    match hashes
    case None => FillExactly(3, gpa, size, us);
    case Some(s) =>
      var tableGpa := EntryU32(o, SEV_HASH_TABLE_GUID);
      if tableGpa.Some? { HashUpdatesExactly(h, s, tableGpa.value % 4096, gpa, size, us); }
  }

  lemma HashUpdatesExactly(h: HashFunction, s: SevHashes, offset: nat, gpa: nat, size: nat, us: seq<Update>)
    requires SevHashTable.Sized(s)
    ensures (offset + 176 <= 4096 && size == 4096 && us == NormalUpdates(h, gpa, HashPage(s, offset)))
            <==> (&& size == 4096 && |us| == 1
                  && exists page :: IsHashPage(page, s, offset) && IsUpdate(us[0], 1, gpa, h(page)))
  {
    if offset + 176 <= 4096 {
      hide IsHashPage, HashPage, NormalUpdates;
      var made := HashPage(s, offset);
      HashPageSize(s, offset);
      OnePage(h, gpa, made);
      HashPageExactly(made, s, offset);
      forall page | IsHashPage(page, s, offset) ensures page == made {
        HashPageExactly(page, s, offset);
      }
    }
  }

  /** What a section adds is exactly what the records' numbers say. */
  lemma SectionExactly(h: HashFunction, o: Ovmf, hashes: Option<SevHashes>, vmm: VmmType, d: MetadataSection,
                       us: seq<Update>)
    requires hashes.Some? ==> SevHashTable.Sized(hashes.value)
    ensures SectionUpdates(h, o, hashes, vmm, d) == Some(us) <==> IsSection(h, o.table, hashes, vmm, d, us)
  {
    hide KernelHashUpdates, IsKernelHashes, SevHashTable.Sized, Filled, IsFill, IsSpecial, Zeros;
    match d.sectionType
    case SnpSecMem => FillExactly(if vmm == Gce then 4 else 3, d.gpa, d.size, us);
    case SnpSecrets => SpecialExactly(5, d.gpa, us);
    case Cpuid => SpecialExactly(6, d.gpa, us);
    case SvsmCaa => FillExactly(3, d.gpa, d.size, us);
    case SnpKernelHashes => KernelHashesExactly(h, o, hashes, d.gpa, d.size, us);
  }

  lemma {:induction false} SectionsExactly(h: HashFunction, o: Ovmf, hashes: Option<SevHashes>, vmm: VmmType,
                                           ds: seq<MetadataSection>, parts: seq<seq<Update>>)
    requires hashes.Some? ==> SevHashTable.Sized(hashes.value)
    requires AreParts(h, o.table, hashes, vmm, ds, parts)
    ensures SectionsUpdates(h, o, hashes, vmm, ds) == Some(Joined(parts))
    decreases |ds|
  {
    hide SectionUpdates, IsSection, SevHashTable.Sized;
    if ds != [] {
      var n := |ds| - 1;
      SectionsExactly(h, o, hashes, vmm, ds[..n], parts[..n]);
      SectionExactly(h, o, hashes, vmm, ds[n], parts[n]);
    }
  }

  lemma {:induction false} PartsExist(h: HashFunction, o: Ovmf, hashes: Option<SevHashes>, vmm: VmmType,
                                      ds: seq<MetadataSection>) returns (parts: seq<seq<Update>>)
    requires hashes.Some? ==> SevHashTable.Sized(hashes.value)
    requires SectionsUpdates(h, o, hashes, vmm, ds).Some?
    ensures AreParts(h, o.table, hashes, vmm, ds, parts)
    decreases |ds|
  {
    hide SectionUpdates, IsSection, SevHashTable.Sized;
    parts := [];
    if ds != [] {
      var n := |ds| - 1;
      var first := PartsExist(h, o, hashes, vmm, ds[..n]);
      var last := SectionUpdates(h, o, hashes, vmm, ds[n]).value;
      SectionExactly(h, o, hashes, vmm, ds[n], last);
      parts := first + [last];
    }
  }

  /** What comes after all sections. */
  function LatePart(vmm: VmmType, ds: seq<MetadataSection>): seq<Update> {
    if vmm == Ec2 then LateCpuid(ds) else []
  }

  lemma {:induction false} LateExactly(vmm: VmmType, ds: seq<MetadataSection>, late: seq<seq<Update>>)
    requires AreLate(vmm, ds, late)
    ensures Joined(late) == LatePart(vmm, ds)
    decreases |ds|
  {
    hide IsSpecial;
    if ds != [] {
      var n := |ds| - 1;
      LateExactly(vmm, ds[..n], late[..n]);
      assert IsLate(vmm, ds[n], late[n]);
      SpecialExactly(6, ds[n].gpa, late[n]);
    }
  }

  lemma LateExist(vmm: VmmType, ds: seq<MetadataSection>) returns (late: seq<seq<Update>>)
    ensures AreLate(vmm, ds, late)
  {
    late := seq(|ds|, k requires 0 <= k < |ds| =>
      if vmm == Ec2 && ds[k].sectionType == Cpuid then [Update(PAGE_TYPE_CPUID, ds[k].gpa, Zeros(SHA384_SIZE))]
      else []);
  }

  // ----- tables, firmware, save areas -----

  lemma TablesExactly(firmware: Bytes, o: Ovmf)
    ensures OvmfOf(firmware) == Some(o) <==>
            && IsTables(firmware, o.table, o.metadata) && o.data == firmware && o.gpa == 0x1_0000_0000 - |firmware|
  {
    hide ParseFooterTable, ParseSevMetadata, SectionsLaidOut, SEV_METADATA_GUID;
    SevSectionsExactly(firmware, o.table, o.metadata);
  }

  lemma HashesExactly(h256: HashFunction, opts: Options, hashes: Option<SevHashes>)
    ensures IsHashes(h256, opts, hashes) <==> hashes == HashesFor(h256, opts)
  {
    if opts.kernel.Some? {
      assert CmdlineBytes(opts.append) == (if opts.append.Some? then opts.append.value else []) + [0];
    }
  }

  lemma FirmwareExactly(h: HashFunction, firmware: Bytes, us: seq<Update>)
    requires |firmware| <= 0x1_0000_0000
    ensures IsFirmware(h, firmware, us) <==>
            |firmware| % 4096 == 0 && us == NormalUpdates(h, 0x1_0000_0000 - |firmware|, firmware)
  {
    var gpa := 0x1_0000_0000 - |firmware|;
    var vs := NormalUpdates(h, gpa, firmware);
    forall i | 0 <= i < |vs|
      ensures 4096 * (i + 1) <= |firmware|
      ensures vs[i] == Update(1, gpa + 4096 * i, h(firmware[4096 * i..4096 * (i + 1)]))
    {
    }
    if IsFirmware(h, firmware, us) {
      forall i | 0 <= i < |us| ensures us[i] == vs[i] {
        assert IsUpdate(us[i], 1, gpa + 4096 * i, h(firmware[4096 * i..4096 * (i + 1)]));
      }
    }
  }

  lemma SavesExactly(h: HashFunction, opts: Options, eip: nat, pages: seq<Bytes>, saves: seq<Update>)
    ensures AreSaves(h, opts, eip, pages, saves) <==>
            && pages == VmsaPagesOf(eip, opts.vcpuSig, opts.guestFeatures, opts.vmm, opts.vcpus)
            && saves == VmsaUpdates(h, pages)
  {
    hide IsSaveArea, SaveAreaPage;
    var made := VmsaPagesOf(eip, opts.vcpuSig, opts.guestFeatures, opts.vmm, opts.vcpus);
    if |pages| == opts.vcpus {
      forall i | 0 <= i < opts.vcpus
        ensures pages[i] == made[i] <==> IsSaveArea(pages[i], if i == 0 || eip == 0 then 0xFFFF_FFF0 else eip,
                                                    opts.guestFeatures, opts.vcpuSig, opts.vmm)
      {
        SaveAreaExactly(pages[i], EipOf(eip, i), opts.guestFeatures, opts.vcpuSig, opts.vmm);
      }
    }
    var us := VmsaUpdates(h, pages);
    if AreSaves(h, opts, eip, pages, saves) {
      assert forall i :: 0 <= i < |saves| ==> saves[i] == us[i];
    }
  }

  // ----- the chain -----

  lemma StartExactly(ovmfHash: Option<Bytes>, start: Bytes)
    ensures IsStart(ovmfHash, start) <==> start == Seed(ovmfHash)
  {
    if IsStart(ovmfHash, start) { assert start == Seed(ovmfHash); }
  }

  lemma RecordExactly(r: Bytes, ld: Bytes, u: Update)
    requires |ld| == 48 == |u.contents|
    ensures IsRecord(r, ld, u) <==> r == PageInfo(ld, u)
  {
    hide LE16, LE64, U16At, U64At;
    var made := PageInfo(ld, u);
    assert made[..48] == ld && made[48..96] == u.contents && made[96..98] == LE16(112) && made[98] == u.pageType;
    assert made[99..104] == [0, 0, 0, 0, 0] && made[104..112] == LE64(u.gpa);
    U16OfLE16(made, 96, 112);
    U64OfLE64(made, 104, u.gpa);
    if IsRecord(r, ld, u) {
      At16(r, 96);
      At64(r, 104);
      SameLE64(U64At(r, 104), u.gpa);
      assert r == r[..48] + (r[48..96] + (r[96..98] + ([r[98]] + r[99..104] + r[104..112])));
    }
  }

  lemma SameLE64(a: nat, b: nat)
    requires a == b % 0x1_0000_0000_0000_0000
    ensures LE64(a) == LE64(b)
  {
    LowBits64(a, b / 0x1_0000_0000_0000_0000);
  }

  lemma LowBits64(a: nat, b: nat)
    ensures LE64(a + 0x1_0000_0000_0000_0000 * b) == LE64(a)
  {
    hide LE32;
    LowBits32(a, 0x1_0000_0000 * b);
    LowBits32(a / 0x1_0000_0000, b);
    var c := a + 0x1_0000_0000 * (0x1_0000_0000 * b);
    assert c / 0x1_0000_0000 == a / 0x1_0000_0000 + 0x1_0000_0000 * b;
    assert c == a + 0x1_0000_0000_0000_0000 * b;
  }

  lemma {:induction false} RecordsExactly(h: HashFunction, us: seq<Update>, records: seq<Bytes>, digests: seq<Bytes>)
    requires AreRecords(h, us, records, digests)
    ensures digests[|us|] == Chain(h, digests[0], us)
    decreases |us|
  {
    hide IsRecord, PageInfo;
    if us != [] {
      var n := |us| - 1;
      RecordsExactly(h, us[..n], records[..n], digests[..n + 1]);
      assert IsRecord(records[n], digests[n], us[n]);
      RecordSizes(records[n], digests[n], us[n]);
      RecordExactly(records[n], digests[n], us[n]);
    }
  }

  lemma RecordSizes(r: Bytes, ld: Bytes, u: Update)
    requires IsRecord(r, ld, u)
    ensures |ld| == 48 == |u.contents|
  {
  }

  lemma ChainStart(h: HashFunction, start: Bytes, us: seq<Update>)
    ensures Chain(h, start, us[..0]) == start
  {
  }

  lemma RecordsExist(h: HashFunction, start: Bytes, us: seq<Update>) returns (records: seq<Bytes>, digests: seq<Bytes>)
    requires Digests(h, SHA384_SIZE) && |start| == 48 && WellFormed(us)
    ensures AreRecords(h, us, records, digests) && |digests| == |us| + 1 && digests[0] == start
  {
    hide IsRecord, PageInfo, Chain;
    ChainStart(h, start, us);
    digests := seq(|us| + 1, k requires 0 <= k <= |us| => Chain(h, start, us[..k]));
    records := seq(|us|, k requires 0 <= k < |us| => PageInfo(Chain(h, start, us[..k]), us[k]));
    forall k | 0 <= k < |us| ensures IsRecord(records[k], digests[k], us[k]) && digests[k + 1] == h(records[k]) {
      ChainSize(h, start, us[..k]);
      RecordExactly(records[k], digests[k], us[k]);
      assert us[..k + 1] == us[..k] + [us[k]];
      ChainPush(h, start, us[..k], us[k]);
    }
  }

  // ----- the whole calculation -----

  lemma {:induction false} JoinedWellFormed(parts: seq<seq<Update>>)
    requires forall k :: 0 <= k < |parts| ==> WellFormed(parts[k])
    ensures WellFormed(Joined(parts))
    decreases |parts|
  {
    if parts != [] {
      hide WellFormed;
      JoinedWellFormed(parts[..|parts| - 1]);
      BothWellFormed(Joined(parts[..|parts| - 1]), parts[|parts| - 1]);
    }
  }

  lemma BothWellFormed(a: seq<Update>, b: seq<Update>)
    requires WellFormed(a) && WellFormed(b)
    ensures WellFormed(a + b)
  {
  }

  lemma PartWellFormed(h: HashFunction, table: map<Bytes, Bytes>, hashes: Option<SevHashes>, vmm: VmmType,
                       d: MetadataSection, us: seq<Update>)
    requires Digests(h, SHA384_SIZE) && IsSection(h, table, hashes, vmm, d, us)
    ensures WellFormed(us)
  {
    hide IsHashPage, U32At, SEV_HASH_TABLE_GUID;
  }

  lemma LogWellFormed(h256: HashFunction, h: HashFunction, firmware: Bytes, opts: Options, l: Launch)
    requires Digests(h, SHA384_SIZE) && Measured(h256, h, firmware, opts, l)
    ensures WellFormed(LogOf(l))
  {
    hide IsTables, IsHashes, IsSection, IsLate, IsSaveArea, U32At, SEV_ES_RESET_GUID;
    forall k | 0 <= k < |l.parts| ensures WellFormed(l.parts[k]) {
      PartWellFormed(h, l.table, l.hashes, opts.vmm, l.sections[k], l.parts[k]);
    }
    forall k | 0 <= k < |l.late| ensures WellFormed(l.late[k]) {
      LateWellFormed(opts.vmm, l.sections[k], l.late[k]);
    }
    JoinedWellFormed(l.parts);
    JoinedWellFormed(l.late);
    assert WellFormed(l.saves) && WellFormed(l.firmware);
    hide WellFormed;
    BothWellFormed(Joined(l.parts), Joined(l.late));
    BothWellFormed(Joined(l.parts) + Joined(l.late), l.saves);
    BothWellFormed(l.firmware, Joined(l.parts) + Joined(l.late) + l.saves);
  }

  lemma LateWellFormed(vmm: VmmType, d: MetadataSection, us: seq<Update>)
    requires IsLate(vmm, d, us)
    ensures WellFormed(us)
  {
  }

  /** The log of a launch is what the calculation measures. */
  lemma MeasuredUpdates(h256: HashFunction, h: HashFunction, firmware: Bytes, opts: Options, o: Ovmf, l: Launch)
    requires Digests(h256, SHA256_SIZE) && Measured(h256, h, firmware, opts, l)
    requires OvmfOf(firmware) == Some(o) && o.table == l.table && o.metadata == l.sections
    ensures LaterUpdates(h256, h, o, opts) == Some(Joined(l.parts) + Joined(l.late) + l.saves)
  {
    hide OvmfOf, IsTables, AreParts, AreLate, IsHashes, AreSaves, IsFirmware, HashesFor, SectionsUpdates, VmsaUpdates;
    hide VmsaPagesOf, U32At, SEV_ES_RESET_GUID, SevHashTable.Sized, MetadataUpdates, Digests, LateCpuid, Joined;
    HashesExactly(h256, opts, l.hashes);
    MeasuredSections(h256, h, firmware, opts, o, l);
    SavesExactly(h, opts, U32At(l.table[SEV_ES_RESET_GUID], 0), l.pages, l.saves);
  }

  lemma MeasuredSections(h256: HashFunction, h: HashFunction, firmware: Bytes, opts: Options, o: Ovmf, l: Launch)
    requires Digests(h256, SHA256_SIZE) && Measured(h256, h, firmware, opts, l)
    requires o.table == l.table && o.metadata == l.sections
    ensures MetadataUpdates(h, o, l.hashes, opts.vmm) == Some(Joined(l.parts) + Joined(l.late))
  {
    hide IsTables, AreParts, AreLate, IsHashes, AreSaves, IsFirmware, HashesFor, SectionsUpdates, U32At;
    hide SevHashTable.Sized, SEV_ES_RESET_GUID, Digests, LateCpuid, Joined;
    HashesExactly(h256, opts, l.hashes);
    HashesSized(h256, opts);
    SectionsExactly(h, o, l.hashes, opts.vmm, l.sections, l.parts);
    LateExactly(opts.vmm, l.sections, l.late);
  }

  lemma MeasuredFirmware(h256: HashFunction, h: HashFunction, firmware: Bytes, opts: Options, o: Ovmf, l: Launch)
    requires Measured(h256, h, firmware, opts, l) && OvmfOf(firmware) == Some(o)
    ensures FirmwareDigest(h, o, opts.ovmfHash) == Some(Chain(h, Seed(opts.ovmfHash), l.firmware))
  {
    hide AreParts, AreLate, IsHashes, AreSaves, IsFirmware, U32At, SEV_ES_RESET_GUID, NormalUpdates, Seed;
    hide OvmfOf, ParseFooterTable, SectionsLaidOut;
    TablesExactly(firmware, o);
    if opts.ovmfHash.None? { FirmwareExactly(h, firmware, l.firmware); }
  }

  lemma LaunchTables(h256: HashFunction, h: HashFunction, firmware: Bytes, opts: Options, l: Launch)
    requires Launches(h256, h, firmware, opts, l)
    ensures IsTables(firmware, l.table, l.sections) && |firmware| <= 0x1_0000_0000 && |l.digests| == |LogOf(l)| + 1
  {
    hide ParseFooterTable, SectionsLaidOut, IsRecord;
  }

  lemma FirmwareBound(firmware: Bytes)
    requires OvmfOf(firmware).Some?
    ensures |firmware| <= 0x1_0000_0000
  {
    hide ParseFooterTable, ParseSevMetadata;
  }

  /** A launch gives its last digest. */
  lemma LaunchGives(h256: HashFunction, h: HashFunction, firmware: Bytes, opts: Options, l: Launch)
    requires Digests(h256, SHA256_SIZE) && Launches(h256, h, firmware, opts, l)
    ensures DigestOf(h256, h, firmware, opts) == Some(FinalDigest(l))
  {
    hide OvmfOf, Measured, AreRecords, IsStart, LaterUpdates, FirmwareDigest, Chain, Seed, IsTables;
    LaunchTables(h256, h, firmware, opts, l);
    var o := Ovmf(firmware, l.table, l.sections, 0x1_0000_0000 - |firmware|);
    TablesExactly(firmware, o);
    MeasuredUpdates(h256, h, firmware, opts, o, l);
    MeasuredFirmware(h256, h, firmware, opts, o, l);
    var us := Joined(l.parts) + Joined(l.late) + l.saves;
    ChainAppend(h, Seed(opts.ovmfHash), l.firmware, us);
    StartExactly(opts.ovmfHash, l.digests[0]);
    RecordsExactly(h, LogOf(l), l.records, l.digests);
  }

  /** Every digest is that of a launch. */
  lemma LaunchExists(h256: HashFunction, h: HashFunction, firmware: Bytes, opts: Options) returns (l: Launch)
    requires Digests(h256, SHA256_SIZE) && Digests(h, SHA384_SIZE) && DigestOf(h256, h, firmware, opts).Some?
    ensures Launches(h256, h, firmware, opts, l)
  {
    hide OvmfOf, IsTables, AreParts, AreLate, IsHashes, AreSaves, IsFirmware, HashesFor, SectionsUpdates, VmsaUpdates;
    hide VmsaPagesOf, U32At, SEV_ES_RESET_GUID, NormalUpdates, SevHashTable.Sized, Chain, Seed, IsStart, AreRecords;
    hide Digests, LogOf;
    FirmwareBound(firmware);
    var o := OvmfOf(firmware).value;
    TablesExactly(firmware, o);
    var hashes := HashesFor(h256, opts);
    HashesExactly(h256, opts, hashes);
    HashesSized(h256, opts);
    var parts := PartsExist(h, o, hashes, opts.vmm, o.metadata);
    var late := LateExist(opts.vmm, o.metadata);
    var eip := EntryU32(o, SEV_ES_RESET_GUID).value;
    var pages := VmsaPagesOf(eip, opts.vcpuSig, opts.guestFeatures, opts.vmm, opts.vcpus);
    SavesExactly(h, opts, eip, pages, VmsaUpdates(h, pages));
    var first := if opts.ovmfHash.Some? then [] else NormalUpdates(h, o.gpa, firmware);
    FirmwareExactly(h, firmware, first);
    l := Launch(o.table, o.metadata, hashes, first, parts, late, pages, VmsaUpdates(h, pages), [], []);
    LogWellFormed(h256, h, firmware, opts, l);
    var records, digests := RecordsExist(h, Seed(opts.ovmfHash), LogOf(l));
    StartExactly(opts.ovmfHash, digests[0]);
    l := WithRecords(h256, h, firmware, opts, l, records, digests);
  }

  lemma WithRecords(h256: HashFunction, h: HashFunction, firmware: Bytes, opts: Options, l: Launch,
                    records: seq<Bytes>, digests: seq<Bytes>) returns (l': Launch)
    requires Measured(h256, h, firmware, opts, l) && |digests| > 0 && IsStart(opts.ovmfHash, digests[0])
    requires AreRecords(h, LogOf(l), records, digests)
    ensures Launches(h256, h, firmware, opts, l')
  {
    hide IsTables, AreParts, AreLate, IsHashes, AreSaves, IsFirmware, U32At, SEV_ES_RESET_GUID, IsStart, AreRecords;
    l' := l.(records := records, digests := digests);
  }

  /** A calculation gives a digest if and only if it is the last one of a launch. */
  lemma DigestExactly(h256: HashFunction, h: HashFunction, firmware: Bytes, opts: Options, d: Bytes)
    requires Digests(h256, SHA256_SIZE) && Digests(h, SHA384_SIZE)
    ensures DigestOf(h256, h, firmware, opts) == Some(d) <==>
            exists l :: Launches(h256, h, firmware, opts, l) && d == FinalDigest(l)
  {
    hide DigestOf, Launches;
    if DigestOf(h256, h, firmware, opts).Some? {
      var l := LaunchExists(h256, h, firmware, opts);
      LaunchGives(h256, h, firmware, opts, l);
    }
    forall l | Launches(h256, h, firmware, opts, l)
      ensures DigestOf(h256, h, firmware, opts) == Some(FinalDigest(l))
    {
      LaunchGives(h256, h, firmware, opts, l);
    }
  }

  /** The firmware's own chain, for a digest computed beforehand. */
  ghost predicate IsOvmfHash(h: HashFunction, firmware: Bytes, us: seq<Update>, records: seq<Bytes>,
                             digests: seq<Bytes>, d: Bytes) {
    && |firmware| <= 0x1_0000_0000 && IsFirmware(h, firmware, us) && AreRecords(h, us, records, digests)
    && |digests| == |us| + 1 && IsStart(None, digests[0]) && d == digests[|us|]
  }

  /** A digest of the firmware alone is the last one of its chain. */
  lemma OvmfHashExactly(h: HashFunction, firmware: Bytes, o: Ovmf, d: Bytes)
    requires Digests(h, SHA384_SIZE) && OvmfOf(firmware) == Some(o)
    ensures FirmwareDigest(h, o, None) == Some(d) <==>
            exists us, records, digests :: IsOvmfHash(h, firmware, us, records, digests, d)
  {
    hide OvmfOf, NormalUpdates, Chain, IsFirmware, AreRecords, IsStart, IsTables, Seed;
    TablesExactly(firmware, o);
    FirmwareBound(firmware);
    var us := NormalUpdates(h, o.gpa, firmware);
    if FirmwareDigest(h, o, None) == Some(d) {
      NormalWellFormed(h, o.gpa, firmware);
      var records, digests := RecordsExist(h, Seed(None), us);
      StartExactly(None, digests[0]);
      FirmwareExactly(h, firmware, us);
      RecordsExactly(h, us, records, digests);
      assert IsOvmfHash(h, firmware, us, records, digests, d);
    }
    forall us, records, digests | IsOvmfHash(h, firmware, us, records, digests, d)
      ensures FirmwareDigest(h, o, None) == Some(d)
    {
      FirmwareExactly(h, firmware, us);
      StartExactly(None, digests[0]);
      RecordsExactly(h, us, records, digests);
    }
  }
}
