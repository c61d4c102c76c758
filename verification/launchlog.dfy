/** The log of a launch measurement, in the numbers of its records: what is measured, where, and
    with which page type. */
module LaunchLog {
  import opened Bytes
  import opened Hashing
  import opened GuestContext
  import opened SevHashTable
  import opened SaveAreas
  import opened Firmware

  datatype Options = Options(vcpus: nat, vcpuSig: nat, kernel: Option<Bytes>, initrd: Option<Bytes>,
                             append: Option<Bytes>, guestFeatures: nat, ovmfHash: Option<Bytes>, vmm: VmmType)

  // ----- single updates and runs of them -----

  ghost predicate IsUpdate(u: Update, pageType: nat, gpa: nat, contents: Bytes) {
    u.pageType == pageType && u.gpa == gpa && u.contents == contents
  }

  /** Without contents: 48 zero bytes stand for the page's digest. */
  ghost predicate IsBlank(u: Update, pageType: nat, gpa: nat) {
    u.pageType == pageType && u.gpa == gpa && |u.contents| == 48 && forall k :: 0 <= k < 48 ==> u.contents[k] == 0
  }

  /** One blank update for every 4096 bytes from `gpa` on. */
  ghost predicate IsFill(us: seq<Update>, pageType: nat, gpa: nat, size: nat) {
    && size % 4096 == 0 && |us| == size / 4096
    && forall i :: 0 <= i < |us| ==> IsBlank(us[i], pageType, gpa + 4096 * i)
  }

  ghost predicate IsSpecial(us: seq<Update>, pageType: nat, gpa: nat) {
    |us| == 1 && IsBlank(us[0], pageType, gpa)
  }

  /** The firmware ends at 4 GiB: one update of type 1 for every 4096 bytes of it. */
  ghost predicate IsFirmware(h: HashFunction, firmware: Bytes, us: seq<Update>)
    requires |firmware| <= 0x1_0000_0000
  {
    && |firmware| % 4096 == 0 && |us| == |firmware| / 4096
    && forall i :: 0 <= i < |us| ==>
      IsUpdate(us[i], 1, 0x1_0000_0000 - |firmware| + 4096 * i, h(firmware[4096 * i..4096 * (i + 1)]))
  }

  // ----- sections -----

  /** The table of digests, 176 bytes: header, command line, initrd, kernel, zeros. */
  ghost predicate IsHashTable(t: Bytes, s: SevHashes) {
    && |t| == 176 && |s.cmdline| == 32 == |s.initrd| && |s.kernel| == 32
    && At(t, 0, [0x06, 0xD6, 0x38, 0x94, 0x22, 0x4F, 0xC9, 0x4C, 0xB4, 0x79, 0xA7, 0x93, 0xD4, 0x11, 0xFD, 0x21])
    && At(t, 16, LE16(168))
    && At(t, 18, [0xD8, 0x2D, 0xD0, 0x97, 0x20, 0xBD, 0x94, 0x4C, 0xAA, 0x78, 0xE7, 0x71, 0x4D, 0x36, 0xAB, 0x2A])
    && At(t, 34, LE16(50)) && At(t, 36, s.cmdline)
    && At(t, 68, [0x31, 0xF7, 0xBA, 0x44, 0x2F, 0x3A, 0xD7, 0x4B, 0x9A, 0xF1, 0x41, 0xE2, 0x91, 0x69, 0x78, 0x1D])
    && At(t, 84, LE16(50)) && At(t, 86, s.initrd)
    && At(t, 118, [0x37, 0x94, 0xE7, 0x4D, 0xD2, 0xAB, 0x7F, 0x42, 0xB8, 0x35, 0xD5, 0xB1, 0x72, 0xD2, 0x04, 0x5B])
    && At(t, 134, LE16(50)) && At(t, 136, s.kernel)
    && At(t, 168, [0, 0, 0, 0, 0, 0, 0, 0])
  }

  /** A page of zeros with the table at `offset`. */
  ghost predicate IsHashPage(page: Bytes, s: SevHashes, offset: nat) {
    && |page| == 4096 && offset + 176 <= 4096 && IsHashTable(page[offset..offset + 176], s)
    && (forall k :: 0 <= k < offset ==> page[k] == 0)
    && (forall k :: offset + 176 <= k < 4096 ==> page[k] == 0)
  }

  /** With a kernel, one page of type 1 that holds the hashes at the offset within a page of the
      address in the firmware's table; without, blank pages of type 3. */
  ghost predicate IsKernelHashes(h: HashFunction, table: map<Bytes, Bytes>, hashes: Option<SevHashes>, gpa: nat,
                                 size: nat, us: seq<Update>) {
    match hashes
    case None => IsFill(us, 3, gpa, size)
    case Some(s) =>
      && SEV_HASH_TABLE_GUID in table && |table[SEV_HASH_TABLE_GUID]| >= 4 && size == 4096 && |us| == 1
      && exists page :: IsHashPage(page, s, U32At(table[SEV_HASH_TABLE_GUID], 0) % 4096)
                        && IsUpdate(us[0], 1, gpa, h(page))
  }

  /** What a section of the firmware's metadata adds to the log. */
  ghost predicate IsSection(h: HashFunction, table: map<Bytes, Bytes>, hashes: Option<SevHashes>, vmm: VmmType,
                            d: MetadataSection, us: seq<Update>) {
    match d.sectionType
    case SnpSecMem => IsFill(us, if vmm == Gce then 4 else 3, d.gpa, d.size)
    case SnpSecrets => IsSpecial(us, 5, d.gpa)
    case Cpuid => if vmm == Ec2 then us == [] else IsSpecial(us, 6, d.gpa)
    case SvsmCaa => IsFill(us, 3, d.gpa, d.size)
    case SnpKernelHashes => IsKernelHashes(h, table, hashes, d.gpa, d.size, us)
  }

  /** What it adds once all sections have had their turn: on EC2, its CPUID page. */
  ghost predicate IsLate(vmm: VmmType, d: MetadataSection, us: seq<Update>) {
    if vmm == Ec2 && d.sectionType == Cpuid then IsSpecial(us, 6, d.gpa) else us == []
  }

  // ----- the whole log -----

  /** A launch: the firmware's tables, the digests of what is booted, the parts of the log, and the
      records hashed for it with the digest before and after each. */
  datatype Launch = Launch(table: map<Bytes, Bytes>, sections: seq<MetadataSection>, hashes: Option<SevHashes>,
                           firmware: seq<Update>, parts: seq<seq<Update>>, late: seq<seq<Update>>,
                           pages: seq<Bytes>, saves: seq<Update>, records: seq<Bytes>, digests: seq<Bytes>)

  function LogOf(l: Launch): seq<Update> {
    l.firmware + (Joined(l.parts) + Joined(l.late) + l.saves)
  }

  function FinalDigest(l: Launch): Bytes {
    if l.digests == [] then [] else l.digests[|l.digests| - 1]
  }

  /** The tables of the firmware. */
  ghost predicate IsTables(firmware: Bytes, table: map<Bytes, Bytes>, sections: seq<MetadataSection>) {
    && |firmware| <= 0x1_0000_0000 && ParseFooterTable(firmware) == Some(table)
    && if SEV_METADATA_GUID in table then SectionsLaidOut(firmware, table[SEV_METADATA_GUID], sections)
       else sections == []
  }

  /** The digests: of the command line and a zero byte, of the initrd, of the kernel. An absent
      command line or initrd is empty. */
  ghost predicate IsHashes(h256: HashFunction, opts: Options, hashes: Option<SevHashes>) {
    match opts.kernel
    case None => hashes == None
    case Some(k) =>
      && hashes.Some? && hashes.value.kernel == h256(k)
      && hashes.value.initrd == h256(if opts.initrd.Some? then opts.initrd.value else [])
      && hashes.value.cmdline == h256((if opts.append.Some? then opts.append.value else []) + [0])
  }

  ghost predicate AreParts(h: HashFunction, table: map<Bytes, Bytes>, hashes: Option<SevHashes>, vmm: VmmType,
                           ds: seq<MetadataSection>, parts: seq<seq<Update>>) {
    |parts| == |ds| && forall k :: 0 <= k < |ds| ==> IsSection(h, table, hashes, vmm, ds[k], parts[k])
  }

  ghost predicate AreLate(vmm: VmmType, ds: seq<MetadataSection>, late: seq<seq<Update>>) {
    |late| == |ds| && forall k :: 0 <= k < |ds| ==> IsLate(vmm, ds[k], late[k])
  }

  /** One update of type 2 at 0xFFFF_FFFF_F000 for each vCPU's save area. The first vCPU starts at
      0xFFFF_FFF0, the others where the firmware says, if it says so. */
  ghost predicate AreSaves(h: HashFunction, opts: Options, eip: nat, pages: seq<Bytes>, saves: seq<Update>) {
    && |pages| == opts.vcpus == |saves|
    && (forall i :: 0 <= i < opts.vcpus ==> IsUpdate(saves[i], 2, 0xFFFF_FFFF_F000, h(pages[i])))
    && forall i :: 0 <= i < opts.vcpus ==>
      IsSaveArea(pages[i], if i == 0 || eip == 0 then 0xFFFF_FFF0 else eip, opts.guestFeatures, opts.vcpuSig, opts.vmm)
  }

  /** The digest a launch starts from: zeros, or a given one, cut or padded to 48 bytes. */
  ghost predicate IsStart(ovmfHash: Option<Bytes>, start: Bytes) {
    && |start| == 48
    && forall k :: 0 <= k < 48 ==>
      start[k] == if ovmfHash.Some? && k < |ovmfHash.value| then ovmfHash.value[k] else 0
  }

  /** PAGE_INFO, 112 bytes: the digest so far, the page's digest, the record's size, the page type,
      five zeros, the address. */
  ghost predicate IsRecord(r: Bytes, ld: Bytes, u: Update) {
    && |r| == 112 && r[..48] == ld && r[48..96] == u.contents && U16At(r, 96) == 112 && r[98] == u.pageType
    && r[99..104] == [0, 0, 0, 0, 0] && U64At(r, 104) == u.gpa % 0x1_0000_0000_0000_0000
  }

  /** Every update's record is hashed into the next digest. */
  ghost predicate AreRecords(h: HashFunction, us: seq<Update>, records: seq<Bytes>, digests: seq<Bytes>) {
    && |records| == |us| && |digests| == |us| + 1
    && forall k :: 0 <= k < |us| ==> IsRecord(records[k], digests[k], us[k]) && digests[k + 1] == h(records[k])
  }

  ghost predicate Measured(h256: HashFunction, h: HashFunction, firmware: Bytes, opts: Options, l: Launch) {
    && IsTables(firmware, l.table, l.sections) && IsHashes(h256, opts, l.hashes)
    && (if opts.ovmfHash.Some? then l.firmware == [] else IsFirmware(h, firmware, l.firmware))
    && AreParts(h, l.table, l.hashes, opts.vmm, l.sections, l.parts) && AreLate(opts.vmm, l.sections, l.late)
    && (l.hashes.Some? ==> exists k :: 0 <= k < |l.sections| && l.sections[k].sectionType == SnpKernelHashes)
    && SEV_ES_RESET_GUID in l.table && |l.table[SEV_ES_RESET_GUID]| >= 4
    && AreSaves(h, opts, U32At(l.table[SEV_ES_RESET_GUID], 0), l.pages, l.saves)
  }

  ghost predicate Launches(h256: HashFunction, h: HashFunction, firmware: Bytes, opts: Options, l: Launch) {
    && Measured(h256, h, firmware, opts, l)
    && AreRecords(h, LogOf(l), l.records, l.digests) && IsStart(opts.ovmfHash, l.digests[0])
  }
}
