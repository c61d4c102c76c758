/** Virtual machine save area pages: the initial registers of each vCPU. */
module SaveAreas {
  import opened Bytes
  import opened StructBuffers

  datatype VmmType = Qemu | Ec2 | Gce

  const VMSA_SIZE: nat := 4096
  const BSP_EIP: nat := 0xFFFF_FFF0

  const O_ES: nat := 0x000
  const O_CS: nat := 0x010
  const O_SS: nat := 0x020
  const O_DS: nat := 0x030
  const O_FS: nat := 0x040
  const O_GS: nat := 0x050
  const O_GDTR: nat := 0x060
  const O_LDTR: nat := 0x070
  const O_IDTR: nat := 0x080
  const O_TR: nat := 0x090
  const O_EFER: nat := 0x0D0
  const O_CR4: nat := 0x148
  const O_CR0: nat := 0x158
  const O_DR7: nat := 0x160
  const O_DR6: nat := 0x168
  const O_RFLAGS: nat := 0x170
  const O_RIP: nat := 0x178
  const O_G_PAT: nat := 0x268
  const O_RDX: nat := 0x310
  const O_SEV_FEATURES: nat := 0x3B0
  const O_XCR0: nat := 0x3E8
  const O_MXCSR: nat := 0x408
  const O_X87_FCW: nat := 0x410

  /** Register values that depend on the virtual machine monitor. */
  datatype Profile = Profile(csFlags: nat, ssFlags: nat, trFlags: nat, rdx: nat, mxcsr: nat, fcw: nat, gPat: nat)

  function ProfileOf(eip: nat, vcpuSig: nat, vmm: VmmType): Profile {
    match vmm
    case Qemu => Profile(0x9B, 0x93, 0x8B, vcpuSig, 0x1F80, 0x37F, 0x7_0406_0007_0406)
    case Ec2 => Profile(if eip == BSP_EIP then 0x9A else 0x9B, 0x92, 0x83, 0, 0, 0, 0x7_0406_0007_0406)
    case Gce => Profile(0x9B, 0x93, 0x8B, 0x600, 0, 0, 0x0007_0106)
  }

  type Field = (nat, Bytes)

  ghost predicate AllFit(fs: seq<Field>) {
    forall k :: 0 <= k < |fs| ==> fs[k].0 + |fs[k].1| <= VMSA_SIZE
  }

  /** Fields written one after another into a zeroed page. */
  ghost function PutAll(fs: seq<Field>): (r: Bytes)
    requires AllFit(fs)
    ensures |r| == VMSA_SIZE
  {
    if fs == [] then Zeros(VMSA_SIZE) else Put(PutAll(fs[..|fs| - 1]), fs[|fs| - 1].0, fs[|fs| - 1].1)
  }

  ghost predicate Apart(f: Field, g: Field) {
    f.0 + |f.1| <= g.0 || g.0 + |g.1| <= f.0
  }

  /** A field not overlapped by later ones is in the page. */
  lemma {:induction false} FieldHeld(fs: seq<Field>, k: nat)
    requires AllFit(fs) && k < |fs| && forall j :: k < j < |fs| ==> Apart(fs[k], fs[j])
    ensures At(PutAll(fs), fs[k].0, fs[k].1)
    decreases |fs|
  {
    hide Put, At;
    var n := |fs| - 1;
    if k == n {
      PutHolds(PutAll(fs[..n]), fs[n].0, fs[n].1);
    } else {
      FieldHeld(fs[..n], k);
      PutKeeps(PutAll(fs[..n]), fs[n].0, fs[n].1, fs[k].0, fs[k].1);
    }
  }

  function SegmentBytes(selector: nat, attrib: nat, limit: nat, base: nat): (s: Bytes)
    ensures |s| == 16
  {
    LE16(selector) + LE16(attrib) + LE32(limit) + LE64(base)
  }

  lemma PutTwice(s: Bytes, off: nat, a: Bytes, b: Bytes)
    requires off + |a| + |b| <= |s|
    ensures Put(Put(s, off, a), off + |a|, b) == Put(s, off, a + b)
  {
  }

  class SaveArea {
    const buf: StructBuffer
    ghost var fields: seq<Field>

    ghost predicate Valid()
      reads this, buf.buf
    {
      AllFit(fields) && buf.buf[..] == PutAll(fields)
    }

    constructor ()
      ensures Valid() && fields == [] && fresh(buf) && fresh(buf.buf)
    {
      buf := new StructBuffer(VMSA_SIZE);
      fields := [];
    }

    method WriteVmcbSeg(offset: nat, selector: nat, attrib: nat, limit: nat, base: nat)
      requires Valid() && offset + 16 <= VMSA_SIZE
      modifies this, buf.buf
      ensures Valid() && fields == old(fields) + [(offset, SegmentBytes(selector, attrib, limit, base))]
    {
      hide LE16, LE32, LE64, Put;
      ghost var s := buf.buf[..];
      assert buf.buf.Length == |s|;
      buf.SetU16(offset, selector);
      buf.SetU16(offset + 2, attrib);
      PutTwice(s, offset, LE16(selector), LE16(attrib));
      buf.SetU32(offset + 4, limit);
      PutTwice(s, offset, LE16(selector) + LE16(attrib), LE32(limit));
      buf.SetU64(offset + 8, base);
      PutTwice(s, offset, LE16(selector) + LE16(attrib) + LE32(limit), LE64(base));
      ghost var f := (offset, SegmentBytes(selector, attrib, limit, base));
      assert (fields + [f])[..|fields|] == fields;
      fields := fields + [f];
    }

    method WriteU64(offset: nat, value: nat)
      requires Valid() && offset + 8 <= VMSA_SIZE
      modifies this, buf.buf
      ensures Valid() && fields == old(fields) + [(offset, LE64(value))]
    {
      hide LE64, Put;
      assert buf.buf.Length == |buf.buf[..]|;
      buf.SetU64(offset, value);
      assert (fields + [(offset, LE64(value))])[..|fields|] == fields;
      fields := fields + [(offset, LE64(value))];
    }

    method WriteU32(offset: nat, value: nat)
      requires Valid() && offset + 4 <= VMSA_SIZE
      modifies this, buf.buf
      ensures Valid() && fields == old(fields) + [(offset, LE32(value))]
    {
      hide LE32, Put;
      assert buf.buf.Length == |buf.buf[..]|;
      buf.SetU32(offset, value);
      assert (fields + [(offset, LE32(value))])[..|fields|] == fields;
      fields := fields + [(offset, LE32(value))];
    }

    method WriteU16(offset: nat, value: nat)
      requires Valid() && offset + 2 <= VMSA_SIZE
      modifies this, buf.buf
      ensures Valid() && fields == old(fields) + [(offset, LE16(value))]
    {
      hide LE16, Put;
      assert buf.buf.Length == |buf.buf[..]|;
      buf.SetU16(offset, value);
      assert (fields + [(offset, LE16(value))])[..|fields|] == fields;
      fields := fields + [(offset, LE16(value))];
    }
  }

  /** Segment registers, at their offsets in the save area. */
  function SegmentFields(eip: nat, p: Profile): seq<Field> {
    [(O_ES, SegmentBytes(0, 0x93, 0xFFFF, 0)),
     (O_CS, SegmentBytes(0xF000, p.csFlags, 0xFFFF, eip / 0x1_0000 * 0x1_0000 % 0x1_0000_0000)),
     (O_SS, SegmentBytes(0, p.ssFlags, 0xFFFF, 0)),
     (O_DS, SegmentBytes(0, 0x93, 0xFFFF, 0)),
     (O_FS, SegmentBytes(0, 0x93, 0xFFFF, 0)),
     (O_GS, SegmentBytes(0, 0x93, 0xFFFF, 0)),
     (O_GDTR, SegmentBytes(0, 0, 0xFFFF, 0)),
     (O_IDTR, SegmentBytes(0, 0, 0xFFFF, 0)),
     (O_LDTR, SegmentBytes(0, 0x82, 0xFFFF, 0)),
     (O_TR, SegmentBytes(0, p.trFlags, 0xFFFF, 0))]
  }

  function ControlFields(): seq<Field> {
    [(O_EFER, LE64(0x1000)), (O_CR4, LE64(0x40)), (O_CR0, LE64(0x10)), (O_DR7, LE64(0x400)), (O_DR6, LE64(0xFFFF_0FF0)),
     (O_RFLAGS, LE64(0x2))]
  }

  function RegisterFields(eip: nat, features: nat, p: Profile): seq<Field> {
    ControlFields() +
    [(O_RIP, LE64(eip % 0x1_0000)), (O_G_PAT, LE64(p.gPat)), (O_RDX, LE64(p.rdx)),
     (O_SEV_FEATURES, LE64(features)), (O_XCR0, LE64(0x1)), (O_MXCSR, LE32(p.mxcsr)), (O_X87_FCW, LE16(p.fcw))]
  }

  ghost function SaveAreaPage(eip: nat, features: nat, vcpuSig: nat, vmm: VmmType): (r: Bytes)
    ensures |r| == VMSA_SIZE
  {
    hide LE16, LE32, LE64, SegmentBytes;
    var p := ProfileOf(eip, vcpuSig, vmm);
    PutAll(SegmentFields(eip, p) + RegisterFields(eip, features, p))
  }

  method BuildSaveArea(eip: nat, features: nat, vcpuSig: nat, vmm: VmmType) returns (page: Bytes)
    ensures page == SaveAreaPage(eip, features, vcpuSig, vmm) && |page| == VMSA_SIZE
  {
    hide LE16, LE32, LE64, SegmentBytes, PutAll, AllFit;
    var p := ProfileOf(eip, vcpuSig, vmm);
    var a := new SaveArea();
    WriteSegments(a, eip, p);
    WriteRegisters(a, eip, features, p);
    assert [] + SegmentFields(eip, p) == SegmentFields(eip, p);
    page := a.buf.buf[..];
  }

  method WriteSegments(a: SaveArea, eip: nat, p: Profile)
    requires a.Valid()
    modifies a, a.buf.buf
    ensures a.Valid() && a.fields == old(a.fields) + SegmentFields(eip, p)
  {
    hide LE64, LE16, LE32, SegmentBytes, SaveArea.Valid;
    a.WriteVmcbSeg(O_ES, 0, 0x93, 0xFFFF, 0);
    a.WriteVmcbSeg(O_CS, 0xF000, p.csFlags, 0xFFFF, eip / 0x1_0000 * 0x1_0000 % 0x1_0000_0000);
    a.WriteVmcbSeg(O_SS, 0, p.ssFlags, 0xFFFF, 0);
    a.WriteVmcbSeg(O_DS, 0, 0x93, 0xFFFF, 0);
    a.WriteVmcbSeg(O_FS, 0, 0x93, 0xFFFF, 0);
    a.WriteVmcbSeg(O_GS, 0, 0x93, 0xFFFF, 0);
    a.WriteVmcbSeg(O_GDTR, 0, 0, 0xFFFF, 0);
    a.WriteVmcbSeg(O_IDTR, 0, 0, 0xFFFF, 0);
    a.WriteVmcbSeg(O_LDTR, 0, 0x82, 0xFFFF, 0);
    a.WriteVmcbSeg(O_TR, 0, p.trFlags, 0xFFFF, 0);
  }

  method WriteControlRegisters(a: SaveArea)
    requires a.Valid()
    modifies a, a.buf.buf
    ensures a.Valid() && a.fields == old(a.fields) + ControlFields()
  {
    hide LE64, SaveArea.Valid;
    a.WriteU64(O_EFER, 0x1000);
    a.WriteU64(O_CR4, 0x40);
    a.WriteU64(O_CR0, 0x10);
    a.WriteU64(O_DR7, 0x400);
    a.WriteU64(O_DR6, 0xFFFF_0FF0);
    a.WriteU64(O_RFLAGS, 0x2);
  }

  method WriteRegisters(a: SaveArea, eip: nat, features: nat, p: Profile)
    requires a.Valid()
    modifies a, a.buf.buf
    ensures a.Valid() && a.fields == old(a.fields) + RegisterFields(eip, features, p)
  {
    hide LE64, LE16, LE32, SaveArea.Valid, ControlFields;
    WriteControlRegisters(a);
    a.WriteU64(O_RIP, eip % 0x1_0000);
    a.WriteU64(O_G_PAT, p.gPat);
    a.WriteU64(O_RDX, p.rdx);
    a.WriteU64(O_SEV_FEATURES, features);
    a.WriteU64(O_XCR0, 0x1);
    a.WriteU32(O_MXCSR, p.mxcsr);
    a.WriteU16(O_X87_FCW, p.fcw);
  }

  // ----- the page, field by field -----

  /** Segments: offset, selector, attributes, limit and base. */
  function AreaSegments(eip: nat, vmm: VmmType): seq<Field> {
    var cs := if vmm == Ec2 && eip == 0xFFFF_FFF0 then 0x9A else 0x9B;
    var ss := if vmm == Ec2 then 0x92 else 0x93;
    var tr := if vmm == Ec2 then 0x83 else 0x8B;
    [(0x000, LE16(0) + LE16(0x93) + LE32(0xFFFF) + LE64(0)),
     (0x010, LE16(0xF000) + LE16(cs) + LE32(0xFFFF) + LE64((eip - eip % 0x1_0000) % 0x1_0000_0000)),
     (0x020, LE16(0) + LE16(ss) + LE32(0xFFFF) + LE64(0)),
     (0x030, LE16(0) + LE16(0x93) + LE32(0xFFFF) + LE64(0)),
     (0x040, LE16(0) + LE16(0x93) + LE32(0xFFFF) + LE64(0)),
     (0x050, LE16(0) + LE16(0x93) + LE32(0xFFFF) + LE64(0)),
     (0x060, LE16(0) + LE16(0) + LE32(0xFFFF) + LE64(0)),
     (0x080, LE16(0) + LE16(0) + LE32(0xFFFF) + LE64(0)),
     (0x070, LE16(0) + LE16(0x82) + LE32(0xFFFF) + LE64(0)),
     (0x090, LE16(0) + LE16(tr) + LE32(0xFFFF) + LE64(0))]
  }

  /** Registers: offset and value. */
  function AreaRegisters(eip: nat, features: nat, vcpuSig: nat, vmm: VmmType): seq<Field> {
    [(0x0D0, LE64(0x1000)), (0x148, LE64(0x40)), (0x158, LE64(0x10)), (0x160, LE64(0x400)),
     (0x168, LE64(0xFFFF_0FF0)), (0x170, LE64(2)),
     (0x178, LE64(eip % 0x1_0000)), (0x268, LE64(if vmm == Gce then 0x7_0106 else 0x7_0406_0007_0406)),
     (0x310, LE64(if vmm == Qemu then vcpuSig else if vmm == Gce then 0x600 else 0)), (0x3B0, LE64(features)),
     (0x3E8, LE64(1)), (0x408, LE32(if vmm == Qemu then 0x1F80 else 0)),
     (0x410, LE16(if vmm == Qemu then 0x37F else 0))]
  }

  function AreaFields(eip: nat, features: nat, vcpuSig: nat, vmm: VmmType): seq<Field> {
    AreaSegments(eip, vmm) + AreaRegisters(eip, features, vcpuSig, vmm)
  }

  ghost predicate Covers(f: Field, k: nat) {
    f.0 <= k < f.0 + |f.1|
  }

  /** The page holds exactly these fields; all other bytes are zero. */
  ghost predicate HoldsOnly(page: Bytes, fs: seq<Field>) {
    && |page| == 4096
    && (forall j :: 0 <= j < |fs| ==> At(page, fs[j].0, fs[j].1))
    && forall k :: 0 <= k < 4096 && (forall j :: 0 <= j < |fs| ==> !Covers(fs[j], k)) ==> page[k] == 0
  }

  ghost predicate IsSaveArea(page: Bytes, eip: nat, features: nat, vcpuSig: nat, vmm: VmmType) {
    HoldsOnly(page, AreaFields(eip, features, vcpuSig, vmm))
  }

  ghost predicate AllApart(fs: seq<Field>) {
    forall i, j :: 0 <= i < j < |fs| ==> Apart(fs[i], fs[j])
  }

  lemma {:induction false} ZeroElsewhere(fs: seq<Field>, k: nat)
    requires AllFit(fs) && k < VMSA_SIZE && forall j :: 0 <= j < |fs| ==> !Covers(fs[j], k)
    ensures PutAll(fs)[k] == 0
    decreases |fs|
  {
    if fs != [] {
      var n := |fs| - 1;
      assert !Covers(fs[n], k);
      ZeroElsewhere(fs[..n], k);
    }
  }

  lemma PutAllHoldsOnly(fs: seq<Field>)
    requires AllFit(fs) && AllApart(fs)
    ensures HoldsOnly(PutAll(fs), fs)
  {
    hide PutAll, At, Apart, Covers;
    forall j | 0 <= j < |fs| ensures At(PutAll(fs), fs[j].0, fs[j].1) {
      FieldHeld(fs, j);
    }
    forall k | 0 <= k < 4096 && forall j :: 0 <= j < |fs| ==> !Covers(fs[j], k) ensures PutAll(fs)[k] == 0 {
      ZeroElsewhere(fs, k);
    }
  }

  lemma HoldsOnlyOne(a: Bytes, b: Bytes, fs: seq<Field>)
    requires HoldsOnly(a, fs) && HoldsOnly(b, fs)
    ensures a == b
  {
    forall k | 0 <= k < 4096 ensures a[k] == b[k] {
      if j :| 0 <= j < |fs| && Covers(fs[j], k) {
        assert At(a, fs[j].0, fs[j].1) && At(b, fs[j].0, fs[j].1);
        ByteOf(a, fs[j].0, fs[j].1, k);
        ByteOf(b, fs[j].0, fs[j].1, k);
      }
    }
  }

  lemma ByteOf(s: Bytes, n: nat, e: Bytes, k: nat)
    requires At(s, n, e) && n <= k < n + |e|
    ensures k < |s| && s[k] == e[k - n]
  {
    assert s[n..n + |e|][k - n] == s[k];
  }

  /** The numbers are those of the writer. */
  lemma AreaFieldsWritten(eip: nat, features: nat, vcpuSig: nat, vmm: VmmType)
    ensures var p := ProfileOf(eip, vcpuSig, vmm);
            && AreaSegments(eip, vmm) == SegmentFields(eip, p)
            && AreaRegisters(eip, features, vcpuSig, vmm) == RegisterFields(eip, features, p)
  {
    hide LE16, LE32, LE64;
    assert eip - eip % 0x1_0000 == eip / 0x1_0000 * 0x1_0000;
  }

  lemma AreaFieldsApart(eip: nat, features: nat, vcpuSig: nat, vmm: VmmType)
    ensures AllApart(AreaFields(eip, features, vcpuSig, vmm)) && AllFit(AreaFields(eip, features, vcpuSig, vmm))
  {
    hide LE16, LE32, LE64;
  }

  /** A save area is exactly what is written. */
  lemma SaveAreaExactly(page: Bytes, eip: nat, features: nat, vcpuSig: nat, vmm: VmmType)
    ensures IsSaveArea(page, eip, features, vcpuSig, vmm) <==> page == SaveAreaPage(eip, features, vcpuSig, vmm)
  {
    hide HoldsOnly, AreaSegments, AreaRegisters, SegmentFields, RegisterFields, ProfileOf, PutAll, AllFit, AllApart;
    AreaFieldsWritten(eip, features, vcpuSig, vmm);
    AreaFieldsApart(eip, features, vcpuSig, vmm);
    var fs := AreaFields(eip, features, vcpuSig, vmm);
    PutAllHoldsOnly(fs);
    if HoldsOnly(page, fs) { HoldsOnlyOne(page, PutAll(fs), fs); }
  }

  /** The page holds the vCPU signature (as QEMU's RDX) and the guest features. */
  lemma PageHolds(eip: nat, features: nat, vcpuSig: nat, vmm: VmmType)
    ensures var page := SaveAreaPage(eip, features, vcpuSig, vmm);
            && At(page, O_RDX, LE64(ProfileOf(eip, vcpuSig, vmm).rdx)) && At(page, O_SEV_FEATURES, LE64(features))
  {
    hide LE16, LE32, LE64, SegmentBytes, PutAll, At;
    var p := ProfileOf(eip, vcpuSig, vmm);
    var fs := SegmentFields(eip, p) + RegisterFields(eip, features, p);
    assert fs[18] == (O_RDX, LE64(p.rdx)) && fs[19] == (O_SEV_FEATURES, LE64(features));
    FieldHeld(fs, 18);
    FieldHeld(fs, 19);
  }

  /** On QEMU, equal pages mean equal vCPU signatures and guest features. */
  lemma PageBinds(eip: nat, features: nat, vcpuSig: nat, features': nat, vcpuSig': nat)
    requires features < 0x1_0000_0000_0000_0000 && features' < 0x1_0000_0000_0000_0000
    requires vcpuSig < 0x1_0000_0000 && vcpuSig' < 0x1_0000_0000
    requires SaveAreaPage(eip, features, vcpuSig, Qemu) == SaveAreaPage(eip, features', vcpuSig', Qemu)
    ensures features == features' && vcpuSig == vcpuSig'
  {
    hide SaveAreaPage, LE64, U64At;
    var page := SaveAreaPage(eip, features, vcpuSig, Qemu);
    PageHolds(eip, features, vcpuSig, Qemu);
    PageHolds(eip, features', vcpuSig', Qemu);
    U64OfLE64(page, O_RDX, vcpuSig);
    U64OfLE64(page, O_RDX, vcpuSig');
    U64OfLE64(page, O_SEV_FEATURES, features);
    U64OfLE64(page, O_SEV_FEATURES, features');
  }

  /** The entry point of vCPU `i`: the boot processor's, or the others'. */
  function EipOf(apEip: nat, i: nat): nat {
    if i == 0 || apEip == 0 then BSP_EIP else apEip
  }

  ghost function VmsaPagesOf(apEip: nat, vcpuSig: nat, features: nat, vmm: VmmType, vcpus: nat): (ps: seq<Bytes>)
    ensures |ps| == vcpus
  {
    seq(vcpus, i requires 0 <= i < vcpus => SaveAreaPage(EipOf(apEip, i), features, vcpuSig, vmm))
  }

  method VmsaPages(apEip: nat, vcpuSig: nat, features: nat, vmm: VmmType, vcpus: nat) returns (pages: seq<Bytes>)
    ensures pages == VmsaPagesOf(apEip, vcpuSig, features, vmm, vcpus)
    ensures forall i :: 0 <= i < |pages| ==> |pages[i]| == VMSA_SIZE
  {
    hide SaveAreaPage;
    var bsp := BuildSaveArea(BSP_EIP, features, vcpuSig, vmm);
    var ap := bsp;
    if apEip != 0 {
      ap := BuildSaveArea(apEip, features, vcpuSig, vmm);
    }
    pages := seq(vcpus, i requires 0 <= i < vcpus => if i == 0 then bsp else ap);
  }
}
