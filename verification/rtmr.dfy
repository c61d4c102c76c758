/** Run-time measurement registers: extend chains over digests of boot inputs. */
module RuntimeMeasurement {
  import opened Bytes
  import opened Hashing
  import opened Firmware
  import opened BuildMeasurement
  import opened Authenticode

  const REGISTER_SIZE: nat := 48

  const EFI_GLOBAL_VARIABLE: Bytes :=
    [0x61, 0xDF, 0xE4, 0x8B, 0xCA, 0x93, 0xD2, 0x11, 0xAA, 0x0D, 0x00, 0xE0, 0x98, 0x03, 0x2B, 0x8C]
  const EFI_IMAGE_SECURITY_DATABASE: Bytes :=
    [0xCB, 0xB2, 0x19, 0xD7, 0x3A, 0x3D, 0x96, 0x45, 0xA3, 0xBC, 0xDA, 0xD0, 0x0E, 0x67, 0x65, 0x6F]

  /** A string of single-byte characters. */
  function Ascii(s: string): Bytes {
    seq(|s|, i requires 0 <= i < |s| => (s[i] as int) % 256)
  }

  /** UTF-16 code units, little-endian. */
  function Utf16(units: seq<nat>): (s: Bytes)
    ensures |s| == 2 * |units|
  {
    if units == [] then [] else LE16(units[0]) + Utf16(units[1..])
  }

  function UnitsOf(s: string): (us: seq<nat>) {
    seq(|s|, i requires 0 <= i < |s| => s[i] as int)
  }

  ghost predicate Units(us: seq<nat>) {
    forall k :: 0 <= k < |us| ==> us[k] < 0x1_0000
  }

  // ----- the chain -----

  /** A register after extensions with `ds`. */
  function Register(h: HashFunction, v: Bytes, ds: seq<Bytes>): Bytes {
    if ds == [] then v else h(Register(h, v, ds[..|ds| - 1]) + ds[|ds| - 1])
  }

  ghost predicate AllDigests(ds: seq<Bytes>) {
    forall k :: 0 <= k < |ds| ==> |ds[k]| == REGISTER_SIZE
  }

  lemma RegisterSize(h: HashFunction, v: Bytes, ds: seq<Bytes>)
    requires Digests(h, REGISTER_SIZE) && |v| == REGISTER_SIZE
    ensures |Register(h, v, ds)| == REGISTER_SIZE
  {
  }

  /** What is hashed along a chain of extensions. */
  ghost function ExtendInputs(h: HashFunction, v: Bytes, ds: seq<Bytes>): set<Bytes> {
    if ds == [] then {}
    else ExtendInputs(h, v, ds[..|ds| - 1]) + {Register(h, v, ds[..|ds| - 1]) + ds[|ds| - 1]}
  }

  /** Equal registers after equally many extensions: the same extensions, or an input of the
      one chain that collides with one of the other. */
  lemma {:induction false} RegisterBinds(h: HashFunction, v: Bytes, ds: seq<Bytes>, es: seq<Bytes>)
    returns (x: Bytes, y: Bytes)
    requires Digests(h, REGISTER_SIZE) && |v| == REGISTER_SIZE && AllDigests(ds) && AllDigests(es) && |ds| == |es|
    requires Register(h, v, ds) == Register(h, v, es)
    ensures ds == es || Clash(h, ExtendInputs(h, v, ds), ExtendInputs(h, v, es), x, y)
    decreases |ds|
  {
    hide Digests, Register, ExtendInputs;
    x, y := [], [];
    if ds != [] {
      var n := |ds| - 1;
      var a, b := Register(h, v, ds[..n]), Register(h, v, es[..n]);
      x, y := a + ds[n], b + es[n];
      LastExtension(h, v, ds);
      LastExtension(h, v, es);
      if x == y {
        RegisterSize(h, v, ds[..n]);
        RegisterSize(h, v, es[..n]);
        Cancel(a, ds[n], b, es[n]);
        x, y := RegisterBinds(h, v, ds[..n], es[..n]);
        assert ds == ds[..n] + [ds[n]] && es == es[..n] + [es[n]];
      }
    }
  }

  lemma LastExtension(h: HashFunction, v: Bytes, ds: seq<Bytes>)
    requires ds != []
    ensures var n := |ds| - 1;
            && Register(h, v, ds) == h(Register(h, v, ds[..n]) + ds[n])
            && ExtendInputs(h, v, ds) == ExtendInputs(h, v, ds[..n]) + {Register(h, v, ds[..n]) + ds[n]}
  {
  }

  lemma Cancel(a: Bytes, c: Bytes, b: Bytes, d: Bytes)
    requires a + c == b + d && |a| == |b|
    ensures a == b && c == d
  {
    assert (a + c)[..|a|] == a && (b + d)[..|a|] == b && (a + c)[|a|..] == c && (b + d)[|a|..] == d;
  }

  /** A register that starts at zeros. */
  function FromZero(h: HashFunction, ds: seq<Bytes>): Bytes {
    Register(h, Zeros(REGISTER_SIZE), ds)
  }

  /** What a register's calculation hashes: the `measured` data, and the chain. */
  ghost function Inputs(h: HashFunction, measured: set<Bytes>, ds: seq<Bytes>): set<Bytes> {
    measured + ExtendInputs(h, Zeros(REGISTER_SIZE), ds)
  }

  class Rtmr {
    const h: HashFunction
    var value: Bytes
    ghost var log: seq<Bytes>

    ghost predicate Valid()
      reads this
    {
      value == Register(h, Zeros(REGISTER_SIZE), log)
    }

    constructor (h: HashFunction)
      ensures Valid() && this.h == h && log == []
    {
      this.h := h;
      value, log := Zeros(REGISTER_SIZE), [];
    }

    /** Only a digest-sized value is accepted. */
    method Extend(digest: Bytes) returns (ok: bool)
      requires Valid()
      modifies this
      ensures Valid() && (ok <==> |digest| == REGISTER_SIZE)
      ensures log == if ok then old(log) + [digest] else old(log)
    {
      if |digest| != REGISTER_SIZE { return false; }
      assert (log + [digest])[..|log|] == log;
      value := h(value + digest);
      log := log + [digest];
      ok := true;
    }

    method HashAndExtend(data: Bytes)
      requires Valid() && Digests(h, REGISTER_SIZE)
      modifies this
      ensures Valid() && log == old(log) + [h(data)]
    {
      var d := h(data);
      assert |d| == REGISTER_SIZE;
      var _ := Extend(d);
    }

    method ExtendVariable(guid: Bytes, name: seq<nat>, data: Bytes)
      requires Valid() && Digests(h, REGISTER_SIZE)
      modifies this
      ensures Valid() && log == old(log) + [h(VariableData(guid, name, data))]
    {
      HashAndExtend(VariableData(guid, name, data));
    }
  }

  /** UEFI_VARIABLE_DATA: GUID, name length in code units, data length, name, data. */
  function VariableData(guid: Bytes, name: seq<nat>, data: Bytes): Bytes {
    guid + (LE64(|name|) + (LE64(|data|) + (Utf16(name) + data)))
  }

  lemma {:induction false} Utf16Injective(a: seq<nat>, b: seq<nat>)
    requires Units(a) && Units(b) && Utf16(a) == Utf16(b)
    ensures a == b
    decreases |a|
  {
    hide LE16, U16At;
    if a != [] {
      assert |b| > 0;
      var s := Utf16(a);
      Take16At(s, a[0], Utf16(a[1..]));
      Take16At(s, b[0], Utf16(b[1..]));
      Utf16Injective(a[1..], b[1..]);
      assert a == [a[0]] + a[1..] && b == [b[0]] + b[1..];
    }
  }

  lemma Take16At(s: Bytes, x: nat, rest: Bytes)
    requires s == LE16(x) + rest && x < 0x1_0000
    ensures U16At(s, 0) == x && s[2..] == rest
  {
    hide LE16, U16At;
    AtPushed([], s);
    assert [] + s == s;
    Take16(s, 0, x, rest);
  }

  /** A variable's record determines the variable. */
  lemma VariableInjective(guid: Bytes, name: seq<nat>, data: Bytes, guid': Bytes, name': seq<nat>, data': Bytes)
    requires |guid| == 16 == |guid'| && Units(name) && Units(name')
    requires |name| < 0x1_0000_0000_0000_0000 && |name'| < 0x1_0000_0000_0000_0000
    requires VariableData(guid, name, data) == VariableData(guid', name', data')
    ensures guid == guid' && name == name' && data == data'
  {
    hide LE64, Utf16, U64At, At;
    var s := VariableData(guid, name, data);
    WholeAt(s);
    VariableParts(s, guid, name, data);
    VariableParts(s, guid', name', data');
    AtUnique(s, 0, guid, guid');
    AtUnique(s, 32, Utf16(name), Utf16(name'));
    AtUnique(s, 32 + 2 * |name|, data, data');
    Utf16Injective(name, name');
  }

  lemma WholeAt(s: Bytes)
    ensures At(s, 0, s)
  {
  }

  lemma VariableParts(s: Bytes, guid: Bytes, name: seq<nat>, data: Bytes)
    requires |guid| == 16 && |name| < 0x1_0000_0000_0000_0000 && At(s, 0, VariableData(guid, name, data))
    requires |s| == |VariableData(guid, name, data)|
    ensures |s| == 32 + 2 * |name| + |data| && |s| >= 24 && U64At(s, 16) == |name|
    ensures At(s, 0, guid) && At(s, 32, Utf16(name)) && At(s, 32 + 2 * |name|, data)
  {
    hide LE64, Utf16, U64At, At;
    AtSplit(s, 0, guid, LE64(|name|) + (LE64(|data|) + (Utf16(name) + data)));
    Take64(s, 16, |name|, LE64(|data|) + (Utf16(name) + data));
    Take64(s, 24, |data|, Utf16(name) + data);
    AtSplit(s, 32, Utf16(name), data);
  }

  // ----- register 0: firmware configuration -----

  const DSDT: Bytes := [0x44, 0x53, 0x44, 0x54]
  const CVMDSDT: Bytes := [0x43, 0x56, 0x4D, 0x44, 0x53, 0x44, 0x54]

  predicate ValidCvmDsdt(data: Bytes) {
    |data| >= 36 && data[0..4] == DSDT && data[16..23] == CVMDSDT && U32At(data, 4) == |data|
  }

  /** The data of the first configuration volume section. */
  function FindCfv(fw: Bytes): Option<Bytes> {
    match TdvfSections(fw)
    case None => None
    case Some(ss) => CfvAmong(fw, ss, 0)
  }

  function CfvAmong(fw: Bytes, ss: seq<TdvfSection>, i: nat): Option<Bytes>
    requires i <= |ss|
    decreases |ss| - i
  {
    if i == |ss| then None
    else if ss[i].sectionType != 1 then CfvAmong(fw, ss, i + 1)
    else
      var end := ss[i].dataOffset + ss[i].rawDataSize;
      if end > |fw| || end >= 0x1_0000_0000 then None else Some(fw[ss[i].dataOffset..end])
  }

  const BOOT_ORDER: Bytes := Ascii("/rom@genroms/linuxboot_dma.bin") + [0]
  const SECURE_BOOT: seq<nat> := UnitsOf("SecureBoot")
  const PK: seq<nat> := UnitsOf("PK")
  const KEK: seq<nat> := UnitsOf("KEK")
  const DB: seq<nat> := UnitsOf("db")
  const DBX: seq<nat> := UnitsOf("dbx")

  /** The secure boot variables, none of them enrolled. */
  function VariablesLog(h: HashFunction): (ds: seq<Bytes>)
    ensures |ds| == 5
  {
    [h(VariableData(EFI_GLOBAL_VARIABLE, SECURE_BOOT, [])), h(VariableData(EFI_GLOBAL_VARIABLE, PK, [])),
     h(VariableData(EFI_GLOBAL_VARIABLE, KEK, [])), h(VariableData(EFI_IMAGE_SECURITY_DATABASE, DB, [])),
     h(VariableData(EFI_IMAGE_SECURITY_DATABASE, DBX, []))]
  }

  /** Boot menu and order, the variables, a separator. */
  function FixedLog(h: HashFunction): (ds: seq<Bytes>)
    ensures |ds| == 8
  {
    [h([0, 0]), h(BOOT_ORDER)] + VariablesLog(h) + [h([0, 0, 0, 0])]
  }

  function Rtmr0Log(h: HashFunction, cfv: Bytes, dsdt: Bytes): seq<Bytes> {
    [h(cfv)] + FixedLog(h) + [h(dsdt)]
  }

  method MeasureVariables(rtmr: Rtmr)
    requires rtmr.Valid() && Digests(rtmr.h, REGISTER_SIZE)
    modifies rtmr
    ensures rtmr.Valid() && rtmr.log == old(rtmr.log) + VariablesLog(rtmr.h)
  {
    hide Digests, VariableData, Rtmr.Valid, SECURE_BOOT, PK, KEK, DB, DBX, EFI_GLOBAL_VARIABLE;
    hide EFI_IMAGE_SECURITY_DATABASE;
    rtmr.ExtendVariable(EFI_GLOBAL_VARIABLE, SECURE_BOOT, []);
    rtmr.ExtendVariable(EFI_GLOBAL_VARIABLE, PK, []);
    rtmr.ExtendVariable(EFI_GLOBAL_VARIABLE, KEK, []);
    rtmr.ExtendVariable(EFI_IMAGE_SECURITY_DATABASE, DB, []);
    rtmr.ExtendVariable(EFI_IMAGE_SECURITY_DATABASE, DBX, []);
  }

  method MeasureFixed(rtmr: Rtmr)
    requires rtmr.Valid() && Digests(rtmr.h, REGISTER_SIZE)
    modifies rtmr
    ensures rtmr.Valid() && rtmr.log == old(rtmr.log) + FixedLog(rtmr.h)
  {
    hide Digests, Rtmr.Valid, BOOT_ORDER, VariablesLog;
    rtmr.HashAndExtend([0, 0]);
    rtmr.HashAndExtend(BOOT_ORDER);
    MeasureVariables(rtmr);
    rtmr.HashAndExtend([0, 0, 0, 0]);
  }

  function Rtmr0Of(h: HashFunction, firmware: Bytes, dsdt: Bytes): Option<Bytes> {
    if !ValidCvmDsdt(dsdt) || FindCfv(firmware).None? then None
    else Some(FromZero(h, Rtmr0Log(h, FindCfv(firmware).value, dsdt)))
  }

  method CalcRtmr0(h: HashFunction, firmware: Bytes, dsdt: Bytes) returns (r: Option<Bytes>)
    requires Digests(h, REGISTER_SIZE)
    ensures r == Rtmr0Of(h, firmware, dsdt)
  {
    hide Digests, FindCfv, ValidCvmDsdt, Register, FixedLog;
    if !ValidCvmDsdt(dsdt) { return None; }
    var rtmr := new Rtmr(h);
    var cfv := FindCfv(firmware);
    if cfv.None? { return None; }
    rtmr.HashAndExtend(cfv.value);
    MeasureFixed(rtmr);
    rtmr.HashAndExtend(dsdt);
    assert rtmr.log == Rtmr0Log(h, cfv.value, dsdt);
    r := Some(rtmr.value);
  }

  /** Register 0 commits to the configuration volume and the DSDT template. */
  lemma Rtmr0Commits(h: HashFunction, cfv: Bytes, dsdt: Bytes, cfv': Bytes, dsdt': Bytes) returns (x: Bytes, y: Bytes)
    requires Digests(h, REGISTER_SIZE)
    requires FromZero(h, Rtmr0Log(h, cfv, dsdt)) == FromZero(h, Rtmr0Log(h, cfv', dsdt'))
    ensures (cfv == cfv' && dsdt == dsdt')
            || Clash(h, Inputs(h, {cfv, dsdt}, Rtmr0Log(h, cfv, dsdt)),
                     Inputs(h, {cfv', dsdt'}, Rtmr0Log(h, cfv', dsdt')), x, y)
  {
    var a, b := Rtmr0Log(h, cfv, dsdt), Rtmr0Log(h, cfv', dsdt');
    Rtmr0Digests(h, cfv, dsdt);
    Rtmr0Digests(h, cfv', dsdt');
    hide Digests, FixedLog, Register, ExtendInputs;
    x, y := RegisterBinds(h, Zeros(REGISTER_SIZE), a, b);
    if a == b {
      assert a[0] == h(cfv) && b[0] == h(cfv') && a[9] == h(dsdt) && b[9] == h(dsdt');
      x, y := cfv, cfv';
      if x == y { x, y := dsdt, dsdt'; }
    }
  }

  lemma Rtmr0Digests(h: HashFunction, cfv: Bytes, dsdt: Bytes)
    requires Digests(h, REGISTER_SIZE)
    ensures AllDigests(Rtmr0Log(h, cfv, dsdt))
  {
    hide VariableData, BOOT_ORDER, SECURE_BOOT, PK, KEK, DB, DBX, EFI_GLOBAL_VARIABLE, EFI_IMAGE_SECURITY_DATABASE;
  }

  // ----- register 1: the kernel image -----

  const CALLING: Bytes := Ascii("Calling EFI Application from Boot Option")
  const EXIT_INVOCATION: Bytes := Ascii("Exit Boot Services Invocation")
  const EXIT_SUCCESS: Bytes := Ascii("Exit Boot Services Returned with Success")

  /** The boot events after the kernel image. */
  function BootLog(h: HashFunction): (ds: seq<Bytes>)
    ensures |ds| == 4
  {
    [h(CALLING), h([0, 0, 0, 0]), h(EXIT_INVOCATION), h(EXIT_SUCCESS)]
  }

  function Rtmr1Log(h: HashFunction, kernelHash: Bytes): seq<Bytes> {
    [kernelHash] + BootLog(h)
  }

  method MeasureBoot(rtmr: Rtmr)
    requires rtmr.Valid() && Digests(rtmr.h, REGISTER_SIZE)
    modifies rtmr
    ensures rtmr.Valid() && rtmr.log == old(rtmr.log) + BootLog(rtmr.h)
  {
    hide Digests, Rtmr.Valid, CALLING, EXIT_INVOCATION, EXIT_SUCCESS;
    rtmr.HashAndExtend(CALLING);
    rtmr.HashAndExtend([0, 0, 0, 0]);
    rtmr.HashAndExtend(EXIT_INVOCATION);
    rtmr.HashAndExtend(EXIT_SUCCESS);
  }

  function Rtmr1Of(h: HashFunction, kernel: Bytes): Option<Bytes> {
    match HashedStream(kernel)
    case None => None
    case Some(s) => Some(FromZero(h, Rtmr1Log(h, h(s))))
  }

  method CalcRtmr1(h: HashFunction, kernel: Bytes) returns (r: Option<Bytes>)
    requires Digests(h, REGISTER_SIZE)
    ensures r == Rtmr1Of(h, kernel)
  {
    hide Register, HashedStream, BootLog;
    var rtmr := new Rtmr(h);
    var kernelHash := PeAuthenticodeHash(h, kernel);
    if kernelHash.None? { return None; }
    assert |kernelHash.value| == REGISTER_SIZE;
    hide Digests;
    var _ := rtmr.Extend(kernelHash.value);
    MeasureBoot(rtmr);
    assert rtmr.log == Rtmr1Log(h, kernelHash.value);
    r := Some(rtmr.value);
  }

  /** Register 1 commits to the stream that Authenticode makes of the kernel. */
  lemma StreamCommits(h: HashFunction, s: Bytes, t: Bytes) returns (x: Bytes, y: Bytes)
    requires Digests(h, REGISTER_SIZE)
    requires FromZero(h, Rtmr1Log(h, h(s))) == FromZero(h, Rtmr1Log(h, h(t)))
    ensures s == t || Clash(h, Inputs(h, {s}, Rtmr1Log(h, h(s))), Inputs(h, {t}, Rtmr1Log(h, h(t))), x, y)
  {
    hide CALLING, EXIT_INVOCATION, EXIT_SUCCESS, Register, ExtendInputs;
    var a, b := Rtmr1Log(h, h(s)), Rtmr1Log(h, h(t));
    x, y := RegisterBinds(h, Zeros(REGISTER_SIZE), a, b);
    if a == b {
      assert a[0] == h(s) && b[0] == h(t);
      x, y := s, t;
    }
  }

  /** Register 1 commits to every byte of the kernel but the checksum, the certificate entry,
      the certificates and the zeros that pad the file. */
  lemma Rtmr1Commits(h: HashFunction, kernel: Bytes, kernel': Bytes) returns (x: Bytes, y: Bytes)
    requires Digests(h, REGISTER_SIZE) && TiledImage(kernel) && TiledImage(kernel')
    requires FromZero(h, Rtmr1Log(h, h(HashedStream(kernel).value)))
             == FromZero(h, Rtmr1Log(h, h(HashedStream(kernel').value)))
    ensures var s, t := HashedStream(kernel).value, HashedStream(kernel').value;
            SameOutside(kernel, kernel')
            || Clash(h, Inputs(h, {s}, Rtmr1Log(h, h(s))), Inputs(h, {t}, Rtmr1Log(h, h(t))), x, y)
  {
    hide Digests, HashedStream, Rtmr1Log, FromZero, Inputs, SameOutside, LayoutOf, SectionRanges, SortByOffset, Tiles;
    x, y := StreamCommits(h, HashedStream(kernel).value, HashedStream(kernel').value);
    if HashedStream(kernel).value == HashedStream(kernel').value { StreamDetermines(kernel, kernel'); }
  }

  /** Signing the kernel leaves register 1 as it is. */
  lemma SigningKeepsRtmr1(h: HashFunction, pe: Bytes, checksum: Bytes, entry: Bytes, certs: Bytes)
    requires WellFormedUnsigned(pe) && HashedStream(pe).Some? && |checksum| == 4 && |entry| == 8
    requires |certs| % 8 == 0 && U32At(entry, 4) == |certs|
    ensures var signed := HashedStream(Signed(pe, LayoutOf(pe).value, checksum, entry, certs));
            signed.Some? && Rtmr1Log(h, h(signed.value)) == Rtmr1Log(h, h(HashedStream(pe).value))
  {
    hide HashedStream, LayoutOf, Signed, U32At;
    SigningKeepsStream(pe, checksum, entry, certs);
  }

  // ----- register 2: command line and initrd -----

  const CMDLINE_PREFIX: seq<nat> := UnitsOf("initrd=initrd ")

  /** The command line as the firmware measures it. */
  function MeasuredCmdline(cmdline: seq<nat>): Bytes {
    Utf16(CMDLINE_PREFIX + cmdline) + [0, 0]
  }

  function Rtmr2Log(h: HashFunction, cmdline: seq<nat>, initrd: Bytes): seq<Bytes> {
    [h(MeasuredCmdline(cmdline)), h(initrd)]
  }

  method CalcRtmr2(h: HashFunction, cmdline: seq<nat>, initrd: Bytes) returns (r: Bytes)
    requires Digests(h, REGISTER_SIZE)
    ensures r == FromZero(h, Rtmr2Log(h, cmdline, initrd))
  {
    hide MeasuredCmdline, Register, Digests;
    var rtmr := new Rtmr(h);
    rtmr.HashAndExtend(MeasuredCmdline(cmdline));
    rtmr.HashAndExtend(initrd);
    assert rtmr.log == Rtmr2Log(h, cmdline, initrd);
    r := rtmr.value;
  }

  lemma CmdlineBinds(a: seq<nat>, b: seq<nat>)
    requires Units(a) && Units(b) && MeasuredCmdline(a) == MeasuredCmdline(b)
    ensures a == b
  {
    hide Utf16, CMDLINE_PREFIX;
    var prefix := CMDLINE_PREFIX;
    PrefixUnits();
    var p, q := Utf16(prefix + a), Utf16(prefix + b);
    assert p == (p + [0, 0])[..|p + [0, 0]| - 2] && q == (q + [0, 0])[..|q + [0, 0]| - 2];
    assert Units(prefix + a) && Units(prefix + b);
    Utf16Injective(prefix + a, prefix + b);
    assert a == (prefix + a)[|prefix|..] && b == (prefix + b)[|prefix|..];
  }

  lemma PrefixUnits()
    ensures Units(CMDLINE_PREFIX)
  {
  }

  /** Register 2 commits to the command line and the initrd. */
  lemma Rtmr2Commits(h: HashFunction, cmdline: seq<nat>, initrd: Bytes, cmdline': seq<nat>, initrd': Bytes)
    returns (x: Bytes, y: Bytes)
    requires Digests(h, REGISTER_SIZE) && Units(cmdline) && Units(cmdline')
    requires FromZero(h, Rtmr2Log(h, cmdline, initrd)) == FromZero(h, Rtmr2Log(h, cmdline', initrd'))
    ensures (cmdline == cmdline' && initrd == initrd')
            || Clash(h, Inputs(h, {MeasuredCmdline(cmdline), initrd}, Rtmr2Log(h, cmdline, initrd)),
                     Inputs(h, {MeasuredCmdline(cmdline'), initrd'}, Rtmr2Log(h, cmdline', initrd')), x, y)
  {
    hide MeasuredCmdline, Register, Units, ExtendInputs;
    var a, b := Rtmr2Log(h, cmdline, initrd), Rtmr2Log(h, cmdline', initrd');
    x, y := RegisterBinds(h, Zeros(REGISTER_SIZE), a, b);
    if a == b {
      assert a[0] == b[0] && a[1] == b[1];
      x, y := MeasuredCmdline(cmdline), MeasuredCmdline(cmdline');
      if x == y {
        CmdlineBinds(cmdline, cmdline');
        x, y := initrd, initrd';
      }
    }
  }
}
