/** The run-time measurement registers, event by event: what is hashed, byte for byte. */
module RegisterEvents {
  import opened Bytes
  import opened Hashing
  import opened Firmware
  import opened BuildMeasurement
  import opened Authenticode
  import opened PeSections
  import opened RuntimeMeasurement

  // ----- the events -----

  /** The bytes of a text of single-byte characters. */
  ghost predicate IsText(e: Bytes, s: string) {
    |e| == |s| && forall k :: 0 <= k < |s| ==> e[k] as int == s[k] as int
  }

  /** The record of an empty variable: GUID, number of code units, no data, the name in UTF-16. */
  ghost predicate IsEmptyVariable(e: Bytes, guid: Bytes, name: string) {
    && |e| == 32 + 2 * |name| && e[..16] == guid && U64At(e, 16) == |name| && U64At(e, 24) == 0
    && forall k: nat :: k < |name| ==> U16At(e, 32 + 2 * k) == name[k] as int
  }

  ghost predicate IsGlobalVariable(e: Bytes, name: string) {
    IsEmptyVariable(e, [0x61, 0xDF, 0xE4, 0x8B, 0xCA, 0x93, 0xD2, 0x11, 0xAA, 0x0D, 0x00, 0xE0, 0x98, 0x03, 0x2B, 0x8C],
                    name)
  }

  ghost predicate IsSecurityVariable(e: Bytes, name: string) {
    IsEmptyVariable(e, [0xCB, 0xB2, 0x19, 0xD7, 0x3A, 0x3D, 0x96, 0x45, 0xA3, 0xBC, 0xDA, 0xD0, 0x0E, 0x67, 0x65, 0x6F],
                    name)
  }

  /** The data of the first section of type 1 among those the firmware describes. */
  ghost predicate IsCfv(fw: Bytes, ts: seq<TdvfSection>, k: nat, cfv: Bytes) {
    && Described(fw, ts) && k < |ts| && ts[k].sectionType == 1 && (forall j :: 0 <= j < k ==> ts[j].sectionType != 1)
    && ts[k].dataOffset + ts[k].rawDataSize <= |fw| && ts[k].dataOffset + ts[k].rawDataSize < 0x1_0000_0000
    && cfv == fw[ts[k].dataOffset..ts[k].dataOffset + ts[k].rawDataSize]
  }

  /** An ACPI table with signature DSDT and table ID CVMDSDT that records its own length. */
  ghost predicate IsDsdt(d: Bytes) {
    && |d| >= 36 && IsText(d[0..4], "DSDT") && IsText(d[16..23], "CVMDSDT") && U32At(d, 4) == |d|
  }

  ghost predicate IsSeparator(e: Bytes) {
    e == [0, 0, 0, 0]
  }

  /** Register 0: the configuration volume, boot menu and boot order, the secure boot variables
      without contents, a separator, and the table. */
  ghost predicate AreEvents0(es: seq<Bytes>, cfv: Bytes, dsdt: Bytes) {
    && |es| == 10 && es[0] == cfv && es[1] == [0, 0]
    && IsText(es[2], "/rom@genroms/linuxboot_dma.bin\0")
    && IsGlobalVariable(es[3], "SecureBoot") && IsGlobalVariable(es[4], "PK") && IsGlobalVariable(es[5], "KEK")
    && IsSecurityVariable(es[6], "db") && IsSecurityVariable(es[7], "dbx") && IsSeparator(es[8]) && es[9] == dsdt
  }

  /** Register 1: the stream that Authenticode makes of the kernel, and the boot events. */
  ghost predicate AreEvents1(es: seq<Bytes>, stream: Bytes) {
    && |es| == 5 && es[0] == stream && IsText(es[1], "Calling EFI Application from Boot Option")
    && IsSeparator(es[2]) && IsText(es[3], "Exit Boot Services Invocation")
    && IsText(es[4], "Exit Boot Services Returned with Success")
  }

  /** Register 2: the command line behind a fixed prefix, in UTF-16 with a final zero, and the
      initrd. */
  ghost predicate AreEvents2(es: seq<Bytes>, cmdline: seq<nat>, initrd: Bytes) {
    && |es| == 2 && |es[0]| == 2 * (14 + |cmdline| + 1) && es[1] == initrd
    && (forall k: nat :: k < 14 ==> U16At(es[0], 2 * k) == "initrd=initrd "[k] as int)
    && (forall k: nat :: k < |cmdline| ==> U16At(es[0], 2 * (14 + k)) == cmdline[k])
    && U16At(es[0], 2 * (14 + |cmdline|)) == 0
  }

  /** The values of a register: 48 zeros, and then, event by event, the digest of the value so
      far and the event's digest. */
  ghost predicate AreValues(h: HashFunction, es: seq<Bytes>, vs: seq<Bytes>, r: Bytes) {
    && |vs| == |es| + 1 && |vs[0]| == 48 && (forall k :: 0 <= k < 48 ==> vs[0][k] == 0)
    && (forall k :: 0 <= k < |es| ==> vs[k + 1] == h(vs[k] + h(es[k])))
    && r == vs[|es|]
  }

  // ----- the chain -----

  ghost function DigestsOf(h: HashFunction, es: seq<Bytes>): (ds: seq<Bytes>)
    ensures |ds| == |es|
  {
    seq(|es|, k requires 0 <= k < |es| => h(es[k]))
  }

  lemma ZeroStart(v: Bytes)
    ensures v == Zeros(REGISTER_SIZE) <==> |v| == 48 && forall k :: 0 <= k < 48 ==> v[k] == 0
  {
  }

  lemma {:induction false} ValuesAre(h: HashFunction, v: Bytes, es: seq<Bytes>, vs: seq<Bytes>)
    requires |vs| == |es| + 1 && vs[0] == v && forall k :: 0 <= k < |es| ==> vs[k + 1] == h(vs[k] + h(es[k]))
    ensures vs[|es|] == Register(h, v, DigestsOf(h, es))
    decreases |es|
  {
    if es != [] {
      var n := |es| - 1;
      ValuesAre(h, v, es[..n], vs[..n + 1]);
      assert DigestsOf(h, es)[..n] == DigestsOf(h, es[..n]);
    }
  }

  lemma {:induction false} ValuesExist(h: HashFunction, v: Bytes, es: seq<Bytes>) returns (vs: seq<Bytes>)
    ensures |vs| == |es| + 1 && vs[0] == v && forall k :: 0 <= k < |es| ==> vs[k + 1] == h(vs[k] + h(es[k]))
    decreases |es|
  {
    vs := [v];
    if es != [] {
      var n := |es| - 1;
      vs := ValuesExist(h, v, es[..n]);
      vs := vs + [h(vs[n] + h(es[n]))];
    }
  }

  /** A register's value is that of the chain over its events. */
  lemma ChainExactly(h: HashFunction, es: seq<Bytes>, r: Bytes)
    ensures r == FromZero(h, DigestsOf(h, es)) <==> exists vs :: AreValues(h, es, vs, r)
  {
    hide Register;
    var zeros := Zeros(REGISTER_SIZE);
    if r == FromZero(h, DigestsOf(h, es)) {
      var vs := ValuesExist(h, zeros, es);
      ValuesAre(h, zeros, es, vs);
      assert AreValues(h, es, vs, r);
    }
    forall vs | AreValues(h, es, vs, r) ensures r == FromZero(h, DigestsOf(h, es)) {
      ZeroStart(vs[0]);
      ValuesAre(h, zeros, es, vs);
    }
  }

  // ----- single events -----

  lemma {:induction false} Utf16Exactly(s: Bytes, n: nat, us: seq<nat>)
    requires Units(us) && n + 2 * |us| <= |s|
    ensures At(s, n, Utf16(us)) <==> forall k: nat :: k < |us| ==> U16At(s, n + 2 * k) == us[k]
    decreases |us|
  {
    hide LE16, U16At;
    if us != [] {
      AtParts(s, n, LE16(us[0]), Utf16(us[1..]));
      Utf16Exactly(s, n + 2, us[1..]);
      UnitExactly(s, n, us[0]);
      hide At;
      if forall k: nat :: k < |us| ==> U16At(s, n + 2 * k) == us[k] {
        assert U16At(s, n + 2 * 0) == us[0];
        forall k: nat | k < |us[1..]| ensures U16At(s, n + 2 + 2 * k) == us[1..][k] {
          assert U16At(s, n + 2 * (k + 1)) == us[k + 1];
        }
      }
      if At(s, n, Utf16(us)) {
        forall k: nat | k < |us| ensures U16At(s, n + 2 * k) == us[k] {
          if k > 0 { assert U16At(s, n + 2 + 2 * (k - 1)) == us[1..][k - 1]; }
        }
      }
    }
  }

  lemma UnitExactly(s: Bytes, n: nat, u: nat)
    requires u < 0x1_0000 && n + 2 <= |s|
    ensures At(s, n, LE16(u)) <==> U16At(s, n) == u
  {
    hide LE16, U16At, At;
    At16(s, n);
    if At(s, n, LE16(u)) { U16OfLE16(s, n, u); }
  }

  lemma LengthExactly(s: Bytes, n: nat, u: nat)
    requires u < 0x1_0000_0000_0000_0000 && n + 8 <= |s|
    ensures At(s, n, LE64(u)) <==> U64At(s, n) == u
  {
    hide LE64, U64At, At;
    At64(s, n);
    if At(s, n, LE64(u)) { U64OfLE64(s, n, u); }
  }

  predicate Narrow(s: string) {
    forall k :: 0 <= k < |s| ==> s[k] as int < 256
  }

  lemma UnitsExactly(s: Bytes, n: nat, name: string)
    requires Narrow(name) && n + 2 * |name| <= |s|
    ensures At(s, n, Utf16(UnitsOf(name))) <==> forall k: nat :: k < |name| ==> U16At(s, n + 2 * k) == name[k] as int
  {
    hide U16At, Utf16, At;
    var us := UnitsOf(name);
    Utf16Exactly(s, n, us);
    assert forall k: nat :: k < |name| ==> us[k] == name[k] as int;
  }

  lemma UnitCount(s: string)
    ensures |UnitsOf(s)| == |s|
  {
  }

  /** A variable's record is exactly the one that is hashed. */
  lemma VariableExactly(e: Bytes, guid: Bytes, name: string)
    requires |guid| == 16 && Narrow(name) && |name| < 0x1_0000_0000_0000_0000
    ensures IsEmptyVariable(e, guid, name) <==> e == VariableData(guid, UnitsOf(name), [])
  {
    hide LE64, U64At, Utf16, U16At, UnitsOf;
    var us := UnitsOf(name);
    UnitCount(name);
    if |e| == 32 + 2 * |name| {
      WholeExactly(e, VariableData(guid, us, []));
      assert Utf16(us) + [] == Utf16(us);
      AtParts(e, 0, guid, LE64(|us|) + (LE64(0) + Utf16(us)));
      AtParts(e, 16, LE64(|us|), LE64(0) + Utf16(us));
      AtParts(e, 24, LE64(0), Utf16(us));
      LengthExactly(e, 16, |us|);
      LengthExactly(e, 24, 0);
      UnitsExactly(e, 32, name);
    }
  }

  lemma WholeExactly(e: Bytes, f: Bytes)
    requires |e| == |f|
    ensures e == f <==> At(e, 0, f)
  {
  }

  lemma TextExactly(e: Bytes, s: string)
    requires Narrow(s)
    ensures IsText(e, s) <==> e == Ascii(s)
  {
  }

  // ----- register 0 -----

  lemma GuidsSpelled()
    ensures EFI_GLOBAL_VARIABLE ==
            [0x61, 0xDF, 0xE4, 0x8B, 0xCA, 0x93, 0xD2, 0x11, 0xAA, 0x0D, 0x00, 0xE0, 0x98, 0x03, 0x2B, 0x8C]
    ensures EFI_IMAGE_SECURITY_DATABASE ==
            [0xCB, 0xB2, 0x19, 0xD7, 0x3A, 0x3D, 0x96, 0x45, 0xA3, 0xBC, 0xDA, 0xD0, 0x0E, 0x67, 0x65, 0x6F]
  {
  }

  lemma GlobalExactly(e: Bytes, name: string)
    requires Narrow(name) && |name| < 0x100
    ensures IsGlobalVariable(e, name) <==> e == VariableData(EFI_GLOBAL_VARIABLE, UnitsOf(name), [])
  {
    GuidsSpelled();
    hide VariableData, IsEmptyVariable;
    VariableExactly(e, EFI_GLOBAL_VARIABLE, name);
  }

  lemma SecurityExactly(e: Bytes, name: string)
    requires Narrow(name) && |name| < 0x100
    ensures IsSecurityVariable(e, name) <==> e == VariableData(EFI_IMAGE_SECURITY_DATABASE, UnitsOf(name), [])
  {
    GuidsSpelled();
    hide VariableData, IsEmptyVariable;
    VariableExactly(e, EFI_IMAGE_SECURITY_DATABASE, name);
  }

  lemma BootOrderExactly(e: Bytes)
    ensures IsText(e, "/rom@genroms/linuxboot_dma.bin\0") <==> e == BOOT_ORDER
  {
    var s := "/rom@genroms/linuxboot_dma.bin\0";
    assert s == "/rom@genroms/linuxboot_dma.bin" + "\0";
    TextExactly(e, s);
    assert Ascii(s) == Ascii("/rom@genroms/linuxboot_dma.bin") + [0];
  }

  /** The events of register 0. */
  function Events0(cfv: Bytes, dsdt: Bytes): (es: seq<Bytes>)
    ensures |es| == 10
  {
    [cfv, [0, 0], BOOT_ORDER, VariableData(EFI_GLOBAL_VARIABLE, SECURE_BOOT, []),
     VariableData(EFI_GLOBAL_VARIABLE, PK, []), VariableData(EFI_GLOBAL_VARIABLE, KEK, []),
     VariableData(EFI_IMAGE_SECURITY_DATABASE, DB, []), VariableData(EFI_IMAGE_SECURITY_DATABASE, DBX, []),
     [0, 0, 0, 0], dsdt]
  }

  lemma First0(cfv: Bytes, dsdt: Bytes)
    ensures Events0(cfv, dsdt)[0] == cfv
  {
  }

  lemma Events0Exactly(es: seq<Bytes>, cfv: Bytes, dsdt: Bytes)
    ensures AreEvents0(es, cfv, dsdt) <==> es == Events0(cfv, dsdt)
  {
    hide VariableData, BOOT_ORDER, EFI_GLOBAL_VARIABLE, EFI_IMAGE_SECURITY_DATABASE, UnitsOf, IsText, IsGlobalVariable;
    hide IsSecurityVariable;
    if |es| == 10 {
      BootOrderExactly(es[2]);
      GlobalExactly(es[3], "SecureBoot");
      GlobalExactly(es[4], "PK");
      GlobalExactly(es[5], "KEK");
      SecurityExactly(es[6], "db");
      SecurityExactly(es[7], "dbx");
    }
  }

  lemma Log0Is(h: HashFunction, cfv: Bytes, dsdt: Bytes)
    ensures Rtmr0Log(h, cfv, dsdt) == DigestsOf(h, Events0(cfv, dsdt))
  {
    hide VariableData, BOOT_ORDER, EFI_GLOBAL_VARIABLE, EFI_IMAGE_SECURITY_DATABASE, SECURE_BOOT, PK, KEK, DB, DBX;
  }

  lemma DsdtExactly(d: Bytes)
    ensures ValidCvmDsdt(d) <==> IsDsdt(d)
  {
    hide U32At;
    if |d| >= 36 {
      TextExactly(d[0..4], "DSDT");
      TextExactly(d[16..23], "CVMDSDT");
      assert Ascii("DSDT") == DSDT && Ascii("CVMDSDT") == CVMDSDT;
    }
  }

  lemma {:induction false} CfvIs(fw: Bytes, ts: seq<TdvfSection>, k: nat, i: nat)
    requires i <= k < |ts| && ts[k].sectionType == 1 && forall j :: 0 <= j < k ==> ts[j].sectionType != 1
    ensures CfvAmong(fw, ts, i) == CfvAmong(fw, ts, k)
    decreases k - i
  {
    if i < k { CfvIs(fw, ts, k, i + 1); }
  }

  lemma {:induction false} CfvPlace(fw: Bytes, ts: seq<TdvfSection>, i: nat) returns (k: nat)
    requires i <= |ts| && CfvAmong(fw, ts, i).Some? && forall j :: 0 <= j < i ==> ts[j].sectionType != 1
    ensures k < |ts| && ts[k].sectionType == 1 && forall j :: 0 <= j < k ==> ts[j].sectionType != 1
    decreases |ts| - i
  {
    k := i;
    if ts[i].sectionType != 1 { k := CfvPlace(fw, ts, i + 1); }
  }

  /** The configuration volume is the data of the first section of type 1. */
  lemma CfvExactly(fw: Bytes, cfv: Bytes)
    ensures FindCfv(fw) == Some(cfv) <==> exists ts, k: nat :: IsCfv(fw, ts, k, cfv)
  {
    hide TdvfSections, Described;
    if FindCfv(fw) == Some(cfv) {
      var ts := TdvfSections(fw).value;
      DescribedExactly(fw, ts);
      var k := CfvPlace(fw, ts, 0);
      CfvIs(fw, ts, k, 0);
      assert IsCfv(fw, ts, k, cfv);
    }
    forall ts, k: nat | IsCfv(fw, ts, k, cfv) ensures FindCfv(fw) == Some(cfv) {
      DescribedExactly(fw, ts);
      CfvIs(fw, ts, k, 0);
    }
  }

  ghost predicate Measures0(h: HashFunction, fw: Bytes, dsdt: Bytes, ts: seq<TdvfSection>, k: nat, es: seq<Bytes>,
                            vs: seq<Bytes>, r: Bytes) {
    && IsDsdt(dsdt) && es != [] && IsCfv(fw, ts, k, es[0]) && AreEvents0(es, es[0], dsdt) && AreValues(h, es, vs, r)
  }

  /** Register 0 has a value if and only if it is that of these events. */
  lemma Rtmr0Exactly(h: HashFunction, fw: Bytes, dsdt: Bytes, r: Bytes)
    ensures Rtmr0Of(h, fw, dsdt) == Some(r) <==> exists ts, k: nat, es, vs :: Measures0(h, fw, dsdt, ts, k, es, vs, r)
  {
    hide FindCfv, ValidCvmDsdt, IsDsdt, Rtmr0Log, FromZero, IsCfv, AreEvents0, AreValues, Events0, DigestsOf;
    DsdtExactly(dsdt);
    if Rtmr0Of(h, fw, dsdt) == Some(r) {
      var cfv := FindCfv(fw).value;
      CfvExactly(fw, cfv);
      var ts, k: nat :| IsCfv(fw, ts, k, cfv);
      var es := Events0(cfv, dsdt);
      Log0Is(h, cfv, dsdt);
      First0(cfv, dsdt);
      Events0Exactly(es, cfv, dsdt);
      ChainExactly(h, es, r);
      var vs :| AreValues(h, es, vs, r);
      assert Measures0(h, fw, dsdt, ts, k, es, vs, r);
    }
    forall ts, k: nat, es, vs | Measures0(h, fw, dsdt, ts, k, es, vs, r) ensures Rtmr0Of(h, fw, dsdt) == Some(r) {
      CfvExactly(fw, es[0]);
      Log0Is(h, es[0], dsdt);
      Events0Exactly(es, es[0], dsdt);
      ChainExactly(h, es, r);
    }
  }

  // ----- register 1 -----

  /** The events of register 1. */
  function Events1(stream: Bytes): (es: seq<Bytes>)
    ensures |es| == 5
  {
    [stream, CALLING, [0, 0, 0, 0], EXIT_INVOCATION, EXIT_SUCCESS]
  }

  lemma First1(stream: Bytes)
    ensures Events1(stream)[0] == stream
  {
  }

  lemma Events1Exactly(es: seq<Bytes>, stream: Bytes)
    ensures AreEvents1(es, stream) <==> es == Events1(stream)
  {
    hide Ascii, IsText, CALLING, EXIT_INVOCATION, EXIT_SUCCESS;
    if |es| == 5 {
      CallingExactly(es[1]);
      InvocationExactly(es[3]);
      SuccessExactly(es[4]);
    }
  }

  lemma CallingExactly(e: Bytes)
    ensures IsText(e, "Calling EFI Application from Boot Option") <==> e == CALLING
  {
    TextExactly(e, "Calling EFI Application from Boot Option");
  }

  lemma InvocationExactly(e: Bytes)
    ensures IsText(e, "Exit Boot Services Invocation") <==> e == EXIT_INVOCATION
  {
    TextExactly(e, "Exit Boot Services Invocation");
  }

  lemma SuccessExactly(e: Bytes)
    ensures IsText(e, "Exit Boot Services Returned with Success") <==> e == EXIT_SUCCESS
  {
    TextExactly(e, "Exit Boot Services Returned with Success");
  }

  ghost predicate Measures1(h: HashFunction, kernel: Bytes, opt: nat, im: PeImage, es: seq<Bytes>, vs: seq<Bytes>,
                            r: Bytes) {
    && es != [] && Hashes(kernel, opt, im, es[0]) && AreEvents1(es, es[0]) && AreValues(h, es, vs, r)
  }

  lemma Log1Is(h: HashFunction, stream: Bytes)
    ensures Rtmr1Log(h, h(stream)) == DigestsOf(h, Events1(stream))
  {
    hide CALLING, EXIT_INVOCATION, EXIT_SUCCESS;
  }

  /** Register 1 has a value if and only if it is that of these events. */
  lemma Rtmr1Exactly(h: HashFunction, kernel: Bytes, r: Bytes)
    ensures Rtmr1Of(h, kernel) == Some(r) <==> exists opt: nat, im, es, vs :: Measures1(h, kernel, opt, im, es, vs, r)
  {
    hide HashedStream, Hashes, Rtmr1Log, FromZero, AreEvents1, AreValues, Events1, DigestsOf;
    if Rtmr1Of(h, kernel) == Some(r) {
      var s := HashedStream(kernel).value;
      StreamExactly(kernel, s);
      var opt: nat, im :| Hashes(kernel, opt, im, s);
      var es := Events1(s);
      Log1Is(h, s);
      First1(s);
      Events1Exactly(es, s);
      ChainExactly(h, es, r);
      var vs :| AreValues(h, es, vs, r);
      assert Measures1(h, kernel, opt, im, es, vs, r);
    }
    forall opt: nat, im, es, vs | Measures1(h, kernel, opt, im, es, vs, r) ensures Rtmr1Of(h, kernel) == Some(r) {
      StreamExactly(kernel, es[0]);
      Log1Is(h, es[0]);
      Events1Exactly(es, es[0]);
      ChainExactly(h, es, r);
    }
  }

  // ----- register 2 -----

  ghost predicate Measures2(h: HashFunction, cmdline: seq<nat>, initrd: Bytes, es: seq<Bytes>, vs: seq<Bytes>,
                            r: Bytes) {
    AreEvents2(es, cmdline, initrd) && AreValues(h, es, vs, r)
  }

  lemma {:induction false} Utf16Append(a: seq<nat>, b: seq<nat>)
    ensures Utf16(a + b) == Utf16(a) + Utf16(b)
    decreases |a|
  {
    hide LE16;
    if a == [] {
      assert a + b == b;
    } else {
      Utf16Append(a[1..], b);
      assert (a + b)[1..] == a[1..] + b && (a + b)[0] == a[0];
    }
  }

  lemma ZeroUnit()
    ensures LE16(0) == [0, 0]
  {
  }

  lemma CmdlineExactly(e: Bytes, cmdline: seq<nat>)
    requires Units(cmdline)
    ensures e == MeasuredCmdline(cmdline) <==>
            && |e| == 2 * (14 + |cmdline| + 1)
            && (forall k: nat :: k < 14 ==> U16At(e, 2 * k) == "initrd=initrd "[k] as int)
            && (forall k: nat :: k < |cmdline| ==> U16At(e, 2 * (14 + k)) == cmdline[k])
            && U16At(e, 2 * (14 + |cmdline|)) == 0
  {
    hide LE16, U16At, At, Utf16, UnitsOf;
    var s := "initrd=initrd ";
    var prefix := UnitsOf(s);
    UnitCount(s);
    ZeroUnit();
    Utf16Append(prefix, cmdline);
    if |e| == 2 * (14 + |cmdline| + 1) {
      WholeExactly(e, MeasuredCmdline(cmdline));
      AtParts(e, 0, Utf16(prefix) + Utf16(cmdline), [0, 0]);
      AtParts(e, 0, Utf16(prefix), Utf16(cmdline));
      UnitsExactly(e, 0, s);
      Utf16Exactly(e, 28, cmdline);
      UnitExactly(e, 28 + 2 * |cmdline|, 0);
      assert (forall k: nat :: k < 14 ==> U16At(e, 2 * k) == s[k] as int)
        <==> forall k: nat :: k < |s| ==> U16At(e, 0 + 2 * k) == s[k] as int;
      assert (forall k: nat :: k < |cmdline| ==> U16At(e, 2 * (14 + k)) == cmdline[k])
        <==> forall k: nat :: k < |cmdline| ==> U16At(e, 28 + 2 * k) == cmdline[k] by { Shifted(e, cmdline); }
    }
  }

  lemma Shifted(e: Bytes, us: seq<nat>)
    requires |e| >= 28 + 2 * |us|
    ensures (forall k: nat :: k < |us| ==> U16At(e, 2 * (14 + k)) == us[k])
            <==> forall k: nat :: k < |us| ==> U16At(e, 28 + 2 * k) == us[k]
  {
    hide U16At;
    assert forall k: nat :: 2 * (14 + k) == 28 + 2 * k;
  }

  /** Register 2 has the value of these events. */
  lemma Rtmr2Exactly(h: HashFunction, cmdline: seq<nat>, initrd: Bytes, r: Bytes)
    requires Units(cmdline)
    ensures r == FromZero(h, Rtmr2Log(h, cmdline, initrd)) <==>
            exists es, vs :: Measures2(h, cmdline, initrd, es, vs, r)
  {
    hide FromZero, MeasuredCmdline, AreValues, Units;
    var made := [MeasuredCmdline(cmdline), initrd];
    assert Rtmr2Log(h, cmdline, initrd) == DigestsOf(h, made);
    ChainExactly(h, made, r);
    CmdlineExactly(made[0], cmdline);
    if r == FromZero(h, Rtmr2Log(h, cmdline, initrd)) {
      var vs :| AreValues(h, made, vs, r);
      assert Measures2(h, cmdline, initrd, made, vs, r);
    }
    forall es, vs | Measures2(h, cmdline, initrd, es, vs, r) ensures r == FromZero(h, Rtmr2Log(h, cmdline, initrd)) {
      CmdlineExactly(es[0], cmdline);
      assert es == made;
    }
  }
}
