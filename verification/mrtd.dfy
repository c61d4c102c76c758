/** The TDX build-time measurement: a log of page additions and content extensions, hashed as
    one stream. */
module BuildMeasurement {
  import opened Bytes
  import opened Hashing
  import opened Firmware

  const TDX_PAGE: nat := 0x1000
  const CHUNK_SIZE: nat := 256
  const CHUNKS_PER_PAGE: nat := 16
  const PAGE_ADD: Bytes := [0x4D, 0x45, 0x4D, 0x2E, 0x50, 0x41, 0x47, 0x45, 0x2E, 0x41, 0x44, 0x44]
  const MR_EXTEND_NAME: Bytes := [0x4D, 0x52, 0x2E, 0x45, 0x58, 0x54, 0x45, 0x4E, 0x44]

  /** One record of the measured stream (section 12.2.1 of the TDX module base architecture
      specification). */
  datatype Event = PageAdd(gpa: nat) | Extend(gpa: nat, chunk: Bytes)

  function EventBytes(e: Event): Bytes {
    match e
    case PageAdd(gpa) => PAGE_ADD + (Zeros(4) + (LE64(gpa) + Zeros(104)))
    case Extend(gpa, chunk) => MR_EXTEND_NAME + (Zeros(7) + (LE64(gpa) + (Zeros(104) + chunk)))
  }

  function LogBytes(es: seq<Event>): Bytes {
    if es == [] then [] else EventBytes(es[0]) + LogBytes(es[1..])
  }

  ghost predicate WholeChunks(es: seq<Event>) {
    forall k :: 0 <= k < |es| ==> es[k].Extend? ==> |es[k].chunk| == CHUNK_SIZE
  }

  lemma {:induction false} LogAppend(a: seq<Event>, b: seq<Event>)
    ensures LogBytes(a + b) == LogBytes(a) + LogBytes(b)
  {
    hide EventBytes;
    if a == [] {
      assert a + b == b;
    } else {
      assert (a + b)[1..] == a[1..] + b;
      LogAppend(a[1..], b);
    }
  }

  lemma LogPush(es: seq<Event>, e: Event)
    ensures LogBytes(es + [e]) == LogBytes(es) + EventBytes(e)
  {
    hide EventBytes;
    LogAppend(es, [e]);
    assert [e][1..] == [];
    assert EventBytes(e) + LogBytes([]) == EventBytes(e);
  }

  // ----- decoding -----

  /** The records of a stream, if it is made of whole records. */
  function ParseLog(s: Bytes): Option<seq<Event>> {
    if s == [] then Some([])
    else if |s| < 128 then None
    else if s[..12] == PAGE_ADD then Prepend([PageAdd(U64At(s, 16))], ParseLog(s[128..]))
    else if s[..9] == MR_EXTEND_NAME && |s| >= 384 then Prepend([Extend(U64At(s, 16), s[128..384])], ParseLog(s[384..]))
    else None
  }

  lemma NameSizes()
    ensures |PAGE_ADD| == 12 && |MR_EXTEND_NAME| == 9 && PAGE_ADD[1] != MR_EXTEND_NAME[1]
  {
  }

  lemma RecordFirst(e: Bytes, rest: Bytes)
    ensures At(e + rest, 0, e) && (e + rest)[|e|..] == rest
  {
  }

  lemma PageAddReads(s: Bytes, gpa: nat, rest: Bytes)
    requires s == EventBytes(PageAdd(gpa)) + rest
    ensures ParseLog(s) == Prepend([PageAdd(gpa % 0x1_0000_0000_0000_0000)], ParseLog(rest))
  {
    hide LE64, U64At, PAGE_ADD, MR_EXTEND_NAME, Prepend;
    NameSizes();
    var e := EventBytes(PageAdd(gpa));
    RecordFirst(e, rest);
    AtSplit(s, 0, PAGE_ADD, Zeros(4) + (LE64(gpa) + Zeros(104)));
    AtSplit(s, 12, Zeros(4), LE64(gpa) + Zeros(104));
    Take64(s, 16, gpa, Zeros(104));
    assert s[..12] == s[0..0 + 12] == PAGE_ADD;
  }

  lemma ExtendReads(s: Bytes, gpa: nat, chunk: Bytes, rest: Bytes)
    requires |chunk| == CHUNK_SIZE && s == EventBytes(Extend(gpa, chunk)) + rest
    ensures ParseLog(s) == Prepend([Extend(gpa % 0x1_0000_0000_0000_0000, chunk)], ParseLog(rest))
  {
    hide LE64, U64At, PAGE_ADD, MR_EXTEND_NAME, Prepend;
    NameSizes();
    var e := EventBytes(Extend(gpa, chunk));
    RecordFirst(e, rest);
    AtSplit(s, 0, MR_EXTEND_NAME, Zeros(7) + (LE64(gpa) + (Zeros(104) + chunk)));
    AtSplit(s, 9, Zeros(7), LE64(gpa) + (Zeros(104) + chunk));
    Take64(s, 16, gpa, Zeros(104) + chunk);
    AtSplit(s, 24, Zeros(104), chunk);
    assert s[..9] == s[0..0 + 9] == MR_EXTEND_NAME;
    assert s[..12][1] == s[..9][1];
  }

  lemma EmptyLog()
    ensures ParseLog([]) == Some([])
  {
  }

  /** The events with the 64 address bits that their records hold. */
  function Recorded(es: seq<Event>): (rs: seq<Event>)
    ensures |rs| == |es|
  {
    seq(|es|, k requires 0 <= k < |es| => WithAddress(es[k], es[k].gpa % 0x1_0000_0000_0000_0000))
  }

  function WithAddress(e: Event, gpa: nat): Event {
    match e
    case PageAdd(_) => PageAdd(gpa)
    case Extend(_, chunk) => Extend(gpa, chunk)
  }

  /** The log decodes uniquely, addresses to 64 bits. */
  lemma {:induction false} LogRoundTrip(es: seq<Event>)
    requires WholeChunks(es)
    ensures ParseLog(LogBytes(es)) == Some(Recorded(es))
    decreases |es|
  {
    hide EventBytes, ParseLog, Prepend;
    EmptyLog();
    if es != [] {
      var e, t := es[0], es[1..];
      var s, rest := LogBytes(es), LogBytes(t);
      LogRoundTrip(t);
      PrependSome([Recorded(es)[0]], Recorded(t));
      assert [Recorded(es)[0]] + Recorded(t) == Recorded(es);
      match e
      case PageAdd(gpa) => PageAddReads(s, gpa, rest);
      case Extend(gpa, chunk) => ExtendReads(s, gpa, chunk, rest);
    }
  }

  /** Equal measurements: the same records, or the two streams collide. */
  lemma MeasurementBinds(h: HashFunction, a: seq<Event>, b: seq<Event>) returns (x: Bytes, y: Bytes)
    requires WholeChunks(a) && WholeChunks(b) && h(LogBytes(a)) == h(LogBytes(b))
    ensures Recorded(a) == Recorded(b) || Clash(h, {LogBytes(a)}, {LogBytes(b)}, x, y)
  {
    hide Recorded;
    x, y := LogBytes(a), LogBytes(b);
    if x == y {
      LogRoundTrip(a);
      LogRoundTrip(b);
    }
  }

  // ----- regions -----

  /** 256 bytes of the region at `off`, zero-padded past the end of the data. */
  function ChunkAt(data: Bytes, off: nat): (c: Bytes)
    ensures |c| == CHUNK_SIZE
  {
    if off < |data| then
      var src := data[off..Min(off + CHUNK_SIZE, |data|)];
      src + Zeros(CHUNK_SIZE - |src|)
    else Zeros(CHUNK_SIZE)
  }

  function ExtendEvents(gpa: nat, data: Bytes, off: nat, k: nat): (es: seq<Event>)
    ensures |es| == k
  {
    seq(k, j requires 0 <= j < k => Extend(gpa + off + j * CHUNK_SIZE, ChunkAt(data, off + j * CHUNK_SIZE)))
  }

  /** A page: its addition and, if measured, sixteen extensions. */
  function PageEvents(gpa: nat, data: Bytes, off: nat, extend: bool): seq<Event> {
    [PageAdd(gpa + off)] + if extend then ExtendEvents(gpa, data, off, CHUNKS_PER_PAGE) else []
  }

  function RegionEvents(gpa: nat, data: Bytes, pages: nat, extend: bool): seq<Event> {
    if pages == 0 then []
    else RegionEvents(gpa, data, pages - 1, extend) + PageEvents(gpa, data, (pages - 1) * TDX_PAGE, extend)
  }

  /** The bytes that a run of events extends the measurement with. */
  function Extended(es: seq<Event>): Bytes {
    if es == [] then []
    else
      var e := es[|es| - 1];
      Extended(es[..|es| - 1]) + if e.Extend? then e.chunk else []
  }

  lemma {:induction false} ExtendedAppend(a: seq<Event>, b: seq<Event>)
    ensures Extended(a + b) == Extended(a) + Extended(b)
    decreases |b|
  {
    if b == [] {
      assert a + b == a;
    } else {
      var n := |b| - 1;
      assert (a + b)[..|a + b| - 1] == a + b[..n];
      ExtendedAppend(a, b[..n]);
    }
  }

  /** The first `n` bytes of the data, or all of it and zeros up to `n`. */
  function CutOrPadded(data: Bytes, n: nat): (r: Bytes)
    ensures |r| == n
  {
    if |data| >= n then data[..n] else data + Zeros(n - |data|)
  }

  lemma CutOrPaddedGrows(data: Bytes, n: nat)
    ensures CutOrPadded(data, n + CHUNK_SIZE) == CutOrPadded(data, n) + ChunkAt(data, n)
  {
  }

  lemma {:induction false} ChunksExtend(gpa: nat, data: Bytes, off: nat, k: nat)
    ensures CutOrPadded(data, off) + Extended(ExtendEvents(gpa, data, off, k))
            == CutOrPadded(data, off + k * CHUNK_SIZE)
    decreases k
  {
    hide CutOrPadded, ChunkAt;
    var es := ExtendEvents(gpa, data, off, k);
    if k == 0 {
      assert es == [];
    } else {
      ChunksExtend(gpa, data, off, k - 1);
      assert es[..k - 1] == ExtendEvents(gpa, data, off, k - 1);
      var n := off + (k - 1) * CHUNK_SIZE;
      CutOrPaddedGrows(data, n);
      assert n + CHUNK_SIZE == off + k * CHUNK_SIZE;
    }
  }

  /** A measured region extends the measurement with exactly its data, cut or zero-padded to
      its size in memory. */
  lemma {:induction false} RegionExtends(gpa: nat, data: Bytes, pages: nat)
    ensures Extended(RegionEvents(gpa, data, pages, true)) == CutOrPadded(data, pages * TDX_PAGE)
    decreases pages
  {
    hide CutOrPadded, ExtendEvents;
    if pages == 0 {
      assert CutOrPadded(data, 0) == [];
    } else {
      var off := (pages - 1) * TDX_PAGE;
      RegionExtends(gpa, data, pages - 1);
      ExtendedAppend(RegionEvents(gpa, data, pages - 1, true), PageEvents(gpa, data, off, true));
      ExtendedAppend([PageAdd(gpa + off)], ExtendEvents(gpa, data, off, CHUNKS_PER_PAGE));
      assert Extended([PageAdd(gpa + off)]) == Extended([PageAdd(gpa + off)][..0]) + [];
      ChunksExtend(gpa, data, off, CHUNKS_PER_PAGE);
    }
  }

  /** An unmeasured region adds its pages and extends nothing. */
  lemma {:induction false} UnmeasuredExtends(gpa: nat, data: Bytes, pages: nat)
    ensures Extended(RegionEvents(gpa, data, pages, false)) == [] && |RegionEvents(gpa, data, pages, false)| == pages
    decreases pages
  {
    hide Extended, PageEvents;
    if pages == 0 {
      ExtendedNothing();
    } else {
      var off := (pages - 1) * TDX_PAGE;
      UnmeasuredExtends(gpa, data, pages - 1);
      ExtendedAppend(RegionEvents(gpa, data, pages - 1, false), PageEvents(gpa, data, off, false));
      PageOnly(gpa, data, off);
    }
  }

  lemma ExtendedNothing()
    ensures Extended([]) == []
  {
  }

  lemma PageOnly(gpa: nat, data: Bytes, off: nat)
    ensures |PageEvents(gpa, data, off, false)| == 1 && Extended(PageEvents(gpa, data, off, false)) == []
  {
    hide ExtendEvents;
    var es := PageEvents(gpa, data, off, false);
    assert es == [PageAdd(gpa + off)] && es[..0] == [];
  }

  lemma {:induction false} RegionWhole(gpa: nat, data: Bytes, pages: nat, extend: bool)
    ensures WholeChunks(RegionEvents(gpa, data, pages, extend))
    decreases pages
  {
    hide ChunkAt;
    if pages > 0 { RegionWhole(gpa, data, pages - 1, extend); }
  }

  /** The measurement under way: `hashed` is the stream fed to the hasher so far. */
  class LaunchContext {
    const h: HashFunction
    var hashed: Bytes
    ghost var events: seq<Event>

    ghost predicate Valid()
      reads this
    {
      hashed == LogBytes(events)
    }

    constructor (h: HashFunction)
      ensures Valid() && events == [] && this.h == h
    {
      this.h := h;
      hashed, events := [], [];
    }

    method MemPageAdd(gpa: nat)
      requires Valid()
      modifies this
      ensures Valid() && events == old(events) + [PageAdd(gpa)]
    {
      hide LE64, LogBytes, PAGE_ADD;
      LogPush(events, PageAdd(gpa));
      var buf := PAGE_ADD + (Zeros(4) + (LE64(gpa) + Zeros(104)));
      hashed := hashed + buf;
      events := events + [PageAdd(gpa)];
    }

    method MrExtend(gpa: nat, chunk: Bytes)
      requires Valid() && |chunk| == CHUNK_SIZE
      modifies this
      ensures Valid() && events == old(events) + [Extend(gpa, chunk)]
    {
      hide LE64, LogBytes, MR_EXTEND_NAME;
      LogPush(events, Extend(gpa, chunk));
      var header := MR_EXTEND_NAME + (Zeros(7) + (LE64(gpa) + Zeros(104)));
      assert header + chunk == MR_EXTEND_NAME + (Zeros(7) + (LE64(gpa) + (Zeros(104) + chunk)));
      assert hashed + header + chunk == hashed + (header + chunk);
      hashed := hashed + header;
      hashed := hashed + chunk;
      events := events + [Extend(gpa, chunk)];
    }

    method WriteRegion(gpa: nat, data: Bytes, dataLen: nat, extend: bool) returns (ok: bool)
      requires Valid()
      modifies this
      ensures ok <==> dataLen % TDX_PAGE == 0
      ensures ok ==> Valid() && events == old(events) + RegionEvents(gpa, data, dataLen / TDX_PAGE, extend)
    {
      hide LogBytes, PageEvents;
      if dataLen % TDX_PAGE != 0 { return false; }
      assert events + [] == events;
      for i := 0 to dataLen / TDX_PAGE
        invariant Valid() && events == old(events) + RegionEvents(gpa, data, i, extend)
      {
        ghost var before := RegionEvents(gpa, data, i, extend);
        WritePage(gpa, data, i * TDX_PAGE, extend);
        assert old(events) + before + PageEvents(gpa, data, i * TDX_PAGE, extend)
            == old(events) + (before + PageEvents(gpa, data, i * TDX_PAGE, extend));
      }
      ok := true;
    }

    method WritePage(gpa: nat, data: Bytes, pageOffset: nat, extend: bool)
      requires Valid()
      modifies this
      ensures Valid() && events == old(events) + PageEvents(gpa, data, pageOffset, extend)
    {
      hide LogBytes, ChunkAt;
      MemPageAdd(gpa + pageOffset);
      if !extend {
        return;
      }
      ghost var es := ExtendEvents(gpa, data, pageOffset, CHUNKS_PER_PAGE);
      ghost var added := events;
      assert es[..0] == [];
      for j := 0 to TDX_PAGE / CHUNK_SIZE
        invariant Valid() && events == added + es[..j]
      {
        var chunk := CopyChunk(data, pageOffset + j * CHUNK_SIZE);
        assert es[..j + 1] == es[..j] + [es[j]];
        MrExtend(gpa + pageOffset + j * CHUNK_SIZE, chunk);
      }
      assert es[..CHUNKS_PER_PAGE] == es;
    }
  }

  method CopyChunk(data: Bytes, chunkOffset: nat) returns (chunk: Bytes)
    ensures chunk == ChunkAt(data, chunkOffset)
  {
    chunk := Zeros(CHUNK_SIZE);
    var end := Min(chunkOffset + CHUNK_SIZE, |data|);
    if chunkOffset < |data| {
      var src := data[chunkOffset..end];
      chunk := src + chunk[|src|..];
      assert Zeros(CHUNK_SIZE)[|src|..] == Zeros(CHUNK_SIZE - |src|);
    }
  }

  // ----- firmware sections -----

  const TDVF: Bytes := [0x54, 0x44, 0x56, 0x46]

  datatype TdvfSection = TdvfSection(dataOffset: nat, rawDataSize: nat, memoryAddress: nat, memoryDataSize: nat,
                                     sectionType: nat, attributes: nat)

  function SectionAt(fw: Bytes, n: nat): Option<TdvfSection> {
    if n + 32 > |fw| || U32At(fw, n + 24) > 3 then None
    else Some(TdvfSection(U32At(fw, n), U32At(fw, n + 4), U64At(fw, n + 8), U64At(fw, n + 16), U32At(fw, n + 24),
                          U32At(fw, n + 28)))
  }

  function SectionsFrom(fw: Bytes, start: nat, num: nat, i: nat): Option<seq<TdvfSection>>
    requires i <= num
    decreases num - i
  {
    if i == num then Some([])
    else
      match SectionAt(fw, start + 16 + i * 32)
      case None => None
      case Some(s) => Prepend([s], SectionsFrom(fw, start, num, i + 1))
  }

  function TdvfSections(fw: Bytes): Option<seq<TdvfSection>> {
    match FindTdvfMetadataOffset(fw)
    case Found(offset) =>
      if offset > |fw| then None
      else
        var start := |fw| - offset;
        if start + 16 > |fw| || fw[start..start + 4] != TDVF || U32At(fw, start + 8) != 1 then None
        else SectionsFrom(fw, start, U32At(fw, start + 12), 0)
    case _ => None
  }

  method ParseTdvfSections(fw: Bytes) returns (r: Option<seq<TdvfSection>>)
    ensures r == TdvfSections(fw)
  {
    hide U32At, Prepend, SectionAt, FindTdvfMetadataOffset, TDVF;
    var search := FindMetadataOffset(fw);
    if !search.Found? { return None; }
    if search.offset > |fw| { return None; }
    var start := |fw| - search.offset;
    if start + 16 > |fw| || fw[start..start + 4] != TDVF || U32At(fw, start + 8) != 1 { return None; }
    var num := U32At(fw, start + 12);
    var sections: seq<TdvfSection> := [];
    ghost var whole := SectionsFrom(fw, start, num, 0);
    PrependMore<TdvfSection>([], [], whole);
    for i := 0 to num
      invariant whole == Prepend(sections, SectionsFrom(fw, start, num, i))
    {
      var s := SectionAt(fw, start + 16 + i * 32);
      PrependSome(sections, []);
      if s.None? { return None; }
      PrependMore(sections, [s.value], SectionsFrom(fw, start, num, i + 1));
      sections := sections + [s.value];
    }
    PrependSome(sections, []);
    r := Some(sections);
  }

  // ----- what a section list is -----

  function SectionImage(t: TdvfSection): (s: Bytes)
    ensures |s| == 32
  {
    LE32(t.dataOffset) + (LE32(t.rawDataSize) + (LE64(t.memoryAddress) + (LE64(t.memoryDataSize) +
    (LE32(t.sectionType) + (LE32(t.attributes) + [])))))
  }

  function SectionsImage(ts: seq<TdvfSection>): (s: Bytes)
    ensures |s| == 32 * |ts|
  {
    if ts == [] then [] else SectionImage(ts[0]) + SectionsImage(ts[1..])
  }

  ghost predicate SectionFits(t: TdvfSection) {
    && t.dataOffset < 0x1_0000_0000 && t.rawDataSize < 0x1_0000_0000 && t.sectionType <= 3
    && t.memoryAddress < 0x1_0000_0000_0000_0000 && t.memoryDataSize < 0x1_0000_0000_0000_0000
    && t.attributes < 0x1_0000_0000
  }

  ghost predicate SectionsFit(ts: seq<TdvfSection>) {
    forall k :: 0 <= k < |ts| ==> SectionFits(ts[k])
  }

  lemma SectionReads(fw: Bytes, n: nat, t: TdvfSection)
    requires At(fw, n, SectionImage(t)) && SectionFits(t)
    ensures SectionAt(fw, n) == Some(t)
  {
    hide LE32, LE64, U32At, U64At, At;
    var r5 := LE32(t.attributes) + [];
    var r4 := LE32(t.sectionType) + r5;
    var r3 := LE64(t.memoryDataSize) + r4;
    var r2 := LE64(t.memoryAddress) + r3;
    var r1 := LE32(t.rawDataSize) + r2;
    Take32(fw, n, t.dataOffset, r1);
    Take32(fw, n + 4, t.rawDataSize, r2);
    Take64(fw, n + 8, t.memoryAddress, r3);
    Take64(fw, n + 16, t.memoryDataSize, r4);
    Take32(fw, n + 24, t.sectionType, r5);
    Take32(fw, n + 28, t.attributes, []);
  }

  lemma SectionWasLaidOut(fw: Bytes, n: nat, t: TdvfSection)
    requires SectionAt(fw, n) == Some(t)
    ensures At(fw, n, SectionImage(t)) && SectionFits(t)
  {
    At32(fw, n);
    At32(fw, n + 4);
    At64(fw, n + 8);
    At64(fw, n + 16);
    At32(fw, n + 24);
    At32(fw, n + 28);
    hide LE32, LE64, U32At, U64At, At;
    var r5 := LE32(t.attributes) + [];
    assert r5 == LE32(t.attributes);
    var r4 := LE32(t.sectionType) + r5;
    var r3 := LE64(t.memoryDataSize) + r4;
    var r2 := LE64(t.memoryAddress) + r3;
    var r1 := LE32(t.rawDataSize) + r2;
    AtJoin(fw, n + 24, LE32(t.sectionType), r5);
    AtJoin(fw, n + 16, LE64(t.memoryDataSize), r4);
    AtJoin(fw, n + 8, LE64(t.memoryAddress), r3);
    AtJoin(fw, n + 4, LE32(t.rawDataSize), r2);
    AtJoin(fw, n, LE32(t.dataOffset), r1);
  }

  lemma {:induction false} SectionListExactly(fw: Bytes, start: nat, num: nat, i: nat, ts: seq<TdvfSection>)
    requires i <= num && start + 16 + 32 * i <= |fw|
    ensures SectionsFrom(fw, start, num, i) == Some(ts) <==>
            |ts| == num - i && At(fw, start + 16 + 32 * i, SectionsImage(ts)) && SectionsFit(ts)
    decreases num - i
  {
    hide SectionAt, SectionImage, SectionFits, Prepend;
    var n := start + 16 + 32 * i;
    if i == num {
      assert ts == [] ==> At(fw, n, []);
    } else if n + 32 > |fw| {
      NoSection(fw, n);
    } else if ts == [] {
      NotEmpty(fw, start, num, i);
    } else {
      var t, rest := ts[0], ts[1..];
      if SectionAt(fw, n) == Some(t) { SectionWasLaidOut(fw, n, t); }
      if At(fw, n, SectionImage(t)) && SectionFits(t) { SectionReads(fw, n, t); }
      SectionListExactly(fw, start, num, i + 1, rest);
      ListSplit(fw, n, t, rest);
      ListFits(ts);
      FirstSection(fw, start, num, i, ts);
    }
  }

  lemma NoSection(fw: Bytes, n: nat)
    requires n + 32 > |fw|
    ensures SectionAt(fw, n) == None
  {
  }

  lemma NotEmpty(fw: Bytes, start: nat, num: nat, i: nat)
    requires i < num
    ensures SectionsFrom(fw, start, num, i) != Some([])
  {
    hide SectionAt;
  }

  lemma FirstSection(fw: Bytes, start: nat, num: nat, i: nat, ts: seq<TdvfSection>)
    requires i < num && ts != []
    ensures SectionsFrom(fw, start, num, i) == Some(ts) <==>
            SectionAt(fw, start + 16 + i * 32) == Some(ts[0]) && SectionsFrom(fw, start, num, i + 1) == Some(ts[1..])
  {
    hide SectionAt;
    assert ts == [ts[0]] + ts[1..];
    var r := SectionsFrom(fw, start, num, i);
    if r.Some? { assert r.value[1..] == SectionsFrom(fw, start, num, i + 1).value; }
  }

  lemma ListSplit(fw: Bytes, n: nat, t: TdvfSection, rest: seq<TdvfSection>)
    ensures At(fw, n, SectionImage(t) + SectionsImage(rest)) <==>
            At(fw, n, SectionImage(t)) && At(fw, n + 32, SectionsImage(rest))
  {
    hide SectionImage, SectionsImage, At;
    AtParts(fw, n, SectionImage(t), SectionsImage(rest));
  }

  lemma ListFits(ts: seq<TdvfSection>)
    requires ts != []
    ensures SectionsFit(ts) <==> SectionFits(ts[0]) && SectionsFit(ts[1..])
  {
    hide SectionFits;
    assert forall k :: 0 < k < |ts| ==> ts[k] == ts[1..][k - 1];
  }

  /** The descriptor with signature, version 1 and exactly the sections `ts` lies where the
      metadata offset says. */
  ghost predicate DescriptorLaidOut(fw: Bytes, offset: nat, ts: seq<TdvfSection>) {
    && 16 <= offset <= |fw|
    && var start := |fw| - offset;
    && At(fw, start, TDVF) && U32At(fw, start + 8) == 1 && U32At(fw, start + 12) == |ts|
    && At(fw, start + 16, SectionsImage(ts)) && SectionsFit(ts)
  }

  /** Parsing gives a section list if and only if the firmware has laid out exactly that list
      where its table says. */
  lemma TdvfSectionsExactly(fw: Bytes, ts: seq<TdvfSection>)
    ensures TdvfSections(fw) == Some(ts) <==>
            FindTdvfMetadataOffset(fw).Found? && DescriptorLaidOut(fw, FindTdvfMetadataOffset(fw).offset, ts)
  {
    hide FindTdvfMetadataOffset, U32At, SectionsFrom, SectionsImage, TDVF, SectionsFit;
    TdvfSize();
    var r := FindTdvfMetadataOffset(fw);
    if r.Found? && 16 <= r.offset <= |fw| {
      var start := |fw| - r.offset;
      SectionListExactly(fw, start, U32At(fw, start + 12), 0, ts);
    }
  }

  /** The 32 bytes at `n` are a section. */
  ghost predicate IsSection(fw: Bytes, n: nat, t: TdvfSection) {
    && n + 32 <= |fw| && U32At(fw, n) == t.dataOffset && U32At(fw, n + 4) == t.rawDataSize
    && U64At(fw, n + 8) == t.memoryAddress && U64At(fw, n + 16) == t.memoryDataSize
    && U32At(fw, n + 24) == t.sectionType <= 3 && U32At(fw, n + 28) == t.attributes
  }

  /** So are all entries of the descriptor. */
  lemma DescriptorItems(fw: Bytes, offset: nat, ts: seq<TdvfSection>)
    requires DescriptorLaidOut(fw, offset, ts)
    ensures var start := |fw| - offset;
            && start + 16 <= |fw| && fw[start..start + 4] == ['T' as byte, 'D' as byte, 'V' as byte, 'F' as byte]
            && forall k: nat :: k < |ts| ==> IsSection(fw, start + 16 + 32 * k, ts[k])
  {
    hide SectionsImage, IsSection, SectionsFit;
    var start := |fw| - offset;
    forall k: nat | k < |ts| ensures IsSection(fw, start + 16 + 32 * k, ts[k]) {
      SectionHeld(fw, start + 16, ts, k);
    }
  }

  lemma {:induction false} SectionHeld(fw: Bytes, n: nat, ts: seq<TdvfSection>, k: nat)
    requires k < |ts| && At(fw, n, SectionsImage(ts)) && SectionsFit(ts)
    ensures IsSection(fw, n + 32 * k, ts[k])
    decreases |ts|
  {
    hide SectionImage, At, SectionFits, U32At, U64At;
    ListSplit(fw, n, ts[0], ts[1..]);
    ListFits(ts);
    if k == 0 {
      SectionReads(fw, n, ts[0]);
    } else {
      SectionHeld(fw, n + 32, ts[1..], k - 1);
    }
  }

  lemma TdvfSize()
    ensures |TDVF| == 4
  {
  }

  /** What one section contributes. */
  function SectionEvents(fw: Bytes, s: TdvfSection): Option<seq<Event>> {
    if s.dataOffset + s.rawDataSize > |fw| || s.dataOffset + s.rawDataSize >= 0x1_0000_0000 then None
    else if s.memoryDataSize % TDX_PAGE != 0 then None
    else Some(RegionEvents(s.memoryAddress, fw[s.dataOffset..s.dataOffset + s.rawDataSize], s.memoryDataSize / TDX_PAGE,
                           s.attributes % 2 == 1))
  }

  function AllSectionEvents(fw: Bytes, ss: seq<TdvfSection>): Option<seq<Event>> {
    if ss == [] then Some([])
    else
      match AllSectionEvents(fw, ss[..|ss| - 1])
      case None => None
      case Some(es) => Prepend(es, SectionEvents(fw, ss[|ss| - 1]))
  }

  function MrtdEvents(fw: Bytes): Option<seq<Event>> {
    match TdvfSections(fw)
    case None => None
    case Some(ss) => AllSectionEvents(fw, ss)
  }

  // ----- what is measured, section by section -----

  /** The byte that lands `k` bytes into the memory of a section: the file's, or zero. */
  function LoadedByte(fw: Bytes, t: TdvfSection, k: nat): byte
    requires t.dataOffset + t.rawDataSize <= |fw|
  {
    if k < t.rawDataSize then fw[t.dataOffset + k] else 0
  }

  /** 256 bytes of the section's memory, from `off` on. */
  ghost predicate IsChunk(fw: Bytes, t: TdvfSection, off: nat, chunk: Bytes)
    requires t.dataOffset + t.rawDataSize <= |fw|
  {
    |chunk| == 256 && forall b :: 0 <= b < 256 ==> chunk[b] == LoadedByte(fw, t, off + b)
  }

  /** The records of a page whose contents are measured. */
  ghost predicate IsMeasuredPage(fw: Bytes, t: TdvfSection, run: seq<Event>, i: nat)
    requires t.dataOffset + t.rawDataSize <= |fw| && 17 * i + 17 <= |run|
  {
    && run[17 * i] == PageAdd(t.memoryAddress + 4096 * i)
    && forall j :: 0 <= j < 16 ==> IsExtension(fw, t, 4096 * i + 256 * j, run[17 * i + 1 + j])
  }

  ghost predicate IsExtension(fw: Bytes, t: TdvfSection, off: nat, e: Event)
    requires t.dataOffset + t.rawDataSize <= |fw|
  {
    e.Extend? && e.gpa == t.memoryAddress + off && IsChunk(fw, t, off, e.chunk)
  }

  /** The section's data is in the file, and its memory is whole pages. */
  ghost predicate Measurable(fw: Bytes, t: TdvfSection) {
    && t.dataOffset + t.rawDataSize <= |fw| && t.dataOffset + t.rawDataSize < 0x1_0000_0000
    && t.memoryDataSize % 4096 == 0
  }

  /** The records of one section. If bit 0 of its attributes is set, every page is added and
      then measured in sixteen chunks; if not, every page is added. */
  ghost predicate IsRun(fw: Bytes, t: TdvfSection, run: seq<Event>) {
    && Measurable(fw, t)
    && if t.attributes % 2 == 1 then
         && |run| == 17 * (t.memoryDataSize / 4096)
         && forall i :: 0 <= i < t.memoryDataSize / 4096 ==> IsMeasuredPage(fw, t, run, i)
       else
         && |run| == t.memoryDataSize / 4096
         && forall i :: 0 <= i < |run| ==> run[i] == PageAdd(t.memoryAddress + 4096 * i)
  }

  ghost predicate AreRuns(fw: Bytes, ts: seq<TdvfSection>, runs: seq<seq<Event>>) {
    |runs| == |ts| && forall k :: 0 <= k < |ts| ==> IsRun(fw, ts[k], runs[k])
  }

  /** The firmware's descriptor lists the sections `ts`. */
  ghost predicate Described(fw: Bytes, ts: seq<TdvfSection>) {
    FindTdvfMetadataOffset(fw).Found? && DescriptorLaidOut(fw, FindTdvfMetadataOffset(fw).offset, ts)
  }

  /** `es` is what a firmware that lists `ts` causes: the runs of its sections, in order. */
  ghost predicate Measures(fw: Bytes, ts: seq<TdvfSection>, runs: seq<seq<Event>>, es: seq<Event>) {
    Described(fw, ts) && AreRuns(fw, ts, runs) && es == Joined(runs)
  }

  lemma ChunkIs(fw: Bytes, t: TdvfSection, off: nat)
    requires t.dataOffset + t.rawDataSize <= |fw|
    ensures IsChunk(fw, t, off, ChunkAt(fw[t.dataOffset..t.dataOffset + t.rawDataSize], off))
  {
    var data := fw[t.dataOffset..t.dataOffset + t.rawDataSize];
    var chunk := ChunkAt(data, off);
    forall b | 0 <= b < 256 ensures chunk[b] == LoadedByte(fw, t, off + b) {
      if off + b < |data| { assert chunk[b] == data[off + b]; }
    }
  }

  lemma {:induction false} MeasuredPages(fw: Bytes, t: TdvfSection, pages: nat)
    requires t.dataOffset + t.rawDataSize <= |fw|
    ensures var run := RegionEvents(t.memoryAddress, fw[t.dataOffset..t.dataOffset + t.rawDataSize], pages, true);
            |run| == 17 * pages && forall i :: 0 <= i < pages ==> IsMeasuredPage(fw, t, run, i)
    decreases pages
  {
    hide ChunkAt, IsExtension;
    if pages > 0 {
      var data, n := fw[t.dataOffset..t.dataOffset + t.rawDataSize], pages - 1;
      MeasuredPages(fw, t, n);
      var before := RegionEvents(t.memoryAddress, data, n, true);
      var page := PageEvents(t.memoryAddress, data, n * TDX_PAGE, true);
      var run := before + page;
      forall i | 0 <= i < pages ensures IsMeasuredPage(fw, t, run, i) {
        if i < n {
          assert IsMeasuredPage(fw, t, before, i);
          SamePage(fw, t, before, run, i);
        } else {
          LastPage(fw, t, before, page, n);
        }
      }
    }
  }

  lemma SamePage(fw: Bytes, t: TdvfSection, a: seq<Event>, b: seq<Event>, i: nat)
    requires t.dataOffset + t.rawDataSize <= |fw| && 17 * i + 17 <= |a| && a <= b && IsMeasuredPage(fw, t, a, i)
    ensures IsMeasuredPage(fw, t, b, i)
  {
    hide IsExtension;
    forall j | 0 <= j < 16 ensures IsExtension(fw, t, 4096 * i + 256 * j, b[17 * i + 1 + j]) {
      assert b[17 * i + 1 + j] == a[17 * i + 1 + j];
    }
  }

  lemma LastPage(fw: Bytes, t: TdvfSection, before: seq<Event>, page: seq<Event>, n: nat)
    requires t.dataOffset + t.rawDataSize <= |fw| && |before| == 17 * n
    requires page == PageEvents(t.memoryAddress, fw[t.dataOffset..t.dataOffset + t.rawDataSize], n * TDX_PAGE, true)
    ensures |page| == 17 && IsMeasuredPage(fw, t, before + page, n)
  {
    hide ChunkAt, IsChunk;
    forall j | 0 <= j < 16 ensures IsExtension(fw, t, 4096 * n + 256 * j, (before + page)[17 * n + 1 + j]) {
      ChunkIs(fw, t, 4096 * n + 256 * j);
      assert (before + page)[17 * n + 1 + j] == page[1 + j];
    }
  }

  lemma {:induction false} AddedPages(gpa: nat, data: Bytes, pages: nat)
    ensures var run := RegionEvents(gpa, data, pages, false);
            |run| == pages && forall i :: 0 <= i < pages ==> run[i] == PageAdd(gpa + 4096 * i)
    decreases pages
  {
    if pages > 0 { AddedPages(gpa, data, pages - 1); }
  }

  lemma RunExists(fw: Bytes, t: TdvfSection)
    ensures SectionEvents(fw, t).Some? <==> Measurable(fw, t)
    ensures SectionEvents(fw, t).Some? ==> IsRun(fw, t, SectionEvents(fw, t).value)
  {
    hide RegionEvents, IsMeasuredPage;
    if Measurable(fw, t) {
      MeasuredPages(fw, t, t.memoryDataSize / 4096);
      AddedPages(t.memoryAddress, fw[t.dataOffset..t.dataOffset + t.rawDataSize], t.memoryDataSize / 4096);
    }
  }

  /** A section's records are determined. */
  lemma RunUnique(fw: Bytes, t: TdvfSection, a: seq<Event>, b: seq<Event>)
    requires IsRun(fw, t, a) && IsRun(fw, t, b)
    ensures a == b
  {
    hide IsMeasuredPage;
    if t.attributes % 2 == 1 {
      forall k | 0 <= k < |a| ensures a[k] == b[k] {
        var i, j := k / 17, k % 17;
        assert k == 17 * i + j && i < t.memoryDataSize / 4096;
        assert IsMeasuredPage(fw, t, a, i) && IsMeasuredPage(fw, t, b, i);
        RecordUnique(fw, t, a, b, i, j);
      }
    }
  }

  lemma RecordUnique(fw: Bytes, t: TdvfSection, a: seq<Event>, b: seq<Event>, i: nat, j: nat)
    requires t.dataOffset + t.rawDataSize <= |fw| && 17 * i + 17 <= |a| == |b| && j < 17
    requires IsMeasuredPage(fw, t, a, i) && IsMeasuredPage(fw, t, b, i)
    ensures a[17 * i + j] == b[17 * i + j]
  {
    if j > 0 {
      hide IsChunk, IsExtension;
      var off, x, y := 4096 * i + 256 * (j - 1), a[17 * i + 1 + (j - 1)], b[17 * i + 1 + (j - 1)];
      assert IsExtension(fw, t, off, x) && IsExtension(fw, t, off, y);
      ExtensionUnique(fw, t, off, x, y);
    }
  }

  lemma ExtensionUnique(fw: Bytes, t: TdvfSection, off: nat, x: Event, y: Event)
    requires t.dataOffset + t.rawDataSize <= |fw| && IsExtension(fw, t, off, x) && IsExtension(fw, t, off, y)
    ensures x == y
  {
    assert x.chunk == y.chunk;
  }

  lemma {:induction false} RunsExist(fw: Bytes, ts: seq<TdvfSection>) returns (runs: seq<seq<Event>>)
    ensures AllSectionEvents(fw, ts).Some? <==> forall k :: 0 <= k < |ts| ==> Measurable(fw, ts[k])
    ensures AllSectionEvents(fw, ts).Some? ==> AreRuns(fw, ts, runs) && AllSectionEvents(fw, ts).value == Joined(runs)
    decreases |ts|
  {
    hide SectionEvents, IsRun, Measurable;
    if ts == [] {
      runs := [];
    } else {
      var n := |ts| - 1;
      runs := RunsExist(fw, ts[..n]);
      RunExists(fw, ts[n]);
      assert forall k :: 0 <= k < n ==> ts[..n][k] == ts[k];
      if AllSectionEvents(fw, ts).Some? {
        var run := SectionEvents(fw, ts[n]).value;
        JoinedPush(runs, run);
        runs := runs + [run];
      }
    }
  }

  lemma {:induction false} RunsUnique(fw: Bytes, ts: seq<TdvfSection>, a: seq<seq<Event>>, b: seq<seq<Event>>)
    requires AreRuns(fw, ts, a) && AreRuns(fw, ts, b)
    ensures a == b
  {
    hide IsRun;
    forall k | 0 <= k < |ts| ensures a[k] == b[k] {
      RunUnique(fw, ts[k], a[k], b[k]);
    }
  }

  /** A firmware causes a log if and only if it lists sections that can be measured, and the log
      is their runs in order. */
  lemma MeasuresExactly(fw: Bytes, es: seq<Event>)
    ensures MrtdEvents(fw) == Some(es) <==> exists ts, runs :: Measures(fw, ts, runs, es)
  {
    hide TdvfSections, AllSectionEvents, Described, AreRuns;
    if MrtdEvents(fw) == Some(es) {
      var ts := TdvfSections(fw).value;
      DescribedExactly(fw, ts);
      var runs := RunsExist(fw, ts);
      assert Measures(fw, ts, runs, es);
    }
    if ts, runs :| Measures(fw, ts, runs, es) {
      DescribedExactly(fw, ts);
      var same := RunsExist(fw, ts);
      RunsMeasurable(fw, ts, runs);
      RunsUnique(fw, ts, runs, same);
    }
  }

  lemma DescribedExactly(fw: Bytes, ts: seq<TdvfSection>)
    ensures Described(fw, ts) <==> TdvfSections(fw) == Some(ts)
  {
    hide TdvfSections, DescriptorLaidOut, FindTdvfMetadataOffset;
    TdvfSectionsExactly(fw, ts);
  }

  lemma RunsMeasurable(fw: Bytes, ts: seq<TdvfSection>, runs: seq<seq<Event>>)
    requires AreRuns(fw, ts, runs)
    ensures forall k :: 0 <= k < |ts| ==> Measurable(fw, ts[k])
  {
    forall k | 0 <= k < |ts| ensures Measurable(fw, ts[k]) {
      assert IsRun(fw, ts[k], runs[k]);
    }
  }

  /** The two records, byte for byte: name, address, zeros; and the chunk behind them. */
  lemma PageAddLayout(gpa: nat)
    ensures var a := EventBytes(PageAdd(gpa));
            && |a| == 128 && U64At(a, 16) == gpa % 0x1_0000_0000_0000_0000
            && (forall k :: 0 <= k < 12 ==> a[k] == "MEM.PAGE.ADD"[k] as int)
            && (forall k :: 12 <= k < 16 || 24 <= k < 128 ==> a[k] == 0)
  {
    NamesSpelled();
    NameSizes();
    hide LE64, U64At, PAGE_ADD;
    U64OfLE64At(EventBytes(PageAdd(gpa)), PAGE_ADD + Zeros(4), gpa, Zeros(104));
  }

  lemma ExtendLayout(gpa: nat, chunk: Bytes)
    requires |chunk| == 256
    ensures var b := EventBytes(Extend(gpa, chunk));
            && |b| == 384 && U64At(b, 16) == gpa % 0x1_0000_0000_0000_0000 && b[128..] == chunk
            && (forall k :: 0 <= k < 9 ==> b[k] == "MR.EXTEND"[k] as int)
            && (forall k :: 9 <= k < 16 || 24 <= k < 128 ==> b[k] == 0)
  {
    NamesSpelled();
    NameSizes();
    hide LE64, U64At, MR_EXTEND_NAME;
    U64OfLE64At(EventBytes(Extend(gpa, chunk)), MR_EXTEND_NAME + Zeros(7), gpa, Zeros(104) + chunk);
  }

  lemma NamesSpelled()
    ensures |PAGE_ADD| == 12 && forall k :: 0 <= k < 12 ==> PAGE_ADD[k] == "MEM.PAGE.ADD"[k] as int
    ensures |MR_EXTEND_NAME| == 9 && forall k :: 0 <= k < 9 ==> MR_EXTEND_NAME[k] == "MR.EXTEND"[k] as int
  {
  }

  lemma U64OfLE64At(s: Bytes, head: Bytes, x: nat, rest: Bytes)
    requires s == head + (LE64(x) + rest)
    ensures |head| + 8 <= |s| && U64At(s, |head|) == x % 0x1_0000_0000_0000_0000
  {
    hide LE64, U64At;
    AtPushed(head, LE64(x) + rest);
    Take64(s, |head|, x, rest);
  }

  /** The hashed log of the runs that the descriptor's sections cause; or failure, exactly if
      there are no such sections or one of them cannot be measured. */
  method CalculateMrtd(h: HashFunction, fw: Bytes) returns (r: Option<Bytes>)
    ensures r == match MrtdEvents(fw)
                 case None => None
                 case Some(es) => Some(h(LogBytes(es)))
    ensures r.Some? ==> exists ts, runs, es :: Measures(fw, ts, runs, es) && r == Some(h(LogBytes(es)))
    ensures r.None? ==> !exists ts, runs, es :: Measures(fw, ts, runs, es)
  {
    MeasuredLogs(fw);
    hide Measures;
    hide TdvfSections, LogBytes, RegionEvents, Prepend;
    var ctx := new LaunchContext(h);
    var sections := ParseTdvfSections(fw);
    if sections.None? { return None; }
    var ss := sections.value;
    assert ss[..0] == [];
    for k := 0 to |ss|
      invariant ctx.Valid() && AllSectionEvents(fw, ss[..k]) == Some(ctx.events)
    {
      ghost var es := ctx.events;
      assert ss[..k + 1][..k] == ss[..k] && ss[..k + 1][k] == ss[k];
      PrependSome(es, []);
      var s := ss[k];
      if s.dataOffset + s.rawDataSize > |fw| || s.dataOffset + s.rawDataSize >= 0x1_0000_0000 {
        SectionsFail(fw, ss, k + 1);
        return None;
      }
      var data := fw[s.dataOffset..s.dataOffset + s.rawDataSize];
      var ok := ctx.WriteRegion(s.memoryAddress, data, s.memoryDataSize, s.attributes % 2 == 1);
      if !ok {
        SectionsFail(fw, ss, k + 1);
        return None;
      }
      PrependSome(es, RegionEvents(s.memoryAddress, data, s.memoryDataSize / TDX_PAGE, s.attributes % 2 == 1));
    }
    assert ss[..|ss|] == ss;
    r := Some(h(ctx.hashed));
  }

  lemma MeasuredLogs(fw: Bytes)
    ensures MrtdEvents(fw).Some? ==> exists ts, runs :: Measures(fw, ts, runs, MrtdEvents(fw).value)
    ensures MrtdEvents(fw).None? ==> !exists ts, runs, es :: Measures(fw, ts, runs, es)
  {
    hide MrtdEvents, Measures;
    if MrtdEvents(fw).Some? {
      MeasuresExactly(fw, MrtdEvents(fw).value);
    } else if ts, runs, es :| Measures(fw, ts, runs, es) {
      MeasuresExactly(fw, es);
    }
  }

  lemma {:induction false} SectionsFail(fw: Bytes, ss: seq<TdvfSection>, k: nat)
    requires k <= |ss| && AllSectionEvents(fw, ss[..k]).None?
    ensures AllSectionEvents(fw, ss).None?
    decreases |ss|
  {
    hide SectionEvents, Prepend;
    if k == |ss| {
      assert ss[..k] == ss;
    } else {
      assert ss[..|ss| - 1][..k] == ss[..k];
      SectionsFail(fw, ss[..|ss| - 1], k);
    }
  }

  lemma {:induction false} SectionsWhole(fw: Bytes, ss: seq<TdvfSection>)
    requires AllSectionEvents(fw, ss).Some?
    ensures WholeChunks(AllSectionEvents(fw, ss).value)
    decreases |ss|
  {
    hide RegionEvents;
    if ss != [] {
      var s := ss[|ss| - 1];
      SectionsWhole(fw, ss[..|ss| - 1]);
      RegionWhole(s.memoryAddress, fw[s.dataOffset..s.dataOffset + s.rawDataSize], s.memoryDataSize / TDX_PAGE,
                  s.attributes % 2 == 1);
    }
  }

  /** Firmware images with equal MRTD cause the same records, page for page and chunk for
      chunk, or their two measured streams collide. */
  lemma MrtdBinds(h: HashFunction, fw: Bytes, fw': Bytes) returns (x: Bytes, y: Bytes)
    requires MrtdEvents(fw).Some? && MrtdEvents(fw').Some?
    requires h(LogBytes(MrtdEvents(fw).value)) == h(LogBytes(MrtdEvents(fw').value))
    ensures Recorded(MrtdEvents(fw).value) == Recorded(MrtdEvents(fw').value)
            || Clash(h, {LogBytes(MrtdEvents(fw).value)}, {LogBytes(MrtdEvents(fw').value)}, x, y)
  {
    hide TdvfSections, AllSectionEvents, LogBytes, WholeChunks, Recorded;
    SectionsWhole(fw, TdvfSections(fw).value);
    SectionsWhole(fw', TdvfSections(fw').value);
    x, y := MeasurementBinds(h, MrtdEvents(fw).value, MrtdEvents(fw').value);
  }
}
