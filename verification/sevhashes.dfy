/** The table of kernel, initrd and command line digests that is measured with the firmware. */
module SevHashTable {
  import opened Bytes
  import opened Hashing
  import opened StructBuffers

  const SHA256_SIZE: nat := 32
  const ENTRY_SIZE: nat := 50
  const TABLE_SIZE: nat := 168
  const PADDED_TABLE_SIZE: nat := 176
  const HASH_PAGE_SIZE: nat := 4096

  const HEADER_GUID: Bytes :=
    [0x06, 0xD6, 0x38, 0x94, 0x22, 0x4F, 0xC9, 0x4C, 0xB4, 0x79, 0xA7, 0x93, 0xD4, 0x11, 0xFD, 0x21]
  const KERNEL_GUID: Bytes :=
    [0x37, 0x94, 0xE7, 0x4D, 0xD2, 0xAB, 0x7F, 0x42, 0xB8, 0x35, 0xD5, 0xB1, 0x72, 0xD2, 0x04, 0x5B]
  const INITRD_GUID: Bytes :=
    [0x31, 0xF7, 0xBA, 0x44, 0x2F, 0x3A, 0xD7, 0x4B, 0x9A, 0xF1, 0x41, 0xE2, 0x91, 0x69, 0x78, 0x1D]
  const CMDLINE_GUID: Bytes :=
    [0xD8, 0x2D, 0xD0, 0x97, 0x20, 0xBD, 0x94, 0x4C, 0xAA, 0x78, 0xE7, 0x71, 0x4D, 0x36, 0xAB, 0x2A]

  datatype SevHashes = SevHashes(cmdline: Bytes, initrd: Bytes, kernel: Bytes)

  /** The NUL-terminated command line; an absent one is empty. */
  function CmdlineBytes(append: Option<Bytes>): Bytes {
    match append
    case Some(s) => s + [0]
    case None => [0]
  }

  function HashesOf(h: HashFunction, kernel: Bytes, initrd: Bytes, append: Option<Bytes>): SevHashes {
    SevHashes(h(CmdlineBytes(append)), h(initrd), h(kernel))
  }

  ghost predicate Sized(s: SevHashes) {
    |s.cmdline| == SHA256_SIZE == |s.initrd| && |s.kernel| == SHA256_SIZE
  }

  function EntryBytes(guid: Bytes, digest: Bytes): Bytes {
    guid + LE16(ENTRY_SIZE) + digest
  }

  function TableBytes(s: SevHashes): Bytes {
    HeaderBytes() + EntryBytes(CMDLINE_GUID, s.cmdline) + EntryBytes(INITRD_GUID, s.initrd)
    + EntryBytes(KERNEL_GUID, s.kernel) + Zeros(PADDED_TABLE_SIZE - TABLE_SIZE)
  }

  method WriteEntry(buf: StructBuffer, offset: nat, guid: Bytes, digest: Bytes, ghost done: Bytes) returns (next: nat)
    requires |guid| == 16 && |digest| == SHA256_SIZE && offset == |done| && offset + ENTRY_SIZE <= PADDED_TABLE_SIZE
    requires buf.buf[..] == done + Zeros(PADDED_TABLE_SIZE - |done|)
    modifies buf.buf
    ensures next == offset + ENTRY_SIZE && |done + EntryBytes(guid, digest)| == next
    ensures buf.buf[..] == (done + EntryBytes(guid, digest)) + Zeros(PADDED_TABLE_SIZE - next)
  {
    hide LE16, Put;
    assert buf.buf.Length == |buf.buf[..]|;
    PutNext(done, guid, PADDED_TABLE_SIZE);
    buf.SetBytes(offset, guid);
    PutNext(done + guid, LE16(ENTRY_SIZE), PADDED_TABLE_SIZE);
    buf.SetU16(offset + 16, ENTRY_SIZE);
    PutNext(done + guid + LE16(ENTRY_SIZE), digest, PADDED_TABLE_SIZE);
    buf.SetBytes(offset + 18, digest);
    assert done + guid + LE16(ENTRY_SIZE) + digest == done + EntryBytes(guid, digest);
    next := offset + 18 + SHA256_SIZE;
  }

  lemma GuidSizes()
    ensures |HEADER_GUID| == 16 == |CMDLINE_GUID| && |INITRD_GUID| == 16 == |KERNEL_GUID|
    ensures PADDED_TABLE_SIZE > 18
  {
  }

  function HeaderBytes(): Bytes {
    HEADER_GUID + LE16(TABLE_SIZE)
  }

  method WriteHeader(buf: StructBuffer) returns (next: nat)
    requires buf.buf[..] == Zeros(PADDED_TABLE_SIZE)
    modifies buf.buf
    ensures next == |HeaderBytes()| == 18 && buf.buf[..] == HeaderBytes() + Zeros(PADDED_TABLE_SIZE - next)
  {
    hide LE16, Put, HEADER_GUID, PADDED_TABLE_SIZE;
    GuidSizes();
    assert buf.buf.Length == |buf.buf[..]|;
    PutFirst(HEADER_GUID, PADDED_TABLE_SIZE);
    buf.SetBytes(0, HEADER_GUID);
    PutNext(HEADER_GUID, LE16(TABLE_SIZE), PADDED_TABLE_SIZE);
    buf.SetU16(16, TABLE_SIZE);
    next := 18;
  }

  method ConstructTable(s: SevHashes) returns (table: Bytes)
    requires Sized(s)
    ensures table == TableBytes(s) && |table| == PADDED_TABLE_SIZE
  {
    hide LE16, Put, EntryBytes, HeaderBytes, HEADER_GUID, CMDLINE_GUID, INITRD_GUID, KERNEL_GUID;
    GuidSizes();
    var buf := new StructBuffer(PADDED_TABLE_SIZE);
    var offset := WriteHeader(buf);
    ghost var head := HeaderBytes();
    offset := WriteEntry(buf, offset, CMDLINE_GUID, s.cmdline, head);
    ghost var withCmdline := head + EntryBytes(CMDLINE_GUID, s.cmdline);
    offset := WriteEntry(buf, offset, INITRD_GUID, s.initrd, withCmdline);
    offset := WriteEntry(buf, offset, KERNEL_GUID, s.kernel, withCmdline + EntryBytes(INITRD_GUID, s.initrd));
    table := buf.buf[..];
  }

  function HashPage(s: SevHashes, offset: nat): Bytes
    requires offset + PADDED_TABLE_SIZE <= HASH_PAGE_SIZE
  {
    Zeros(offset) + TableBytes(s) + Zeros(HASH_PAGE_SIZE - offset - PADDED_TABLE_SIZE)
  }

  /** A page of zeros with the table at `offset`; none if it would stick out. */
  method ConstructPage(s: SevHashes, offset: nat) returns (page: Option<Bytes>)
    requires Sized(s)
    ensures page.Some? <==> offset + PADDED_TABLE_SIZE <= HASH_PAGE_SIZE
    ensures page.Some? ==> page.value == HashPage(s, offset) && |page.value| == HASH_PAGE_SIZE
  {
    hide TableBytes;
    if offset >= HASH_PAGE_SIZE { return None; }
    var table := ConstructTable(s);
    if offset + |table| > HASH_PAGE_SIZE { return None; }
    var blank := Zeros(HASH_PAGE_SIZE);
    assert blank[..offset] == Zeros(offset);
    assert blank[offset + |table|..] == Zeros(HASH_PAGE_SIZE - offset - PADDED_TABLE_SIZE);
    page := Some(blank[..offset] + table + blank[offset + |table|..]);
  }

  // ----- binding -----

  lemma EntryHolds(t: Bytes, n: nat, guid: Bytes, digest: Bytes)
    requires |guid| == 16 && At(t, n, EntryBytes(guid, digest))
    ensures At(t, n + 18, digest)
  {
    hide LE16;
    AtSplit(t, n, guid + LE16(ENTRY_SIZE), digest);
  }

  lemma TableHolds(s: SevHashes)
    requires Sized(s)
    ensures At(TableBytes(s), 36, s.cmdline) && At(TableBytes(s), 86, s.initrd) && At(TableBytes(s), 136, s.kernel)
  {
    hide LE16, At, EntryBytes;
    var head := HEADER_GUID + LE16(TABLE_SIZE);
    var c, i := EntryBytes(CMDLINE_GUID, s.cmdline), EntryBytes(INITRD_GUID, s.initrd);
    var k := EntryBytes(KERNEL_GUID, s.kernel);
    EntrySize(CMDLINE_GUID, s.cmdline);
    EntrySize(INITRD_GUID, s.initrd);
    EntrySize(KERNEL_GUID, s.kernel);
    AtPushed(head, c);
    AtPushed(head + c, i);
    AtPushed(head + c + i, k);
    var t := TableBytes(s);
    AtPrefix(head + c, t, 18, c);
    AtPrefix(head + c + i, t, 68, i);
    AtPrefix(head + c + i + k, t, 118, k);
    EntryHolds(t, 18, CMDLINE_GUID, s.cmdline);
    EntryHolds(t, 68, INITRD_GUID, s.initrd);
    EntryHolds(t, 118, KERNEL_GUID, s.kernel);
  }

  lemma EntrySize(guid: Bytes, digest: Bytes)
    ensures |EntryBytes(guid, digest)| == |guid| + 2 + |digest|
  {
    hide LE16;
  }

  lemma TableInjective(s: SevHashes, t: SevHashes)
    requires Sized(s) && Sized(t) && TableBytes(s) == TableBytes(t)
    ensures s == t
  {
    hide TableBytes, At;
    TableHolds(s);
    TableHolds(t);
    AtUnique(TableBytes(s), 36, s.cmdline, t.cmdline);
    AtUnique(TableBytes(s), 86, s.initrd, t.initrd);
    AtUnique(TableBytes(s), 136, s.kernel, t.kernel);
  }

  lemma TableLength(s: SevHashes)
    requires Sized(s)
    ensures |TableBytes(s)| == PADDED_TABLE_SIZE
  {
    hide LE16;
  }

  lemma PageInjective(s: SevHashes, t: SevHashes, offset: nat)
    requires Sized(s) && Sized(t) && offset + PADDED_TABLE_SIZE <= HASH_PAGE_SIZE
    requires HashPage(s, offset) == HashPage(t, offset)
    ensures s == t
  {
    TableLength(s);
    TableLength(t);
    hide TableBytes;
    assert TableBytes(s) == HashPage(s, offset)[offset..offset + PADDED_TABLE_SIZE];
    assert TableBytes(t) == HashPage(t, offset)[offset..offset + PADDED_TABLE_SIZE];
    TableInjective(s, t);
  }

  /** What is hashed for a table. */
  function HashInputs(kernel: Bytes, initrd: Bytes, append: Option<Bytes>): set<Bytes> {
    {kernel, initrd, CmdlineBytes(append)}
  }

  /** Equal hash tables mean equal kernel, initrd and command line, or an input of the one that
      collides with an input of the other. */
  lemma HashesBind(h: HashFunction, kernel: Bytes, initrd: Bytes, append: Option<Bytes>,
                   kernel': Bytes, initrd': Bytes, append': Option<Bytes>) returns (x: Bytes, y: Bytes)
    requires HashesOf(h, kernel, initrd, append) == HashesOf(h, kernel', initrd', append')
    ensures (kernel == kernel' && initrd == initrd' && CmdlineBytes(append) == CmdlineBytes(append'))
            || Clash(h, HashInputs(kernel, initrd, append), HashInputs(kernel', initrd', append'), x, y)
  {
    x, y := kernel, kernel';
    if x == y { x, y := initrd, initrd'; }
    if x == y { x, y := CmdlineBytes(append), CmdlineBytes(append'); }
  }

  /** The absent command line is the empty one; otherwise command lines are told apart. */
  lemma CmdlineInjective(a: Option<Bytes>, b: Option<Bytes>)
    ensures CmdlineBytes(a) == CmdlineBytes(b) <==>
            (if a.Some? then a.value else []) == (if b.Some? then b.value else [])
  {
    var s, t := if a.Some? then a.value else [], if b.Some? then b.value else [];
    assert CmdlineBytes(a) == s + [0] && CmdlineBytes(b) == t + [0];
    assert (s + [0])[..|s|] == s && (t + [0])[..|t|] == t;
  }
}
