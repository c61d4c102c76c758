/** Firmware metadata: the GUIDed table at the end of an OVMF image, parsed backwards by two
    independent walks, and the SEV section list. */
module Firmware {
  import opened Bytes

  const ENTRY_HEADER_SIZE: nat := 18
  const FOUR_GB: nat := 0x1_0000_0000

  const TABLE_FOOTER_GUID: Bytes :=
    [0xDE, 0x82, 0xB5, 0x96, 0xB2, 0x1F, 0xF7, 0x45, 0xBA, 0xEA, 0xA3, 0x66, 0xC5, 0x5A, 0x08, 0x2D]
  const SEV_HASH_TABLE_GUID: Bytes :=
    [0x1F, 0x37, 0x55, 0x72, 0x3B, 0x3A, 0x04, 0x4B, 0x92, 0x7B, 0x1D, 0xA6, 0xEF, 0xA8, 0xD4, 0x54]
  const SEV_ES_RESET_GUID: Bytes :=
    [0xDE, 0x71, 0xF7, 0x00, 0x7E, 0x1A, 0xCB, 0x4F, 0x89, 0x0E, 0x68, 0xC7, 0x7E, 0x2F, 0xB4, 0x4E]
  const SEV_METADATA_GUID: Bytes :=
    [0x66, 0x65, 0x88, 0xDC, 0x4A, 0x98, 0x98, 0x47, 0xA7, 0x5E, 0x55, 0x85, 0xA7, 0xBF, 0x67, 0xCC]
  const TDX_METADATA_OFFSET_GUID: Bytes :=
    [0x35, 0x65, 0x7A, 0xE4, 0x4A, 0x98, 0x98, 0x47, 0x86, 0x5E, 0x46, 0x85, 0xA7, 0xBF, 0x8E, 0xC2]

  const ASEV: Bytes := [65, 83, 69, 86]

  /** The GUIDs, byte for byte. */
  lemma GuidsSpelled()
    ensures TABLE_FOOTER_GUID ==
            [0xDE, 0x82, 0xB5, 0x96, 0xB2, 0x1F, 0xF7, 0x45, 0xBA, 0xEA, 0xA3, 0x66, 0xC5, 0x5A, 0x08, 0x2D]
    ensures SEV_HASH_TABLE_GUID ==
            [0x1F, 0x37, 0x55, 0x72, 0x3B, 0x3A, 0x04, 0x4B, 0x92, 0x7B, 0x1D, 0xA6, 0xEF, 0xA8, 0xD4, 0x54]
    ensures SEV_ES_RESET_GUID ==
            [0xDE, 0x71, 0xF7, 0x00, 0x7E, 0x1A, 0xCB, 0x4F, 0x89, 0x0E, 0x68, 0xC7, 0x7E, 0x2F, 0xB4, 0x4E]
    ensures SEV_METADATA_GUID ==
            [0x66, 0x65, 0x88, 0xDC, 0x4A, 0x98, 0x98, 0x47, 0xA7, 0x5E, 0x55, 0x85, 0xA7, 0xBF, 0x67, 0xCC]
    ensures TDX_METADATA_OFFSET_GUID ==
            [0x35, 0x65, 0x7A, 0xE4, 0x4A, 0x98, 0x98, 0x47, 0x86, 0x5E, 0x46, 0x85, 0xA7, 0xBF, 0x8E, 0xC2]
  {
  }

  // ----- the footer table -----

  /** Entries from the one ending at `pos` downwards. An entry found later replaces one with
      the same GUID. */
  function WalkTable(t: Bytes, pos: nat, table: map<Bytes, Bytes>): Option<map<Bytes, Bytes>>
    requires pos <= |t|
    decreases pos
  {
    if pos < ENTRY_HEADER_SIZE then Some(table)
    else
      var off := pos - ENTRY_HEADER_SIZE;
      var size := U16At(t, off);
      if size < ENTRY_HEADER_SIZE || size > pos then None
      else WalkTable(t, pos - size, table[t[off + 2..off + 18] := t[pos - size..off]])
  }

  function ParseFooterTable(data: Bytes): Option<map<Bytes, Bytes>> {
    if |data| < 32 + ENTRY_HEADER_SIZE then Some(map[])
    else
      var start := |data| - 32 - ENTRY_HEADER_SIZE;
      var footerSize := U16At(data, start);
      if data[start + 2..start + 18] != TABLE_FOOTER_GUID then Some(map[])
      else if footerSize < ENTRY_HEADER_SIZE then None
      else if start < footerSize - ENTRY_HEADER_SIZE then Some(map[])
      else
        var tableSize := footerSize - ENTRY_HEADER_SIZE;
        WalkTable(data[start - tableSize..start], tableSize, map[])
  }

  method ParseFooter(data: Bytes) returns (r: Option<map<Bytes, Bytes>>)
    ensures r == ParseFooterTable(data)
  {
    hide U16At;
    if |data| < 32 + ENTRY_HEADER_SIZE { return Some(map[]); }
    var start := |data| - 32 - ENTRY_HEADER_SIZE;
    var footerSize := U16At(data, start);
    if data[start + 2..start + 18] != TABLE_FOOTER_GUID { return Some(map[]); }
    if footerSize < ENTRY_HEADER_SIZE { return None; }
    var tableSize := footerSize - ENTRY_HEADER_SIZE;
    if start < tableSize { return Some(map[]); }
    var t := data[start - tableSize..start];
    var table: map<Bytes, Bytes> := map[];
    var pos: nat := |t|;
    while pos >= ENTRY_HEADER_SIZE
      invariant pos <= |t|
      invariant WalkTable(t, pos, table) == ParseFooterTable(data)
      decreases pos
    {
      var off := pos - ENTRY_HEADER_SIZE;
      var size := U16At(t, off);
      if size < ENTRY_HEADER_SIZE { return None; }
      if size > pos { return None; }
      table := table[t[off + 2..off + 18] := t[off - (size - ENTRY_HEADER_SIZE)..off]];
      pos := pos - size;
    }
    r := Some(table);
  }

  /** What the other walk, looking for the TDX metadata offset, comes to. A zero-length entry
      stops it from making progress. */
  datatype Search = Found(offset: nat) | NotFound | Malformed | NoProgress

  function FindFrom(fw: Bytes, end: nat, offset: nat): Search
    requires offset <= |fw|
    decreases offset
  {
    if offset <= end then NotFound
    else if offset < ENTRY_HEADER_SIZE then Malformed
    else
      var size := U16At(fw, offset - 18);
      if fw[offset - 16..offset] == TDX_METADATA_OFFSET_GUID then
        if offset < 22 then Malformed else Found(U32At(fw, offset - 22))
      else if size == 0 then NoProgress
      else if size > offset then Malformed
      else FindFrom(fw, end, offset - size)
  }

  function FindTdvfMetadataOffset(fw: Bytes): Search {
    if |fw| < 50 || fw[|fw| - 48..|fw| - 32] != TABLE_FOOTER_GUID then Malformed
    else if |fw| < 32 + U16At(fw, |fw| - 50) then Malformed
    else FindFrom(fw, |fw| - 32 - U16At(fw, |fw| - 50), |fw| - 50)
  }

  /** The loop of the search. It ends unless it meets an entry of length zero. */
  method FindMetadataOffset(fw: Bytes) returns (r: Search)
    ensures r == FindTdvfMetadataOffset(fw)
  {
    hide U16At, U32At;
    if |fw| < 50 || fw[|fw| - 48..|fw| - 32] != TABLE_FOOTER_GUID { return Malformed; }
    var tableLength := U16At(fw, |fw| - 50);
    if |fw| < 32 + tableLength { return Malformed; }
    var endOffset := |fw| - 32 - tableLength;
    var offset: nat := |fw| - 50;
    while endOffset < offset
      invariant offset <= |fw| && FindFrom(fw, endOffset, offset) == FindTdvfMetadataOffset(fw)
      decreases offset
    {
      if offset < ENTRY_HEADER_SIZE { return Malformed; }
      var entryLength := U16At(fw, offset - 18);
      if fw[offset - 16..offset] == TDX_METADATA_OFFSET_GUID {
        return if offset < 22 then Malformed else Found(U32At(fw, offset - 22));
      }
      if entryLength == 0 { return NoProgress; }
      if entryLength > offset { return Malformed; }
      offset := offset - entryLength;
    }
    r := NotFound;
  }

  // ----- tables as firmware builders lay them out -----

  datatype TableEntry = TableEntry(guid: Bytes, data: Bytes)

  ghost predicate EntryFits(e: TableEntry) {
    |e.guid| == 16 && |e.data| + ENTRY_HEADER_SIZE < 0x1_0000
  }

  function EntryImage(e: TableEntry): Bytes {
    e.data + (LE16(|e.data| + ENTRY_HEADER_SIZE) + e.guid)
  }

  function TableImage(es: seq<TableEntry>): Bytes {
    if es == [] then [] else TableImage(es[..|es| - 1]) + EntryImage(es[|es| - 1])
  }

  /** The table with its footer entry, in front of the last 32 bytes. */
  function FirmwareImage(body: Bytes, es: seq<TableEntry>, tail: Bytes): Bytes {
    body + TableImage(es) + LE16(|TableImage(es)| + ENTRY_HEADER_SIZE) + TABLE_FOOTER_GUID + tail
  }

  /** The first entry with a GUID counts. */
  function Recovered(es: seq<TableEntry>, table: map<Bytes, Bytes>): map<Bytes, Bytes> {
    if es == [] then table
    else Recovered(es[..|es| - 1], table[es[|es| - 1].guid := es[|es| - 1].data])
  }

  ghost predicate DistinctGuids(es: seq<TableEntry>) {
    forall i, j :: 0 <= i < j < |es| ==> es[i].guid != es[j].guid
  }

  ghost predicate AllFit(es: seq<TableEntry>) {
    forall i :: 0 <= i < |es| ==> EntryFits(es[i])
  }

  /** Reading an entry off its end. */
  lemma EntryEnds(t: Bytes, n: nat, e: TableEntry)
    requires EntryFits(e) && At(t, n, EntryImage(e))
    ensures var pos := n + |EntryImage(e)|;
            && pos <= |t| && |EntryImage(e)| == |e.data| + ENTRY_HEADER_SIZE
            && U16At(t, pos - 18) == |e.data| + ENTRY_HEADER_SIZE
            && t[pos - 16..pos] == e.guid && t[n..pos - 18] == e.data
  {
    hide LE16, U16At;
    var size := |e.data| + ENTRY_HEADER_SIZE;
    AtSplit(t, n, e.data, LE16(size) + e.guid);
    Take16(t, n + |e.data|, size, e.guid);
  }

  lemma {:induction false} WalkRecovers(t: Bytes, es: seq<TableEntry>, n: nat, table: map<Bytes, Bytes>)
    requires AllFit(es) && At(t, n, TableImage(es)) && n == 0
    ensures |TableImage(es)| <= |t| && WalkTable(t, |TableImage(es)|, table) == Some(Recovered(es, table))
    decreases |es|
  {
    hide EntryImage, U16At, EntryFits;
    if es != [] {
      var init, e := es[..|es| - 1], es[|es| - 1];
      var pos := |TableImage(es)|;
      AtSplit(t, 0, TableImage(init), EntryImage(e));
      EntryEnds(t, |TableImage(init)|, e);
      WalkRecovers(t, init, 0, table[e.guid := e.data]);
      assert t[pos - 18 + 2..pos - 18 + 18] == e.guid;
    }
  }

  /** The table's bytes up to `pos`, off their end: entries, and fewer bytes in front than a
      header has. */
  ghost predicate IsWalk(t: Bytes, pos: nat, left: nat, es: seq<TableEntry>) {
    left < 18 && AllFit(es) && left + |TableImage(es)| == pos && At(t, left, TableImage(es))
  }

  lemma {:induction false} WalkReads(t: Bytes, pos: nat, left: nat, es: seq<TableEntry>, table: map<Bytes, Bytes>)
    requires pos <= |t| && IsWalk(t, pos, left, es)
    ensures WalkTable(t, pos, table) == Some(Recovered(es, table))
    decreases |es|
  {
    hide EntryImage, U16At, EntryFits, At;
    if es != [] {
      var init, e := es[..|es| - 1], es[|es| - 1];
      var n := left + |TableImage(init)|;
      AtSplit(t, left, TableImage(init), EntryImage(e));
      EntryEnds(t, n, e);
      WalkReads(t, n, left, init, table[e.guid := e.data]);
      assert t[pos - 18 + 2..pos - 18 + 18] == e.guid;
    }
  }

  lemma {:induction false} WalkFinds(t: Bytes, pos: nat, table: map<Bytes, Bytes>)
    returns (left: nat, es: seq<TableEntry>)
    requires pos <= |t| && WalkTable(t, pos, table).Some?
    ensures IsWalk(t, pos, left, es)
    decreases pos
  {
    hide U16At, EntryImage, Recovered;
    left, es := pos, [];
    if pos >= 18 {
      var off, size := pos - 18, U16At(t, pos - 18);
      var e := TableEntry(t[off + 2..off + 18], t[pos - size..off]);
      var init;
      left, init := WalkFinds(t, pos - size, table[e.guid := e.data]);
      es := init + [e];
      EntryIs(t, pos, size);
      AtJoin(t, left, TableImage(init), EntryImage(e));
      assert es[..|es| - 1] == init;
    }
  }

  lemma EntryIs(t: Bytes, pos: nat, size: nat)
    requires 18 <= size <= pos <= |t| && size == U16At(t, pos - 18)
    ensures var e := TableEntry(t[pos - 16..pos], t[pos - size..pos - 18]);
            EntryFits(e) && |EntryImage(e)| == size && At(t, pos - size, EntryImage(e))
  {
    hide LE16, U16At;
    var e := TableEntry(t[pos - 16..pos], t[pos - size..pos - 18]);
    At16(t, pos - 18);
    AtJoin(t, pos - 18, LE16(size), e.guid);
    AtJoin(t, pos - size, e.data, LE16(size) + e.guid);
  }

  /** The table in front of the footer, and what it gives. */
  ghost predicate HoldsTable(data: Bytes, left: nat, es: seq<TableEntry>, r: map<Bytes, Bytes>)
    requires |data| >= 50 && 18 <= U16At(data, |data| - 50) <= |data| - 32
  {
    var end := |data| - 50;
    var size := U16At(data, end) - 18;
    IsWalk(data[end - size..end], size, left, es) && r == Recovered(es, map[])
  }

  /** The footer: absent, or with a table that sticks out of the file, there are no entries. Else
      the table is read if and only if it is entries and fewer than 18 bytes in front of them. */
  lemma FooterExactly(data: Bytes, r: map<Bytes, Bytes>)
    ensures ParseFooterTable(data) == Some(r) <==>
            if |data| < 50 || data[|data| - 48..|data| - 32] != TABLE_FOOTER_GUID then r == map[]
            else
              && U16At(data, |data| - 50) >= 18
              && if U16At(data, |data| - 50) > |data| - 32 then r == map[]
                 else exists left: nat, es :: HoldsTable(data, left, es, r)
  {
    hide U16At, WalkTable, IsWalk, TABLE_FOOTER_GUID, Recovered;
    if |data| >= 50 && data[|data| - 48..|data| - 32] == TABLE_FOOTER_GUID {
      var size, end := U16At(data, |data| - 50) - 18, |data| - 50;
      if 0 <= size <= end {
        var t := data[end - size..end];
        if WalkTable(t, size, map[]) == Some(r) {
          var left, es := WalkFinds(t, size, map[]);
          WalkReads(t, size, left, es, map[]);
          assert HoldsTable(data, left, es, r);
        }
        forall left: nat, es | HoldsTable(data, left, es, r) ensures WalkTable(t, size, map[]) == Some(r) {
          WalkReads(t, size, left, es, map[]);
        }
      }
    }
  }

  lemma {:induction false} RecoveredMap(es: seq<TableEntry>, table: map<Bytes, Bytes>)
    requires DistinctGuids(es)
    ensures forall i :: 0 <= i < |es| ==>
      es[i].guid in Recovered(es, table) && Recovered(es, table)[es[i].guid] == es[i].data
    ensures forall g :: g in Recovered(es, table) <==> g in table || exists i :: 0 <= i < |es| && es[i].guid == g
    ensures forall g :: g in table && (forall i :: 0 <= i < |es| ==> es[i].guid != g) ==>
        Recovered(es, table)[g] == table[g]
    decreases |es|
  {
    if es != [] {
      var init, e := es[..|es| - 1], es[|es| - 1];
      RecoveredMap(init, table[e.guid := e.data]);
      assert Recovered(es, table) == Recovered(init, table[e.guid := e.data]);
      assert forall i :: 0 <= i < |init| ==> init[i] == es[i];
      forall g ensures g in Recovered(es, table) <==> g in table || exists i :: 0 <= i < |es| && es[i].guid == g {
        if g == e.guid { assert es[|es| - 1].guid == g; }
      }
    }
  }

  /** The last four data bytes of the TDX entry, as the search reads them. */
  function LastFour(e: TableEntry): nat
    requires |e.data| >= 4
  {
    U32At(e.data, |e.data| - 4)
  }

  lemma LastFourAt(t: Bytes, n: nat, e: TableEntry)
    requires |e.data| >= 4 && At(t, n, e.data)
    ensures U32At(t, n + |e.data| - 4) == LastFour(e)
  {
    var w, d := t[n..n + |e.data|], |e.data| - 4;
    assert w == e.data;
    assert w[d] == t[n + d] && w[d + 1] == t[n + d + 1] && w[d + 2] == t[n + d + 2] && w[d + 3] == t[n + d + 3];
  }

  lemma {:induction false} SearchFinds(fw: Bytes, end: nat, es: seq<TableEntry>, i: nat)
    requires AllFit(es) && At(fw, end, TableImage(es)) && i < |es| && |es[i].data| >= 4
    requires es[i].guid == TDX_METADATA_OFFSET_GUID
    requires forall j :: i < j < |es| ==> es[j].guid != TDX_METADATA_OFFSET_GUID
    ensures FindFrom(fw, end, end + |TableImage(es)|) == Found(LastFour(es[i]))
    decreases |es|
  {
    hide EntryImage, U16At, U32At, EntryFits, LastFour, At, TDX_METADATA_OFFSET_GUID;
    var init, e := es[..|es| - 1], es[|es| - 1];
    AtSplit(fw, end, TableImage(init), EntryImage(e));
    EntryEnds(fw, end + |TableImage(init)|, e);
    if i == |es| - 1 {
      DataAt(fw, end + |TableImage(init)|, e);
      LastFourAt(fw, end + |TableImage(init)|, e);
    } else {
      SearchFinds(fw, end, init, i);
    }
  }

  lemma DataAt(t: Bytes, n: nat, e: TableEntry)
    requires At(t, n, EntryImage(e))
    ensures At(t, n, e.data)
  {
    hide LE16;
    AtSplit(t, n, e.data, LE16(|e.data| + ENTRY_HEADER_SIZE) + e.guid);
  }

  lemma {:induction false} SearchMisses(fw: Bytes, end: nat, es: seq<TableEntry>)
    requires AllFit(es) && At(fw, end, TableImage(es))
    requires forall j :: 0 <= j < |es| ==> es[j].guid != TDX_METADATA_OFFSET_GUID
    ensures FindFrom(fw, end, end + |TableImage(es)|) == NotFound
    decreases |es|
  {
    hide EntryImage, U16At, U32At, EntryFits, At, TDX_METADATA_OFFSET_GUID;
    if es != [] {
      var init, e := es[..|es| - 1], es[|es| - 1];
      AtSplit(fw, end, TableImage(init), EntryImage(e));
      EntryEnds(fw, end + |TableImage(init)|, e);
      SearchMisses(fw, end, init);
    }
  }

  /** Where the parts of a firmware image lie. */
  lemma FirmwareParts(body: Bytes, es: seq<TableEntry>, tail: Bytes)
    requires |TableImage(es)| + ENTRY_HEADER_SIZE < 0x1_0000 && |tail| == 32
    ensures var fw, n := FirmwareImage(body, es, tail), |TableImage(es)|;
            && |fw| == |body| + n + 50
            && At(fw, |body|, TableImage(es)) && fw[|body|..|body| + n] == TableImage(es)
            && U16At(fw, |fw| - 50) == n + ENTRY_HEADER_SIZE
            && fw[|fw| - 48..|fw| - 32] == TABLE_FOOTER_GUID
  {
    hide LE16, U16At, TableImage;
    var fw, t, g := FirmwareImage(body, es, tail), TableImage(es), TABLE_FOOTER_GUID;
    var l := LE16(|t| + ENTRY_HEADER_SIZE);
    assert fw == body + (t + (l + (g + tail)));
    AtPushed(body, t + (l + (g + tail)));
    AtSplit(fw, |body|, t, l + (g + tail));
    Take16(fw, |body + t|, |t| + ENTRY_HEADER_SIZE, g + tail);
    AtSplit(fw, |body + t| + 2, g, tail);
  }

  /** The footer parser recovers a table: its GUIDs, each with its data. */
  lemma FooterRecovers(body: Bytes, es: seq<TableEntry>, tail: Bytes)
    requires AllFit(es) && |TableImage(es)| + ENTRY_HEADER_SIZE < 0x1_0000 && |tail| == 32
    ensures ParseFooterTable(FirmwareImage(body, es, tail)) == Some(Recovered(es, map[]))
  {
    hide TableImage, U16At, WalkTable, FirmwareImage;
    var fw, t := FirmwareImage(body, es, tail), TableImage(es);
    FirmwareParts(body, es, tail);
    assert fw[|body| + |t| + 2..|body| + |t| + 18] == TABLE_FOOTER_GUID;
    AtPushed([], t);
    assert [] + t == t;
    WalkRecovers(t, es, 0, map[]);
  }

  /** With distinct GUIDs the two parsers agree: the offset the search returns is the end of
      the data that the other finds under the TDX entry's GUID. */
  lemma ParsersAgree(body: Bytes, es: seq<TableEntry>, tail: Bytes)
    requires AllFit(es) && |TableImage(es)| + ENTRY_HEADER_SIZE < 0x1_0000 && |tail| == 32 && DistinctGuids(es)
    requires forall i :: 0 <= i < |es| && es[i].guid == TDX_METADATA_OFFSET_GUID ==> |es[i].data| >= 4
    ensures var fw := FirmwareImage(body, es, tail);
            var table := ParseFooterTable(fw);
            && table.Some?
            && (forall i :: 0 <= i < |es| ==> es[i].guid in table.value && table.value[es[i].guid] == es[i].data)
            && (forall g :: g in table.value ==> exists i :: 0 <= i < |es| && es[i].guid == g)
            && FindTdvfMetadataOffset(fw) ==
               if TDX_METADATA_OFFSET_GUID in table.value && |table.value[TDX_METADATA_OFFSET_GUID]| >= 4
               then var d := table.value[TDX_METADATA_OFFSET_GUID]; Found(U32At(d, |d| - 4))
               else NotFound
  {
    hide TableImage, U16At, U32At, FirmwareImage, ParseFooterTable, FindTdvfMetadataOffset, Recovered, FindFrom;
    hide EntryFits, TDX_METADATA_OFFSET_GUID;
    var fw := FirmwareImage(body, es, tail);
    SearchStarts(body, es, tail);
    FooterRecovers(body, es, tail);
    RecoveredMap(es, map[]);
    if i: nat :| i < |es| && es[i].guid == TDX_METADATA_OFFSET_GUID {
      SearchFinds(fw, |body|, es, i);
    } else {
      SearchMisses(fw, |body|, es);
    }
  }

  /** The search starts above the table's last entry and ends at its first. */
  lemma SearchStarts(body: Bytes, es: seq<TableEntry>, tail: Bytes)
    requires |TableImage(es)| + ENTRY_HEADER_SIZE < 0x1_0000 && |tail| == 32
    ensures var fw := FirmwareImage(body, es, tail);
            && |body| + |TableImage(es)| <= |fw| && At(fw, |body|, TableImage(es))
            && FindTdvfMetadataOffset(fw) == FindFrom(fw, |body|, |body| + |TableImage(es)|)
  {
    hide TableImage, U16At, FirmwareImage, FindFrom;
    FirmwareParts(body, es, tail);
  }

  // ----- exactly when the two parsers agree -----

  /** The index of the first entry with a GUID, and of the last; the number of entries if there
      is none. */
  function FirstOf(es: seq<TableEntry>, guid: Bytes): (i: nat)
    ensures i <= |es| && (i < |es| ==> es[i].guid == guid) && forall k :: 0 <= k < i ==> es[k].guid != guid
  {
    if es == [] then 0
    else
      var i := FirstOf(es[..|es| - 1], guid);
      if i < |es| - 1 || es[|es| - 1].guid == guid then i else |es|
  }

  function LastOf(es: seq<TableEntry>, guid: Bytes): (i: nat)
    ensures i <= |es| && (i < |es| ==> es[i].guid == guid && forall k :: i < k < |es| ==> es[k].guid != guid)
    ensures i == |es| ==> forall k :: 0 <= k < |es| ==> es[k].guid != guid
  {
    if es == [] then 0
    else if es[|es| - 1].guid == guid then |es| - 1
    else
      var i := LastOf(es[..|es| - 1], guid);
      if i == |es| - 1 then |es| else i
  }

  lemma {:induction false} RecoveredKeeps(es: seq<TableEntry>, table: map<Bytes, Bytes>, guid: Bytes)
    requires forall k :: 0 <= k < |es| ==> es[k].guid != guid
    ensures guid in Recovered(es, table) <==> guid in table
    ensures guid in table ==> Recovered(es, table)[guid] == table[guid]
    decreases |es|
  {
    if es != [] {
      RecoveredKeeps(es[..|es| - 1], table[es[|es| - 1].guid := es[|es| - 1].data], guid);
    }
  }

  lemma {:induction false} RecoveredFirst(es: seq<TableEntry>, table: map<Bytes, Bytes>, guid: Bytes)
    requires FirstOf(es, guid) < |es|
    ensures guid in Recovered(es, table) && Recovered(es, table)[guid] == es[FirstOf(es, guid)].data
    decreases |es|
  {
    var n := |es| - 1;
    var next := table[es[n].guid := es[n].data];
    if FirstOf(es[..n], guid) < n {
      RecoveredFirst(es[..n], next, guid);
    } else {
      RecoveredKeeps(es[..n], next, guid);
    }
  }

  /** Both parsers find no TDX entry, or the search returns the end of the data that the table
      has under the TDX entry's GUID. */
  ghost predicate Agree(fw: Bytes) {
    var table := ParseFooterTable(fw);
    && table.Some?
    && FindTdvfMetadataOffset(fw) ==
       if TDX_METADATA_OFFSET_GUID !in table.value then NotFound
       else
         var d := table.value[TDX_METADATA_OFFSET_GUID];
         if |d| < 4 then Malformed else Found(U32At(d, |d| - 4))
  }

  /** The two parsers agree on a table if and only if it has no TDX entry, or its first and its
      last one end in the same offset: the one parser keeps the first, the other takes the last. */
  lemma AgreeExactly(body: Bytes, es: seq<TableEntry>, tail: Bytes)
    requires AllFit(es) && |TableImage(es)| + ENTRY_HEADER_SIZE < 0x1_0000 && |tail| == 32
    requires FirstOf(es, TDX_METADATA_OFFSET_GUID) < |es| ==>
      |es[FirstOf(es, TDX_METADATA_OFFSET_GUID)].data| >= 4 && |es[LastOf(es, TDX_METADATA_OFFSET_GUID)].data| >= 4
    ensures var i, j := FirstOf(es, TDX_METADATA_OFFSET_GUID), LastOf(es, TDX_METADATA_OFFSET_GUID);
            Agree(FirmwareImage(body, es, tail)) <==> i == |es| || LastFour(es[i]) == LastFour(es[j])
  {
    hide TableImage, U16At, U32At, FirmwareImage, ParseFooterTable, FindTdvfMetadataOffset, Recovered;
    hide FindFrom, EntryFits;
    hide TDX_METADATA_OFFSET_GUID, FirstOf, LastOf;
    var fw := FirmwareImage(body, es, tail);
    SearchStarts(body, es, tail);
    FooterRecovers(body, es, tail);
    var i, j := FirstOf(es, TDX_METADATA_OFFSET_GUID), LastOf(es, TDX_METADATA_OFFSET_GUID);
    if i == |es| {
      RecoveredKeeps(es, map[], TDX_METADATA_OFFSET_GUID);
      SearchMisses(fw, |body|, es);
    } else {
      RecoveredFirst(es, map[], TDX_METADATA_OFFSET_GUID);
      SearchFinds(fw, |body|, es, j);
    }
  }

  /** An instance where they do not. */
  lemma RepeatedGuidsDisagree(a: Bytes, b: Bytes)
    requires |a| == 4 == |b| && U32At(a, 0) != U32At(b, 0)
    ensures !Agree(FirmwareImage([], [TableEntry(TDX_METADATA_OFFSET_GUID, a), TableEntry(TDX_METADATA_OFFSET_GUID, b)],
                                 Zeros(32)))
  {
    hide TableImage, FirmwareImage, U32At, AllFit, Agree;
    var es := [TableEntry(TDX_METADATA_OFFSET_GUID, a), TableEntry(TDX_METADATA_OFFSET_GUID, b)];
    TwoEntries(es);
    FirstAndLast(es, TDX_METADATA_OFFSET_GUID);
    AgreeExactly([], es, Zeros(32));
  }

  lemma FirstAndLast(es: seq<TableEntry>, guid: Bytes)
    requires |es| == 2 && es[0].guid == guid == es[1].guid
    ensures FirstOf(es, guid) == 0 && LastOf(es, guid) == 1
  {
  }

  lemma TwoEntries(es: seq<TableEntry>)
    requires |es| == 2 && forall i :: 0 <= i < 2 ==> |es[i].guid| == 16 && |es[i].data| == 4
    ensures AllFit(es) && |TableImage(es)| == 44
  {
    hide LE16;
    assert es[..1][..0] == [];
    assert |TableImage(es[..1])| == 22;
  }

  // ----- exactly when the search does not end -----

  /** The search as the code runs it, one pass of its loop at a time. */
  datatype Loop = Running(offset: nat) | Done(result: Search)

  function Pass(fw: Bytes, end: nat, s: Loop): Loop {
    match s
    case Done(_) => s
    case Running(o) =>
      if o <= end then Done(NotFound)
      else if o < ENTRY_HEADER_SIZE || o > |fw| then Done(Malformed)
      else
        var size := U16At(fw, o - 18);
        if fw[o - 16..o] == TDX_METADATA_OFFSET_GUID then
          Done(if o < 22 then Malformed else Found(U32At(fw, o - 22)))
        else if size > o then Done(Malformed)
        else Running(o - size)
  }

  function Passes(fw: Bytes, end: nat, s: Loop, n: nat): Loop
    decreases n
  {
    if n == 0 then s else Passes(fw, end, Pass(fw, end, s), n - 1)
  }

  /** A zero-length header, not the TDX entry's, above the end of the table. */
  predicate Stuck(fw: Bytes, end: nat, o: nat) {
    end < o && ENTRY_HEADER_SIZE <= o <= |fw| && fw[o - 16..o] != TDX_METADATA_OFFSET_GUID && U16At(fw, o - 18) == 0
  }

  /** A pass at a zero-length header changes nothing, and so do all later ones. */
  lemma {:induction false} StuckForever(fw: Bytes, end: nat, o: nat, n: nat)
    requires Stuck(fw, end, o)
    ensures Passes(fw, end, Running(o), n) == Running(o)
    decreases n
  {
    if n > 0 { StuckForever(fw, end, o, n - 1); }
  }

  /** The code's loop runs for ever exactly where the model says `NoProgress`; everywhere else
      it ends with the model's result. */
  lemma {:induction false} LoopEnds(fw: Bytes, end: nat, o: nat) returns (n: nat)
    requires o <= |fw|
    ensures FindFrom(fw, end, o) == NoProgress ==>
      Passes(fw, end, Running(o), n).Running? && Stuck(fw, end, Passes(fw, end, Running(o), n).offset)
    ensures FindFrom(fw, end, o) != NoProgress ==> Passes(fw, end, Running(o), n) == Done(FindFrom(fw, end, o))
    decreases o
  {
    hide U16At, U32At, TDX_METADATA_OFFSET_GUID;
    n := 0;
    var next := Pass(fw, end, Running(o));
    if next.Running? && next.offset < o {
      var m := LoopEnds(fw, end, next.offset);
      n := m + 1;
    } else if next.Done? {
      n := 1;
      assert Passes(fw, end, Running(o), 1) == Passes(fw, end, next, 0);
    }
  }

  lemma {:induction false} PassesAdd(fw: Bytes, end: nat, s: Loop, m: nat, n: nat)
    ensures Passes(fw, end, s, m + n) == Passes(fw, end, Passes(fw, end, s, m), n)
    decreases m
  {
    hide Pass;
    if m > 0 { PassesAdd(fw, end, Pass(fw, end, s), m - 1, n); }
  }

  lemma {:induction false} DoneStays(fw: Bytes, end: nat, r: Search, n: nat)
    ensures Passes(fw, end, Done(r), n) == Done(r)
    decreases n
  {
    if n > 0 { DoneStays(fw, end, r, n - 1); }
  }

  lemma NeverEnds(fw: Bytes, end: nat, o: nat)
    requires o <= |fw|
    ensures FindFrom(fw, end, o) == NoProgress <==> forall n: nat :: Passes(fw, end, Running(o), n).Running?
  {
    hide FindFrom, Passes, Pass, Stuck;
    var m := LoopEnds(fw, end, o);
    if FindFrom(fw, end, o) == NoProgress {
      var at := Passes(fw, end, Running(o), m).offset;
      forall n: nat ensures Passes(fw, end, Running(o), n).Running? {
        if n >= m {
          PassesAdd(fw, end, Running(o), m, n - m);
          StuckForever(fw, end, at, n - m);
        } else {
          PassesAdd(fw, end, Running(o), n, m - n);
          if Passes(fw, end, Running(o), n).Done? {
            DoneStays(fw, end, Passes(fw, end, Running(o), n).result, m - n);
          }
        }
      }
    }
  }

  /** Headers passed one after another: each non-zero in length, none the TDX entry's. */
  ghost predicate Descent(fw: Bytes, end: nat, path: seq<nat>) {
    && path != []
    && forall k :: 0 < k < |path| ==> Descends(fw, end, path[k - 1], path[k])
  }

  ghost predicate Descends(fw: Bytes, end: nat, o: nat, next: nat) {
    && end < o && ENTRY_HEADER_SIZE <= o <= |fw| && fw[o - 16..o] != TDX_METADATA_OFFSET_GUID
    && 0 < U16At(fw, o - 18) <= o && next == o - U16At(fw, o - 18)
  }

  /** What the search comes to at `o`, if it goes no further. */
  ghost predicate Lands(fw: Bytes, end: nat, o: nat, r: Search) {
    o <= |fw| &&
    match r
    case NotFound => o <= end
    case Found(offset) =>
      end < o && 22 <= o && fw[o - 16..o] == TDX_METADATA_OFFSET_GUID && offset == U32At(fw, o - 22)
    case Malformed =>
      && end < o
      && (o < 18 || (if fw[o - 16..o] == TDX_METADATA_OFFSET_GUID then o < 22 else U16At(fw, o - 18) > o))
    case NoProgress => Stuck(fw, end, o)
  }

  lemma {:induction false} DescentFrom(fw: Bytes, end: nat, path: seq<nat>, r: Search)
    requires Descent(fw, end, path) && path[0] <= |fw| && Lands(fw, end, path[|path| - 1], r)
    ensures FindFrom(fw, end, path[0]) == r
    decreases |path|
  {
    hide U16At, U32At, TDX_METADATA_OFFSET_GUID;
    if |path| > 1 {
      assert Descends(fw, end, path[0], path[1]);
      forall k | 0 < k < |path[1..]| ensures Descends(fw, end, path[1..][k - 1], path[1..][k]) {
        var l := k + 1;
        assert Descends(fw, end, path[l - 1], path[l]);
      }
      DescentFrom(fw, end, path[1..], r);
    }
  }

  lemma {:induction false} DescentTo(fw: Bytes, end: nat, o: nat) returns (path: seq<nat>)
    requires o <= |fw|
    ensures Descent(fw, end, path) && path[0] == o && Lands(fw, end, path[|path| - 1], FindFrom(fw, end, o))
    decreases o
  {
    hide U16At, U32At, TDX_METADATA_OFFSET_GUID;
    path := [o];
    if end < o && 18 <= o && fw[o - 16..o] != TDX_METADATA_OFFSET_GUID && 0 < U16At(fw, o - 18) <= o {
      var rest := DescentTo(fw, end, o - U16At(fw, o - 18));
      path := [o] + rest;
      forall k | 0 < k < |path| ensures Descends(fw, end, path[k - 1], path[k]) {
        if k > 1 { assert Descends(fw, end, rest[k - 2], rest[k - 1]); }
      }
    }
  }

  /** The search comes to a result if and only if a run of non-TDX entries leads down to where it
      has that result: the end of the table, the TDX entry, a malformed or a zero-length header. */
  lemma SearchExactly(fw: Bytes, end: nat, o: nat, r: Search)
    requires o <= |fw|
    ensures FindFrom(fw, end, o) == r <==>
            exists path :: Descent(fw, end, path) && path[0] == o && Lands(fw, end, path[|path| - 1], r)
  {
    hide FindFrom, Descends, Lands;
    if FindFrom(fw, end, o) == r {
      var path := DescentTo(fw, end, o);
    }
    if path :| Descent(fw, end, path) && path[0] == o && Lands(fw, end, path[|path| - 1], r) {
      DescentFrom(fw, end, path, r);
    }
  }

  /** The search does not end if and only if the firmware has the footer and, above the end of
      its table, a zero-length header that a run of non-TDX entries leads down to. */
  lemma NoProgressExactly(fw: Bytes)
    ensures FindTdvfMetadataOffset(fw) == NoProgress <==>
            && |fw| >= 50 && fw[|fw| - 48..|fw| - 32] == TABLE_FOOTER_GUID && 32 + U16At(fw, |fw| - 50) <= |fw|
            && var end := |fw| - 32 - U16At(fw, |fw| - 50);
            exists path :: Descent(fw, end, path) && path[0] == |fw| - 50 && Stuck(fw, end, path[|path| - 1])
  {
    hide U16At, FindFrom, Descends, Stuck, TABLE_FOOTER_GUID;
    if |fw| >= 50 && fw[|fw| - 48..|fw| - 32] == TABLE_FOOTER_GUID && 32 + U16At(fw, |fw| - 50) <= |fw| {
      var end := |fw| - 32 - U16At(fw, |fw| - 50);
      SearchExactly(fw, end, |fw| - 50, NoProgress);
      StuckBelow(fw, end);
    }
  }

  lemma StuckBelow(fw: Bytes, end: nat)
    ensures forall path :: Descent(fw, end, path) && path[0] <= |fw| && Stuck(fw, end, path[|path| - 1]) ==>
              path[|path| - 1] <= |fw|
  {
    hide U16At, TDX_METADATA_OFFSET_GUID;
  }

  /** An instance: a table of one zero-length entry. */
  lemma ZeroLengthEntry(guid: Bytes)
    requires |guid| == 16 && guid != TDX_METADATA_OFFSET_GUID
    ensures FindTdvfMetadataOffset(LE16(0) + guid + LE16(36) + TABLE_FOOTER_GUID + Zeros(32)) == NoProgress
  {
    hide LE16, U16At, TDX_METADATA_OFFSET_GUID, TABLE_FOOTER_GUID;
    FooterGuidSize();
    var fw := LE16(0) + guid + LE16(36) + TABLE_FOOTER_GUID + Zeros(32);
    var rest := LE16(36) + (TABLE_FOOTER_GUID + Zeros(32));
    assert fw == LE16(0) + (guid + rest);
    AtPushed([], fw);
    assert [] + fw == fw;
    Take16(fw, 0, 0, guid + rest);
    AtSplit(fw, 2, guid, rest);
    Take16(fw, 18, 36, TABLE_FOOTER_GUID + Zeros(32));
    AtSplit(fw, 20, TABLE_FOOTER_GUID, Zeros(32));
  }

  lemma FooterGuidSize()
    ensures |TABLE_FOOTER_GUID| == 16
  {
  }

  // ----- SEV sections -----

  datatype SectionType = SnpSecMem | SnpSecrets | Cpuid | SvsmCaa | SnpKernelHashes

  function SectionTypeOf(v: nat): Option<SectionType> {
    if v == 1 then Some(SnpSecMem)
    else if v == 2 then Some(SnpSecrets)
    else if v == 3 then Some(Cpuid)
    else if v == 4 then Some(SvsmCaa)
    else if v == 0x10 then Some(SnpKernelHashes)
    else None
  }

  datatype MetadataSection = MetadataSection(gpa: nat, size: nat, sectionType: SectionType)

  datatype Ovmf = Ovmf(data: Bytes, table: map<Bytes, Bytes>, metadata: seq<MetadataSection>, gpa: nat)

  /** Items from the `i`-th on, as many as are announced and as the header's size covers. */
  function ParseItems(data: Bytes, start: nat, headerSize: nat, num: nat, i: nat): Option<seq<MetadataSection>>
    requires i <= num
    decreases num - i
  {
    var off := start + 16 + i * 12;
    if i == num || off + 12 > start + headerSize then Some([])
    else if off + 12 > |data| then None
    else
      match SectionTypeOf(U32At(data, off + 8))
      case None => None
      case Some(st) =>
        Prepend([MetadataSection(U32At(data, off), U32At(data, off + 4), st)],
                ParseItems(data, start, headerSize, num, i + 1))
  }

  function ParseSevMetadata(data: Bytes, table: map<Bytes, Bytes>): Option<seq<MetadataSection>> {
    if SEV_METADATA_GUID !in table then Some([])
    else
      var entry := table[SEV_METADATA_GUID];
      if |entry| < 4 || U32At(entry, 0) > |data| then None
      else
        var start := |data| - U32At(entry, 0);
        if start + 16 > |data| || data[start..start + 4] != ASEV || U32At(data, start + 8) != 1 then None
        else ParseItems(data, start, U32At(data, start + 4), U32At(data, start + 12), 0)
  }

  function OvmfOf(data: Bytes): Option<Ovmf> {
    if |data| > FOUR_GB then None
    else
      match ParseFooterTable(data)
      case None => None
      case Some(table) =>
        match ParseSevMetadata(data, table)
        case None => None
        case Some(metadata) => Some(Ovmf(data, table, metadata, FOUR_GB - |data|))
  }

  method ParseMetadata(data: Bytes, table: map<Bytes, Bytes>) returns (r: Option<seq<MetadataSection>>)
    ensures r == ParseSevMetadata(data, table)
  {
    hide U32At, Prepend, SectionTypeOf;
    if SEV_METADATA_GUID !in table { return Some([]); }
    var entry := table[SEV_METADATA_GUID];
    if |entry| < 4 || U32At(entry, 0) > |data| { return None; }
    var start := |data| - U32At(entry, 0);
    if start + 16 > |data| { return None; }
    if data[start..start + 4] != ASEV { return None; }
    var headerSize := U32At(data, start + 4);
    if U32At(data, start + 8) != 1 { return None; }
    var numItems := U32At(data, start + 12);
    var metadata: seq<MetadataSection> := [];
    ghost var whole := ParseItems(data, start, headerSize, numItems, 0);
    PrependMore<MetadataSection>([], [], whole);
    var i := 0;
    while i < numItems
      invariant 0 <= i <= numItems
      invariant whole == Prepend(metadata, ParseItems(data, start, headerSize, numItems, i))
    {
      var off := start + 16 + i * 12;
      PrependSome(metadata, []);
      if off + 12 > start + headerSize { return Some(metadata); }
      if off + 12 > |data| { return None; }
      var sectionType := SectionTypeOf(U32At(data, off + 8));
      if sectionType.None? { return None; }
      var item := MetadataSection(U32At(data, off), U32At(data, off + 4), sectionType.value);
      PrependMore(metadata, [item], ParseItems(data, start, headerSize, numItems, i + 1));
      metadata := metadata + [item];
      i := i + 1;
    }
    PrependSome(metadata, []);
    r := Some(metadata);
  }

  method LoadOvmf(data: Bytes) returns (r: Option<Ovmf>)
    ensures r == OvmfOf(data)
  {
    hide ParseFooterTable, ParseSevMetadata;
    if |data| > FOUR_GB { return None; }
    var table := ParseFooter(data);
    if table.None? { return None; }
    var metadata := ParseMetadata(data, table.value);
    if metadata.None? { return None; }
    r := Some(Ovmf(data, table.value, metadata.value, FOUR_GB - |data|));
  }

  // ----- what a section list is -----

  function TypeCode(st: SectionType): (v: nat)
    ensures v < 0x1_0000_0000 && SectionTypeOf(v) == Some(st)
  {
    match st
    case SnpSecMem => 1
    case SnpSecrets => 2
    case Cpuid => 3
    case SvsmCaa => 4
    case SnpKernelHashes => 0x10
  }

  function ItemImage(d: MetadataSection): (s: Bytes)
    ensures |s| == 12
  {
    LE32(d.gpa) + (LE32(d.size) + (LE32(TypeCode(d.sectionType)) + []))
  }

  function ItemsImage(ds: seq<MetadataSection>): (s: Bytes)
    ensures |s| == 12 * |ds|
  {
    if ds == [] then [] else ItemImage(ds[0]) + ItemsImage(ds[1..])
  }

  ghost predicate ItemFits(d: MetadataSection) {
    d.gpa < 0x1_0000_0000 && d.size < 0x1_0000_0000
  }

  ghost predicate ItemsFit(ds: seq<MetadataSection>) {
    forall k :: 0 <= k < |ds| ==> ItemFits(ds[k])
  }

  /** As many items as are announced, or as the header's size covers if those are fewer. */
  function Covered(headerSize: nat, num: nat): nat {
    Min(num, if headerSize < 16 then 0 else (headerSize - 16) / 12)
  }

  /** One item read is one item laid out. */
  lemma ItemExactly(data: Bytes, n: nat, d: MetadataSection)
    requires n + 12 <= |data|
    ensures (&& SectionTypeOf(U32At(data, n + 8)) == Some(d.sectionType)
             && U32At(data, n) == d.gpa && U32At(data, n + 4) == d.size)
            <==> At(data, n, ItemImage(d)) && ItemFits(d)
  {
    hide LE32, U32At;
    At32(data, n);
    At32(data, n + 4);
    At32(data, n + 8);
    var st := SectionTypeOf(U32At(data, n + 8));
    if st == Some(d.sectionType) && U32At(data, n) == d.gpa && U32At(data, n + 4) == d.size {
      hide At;
      CodeOf(U32At(data, n + 8));
      assert LE32(TypeCode(d.sectionType)) + [] == LE32(TypeCode(d.sectionType));
      AtJoin(data, n + 4, LE32(d.size), LE32(TypeCode(d.sectionType)));
      AtJoin(data, n, LE32(d.gpa), LE32(d.size) + LE32(TypeCode(d.sectionType)));
    }
    if At(data, n, ItemImage(d)) && ItemFits(d) {
      var r2 := LE32(TypeCode(d.sectionType)) + [];
      Take32(data, n, d.gpa, LE32(d.size) + r2);
      Take32(data, n + 4, d.size, r2);
      Take32(data, n + 8, TypeCode(d.sectionType), []);
    }
  }

  lemma CodeOf(v: nat)
    ensures SectionTypeOf(v).Some? ==> TypeCode(SectionTypeOf(v).value) == v
  {
  }

  lemma {:induction false} ItemsExactly(data: Bytes, start: nat, headerSize: nat, num: nat, i: nat,
                                        ds: seq<MetadataSection>)
    requires i <= Covered(headerSize, num) && start + 16 + 12 * i <= |data|
    ensures ParseItems(data, start, headerSize, num, i) == Some(ds) <==>
            |ds| == Covered(headerSize, num) - i && At(data, start + 16 + 12 * i, ItemsImage(ds)) && ItemsFit(ds)
    decreases num - i
  {
    hide U32At, ItemImage, SectionTypeOf, ItemFits, Prepend;
    var n, count := start + 16 + 12 * i, Covered(headerSize, num);
    CoveredTest(start, headerSize, num, i);
    if i == count {
      assert ds == [] ==> At(data, n, []);
    } else if n + 12 > |data| {
    } else if ds == [] {
      PrependSome<MetadataSection>([], []);
      NoItems(data, start, headerSize, num, i);
    } else {
      var d, t := ds[0], ds[1..];
      ItemExactly(data, n, d);
      ItemsExactly(data, start, headerSize, num, i + 1, t);
      ItemsSplit(data, n, d, t);
      FitSplit(ds);
      FirstItem(data, start, headerSize, num, i, ds);
    }
  }

  lemma CoveredTest(start: nat, headerSize: nat, num: nat, i: nat)
    requires i <= Covered(headerSize, num)
    ensures i == Covered(headerSize, num) <==> i == num || start + 16 + i * 12 + 12 > start + headerSize
  {
  }

  lemma NoItems(data: Bytes, start: nat, headerSize: nat, num: nat, i: nat)
    requires i < num && start + 16 + i * 12 + 12 <= start + headerSize
    ensures ParseItems(data, start, headerSize, num, i) != Some([])
  {
    hide U32At, SectionTypeOf;
  }

  /** A list read begins with the item at hand and goes on with the list after it. */
  lemma FirstItem(data: Bytes, start: nat, headerSize: nat, num: nat, i: nat, ds: seq<MetadataSection>)
    requires i < num && ds != []
    requires var off := start + 16 + i * 12; off + 12 <= start + headerSize && off + 12 <= |data|
    ensures var off := start + 16 + i * 12;
            ParseItems(data, start, headerSize, num, i) == Some(ds) <==>
            && SectionTypeOf(U32At(data, off + 8)) == Some(ds[0].sectionType)
            && U32At(data, off) == ds[0].gpa && U32At(data, off + 4) == ds[0].size
            && ParseItems(data, start, headerSize, num, i + 1) == Some(ds[1..])
  {
    hide U32At, SectionTypeOf;
    assert ds == [ds[0]] + ds[1..];
    var r := ParseItems(data, start, headerSize, num, i);
    if r.Some? { assert r.value[1..] == ParseItems(data, start, headerSize, num, i + 1).value; }
  }

  lemma ItemsSplit(data: Bytes, n: nat, d: MetadataSection, t: seq<MetadataSection>)
    ensures At(data, n, ItemImage(d) + ItemsImage(t)) <==> At(data, n, ItemImage(d)) && At(data, n + 12, ItemsImage(t))
  {
    hide ItemImage, ItemsImage, At;
    AtParts(data, n, ItemImage(d), ItemsImage(t));
  }

  lemma FitSplit(ds: seq<MetadataSection>)
    requires ds != []
    ensures ItemsFit(ds) <==> ItemFits(ds[0]) && ItemsFit(ds[1..])
  {
    hide ItemFits;
    assert forall k :: 0 < k < |ds| ==> ds[k] == ds[1..][k - 1];
  }

  /** The sections `ms` are laid out, with signature and version, where `entry` says. */
  ghost predicate SectionsLaidOut(data: Bytes, entry: Bytes, ms: seq<MetadataSection>) {
    && |entry| >= 4 && U32At(entry, 0) <= |data|
    && var start := |data| - U32At(entry, 0);
    && start + 16 <= |data| && At(data, start, ASEV) && U32At(data, start + 8) == 1
    && |ms| == Covered(U32At(data, start + 4), U32At(data, start + 12))
    && At(data, start + 16, ItemsImage(ms)) && ItemsFit(ms)
  }

  /** Parsing gives a section list if and only if that list is what the firmware has laid out,
      or the list is empty and the firmware has no such table entry. */
  lemma SevSectionsExactly(data: Bytes, table: map<Bytes, Bytes>, ms: seq<MetadataSection>)
    ensures ParseSevMetadata(data, table) == Some(ms) <==>
            if SEV_METADATA_GUID in table then SectionsLaidOut(data, table[SEV_METADATA_GUID], ms) else ms == []
  {
    hide U32At, ParseItems, ItemsImage, SEV_METADATA_GUID, ASEV, ItemsFit, Covered;
    AsevSize();
    if SEV_METADATA_GUID in table {
      var entry := table[SEV_METADATA_GUID];
      if |entry| >= 4 && U32At(entry, 0) <= |data| && |data| - U32At(entry, 0) + 16 <= |data| {
        var start := |data| - U32At(entry, 0);
        ItemsExactly(data, start, U32At(data, start + 4), U32At(data, start + 12), 0, ms);
      }
    }
  }

  /** The number a section's type has in the firmware. */
  ghost predicate IsTypeNumber(v: nat, st: SectionType) {
    match st
    case SnpSecMem => v == 1
    case SnpSecrets => v == 2
    case Cpuid => v == 3
    case SvsmCaa => v == 4
    case SnpKernelHashes => v == 16
  }

  ghost predicate IsItem(data: Bytes, n: nat, d: MetadataSection) {
    && n + 12 <= |data| && U32At(data, n) == d.gpa && U32At(data, n + 4) == d.size
    && IsTypeNumber(U32At(data, n + 8), d.sectionType)
  }

  /** Every section of the list is twelve bytes of the firmware: address, size, number of the type.
      The list is as long as the announced size and number of items allow. */
  lemma SectionItems(data: Bytes, entry: Bytes, ms: seq<MetadataSection>)
    requires SectionsLaidOut(data, entry, ms)
    ensures var start := |data| - U32At(entry, 0);
            && data[start..start + 4] == ['A' as byte, 'S' as byte, 'E' as byte, 'V' as byte]
            && (forall k: nat :: k < |ms| ==> IsItem(data, start + 16 + 12 * k, ms[k]))
            && |ms| <= U32At(data, start + 12) && (ms != [] ==> 16 + 12 * |ms| <= U32At(data, start + 4))
            && (|ms| < U32At(data, start + 12) ==> 16 + 12 * |ms| + 12 > U32At(data, start + 4))
  {
    hide ItemsImage, IsItem, ItemsFit;
    var start := |data| - U32At(entry, 0);
    forall k: nat | k < |ms| ensures IsItem(data, start + 16 + 12 * k, ms[k]) {
      ItemsHold(data, start + 16, ms, k);
    }
  }

  lemma {:induction false} ItemsHold(data: Bytes, n: nat, ds: seq<MetadataSection>, k: nat)
    requires k < |ds| && At(data, n, ItemsImage(ds)) && ItemsFit(ds)
    ensures IsItem(data, n + 12 * k, ds[k])
    decreases |ds|
  {
    assert n + 12 * |ds| <= |data|;
    hide ItemImage, At, ItemFits, U32At;
    ItemsSplit(data, n, ds[0], ds[1..]);
    FitSplit(ds);
    if k == 0 {
      ItemExactly(data, n, ds[0]);
      CodeOf(U32At(data, n + 8));
    } else {
      ItemsHold(data, n + 12, ds[1..], k - 1);
    }
  }

  lemma AsevSize()
    ensures |ASEV| == 4
  {
  }

  /** The u32 that a table entry's data begins with. */
  function EntryU32(o: Ovmf, guid: Bytes): (r: Option<nat>)
    ensures r.Some? ==> r.value < 0x1_0000_0000
  {
    if guid in o.table && |o.table[guid]| >= 4 then Some(U32At(o.table[guid], 0)) else None
  }

  predicate HasSection(o: Ovmf, st: SectionType) {
    exists i :: 0 <= i < |o.metadata| && o.metadata[i].sectionType == st
  }
}
