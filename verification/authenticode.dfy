/** The Authenticode digest of a PE image: the bytes it covers, and why signing an image does
    not change them. */
module Authenticode {
  import opened Bytes
  import opened Hashing

  const PE_SIGNATURE: Bytes := [0x50, 0x45, 0, 0]

  /** File offset and size of a section's data. */
  type Range = (nat, nat)

  datatype PeLayout = PeLayout(checksum: nat, dd4: nat, headers: nat, certSize: nat, sectionTable: nat,
                               sectionCount: nat)

  /** The header fields the digest depends on. */
  function LayoutOf(pe: Bytes): (r: Option<PeLayout>)
    ensures r.Some? ==> 0x58 <= r.value.checksum && r.value.checksum + 4 <= r.value.dd4 && r.value.dd4 + 8 <= |pe|
  {
    if |pe| < 0x40 then None
    else
      var peOffset := U32At(pe, 0x3C);
      if |pe| < peOffset + 26 || pe[peOffset..peOffset + 4] != PE_SIGNATURE then None
      else
        var opt := peOffset + 24;
        var magic := U16At(pe, opt);
        var dd4 := opt + if magic == 0x20B then 144 else 128;
        if (magic != 0x10B && magic != 0x20B) || |pe| < dd4 + 8 then None
        else Some(PeLayout(opt + 64, dd4, U32At(pe, opt + 60), U32At(pe, dd4 + 4), opt + U16At(pe, peOffset + 20),
                           U16At(pe, peOffset + 6)))
  }

  /** Sections with data, in table order. */
  function SectionRanges(pe: Bytes, table: nat, num: nat, i: nat): Option<seq<Range>>
    requires i <= num
    decreases num - i
  {
    var n := table + i * 40;
    if i == num then Some([])
    else if n + 24 > |pe| then None
    else
      Prepend(if U32At(pe, n + 16) > 0 then [(U32At(pe, n + 20), U32At(pe, n + 16))] else [],
              SectionRanges(pe, table, num, i + 1))
  }

  /** Insert after every range that does not start later. */
  function Insert(rs: seq<Range>, r: Range): seq<Range> {
    if rs == [] then [r]
    else
      var n := |rs| - 1;
      if rs[n].0 <= r.0 then rs + [r] else Insert(rs[..n], r) + [rs[n]]
  }

  /** A stable sort by file offset. */
  function SortByOffset(rs: seq<Range>): seq<Range> {
    if rs == [] then [] else Insert(SortByOffset(rs[..|rs| - 1]), rs[|rs| - 1])
  }

  ghost predicate Sorted(rs: seq<Range>) {
    forall i, j :: 0 <= i < j < |rs| ==> rs[i].0 <= rs[j].0
  }

  lemma {:induction false} InsertHolds(rs: seq<Range>, r: Range)
    ensures multiset(Insert(rs, r)) == multiset(rs) + multiset{r}
    decreases |rs|
  {
    if rs != [] && rs[|rs| - 1].0 > r.0 {
      var n := |rs| - 1;
      InsertHolds(rs[..n], r);
      assert rs == rs[..n] + [rs[n]];
      assert multiset(rs) == multiset(rs[..n]) + multiset{rs[n]};
    }
  }

  lemma {:induction false} InsertSorted(rs: seq<Range>, r: Range)
    requires Sorted(rs)
    ensures Sorted(Insert(rs, r))
    decreases |rs|
  {
    if rs != [] && rs[|rs| - 1].0 > r.0 {
      var n := |rs| - 1;
      InsertSorted(rs[..n], r);
      var a := Insert(rs[..n], r);
      InsertBelow(rs[..n], r, rs[n].0);
      SortedPush(a, rs[n]);
    }
  }

  lemma {:induction false} InsertBelow(rs: seq<Range>, r: Range, bound: nat)
    requires (forall k :: 0 <= k < |rs| ==> rs[k].0 <= bound) && r.0 <= bound
    ensures forall k :: 0 <= k < |Insert(rs, r)| ==> Insert(rs, r)[k].0 <= bound
    decreases |rs|
  {
    if rs != [] { InsertBelow(rs[..|rs| - 1], r, bound); }
  }

  lemma SortedPush(rs: seq<Range>, r: Range)
    requires Sorted(rs) && forall k :: 0 <= k < |rs| ==> rs[k].0 <= r.0
    ensures Sorted(rs + [r])
  {
  }

  lemma {:induction false} SortSorts(rs: seq<Range>)
    ensures Sorted(SortByOffset(rs)) && multiset(SortByOffset(rs)) == multiset(rs)
    decreases |rs|
  {
    if rs != [] {
      SortSorts(rs[..|rs| - 1]);
      assert rs == rs[..|rs| - 1] + [rs[|rs| - 1]];
      hide Sorted;
      InsertSorted(SortByOffset(rs[..|rs| - 1]), rs[|rs| - 1]);
      InsertHolds(SortByOffset(rs[..|rs| - 1]), rs[|rs| - 1]);
    }
  }

  function SizeOf(rs: seq<Range>): nat {
    if rs == [] then 0 else SizeOf(rs[..|rs| - 1]) + rs[|rs| - 1].1
  }

  /** The sections' data, one after another; none if one sticks out of the file. */
  function RangesBytes(pe: Bytes, rs: seq<Range>): Option<Bytes> {
    if rs == [] then Some([])
    else
      var r := rs[|rs| - 1];
      match RangesBytes(pe, rs[..|rs| - 1])
      case None => None
      case Some(b) => if r.0 + r.1 > |pe| then None else Some(b + pe[r.0..r.0 + r.1])
  }

  function PadLength(n: nat): nat {
    (8 - n % 8) % 8
  }

  /** The stream that is hashed ("Calculating the PE Image Hash" in the Authenticode PE format
      document). */
  function HashedStream(pe: Bytes): Option<Bytes> {
    match LayoutOf(pe)
    case None => None
    case Some(p) =>
      match SectionRanges(pe, p.sectionTable, p.sectionCount, 0)
      case None => None
      case Some(rs) => StreamOf(pe, p, SortByOffset(rs))
  }

  function StreamOf(pe: Bytes, p: PeLayout, rs: seq<Range>): Option<Bytes>
    requires p.checksum + 4 <= p.dd4 && p.dd4 + 8 <= |pe|
  {
    if p.headers < p.dd4 + 8 || p.headers > |pe| then None
    else
      match RangesBytes(pe, rs)
      case None => None
      case Some(body) =>
        var sum := p.headers + SizeOf(rs);
        if sum + p.certSize > |pe| then None
        else Some(pe[..p.checksum] + pe[p.checksum + 4..p.dd4] + pe[p.dd4 + 8..p.headers] + body
                  + pe[sum..|pe| - p.certSize] + Zeros(PadLength(|pe|)))
  }

  method ReadSections(pe: Bytes, p: PeLayout) returns (r: Option<seq<Range>>)
    ensures r == SectionRanges(pe, p.sectionTable, p.sectionCount, 0)
  {
    hide U32At, Prepend;
    var sections: seq<Range> := [];
    ghost var whole := SectionRanges(pe, p.sectionTable, p.sectionCount, 0);
    PrependMore<Range>([], [], whole);
    for i := 0 to p.sectionCount
      invariant whole == Prepend(sections, SectionRanges(pe, p.sectionTable, p.sectionCount, i))
    {
      var secOff := p.sectionTable + i * 40;
      PrependSome(sections, []);
      if secOff + 24 > |pe| { return None; }
      var rawSize := U32At(pe, secOff + 16);
      var fileOffset := U32At(pe, secOff + 20);
      ghost var rest := SectionRanges(pe, p.sectionTable, p.sectionCount, i + 1);
      var found := [];
      if rawSize > 0 {
        found := [(fileOffset, rawSize)];
      }
      PrependMore(sections, found, rest);
      sections := sections + found;
    }
    PrependSome(sections, []);
    r := Some(sections);
  }

  /** The hasher as the stream fed to it so far. */
  method PeAuthenticodeHash(h: HashFunction, pe: Bytes) returns (r: Option<Bytes>)
    ensures r == match HashedStream(pe)
                 case None => None
                 case Some(s) => Some(h(s))
  {
    hide LayoutOf, SectionRanges, SortByOffset, PadLength, RangesBytes, SizeOf;
    var layout := LayoutOf(pe);
    if layout.None? { return None; }
    var p := layout.value;
    var found := ReadSections(pe, p);
    if found.None? { return None; }
    var sections := SortByOffset(found.value);
    if p.headers < p.dd4 + 8 || p.headers > |pe| { return None; }
    var stream := pe[..p.checksum];
    stream := stream + pe[p.checksum + 4..p.dd4];
    stream := stream + pe[p.dd4 + 8..p.headers];
    var hashed, sum := HashSections(pe, sections, stream, p.headers);
    if hashed.None? { return None; }
    if sum + p.certSize > |pe| { return None; }
    stream := HashRest(pe, hashed.value, sum, |pe| - sum - p.certSize);
    r := Some(h(stream));
  }

  method HashSections(pe: Bytes, sections: seq<Range>, head: Bytes, headers: nat)
    returns (stream: Option<Bytes>, sumOfBytesHashed: nat)
    ensures stream.None? <==> RangesBytes(pe, sections).None?
    ensures stream.Some? ==> stream.value == head + RangesBytes(pe, sections).value
    ensures stream.Some? ==> sumOfBytesHashed == headers + SizeOf(sections)
  {
    sumOfBytesHashed := headers;
    var fed := head;
    assert sections[..0] == [] && head + [] == head;
    for k := 0 to |sections|
      invariant RangesBytes(pe, sections[..k]).Some? && fed == head + RangesBytes(pe, sections[..k]).value
      invariant sumOfBytesHashed == headers + SizeOf(sections[..k])
    {
      assert sections[..k + 1][..k] == sections[..k];
      var (fileOffset, rawSize) := sections[k];
      if fileOffset + rawSize > |pe| {
        RangesFail(pe, sections, k + 1);
        return None, sumOfBytesHashed;
      }
      ghost var b := RangesBytes(pe, sections[..k]).value;
      assert head + b + pe[fileOffset..fileOffset + rawSize] == head + (b + pe[fileOffset..fileOffset + rawSize]);
      fed := fed + pe[fileOffset..fileOffset + rawSize];
      sumOfBytesHashed := sumOfBytesHashed + rawSize;
    }
    assert sections[..|sections|] == sections;
    stream := Some(fed);
  }

  /** What follows the sections, then zeros up to a multiple of 8. */
  method HashRest(pe: Bytes, fed: Bytes, sum: nat, extraLen: nat) returns (stream: Bytes)
    requires sum + extraLen <= |pe|
    ensures stream == fed + pe[sum..sum + extraLen] + Zeros(PadLength(|pe|))
  {
    hide PadLength;
    stream := fed;
    if extraLen > 0 {
      stream := stream + pe[sum..sum + extraLen];
    }
    assert stream == fed + pe[sum..sum + extraLen];
    var padLen := PadLength(|pe|);
    if padLen > 0 {
      stream := stream + Zeros(padLen);
    } else {
      assert Zeros(padLen) == [] && stream + [] == stream;
    }
  }

  lemma {:induction false} RangesFail(pe: Bytes, rs: seq<Range>, k: nat)
    requires k <= |rs| && RangesBytes(pe, rs[..k]).None?
    ensures RangesBytes(pe, rs).None?
    decreases |rs|
  {
    if k == |rs| {
      assert rs[..k] == rs;
    } else {
      assert rs[..|rs| - 1][..k] == rs[..k];
      RangesFail(pe, rs[..|rs| - 1], k);
    }
  }

  // ----- signing -----

  /** Signing an image: a new checksum, a new certificate directory entry, zeros up to a
      multiple of 8, and the certificates. */
  function Signed(pe: Bytes, p: PeLayout, checksum: Bytes, entry: Bytes, certs: Bytes): (s: Bytes)
    requires p.checksum + 4 <= p.dd4 && p.dd4 + 8 <= |pe| && |checksum| == 4 && |entry| == 8
    ensures |s| == |pe| + PadLength(|pe|) + |certs|
  {
    Patched(pe, p, checksum, entry) + Zeros(PadLength(|pe|)) + certs
  }

  function Patched(pe: Bytes, p: PeLayout, checksum: Bytes, entry: Bytes): (s: Bytes)
    requires p.checksum + 4 <= p.dd4 && p.dd4 + 8 <= |pe| && |checksum| == 4 && |entry| == 8
    ensures |s| == |pe|
  {
    pe[..p.checksum] + checksum + pe[p.checksum + 4..p.dd4] + entry + pe[p.dd4 + 8..]
  }

  /** An image whose tables lie where the format puts them, not yet signed. */
  ghost predicate WellFormedUnsigned(pe: Bytes) {
    var layout := LayoutOf(pe);
    && layout.Some? && layout.value.certSize == 0 && layout.value.dd4 + 8 <= layout.value.sectionTable
    && var rs := SectionRanges(pe, layout.value.sectionTable, layout.value.sectionCount, 0);
    && rs.Some? && forall k :: 0 <= k < |rs.value| ==> layout.value.headers <= rs.value[k].0
  }

  /** Bytes outside the two rewritten fields are unchanged. */
  lemma Unchanged(pe: Bytes, p: PeLayout, checksum: Bytes, entry: Bytes, certs: Bytes, a: nat, b: nat)
    requires p.checksum + 4 <= p.dd4 && p.dd4 + 8 <= |pe| && |checksum| == 4 && |entry| == 8
    requires a <= b <= |pe| && (b <= p.checksum || (p.checksum + 4 <= a && b <= p.dd4) || p.dd4 + 8 <= a)
    ensures Signed(pe, p, checksum, entry, certs)[a..b] == pe[a..b]
  {
    var s := Signed(pe, p, checksum, entry, certs);
    assert forall k :: a <= k < b ==> s[k] == pe[k];
  }

  lemma Field16Kept(pe: Bytes, s: Bytes, n: nat)
    requires n + 2 <= |pe| && n + 2 <= |s| && s[n..n + 2] == pe[n..n + 2]
    ensures U16At(s, n) == U16At(pe, n)
  {
    assert s[n] == s[n..n + 2][0] && s[n + 1] == s[n..n + 2][1];
    assert pe[n] == pe[n..n + 2][0] && pe[n + 1] == pe[n..n + 2][1];
  }

  lemma Field32Kept(pe: Bytes, s: Bytes, n: nat)
    requires n + 4 <= |pe| && n + 4 <= |s| && s[n..n + 4] == pe[n..n + 4]
    ensures U32At(s, n) == U32At(pe, n)
  {
    hide U16At;
    assert s[n..n + 2] == s[n..n + 4][..2] && pe[n..n + 2] == pe[n..n + 4][..2];
    assert s[n + 2..n + 4] == s[n..n + 4][2..] && pe[n + 2..n + 4] == pe[n..n + 4][2..];
    Field16Kept(pe, s, n);
    Field16Kept(pe, s, n + 2);
  }

  /** The signed image as seen by one field read outside the rewritten fields. */
  lemma SignedField(pe: Bytes, p: PeLayout, checksum: Bytes, entry: Bytes, certs: Bytes, n: nat, size: nat)
    requires p.checksum + 4 <= p.dd4 && p.dd4 + 8 <= |pe| && |checksum| == 4 && |entry| == 8
    requires n + size <= |pe| && (n + size <= p.checksum || p.dd4 + 8 <= n)
    ensures var s := Signed(pe, p, checksum, entry, certs);
            && n + size <= |s|
            && (size == 2 ==> U16At(s, n) == U16At(pe, n))
            && (size == 4 ==> U32At(s, n) == U32At(pe, n) && s[n..n + 4] == pe[n..n + 4])
  {
    hide Signed, U16At, U32At;
    Unchanged(pe, p, checksum, entry, certs, n, n + size);
    if size == 2 { Field16Kept(pe, Signed(pe, p, checksum, entry, certs), n); }
    if size == 4 { Field32Kept(pe, Signed(pe, p, checksum, entry, certs), n); }
  }

  lemma EntryPlaced(pe: Bytes, p: PeLayout, checksum: Bytes, entry: Bytes, certs: Bytes)
    requires p.checksum + 4 <= p.dd4 && p.dd4 + 8 <= |pe| && |checksum| == 4 && |entry| == 8
    ensures U32At(Signed(pe, p, checksum, entry, certs), p.dd4 + 4) == U32At(entry, 4)
  {
    var s := Signed(pe, p, checksum, entry, certs);
    assert forall k :: 0 <= k < 8 ==> s[p.dd4 + k] == entry[k];
    assert s[p.dd4 + 4] == entry[4] && s[p.dd4 + 5] == entry[5] && s[p.dd4 + 6] == entry[6] && s[p.dd4 + 7] == entry[7];
  }

  /** The signed image has the same layout, except for the size of its certificate table. */
  lemma LayoutKept(pe: Bytes, checksum: Bytes, entry: Bytes, certs: Bytes)
    requires LayoutOf(pe).Some? && |checksum| == 4 && |entry| == 8
    ensures var p := LayoutOf(pe).value;
            LayoutOf(Signed(pe, p, checksum, entry, certs)) == Some(p.(certSize := U32At(entry, 4)))
  {
    hide Signed, U16At, U32At, PE_SIGNATURE;
    var p := LayoutOf(pe).value;
    var peOffset := U32At(pe, 0x3C);
    SignedField(pe, p, checksum, entry, certs, 0x3C, 4);
    SignedField(pe, p, checksum, entry, certs, peOffset, 4);
    SignedField(pe, p, checksum, entry, certs, peOffset + 6, 2);
    SignedField(pe, p, checksum, entry, certs, peOffset + 20, 2);
    SignedField(pe, p, checksum, entry, certs, peOffset + 24, 2);
    SignedField(pe, p, checksum, entry, certs, peOffset + 84, 4);
    EntryPlaced(pe, p, checksum, entry, certs);
  }

  lemma {:induction false} SectionsKept(pe: Bytes, p: PeLayout, checksum: Bytes, entry: Bytes, certs: Bytes, i: nat)
    requires p.checksum + 4 <= p.dd4 && p.dd4 + 8 <= |pe| && |checksum| == 4 && |entry| == 8 && i <= p.sectionCount
    requires p.dd4 + 8 <= p.sectionTable && SectionRanges(pe, p.sectionTable, p.sectionCount, i).Some?
    ensures SectionRanges(Signed(pe, p, checksum, entry, certs), p.sectionTable, p.sectionCount, i)
            == SectionRanges(pe, p.sectionTable, p.sectionCount, i)
    decreases p.sectionCount - i
  {
    hide Signed, U32At;
    if i < p.sectionCount {
      var n := p.sectionTable + i * 40;
      SignedField(pe, p, checksum, entry, certs, n + 16, 4);
      SignedField(pe, p, checksum, entry, certs, n + 20, 4);
      SectionsKept(pe, p, checksum, entry, certs, i + 1);
    }
  }

  ghost predicate Behind(rs: seq<Range>, n: nat) {
    forall k :: 0 <= k < |rs| ==> n <= rs[k].0
  }

  lemma SortedBehind(rs: seq<Range>, n: nat)
    requires Behind(rs, n)
    ensures Behind(SortByOffset(rs), n)
  {
    SortSorts(rs);
    var a := SortByOffset(rs);
    forall k | 0 <= k < |a| ensures n <= a[k].0 {
      assert a[k] in multiset(a);
      assert a[k] in multiset(rs);
    }
  }

  lemma {:induction false} RangesKept(pe: Bytes, p: PeLayout, checksum: Bytes, entry: Bytes, certs: Bytes,
                                      rs: seq<Range>)
    requires p.checksum + 4 <= p.dd4 && p.dd4 + 8 <= |pe| && |checksum| == 4 && |entry| == 8
    requires Behind(rs, p.dd4 + 8) && RangesBytes(pe, rs).Some?
    ensures RangesBytes(Signed(pe, p, checksum, entry, certs), rs) == RangesBytes(pe, rs)
    decreases |rs|
  {
    hide Signed;
    if rs != [] {
      var r := rs[|rs| - 1];
      RangesKept(pe, p, checksum, entry, certs, rs[..|rs| - 1]);
      Unchanged(pe, p, checksum, entry, certs, r.0, r.0 + r.1);
    }
  }

  /** The tail of the hashed stream: what follows the sections, and the padding. */
  lemma TailKept(pe: Bytes, p: PeLayout, checksum: Bytes, entry: Bytes, certs: Bytes, sum: nat)
    requires p.checksum + 4 <= p.dd4 && p.dd4 + 8 <= sum <= |pe| && |checksum| == 4 && |entry| == 8 && |certs| % 8 == 0
    ensures var s := Signed(pe, p, checksum, entry, certs);
            sum <= |s| - |certs| && PadLength(|s|) == 0
            && s[sum..|s| - |certs|] == pe[sum..] + Zeros(PadLength(|pe|))
  {
    PaddedWhole(|pe|, |certs|);
    hide PadLength, Patched;
    MiddleOf(Patched(pe, p, checksum, entry), Zeros(PadLength(|pe|)), certs, sum);
    PatchedTail(pe, p, checksum, entry, sum);
  }

  lemma PaddedWhole(n: nat, certSize: nat)
    requires certSize % 8 == 0
    ensures PadLength(n + PadLength(n) + certSize) == 0
  {
  }

  lemma MiddleOf(a: Bytes, b: Bytes, c: Bytes, n: nat)
    requires n <= |a|
    ensures (a + b + c)[n..|a + b|] == a[n..] + b
  {
  }

  lemma PatchedTail(pe: Bytes, p: PeLayout, checksum: Bytes, entry: Bytes, n: nat)
    requires p.checksum + 4 <= p.dd4 && p.dd4 + 8 <= n <= |pe| && |checksum| == 4 && |entry| == 8
    ensures Patched(pe, p, checksum, entry)[n..] == pe[n..]
  {
  }

  /** Signing invariance: an image and its signed form are hashed over the same bytes, whatever
      the checksum and the certificates. */
  lemma SigningKeepsStream(pe: Bytes, checksum: Bytes, entry: Bytes, certs: Bytes)
    requires WellFormedUnsigned(pe) && HashedStream(pe).Some? && |checksum| == 4 && |entry| == 8
    requires |certs| % 8 == 0 && U32At(entry, 4) == |certs|
    ensures HashedStream(Signed(pe, LayoutOf(pe).value, checksum, entry, certs)) == HashedStream(pe)
  {
    hide LayoutOf, SectionRanges, SortByOffset, RangesBytes, Signed, SizeOf, U32At, PadLength;
    var p := LayoutOf(pe).value;
    var s := Signed(pe, p, checksum, entry, certs);
    var rs := SectionRanges(pe, p.sectionTable, p.sectionCount, 0).value;
    LayoutKept(pe, checksum, entry, certs);
    SectionsKept(pe, p, checksum, entry, certs, 0);
    SortedBehind(rs, p.headers);
    StreamKept(pe, p, checksum, entry, certs, SortByOffset(rs));
  }

  lemma StreamKept(pe: Bytes, p: PeLayout, checksum: Bytes, entry: Bytes, certs: Bytes, rs: seq<Range>)
    requires p.checksum + 4 <= p.dd4 && p.dd4 + 8 <= |pe| && |checksum| == 4 && |entry| == 8 && |certs| % 8 == 0
    requires p.certSize == 0 && Behind(rs, p.headers) && StreamOf(pe, p, rs).Some?
    ensures StreamOf(Signed(pe, p, checksum, entry, certs), p.(certSize := |certs|), rs) == StreamOf(pe, p, rs)
  {
    hide RangesBytes, Signed, SizeOf, PadLength;
    var s, sum := Signed(pe, p, checksum, entry, certs), p.headers + SizeOf(rs);
    RangesKept(pe, p, checksum, entry, certs, rs);
    Unchanged(pe, p, checksum, entry, certs, 0, p.checksum);
    Unchanged(pe, p, checksum, entry, certs, p.checksum + 4, p.dd4);
    Unchanged(pe, p, checksum, entry, certs, p.dd4 + 8, p.headers);
    TailKept(pe, p, checksum, entry, certs, sum);
    assert s[..p.checksum] == s[0..p.checksum] && pe[..p.checksum] == pe[0..p.checksum];
    var head := pe[..p.checksum] + pe[p.checksum + 4..p.dd4] + pe[p.dd4 + 8..p.headers] + RangesBytes(pe, rs).value;
    var z := Zeros(PadLength(|pe|));
    assert pe[sum..|pe| - 0] == pe[sum..];
    assert head + (pe[sum..] + z) + Zeros(0) == head + pe[sum..] + z;
  }

  // ----- coverage -----

  /** The sections follow the headers and each other without gaps or overlaps. */
  ghost predicate Tiles(rs: seq<Range>, start: nat) {
    forall k :: 0 <= k < |rs| ==> rs[k].0 == start + SizeOf(rs[..k])
  }

  lemma {:induction false} TiledBytes(pe: Bytes, rs: seq<Range>, start: nat)
    requires Tiles(rs, start) && RangesBytes(pe, rs).Some? && start <= |pe|
    ensures start + SizeOf(rs) <= |pe| && RangesBytes(pe, rs).value == pe[start..start + SizeOf(rs)]
    decreases |rs|
  {
    if rs == [] {
    } else {
      var n := |rs| - 1;
      TilesButLast(rs, start);
      hide Tiles;
      TiledBytes(pe, rs[..n], start);
      var m := start + SizeOf(rs[..n]);
      JoinRanges(pe, start, m, m + rs[n].1);
    }
  }

  lemma TilesButLast(rs: seq<Range>, start: nat)
    requires Tiles(rs, start) && rs != []
    ensures var n := |rs| - 1; Tiles(rs[..n], start) && rs[n].0 == start + SizeOf(rs[..n])
  {
    hide SizeOf;
    var n := |rs| - 1;
    assert forall k :: 0 <= k < n ==> rs[..n][..k] == rs[..k];
  }

  lemma JoinRanges(s: Bytes, a: nat, m: nat, b: nat)
    requires a <= m <= b <= |s|
    ensures s[a..m] + s[m..b] == s[a..b]
  {
  }

  /** With tiled sections every byte of the file is hashed exactly once, in order, except the
      checksum, the certificate directory entry and the certificates. */
  lemma TiledStream(pe: Bytes, p: PeLayout, rs: seq<Range>)
    requires p.checksum + 4 <= p.dd4 && p.dd4 + 8 <= |pe| && Tiles(rs, p.headers) && StreamOf(pe, p, rs).Some?
    ensures StreamOf(pe, p, rs).value == pe[..p.checksum] + pe[p.checksum + 4..p.dd4] + pe[p.dd4 + 8..|pe| - p.certSize]
                                         + Zeros(PadLength(|pe|))
  {
    hide RangesBytes, SizeOf, PadLength, Tiles;
    TiledBytes(pe, rs, p.headers);
    var sum, end := p.headers + SizeOf(rs), |pe| - p.certSize;
    var a, z := pe[..p.checksum] + pe[p.checksum + 4..p.dd4], Zeros(PadLength(|pe|));
    assert pe[p.dd4 + 8..p.headers] + pe[p.headers..sum] + pe[sum..end] == pe[p.dd4 + 8..end];
    assert a + pe[p.dd4 + 8..p.headers] + pe[p.headers..sum] + pe[sum..end]
        == a + (pe[p.dd4 + 8..p.headers] + pe[p.headers..sum] + pe[sum..end]);
  }

  /** An image that can be hashed, its sections tiling the file behind the headers. */
  ghost predicate TiledImage(pe: Bytes) {
    && HashedStream(pe).Some?
    && var p := LayoutOf(pe).value;
    Tiles(SortByOffset(SectionRanges(pe, p.sectionTable, p.sectionCount, 0).value), p.headers)
  }

  /** The bytes from the certificate entry to the certificates, padded as the hash pads them. */
  function Rest(pe: Bytes, p: PeLayout): Bytes
    requires p.dd4 + 8 + p.certSize <= |pe|
  {
    pe[p.dd4 + 8..|pe| - p.certSize] + Zeros(PadLength(|pe|))
  }

  /** The same layout, and the same bytes outside checksum, certificate entry and certificates,
      up to zeros at the end. */
  ghost predicate SameOutside(pe: Bytes, pe': Bytes) {
    var l, l' := LayoutOf(pe), LayoutOf(pe');
    && l.Some? && l'.Some?
    && var p, q := l.value, l'.value;
    && p.checksum == q.checksum && p.dd4 == q.dd4 && p.headers == q.headers
    && pe[..p.checksum] == pe'[..p.checksum] && pe[p.checksum + 4..p.dd4] == pe'[p.checksum + 4..p.dd4]
    && p.dd4 + 8 + p.certSize <= |pe| && q.dd4 + 8 + q.certSize <= |pe'|
    && Rest(pe, p) == Rest(pe', q)
  }

  /** What is hashed of a tiled image. */
  lemma TiledImageStream(pe: Bytes)
    requires TiledImage(pe)
    ensures LayoutOf(pe).Some?
    ensures var p := LayoutOf(pe).value;
            && p.dd4 + 8 + p.certSize <= |pe|
            && HashedStream(pe).value == pe[..p.checksum] + (pe[p.checksum + 4..p.dd4] + Rest(pe, p))
  {
    hide LayoutOf, SectionRanges, SortByOffset, Tiles, PadLength, RangesBytes, SizeOf;
    var p := LayoutOf(pe).value;
    TiledStream(pe, p, SortByOffset(SectionRanges(pe, p.sectionTable, p.sectionCount, 0).value));
    var a, b := pe[..p.checksum], pe[p.checksum + 4..p.dd4];
    var c, z := pe[p.dd4 + 8..|pe| - p.certSize], Zeros(PadLength(|pe|));
    assert a + b + c + z == a + (b + (c + z));
  }

  /** Where the layout is read from: all of it lies before the checksum, but for the size of
      the certificates. */
  lemma LayoutFields(pe: Bytes)
    requires LayoutOf(pe).Some?
    ensures var p := LayoutOf(pe).value;
            && U32At(pe, 0x3C) + 88 == p.checksum && p.checksum + 4 <= |pe|
            && p.dd4 == p.checksum + (if U16At(pe, p.checksum - 64) == 0x20B then 80 else 64)
            && p.headers == U32At(pe, p.checksum - 4)
  {
    hide U16At, U32At;
  }

  lemma PrefixFields(pe: Bytes, pe': Bytes, k: nat)
    requires k <= |pe| && k <= |pe'| && pe[..k] == pe'[..k]
    ensures forall n :: 0 <= n && n + 2 <= k ==> U16At(pe, n) == U16At(pe', n)
    ensures forall n :: 0 <= n && n + 4 <= k ==> U32At(pe, n) == U32At(pe', n)
  {
    assert forall j :: 0 <= j < k ==> pe[j] == pe[..k][j] && pe'[j] == pe'[..k][j];
  }

  /** Tiled images that are hashed alike are the same outside what the hash leaves out. The
      position of what is left out is itself hashed. */
  lemma StreamDetermines(pe: Bytes, pe': Bytes)
    requires TiledImage(pe) && TiledImage(pe') && HashedStream(pe) == HashedStream(pe')
    ensures SameOutside(pe, pe')
  {
    hide HashedStream, LayoutOf, SectionRanges, SortByOffset, Tiles, U16At, U32At, Rest;
    TiledImageStream(pe);
    TiledImageStream(pe');
    var p, q := LayoutOf(pe).value, LayoutOf(pe').value;
    LayoutFields(pe);
    LayoutFields(pe');
    var s := HashedStream(pe).value;
    assert pe[..0x58] == s[..0x58] == pe'[..0x58];
    PrefixFields(pe, pe', 0x58);
    var c := p.checksum;
    assert pe[..c] == s[..c] == pe'[..c];
    PrefixFields(pe, pe', c);
    var d := p.dd4 - p.checksum - 4;
    assert pe[c + 4..p.dd4] == s[c..c + d] == pe'[c + 4..p.dd4];
    assert Rest(pe, p) == s[c + d..] == Rest(pe', q);
  }
}
