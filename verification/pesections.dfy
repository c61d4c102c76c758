/** The Authenticode digest over the section headers of a PE image: which fields of which header
    give the bytes that are hashed, and in which order. */
module PeSections {
  import opened Bytes
  import opened Hashing
  import opened Authenticode

  // ----- what is hashed, in the numbers of the format -----

  /** A section header: its name (8 bytes), four numbers, and 16 bytes the digest does not need. */
  datatype SectionHeader = SectionHeader(name: Bytes, virtualSize: nat, virtualAddress: nat, rawSize: nat,
                                         rawPointer: nat, rest: Bytes)

  ghost predicate HeaderFits(s: SectionHeader) {
    && |s.name| == 8 && |s.rest| == 16 && s.virtualSize < 0x1_0000_0000 && s.virtualAddress < 0x1_0000_0000
    && s.rawSize < 0x1_0000_0000 && s.rawPointer < 0x1_0000_0000
  }

  /** A header's 40 bytes. */
  function HeaderImage(s: SectionHeader): Bytes {
    s.name + (LE32(s.virtualSize) + (LE32(s.virtualAddress) + (LE32(s.rawSize) + (LE32(s.rawPointer) + s.rest))))
  }

  /** The header at `n`, as far as it is read. */
  ghost predicate IsHeader(pe: Bytes, n: nat, s: SectionHeader) {
    && n + 24 <= |pe| && pe[n..n + 8] == s.name && U32At(pe, n + 8) == s.virtualSize
    && U32At(pe, n + 12) == s.virtualAddress && U32At(pe, n + 16) == s.rawSize && U32At(pe, n + 20) == s.rawPointer
  }

  ghost predicate AreHeaders(pe: Bytes, n: nat, hs: seq<SectionHeader>) {
    forall k: nat :: k < |hs| ==> IsHeader(pe, n + 40 * k, hs[k])
  }

  /** Sections with data, by where it lies in the file; those that begin at one place, as they
      stand in the table. */
  ghost predicate Before(hs: seq<SectionHeader>, i: nat, j: nat)
    requires i < |hs| && j < |hs|
  {
    hs[i].rawPointer < hs[j].rawPointer || (hs[i].rawPointer == hs[j].rawPointer && i < j)
  }

  ghost predicate InFileOrder(hs: seq<SectionHeader>, order: seq<nat>) {
    && (forall i :: 0 <= i < |order| ==> order[i] < |hs|)
    && forall i, j :: 0 <= i < j < |order| ==> Before(hs, order[i], order[j])
  }

  ghost predicate IsFileOrder(hs: seq<SectionHeader>, order: seq<nat>) {
    InFileOrder(hs, order) && forall k :: 0 <= k < |hs| ==> (k in order <==> hs[k].rawSize > 0)
  }

  /** `part` is the data of a section. */
  ghost predicate IsData(pe: Bytes, s: SectionHeader, part: Bytes) {
    s.rawPointer + s.rawSize <= |pe| && part == pe[s.rawPointer..s.rawPointer + s.rawSize]
  }

  ghost predicate AreData(pe: Bytes, hs: seq<SectionHeader>, order: seq<nat>, parts: seq<Bytes>)
    requires forall i :: 0 <= i < |order| ==> order[i] < |hs|
  {
    |parts| == |order| && forall i :: 0 <= i < |order| ==> IsData(pe, hs[order[i]], parts[i])
  }

  /** An image: its section headers, the order of its sections in the file, and their data. */
  datatype PeImage = PeImage(hs: seq<SectionHeader>, order: seq<nat>, parts: seq<Bytes>)

  /** The optional header begins 24 bytes behind the signature. The section headers follow it. */
  ghost predicate IsImage(pe: Bytes, opt: nat, im: PeImage) {
    && |pe| >= 64 && opt == U32At(pe, 60) + 24 && opt + 2 <= |pe|
    && pe[opt - 24..opt - 20] == ['P' as byte, 'E' as byte, 0, 0]
    && U16At(pe, opt - 18) == |im.hs| && AreHeaders(pe, opt + U16At(pe, opt - 4), im.hs)
    && IsFileOrder(im.hs, im.order) && AreData(pe, im.hs, im.order, im.parts)
  }

  /** Up to a multiple of 8. */
  ghost predicate IsPad(n: nat, pad: nat) {
    pad < 8 && (n + pad) % 8 == 0
  }

  /** Everything but the checksum, the certificate entry and the certificates: the headers, the
      sections' data, and what the file holds behind as many bytes. */
  ghost predicate IsStream(pe: Bytes, opt: nat, entry: nat, im: PeImage, s: Bytes)
    requires opt + 68 <= entry && entry + 8 <= |pe|
  {
    var headers, certs, body := U32At(pe, opt + 60), U32At(pe, entry + 4), Joined(im.parts);
    && entry + 8 <= headers <= |pe| && headers + |body| + certs <= |pe|
    && exists pad: nat ::
      && IsPad(|pe|, pad)
      && s == pe[..opt + 64] + pe[opt + 68..entry] + pe[entry + 8..headers] + body
           + pe[headers + |body|..|pe| - certs] + Zeros(pad)
  }

  /** The certificate entry lies 128 bytes into the optional header of a PE32 image, 144 bytes
      into that of a PE32+ image. */
  ghost predicate Hashes(pe: Bytes, opt: nat, im: PeImage, s: Bytes) {
    && IsImage(pe, opt, im)
    && ((U16At(pe, opt) == 0x10B && opt + 136 <= |pe| && IsStream(pe, opt, opt + 128, im, s))
        || (U16At(pe, opt) == 0x20B && opt + 152 <= |pe| && IsStream(pe, opt, opt + 144, im, s)))
  }

  /** A header that is laid out is read. */
  lemma HeaderRead(pe: Bytes, n: nat, s: SectionHeader)
    requires HeaderFits(s) && At(pe, n, HeaderImage(s))
    ensures IsHeader(pe, n, s) && |HeaderImage(s)| == 40
  {
    hide LE32, U32At, At;
    var r4 := LE32(s.rawPointer) + s.rest;
    var r3 := LE32(s.rawSize) + r4;
    var r2 := LE32(s.virtualAddress) + r3;
    var r1 := LE32(s.virtualSize) + r2;
    AtSplit(pe, n, s.name, r1);
    AtMeans(pe, n, s.name);
    Take32(pe, n + 8, s.virtualSize, r2);
    Take32(pe, n + 12, s.virtualAddress, r3);
    Take32(pe, n + 16, s.rawSize, r4);
    Take32(pe, n + 20, s.rawPointer, s.rest);
  }

  /** So is a table of them. */
  lemma HeadersRead(pe: Bytes, n: nat, hs: seq<SectionHeader>)
    requires forall k: nat :: k < |hs| ==> HeaderFits(hs[k]) && At(pe, n + 40 * k, HeaderImage(hs[k]))
    ensures AreHeaders(pe, n, hs)
  {
    hide HeaderFits, HeaderImage, At, IsHeader;
    forall k: nat | k < |hs| ensures IsHeader(pe, n + 40 * k, hs[k]) {
      HeaderRead(pe, n + 40 * k, hs[k]);
    }
  }

  // ----- the headers are what is read -----

  function RangeOf(s: SectionHeader): Range {
    (s.rawPointer, s.rawSize)
  }

  function RangeIn(s: SectionHeader): seq<Range> {
    if s.rawSize > 0 then [RangeOf(s)] else []
  }

  /** Where the data of the sections lies, in table order. */
  function RangesOf(hs: seq<SectionHeader>): seq<Range> {
    if hs == [] then [] else RangesOf(hs[..|hs| - 1]) + RangeIn(hs[|hs| - 1])
  }

  lemma {:induction false} RangesRead(pe: Bytes, n: nat, hs: seq<SectionHeader>, i: nat)
    requires i <= |hs| && AreHeaders(pe, n, hs)
    ensures Prepend(RangesOf(hs[..i]), SectionRanges(pe, n, |hs|, i)) == Some(RangesOf(hs))
    decreases |hs| - i
  {
    hide U32At, Prepend;
    if i == |hs| {
      assert hs[..i] == hs;
      PrependSome(RangesOf(hs), []);
    } else {
      RangesRead(pe, n, hs, i + 1);
      assert IsHeader(pe, n + 40 * i, hs[i]);
      assert hs[..i + 1][..i] == hs[..i];
      PrependMore(RangesOf(hs[..i]), RangeIn(hs[i]), SectionRanges(pe, n, |hs|, i + 1));
    }
  }

  /** The ranges read are those of the headers. */
  lemma AllRangesRead(pe: Bytes, n: nat, hs: seq<SectionHeader>)
    requires AreHeaders(pe, n, hs)
    ensures SectionRanges(pe, n, |hs|, 0) == Some(RangesOf(hs))
  {
    hide AreHeaders, SectionRanges;
    RangesRead(pe, n, hs, 0);
    PrependMore([], [], SectionRanges(pe, n, |hs|, 0));
  }

  lemma {:induction false} HeadersInside(pe: Bytes, n: nat, num: nat, i: nat, k: nat)
    requires i <= k < num && SectionRanges(pe, n, num, i).Some?
    ensures n + 40 * k + 24 <= |pe|
    decreases num - i
  {
    hide U32At;
    if i < k { HeadersInside(pe, n, num, i + 1, k); }
  }

  lemma HeadersExist(pe: Bytes, n: nat, num: nat) returns (hs: seq<SectionHeader>)
    requires SectionRanges(pe, n, num, 0).Some?
    ensures |hs| == num && AreHeaders(pe, n, hs)
  {
    hide U32At, SectionRanges;
    forall k: nat | k < num ensures n + 40 * k + 24 <= |pe| {
      HeadersInside(pe, n, num, 0, k);
    }
    hs := seq(num, k requires 0 <= k < num && n + 40 * k + 24 <= |pe| =>
      var m := n + 40 * k;
      SectionHeader(pe[m..m + 8], U32At(pe, m + 8), U32At(pe, m + 12), U32At(pe, m + 16), U32At(pe, m + 20), []));
  }

  // ----- the sort is the file order -----

  ghost function Picked(hs: seq<SectionHeader>, order: seq<nat>): (rs: seq<Range>)
    requires forall i :: 0 <= i < |order| ==> order[i] < |hs|
    ensures |rs| == |order|
  {
    seq(|order|, i requires 0 <= i < |order| => RangeOf(hs[order[i]]))
  }

  lemma PushedLast(hs: seq<SectionHeader>, order: seq<nat>, k: nat)
    requires InFileOrder(hs, order) && k < |hs|
    requires order != [] ==> Before(hs, order[|order| - 1], k)
    ensures InFileOrder(hs, order + [k]) && Picked(hs, order + [k]) == Picked(hs, order) + [RangeOf(hs[k])]
    ensures forall j :: j in order + [k] <==> j in order || j == k
  {
    var r := order + [k];
    forall i, j | 0 <= i < j < |r| ensures Before(hs, r[i], r[j]) {
      if j == |order| && i < j - 1 { assert Before(hs, order[i], order[j - 1]); }
    }
  }

  lemma InsertHere(hs: seq<SectionHeader>, order: seq<nat>, k: nat)
    requires InFileOrder(hs, order) && k < |hs| && forall i :: 0 <= i < |order| ==> order[i] < k
    requires order == [] || hs[order[|order| - 1]].rawPointer <= hs[k].rawPointer
    ensures order != [] ==> Before(hs, order[|order| - 1], k)
    ensures Insert(Picked(hs, order), RangeOf(hs[k])) == Picked(hs, order) + [RangeOf(hs[k])]
  {
  }

  lemma InsertBefore(hs: seq<SectionHeader>, order: seq<nat>, k: nat)
    requires InFileOrder(hs, order) && k < |hs| && order != []
    requires hs[order[|order| - 1]].rawPointer > hs[k].rawPointer
    ensures var n := |order| - 1;
            && InFileOrder(hs, order[..n]) && (n > 0 ==> Before(hs, order[n - 1], order[n])) && Before(hs, k, order[n])
            && Insert(Picked(hs, order), RangeOf(hs[k]))
               == Insert(Picked(hs, order[..n]), RangeOf(hs[k])) + [RangeOf(hs[order[n]])]
  {
    var n := |order| - 1;
    assert Picked(hs, order)[..n] == Picked(hs, order[..n]);
  }

  /** Inserting a section that stands behind all others in the table. */
  lemma {:induction false} Inserted(hs: seq<SectionHeader>, order: seq<nat>, k: nat) returns (r: seq<nat>)
    requires InFileOrder(hs, order) && k < |hs| && forall i :: 0 <= i < |order| ==> order[i] < k
    ensures InFileOrder(hs, r) && forall j :: j in r <==> j in order || j == k
    ensures r != [] && (r[|r| - 1] == k || (order != [] && r[|r| - 1] == order[|order| - 1]))
    ensures Insert(Picked(hs, order), RangeOf(hs[k])) == Picked(hs, r)
    decreases |order|
  {
    hide InFileOrder, Before, Insert, Picked, RangeOf;
    InOrder(hs, order);
    if order == [] || hs[order[|order| - 1]].rawPointer <= hs[k].rawPointer {
      r := order + [k];
      InsertHere(hs, order, k);
      PushedLast(hs, order, k);
    } else {
      var n := |order| - 1;
      InsertBefore(hs, order, k);
      var r' := Inserted(hs, order[..n], k);
      r := r' + [order[n]];
      assert order == order[..n] + [order[n]];
      PushedLast(hs, r', order[n]);
    }
  }

  lemma InOrder(hs: seq<SectionHeader>, order: seq<nat>)
    requires InFileOrder(hs, order)
    ensures forall i :: 0 <= i < |order| ==> order[i] < |hs|
  {
  }

  lemma {:induction false} OrderExists(hs: seq<SectionHeader>) returns (order: seq<nat>)
    ensures IsFileOrder(hs, order) && SortByOffset(RangesOf(hs)) == Picked(hs, order)
    decreases |hs|
  {
    order := [];
    if hs != [] {
      var n := |hs| - 1;
      var order' := OrderExists(hs[..n]);
      assert Picked(hs, order') == Picked(hs[..n], order');
      KeepsOrder(hs, order');
      if hs[n].rawSize == 0 {
        order := order';
        assert RangesOf(hs[..n]) + [] == RangesOf(hs[..n]);
      } else {
        order := Inserted(hs, order', n);
        var rs := RangesOf(hs[..n]);
        assert (rs + [RangeOf(hs[n])])[..|rs|] == rs;
      }
    }
  }

  lemma KeepsOrder(hs: seq<SectionHeader>, order: seq<nat>)
    requires hs != [] && IsFileOrder(hs[..|hs| - 1], order)
    ensures InFileOrder(hs, order) && forall k :: 0 <= k < |hs| - 1 ==> (k in order <==> hs[k].rawSize > 0)
    ensures |hs| - 1 !in order
  {
    var front := hs[..|hs| - 1];
    forall i, j | 0 <= i < j < |order| ensures Before(hs, order[i], order[j]) {
      assert Before(front, order[i], order[j]);
    }
    assert forall k :: 0 <= k < |front| ==> hs[k] == front[k];
  }

  lemma {:induction false} OneOrder(hs: seq<SectionHeader>, a: seq<nat>, b: seq<nat>)
    requires InFileOrder(hs, a) && InFileOrder(hs, b) && forall k :: k in a <==> k in b
    ensures a == b
    decreases |a|
  {
    if a == [] {
      FirstIn(b);
    } else {
      var m, n := |a| - 1, |b| - 1;
      FirstIn(a);
      LastIn(a);
      LastIn(b);
      NotBehind(hs, a, b[n]);
      NotBehind(hs, b, a[m]);
      assert a[m] == b[n];
      Fronts(hs, a);
      Fronts(hs, b);
      hide InFileOrder, Before;
      forall k ensures k in a[..m] <==> k in b[..n] {
        Others(hs, a, k);
        Others(hs, b, k);
      }
      OneOrder(hs, a[..m], b[..n]);
      assert a == a[..m] + [a[m]] && b == b[..n] + [b[n]];
    }
  }

  lemma Fronts(hs: seq<SectionHeader>, a: seq<nat>)
    requires InFileOrder(hs, a) && a != []
    ensures InFileOrder(hs, a[..|a| - 1])
  {
  }

  lemma LastIn(a: seq<nat>)
    ensures a != [] ==> a[|a| - 1] in a
  {
  }

  lemma FirstIn(a: seq<nat>)
    ensures a != [] ==> a[0] in a
  {
  }

  lemma NotBehind(hs: seq<SectionHeader>, a: seq<nat>, k: nat)
    requires InFileOrder(hs, a) && k in a
    ensures k < |hs| && (k == a[|a| - 1] || Before(hs, k, a[|a| - 1]))
  {
    var i :| 0 <= i < |a| && a[i] == k;
    assert i < |a| - 1 ==> Before(hs, a[i], a[|a| - 1]);
  }

  lemma Others(hs: seq<SectionHeader>, a: seq<nat>, k: nat)
    requires InFileOrder(hs, a) && a != []
    ensures k in a[..|a| - 1] <==> k in a && k != a[|a| - 1]
  {
    var m := |a| - 1;
    if k in a[..m] {
      var i :| 0 <= i < m && a[i] == k;
      assert Before(hs, a[i], a[m]);
    }
  }

  // ----- the stream -----

  lemma {:induction false} DataExactly(pe: Bytes, hs: seq<SectionHeader>, order: seq<nat>, parts: seq<Bytes>)
    requires (forall i :: 0 <= i < |order| ==> order[i] < |hs|) && AreData(pe, hs, order, parts)
    ensures RangesBytes(pe, Picked(hs, order)) == Some(Joined(parts))
    ensures SizeOf(Picked(hs, order)) == |Joined(parts)|
    decreases |order|
  {
    var rs := Picked(hs, order);
    if order != [] {
      var n := |order| - 1;
      assert rs[..n] == Picked(hs, order[..n]);
      DataExactly(pe, hs, order[..n], parts[..n]);
      assert IsData(pe, hs[order[n]], parts[n]);
    }
  }

  lemma {:induction false} DataExist(pe: Bytes, hs: seq<SectionHeader>, order: seq<nat>) returns (parts: seq<Bytes>)
    requires forall i :: 0 <= i < |order| ==> order[i] < |hs|
    requires RangesBytes(pe, Picked(hs, order)).Some?
    ensures AreData(pe, hs, order, parts)
    decreases |order|
  {
    parts := [];
    if order != [] {
      var n := |order| - 1;
      assert Picked(hs, order)[..n] == Picked(hs, order[..n]);
      parts := DataExist(pe, hs, order[..n]);
      var s := hs[order[n]];
      parts := parts + [pe[s.rawPointer..s.rawPointer + s.rawSize]];
    }
  }

  /** The sections in file order are what is sorted. */
  lemma SortExactly(hs: seq<SectionHeader>, order: seq<nat>)
    requires IsFileOrder(hs, order)
    ensures SortByOffset(RangesOf(hs)) == Picked(hs, order)
  {
    hide RangesOf, SortByOffset;
    var order' := OrderExists(hs);
    SameSections(hs, order, order');
    OneOrder(hs, order, order');
  }

  lemma SameSections(hs: seq<SectionHeader>, a: seq<nat>, b: seq<nat>)
    requires IsFileOrder(hs, a) && IsFileOrder(hs, b)
    ensures forall k :: k in a <==> k in b
  {
    assert forall k :: k in a ==> k < |hs|;
    assert forall k :: k in b ==> k < |hs|;
  }

  /** Where the certificate entry is. */
  function EntryAt(pe: Bytes, opt: nat): nat
    requires opt + 2 <= |pe|
  {
    if U16At(pe, opt) == 0x20B then opt + 144 else opt + 128
  }

  ghost predicate HasMagic(pe: Bytes, opt: nat) {
    && |pe| >= 64 && opt == U32At(pe, 60) + 24 && opt + 2 <= |pe|
    && pe[opt - 24..opt - 20] == ['P' as byte, 'E' as byte, 0, 0]
    && (U16At(pe, opt) == 0x10B || U16At(pe, opt) == 0x20B) && EntryAt(pe, opt) + 8 <= |pe|
  }

  lemma LayoutExactly(pe: Bytes)
    ensures LayoutOf(pe).Some? ==> HasMagic(pe, LayoutOf(pe).value.checksum - 64)
    ensures forall opt: nat :: HasMagic(pe, opt) ==>
              LayoutOf(pe) == Some(PeLayout(opt + 64, EntryAt(pe, opt), U32At(pe, opt + 60),
                                            U32At(pe, EntryAt(pe, opt) + 4), opt + U16At(pe, opt - 4),
                                            U16At(pe, opt - 18)))
  {
    hide U16At, U32At;
    assert PE_SIGNATURE == ['P' as byte, 'E' as byte, 0, 0];
  }

  /** The stream over given headers. */
  lemma StreamIs(pe: Bytes, opt: nat, im: PeImage, s: Bytes)
    requires HasMagic(pe, opt) && IsImage(pe, opt, im)
    ensures HashedStream(pe) == Some(s) <==> IsStream(pe, opt, EntryAt(pe, opt), im, s)
  {
    hide LayoutOf, U16At, U32At, SortByOffset, SectionRanges, EntryAt, StreamOf, IsStream, RangesBytes, SizeOf;
    LayoutExactly(pe);
    var p := LayoutOf(pe).value;
    AllRangesRead(pe, p.sectionTable, im.hs);
    SortExactly(im.hs, im.order);
    DataExactly(pe, im.hs, im.order, im.parts);
    StreamOfIs(pe, opt, p, Picked(im.hs, im.order), im, s);
  }

  lemma StreamOfIs(pe: Bytes, opt: nat, p: PeLayout, rs: seq<Range>, im: PeImage, s: Bytes)
    requires opt + 68 <= p.dd4 && p.dd4 + 8 <= |pe| && p.checksum == opt + 64
    requires p.headers == U32At(pe, opt + 60) && p.certSize == U32At(pe, p.dd4 + 4)
    requires RangesBytes(pe, rs) == Some(Joined(im.parts)) && SizeOf(rs) == |Joined(im.parts)|
    ensures StreamOf(pe, p, rs) == Some(s) <==> IsStream(pe, opt, p.dd4, im, s)
  {
    hide U32At, RangesBytes, SizeOf, PadLength, IsPad;
    PadExactly(|pe|);
  }

  lemma PadExactly(n: nat)
    ensures forall pad: nat :: IsPad(n, pad) <==> pad == PadLength(n)
  {
  }

  /** An image that can be hashed has headers, sections and data. */
  lemma ImageExists(pe: Bytes) returns (opt: nat, im: PeImage)
    requires HashedStream(pe).Some?
    ensures HasMagic(pe, opt) && IsImage(pe, opt, im)
  {
    hide LayoutOf, U16At, U32At, SortByOffset, SectionRanges, EntryAt, RangesBytes, RangesOf, IsHeader, IsFileOrder;
    LayoutExactly(pe);
    var p := LayoutOf(pe).value;
    opt := p.checksum - 64;
    var hs := HeadersExist(pe, p.sectionTable, p.sectionCount);
    AllRangesRead(pe, p.sectionTable, hs);
    im := PartsExist(pe, hs);
  }

  lemma PartsExist(pe: Bytes, hs: seq<SectionHeader>) returns (im: PeImage)
    requires RangesBytes(pe, SortByOffset(RangesOf(hs))).Some?
    ensures im.hs == hs && IsFileOrder(hs, im.order) && AreData(pe, hs, im.order, im.parts)
  {
    hide SortByOffset, RangesOf, RangesBytes, IsData;
    var order := OrderExists(hs);
    var parts := DataExist(pe, hs, order);
    im := PeImage(hs, order, parts);
  }

  /** A stream is hashed if and only if it is that of the image's section headers. */
  lemma StreamExactly(pe: Bytes, s: Bytes)
    ensures HashedStream(pe) == Some(s) <==> exists opt: nat, im :: Hashes(pe, opt, im, s)
  {
    hide HashedStream, IsImage, IsStream, U16At, U32At;
    if HashedStream(pe) == Some(s) {
      var opt, im := ImageExists(pe);
      StreamIs(pe, opt, im, s);
      assert Hashes(pe, opt, im, s);
    }
    forall opt: nat, im | Hashes(pe, opt, im, s) ensures HashedStream(pe) == Some(s) {
      MagicOf(pe, opt, im, s);
      StreamIs(pe, opt, im, s);
    }
  }

  lemma MagicOf(pe: Bytes, opt: nat, im: PeImage, s: Bytes)
    requires Hashes(pe, opt, im, s)
    ensures HasMagic(pe, opt) && IsImage(pe, opt, im) && IsStream(pe, opt, EntryAt(pe, opt), im, s)
  {
    hide U16At, U32At, IsStream, AreHeaders, IsFileOrder, AreData;
  }
}
