/** Byte strings, little-endian fields, and the "these bytes sit at this offset" relation
    on which every layout proof rests. */
module Bytes {

  type byte = b: int | 0 <= b < 256
  type Bytes = seq<byte>

  datatype Option<+T> = None | Some(value: T)

  function Min(a: nat, b: nat): nat {
    if a < b then a else b
  }

  function Zeros(n: nat): (z: Bytes)
    ensures |z| == n && forall i :: 0 <= i < n ==> z[i] == 0
  {
    seq(n, _ => 0)
  }

  function Flatten(parts: seq<Bytes>): Bytes {
    if parts == [] then [] else Flatten(parts[..|parts| - 1]) + parts[|parts| - 1]
  }

  lemma FlattenPush(parts: seq<Bytes>, p: Bytes)
    ensures Flatten(parts + [p]) == Flatten(parts) + p
  {
    assert (parts + [p])[..|parts|] == parts;
  }

  /** `(x as u16).to_le_bytes()`: the cast keeps the low 16 bits. */
  function LE16(x: nat): (s: Bytes)
    ensures |s| == 2
  {
    [x % 0x100, x / 0x100 % 0x100]
  }

  /** `(x as u32).to_le_bytes()` */
  function LE32(x: nat): (s: Bytes)
    ensures |s| == 4
  {
    LE16(x) + LE16(x / 0x1_0000)
  }

  /** `(x as u64).to_le_bytes()` */
  function LE64(x: nat): (s: Bytes)
    ensures |s| == 8
  {
    LE32(x) + LE32(x / 0x1_0000_0000)
  }

  function U16At(s: Bytes, i: nat): (v: nat)
    requires i + 2 <= |s|
    ensures v < 0x1_0000
  {
    s[i] as int + 0x100 * s[i + 1] as int
  }

  function U32At(s: Bytes, i: nat): (v: nat)
    requires i + 4 <= |s|
    ensures v < 0x1_0000_0000
  {
    U16At(s, i) + 0x1_0000 * U16At(s, i + 2)
  }

  function U64At(s: Bytes, i: nat): (v: nat)
    requires i + 8 <= |s|
    ensures v < 0x1_0000_0000_0000_0000
  {
    U32At(s, i) + 0x1_0000_0000 * U32At(s, i + 4)
  }

  /** `e` occupies `s` at offset `n`. */
  predicate At(s: Bytes, n: nat, e: Bytes) {
    n + |e| <= |s| && s[n..n + |e|] == e
  }

  lemma AtSplit(s: Bytes, n: nat, a: Bytes, b: Bytes)
    requires At(s, n, a + b)
    ensures At(s, n, a) && At(s, n + |a|, b)
  {
    var w := s[n..n + |a + b|];
    assert s[n..n + |a|] == w[..|a|] == a;
    assert s[n + |a|..n + |a| + |b|] == w[|a|..] == b;
  }

  /** What sits somewhere keeps sitting there when bytes are appended. */
  lemma AtAppend(s: Bytes, n: nat, e: Bytes, t: Bytes)
    requires At(s, n, e)
    ensures At(s + t, n, e)
  {
    assert (s + t)[n..n + |e|] == s[n..n + |e|];
  }

  lemma AtPushed(s: Bytes, e: Bytes)
    ensures At(s + e, |s|, e)
  {
  }

  lemma AtWithin(s: Bytes, n: nat, e: Bytes, m: nat, f: Bytes)
    requires At(s, n, e) && At(e, m, f)
    ensures At(s, n + m, f)
  {
    var w := s[n..n + |e|];
    forall i | 0 <= i < |f| ensures s[n + m + i] == f[i] {
      assert w[m + i] == e[m..m + |f|][i];
    }
    assert s[n + m..n + m + |f|] == f;
  }

  /** Sharing a suffix: an occurrence inside the suffix shifts with it. */
  lemma AtSuffix(s: Bytes, k: nat, n: nat, e: Bytes)
    requires k <= n && At(s, n, e)
    ensures At(s[k..], n - k, e)
  {
    assert s[k..][n - k..n - k + |e|] == s[n..n + |e|];
  }

  lemma AtPrefix(t: Bytes, s: Bytes, n: nat, e: Bytes)
    requires t <= s && At(t, n, e)
    ensures At(s, n, e)
  {
    assert s[n..n + |e|] == t[n..n + |e|];
  }

  lemma AtUnique(s: Bytes, n: nat, a: Bytes, b: Bytes)
    requires At(s, n, a) && At(s, n, b) && |a| == |b|
    ensures a == b
  {
  }

  lemma U16OfLE16(s: Bytes, n: nat, x: nat)
    requires At(s, n, LE16(x))
    ensures U16At(s, n) == x % 0x1_0000
  {
    assert s[n] == s[n..n + 2][0] && s[n + 1] == s[n..n + 2][1];
    assert x / 0x100 / 0x100 == x / 0x1_0000;
  }

  lemma U32OfLE32(s: Bytes, n: nat, x: nat)
    requires At(s, n, LE32(x))
    ensures U32At(s, n) == x % 0x1_0000_0000
  {
    AtSplit(s, n, LE16(x), LE16(x / 0x1_0000));
    U16OfLE16(s, n, x);
    U16OfLE16(s, n + 2, x / 0x1_0000);
    assert x / 0x1_0000 / 0x1_0000 == x / 0x1_0000_0000;
  }

  lemma U64OfLE64(s: Bytes, n: nat, x: nat)
    requires At(s, n, LE64(x))
    ensures U64At(s, n) == x % 0x1_0000_0000_0000_0000
  {
    hide LE32, U32At;
    AtSplit(s, n, LE32(x), LE32(x / 0x1_0000_0000));
    U32OfLE32(s, n, x);
    U32OfLE32(s, n + 4, x / 0x1_0000_0000);
    assert x / 0x1_0000_0000 / 0x1_0000_0000 == x / 0x1_0000_0000_0000_0000;
  }

  /** Encoding what was read gives the bytes read. */
  lemma At16(s: Bytes, n: nat)
    requires n + 2 <= |s|
    ensures At(s, n, LE16(U16At(s, n)))
  {
    assert s[n..n + 2] == [s[n], s[n + 1]];
  }

  lemma At32(s: Bytes, n: nat)
    requires n + 4 <= |s|
    ensures At(s, n, LE32(U32At(s, n)))
  {
    At16(s, n);
    At16(s, n + 2);
    hide LE16, U16At;
    assert LE16(U32At(s, n)) == LE16(U16At(s, n)) by { LowBits(U16At(s, n), U16At(s, n + 2)); }
    assert s[n..n + 4] == s[n..n + 2] + s[n + 2..n + 4];
  }

  lemma LowBits(a: nat, b: nat)
    ensures LE16(a + 0x1_0000 * b) == LE16(a)
  {
    LowByte(a, 0x100 * b);
    LowByte(a / 0x100, b);
    assert a + 0x100 * (0x100 * b) == a + 0x1_0000 * b;
  }

  lemma LowByte(a: nat, b: nat)
    ensures (a + 0x100 * b) % 0x100 == a % 0x100 && (a + 0x100 * b) / 0x100 == a / 0x100 + b
  {
  }

  lemma At64(s: Bytes, n: nat)
    requires n + 8 <= |s|
    ensures At(s, n, LE64(U64At(s, n)))
  {
    At32(s, n);
    At32(s, n + 4);
    hide LE32, U32At;
    assert LE32(U64At(s, n)) == LE32(U32At(s, n)) by { LowBits32(U32At(s, n), U32At(s, n + 4)); }
    assert s[n..n + 8] == s[n..n + 4] + s[n + 4..n + 8];
  }

  lemma LowBits32(a: nat, b: nat)
    ensures LE32(a + 0x1_0000_0000 * b) == LE32(a)
  {
    var c := a + 0x1_0000 * (0x1_0000 * b);
    LowBits(a, 0x1_0000 * b);
    assert c / 0x1_0000 == a / 0x1_0000 + 0x1_0000 * b;
    LowBits(a / 0x1_0000, b);
    hide LE16;
    assert a + 0x1_0000_0000 * b == c;
  }

  /** Two neighbouring parts. */
  lemma AtJoin(s: Bytes, n: nat, a: Bytes, b: Bytes)
    requires At(s, n, a) && At(s, n + |a|, b)
    ensures At(s, n, a + b)
  {
    assert s[n..n + |a + b|] == s[n..n + |a|] + s[n + |a|..n + |a| + |b|];
  }

  lemma AtMeans(s: Bytes, n: nat, e: Bytes)
    requires At(s, n, e)
    ensures n + |e| <= |s| && s[n..n + |e|] == e
  {
  }

  lemma AtParts(s: Bytes, n: nat, a: Bytes, b: Bytes)
    ensures At(s, n, a + b) <==> At(s, n, a) && At(s, n + |a|, b)
  {
    hide At;
    if At(s, n, a + b) { AtSplit(s, n, a, b); }
    if At(s, n, a) && At(s, n + |a|, b) { AtJoin(s, n, a, b); }
  }

  /** Reading a record field by field: one field now, the rest after it. */
  lemma Take16(s: Bytes, n: nat, x: nat, rest: Bytes)
    requires At(s, n, LE16(x) + rest)
    ensures n + 2 <= |s| && U16At(s, n) == x % 0x1_0000 && At(s, n + 2, rest)
  {
    hide LE16, U16At;
    AtSplit(s, n, LE16(x), rest);
    U16OfLE16(s, n, x);
  }

  lemma Take32(s: Bytes, n: nat, x: nat, rest: Bytes)
    requires At(s, n, LE32(x) + rest)
    ensures n + 4 <= |s| && U32At(s, n) == x % 0x1_0000_0000 && At(s, n + 4, rest)
  {
    hide LE32, U32At;
    AtSplit(s, n, LE32(x), rest);
    U32OfLE32(s, n, x);
  }

  lemma Take64(s: Bytes, n: nat, x: nat, rest: Bytes)
    requires At(s, n, LE64(x) + rest)
    ensures n + 8 <= |s| && U64At(s, n) == x % 0x1_0000_0000_0000_0000 && At(s, n + 8, rest)
  {
    hide LE64, U64At;
    AtSplit(s, n, LE64(x), rest);
    U64OfLE64(s, n, x);
  }

  // ----- lists of lists -----

  /** The parts, one after another. */
  function Joined<T>(parts: seq<seq<T>>): seq<T> {
    if parts == [] then [] else Joined(parts[..|parts| - 1]) + parts[|parts| - 1]
  }

  lemma JoinedPush<T>(parts: seq<seq<T>>, p: seq<T>)
    ensures Joined(parts + [p]) == Joined(parts) + p
  {
    assert (parts + [p])[..|parts|] == parts;
  }

  // ----- partial results -----

  function Prepend<T>(head: seq<T>, tail: Option<seq<T>>): Option<seq<T>> {
    match tail
    case None => None
    case Some(t) => Some(head + t)
  }

  lemma PrependMore<T>(a: seq<T>, b: seq<T>, r: Option<seq<T>>)
    ensures Prepend(a, Prepend(b, r)) == Prepend(a + b, r) && Prepend([], r) == r
  {
    match r
    case None =>
    case Some(t) =>
      assert a + (b + t) == (a + b) + t;
      assert [] + t == t;
  }

  lemma PrependSome<T>(a: seq<T>, b: seq<T>)
    ensures Prepend(a, Some(b)) == Some(a + b) && Prepend(a, Some([])) == Some(a) && Prepend(a, None) == None
  {
    assert a + [] == a;
  }
}
