/** A fixed-size zeroed buffer with little-endian field setters. */
module StructBuffers {
  import opened Bytes

  /** `s` with `d` written at `off`. */
  function Put(s: Bytes, off: nat, d: Bytes): (r: Bytes)
    requires off + |d| <= |s|
    ensures |r| == |s|
  {
    s[..off] + d + s[off + |d|..]
  }

  lemma PutHolds(s: Bytes, off: nat, d: Bytes)
    requires off + |d| <= |s|
    ensures At(Put(s, off, d), off, d)
  {
  }

  /** Fields elsewhere are left alone. */
  lemma PutKeeps(s: Bytes, off: nat, d: Bytes, n: nat, e: Bytes)
    requires off + |d| <= |s| && At(s, n, e) && (n + |e| <= off || off + |d| <= n)
    ensures At(Put(s, off, d), n, e)
  {
    var r := Put(s, off, d);
    assert r[n..n + |e|] == s[n..n + |e|];
  }

  /** Filling a zeroed buffer from the front. */
  lemma PutNext(done: Bytes, d: Bytes, total: nat)
    requires |done| + |d| <= total
    ensures Put(done + Zeros(total - |done|), |done|, d) == (done + d) + Zeros(total - |done + d|)
  {
  }

  lemma PutFirst(d: Bytes, total: nat)
    requires |d| <= total
    ensures Put(Zeros(total), 0, d) == d + Zeros(total - |d|)
  {
  }

  lemma PutNothing(s: Bytes, off: nat)
    requires off <= |s|
    ensures Put(s, off, []) == s
  {
  }

  lemma PutOneMore(s: Bytes, off: nat, d: Bytes, i: nat)
    requires off + |d| <= |s| && i < |d|
    ensures Put(s, off, d[..i])[off + i := d[i]] == Put(s, off, d[..i + 1])
  {
  }

  class StructBuffer {
    const buf: array<byte>

    constructor (size: nat)
      ensures fresh(buf) && buf[..] == Zeros(size)
    {
      buf := new byte[size](_ => 0);
    }

    method SetBytes(offset: nat, data: Bytes)
      requires offset + |data| <= buf.Length
      modifies buf
      ensures buf[..] == Put(old(buf[..]), offset, data)
    {
      hide Put;
      ghost var before := buf[..];
      PutNothing(before, offset);
      assert data[..0] == [];
      for i := 0 to |data|
        invariant buf[..] == Put(before, offset, data[..i])
      {
        PutOneMore(before, offset, data, i);
        buf[offset + i] := data[i];
        assert buf[..] == Put(before, offset, data[..i])[offset + i := data[i]];
      }
      assert data[..|data|] == data;
    }

    method SetU16(offset: nat, value: nat)
      requires offset + 2 <= buf.Length
      modifies buf
      ensures buf[..] == Put(old(buf[..]), offset, LE16(value))
    {
      SetBytes(offset, LE16(value));
    }

    method SetU32(offset: nat, value: nat)
      requires offset + 4 <= buf.Length
      modifies buf
      ensures buf[..] == Put(old(buf[..]), offset, LE32(value))
    {
      SetBytes(offset, LE32(value));
    }

    method SetU64(offset: nat, value: nat)
      requires offset + 8 <= buf.Length
      modifies buf
      ensures buf[..] == Put(old(buf[..]), offset, LE64(value))
    {
      SetBytes(offset, LE64(value));
    }
  }
}
