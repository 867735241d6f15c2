/**
 * The engine's binary stream conventions (Serializer/Deserializer on a File):
 * little-endian integers, strings written as their bytes plus a terminating zero.
 * A reader is modelled by the bytes not yet read: a read consumes bytes from the
 * front, and a read past the end delivers no bytes, so the missing bytes of an
 * integer read as 0 and the stream stays empty.
 */
module Bytes {
  type byte = x: int | 0 <= x < 256

  const U16_LIMIT: int := 0x1_0000
  const U32_LIMIT: int := 0x1_0000_0000

  function Pow256(n: nat): (r: nat)
    ensures r > 0
  {
    if n == 0 then 1 else 256 * Pow256(n - 1)
  }

  /** The first byte still to be read, or 0 at the end. */
  function Head(s: seq<byte>): byte
  {
    if |s| > 0 then s[0] else 0
  }

  /** The stream after reading one byte. */
  function Tail(s: seq<byte>): (r: seq<byte>)
    ensures |r| == if |s| > 0 then |s| - 1 else 0
  {
    if |s| > 0 then s[1..] else []
  }

  /** The `n` low bytes of `x`, least significant first. */
  function LE(x: nat, n: nat): (r: seq<byte>)
    ensures |r| == n
  {
    if n == 0 then [] else [x % 256] + LE(x / 256, n - 1)
  }

  /** The little-endian value of the next `n` bytes (missing bytes read as 0), and the rest. */
  function ReadLE(s: seq<byte>, n: nat): (r: (nat, seq<byte>))
    ensures r.0 < Pow256(n) && |r.1| <= |s|
  {
    if n == 0 then (0, s)
    else
      var rest := ReadLE(Tail(s), n - 1);
      (Head(s) + 256 * rest.0, rest.1)
  }

  function U8Bytes(x: nat): (r: seq<byte>)
    ensures |r| == 1
  {
    LE(x, 1)
  }

  function U16Bytes(x: nat): (r: seq<byte>)
    ensures |r| == 2
  {
    LE(x, 2)
  }

  function U32Bytes(x: nat): (r: seq<byte>)
    ensures |r| == 4
  {
    LE(x, 4)
  }

  function ReadU8(s: seq<byte>): (r: (nat, seq<byte>))
    ensures r.0 < 256 && |r.1| <= |s|
  {
    ReadLE(s, 1)
  }

  function ReadU16(s: seq<byte>): (r: (nat, seq<byte>))
    ensures r.0 < U16_LIMIT && |r.1| <= |s|
  {
    ReadLE(s, 2)
  }

  function ReadU32(s: seq<byte>): (r: (nat, seq<byte>))
    ensures r.0 < U32_LIMIT && |r.1| <= |s|
  {
    ReadLE(s, 4)
  }

  /** `n` bytes: those still in the stream, then zeros. */
  function ReadBytes(s: seq<byte>, n: nat): (r: (seq<byte>, seq<byte>))
    ensures |r.0| == n && |r.1| <= |s|
    ensures forall i :: 0 <= i < n && i < |s| ==> r.0[i] == s[i]
    ensures forall i :: |s| <= i < n ==> r.0[i] == 0
  {
    (seq<byte>(n, i requires 0 <= i < n => if i < |s| then s[i] else 0), if n <= |s| then s[n..] else [])
  }

  /** A string followed by its terminating zero. */
  function CStringBytes(s: seq<byte>): (r: seq<byte>)
    ensures |r| == |s| + 1
  {
    s + [0]
  }

  /** Bytes up to (not including) the next zero or the end of the stream; the zero is consumed. */
  function ReadCString(s: seq<byte>): (r: (seq<byte>, seq<byte>))
    ensures 0 !in r.0 && |r.1| <= |s|
  {
    if |s| == 0 then ([], [])
    else if s[0] == 0 then ([], s[1..])
    else
      var rest := ReadCString(s[1..]);
      ([s[0]] + rest.0, rest.1)
  }

  lemma {:induction false} LERoundTrip(x: nat, n: nat, rest: seq<byte>)
    requires x < Pow256(n)
    ensures ReadLE(LE(x, n) + rest, n) == (x, rest)
    decreases n
  {
    if n > 0 {
      var s := LE(x, n) + rest;
      assert Head(s) == x % 256;
      assert Tail(s) == LE(x / 256, n - 1) + rest;
      DivBound(x, Pow256(n - 1));
      LERoundTrip(x / 256, n - 1, rest);
    } else {
      assert LE(x, n) + rest == rest;
    }
  }

  lemma DivBound(x: nat, p: nat)
    requires x < 256 * p
    ensures x / 256 < p && x % 256 + 256 * (x / 256) == x
  {
  }

  lemma U8RoundTrip(x: nat, rest: seq<byte>)
    requires x < 256
    ensures ReadU8(U8Bytes(x) + rest) == (x, rest)
  {
    LERoundTrip(x, 1, rest);
  }

  lemma U16RoundTrip(x: nat, rest: seq<byte>)
    requires x < U16_LIMIT
    ensures ReadU16(U16Bytes(x) + rest) == (x, rest)
  {
    LERoundTrip(x, 2, rest);
  }

  lemma U32RoundTrip(x: nat, rest: seq<byte>)
    requires x < U32_LIMIT
    ensures ReadU32(U32Bytes(x) + rest) == (x, rest)
  {
    LERoundTrip(x, 4, rest);
  }

  lemma {:induction false} CStringRoundTrip(name: seq<byte>, rest: seq<byte>)
    requires 0 !in name
    ensures ReadCString(CStringBytes(name) + rest) == (name, rest)
    decreases |name|
  {
    var s := CStringBytes(name) + rest;
    if |name| > 0 {
      assert s[1..] == CStringBytes(name[1..]) + rest;
      CStringRoundTrip(name[1..], rest);
      assert [name[0]] + name[1..] == name;
    } else {
      assert s[1..] == rest;
    }
  }

  lemma BytesRoundTrip(b: seq<byte>, rest: seq<byte>)
    ensures ReadBytes(b + rest, |b|) == (b, rest)
  {
    var r := ReadBytes(b + rest, |b|);
    assert r.0 == b;
    assert r.1 == rest;
  }

  /** `n` entries read one after another by `entry`, and the rest of the stream. */
  function ReadEntries<T>(s: seq<byte>, entry: seq<byte> -> (T, seq<byte>), n: nat): (r: (seq<T>, seq<byte>))
    ensures |r.0| == n
    decreases n
  {
    if n == 0 then ([], s)
    else
      var first := entry(s);
      var rest := ReadEntries(first.1, entry, n - 1);
      ([first.0] + rest.0, rest.1)
  }

  /** Reading `a + b` entries is reading `a` entries and then `b` more from where they end. */
  lemma {:induction false} ReadEntriesAppend<T>(s: seq<byte>, entry: seq<byte> -> (T, seq<byte>), a: nat, b: nat)
    ensures ReadEntries(s, entry, a + b).0 == ReadEntries(s, entry, a).0 + ReadEntries(ReadEntries(s, entry, a).1, entry, b).0
    ensures ReadEntries(s, entry, a + b).1 == ReadEntries(ReadEntries(s, entry, a).1, entry, b).1
    decreases a
  {
    if a > 0 {
      var first := entry(s);
      var x := ReadEntries(first.1, entry, a - 1);
      var y := ReadEntries(x.1, entry, b);
      ReadEntriesAppend(first.1, entry, a - 1, b);
      assert ReadEntries(s, entry, a + b) == ([first.0] + (x.0 + y.0), y.1);
      assert [first.0] + (x.0 + y.0) == [first.0] + x.0 + y.0;
    }
  }

  /** Reading one entry. */
  lemma ReadEntriesOne<T>(s: seq<byte>, entry: seq<byte> -> (T, seq<byte>))
    ensures ReadEntries(s, entry, 1) == ([entry(s).0], entry(s).1)
  {
    assert ReadEntries(s, entry, 1) == ([entry(s).0] + ReadEntries(entry(s).1, entry, 0).0, entry(s).1);
    assert [entry(s).0] + ReadEntries(entry(s).1, entry, 0).0 == [entry(s).0];
  }

  /** Reading `a` entries and then `b` more reads both runs, in order. */
  lemma ReadEntriesThen<T>(s: seq<byte>, entry: seq<byte> -> (T, seq<byte>), a: nat, b: nat,
                           xs: seq<T>, mid: seq<byte>, ys: seq<T>, rest: seq<byte>)
    requires ReadEntries(s, entry, a) == (xs, mid)
    requires ReadEntries(mid, entry, b) == (ys, rest)
    ensures ReadEntries(s, entry, a + b) == (xs + ys, rest)
  {
    ReadEntriesAppend(s, entry, a, b);
  }

  /** Reading one more entry after `init` appends what that entry reads. */
  lemma ReadEntriesSnoc<T>(s: seq<byte>, entry: seq<byte> -> (T, seq<byte>), init: seq<T>, last: T, mid: seq<byte>, rest: seq<byte>)
    requires ReadEntries(s, entry, |init|) == (init, mid)
    requires entry(mid) == (last, rest)
    ensures ReadEntries(s, entry, |init| + 1) == (init + [last], rest)
  {
    ReadEntriesOne(mid, entry);
    ReadEntriesAppend(s, entry, |init|, 1);
  }

  /** `s` with the bytes from `offset` on replaced by `d` (a memcpy into a buffer); `s` itself when `d` does not fit. */
  function Overwrite(s: seq<byte>, offset: nat, d: seq<byte>): (r: seq<byte>)
    ensures |r| == |s|
  {
    if offset + |d| <= |s| then s[..offset] + d + s[offset + |d|..] else s
  }

  /** Copying a range of a buffer onto itself changes nothing. */
  lemma OverwriteSelf(s: seq<byte>, offset: nat, n: nat)
    requires offset + n <= |s|
    ensures Overwrite(s, offset, s[offset..offset + n]) == s
  {
    var r := Overwrite(s, offset, s[offset..offset + n]);
    assert forall k :: 0 <= k < |s| ==> r[k] == s[k];
  }

  /** A write that covers the whole buffer replaces it. */
  lemma OverwriteWhole(s: seq<byte>, d: seq<byte>)
    requires |d| == |s|
    ensures Overwrite(s, 0, d) == d
  {
    var r := Overwrite(s, 0, d);
    assert forall k :: 0 <= k < |s| ==> r[k] == d[k];
  }

  /** The bytes up to the end of a write are the old prefix followed by the written bytes. */
  lemma OverwritePrefix(s: seq<byte>, offset: nat, d: seq<byte>)
    requires offset + |d| <= |s|
    ensures Overwrite(s, offset, d)[..offset + |d|] == s[..offset] + d
  {
  }

  /** One byte after an overwrite: from `d` inside the written range, unchanged outside it. */
  lemma OverwriteAt(s: seq<byte>, offset: nat, d: seq<byte>, k: nat)
    requires offset + |d| <= |s| && k < |s|
    ensures offset <= k < offset + |d| ==> Overwrite(s, offset, d)[k] == d[k - offset]
    ensures !(offset <= k < offset + |d|) ==> Overwrite(s, offset, d)[k] == s[k]
  {
  }

  /** Byte `j` of the written bytes lands at `offset + j`. */
  lemma OverwriteAtOffset(s: seq<byte>, offset: nat, d: seq<byte>, j: nat)
    requires offset + |d| <= |s| && j < |d|
    ensures Overwrite(s, offset, d)[offset + j] == d[j]
  {
    assert Overwrite(s, offset, d) == s[..offset] + d + s[offset + |d|..];
  }

  /** A range copied from a source buffer holds, at each position, the source's byte there. */
  lemma OverwriteFrom(s: seq<byte>, offset: nat, source: seq<byte>, from: nat, len: nat, j: nat)
    requires offset + len <= |s| && from + len <= |source| && j < len
    ensures Overwrite(s, offset, source[from..from + len])[offset + j] == source[from + j]
  {
    OverwriteAtOffset(s, offset, source[from..from + len], j);
  }

  /** The written range holds exactly the written bytes. */
  lemma OverwriteSlice(s: seq<byte>, offset: nat, d: seq<byte>)
    requires offset + |d| <= |s|
    ensures Overwrite(s, offset, d)[offset..offset + |d|] == d
  {
    assert Overwrite(s, offset, d) == s[..offset] + d + s[offset + |d|..];
  }

  /** memcpy of `d` into `a` at `offset`. */
  method CopyInto(a: array<byte>, offset: nat, d: seq<byte>)
    requires offset + |d| <= a.Length
    modifies a
    ensures a[..] == Overwrite(old(a[..]), offset, d)
  {
    ghost var s0 := a[..];
    for i := 0 to |d|
      invariant forall k :: 0 <= k < a.Length ==> a[k] == if offset <= k < offset + i then d[k - offset] else s0[k]
    {
      a[offset + i] := d[i];
    }
    assert a[..] == Overwrite(s0, offset, d);
  }
}
