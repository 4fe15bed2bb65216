/** Bytes, 32-bit words and copies between buffers. */
module Bytes {

  type Byte = x: int | 0 <= x < 256

  /** Addresses and sizes are 32-bit unsigned numbers. */
  function U32(x: nat): nat { if x < 0x1_0000_0000 then x else x % 0x1_0000_0000 }

  /** A 32-bit word read as a signed number. */
  function I32(x: nat): int {
    if U32(x) < 0x8000_0000 then U32(x) else U32(x) - 0x1_0000_0000
  }

  /** A signed 32-bit number. */
  type Long = x: int | -0x8000_0000 <= x < 0x8000_0000

  /** Signed arithmetic wraps around. */
  function Wrap(x: int): Long {
    (x + 0x8000_0000) % 0x1_0000_0000 - 0x8000_0000
  }

  function Negate(x: Long): Long {
    var v: int := x;
    Wrap(-v)
  }

  /** A signed number taken as an unsigned one. */
  function Unsigned(x: Long): nat {
    if x < 0 then x + 0x1_0000_0000 else x
  }

  lemma WrapSame(x: int, y: int, k: int)
    requires x == y + 0x1_0000_0000 * k
    ensures Wrap(x) == Wrap(y)
  {
  }

  /** What is cut off: a multiple of 2^32. */
  lemma WrapCuts(x: int) returns (k: int)
    ensures x == Wrap(x) + 0x1_0000_0000 * k
  {
    k := (x + 0x8000_0000) / 0x1_0000_0000;
  }

  lemma WrapId(x: Long)
    ensures Wrap(x) == x
  {
  }

  /** The distance from 0, also of the smallest number. */
  lemma NegateUnsigned(x: Long, n: nat)
    requires n > 0 && x + n == 0
    ensures Unsigned(Negate(x)) == n
  {
    var v: int := x;
    assert -v == n;
    if n < 0x8000_0000 { WrapId(n); } else { WrapSame(n, -0x8000_0000, 1); }
  }

  /** The little-endian word at place `o`. */
  function Get(data: seq<Byte>, o: nat): (w: nat)
    requires o + 4 <= |data|
    ensures w < 0x1_0000_0000
  {
    var b0: int, b1: int, b2: int, b3: int := data[o], data[o + 1], data[o + 2], data[o + 3];
    b0 + 0x100 * b1 + 0x1_0000 * b2 + 0x100_0000 * b3
  }

  /** Word `i` of a buffer of words. */
  function Word(data: seq<Byte>, i: nat): (w: nat)
    requires 4 * i + 4 <= |data|
    ensures w < 0x1_0000_0000
  {
    Get(data, 4 * i)
  }

  /** Bytes `lo` to `hi`. */
  function Range(s: seq<Byte>, lo: nat, hi: nat): (r: seq<Byte>)
    requires lo <= hi <= |s|
    ensures |r| == hi - lo
  {
    s[lo..hi]
  }

  lemma RangeCat(s: seq<Byte>, lo: nat, mid: nat, hi: nat)
    requires lo <= mid <= hi <= |s|
    ensures Range(s, lo, mid) + Range(s, mid, hi) == Range(s, lo, hi)
  {
  }

  lemma RangeRange(s: seq<Byte>, a: nat, b: nat, lo: nat, hi: nat)
    requires a <= b <= |s| && lo <= hi <= b - a
    ensures Range(Range(s, a, b), lo, hi) == Range(s, a + lo, a + hi)
  {
    var l, r := Range(Range(s, a, b), lo, hi), Range(s, a + lo, a + hi);
    assert |l| == |r|;
    forall i | 0 <= i < |l| ensures l[i] == r[i] {
      assert l[i] == Range(s, a, b)[lo + i];
    }
  }

  /** `buf` with `data` copied to place `at`, byte by byte. */
  function Patch(buf: seq<Byte>, at: nat, data: seq<Byte>): (r: seq<Byte>)
    requires at + |data| <= |buf|
    ensures |r| == |buf|
    decreases |data|
  {
    if data == [] then buf else Patch(buf[at := data[0]], at + 1, data[1..])
  }

  lemma {:induction false} PatchCat(buf: seq<Byte>, at: nat, a: seq<Byte>, b: seq<Byte>)
    requires at + |a| + |b| <= |buf|
    ensures Patch(Patch(buf, at, a), at + |a|, b) == Patch(buf, at, a + b)
    decreases |a|
  {
    if a == [] {
      assert a + b == b;
    } else {
      PatchCat(buf[at := a[0]], at + 1, a[1..], b);
      assert (a + b)[1..] == a[1..] + b;
    }
  }

  /** Copying changes exactly the bytes of the destination range. */
  lemma {:induction false} PatchIs(buf: seq<Byte>, at: nat, data: seq<Byte>)
    requires at + |data| <= |buf|
    ensures Patch(buf, at, data) == buf[..at] + data + buf[at + |data|..]
    decreases |data|
  {
    if data != [] {
      PatchIs(buf[at := data[0]], at + 1, data[1..]);
    }
  }

  predicate Same(a: seq<Byte>, b: seq<Byte>, i: nat) { i < |a| && i < |b| && a[i] == b[i] }

  /** The bytes `lo` to `hi` are the same in both buffers. */
  ghost predicate Agree(a: seq<Byte>, b: seq<Byte>, lo: nat, hi: nat) {
    |a| == |b| && hi <= |a| && forall i: nat {:trigger Same(a, b, i)} :: lo <= i < hi ==> Same(a, b, i)
  }

  lemma AgreeTrans(a: seq<Byte>, b: seq<Byte>, c: seq<Byte>, lo: nat, hi: nat)
    requires Agree(a, b, lo, hi) && Agree(b, c, lo, hi)
    ensures Agree(a, c, lo, hi)
  {
    forall i: nat | lo <= i < hi ensures Same(a, c, i) { assert Same(a, b, i) && Same(b, c, i); }
  }

  lemma AgreePart(a: seq<Byte>, b: seq<Byte>, lo: nat, hi: nat, l: nat, h: nat)
    requires Agree(a, b, lo, hi) && lo <= l && h <= hi
    ensures Agree(a, b, l, h)
  {
  }

  lemma {:induction false} PatchSame(buf: seq<Byte>, at: nat, data: seq<Byte>, i: nat)
    requires at + |data| <= |buf| && i < |buf| && (i < at || at + |data| <= i)
    ensures Patch(buf, at, data)[i] == buf[i]
    decreases |data|
  {
    if data != [] { PatchSame(buf[at := data[0]], at + 1, data[1..], i); }
  }

  lemma PatchAgrees(buf: seq<Byte>, at: nat, data: seq<Byte>, lo: nat, hi: nat)
    requires at + |data| <= |buf| && hi <= |buf| && (hi <= at || at + |data| <= lo)
    ensures Agree(buf, Patch(buf, at, data), lo, hi)
  {
    forall i: nat | lo <= i < hi ensures Same(buf, Patch(buf, at, data), i) { PatchSame(buf, at, data, i); }
  }

  lemma {:induction false} PatchAt(buf: seq<Byte>, at: nat, data: seq<Byte>, i: nat)
    requires at + |data| <= |buf| && i < |data|
    ensures Patch(buf, at, data)[at + i] == data[i]
    decreases |data|
  {
    if i == 0 {
      PatchSame(buf[at := data[0]], at + 1, data[1..], at);
    } else {
      PatchAt(buf[at := data[0]], at + 1, data[1..], i - 1);
    }
  }

  /** A byte in front of a copied range may be written after it. */
  lemma PatchFront(buf: seq<Byte>, at: nat, c: Byte, rest: seq<Byte>)
    requires at + 1 + |rest| <= |buf|
    ensures Patch(buf, at + 1, rest)[at := c] == Patch(buf, at, [c] + rest)
  {
    assert ([c] + rest)[1..] == rest;
    PatchIs(buf, at + 1, rest);
    PatchIs(buf[at := c], at + 1, rest);
  }

  /** `memcpy`: `n` bytes of `from` at `i` to `to` at `at`. */
  method Memcpy(to: array<Byte>, at: nat, from: seq<Byte>, i: nat, n: nat)
    requires at + n <= to.Length && i + n <= |from|
    modifies to
    ensures to[..] == Patch(old(to[..]), at, Range(from, i, i + n))
  {
    ghost var buf := to[..];
    var k := 0;
    while k < n
      invariant k <= n
      invariant to[..] == Patch(buf, at, Range(from, i, i + k))
    {
      PatchCat(buf, at, Range(from, i, i + k), [from[i + k]]);
      assert Range(from, i, i + k + 1) == Range(from, i, i + k) + [from[i + k]];
      ghost var was := to[..];
      to[at + k] := from[i + k];
      assert to[..] == was[at + k := from[i + k]];
      assert Patch(was, at + k, [from[i + k]]) == was[at + k := from[i + k]];
      k := k + 1;
    }
  }
}
