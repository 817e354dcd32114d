/** Machine integers, little-endian words and byte-addressed memory, as both
    sides of the guest boundary use them. */
module Bytes {

  datatype Option<+T> = None | Some(value: T)

  datatype Result<+T, +E> = Success(value: T) | Failure(error: E)

  type byte = x: int | 0 <= x < 0x100

  type u32 = x: int | 0 <= x < 0x1_0000_0000

  type u64 = x: int | 0 <= x < 0x1_0000_0000_0000_0000

  type i32 = x: int | -0x8000_0000 <= x < 0x8000_0000

  const MAX_U32 := 0xFFFF_FFFF
  const TWO_64 := 0x1_0000_0000_0000_0000

  /** Reduction to an unsigned 32-bit word: every uint32 operation that could wrap goes through it. */
  function Wrap32(x: int): (r: u32)
    ensures 0 <= x <= MAX_U32 ==> r == x
  {
    x % 0x1_0000_0000
  }

  function Wrap64(x: int): (r: u64)
    ensures 0 <= x < TWO_64 ==> r == x
  {
    x % TWO_64
  }

  /** The int32 that a uint32 bit pattern denotes. */
  function Signed32(x: u32): i32 {
    if x < 0x8000_0000 then x else x - 0x1_0000_0000
  }

  lemma SignedWrap(x: i32)
    ensures Signed32(Wrap32(x)) == x
  {}

  function Max(a: int, b: int): int {
    if a < b then b else a
  }

  function Zeros(n: nat): (s: seq<byte>)
    ensures |s| == n
    ensures forall i :: 0 <= i < n ==> s[i] == 0
  {
    seq(n, _ => 0)
  }

  function Le16(lo: int, hi: int): int {
    lo + hi * 0x100
  }

  function Be24(a: int, b: int, c: int): int {
    a * 0x1_0000 + b * 0x100 + c
  }

  // ---- little-endian words ----

  function Pow256(n: nat): (p: nat)
    ensures p >= 1
  {
    if n == 0 then 1 else 256 * Pow256(n - 1)
  }

  /** The n low-order bytes of x, least significant first. */
  function LE(x: nat, n: nat): (s: seq<byte>)
    ensures |s| == n
    decreases n
  {
    if n == 0 then [] else [x % 256] + LE(x / 256, n - 1)
  }

  function FromLE(s: seq<byte>): nat {
    if |s| == 0 then 0 else s[0] + 256 * FromLE(s[1..])
  }

  lemma {:induction false} LERoundTrip(x: nat, n: nat)
    requires x < Pow256(n)
    ensures FromLE(LE(x, n)) == x
    decreases n
  {
    if n == 0 {
    } else {
      LERoundTrip(x / 256, n - 1);
      assert LE(x, n)[1..] == LE(x / 256, n - 1);
    }
  }

  /** The bytes of a word, least significant first. */
  lemma {:induction false} WordSpells(x: u32)
    ensures LE(x, 4) == [x % 256, x / 256 % 256, x / 65536 % 256, x / 16777216]
  {
    var x1, x2, x3 := x / 256, x / 256 / 256, x / 256 / 256 / 256;
    assert x2 == x / 65536 && x3 == x / 16777216;
    assert LE(x3, 1) == [x3 % 256] + LE(x3 / 256, 0);
    assert LE(x2, 2) == [x2 % 256] + LE(x3, 1);
    assert LE(x1, 3) == [x1 % 256] + LE(x2, 2);
  }

  /** A double word is its low word and then its high word. */
  lemma {:induction false} DoubleWordSpells(x: nat, n: nat)
    ensures LE(x, 4 + n) == LE(x % 0x1_0000_0000, 4) + LE(x / 0x1_0000_0000, n)
  {
    var lo, hi := x % 0x1_0000_0000, x / 0x1_0000_0000;
    Shifted(x, lo, hi, 0x1_0000_0000, 0x100_0000);
    Shifted(x / 256, lo / 256, hi, 0x100_0000, 0x1_0000);
    Shifted(x / 256 / 256, lo / 256 / 256, hi, 0x1_0000, 0x100);
    Shifted(x / 256 / 256 / 256, lo / 256 / 256 / 256, hi, 0x100, 1);
    assert LE(lo, 4) == [lo % 256] + LE(lo / 256, 3);
    assert LE(lo / 256, 3) == [lo / 256 % 256] + LE(lo / 256 / 256, 2);
    assert LE(lo / 256 / 256, 2) == [lo / 256 / 256 % 256] + LE(lo / 256 / 256 / 256, 1);
    assert LE(lo / 256 / 256 / 256, 1) == [lo / 256 / 256 / 256 % 256] + LE(lo / 256 / 256 / 256 / 256, 0);
    assert LE(x, 4 + n) == [x % 256] + LE(x / 256, 3 + n);
    assert LE(x / 256, 3 + n) == [x / 256 % 256] + LE(x / 256 / 256, 2 + n);
    assert LE(x / 256 / 256, 2 + n) == [x / 256 / 256 % 256] + LE(x / 256 / 256 / 256, 1 + n);
    assert LE(x / 256 / 256 / 256, 1 + n) == [x / 256 / 256 / 256 % 256] + LE(hi, n);
  }

  lemma Shifted(x: nat, lo: nat, hi: nat, unit: nat, next: nat)
    requires unit == 256 * next && next > 0 && lo < unit && x == lo + hi * unit
    ensures x % 256 == lo % 256 && x / 256 == lo / 256 + hi * next && lo / 256 < next
  {
    assert hi * unit == 256 * (hi * next);
  }

  lemma FromLEBound(s: seq<byte>)
    ensures FromLE(s) < Pow256(|s|)
  {
    if |s| > 0 {
      FromLEBound(s[1..]);
    }
  }

  function Get32(s: seq<byte>, off: nat): (x: u32)
    requires off + 4 <= |s|
  {
    FromLEBound(s[off..off + 4]);
    assert Pow256(4) == 0x1_0000_0000;
    FromLE(s[off..off + 4])
  }

  function Get64(s: seq<byte>, off: nat): (x: u64)
    requires off + 8 <= |s|
  {
    FromLEBound(s[off..off + 8]);
    assert Pow256(8) == TWO_64;
    FromLE(s[off..off + 8])
  }

  function Put32(x: u32): (s: seq<byte>)
    ensures |s| == 4
  {
    LE(x, 4)
  }

  function Put64(x: u64): (s: seq<byte>)
    ensures |s| == 8
  {
    LE(x, 8)
  }

  /** Consecutive 32-bit fields of a packed struct. */
  function Words(ws: seq<u32>): (s: seq<byte>)
    ensures |s| == 4 * |ws|
  {
    if |ws| == 0 then [] else Put32(ws[0]) + Words(ws[1..])
  }

  lemma {:induction false} GetPut64(pre: seq<byte>, x: u64, post: seq<byte>)
    ensures Get64(pre + Put64(x) + post, |pre|) == x
  {
    assert (pre + Put64(x) + post)[|pre|..|pre| + 8] == Put64(x);
    assert Pow256(8) == TWO_64;
    LERoundTrip(x, 8);
  }

  lemma SliceAfter(a: seq<byte>, b: seq<byte>, lo: nat, hi: nat)
    requires lo <= hi <= |b|
    ensures (a + b)[|a| + lo..|a| + hi] == b[lo..hi]
  {}

  lemma FrontSlice(a: seq<byte>, b: seq<byte>, lo: nat, hi: nat)
    requires lo <= hi <= |a|
    ensures (a + b)[lo..hi] == a[lo..hi]
  {}

  lemma BackSlice(a: seq<byte>, b: seq<byte>, lo: nat, hi: nat)
    requires lo == |a| && hi == |a| + |b|
    ensures (a + b)[lo..hi] == b
  {}

  lemma SubSlice(s: seq<byte>, a: nat, b: nat, lo: nat, hi: nat)
    requires a <= b <= |s| && lo <= hi <= b - a
    ensures s[a..b][lo..hi] == s[a + lo..a + hi]
  {
    var t, u, v := s[a..b], s[a..b][lo..hi], s[a + lo..a + hi];
    forall k | 0 <= k < hi - lo ensures u[k] == v[k] {
      assert u[k] == t[lo + k] == s[a + lo + k];
    }
  }

  lemma SliceWithin(pre: seq<byte>, s: seq<byte>, post: seq<byte>, lo: nat, hi: nat)
    requires lo <= hi <= |s|
    ensures (pre + s + post)[|pre| + lo..|pre| + hi] == s[lo..hi]
  {}

  /** The run of bytes e at position i ends with last, after its front. */
  lemma SplitLast(s: seq<byte>, i: nat, front: seq<byte>, last: byte)
    requires i + |front| + 1 <= |s| && s[i..i + |front| + 1] == front + [last]
    ensures s[i..i + |front|] == front && s[i + |front|] == last
  {
    var e := s[i..i + |front| + 1];
    assert e[..|front|] == front;
    assert s[i + |front|] == e[|front|];
  }

  lemma {:induction false} WordSlice(ws: seq<u32>, k: nat, off: nat)
    requires k < |ws| && off == 4 * k
    ensures Words(ws)[off..off + 4] == Put32(ws[k])
    decreases k
  {
    hide LE;
    var first, rest := Put32(ws[0]), Words(ws[1..]);
    assert Words(ws) == first + rest;
    if k == 0 {
      assert (first + rest)[..4] == first;
    } else {
      WordSlice(ws[1..], k - 1, off - 4);
      SliceAfter(first, rest, off - 4, off);
    }
  }

  lemma {:induction false} GetAt32(s: seq<byte>, off: nat, x: u32)
    requires off + 4 <= |s| && s[off..off + 4] == Put32(x)
    ensures Get32(s, off) == x
  {
    assert Pow256(4) == 0x1_0000_0000;
    LERoundTrip(x, 4);
  }

  lemma {:induction false} WordBytes(pre: seq<byte>, ws: seq<u32>, post: seq<byte>, k: nat, lo: nat)
    requires k < |ws| && lo == 4 * k
    ensures (pre + Words(ws) + post)[|pre| + lo..|pre| + lo + 4] == Put32(ws[k])
  {
    hide Put32;
    WordSlice(ws, k, lo);
    SliceWithin(pre, Words(ws), post, lo, lo + 4);
  }

  /** Field k of a word-packed struct, wherever the struct sits. */
  lemma {:induction false} WordAt(s: seq<byte>, pre: seq<byte>, ws: seq<u32>, post: seq<byte>, k: nat, off: nat)
    requires s == pre + Words(ws) + post
    requires k < |ws| && off == |pre| + 4 * k
    ensures off + 4 <= |s| && Get32(s, off) == ws[k]
  {
    hide Words, Get32;
    WordBytes(pre, ws, post, k, off - |pre|);
    GetAt32(s, off, ws[k]);
  }

  // ---- byte-addressed memory ----

  /** m with data stored from offset off. */
  function Write(m: seq<byte>, off: int, data: seq<byte>): (r: seq<byte>)
    requires 0 <= off && off + |data| <= |m|
    ensures |r| == |m|
    ensures forall i {:trigger r[i]} :: 0 <= i < |m| ==>
              r[i] == if off <= i < off + |data| then data[i - off] else m[i]
  {
    m[..off] + data + m[off + |data|..]
  }

  lemma ReadBack(m: seq<byte>, off: int, data: seq<byte>)
    requires 0 <= off && off + |data| <= |m|
    ensures Write(m, off, data)[off..off + |data|] == data
  {}

  lemma ReadAside(m: seq<byte>, off: int, data: seq<byte>, lo: int, hi: int)
    requires 0 <= off && off + |data| <= |m|
    requires 0 <= lo <= hi <= |m|
    requires hi <= off || off + |data| <= lo
    ensures Write(m, off, data)[lo..hi] == m[lo..hi]
  {}

  /** Two stores one after the other are one store of both runs of bytes. */
  lemma WriteAppend(m: seq<byte>, off: int, a: seq<byte>, b: seq<byte>)
    requires 0 <= off && off + |a| + |b| <= |m|
    ensures Write(Write(m, off, a), off + |a|, b) == Write(m, off, a + b)
  {}

  // ---- rows of a raster ----

  /** A product kept out of sight of the solver's arithmetic until a lemma is called. */
  function Times(a: nat, b: nat): nat {
    a * b
  }

  lemma TimesNext(a: nat, b: nat, limit: nat)
    requires a < limit
    ensures Times(a + 1, b) == Times(a, b) + b <= Times(limit, b)
  {
    MulMono(a + 1, limit, b);
  }

  lemma MultipleWithin(k: int, n: int)
    requires 0 < n
    requires -n < k * n < n
    ensures k == 0
  {
    if k >= 1 {
      MulMono(1, k, n);
    } else if k <= -1 {
      MulMono(k, -1, n);
    }
  }

  /** A flat index determines its row and its column. */
  lemma RowColumn(i: int, stride: int, row: int, col: int)
    requires 0 <= col < stride
    requires i == row * stride + col
    ensures i / stride == row && i % stride == col
  {
    var q, r := i / stride, i % stride;
    assert (q - row) * stride == q * stride - row * stride;
    MultipleWithin(q - row, stride);
  }

  lemma MulMono(a: int, b: int, k: int)
    requires a <= b && 0 <= k
    ensures a * k <= b * k
  {}
}
