/** The bump buffers of read_image_metadata: where they lie, and what appending
    a chunk to one of them does to what all of them hold. */
module Buffers {
  import opened Bytes
  import opened Codec
  import opened Layout
  import opened MetadataWalk

  const BUMP_BASE := 0x900000
  const BUMP_LIMIT := 4194304

  /** Start addresses of the transform destination and the three accumulators. */
  datatype Bufs = Bufs(have: int, icc: int, exif: int, xmp: int)

  /** The capacity guard. */
  predicate Guarded(objSize: nat, srcLen: nat) {
    objSize + (HAVE_LEN + ICC_CAP + 2 * srcLen) <= BUMP_LIMIT
  }

  /** The buffers are disjoint, each of its own capacity, and end below the host slots. */
  predicate Laid(b: Bufs, srcLen: nat) {
    && BUMP_BASE <= b.have
    && b.have + HAVE_LEN <= b.icc
    && b.icc + ICC_CAP <= b.exif
    && b.exif + srcLen <= b.xmp
    && b.xmp + srcLen <= HOST_BASE
    && srcLen <= ICC_CAP
  }

  /** Where the five bump allocations land. */
  function Placed(objSize: u32, srcLen: u32): Bufs {
    var have := Wrap32(BUMP_BASE + Align8(objSize));
    var icc := Wrap32(have + Align8(HAVE_LEN));
    var exif := Wrap32(icc + Align8(ICC_CAP));
    Bufs(have, icc, exif, Wrap32(exif + Align8(srcLen)))
  }

  /** The guard suffices: despite rounding, the decoder object and the four
      buffers are disjoint, nothing wraps, and all end below the host slots. */
  lemma GuardSuffices(objSize: u32, srcLen: u32)
    requires Guarded(objSize, srcLen)
    ensures Laid(Placed(objSize, srcLen), srcLen)
    ensures BUMP_BASE + objSize <= Placed(objSize, srcLen).have
  {
    hide Align8;
    MebibyteAligned();
  }

  lemma MebibyteAligned()
    ensures Align8(HAVE_LEN) == HAVE_LEN && Align8(ICC_CAP) == ICC_CAP
  {}

  /** Running totals beside the buffers: lengths, last parsed values, the source read index. */
  datatype Tally = Tally(
    exifLen: nat, iccLen: nat, xmpLen: nat,
    gama: Option<u32>, chrm: Option<Chrm>, srgb: Option<u32>,
    ri: nat)

  const START := Tally(0, 0, 0, None, None, None, 0)

  predicate Matches(t: Tally, acc: Acc) {
    && t.exifLen == |acc.exif| && t.iccLen == |acc.icc| && t.xmpLen == |acc.xmp|
    && t.gama == acc.gama && t.chrm == acc.chrm && t.srgb == acc.srgb
  }

  /** The buffers hold the accumulated blobs, each within its capacity. */
  ghost predicate Held(m: seq<byte>, b: Bufs, acc: Acc, srcLen: nat)
  {
    && Laid(b, srcLen) && HOST_BASE <= |m| && Bounded(acc, srcLen)
    && m[b.exif..b.exif + |acc.exif|] == acc.exif
    && m[b.icc..b.icc + |acc.icc|] == acc.icc
    && m[b.xmp..b.xmp + |acc.xmp|] == acc.xmp
  }

  lemma AppendRead(m: seq<byte>, base: int, len: nat, data: seq<byte>)
    requires 0 <= base && base + len + |data| <= |m|
    ensures Write(m, base + len, data)[base..base + len + |data|] == m[base..base + len] + data
  {}

  lemma HeldEmpty(m: seq<byte>, b: Bufs, srcLen: nat)
    requires Laid(b, srcLen) && HOST_BASE <= |m|
    ensures Held(m, b, EMPTY, srcLen)
  {}

  lemma HeldAside(m: seq<byte>, b: Bufs, acc: Acc, srcLen: nat, off: int, data: seq<byte>)
    requires Held(m, b, acc, srcLen)
    requires 0 <= off && off + |data| <= |m|
    requires off + |data| <= b.icc || b.xmp + srcLen <= off
    ensures Held(Write(m, off, data), b, acc, srcLen)
  {
    hide Write;
    ReadAside(m, off, data, b.exif, b.exif + |acc.exif|);
    ReadAside(m, off, data, b.icc, b.icc + |acc.icc|);
    ReadAside(m, off, data, b.xmp, b.xmp + |acc.xmp|);
  }

  lemma HeldExif(m: seq<byte>, b: Bufs, acc: Acc, srcLen: nat, data: seq<byte>)
    requires Held(m, b, acc, srcLen) && |acc.exif| + |data| <= srcLen
    ensures Held(Write(m, b.exif + |acc.exif|, data), b, acc.(exif := acc.exif + data), srcLen)
  {
    hide Write;
    var off := b.exif + |acc.exif|;
    AppendRead(m, b.exif, |acc.exif|, data);
    ReadAside(m, off, data, b.icc, b.icc + |acc.icc|);
    ReadAside(m, off, data, b.xmp, b.xmp + |acc.xmp|);
  }

  lemma HeldIcc(m: seq<byte>, b: Bufs, acc: Acc, srcLen: nat, data: seq<byte>)
    requires Held(m, b, acc, srcLen) && |acc.icc| + |data| <= ICC_CAP
    ensures Held(Write(m, b.icc + |acc.icc|, data), b, acc.(icc := acc.icc + data), srcLen)
  {
    hide Write;
    var off := b.icc + |acc.icc|;
    AppendRead(m, b.icc, |acc.icc|, data);
    ReadAside(m, off, data, b.exif, b.exif + |acc.exif|);
    ReadAside(m, off, data, b.xmp, b.xmp + |acc.xmp|);
  }

  lemma HeldXmp(m: seq<byte>, b: Bufs, acc: Acc, srcLen: nat, data: seq<byte>)
    requires Held(m, b, acc, srcLen) && |acc.xmp| + |data| <= srcLen
    ensures Held(Write(m, b.xmp + |acc.xmp|, data), b, acc.(xmp := acc.xmp + data), srcLen)
  {
    hide Write;
    var off := b.xmp + |acc.xmp|;
    AppendRead(m, b.xmp, |acc.xmp|, data);
    ReadAside(m, off, data, b.exif, b.exif + |acc.exif|);
    ReadAside(m, off, data, b.icc, b.icc + |acc.icc|);
  }
}
