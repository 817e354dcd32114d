/** The metadata pack: the 88-byte little-endian header and blobs that
    wasm/shim.c writes and metadata.go reads back. */
module Pack {
  import opened Bytes
  import opened Codec
  import opened MetadataWalk

  const HEADER_BYTES := 88

  // ---- the writer ----

  function Flag<T>(o: Option<T>): byte {
    if o.Some? then 1 else 0
  }

  function ChrmWords(chrm: Chrm): (ws: seq<u32>)
    ensures |ws| == 8
  {
    seq(8, i requires 0 <= i < 8 => Wrap32(chrm[i]))
  }

  const NO_CHRM: Chrm := [0, 0, 0, 0, 0, 0, 0, 0]

  function OrZero(o: Option<u32>): u32 {
    if o.Some? then o.value else 0
  }

  /** The blobs are short enough for their 32-bit length fields. */
  predicate Packable(acc: Acc) {
    |acc.exif| <= MAX_U32 && |acc.icc| <= MAX_U32 && |acc.xmp| <= MAX_U32
  }

  function Lengths(format: u32, acc: Acc): (ws: seq<u32>)
    requires Packable(acc)
    ensures |ws| == 5
  {
    [0, format, |acc.exif|, |acc.icc|, |acc.xmp|]
  }

  /** Presence flags, and the padding up to gama_scaled. */
  function Flags(acc: Acc): (s: seq<byte>)
    ensures |s| == 8
  {
    [Flag(acc.gama), Flag(acc.chrm), Flag(acc.srgb), 0, 0, 0, 0, 0]
  }

  /** gama_scaled, chrm, srgb_intent, padding, modtime seconds and nanoseconds, padding. */
  function Scalars(acc: Acc): (ws: seq<u32>)
    ensures |ws| == 15
  {
    [OrZero(acc.gama)] + ChrmWords(if acc.chrm.Some? then acc.chrm.value else NO_CHRM)
      + [OrZero(acc.srgb), 0, 0, 0, 0, 0]
  }

  function Header(format: u32, acc: Acc): (s: seq<byte>)
    requires Packable(acc)
    ensures |s| == HEADER_BYTES
  {
    Words(Lengths(format, acc)) + Flags(acc) + Words(Scalars(acc))
  }

  function PackBytes(format: u32, acc: Acc): (s: seq<byte>)
    requires Packable(acc)
    ensures |s| == PackSize(acc)
  {
    Header(format, acc) + acc.exif + acc.icc + acc.xmp
  }

  function PackSize(acc: Acc): nat {
    HEADER_BYTES + |acc.exif| + |acc.icc| + |acc.xmp|
  }

  // ---- the reader ----

  datatype PackHeader = PackHeader(
    err: i32, format: u32, exifLen: u32, iccLen: u32, xmpLen: u32,
    hasGamma: byte, hasChrm: byte, hasSrgb: byte, hasModTime: byte,
    gama: u32, chrm: Chrm, srgb: u32, modSec: u64, modNsec: i32)

  function ReadChrm(hdr: seq<byte>): (c: Chrm)
    requires |hdr| >= HEADER_BYTES
    ensures forall i :: 0 <= i < 8 ==> c[i] == Signed32(Get32(hdr, 32 + 4 * i))
  {
    seq(8, i requires 0 <= i < 8 => Signed32(Get32(hdr, 32 + 4 * i)))
  }

  function ParseHeader(hdr: seq<byte>): PackHeader
    requires |hdr| >= HEADER_BYTES
  {
    PackHeader(Signed32(Get32(hdr, 0)), Get32(hdr, 4), Get32(hdr, 8), Get32(hdr, 12), Get32(hdr, 16),
               hdr[20], hdr[21], hdr[22], hdr[23],
               Get32(hdr, 28), ReadChrm(hdr), Get32(hdr, 64), Get64(hdr, 72), Signed32(Get32(hdr, 80)))
  }

  /** metadataPackHeaderFromLE; a short header is None. */
  method HeaderFromLE(hdr: seq<byte>) returns (r: Option<PackHeader>)
    ensures r == if |hdr| < HEADER_BYTES then None else Some(ParseHeader(hdr))
  {
    if |hdr| < HEADER_BYTES {
      return None;
    }
    var chrm := new i32[8];
    for i := 0 to 8
      invariant forall k :: 0 <= k < i ==> chrm[k] == Signed32(Get32(hdr, 32 + 4 * k))
    {
      chrm[i] := Signed32(Get32(hdr, 32 + 4 * i));
    }
    assert chrm[..] == ReadChrm(hdr);
    r := Some(PackHeader(Signed32(Get32(hdr, 0)), Get32(hdr, 4), Get32(hdr, 8), Get32(hdr, 12), Get32(hdr, 16),
                         hdr[20], hdr[21], hdr[22], hdr[23],
                         Get32(hdr, 28), chrm[..], Get32(hdr, 64), Get64(hdr, 72), Signed32(Get32(hdr, 80))));
  }

  /** What the host returns; gamma and chromaticities as the raw scaled integers. */
  datatype Metadata = Metadata(
    format: u32,
    exif: seq<byte>,
    icc: seq<byte>,
    xmp: seq<byte>,
    gama: Option<u32>,
    chrm: Option<Chrm>,
    srgb: Option<u32>,
    hasModTime: bool)

  function Reported(format: u32, acc: Acc): Metadata {
    Metadata(format, acc.exif, acc.icc, acc.xmp, acc.gama, acc.chrm, acc.srgb, false)
  }

  /** metadata.go after the guest returns: the header is parsed and the blobs
      that follow it are copied out in order. None is a decode error. */
  method ReadPack(mem: seq<byte>, packOff: nat) returns (r: Option<Metadata>)
    ensures r == Unpacked(mem, packOff)
  {
    if packOff + HEADER_BYTES > |mem| {
      return None;
    }
    var h := HeaderFromLE(mem[packOff..packOff + HEADER_BYTES]);
    if h.None? {
      return None;
    }
    var pack := h.value;
    if pack.err != 0 {
      return None;
    }
    var total := HEADER_BYTES + pack.exifLen + pack.iccLen + pack.xmpLen;
    if packOff + total > |mem| {
      return None;
    }
    var off := packOff + HEADER_BYTES;
    var exif, icc, xmp := [], [], [];
    if pack.exifLen > 0 {
      exif := mem[off..off + pack.exifLen];
      off := off + pack.exifLen;
    }
    if pack.iccLen > 0 {
      icc := mem[off..off + pack.iccLen];
      off := off + pack.iccLen;
    }
    if pack.xmpLen > 0 {
      xmp := mem[off..off + pack.xmpLen];
    }
    ghost var e := packOff + HEADER_BYTES;
    ghost var i := e + pack.exifLen;
    ghost var x := i + pack.iccLen;
    assert exif == mem[e..i] && icc == mem[i..x] && xmp == mem[x..x + pack.xmpLen];
    r := Some(Assembled(pack, exif, icc, xmp));
  }

  function Assembled(pack: PackHeader, exif: seq<byte>, icc: seq<byte>, xmp: seq<byte>): Metadata {
    Metadata(pack.format, exif, icc, xmp,
             if pack.hasGamma != 0 then Some(pack.gama) else None,
             if pack.hasChrm != 0 then Some(pack.chrm) else None,
             if pack.hasSrgb != 0 then Some(pack.srgb) else None,
             pack.hasModTime != 0)
  }

  function Unpacked(mem: seq<byte>, packOff: nat): Option<Metadata> {
    if packOff + HEADER_BYTES > |mem| then None
    else
      var pack := ParseHeader(mem[packOff..packOff + HEADER_BYTES]);
      if pack.err != 0 || packOff + HEADER_BYTES + pack.exifLen + pack.iccLen + pack.xmpLen > |mem| then None
      else
        var e := packOff + HEADER_BYTES;
        var i := e + pack.exifLen;
        var x := i + pack.iccLen;
        Some(Assembled(pack, mem[e..i], mem[i..x], mem[x..x + pack.xmpLen]))
  }

  // ---- reading undoes writing ----

  lemma {:induction false} HeaderRoundTrip(format: u32, acc: Acc)
    requires Packable(acc)
    ensures var p := ParseHeader(Header(format, acc));
            && p.err == 0 && p.format == format
            && p.exifLen == |acc.exif| && p.iccLen == |acc.icc| && p.xmpLen == |acc.xmp|
            && p.hasGamma == Flag(acc.gama) && p.hasChrm == Flag(acc.chrm) && p.hasSrgb == Flag(acc.srgb)
            && p.hasModTime == 0
            && p.gama == OrZero(acc.gama)
            && p.chrm == (if acc.chrm.Some? then acc.chrm.value else NO_CHRM)
            && p.srgb == OrZero(acc.srgb)
  {
    LengthsRoundTrip(format, acc);
    FlagsRoundTrip(format, acc);
    ScalarsRoundTrip(format, acc);
    ChrmRoundTrip(format, acc);
  }

  lemma {:induction false} LengthsRoundTrip(format: u32, acc: Acc)
    requires Packable(acc)
    ensures var s := Header(format, acc);
            && Get32(s, 0) == 0 && Get32(s, 4) == format && Get32(s, 8) == |acc.exif|
            && Get32(s, 12) == |acc.icc| && Get32(s, 16) == |acc.xmp|
  {
    hide Words, Get32, Flags, Scalars;
    var s, ws := Header(format, acc), Lengths(format, acc);
    var post := Flags(acc) + Words(Scalars(acc));
    assert s == [] + Words(ws) + post;
    WordAt(s, [], ws, post, 0, 0);
    WordAt(s, [], ws, post, 1, 4);
    WordAt(s, [], ws, post, 2, 8);
    WordAt(s, [], ws, post, 3, 12);
    WordAt(s, [], ws, post, 4, 16);
  }

  lemma {:induction false} FlagsRoundTrip(format: u32, acc: Acc)
    requires Packable(acc)
    ensures var s := Header(format, acc);
            s[20] == Flag(acc.gama) && s[21] == Flag(acc.chrm) && s[22] == Flag(acc.srgb) && s[23] == 0
  {
    hide Words, Lengths, Scalars;
    var s, f := Header(format, acc), Flags(acc);
    assert s[20] == f[0] && s[21] == f[1] && s[22] == f[2] && s[23] == f[3];
  }

  lemma {:induction false} ScalarAt(format: u32, acc: Acc, k: nat, off: nat)
    requires Packable(acc) && k < 15 && off == 28 + 4 * k
    ensures Get32(Header(format, acc), off) == Scalars(acc)[k]
  {
    hide Words, Get32, Lengths, Flags, Scalars;
    var s, pre := Header(format, acc), Words(Lengths(format, acc)) + Flags(acc);
    assert s == pre + Words(Scalars(acc)) + [];
    WordAt(s, pre, Scalars(acc), [], k, off);
  }

  lemma {:induction false} ScalarsRoundTrip(format: u32, acc: Acc)
    requires Packable(acc)
    ensures Get32(Header(format, acc), 28) == OrZero(acc.gama)
    ensures Get32(Header(format, acc), 64) == OrZero(acc.srgb)
  {
    hide Header, Get32;
    ScalarAt(format, acc, 0, 28);
    ScalarAt(format, acc, 9, 64);
  }

  lemma {:induction false} ChrmRoundTrip(format: u32, acc: Acc)
    requires Packable(acc)
    ensures ReadChrm(Header(format, acc)) == (if acc.chrm.Some? then acc.chrm.value else NO_CHRM)
  {
    hide Header, Get32;
    var chrm := if acc.chrm.Some? then acc.chrm.value else NO_CHRM;
    var read := ReadChrm(Header(format, acc));
    forall i | 0 <= i < 8 ensures read[i] == chrm[i] {
      ScalarAt(format, acc, i + 1, 32 + 4 * i);
      assert Scalars(acc)[i + 1] == ChrmWords(chrm)[i];
      SignedWrap(chrm[i]);
    }
  }

  /** Whatever the guest packed, the host reads back: format, blobs and scalars. */
  lemma {:induction false} PackRoundTrip(mem: seq<byte>, packOff: nat, format: u32, acc: Acc)
    requires Packable(acc) && packOff + PackSize(acc) <= |mem|
    requires mem[packOff..packOff + PackSize(acc)] == PackBytes(format, acc)
    ensures Unpacked(mem, packOff) == Some(Reported(format, acc))
  {
    hide Header, ParseHeader;
    var e := packOff + HEADER_BYTES;
    var i := e + |acc.exif|;
    var x := i + |acc.icc|;
    var w := mem[packOff..packOff + PackSize(acc)];
    var p := PackBytes(format, acc);
    HeaderRoundTrip(format, acc);
    var n := PackSize(acc);
    SubSlice(mem, packOff, packOff + n, 0, HEADER_BYTES);
    SubSlice(mem, packOff, packOff + n, HEADER_BYTES, i - packOff);
    SubSlice(mem, packOff, packOff + n, i - packOff, x - packOff);
    SubSlice(mem, packOff, packOff + n, x - packOff, n);
    assert p[..HEADER_BYTES] == Header(format, acc);
    assert p[HEADER_BYTES..i - packOff] == acc.exif;
    assert p[i - packOff..x - packOff] == acc.icc;
    assert p[x - packOff..n] == acc.xmp;
  }

  /** Where each field of the pack lies: the header in 88 bytes, then the blobs. */
  lemma {:induction false} PackLayout(format: u32, acc: Acc)
    requires Packable(acc)
    ensures var s := Header(format, acc);
            && |s| == 88
            && Get32(s, 0) == 0 && Get32(s, 4) == format
            && Get32(s, 8) == |acc.exif| && Get32(s, 12) == |acc.icc| && Get32(s, 16) == |acc.xmp|
            && s[20] == (if acc.gama.Some? then 1 else 0)
            && s[21] == (if acc.chrm.Some? then 1 else 0)
            && s[22] == (if acc.srgb.Some? then 1 else 0) && s[23] == 0
            && (acc.gama.Some? ==> Get32(s, 28) == acc.gama.value)
            && (acc.chrm.Some? ==> forall i :: 0 <= i < 8 ==> Signed32(Get32(s, 32 + 4 * i)) == acc.chrm.value[i])
            && (acc.srgb.Some? ==> Get32(s, 64) == acc.srgb.value)
            && PackBytes(format, acc) == s + acc.exif + acc.icc + acc.xmp
  {
    hide Header, Get32;
    LengthsRoundTrip(format, acc);
    FlagsRoundTrip(format, acc);
    ScalarsRoundTrip(format, acc);
    ChrmRoundTrip(format, acc);
    assert ReadChrm(Header(format, acc)) == (if acc.chrm.Some? then acc.chrm.value else NO_CHRM);
  }
}
