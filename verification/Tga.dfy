/** wasm/shim.c, sniff_tga: the supported subset of Truevision TGA headers
    (fields 1 to 5 of the header of the TGA File Format Specification 2.0). */
module Tga {
  import opened Bytes

  /** The 18-byte header check for the supported subset of TGA. */
  predicate Accepts(src: seq<byte>) {
    |src| >= 18 &&
    var width := Le16(src[12], src[13]);
    var height := Le16(src[14], src[15]);
    var cmapType, imgType := src[1], src[2];
    var cmapLen := Le16(src[5], src[6]);
    var depth, desc := src[16], src[17];
    var indexed := imgType == 1 || imgType == 9;
    var trueColor := imgType == 2 || imgType == 10;
    var gray := imgType == 3 || imgType == 11;
    && width != 0 && height != 0
    && (if indexed then
          && cmapType == 1 && src[3] == 0 && src[4] == 0
          && 1 <= cmapLen <= 256
          && (src[7] == 15 || src[7] == 24 || src[7] == 32)
          && depth == 8
        else
          && (trueColor || gray)
          && cmapType == 0 && src[3] == 0 && src[4] == 0 && src[5] == 0 && src[6] == 0 && src[7] == 0)
    && (trueColor ==> depth == 15 || depth == 16 || depth == 24 || depth == 32)
    && (gray ==> depth == 8)
    // desc & 0xD0: bits 7, 6 and 4 are clear
    && desc / 64 == 0 && desc / 16 % 2 == 0
    && desc % 16 == (if trueColor && depth == 32 then 8 else 0)
  }

  /** The accepted headers class by class, byte by byte. */
  lemma AcceptedClasses(src: seq<byte>)
    ensures Accepts(src) <==>
            && |src| >= 18
            && (src[12] != 0 || src[13] != 0) && (src[14] != 0 || src[15] != 0)
            && (|| (&& src[2] in {1, 9} && src[1] == 1 && src[3] == src[4] == 0
                    && ((src[5] != 0 && src[6] == 0) || (src[5] == 0 && src[6] == 1))
                    && src[7] in {15, 24, 32} && src[16] == 8 && src[17] in {0, 32})
                || (&& src[2] in {2, 10} && src[1] == 0 && src[3] == src[4] == src[5] == src[6] == src[7] == 0
                    && ((src[16] in {15, 16, 24} && src[17] in {0, 32}) || (src[16] == 32 && src[17] in {8, 40})))
                || (&& src[2] in {3, 11} && src[1] == 0 && src[3] == src[4] == src[5] == src[6] == src[7] == 0
                    && src[16] == 8 && src[17] in {0, 32}))
  {
    if |src| >= 18 {
      Descriptors(src[17]);
    }
  }

  /** Bits 7, 6 and 4 clear and the low bits 0 or 8: four descriptors remain. */
  lemma Descriptors(desc: byte)
    ensures desc / 64 == 0 && desc / 16 % 2 == 0 && desc % 16 == 0 <==> desc in {0, 32}
    ensures desc / 64 == 0 && desc / 16 % 2 == 0 && desc % 16 == 8 <==> desc in {8, 40}
  {
    assert desc == desc / 16 * 16 + desc % 16;
  }

  // ---- the headers of the subset, as values ----

  datatype Pixels =
    | Indexed(entries: U16, entryBits: byte)
    | TrueColor(bits: byte)
    | Gray

  /** A little-endian 16-bit field. */
  datatype U16 = U16(lo: byte, hi: byte) {
    function Value(): int {
      Le16(lo, hi)
    }
  }

  datatype Header = Header(
    idLen: byte,
    runLength: bool,
    pixels: Pixels,
    xOrigin: U16,
    yOrigin: U16,
    width: U16,
    height: U16,
    topDown: bool)

  predicate Supported(h: Header) {
    && h.width.Value() >= 1 && h.height.Value() >= 1
    && match h.pixels
       case Indexed(entries, entryBits) => 1 <= entries.Value() <= 256 && entryBits in {15, 24, 32}
       case TrueColor(bits) => bits in {15, 16, 24, 32}
       case Gray => true
  }

  /** Field 3 for uncompressed images: 1 indexed, 2 true colour, 3 gray; 8 more when run-length encoded. */
  function ImageType(p: Pixels, runLength: bool): byte {
    match p
    case Indexed(_, _) => if runLength then 9 else 1
    case TrueColor(_) => if runLength then 10 else 2
    case Gray => if runLength then 11 else 3
  }

  /** Fields 2 and 4: the colour map's presence, first entry, length and entry size. */
  function MapType(p: Pixels): byte {
    if p.Indexed? then 1 else 0
  }

  function MapSpec(p: Pixels): (s: seq<byte>)
    ensures |s| == 5
  {
    if p.Indexed? then [0, 0, p.entries.lo, p.entries.hi, p.entryBits] else [0, 0, 0, 0, 0]
  }

  function Depth(p: Pixels): byte {
    if p.TrueColor? then p.bits else 8
  }

  function Descriptor(p: Pixels, topDown: bool): byte {
    if p == TrueColor(32) then (if topDown then 40 else 8) else if topDown then 32 else 0
  }

  /** The 18 bytes that a supported header occupies. */
  function Encode(h: Header): (s: seq<byte>)
    ensures |s| == 18
  {
    var p := h.pixels;
    [h.idLen, MapType(p), ImageType(p, h.runLength)] + MapSpec(p) +
    [h.xOrigin.lo, h.xOrigin.hi, h.yOrigin.lo, h.yOrigin.hi,
     h.width.lo, h.width.hi, h.height.lo, h.height.hi,
     Depth(p), Descriptor(p, h.topDown)]
  }

  function DecodePixels(src: seq<byte>): Pixels
    requires Accepts(src)
  {
    if src[2] == 1 || src[2] == 9 then Indexed(U16(src[5], src[6]), src[7])
    else if src[2] == 2 || src[2] == 10 then TrueColor(src[16])
    else Gray
  }

  function Decode(src: seq<byte>): Header
    requires Accepts(src)
  {
    Header(src[0], src[2] >= 9, DecodePixels(src),
           U16(src[8], src[9]), U16(src[10], src[11]),
           U16(src[12], src[13]), U16(src[14], src[15]),
           src[17] == 32 || src[17] == 40)
  }

  lemma {:induction false} DescriptorBytes(desc: byte)
    requires desc / 64 == 0 && desc / 16 % 2 == 0
    ensures desc % 16 == 0 ==> desc == 0 || desc == 32
    ensures desc % 16 == 8 ==> desc == 8 || desc == 40
  {
    assert desc == desc / 16 * 16 + desc % 16;
    assert desc / 16 <= 3;
  }

  lemma {:induction false} DecodedEncodes(src: seq<byte>)
    requires Accepts(src)
    ensures Supported(Decode(src)) && Encode(Decode(src)) == src[..18]
  {
    DescriptorBytes(src[17]);
    var p := DecodePixels(src);
    assert MapSpec(p) == src[3..8];
    assert Encode(Decode(src)) == src[..3] + src[3..8] + src[8..18];
  }

  lemma {:induction false} EncodedAccepted(e: seq<byte>, h: Header)
    requires Supported(h) && e == Encode(h)
    ensures Accepts(e)
  {
    var m := MapSpec(h.pixels);
    assert e[3] == m[0] && e[4] == m[1] && e[5] == m[2] && e[6] == m[3] && e[7] == m[4];
  }

  lemma AcceptsExtends(src: seq<byte>, tail: seq<byte>)
    requires Accepts(src)
    ensures Accepts(src + tail)
  {}

  /** sniff_tga accepts exactly the sources that start with the encoding of a
      supported header; image id, origins and payload are free. */
  lemma {:induction false} AcceptsExactlySupported(src: seq<byte>)
    ensures Accepts(src) <==> exists h: Header :: Supported(h) && Encode(h) <= src
  {
    if Accepts(src) {
      DecodedEncodes(src);
      assert Encode(Decode(src)) <= src;
    }
    forall h: Header | Supported(h) && Encode(h) <= src ensures Accepts(src) {
      EncodedAccepted(Encode(h), h);
      AcceptsExtends(Encode(h), src[18..]);
      assert Encode(h) + src[18..] == src;
    }
  }
}
