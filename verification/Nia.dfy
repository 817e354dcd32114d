/** nia_encoder_test.go and decode_nie_integration_test.go: the repository's own
    NIA writer and NIE/NIA reader, and what reading back a written image gives. */
module Nia {
  import opened Bytes
  import opened Pixels

  const STILL: seq<byte> := [0x6E, 0xC3, 0xAF, 0x45]
  const ANIMATED: seq<byte> := [0x6E, 0xC3, 0xAF, 0x41]
  const BN4: seq<byte> := [0xFF, 0x62, 0x6E, 0x34]
  const BN8: seq<byte> := [0xFF, 0x62, 0x6E, 0x38]
  const BP4: seq<byte> := [0xFF, 0x62, 0x70, 0x34]
  const BP8: seq<byte> := [0xFF, 0x62, 0x70, 0x38]

  // ---- premultiplication ----

  /** One 8-bit channel scaled by alpha, in uint32 arithmetic. */
  function Premul8(c: byte, a: byte): byte {
    var a16 := Wrap32(Wrap32(a * 0x101) * 0x101);
    Wrap8(Wrap32(c * a16) / 0xFFFF / 0x100)
  }

  function Premul16(c: int, a: int): byte
    requires 0 <= c < 0x1_0000 && 0 <= a < 0x1_0000
  {
    Wrap8(Wrap16(Wrap32(c * a) / 0xFFFF) / 0x100)
  }

  /** No step of premul16 overflows or truncates, and it never exceeds the alpha byte. */
  lemma Premul16Bounds(c: int, a: int)
    requires 0 <= c < 0x1_0000 && 0 <= a < 0x1_0000
    ensures Premul16(c, a) == c * a / 0xFFFF / 0x100 <= a / 0x100
  {
    ProductScaled(c, a, c * a);
  }

  lemma ProductScaled(c: int, a: int, p: int)
    requires 0 <= c < 0x1_0000 && 0 <= a < 0x1_0000 && p == c * a
    ensures 0 <= p <= 0xFFFF * 0xFFFF && 0 <= p / 0xFFFF <= a
  {
    MulMono(0, c, a);
    MulMono(c, 0xFFFF, a);
    DivBelow(p, 0xFFFF, a);
  }

  /** The unbounded value of an 8-bit channel times alpha, scaled to 8 bits. */
  function Scale(p: int): int {
    p * 0x1_0201 / 0xFFFF / 0x100
  }

  /** No uint32 step of premul8 overflows: its product is at most 255 * 255 * 0x10201. */
  lemma Premul8Exact(c: byte, a: byte, p: int)
    requires p == c * a
    ensures 0 <= p <= 255 * a && Premul8(c, a) == Wrap8(Scale(p))
  {
    assert Wrap32(Wrap32(a * 0x101) * 0x101) == a * 0x1_0201;
    MulMono(c, 255, a);
    assert c * (a * 0x1_0201) == p * 0x1_0201;
  }

  lemma ScaleBound(p: int, a: byte)
    requires 0 <= p <= 255 * a
    ensures 0 <= Scale(p) <= a
    ensures p == 255 * a ==> Scale(p) == a
  {
    var q := p * 0x1_0201 / 0xFFFF;
    assert p * 0x1_0201 <= 255 * a * 0x1_0201 == 0xFFFF * (257 * a);
    assert q <= 257 * a;
    assert p == 255 * a ==> q == 257 * a;
  }

  /** premul8 never truncates and never exceeds alpha: its output is a premultiplied pixel. */
  lemma Premul8Bounds(c: byte, a: byte)
    ensures Premul8(c, a) == c * a * 66049 / 65535 / 256 <= a
  {
    Premul8Exact(c, a, c * a);
    ScaleBound(c * a, a);
  }

  /** An opaque pixel is left alone. */
  lemma Premul8Opaque(c: byte)
    ensures Premul8(c, 255) == c
  {
    Premul8Exact(c, 255, c * 255);
    ScaleBound(255 * c, c);
  }

  // ---- the wire format ----

  /** Where pixel k of a w-wide raster starts in Pix. */
  function PixOffset(k: nat, w: nat, stride: int): int
    requires w > 0
  {
    RowStart(k / w, stride) + k % w * 4
  }

  predicate HasPixel(pix: seq<byte>, stride: int, w: nat, k: nat) {
    w > 0 && 0 <= PixOffset(k, w, stride) && PixOffset(k, w, stride) + 4 <= |pix|
  }

  /** Pixel k as written: blue, green, red, alpha. */
  function Wire(pix: seq<byte>, stride: int, w: nat, k: nat): (s: seq<byte>)
    requires HasPixel(pix, stride, w, k)
    ensures |s| == 4
  {
    var i := PixOffset(k, w, stride);
    [pix[i + 2], pix[i + 1], pix[i], pix[i + 3]]
  }

  ghost predicate HasPixels(pix: seq<byte>, stride: int, w: nat, n: nat) {
    forall k :: 0 <= k < n ==> HasPixel(pix, stride, w, k)
  }

  /** The payload of the first n pixels. */
  function Payload(pix: seq<byte>, stride: int, w: nat, n: nat): (s: seq<byte>)
    requires HasPixels(pix, stride, w, n)
    ensures |s| == 4 * n
  {
    if n == 0 then [] else Payload(pix, stride, w, n - 1) + Wire(pix, stride, w, n - 1)
  }

  lemma {:induction false} PayloadAt(pix: seq<byte>, stride: int, w: nat, n: nat, k: nat)
    requires HasPixels(pix, stride, w, n) && k < n
    ensures Payload(pix, stride, w, n)[4 * k..4 * k + 4] == Wire(pix, stride, w, k)
    decreases n
  {
    hide Wire, HasPixel;
    var front, last := Payload(pix, stride, w, n - 1), Wire(pix, stride, w, n - 1);
    if k < n - 1 {
      PayloadAt(pix, stride, w, n - 1, k);
      FrontSlice(front, last, 4 * k, 4 * k + 4);
    } else {
      BackSlice(front, last, 4 * k, 4 * k + 4);
    }
  }

  lemma RasterHasPixels(pix: seq<byte>, stride: int, w: nat, h: nat)
    requires RowsFit(|pix|, stride, w * 4, h)
    ensures HasPixels(pix, stride, w, Times(h, w))
  {
    forall k | 0 <= k < Times(h, w) ensures HasPixel(pix, stride, w, k) {
      PixelOfRaster(k, w, h);
      assert RowStart(k / w, stride) + w * 4 <= |pix|;
    }
  }

  /** The rows of a raster hold all its pixels. */
  lemma PixelsWithin(n: nat, stride: int, w: nat, h: nat)
    requires RowsFit(n, stride, w * 4, h)
    ensures Times(h, w) * 4 <= n
  {
    if h > 0 {
      assert RowStart(h - 1, stride) + w * 4 <= n;
      MulMono(w * 4, stride, h - 1);
      assert (h - 1) * (w * 4) + w * 4 == h * w * 4;
    }
  }

  lemma PixelOfRaster(k: nat, w: nat, h: nat)
    requires k < Times(h, w)
    ensures w > 0 && k / w < h && k % w < w
  {
    assert w > 0;
    if k / w >= h {
      MulMono(h, k / w, w);
    }
  }

  /** The 16-byte header of a still image or a container. */
  function Header(magic: seq<byte>, w: nat, h: nat): (s: seq<byte>)
    requires |magic| == 4
    ensures |s| == 16
  {
    magic + BN4 + Put32(Wrap32(w)) + Put32(Wrap32(h))
  }

  const FOOTER: seq<byte> := [0, 0, 0, 0, 0, 0, 0, 0x80]

  function Padding(w: nat, h: nat): seq<byte> {
    if w % 2 == 1 && h % 2 == 1 then [0, 0, 0, 0] else []
  }

  /** The complete single-frame NIA stream. */
  function Encoded(pix: seq<byte>, stride: int, w: nat, h: nat): seq<byte>
    requires HasPixels(pix, stride, w, Times(h, w))
  {
    Header(ANIMATED, w, h) + Zeros(8) + Header(STILL, w, h)
      + Payload(pix, stride, w, Times(h, w)) + Padding(w, h) + FOOTER
  }

  /** Where everything lies in the stream: outer header, eight zero bytes, still
      header, padding up to a multiple of eight, footer. */
  lemma {:induction false} EncodedLayout(pix: seq<byte>, stride: int, w: nat, h: nat)
    requires HasPixels(pix, stride, w, Times(h, w)) && w <= MAX_U32 && h <= MAX_U32
    ensures var s := Encoded(pix, stride, w, h);
            var end := 40 + 4 * Times(h, w);
            && |s| % 8 == 0 && end + 8 <= |s| < end + 16
            && s[0..8] == [0x6E, 0xC3, 0xAF, 0x41, 0xFF, 0x62, 0x6E, 0x34]
            && s[8..12] == LE(w, 4) && s[12..16] == LE(h, 4)
            && s[16..24] == [0, 0, 0, 0, 0, 0, 0, 0]
            && s[24..32] == [0x6E, 0xC3, 0xAF, 0x45, 0xFF, 0x62, 0x6E, 0x34]
            && s[32..36] == LE(w, 4) && s[36..40] == LE(h, 4)
            && (forall i :: end <= i < |s| - 1 ==> s[i] == 0)
            && s[|s| - 1] == 0x80
  {
    hide Payload, LE, HasPixel, Encoded, Header, Padding, Times;
    var front := Header(ANIMATED, w, h) + Zeros(8) + Header(STILL, w, h);
    var s := Encoded(pix, stride, w, h);
    EncodedSplit(pix, stride, w, h);
    OddPixels(w, h);
    FrontLayout(w, h);
    var body, tail := Payload(pix, stride, w, Times(h, w)), Padding(w, h) + FOOTER;
    ThreeParts(front, body, tail, s);
    FrontSlices(s, front);
    TailBytes(front + body, tail, s);
  }

  lemma ThreeParts(front: seq<byte>, body: seq<byte>, tail: seq<byte>, s: seq<byte>)
    requires s == front + body + tail
    ensures front <= s && |s| == |front| + |body| + |tail|
  {}

  lemma {:induction false} EncodedSplit(pix: seq<byte>, stride: int, w: nat, h: nat)
    requires HasPixels(pix, stride, w, Times(h, w))
    ensures Encoded(pix, stride, w, h) ==
            Header(ANIMATED, w, h) + Zeros(8) + Header(STILL, w, h) + Payload(pix, stride, w, Times(h, w))
              + (Padding(w, h) + FOOTER)
    ensures |Padding(w, h) + FOOTER| == 8 + |Padding(w, h)|
    ensures Padding(w, h) + FOOTER == FOOTER || Padding(w, h) + FOOTER == [0, 0, 0, 0] + FOOTER
  {
    hide Payload, HasPixel, Header;
  }

  /** The payload is a whole number of eight bytes unless both dimensions are odd. */
  lemma OddPixels(w: nat, h: nat)
    ensures (4 * Times(h, w) + |Padding(w, h)|) % 8 == 0
  {
    HalvedRows(h, h / 2, w);
  }

  lemma HalvedRows(h: nat, half: nat, w: nat)
    requires half == h / 2
    ensures Times(h, w) == 2 * Times(half, w) + (if h % 2 == 1 then w else 0)
  {
    assert h == half + half + h % 2;
    assert (half + half + h % 2) * w == half * w + half * w + h % 2 * w;
  }

  lemma FrontLayout(w: nat, h: nat)
    requires w <= MAX_U32 && h <= MAX_U32
    ensures var s := Header(ANIMATED, w, h) + Zeros(8) + Header(STILL, w, h);
            && |s| == 40
            && s[0..8] == [0x6E, 0xC3, 0xAF, 0x41, 0xFF, 0x62, 0x6E, 0x34]
            && s[8..12] == LE(w, 4) && s[12..16] == LE(h, 4)
            && s[16..24] == [0, 0, 0, 0, 0, 0, 0, 0]
            && s[24..32] == [0x6E, 0xC3, 0xAF, 0x45, 0xFF, 0x62, 0x6E, 0x34]
            && s[32..36] == LE(w, 4) && s[36..40] == LE(h, 4)
  {
    hide LE;
    var o, i := Header(ANIMATED, w, h), Header(STILL, w, h);
    assert o[0..8] == ANIMATED + BN4 && i[0..8] == STILL + BN4;
    assert o[8..12] == LE(w, 4) && o[12..16] == LE(h, 4) && i[8..12] == LE(w, 4) && i[12..16] == LE(h, 4);
  }

  lemma FrontSlices(s: seq<byte>, front: seq<byte>)
    requires |front| == 40 && front <= s
    ensures s[0..8] == front[0..8] && s[8..12] == front[8..12] && s[12..16] == front[12..16]
    ensures s[16..24] == front[16..24] && s[24..32] == front[24..32]
    ensures s[32..36] == front[32..36] && s[36..40] == front[36..40]
  {}

  lemma TailBytes(before: seq<byte>, tail: seq<byte>, s: seq<byte>)
    requires s == before + tail && (tail == FOOTER || tail == [0, 0, 0, 0] + FOOTER)
    ensures forall i :: |before| <= i < |s| - 1 ==> s[i] == 0
    ensures s[|s| - 1] == 0x80
  {
    forall i | |before| <= i < |s| - 1 ensures s[i] == 0 {
      assert s[i] == tail[i - |before|];
    }
    assert s[|s| - 1] == tail[|tail| - 1];
  }

  /** Pixel (x, y) of the image as the stream holds it: blue, green, red, alpha. */
  lemma {:induction false} EncodedPixel(pix: seq<byte>, stride: int, w: nat, h: nat, x: nat, y: nat)
    requires RowsFit(|pix|, stride, w * 4, h) && HasPixels(pix, stride, w, Times(h, w)) && x < w && y < h
    ensures var s := Encoded(pix, stride, w, h);
            var at, i := 40 + 4 * (y * w + x), y * stride + 4 * x;
            && 0 <= i && i + 4 <= |pix| && 0 <= at && at + 4 <= |s|
            && s[at..at + 4] == [pix[i + 2], pix[i + 1], pix[i], pix[i + 3]]
  {
    hide Payload;
    var n, k := Times(h, w), Times(y, w) + x;
    PixelXY(pix, stride, w, h, y, x, k);
    PayloadAt(pix, stride, w, n, k);
    var front := Header(ANIMATED, w, h) + Zeros(8) + Header(STILL, w, h);
    var body := Payload(pix, stride, w, n);
    EncodedSplit(pix, stride, w, h);
    hide Encoded, Header, Padding;
    SliceWithin(front, body, Padding(w, h) + FOOTER, 4 * k, 4 * k + 4);
  }

  /** Pixel (x, y) of a raster whose rows fit. */
  lemma PixelXY(pix: seq<byte>, stride: int, w: nat, h: nat, y: nat, x: nat, k: nat)
    requires RowsFit(|pix|, stride, w * 4, h) && y < h && x < w && k == Times(y, w) + x
    ensures HasPixel(pix, stride, w, k) && PixOffset(k, w, stride) == RowStart(y, stride) + x * 4
    ensures k < Times(h, w)
  {
    RowColumn(k, w, y, x);
    TimesNext(y, w, h);
    assert 0 <= RowStart(y, stride) && RowStart(y, stride) + w * 4 <= |pix|;
  }

  lemma PayloadStep(head: seq<byte>, pix: seq<byte>, stride: int, w: nat, k: nat, wire: seq<byte>)
    requires HasPixels(pix, stride, w, k + 1) && wire == Wire(pix, stride, w, k)
    ensures head + Payload(pix, stride, w, k) + wire == head + Payload(pix, stride, w, k + 1)
  {}

  /** The row and column loops of niaEncodeRGBA. */
  method WritePayload(pix: seq<byte>, stride: int, w: nat, h: nat, head: seq<byte>) returns (buf: seq<byte>)
    requires RowsFit(|pix|, stride, w * 4, h) && HasPixels(pix, stride, w, Times(h, w))
    ensures buf == head + Payload(pix, stride, w, Times(h, w))
  {
    buf := head;
    for y := 0 to h
      invariant Times(y, w) <= Times(h, w)
      invariant buf == head + Payload(pix, stride, w, Times(y, w))
    {
      var row := RowStart(y, stride);
      TimesNext(y, w, h);
      for x := 0 to w
        invariant buf == head + Payload(pix, stride, w, Times(y, w) + x)
      {
        ghost var k := Times(y, w) + x;
        PixelXY(pix, stride, w, h, y, x, k);
        var i := row + x * 4;
        var r, g, b, a := pix[i], pix[i + 1], pix[i + 2], pix[i + 3];
        PayloadStep(head, pix, stride, w, k, [b, g, r, a]);
        buf := buf + [b, g, r, a];
      }
    }
  }

  /** niaEncodeRGBA over an image's Pix, Stride, Dx and Dy; Rect.Min plays no part. */
  method EncodeRGBA(pix: seq<byte>, stride: int, w: nat, h: nat) returns (buf: seq<byte>)
    requires RowsFit(|pix|, stride, w * 4, h)
    ensures HasPixels(pix, stride, w, Times(h, w))
    ensures buf == Encoded(pix, stride, w, h)
  {
    RasterHasPixels(pix, stride, w, h);
    ZeroWord();
    buf := Header(ANIMATED, w, h) + Put64(0);
    buf := buf + Header(STILL, w, h);
    buf := WritePayload(pix, stride, w, h, buf);
    ghost var body := buf;
    if w % 2 == 1 && h % 2 == 1 {
      buf := buf + [0, 0, 0, 0];
    }
    assert buf == body + Padding(w, h);
    FooterBytes();
    buf := buf + (Put32(0) + [0, 0, 0, 0x80]);
  }

  lemma FooterBytes()
    ensures Put32(0) + [0, 0, 0, 0x80] == FOOTER
  {}

  lemma ZeroWord()
    ensures Put64(0) == Zeros(8)
  {}

  // ---- the reader ----

  datatype Stream = Stream(config: seq<byte>, width: nat, height: nat, pos: nat)

  /** The header fields of frame zero, of a still image or of a container. */
  function Open(src: seq<byte>): (r: Option<Stream>)
    ensures r.Some? ==> |r.value.config| == 4 && r.value.pos <= |src|
  {
    if |src| < 16 then None
    else if src[..4] == ANIMATED then
      if |src| < 40 || src[24..28] != STILL || src[28..32] != src[4..8] then None
      else Some(Stream(src[4..8], Get32(src, 32), Get32(src, 36), 40))
    else
      Some(Stream(src[4..8], Get32(src, 8), Get32(src, 12), 16))
  }

  /** Bytes per wire pixel, from the last configuration byte. */
  function BytesPerPixel(config: seq<byte>): (bpp: Option<nat>)
    requires |config| == 4
    ensures bpp.Some? ==> bpp.value == 4 || bpp.value == 8
  {
    if config[3] == 0x34 then Some(4) else if config[3] == 0x38 then Some(8) else None
  }

  datatype Pixel = NonPremul4 | NonPremul8 | Premul4 | Premul8Bytes | Unsupported {
    function Width(): nat {
      match this
      case NonPremul4 => 4
      case Premul4 => 4
      case NonPremul8 => 8
      case Premul8Bytes => 8
      case Unsupported => 0
    }
  }

  /** The configurations the reader's switch knows. */
  function PixelOf(config: seq<byte>): (p: Pixel)
    requires |config| == 4
    ensures BytesPerPixel(config).Some? ==> p.Width() <= BytesPerPixel(config).value
  {
    if config == BN4 then NonPremul4
    else if config == BN8 then NonPremul8
    else if config == BP4 then Premul4
    else if config == BP8 then Premul8Bytes
    else Unsupported
  }

  /** The four configurations, "\xff" and then "bn4", "bn8", "bp4" or "bp8" in
      ASCII; only their last byte fixes the bytes per pixel. */
  lemma ConfigurationsSpell(config: seq<byte>)
    requires |config| == 4
    ensures PixelOf(config) == NonPremul4 <==> config == [0xFF, 0x62, 0x6E, 0x34]
    ensures PixelOf(config) == NonPremul8 <==> config == [0xFF, 0x62, 0x6E, 0x38]
    ensures PixelOf(config) == Premul4 <==> config == [0xFF, 0x62, 0x70, 0x34]
    ensures PixelOf(config) == Premul8Bytes <==> config == [0xFF, 0x62, 0x70, 0x38]
    ensures BytesPerPixel(config) == Some(4) <==> config[3] == 0x34
    ensures BytesPerPixel(config) == Some(8) <==> config[3] == 0x38
  {}

  /** A still image: the configuration and dimensions follow whatever magic is not
      the container's. */
  lemma {:induction false} OpenStill(magic: seq<byte>, config: seq<byte>, w: u32, h: u32, rest: seq<byte>)
    requires |magic| == 4 && |config| == 4 && magic != [0x6E, 0xC3, 0xAF, 0x41]
    ensures Open(magic + config + Put32(w) + Put32(h) + rest) == Some(Stream(config, w, h, 16))
  {
    hide Put32, Get32;
    var src := magic + config + Put32(w) + Put32(h) + rest;
    assert src[..4] == magic && src[4..8] == config && src[8..12] == Put32(w) && src[12..16] == Put32(h);
    GetAt32(src, 8, w);
    GetAt32(src, 12, h);
  }

  /** A container: its own configuration must be that of the still image 24 bytes
      in, which gives the dimensions. */
  lemma {:induction false} OpenAnimated(c0: seq<byte>, between: seq<byte>, magic: seq<byte>, config: seq<byte>,
                                        w: u32, h: u32, rest: seq<byte>)
    requires |c0| == 4 && |between| == 16 && |magic| == 4 && |config| == 4
    ensures Open([0x6E, 0xC3, 0xAF, 0x41] + c0 + between + magic + config + Put32(w) + Put32(h) + rest)
            == if magic == [0x6E, 0xC3, 0xAF, 0x45] && c0 == config then Some(Stream(config, w, h, 40)) else None
  {
    hide Put32, Get32;
    var src := [0x6E, 0xC3, 0xAF, 0x41] + c0 + between + magic + config + Put32(w) + Put32(h) + rest;
    assert src[..4] == ANIMATED && src[4..8] == c0 && src[24..28] == magic && src[28..32] == config;
    assert src[32..36] == Put32(w) && src[36..40] == Put32(h);
    GetAt32(src, 32, w);
    GetAt32(src, 36, h);
  }

  function Get16(s: seq<byte>, i: nat): (x: int)
    requires i + 2 <= |s|
    ensures 0 <= x < 0x1_0000
  {
    Le16(s[i], s[i + 1])
  }

  /** The premultiplied red, green, blue, alpha of the wire pixel at i. */
  function Convert(p: Pixel, px: seq<byte>, i: nat): (r: Option<seq<byte>>)
    requires i + p.Width() <= |px|
    ensures r.Some? ==> |r.value| == 4
  {
    match p
    case NonPremul4 =>
      Some([Premul8(px[i + 2], px[i + 3]), Premul8(px[i + 1], px[i + 3]), Premul8(px[i], px[i + 3]), px[i + 3]])
    case NonPremul8 =>
      var b16, g16, r16, a16 := Get16(px, i), Get16(px, i + 2), Get16(px, i + 4), Get16(px, i + 6);
      Some([Premul16(r16, a16), Premul16(g16, a16), Premul16(b16, a16), Wrap8(a16 / 0x100)])
    case Premul4 =>
      Some([px[i + 2], px[i + 1], px[i], px[i + 3]])
    case Premul8Bytes =>
      Some([px[i + 5], px[i + 3], px[i + 1], px[i + 7]])
    case Unsupported => None
  }

  /** Each configuration's pixel: channels in the order blue, green, red, alpha,
      one byte each or two little-endian ones, premultiplied or not. */
  lemma ConvertCases(p: Pixel, px: seq<byte>, i: nat)
    requires i + p.Width() <= |px|
    ensures p == NonPremul4 ==>
              Convert(p, px, i) == Some([Premul8(px[i + 2], px[i + 3]), Premul8(px[i + 1], px[i + 3]),
                                         Premul8(px[i], px[i + 3]), px[i + 3]])
    ensures p == NonPremul8 ==>
              var a := px[i + 6] as int + px[i + 7] as int * 256;
              && Convert(p, px, i).Some?
              && Convert(p, px, i).value[0] == Premul16(px[i + 4] as int + px[i + 5] as int * 256, a)
              && Convert(p, px, i).value[1] == Premul16(px[i + 2] as int + px[i + 3] as int * 256, a)
              && Convert(p, px, i).value[2] == Premul16(px[i] as int + px[i + 1] as int * 256, a)
              && Convert(p, px, i).value[3] == px[i + 7]
    ensures p == Premul4 ==> Convert(p, px, i) == Some([px[i + 2], px[i + 1], px[i], px[i + 3]])
    ensures p == Premul8Bytes ==> Convert(p, px, i) == Some([px[i + 5], px[i + 3], px[i + 1], px[i + 7]])
    ensures p == Unsupported ==> Convert(p, px, i) == None
  {}

  /** A 16-bit image whose channels are the widened channels of an 8-bit one
      converts to the same pixel, premultiplied or not. */
  lemma WidenedAgrees(px: seq<byte>, i: nat, wide: seq<byte>, j: nat)
    requires i + 4 <= |px| && j + 8 <= |wide|
    requires wide[j] == wide[j + 1] == px[i] && wide[j + 2] == wide[j + 3] == px[i + 1]
    requires wide[j + 4] == wide[j + 5] == px[i + 2] && wide[j + 6] == wide[j + 7] == px[i + 3]
    ensures Convert(NonPremul8, wide, j) == Convert(NonPremul4, px, i)
    ensures Convert(Premul8Bytes, wide, j) == Convert(Premul4, px, i)
  {
    hide Premul8, Premul16;
    WidePremul(px[i], px[i + 3]);
    WidePremul(px[i + 1], px[i + 3]);
    WidePremul(px[i + 2], px[i + 3]);
    assert Get16(wide, j) == 257 * px[i] as int && Get16(wide, j + 2) == 257 * px[i + 1] as int;
    assert Get16(wide, j + 4) == 257 * px[i + 2] as int && Get16(wide, j + 6) == 257 * px[i + 3] as int;
    assert Wrap8(257 * (px[i + 3] as int) / 0x100) == px[i + 3];
  }

  lemma WidePremul(c: byte, a: byte)
    ensures Premul16(257 * c as int, 257 * a as int) == Premul8(c, a)
  {
    hide Premul8, Premul16;
    Premul8Bounds(c, a);
    var c16, a16 := 257 * c as int, 257 * a as int;
    Premul16Bounds(c16, a16);
    assert c16 * a16 == c as int * a as int * 66049 by {
      WideProduct(c, a, c16, a16);
    }
  }

  lemma WideProduct(c: int, a: int, c16: int, a16: int)
    requires c16 == 257 * c && a16 == 257 * a
    ensures c16 * a16 == c * a * 66049
  {
    assert c16 * a16 == 257 * c * a16 == 257 * (c * a16);
    assert c * a16 == 257 * (c * a);
  }

  lemma WithinTimes(k: nat, n: nat, bpp: nat)
    requires k < n
    ensures Times(k, bpp) + bpp == Times(k + 1, bpp) <= Times(n, bpp)
  {
    TimesNext(k, bpp, n);
  }

  /** The first n converted pixels; none when one is unsupported. */
  function Converted(p: Pixel, bpp: nat, px: seq<byte>, n: nat): (r: Option<seq<byte>>)
    requires p.Width() <= bpp && Times(n, bpp) <= |px|
    ensures r.Some? ==> |r.value| == 4 * n
  {
    if n == 0 then Some([])
    else
      WithinTimes(n - 1, n, bpp);
      var front := Converted(p, bpp, px, n - 1);
      var last := Convert(p, px, Times(n - 1, bpp));
      if front.None? || last.None? then None else Some(front.value + last.value)
  }

  /** Output pixel k is the conversion of wire pixel k. */
  lemma {:induction false} ConvertedAt(p: Pixel, bpp: nat, px: seq<byte>, n: nat, k: nat)
    requires p.Width() <= bpp && Times(n, bpp) <= |px| && k < n
    requires Converted(p, bpp, px, n).Some?
    ensures Times(k, bpp) + bpp <= |px|
    ensures Convert(p, px, Times(k, bpp)) == Some(Converted(p, bpp, px, n).value[4 * k..4 * k + 4])
    decreases n
  {
    hide Convert;
    WithinTimes(n - 1, n, bpp);
    var front := Converted(p, bpp, px, n - 1).value;
    var last := Convert(p, px, Times(n - 1, bpp)).value;
    if k < n - 1 {
      ConvertedAt(p, bpp, px, n - 1, k);
      FrontSlice(front, last, 4 * k, 4 * k + 4);
    } else {
      BackSlice(front, last, 4 * k, 4 * k + 4);
    }
  }

  /** Only an unsupported configuration fails, and only if it has a pixel. */
  lemma {:induction false} ConvertedIff(p: Pixel, bpp: nat, px: seq<byte>, n: nat)
    requires p.Width() <= bpp && Times(n, bpp) <= |px|
    ensures Converted(p, bpp, px, n).Some? <==> n == 0 || p != Unsupported
    decreases n
  {
    if n > 0 {
      WithinTimes(n - 1, n, bpp);
      ConvertedIff(p, bpp, px, n - 1);
    }
  }

  datatype Image = Image(pix: seq<byte>, width: nat, height: nat)

  function DecodedPayload(src: seq<byte>, s: Stream, bpp: nat, n: nat): Option<Image>
    requires |s.config| == 4 && BytesPerPixel(s.config) == Some(bpp) && s.pos <= |src|
  {
    if |src| - s.pos < Times(n, bpp) then None
    else
      match Converted(PixelOf(s.config), bpp, src[s.pos..s.pos + Times(n, bpp)], n)
      case None => None
      case Some(out) => Some(Image(out, s.width, s.height))
  }

  const TWO_63 := 0x8000_0000_0000_0000

  /** A Go int product: wrapped to 64 bits, read as signed. */
  function GoInt(x: int): int {
    var r := Wrap64(x);
    if r < TWO_63 then r else r - TWO_64
  }

  /** How many pixels the reader converts, from its two int products w * h * bpp and
      w * h * 4. With a negative one it panics, slicing or allocating: None. */
  function PixelCount(pixels: nat, bpp: nat): Option<nat>
    requires bpp == 4 || bpp == 8
  {
    var need, room := GoInt(pixels * bpp), GoInt(pixels * 4);
    if need < 0 || room < 0 then None else Some(need / bpp)
  }

  /** The payload length is a whole number of pixels, and the output has exactly their size. */
  lemma CountFills(pixels: nat, bpp: nat)
    requires bpp == 4 || bpp == 8
    ensures PixelCount(pixels, bpp).Some? ==>
              && GoInt(pixels * bpp) == Times(PixelCount(pixels, bpp).value, bpp)
              && GoInt(pixels * 4) == 4 * PixelCount(pixels, bpp).value
  {
    if bpp == 8 {
      WrapTwice(pixels * 4);
    }
    WrapKeeps(pixels, bpp);
  }

  lemma WrapKeeps(pixels: nat, bpp: nat)
    requires bpp == 4 || bpp == 8
    ensures Wrap64(pixels * bpp) % bpp == 0
  {
    if bpp == 4 {
      WrapKeeps4(pixels);
    } else {
      WrapKeeps8(pixels);
    }
  }

  lemma WrapKeeps4(pixels: nat)
    ensures Wrap64(pixels * 4) % 4 == 0
  {
    var q := pixels * 4 / TWO_64;
    assert Wrap64(pixels * 4) == 4 * (pixels - q * 0x4000_0000_0000_0000);
  }

  lemma WrapKeeps8(pixels: nat)
    ensures Wrap64(pixels * 8) % 8 == 0
  {
    var q := pixels * 8 / TWO_64;
    assert Wrap64(pixels * 8) == 8 * (pixels - q * 0x2000_0000_0000_0000);
  }

  lemma WrapTwice(x: nat)
    ensures GoInt(x) >= 0 && GoInt(2 * x) >= 0 ==> GoInt(2 * x) == 2 * GoInt(x)
  {
    var q, r := x / TWO_64, x % TWO_64;
    assert 2 * x == 2 * r + 2 * q * TWO_64;
    if r < TWO_63 {
      assert Wrap64(2 * x) == 2 * r by {
        WrapShift(2 * r, 2 * q);
      }
    }
  }

  lemma WrapShift(r: nat, q: nat)
    requires r < TWO_64
    ensures Wrap64(r + q * TWO_64) == r
  {}

  /** No pixel is lost exactly when the payload length fits a Go int. */
  lemma CountExactIff(pixels: nat, bpp: nat)
    requires bpp == 4 || bpp == 8
    ensures PixelCount(pixels, bpp) == Some(pixels) <==> pixels * bpp < TWO_63
  {
    CountFills(pixels, bpp);
  }

  function Decoded(src: seq<byte>): Option<Image> {
    match Open(src)
    case None => None
    case Some(s) =>
      match BytesPerPixel(s.config)
      case None => None
      case Some(bpp) =>
        match PixelCount(Times(s.height, s.width), bpp)
        case None => None
        case Some(n) => DecodedPayload(src, s, bpp, n)
  }

  /** A header of 2^31 by 2^31 four-byte pixels: the payload length wraps to zero
      and the reader returns an image of that size without a pixel. */
  lemma WrappedImageAccepted(src: seq<byte>, pos: nat)
    requires Open(src) == Some(Stream(BN4, 0x8000_0000, 0x8000_0000, pos))
    ensures Decoded(src) == Some(Image([], 0x8000_0000, 0x8000_0000))
  {
    assert Times(0x8000_0000, 0x8000_0000) * 4 == TWO_64;
    assert PixelCount(Times(0x8000_0000, 0x8000_0000), 4) == Some(0);
  }

  /** The reader succeeds exactly on these conditions, and then output pixel k
      is the conversion of wire pixel k, whichever configuration is read. */
  lemma {:induction false} DecodedPixels(src: seq<byte>, s: Stream, bpp: nat, n: nat)
    requires Open(src) == Some(s) && BytesPerPixel(s.config) == Some(bpp)
    ensures PixelCount(Times(s.height, s.width), bpp).None? ==> Decoded(src).None?
    ensures PixelCount(Times(s.height, s.width), bpp) == Some(n) ==>
            (Decoded(src).Some? <==> |src| - s.pos >= Times(n, bpp) && (n == 0 || PixelOf(s.config) != Unsupported))
    ensures PixelCount(Times(s.height, s.width), bpp) == Some(n) && Decoded(src).Some? ==>
              var image := Decoded(src).value;
              var px := src[s.pos..s.pos + Times(n, bpp)];
              && image.width == s.width && image.height == s.height && |image.pix| == 4 * n
              && forall k :: 0 <= k < n ==>
                   && Times(k, bpp) + PixelOf(s.config).Width() <= |px|
                   && Convert(PixelOf(s.config), px, Times(k, bpp)) == Some(image.pix[4 * k..4 * k + 4])
  {
    hide Convert, Converted, Open, BytesPerPixel, PixelOf, PixelCount;
    if PixelCount(Times(s.height, s.width), bpp) == Some(n) && |src| - s.pos >= Times(n, bpp) {
      var px := src[s.pos..s.pos + Times(n, bpp)];
      var p := PixelOf(s.config);
      ConvertedIff(p, bpp, px, n);
      if Decoded(src).Some? {
        forall k | 0 <= k < n
          ensures Times(k, bpp) + p.Width() <= |px|
          ensures Convert(p, px, Times(k, bpp)) == Some(Decoded(src).value.pix[4 * k..4 * k + 4])
        {
          ConvertedAt(p, bpp, px, n, k);
        }
      }
    }
  }

  /** nieFrameZeroPremulRGBA; a fatal test failure or a panic is None. */
  method FrameZeroPremulRGBA(src: seq<byte>) returns (r: Option<Image>)
    ensures r == Decoded(src)
  {
    if |src| < 16 {
      return None;
    }
    var config := src[4..8];
    var w: nat, h: nat := Get32(src, 8), Get32(src, 12);
    var pos: nat := 16;
    if src[..4] == ANIMATED {
      if |src| < 40 {
        return None;
      }
      if src[24..28] != STILL {
        return None;
      }
      if src[28..32] != config {
        return None;
      }
      w := Get32(src, 32);
      h := Get32(src, 36);
      pos := 40;
    }
    assert Open(src) == Some(Stream(config, w, h, pos));
    var bpp: nat := 8;
    if config[3] == 0x34 {
      bpp := 4;
    } else if config[3] != 0x38 {
      return None;
    }
    var need, room := GoInt(Times(h, w) * bpp), GoInt(Times(h, w) * 4);
    if need < 0 || room < 0 {
      return None;
    }
    CountFills(Times(h, w), bpp);
    assert need == Times(need / bpp, bpp) && room == 4 * (need / bpp);
    r := ReadPayload(src, Stream(config, w, h, pos), bpp, need / bpp);
  }

  method ReadPayload(src: seq<byte>, s: Stream, bpp: nat, n: nat) returns (r: Option<Image>)
    requires |s.config| == 4 && BytesPerPixel(s.config) == Some(bpp) && s.pos <= |src|
    ensures r == DecodedPayload(src, s, bpp, n)
  {
    var need := Times(n, bpp);
    if |src| - s.pos < need {
      return None;
    }
    var out := ConvertAll(PixelOf(s.config), src[s.pos..s.pos + need], bpp, n);
    r := if out.Some? then Some(Image(out.value, s.width, s.height)) else None;
  }

  /** The four stores of one output pixel. */
  method StorePixel(out: array<byte>, oi: nat, c: seq<byte>)
    requires |c| == 4 && oi + 4 <= out.Length
    modifies out
    ensures out[..oi + 4] == old(out[..oi]) + c
  {
    ghost var before := out[..oi];
    out[oi], out[oi + 1], out[oi + 2], out[oi + 3] := c[0], c[1], c[2], c[3];
    assert out[..oi + 4] == before + c;
  }

  /** The conversion loop: i walks the wire pixels, oi the output. */
  method ConvertAll(p: Pixel, px: seq<byte>, bpp: nat, n: nat) returns (r: Option<seq<byte>>)
    requires bpp > 0 && p.Width() <= bpp && |px| == Times(n, bpp)
    ensures r == Converted(p, bpp, px, n)
  {
    hide Convert, Converted;
    var out := new byte[4 * n];
    ConvertedNone(p, bpp, px);
    var oi := 0;
    var i := 0;
    ghost var k := 0;
    while i < |px|
      invariant 0 <= k <= n && i == Times(k, bpp) && oi == 4 * k
      invariant Converted(p, bpp, px, k) == Some(out[..oi])
      decreases |px| - i
    {
      assert k < n;
      WithinTimes(k, n, bpp);
      var c := Convert(p, px, i);
      ConvertedNext(p, bpp, px, k);
      if c.None? {
        ConvertedStops(p, bpp, px, k + 1, n);
        return None;
      }
      StorePixel(out, oi, c.value);
      i := i + bpp;
      oi := oi + 4;
      k := k + 1;
    }
    assert k == n by {
      if k < n {
        WithinTimes(k, n, bpp);
      }
    }
    r := Some(out[..oi]);
  }

  lemma ConvertedNone(p: Pixel, bpp: nat, px: seq<byte>)
    requires p.Width() <= bpp
    ensures Times(0, bpp) == 0 && Converted(p, bpp, px, 0) == Some([])
  {}

  lemma ConvertedNext(p: Pixel, bpp: nat, px: seq<byte>, k: nat)
    requires p.Width() <= bpp && Times(k, bpp) + bpp == Times(k + 1, bpp) <= |px|
    ensures Converted(p, bpp, px, k + 1) ==
            var front := Converted(p, bpp, px, k);
            var last := Convert(p, px, Times(k, bpp));
            if front.None? || last.None? then None else Some(front.value + last.value)
  {
    hide Convert;
  }

  lemma {:induction false} ConvertedStops(p: Pixel, bpp: nat, px: seq<byte>, m: nat, n: nat)
    requires p.Width() <= bpp && Times(n, bpp) <= |px| && m <= n
    requires Times(m, bpp) <= |px| && Converted(p, bpp, px, m).None?
    ensures Converted(p, bpp, px, n).None?
    decreases n
  {
    if m < n {
      WithinTimes(n - 1, n, bpp);
      ConvertedStops(p, bpp, px, m, n - 1);
    }
  }

  // ---- reading back what was written ----

  /** Pixel k of an image, premultiplied, in red, green, blue, alpha order. */
  function Premultiplied(pix: seq<byte>, stride: int, w: nat, k: nat): (s: seq<byte>)
    requires HasPixel(pix, stride, w, k)
    ensures |s| == 4
  {
    var i := PixOffset(k, w, stride);
    [Premul8(pix[i], pix[i + 3]), Premul8(pix[i + 1], pix[i + 3]), Premul8(pix[i + 2], pix[i + 3]), pix[i + 3]]
  }

  function AllPremultiplied(pix: seq<byte>, stride: int, w: nat, n: nat): (s: seq<byte>)
    requires HasPixels(pix, stride, w, n)
    ensures |s| == 4 * n
  {
    if n == 0 then []
    else AllPremultiplied(pix, stride, w, n - 1) + Premultiplied(pix, stride, w, n - 1)
  }

  /** Pixel k of the premultiplied image is the premultiplied pixel k. */
  lemma {:induction false} PremultipliedAt(pix: seq<byte>, stride: int, w: nat, n: nat, k: nat)
    requires HasPixels(pix, stride, w, n) && k < n
    ensures AllPremultiplied(pix, stride, w, n)[4 * k..4 * k + 4] == Premultiplied(pix, stride, w, k)
    decreases n
  {
    hide Premultiplied, HasPixel;
    var front := AllPremultiplied(pix, stride, w, n - 1);
    var last := Premultiplied(pix, stride, w, n - 1);
    if k < n - 1 {
      PremultipliedAt(pix, stride, w, n - 1, k);
      FrontSlice(front, last, 4 * k, 4 * k + 4);
    } else {
      BackSlice(front, last, 4 * k, 4 * k + 4);
    }
  }

  lemma {:induction false} PayloadConverts(pix: seq<byte>, stride: int, w: nat, px: seq<byte>, n: nat, total: nat)
    requires n <= total && HasPixels(pix, stride, w, total) && px == Payload(pix, stride, w, total)
    ensures Times(n, 4) <= |px|
    ensures Converted(NonPremul4, 4, px, n) == Some(AllPremultiplied(pix, stride, w, n))
    decreases n
  {
    hide Convert, Premultiplied, Wire, HasPixel;
    if n > 0 {
      var k := n - 1;
      PayloadConverts(pix, stride, w, px, k, total);
      PayloadAt(pix, stride, w, total, k);
      WireConverts(pix, stride, w, px, k);
    }
  }

  lemma {:induction false} WireConverts(pix: seq<byte>, stride: int, w: nat, px: seq<byte>, k: nat)
    requires HasPixel(pix, stride, w, k)
    requires 4 * k + 4 <= |px| && px[4 * k..4 * k + 4] == Wire(pix, stride, w, k)
    ensures Times(k, 4) == 4 * k && Convert(NonPremul4, px, Times(k, 4)) == Some(Premultiplied(pix, stride, w, k))
  {
    var i := 4 * k;
    var wire := px[i..i + 4];
    assert px[i] == wire[0] && px[i + 1] == wire[1] && px[i + 2] == wire[2] && px[i + 3] == wire[3];
  }

  lemma {:induction false} HeaderFields(src: seq<byte>, w: nat, h: nat, rest: seq<byte>)
    requires w <= MAX_U32 && h <= MAX_U32
    requires src == Header(ANIMATED, w, h) + Zeros(8) + Header(STILL, w, h) + rest
    ensures Open(src) == Some(Stream(BN4, w, h, 40)) && src[40..] == rest
  {
    var outer, inner := Header(ANIMATED, w, h), Header(STILL, w, h);
    assert src[..16] == outer && src[24..40] == inner;
    assert src[..4] == outer[..4] == ANIMATED;
    assert src[4..8] == outer[4..8] == BN4;
    assert src[24..28] == inner[..4] == STILL;
    assert src[28..32] == inner[4..8] == BN4;
    assert src[32..36] == inner[8..12] == Put32(w);
    assert src[36..40] == inner[12..16] == Put32(h);
    GetAt32(src, 32, w);
    GetAt32(src, 36, h);
  }

  /** Parsing the NIA encoding of any image, tight or padded, odd or even,
      returns its dimensions and its premultiplied pixels. */
  lemma {:induction false} ReadBackEncoded(pix: seq<byte>, stride: int, w: nat, h: nat)
    requires RowsFit(|pix|, stride, w * 4, h) && w <= MAX_U32 && h <= MAX_U32 && |pix| < TWO_63
    ensures HasPixels(pix, stride, w, Times(h, w))
    ensures Decoded(Encoded(pix, stride, w, h)) ==
            Some(Image(AllPremultiplied(pix, stride, w, Times(h, w)), w, h))
  {
    hide Payload, Converted, Open, Header, HasPixel, AllPremultiplied, RowsFit, PixelCount;
    RasterHasPixels(pix, stride, w, h);
    PixelsWithin(|pix|, stride, w, h);
    CountExactIff(Times(h, w), 4);
    var n := Times(h, w);
    var src := Encoded(pix, stride, w, h);
    var px := Payload(pix, stride, w, n);
    var tail := Padding(w, h) + FOOTER;
    Regrouped(Header(ANIMATED, w, h), Zeros(8), Header(STILL, w, h), px, Padding(w, h), FOOTER);
    HeaderFields(src, w, h, px + tail);
    FrontOf(src, 40, px, tail, Times(n, 4));
    PayloadConverts(pix, stride, w, px, n, n);
    assert PixelOf(BN4) == NonPremul4 && BytesPerPixel(BN4) == Some(4);
  }

  lemma FrontOf(s: seq<byte>, pos: nat, px: seq<byte>, tail: seq<byte>, need: nat)
    requires pos <= |s| && s[pos..] == px + tail && need == |px|
    ensures |s| - pos >= need && s[pos..pos + need] == px
  {
    assert s[pos..pos + need] == s[pos..][..need];
  }

  lemma Regrouped(a: seq<byte>, b: seq<byte>, c: seq<byte>, d: seq<byte>, e: seq<byte>, f: seq<byte>)
    ensures a + b + c + d + e + f == a + b + c + (d + (e + f))
  {}

  /** The parsed pixels are premultiplied, so they meet the gray converter's bounds. */
  lemma ParsedPixelIsGrayable(pix: seq<byte>, stride: int, w: nat, k: nat)
    requires HasPixel(pix, stride, w, k)
    ensures var p := Premultiplied(pix, stride, w, k);
            Luma(p[2], p[1], p[0]) - 1 <= Gray(p[2], p[1], p[0], p[3]) <= Luma(p[2], p[1], p[0])
  {
    var i := PixOffset(k, w, stride);
    Premul8Bounds(pix[i], pix[i + 3]);
    Premul8Bounds(pix[i + 1], pix[i + 3]);
    Premul8Bounds(pix[i + 2], pix[i + 3]);
    var p := Premultiplied(pix, stride, w, k);
    GrayBounds(p[2], p[1], p[0], p[3]);
  }
}
