/** What DecodeNRGBA and DecodeGray show where the codec writes nothing:
    decode_image does not clear the canvas, so earlier slot contents do. */
module Stale {
  import opened Bytes
  import opened Codec
  import opened Layout
  import opened Pixels
  import opened GuestSpec
  import opened HostSpec
  import opened Decoder
  import opened Convenience
  import opened Structs
  import Formats

  // ---- which Pix byte shows a canvas byte ----

  /** Where Pix shows byte k of a canvas with rows of rowBytes bytes. */
  function PixPlace(k: nat, rowBytes: int, stride: int): int
    requires rowBytes > 0
  {
    RowStart(k / rowBytes, stride) + k % rowBytes
  }

  lemma PlaceOf(k: nat, rowBytes: int, stride: int, h: int, n: int)
    requires rowBytes > 0 && RowsFit(n, stride, rowBytes, h) && k < h * rowBytes
    ensures var i := PixPlace(k, rowBytes, stride);
            && 0 <= i < n && i / stride == k / rowBytes && i % stride == k % rowBytes
            && Covers(i, stride, 0, h, 0, rowBytes)
  {
    hide RowsFit;
    RowOf(k, rowBytes, h);
    PlaceIn(k / rowBytes, k % rowBytes, rowBytes, stride, h, n);
  }

  lemma RowOf(k: nat, rowBytes: int, h: int)
    requires rowBytes > 0 && k < h * rowBytes
    ensures 0 <= k / rowBytes < h && 0 <= k % rowBytes < rowBytes
  {
    var y := k / rowBytes;
    Quotient(k, rowBytes);
    if y >= h {
      MulMono(h, y, rowBytes);
    }
  }

  lemma PlaceIn(y: int, x: int, rowBytes: int, stride: int, h: int, n: int)
    requires 0 <= y < h && 0 <= x < rowBytes && RowsFit(n, stride, rowBytes, h)
    ensures var i := RowStart(y, stride) + x;
            0 <= i < n && stride > 0 && i / stride == y && i % stride == x
  {
    assert 0 <= RowStart(y, stride) && RowStart(y, stride) + rowBytes <= n;
    RowColumn(RowStart(y, stride) + x, stride, y, x);
  }

  /** The scratch byte that a covered Pix byte shows exists. */
  lemma SourceInside(i: nat, rowBytes: int, stride: int, h: int, n: int)
    requires stride > 0 && rowBytes > 0 && RowsFit(n, rowBytes, rowBytes, h) && Covers(i, stride, 0, h, 0, rowBytes)
    ensures 0 <= SourceIndex(i, stride, rowBytes) < n
  {
    assert 0 <= RowStart(i / stride, rowBytes) && RowStart(i / stride, rowBytes) + rowBytes <= n;
  }

  // ---- the two decodes as overlays of memory ----

  /** The image decode into a shape succeeds, with the work buffer clear of the source. */
  predicate Decodes(c: Codec, lay: SlotLayout, s: Shape, bpp: int, src: seq<byte>, fmt: int) {
    && WorkFits(c, src, lay.srcOff)
    && ReachImage(c, src, lay.dstLen, fmt).Ready?
    && ImageResult(c, lay, s, bpp, src, fmt, PaintHere(c, lay, src, fmt).ok).Success?
  }

  /** What the codec paints in an image decode. */
  function PaintHere(c: Codec, lay: SlotLayout, src: seq<byte>, fmt: int): Paint
    requires ReachImage(c, src, lay.dstLen, fmt).Ready?
  {
    PaintOf(c, src, ReachImage(c, src, lay.dstLen, fmt).consumed, fmt)
  }

  lemma DecodesMeans(c: Codec, lay: SlotLayout, s: Shape, bpp: int, src: seq<byte>, fmt: int)
    requires (bpp == 1 || bpp == 4) && Addressable(s) && Decodes(c, lay, s, bpp, src, fmt)
    ensures var o := Open(c, src);
            && o.Opened? && RoomFor(o, lay.dstLen) && o.width > 0 && o.height > 0 && s.stride > 0
            && RowsFit(s.pixLen, s.stride, o.width * bpp, o.height)
            && RowsFit(Need(o.width, o.height), o.width * 4, o.width * 4, o.height)
  {
    hide ValidateDestination, RowsFit;
    var o := Open(c, src);
    AcceptedRows(s, o.width, o.height, bpp);
  }

  /** The memory after the codec has painted the canvas over m0. */
  lemma Painted(c: Codec, st: State, src: seq<byte>, fmt: int, m0: seq<byte>) returns (m: seq<byte>, scratch: seq<byte>)
    requires Sound(st) && |m0| == st.memSize && ReachImage(c, src, st.lay.dstLen, fmt).Ready?
    requires var o := Open(c, src); o.Opened? && RoomFor(o, st.lay.dstLen)
    ensures st.lay.dstOff + Need(Open(c, src).width, Open(c, src).height) <= |m0|
    ensures ImageScratch(c, st.lay, src, fmt, m0, m, scratch) && |scratch| == Need(Open(c, src).width, Open(c, src).height)
    ensures scratch == Canvas(PaintHere(c, st.lay, src, fmt), m0[st.lay.dstOff..st.lay.dstOff + |scratch|])
  {
    hide ComputeLayout, Open, Canvas, ReachImage, Need, Write;
    SoundSeparated(st);
    var n := Need(Open(c, src).width, Open(c, src).height);
    scratch := Canvas(PaintHere(c, st.lay, src, fmt), m0[st.lay.dstOff..st.lay.dstOff + n]);
    m := Write(m0, st.lay.dstOff, scratch);
    ReadBack(m0, st.lay.dstOff, scratch);
  }

  /** A scratch after the decode is the overlay of the memory before it. */
  lemma ScratchOver(c: Codec, lay: SlotLayout, src: seq<byte>, fmt: int, m0: seq<byte>, m: seq<byte>, scratch: seq<byte>)
    requires ImageScratch(c, lay, src, fmt, m0, m, scratch)
    requires WorkFits(c, src, lay.srcOff) && ReachImage(c, src, lay.dstLen, fmt).Ready?
    ensures Open(c, src).Opened? && |scratch| == Need(Open(c, src).width, Open(c, src).height)
    ensures lay.dstOff + |scratch| <= |m0|
    ensures scratch == Canvas(PaintHere(c, lay, src, fmt), m0[lay.dstOff..lay.dstOff + |scratch|])
  {
    hide WorkFits, ReachImage, Canvas;
  }

  // ---- DecodeNRGBA ----

  function Overlaid(before: seq<byte>, stride: int, scratch: seq<byte>, rowBytes: int, h: int): (s: seq<byte>)
    requires stride > 0 && rowBytes > 0 && RowsFit(|scratch|, rowBytes, rowBytes, h)
    ensures |s| == |before| && Copied(before, s, stride, scratch, rowBytes, 0, h, 0, rowBytes)
  {
    hide RowsFit;
    assert forall i: nat :: Covers(i, stride, 0, h, 0, rowBytes) ==> 0 <= SourceIndex(i, stride, rowBytes) < |scratch| by {
      forall i: nat | Covers(i, stride, 0, h, 0, rowBytes) ensures 0 <= SourceIndex(i, stride, rowBytes) < |scratch| {
        SourceInside(i, rowBytes, stride, h, |scratch|);
      }
    }
    seq(|before|, i requires 0 <= i < |before| =>
      if Covers(i, stride, 0, h, 0, rowBytes) then scratch[SourceIndex(i, stride, rowBytes)] else before[i])
  }

  lemma CopiedUnique(before: seq<byte>, a: seq<byte>, a': seq<byte>, stride: int, scratch: seq<byte>, rowBytes: int, h: int)
    requires stride > 0
    requires Copied(before, a, stride, scratch, rowBytes, 0, h, 0, rowBytes)
    requires Copied(before, a', stride, scratch, rowBytes, 0, h, 0, rowBytes)
    ensures a == a'
  {
    hide Covers, SourceIndex;
    forall i | 0 <= i < |a| ensures a[i] == a'[i] {}
  }

  /** Byte k of the scratch shows at its own place. */
  lemma CopiedShows(before: seq<byte>, after: seq<byte>, stride: int, scratch: seq<byte>, rowBytes: int, h: int, k: nat)
    requires rowBytes > 0 && stride > 0 && RowsFit(|after|, stride, rowBytes, h) && k < h * rowBytes && k < |scratch|
    requires Copied(before, after, stride, scratch, rowBytes, 0, h, 0, rowBytes)
    ensures 0 <= PixPlace(k, rowBytes, stride) < |after|
    ensures after[PixPlace(k, rowBytes, stride)] == scratch[k]
  {
    hide RowsFit;
    PlaceOf(k, rowBytes, stride, h, |after|);
    var i := PixPlace(k, rowBytes, stride);
    hide PixPlace;
    assert SourceIndex(i, stride, rowBytes) == k;
  }

  /** Two successful DecodeNRGBA calls with everything equal but the memory they
      start from leave equal Pix. */
  ghost predicate NRGBAIndependent(c: Codec, st: State, src: seq<byte>, before: seq<byte>, stride: int) {
    forall m0, m, after, m0', m', after' ::
      && |m0| == st.memSize && NRGBAShown(c, st.lay, src, m0, m, before, after, stride)
      && |m0'| == st.memSize && NRGBAShown(c, st.lay, src, m0', m', before, after', stride)
      ==> after == after'
  }

  ghost predicate PaintsAll(p: Paint, n: nat) {
    forall i :: 0 <= i < n ==> p.at(i).Some?
  }

  lemma PaintedHides(p: Paint, b: seq<byte>, b': seq<byte>)
    requires |b| == |b'| && PaintsAll(p, |b|)
    ensures Canvas(p, b) == Canvas(p, b')
  {
    assert forall i :: 0 <= i < |b| ==> CanvasByte(p, b, i) == CanvasByte(p, b', i);
  }

  lemma {:induction false} NRGBAPaintedIndependent(c: Codec, st: State, s: Shape, src: seq<byte>, before: seq<byte>)
    requires Sound(st) && Addressable(s) && Decodes(c, st.lay, s, 4, src, RGBA_NONPREMUL)
    requires Open(c, src).Opened?
    requires PaintsAll(PaintHere(c, st.lay, src, RGBA_NONPREMUL), Need(Open(c, src).width, Open(c, src).height))
    ensures NRGBAIndependent(c, st, src, before, s.stride)
  {
    hide WorkFits, ReachImage, Canvas, Open, Copied, ImageScratch, Need, PaintsAll, ImageResult, PaintHere, Sound;
    var o, p := Open(c, src), PaintHere(c, st.lay, src, RGBA_NONPREMUL);
    forall m0, m, after, m0', m', after' |
        && |m0| == st.memSize && NRGBAShown(c, st.lay, src, m0, m, before, after, s.stride)
        && |m0'| == st.memSize && NRGBAShown(c, st.lay, src, m0', m', before, after', s.stride)
      ensures after == after'
    {
      var scratch :| ImageScratch(c, st.lay, src, RGBA_NONPREMUL, m0, m, scratch)
                     && Copied(before, after, s.stride, scratch, o.width * 4, 0, o.height, 0, o.width * 4);
      var scratch' :| ImageScratch(c, st.lay, src, RGBA_NONPREMUL, m0', m', scratch')
                      && Copied(before, after', s.stride, scratch', o.width * 4, 0, o.height, 0, o.width * 4);
      ScratchOver(c, st.lay, src, RGBA_NONPREMUL, m0, m, scratch);
      ScratchOver(c, st.lay, src, RGBA_NONPREMUL, m0', m', scratch');
      var off := st.lay.dstOff;
      PaintedHides(p, m0[off..off + |scratch|], m0'[off..off + |scratch|]);
      CopiedUnique(before, after, after', s.stride, scratch, o.width * 4, o.height);
    }
  }

  /** A decode over any given memory, and what its Pix shows. */
  lemma {:induction false} NRGBAOver(c: Codec, st: State, s: Shape, src: seq<byte>, before: seq<byte>,
                                     m0: seq<byte>, k: nat)
      returns (m: seq<byte>, after: seq<byte>)
    requires Sound(st) && Addressable(s) && Decodes(c, st.lay, s, 4, src, RGBA_NONPREMUL)
    requires |before| == s.pixLen && |m0| == st.memSize
    requires Open(c, src).Opened? && k < Need(Open(c, src).width, Open(c, src).height)
    ensures Open(c, src).width > 0 && st.lay.dstOff + Need(Open(c, src).width, Open(c, src).height) <= |m0|
    ensures NRGBAShown(c, st.lay, src, m0, m, before, after, s.stride)
    ensures var i := PixPlace(k, Open(c, src).width * 4, s.stride);
            && 0 <= i < |after|
            && after[i] == match PaintHere(c, st.lay, src, RGBA_NONPREMUL).at(k)
                           case Some(b) => b
                           case None => m0[st.lay.dstOff + k]
  {
    hide WorkFits, ReachImage, Open, Copied, ImageScratch, ImageResult, PaintHere, Sound, RowsFit, PixPlace;
    var o := Open(c, src);
    DecodesMeans(c, st.lay, s, 4, src, RGBA_NONPREMUL);
    var scratch;
    m, scratch := Painted(c, st, src, RGBA_NONPREMUL, m0);
    after := Overlaid(before, s.stride, scratch, o.width * 4, o.height);
    CanvasSize(o.width, o.height);
    CopiedShows(before, after, s.stride, scratch, o.width * 4, o.height, k);
  }

  lemma CanvasSize(width: Dim, height: Dim)
    ensures height * (width * 4) == Need(width, height)
  {}

  /** What DecodeNRGBA shows does not depend on what the memory held before,
      exactly when the codec paints every canvas byte. */
  lemma {:induction false} NRGBAIndependentIff(c: Codec, st: State, s: Shape, src: seq<byte>, before: seq<byte>)
    requires Sound(st) && Addressable(s) && |before| == s.pixLen
    requires Decodes(c, st.lay, s, 4, src, RGBA_NONPREMUL)
    ensures Open(c, src).Opened?
    ensures NRGBAIndependent(c, st, src, before, s.stride)
            <==> PaintsAll(PaintHere(c, st.lay, src, RGBA_NONPREMUL), Need(Open(c, src).width, Open(c, src).height))
  {
    hide WorkFits, ReachImage, Open, Need, ImageResult, PaintHere, ComputeLayout, PixPlace, NRGBAShown;
    DecodesMeans(c, st.lay, s, 4, src, RGBA_NONPREMUL);
    var o, p := Open(c, src), PaintHere(c, st.lay, src, RGBA_NONPREMUL);
    var n := Need(o.width, o.height);
    if PaintsAll(p, n) {
      NRGBAPaintedIndependent(c, st, s, src, before);
    } else {
      var k :| 0 <= k < n && p.at(k).None?;
      var m0 := Zeros(st.memSize);
      var m, after := NRGBAOver(c, st, s, src, before, m0, k);
      var m0' := m0[st.lay.dstOff + k := 1];
      var m', after' := NRGBAOver(c, st, s, src, before, m0', k);
      assert after != after';
    }
  }

  // ---- DecodeGray ----

  /** The gray value of canvas pixel k when the bytes f lie under it. */
  function PixelOver(p: Paint, k: nat, f: seq<byte>): byte
    requires |f| == 4
  {
    Gray(Over(p, 4 * k, f[0]), Over(p, 4 * k + 1, f[1]), Over(p, 4 * k + 2, f[2]), Over(p, 4 * k + 3, f[3]))
  }

  function Over(p: Paint, i: nat, under: byte): byte {
    match p.at(i)
    case Some(b) => b
    case None => under
  }

  /** The painted bytes of pixel k fix its gray value. */
  ghost predicate Settled(p: Paint, k: nat) {
    forall f: seq<byte>, f': seq<byte> :: |f| == 4 && |f'| == 4 ==> PixelOver(p, k, f) == PixelOver(p, k, f')
  }

  ghost predicate AllSettled(p: Paint, n: nat) {
    forall k :: 0 <= k < n ==> Settled(p, k)
  }

  predicate PixelPainted(p: Paint, k: nat) {
    p.at(4 * k).Some? && p.at(4 * k + 1).Some? && p.at(4 * k + 2).Some? && p.at(4 * k + 3).Some?
  }

  predicate PixelBare(p: Paint, k: nat) {
    p.at(4 * k).None? && p.at(4 * k + 1).None? && p.at(4 * k + 2).None? && p.at(4 * k + 3).None?
  }

  /** Which pixels are settled: a fully painted one, one painted transparent,
      never one left bare. */
  lemma SettledCases(p: Paint, k: nat)
    ensures PixelPainted(p, k) ==> Settled(p, k)
    ensures p.at(4 * k + 3) == Some(0) ==> Settled(p, k)
    ensures PixelBare(p, k) ==> !Settled(p, k)
  {
    hide Rounded, Expand, Unpremultiply;
    if PixelBare(p, k) {
      OpaqueGrayFixed(0);
      OpaqueGrayFixed(255);
      var f, f' := [0, 0, 0, 255], [255, 255, 255, 255];
      assert PixelOver(p, k, f) == 0 && PixelOver(p, k, f') == 255;
    }
  }

  /** Where Pix shows pixel k of a canvas w pixels wide, one byte a pixel. */
  lemma GrayedShows(before: seq<byte>, after: seq<byte>, stride: int, scratch: seq<byte>, w: int, h: int, k: nat)
    requires w > 0 && stride > 0 && RowsFit(|after|, stride, w, h) && k < h * w
    requires Grayed(before, after, stride, scratch, w, h, 0)
    ensures 0 <= PixPlace(k, w, stride) < |after| && 4 * k + 4 <= |scratch|
    ensures after[PixPlace(k, w, stride)] == GrayAt(scratch, 4 * k)
  {
    hide RowsFit, GrayAt;
    PlaceOf(k, w, stride, h, |after|);
    var i := PixPlace(k, w, stride);
    FourTimes(k, w);
    hide PixPlace, PixelStart;
    assert PixelStart(i % stride, i / stride, w) == 4 * k;
  }

  lemma FourTimes(k: nat, w: int)
    requires w > 0
    ensures PixelStart(k % w, k / w, w) == 4 * k
  {
    var y, x := k / w, k % w;
    assert k == y * w + x;
    assert y * (w * 4) == 4 * (y * w);
  }

  /** The gray of a scratch pixel is that of the painted pixel over the memory below. */
  lemma GrayOver(p: Paint, below: seq<byte>, scratch: seq<byte>, k: nat)
    requires scratch == Canvas(p, below) && 4 * k + 4 <= |scratch|
    ensures GrayAt(scratch, 4 * k) == PixelOver(p, k, below[4 * k..4 * k + 4])
  {
    hide Gray;
    var f, i := below[4 * k..4 * k + 4], 4 * k;
    assert scratch[i] == Over(p, i, f[0]) && scratch[i + 1] == Over(p, i + 1, f[1]);
    assert scratch[i + 2] == Over(p, i + 2, f[2]) && scratch[i + 3] == Over(p, i + 3, f[3]);
  }

  ghost predicate GrayIndependent(c: Codec, st: State, src: seq<byte>, before: seq<byte>, stride: int) {
    forall m0, m, after, m0', m', after' ::
      && |m0| == st.memSize && GrayShown(c, st.lay, src, m0, m, before, after, stride)
      && |m0'| == st.memSize && GrayShown(c, st.lay, src, m0', m', before, after', stride)
      ==> after == after'
  }

  /** Settled pixels make the Pix of two scratches equal. */
  lemma {:induction false} SettledGrayed(p: Paint, below: seq<byte>, below': seq<byte>, before: seq<byte>,
                                         a: seq<byte>, a': seq<byte>, stride: int, w: int, h: int)
    requires w > 0 && stride > 0 && |below| == |below'| == 4 * (h * w) && AllSettled(p, h * w)
    requires Grayed(before, a, stride, Canvas(p, below), w, h, 0)
    requires Grayed(before, a', stride, Canvas(p, below'), w, h, 0)
    ensures a == a'
  {
    hide Canvas, AllSettled, GrayAt, PixelStart;
    forall i | 0 <= i < |a| ensures a[i] == a'[i] {
      if Covers(i, stride, 0, h, 0, w) {
        SettledPixel(p, below, below', w, h, i / stride, i % stride);
      }
    }
  }

  lemma SettledPixel(p: Paint, below: seq<byte>, below': seq<byte>, w: int, h: int, y: int, x: int)
    requires 0 <= y < h && 0 <= x < w && |below| == |below'| == 4 * (h * w) && AllSettled(p, h * w)
    ensures 0 <= PixelStart(x, y, w) && PixelStart(x, y, w) + 4 <= |below|
    ensures GrayAt(Canvas(p, below), PixelStart(x, y, w)) == GrayAt(Canvas(p, below'), PixelStart(x, y, w))
  {
    hide Canvas, Settled, GrayAt, PixelStart;
    var k := PixelNumber(w, h, y, x);
    GrayOver(p, below, Canvas(p, below), k);
    GrayOver(p, below', Canvas(p, below'), k);
    BothSettled(p, k, below[4 * k..4 * k + 4], below'[4 * k..4 * k + 4]);
  }

  lemma PixelNumber(w: int, h: int, y: int, x: int) returns (k: nat)
    requires 0 <= y < h && 0 <= x < w
    ensures k < h * w && PixelStart(x, y, w) == 4 * k
  {
    MulMono(0, y, w);
    MulMono(y + 1, h, w);
    k := y * w + x;
    assert y * (w * 4) == 4 * (y * w);
  }

  lemma BothSettled(p: Paint, k: nat, f: seq<byte>, f': seq<byte>)
    requires Settled(p, k) && |f| == 4 && |f'| == 4
    ensures PixelOver(p, k, f) == PixelOver(p, k, f')
  {}

  lemma {:induction false} GraySettledIndependent(c: Codec, st: State, s: Shape, src: seq<byte>, before: seq<byte>)
    requires Sound(st) && Addressable(s) && Decodes(c, st.lay, s, 1, src, BGRA_PREMUL)
    requires Open(c, src).Opened?
    requires AllSettled(PaintHere(c, st.lay, src, BGRA_PREMUL), Open(c, src).height * Open(c, src).width)
    ensures GrayIndependent(c, st, src, before, s.stride)
  {
    hide WorkFits, ReachImage, Canvas, Open, Grayed, ImageScratch, AllSettled, ImageResult, PaintHere, Sound, Need, RowsFit;
    DecodesMeans(c, st.lay, s, 1, src, BGRA_PREMUL);
    var o, p := Open(c, src), PaintHere(c, st.lay, src, BGRA_PREMUL);
    CanvasPixels(o.width, o.height);
    forall m0, m, after, m0', m', after' |
        && |m0| == st.memSize && GrayShown(c, st.lay, src, m0, m, before, after, s.stride)
        && |m0'| == st.memSize && GrayShown(c, st.lay, src, m0', m', before, after', s.stride)
      ensures after == after'
    {
      var scratch :| ImageScratch(c, st.lay, src, BGRA_PREMUL, m0, m, scratch)
                     && Grayed(before, after, s.stride, scratch, o.width, o.height, 0);
      var scratch' :| ImageScratch(c, st.lay, src, BGRA_PREMUL, m0', m', scratch')
                      && Grayed(before, after', s.stride, scratch', o.width, o.height, 0);
      ScratchOver(c, st.lay, src, BGRA_PREMUL, m0, m, scratch);
      ScratchOver(c, st.lay, src, BGRA_PREMUL, m0', m', scratch');
      var off := st.lay.dstOff;
      SettledGrayed(p, m0[off..off + |scratch|], m0'[off..off + |scratch|], before, after, after',
                    s.stride, o.width, o.height);
    }
  }

  lemma CanvasPixels(width: Dim, height: Dim)
    ensures 4 * (height * width) == Need(width, height)
  {}

  function GrayOverlaid(before: seq<byte>, stride: int, scratch: seq<byte>, w: int, h: int): (s: seq<byte>)
    requires stride > 0 && w > 0 && RowsFit(|scratch|, w * 4, w * 4, h)
    ensures |s| == |before| && Grayed(before, s, stride, scratch, w, h, 0)
  {
    hide RowsFit, GrayAt;
    assert forall i: nat :: Covers(i, stride, 0, h, 0, w) ==>
             0 <= PixelStart(i % stride, i / stride, w) && PixelStart(i % stride, i / stride, w) + 4 <= |scratch| by {
      forall i: nat | Covers(i, stride, 0, h, 0, w)
        ensures 0 <= PixelStart(i % stride, i / stride, w) && PixelStart(i % stride, i / stride, w) + 4 <= |scratch|
      {
        PixelInside(i / stride, i % stride, w, h, |scratch|);
      }
    }
    seq(|before|, i requires 0 <= i < |before| =>
      if Covers(i, stride, 0, h, 0, w) then GrayAt(scratch, PixelStart(i % stride, i / stride, w)) else before[i])
  }

  lemma PixelInside(y: int, x: int, w: int, h: int, n: int)
    requires 0 <= y < h && 0 <= x < w && RowsFit(n, w * 4, w * 4, h)
    ensures 0 <= PixelStart(x, y, w) && PixelStart(x, y, w) + 4 <= n
  {
    assert 0 <= RowStart(y, w * 4) && RowStart(y, w * 4) + w * 4 <= n;
  }

  lemma {:induction false} GrayDecodeOver(c: Codec, st: State, s: Shape, src: seq<byte>, before: seq<byte>,
                                          m0: seq<byte>, k: nat)
      returns (m: seq<byte>, after: seq<byte>)
    requires Sound(st) && Addressable(s) && Decodes(c, st.lay, s, 1, src, BGRA_PREMUL)
    requires |before| == s.pixLen && |m0| == st.memSize
    requires Open(c, src).Opened? && k < Open(c, src).height * Open(c, src).width
    ensures Open(c, src).width > 0 && st.lay.dstOff + 4 * k + 4 <= |m0|
    ensures GrayShown(c, st.lay, src, m0, m, before, after, s.stride)
    ensures var i := PixPlace(k, Open(c, src).width, s.stride);
            && 0 <= i < |after|
            && after[i] == PixelOver(PaintHere(c, st.lay, src, BGRA_PREMUL), k,
                                     m0[st.lay.dstOff + 4 * k..st.lay.dstOff + 4 * k + 4])
  {
    hide WorkFits, ReachImage, Open, Grayed, ImageScratch, ImageResult, PaintHere, Sound, RowsFit, PixPlace, PixelOver,
         Canvas, GrayAt, Need;
    var o, p := Open(c, src), PaintHere(c, st.lay, src, BGRA_PREMUL);
    DecodesMeans(c, st.lay, s, 1, src, BGRA_PREMUL);
    var scratch;
    m, scratch := Painted(c, st, src, BGRA_PREMUL, m0);
    after := GrayOverlaid(before, s.stride, scratch, o.width, o.height);
    CanvasPixels(o.width, o.height);
    GrayedShows(before, after, s.stride, scratch, o.width, o.height, k);
    var off := st.lay.dstOff;
    GrayOver(p, m0[off..off + |scratch|], scratch, k);
    SubSlice(m0, off, off + |scratch|, 4 * k, 4 * k + 4);
  }

  /** What DecodeGray shows does not depend on what the memory held before,
      exactly when the painted bytes of every pixel fix its gray value. */
  lemma {:induction false} GrayIndependentIff(c: Codec, st: State, s: Shape, src: seq<byte>, before: seq<byte>)
    requires Sound(st) && Addressable(s) && |before| == s.pixLen
    requires Decodes(c, st.lay, s, 1, src, BGRA_PREMUL)
    ensures Open(c, src).Opened?
    ensures GrayIndependent(c, st, src, before, s.stride)
            <==> AllSettled(PaintHere(c, st.lay, src, BGRA_PREMUL), Open(c, src).height * Open(c, src).width)
  {
    hide WorkFits, ReachImage, Open, Need, ImageResult, PaintHere, ComputeLayout, PixPlace, GrayShown, PixelOver;
    DecodesMeans(c, st.lay, s, 1, src, BGRA_PREMUL);
    var o, p := Open(c, src), PaintHere(c, st.lay, src, BGRA_PREMUL);
    if AllSettled(p, o.height * o.width) {
      GraySettledIndependent(c, st, s, src, before);
    } else {
      var k :| 0 <= k < o.height * o.width && !Settled(p, k);
      var f: seq<byte>, f': seq<byte> :| |f| == 4 && |f'| == 4 && PixelOver(p, k, f) != PixelOver(p, k, f');
      GrayDiffers(c, st, s, src, before, k, f, f');
    }
  }

  lemma {:induction false} GrayDiffers(c: Codec, st: State, s: Shape, src: seq<byte>, before: seq<byte>, k: nat,
                                       f: seq<byte>, f': seq<byte>)
    requires Sound(st) && Addressable(s) && |before| == s.pixLen
    requires Decodes(c, st.lay, s, 1, src, BGRA_PREMUL)
    requires Open(c, src).Opened? && k < Open(c, src).height * Open(c, src).width
    requires |f| == 4 && |f'| == 4
    requires PixelOver(PaintHere(c, st.lay, src, BGRA_PREMUL), k, f)
             != PixelOver(PaintHere(c, st.lay, src, BGRA_PREMUL), k, f')
    ensures !GrayIndependent(c, st, src, before, s.stride)
  {
    hide WorkFits, ReachImage, Open, Need, ImageResult, PaintHere, ComputeLayout, PixPlace, GrayShown, PixelOver, Write;
    var at := st.lay.dstOff + 4 * k;
    var zeros := Zeros(st.memSize);
    var mz, az := GrayDecodeOver(c, st, s, src, before, zeros, k);
    var m0, m0' := Write(zeros, at, f), Write(zeros, at, f');
    ReadBack(zeros, at, f);
    ReadBack(zeros, at, f');
    var m, after := GrayDecodeOver(c, st, s, src, before, m0, k);
    var m', after' := GrayDecodeOver(c, st, s, src, before, m0', k);
    assert after != after';
  }

  /** A codec that paints whole pixels: gray is independent of earlier memory
      exactly when it paints every pixel. */
  lemma {:induction false} WholePixelsSettled(p: Paint, n: nat)
    requires forall k :: 0 <= k < n ==> PixelPainted(p, k) || PixelBare(p, k)
    ensures AllSettled(p, n) <==> PaintsAll(p, 4 * n)
  {
    hide Settled;
    forall k | 0 <= k < n ensures Settled(p, k) <==> PixelPainted(p, k) {
      SettledCases(p, k);
    }
    if AllSettled(p, n) {
      forall i | 0 <= i < 4 * n ensures p.at(i).Some? {
        assert Settled(p, i / 4);
        assert i == 4 * (i / 4) + i % 4;
      }
    }
  }

  // ---- the file's own bytes as pixels ----

  /** A new NRGBA image shows source bytes wherever the codec paints nothing and
      the destination slot now covers the place the probe copied the source to. */
  lemma {:induction false} ProbedSourceShows(c: Codec, st: State, src: seq<byte>, p: Prep, m: seq<byte>, pix: seq<byte>,
                                             i: nat, k: nat)
    requires Sound(st) && PrepResult(c, st, src, 4) == Success(p)
    requires WorkFits(c, src, p.st.lay.srcOff) && ReachImage(c, src, p.st.lay.dstLen, RGBA_NONPREMUL).Ready?
    requires NewNRGBAShown(c, st, p.st.lay, src, m, pix) && |pix| == Need(p.width, p.height)
    requires i < |src| && k < |pix|
    requires AfterReserve(st, 0, |src|).lay.srcOff + i == p.st.lay.dstOff + k
    requires PaintHere(c, p.st.lay, src, RGBA_NONPREMUL).at(k).None?
    ensures pix[k] == src[i]
  {
    hide WorkFits, ReachImage, Open, ImageScratch, Copied, PaintHere, Sound, PrepResult, AfterReserve, Need, RowsFit;
    PrepGuarantees(c, st, src, 4);
    var o := Open(c, src);
    var m0 :| LeftBehind(m0, st, src) && NRGBAShown(c, p.st.lay, src, m0, m, Zeros(|pix|), pix, o.width * 4);
    var scratch :| ImageScratch(c, p.st.lay, src, RGBA_NONPREMUL, m0, m, scratch)
                   && Copied(Zeros(|pix|), pix, o.width * 4, scratch, o.width * 4, 0, o.height, 0, o.width * 4);
    ScratchOver(c, p.st.lay, src, RGBA_NONPREMUL, m0, m, scratch);
    CanvasSize(o.width, o.height);
    TightRowsFit(o.width * 4, o.height);
    CopiedShows(Zeros(|pix|), pix, o.width * 4, scratch, o.width * 4, o.height, k);
    TightPlace(k, o.width * 4);
    var off := AfterReserve(st, 0, |src|).lay.srcOff;
    assert m0[off..off + |src|][i] == m0[off + i];
  }

  lemma TightPlace(k: nat, rowBytes: int)
    requires rowBytes > 0
    ensures PixPlace(k, rowBytes, rowBytes) == k
  {}

  /** The exported DecodeNRGBA, on any 512 x 512 source of at most 64 KiB: the
      probe put the file at 0x3FD_0000 and the canvas starts at 0x3F0_0000, so
      canvas byte 0xD_0000 + i shows file byte i unless the codec paints it. */
  lemma {:induction false} FreshDecodeShowsSource(c: Codec, src: seq<byte>, p: Prep, m: seq<byte>, pix: seq<byte>,
                                                  i: nat)
    requires |src| <= DEFAULT_SRC && PrepResult(c, FreshState(), src, 4) == Success(p)
    requires p.width == 512 && p.height == 512
    requires WorkFits(c, src, p.st.lay.srcOff) && ReachImage(c, src, p.st.lay.dstLen, RGBA_NONPREMUL).Ready?
    requires NewNRGBAShown(c, FreshState(), p.st.lay, src, m, pix) && |pix| == Need(512, 512)
    requires i < |src| && PaintHere(c, p.st.lay, src, RGBA_NONPREMUL).at(0xD_0000 + i).None?
    ensures pix[0xD_0000 + i] == src[i]
  {
    hide WorkFits, ReachImage, Open, PaintHere, PrepResult, NewNRGBAShown, ComputeLayout;
    FreshSound();
    PreparedOffsets(c, src, p);
    ProbedSourceShows(c, FreshState(), src, p, m, pix, i, 0xD_0000 + i);
  }

  lemma PreparedOffsets(c: Codec, src: seq<byte>, p: Prep)
    requires |src| <= DEFAULT_SRC && PrepResult(c, FreshState(), src, 4) == Success(p)
    requires p.width == 512 && p.height == 512
    ensures AfterReserve(FreshState(), 0, |src|).lay.srcOff == 0x3FD_0000
    ensures p.st.lay.dstOff == 0x3F0_0000
  {
    hide Open, ComputeLayout, AllocatingGeometry, ProbeResult, Sound, Required;
    FreshSound();
    PrepGuarantees(c, FreshState(), src, 4);
    FreshSizes();
    var st := AfterReserve(FreshState(), 0, |src|);
    ReserveWithin(FreshState(), 0, |src|);
    ReserveWithin(st, Need(512, 512), |src|);
    Offsets(st);
    Offsets(p.st);
  }

  lemma Offsets(st: State)
    requires Sound(st) && st.memSize == INITIAL_BYTES && st.lay.srcLen == DEFAULT_SRC
    ensures st.lay.dstLen == INITIAL_DST ==> st.lay.srcOff == 0x3FD_0000
    ensures st.lay.dstLen == 0x10_0000 ==> st.lay.dstOff == 0x3F0_0000
  {
    hide ComputeLayout;
    SoundSeparated(st);
  }

  /** A codec that decodes every source as 512 x 512 without a frame and writes
      nothing: decode_image tolerates that. */
  const BLANK := Codec(
    _ => 0, _ => true, (_, _) => Some(Config(512, 512)), (_, _) => 0, (_, _) => 0, (_, _) => 0, (_, _) => true,
    (_, _) => FrameStream([], true), (_, _, _, _) => Paint(true, _ => None), (_, _) => MetaStream([], true))

  const TINY_BMP: seq<byte> := [0x42, 0x4D]

  /** Such a call exists: whatever the new decoder's memory holds, DecodeNRGBA on
      this source returns an image, and row 0x1A0 of it starts with the two bytes
      of the file. */
  method StaleInstance(image: seq<byte>) returns (r: Result<(Raster, Meta), HelperError>)
    requires |image| == INITIAL_BYTES
    ensures r.Success? && r.value.0.pix.Length == Need(512, 512)
    ensures r.value.0.pix[..][0xD_0000..0xD_0002] == TINY_BMP
  {
    hide NewNRGBAShown, ComputeLayout, WorkFits, ReachImage, Open, PrepResult, Sound, PaintOf;
    FreshSound();
    BlankPrepares();
    BlankOpens();
    PrepGuarantees(BLANK, FreshState(), TINY_BMP, 4);
    ghost var p := PrepResult(BLANK, FreshState(), TINY_BMP, 4).value;
    BlankReaches(p.st);
    r := Convenience.DecodeNRGBA(BLANK, image, TINY_BMP);
    assert r.value.0.GetShape().pixLen == Need(512, 512);
    ghost var m :| NewNRGBAShown(BLANK, FreshState(), p.st.lay, TINY_BMP, m, r.value.0.pix[..]);
    FileShown(p, m, r.value.0.pix[..]);
  }

  lemma {:induction false} FileShown(p: Prep, m: seq<byte>, pix: seq<byte>)
    requires PrepResult(BLANK, FreshState(), TINY_BMP, 4) == Success(p)
    requires NewNRGBAShown(BLANK, FreshState(), p.st.lay, TINY_BMP, m, pix) && |pix| == Need(512, 512)
    ensures pix[0xD_0000..0xD_0002] == TINY_BMP
  {
    hide NewNRGBAShown, ComputeLayout, WorkFits, ReachImage, Open, PrepResult, Sound, PaintHere, PaintOf;
    FreshSound();
    BlankOpens();
    PrepGuarantees(BLANK, FreshState(), TINY_BMP, 4);
    BlankReaches(p.st);
    FreshDecodeShowsSource(BLANK, TINY_BMP, p, m, pix, 0);
    FreshDecodeShowsSource(BLANK, TINY_BMP, p, m, pix, 1);
  }

  lemma BlankOpens()
    ensures Open(BLANK, TINY_BMP) == Opened(Formats.Code(Formats.BMP), 512, 512)
  {}

  lemma BlankReaches(st: State)
    requires Sound(st) && st.lay.dstLen >= Need(512, 512)
    ensures WorkFits(BLANK, TINY_BMP, st.lay.srcOff)
    ensures ReachImage(BLANK, TINY_BMP, st.lay.dstLen, RGBA_NONPREMUL) == Ready(0)
    ensures PaintOf(BLANK, TINY_BMP, 0, RGBA_NONPREMUL).ok
    ensures forall k :: PaintHere(BLANK, st.lay, TINY_BMP, RGBA_NONPREMUL).at(k).None?
  {
    hide ComputeLayout, Open;
    BlankOpens();
    SoundSeparated(st);
  }

  lemma {:induction false} BlankPrepares()
    ensures PrepResult(BLANK, FreshState(), TINY_BMP, 4).Success?
  {
    hide ComputeLayout, AllocatingGeometry, Open;
    FreshSound();
    FreshSizes();
    BlankOpens();
    GeometryExact(512, 512, 4);
    ReserveWithin(FreshState(), 0, 2);
  }
}
