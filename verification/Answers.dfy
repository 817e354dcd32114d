/** What each call answers, written out in the codec's own answers, the slot
    sizes and plain numbers: the reference that ties HostSpec and GuestSpec, which
    the methods are proved against, to the inputs alone. */
module Answers {
  import opened Bytes
  import opened Codec
  import opened Layout
  import opened Pixels
  import opened Structs
  import opened GuestSpec
  import opened HostSpec
  import opened Decoder
  import Convenience
  import Formats
  import Stale

  /** The codec of format f opens the source as w by h. */
  predicate Opens(c: Codec, src: seq<byte>, f: u32, w: Dim, h: Dim) {
    && f == Formats.Sniff(src) && f != 0
    && c.objSize(f) <= 4_194_304 && c.initOk(f) && c.config(f, src) == Some(Config(w, h))
  }

  lemma OpenIs(c: Codec, src: seq<byte>, f: u32, w: Dim, h: Dim)
    requires Opens(c, src, f, w, h)
    ensures Open(c, src) == Opened(f, w, h)
  {}

  // ---- Probe, FrameCount, LoopCount ----

  /** Probe reports the codec's own dimensions, a row of four bytes a pixel, and
      the format; or the error of the first step that fails. */
  lemma ProbeAnswers(c: Codec, lay: SlotLayout, src: seq<byte>)
    ensures var f := Formats.Sniff(src);
            ProbeResult(c, lay, src) ==
            if |src| > lay.srcLen then Failure(ErrSrcTooLarge)
            else if |src| == 0 then Failure(ErrDecode)
            else if f == 0 then Failure(ErrUnknownFormat)
            else if c.objSize(f) > 4_194_304 || !c.initOk(f) || c.config(f, src) == None then Failure(ErrDecode)
            else
              var cfg := c.config(f, src).value;
              Success(Meta(0, cfg.width, cfg.height, cfg.width * 4, 0, f))
  {
    hide Formats.Sniff;
  }

  /** FrameCount fails where Probe does, and otherwise answers the number of
      configs of a stream that has some and ends cleanly. */
  lemma FrameCountAnswers(c: Codec, lay: SlotLayout, src: seq<byte>)
    ensures ProbeResult(c, lay, src).Failure? ==>
              FrameCountResult(c, lay, src) == Failure(ProbeResult(c, lay, src).error)
    ensures ProbeResult(c, lay, src).Success? ==>
              var stream := c.frames(Formats.Sniff(src), src);
              FrameCountResult(c, lay, src) ==
              if stream.endsCleanly && |stream.configs| > 0 then Success(|stream.configs|) else Failure(ErrDecode)
  {
    hide Formats.Sniff;
  }

  /** LoopCount fails where Probe does, and otherwise answers the codec's loops. */
  lemma LoopCountAnswers(c: Codec, lay: SlotLayout, src: seq<byte>)
    ensures ProbeResult(c, lay, src).Failure? ==>
              LoopCountResult(c, lay, src) == Failure(ProbeResult(c, lay, src).error)
    ensures ProbeResult(c, lay, src).Success? ==>
              LoopCountResult(c, lay, src) == Success(c.loops(Formats.Sniff(src), src))
  {
    hide Formats.Sniff;
  }

  // ---- the destination check ----

  predicate IsTooSmall(e: Error, minBytes: int, width: int, height: int, stride: int) {
    e.DstTooSmall? && e.minBytes == minBytes && e.width == width && e.height == height && e.stride == stride
  }

  /** validateDestination on an addressable image: which images it accepts, and
      the exact sizes its two too-small errors report. */
  lemma DestinationAnswers(s: Shape, w: Dim, h: Dim, bpp: nat)
    requires Addressable(s) && (bpp == 1 || bpp == 4)
    ensures var e := ValidateDestination(s, w, h, bpp);
            var fits := s.rect == Rect(0, 0, w, h) && w > 0 && h > 0 && s.pixLen > 0 && w * bpp * h <= 0xFFFF_FFFF;
            && (!fits ==> e == Some(ErrBadImage))
            && (fits && s.stride < w * bpp ==> e.Some? && IsTooSmall(e.value, w * bpp * h, w, h, w * bpp))
            && (fits && s.stride >= w * bpp ==>
                  if s.stride * h > 0xFFFF_FFFF then e == Some(ErrBadImage)
                  else if s.pixLen < s.stride * h then e.Some? && IsTooSmall(e.value, s.stride * h, w, h, s.stride)
                  else e == None)
  {
    var row := w * bpp;
    ProductBound(row, h, 0x3FF_FFFC, 0xFF_FFFF);
    if s.stride >= row {
      MulMono(0, s.stride, h);
      if h >= 1 {
        MulMono(1, h, s.stride);
      }
    }
    DestinationChecked(s, w, h, bpp, row, row * h, s.stride * h);
  }

  /** The same with the three products named, none of which wraps. */
  lemma DestinationChecked(s: Shape, w: Dim, h: Dim, bpp: nat, row: int, tight: int, total: int)
    requires GoShape(s) && row == w * bpp && tight == row * h && total == s.stride * h
    requires 0 <= row <= 0x3FF_FFFC && 0 <= tight < TWO_64
    requires s.rect.Dy() == h ==> total < TWO_64
    requires s.stride >= row && h >= 1 ==> s.stride <= total
    ensures var e := ValidateDestination(s, w, h, bpp);
            var fits := s.rect == Rect(0, 0, w, h) && w > 0 && h > 0 && s.pixLen > 0 && tight <= 0xFFFF_FFFF;
            && (!fits ==> e == Some(ErrBadImage))
            && (fits && s.stride < row ==> e.Some? && IsTooSmall(e.value, tight, w, h, row))
            && (fits && s.stride >= row ==>
                  if total > 0xFFFF_FFFF then e == Some(ErrBadImage)
                  else if s.pixLen < total then e.Some? && IsTooSmall(e.value, total, w, h, s.stride)
                  else e == None)
  {
    hide Wrap64, Wrap32;
  }

  // ---- the decodes ----

  /** Where a decode of an opened source stands when it reaches the pixels: the
      canvas fits, the work buffer range is in order, the destination binds. */
  predicate Prepared(c: Codec, src: seq<byte>, f: u32, w: Dim, h: Dim, dstLen: nat) {
    && 0 < 4 * (w * h) <= dstLen
    && c.workMin(f, src) <= c.workMax(f, src) && c.bindOk(f, src)
  }

  /** The guest's half of a decode fails with this error when it does not reach the pixels. */
  function Unprepared(w: Dim, h: Dim, dstLen: nat): Error {
    if 0 < 4 * (w * h) <= dstLen then ErrDecode else DstTooSmall(4 * (w * h) % 0x1_0000_0000, w, h, w * 4)
  }

  lemma NeedIs(w: Dim, h: Dim)
    ensures Need(w, h) == 4 * (w * h) == w * 4 * h
  {}

  /** A source that does not open fails every decode as it fails Probe. */
  lemma UnopenedAnswers(c: Codec, lay: SlotLayout, s: Shape, bpp: int, src: seq<byte>, index: int, fmt: int, painted: bool)
    requires ProbeResult(c, lay, src).Failure?
    ensures 0 <= index <= 0x7FFF_FFFF ==>
              FrameResult(c, lay, s, src, index, painted) == Failure(ProbeResult(c, lay, src).error)
    ensures KnownPixfmt(fmt) ==>
              ImageResult(c, lay, s, bpp, src, fmt, painted) == Failure(ProbeResult(c, lay, src).error)
  {
    hide Formats.Sniff, ValidateDestination;
  }

  /** DecodeFrame of an opened source, given whether the codec paints: the first
      failing check decides the error, and a success is the indexed config's frame. */
  lemma DecodeFrameAnswers(c: Codec, lay: SlotLayout, s: Shape, src: seq<byte>, index: int, painted: bool,
                     f: u32, w: Dim, h: Dim)
    requires 0 < |src| <= lay.srcLen && Opens(c, src, f, w, h)
    ensures var configs := c.frames(f, src).configs;
            FrameResult(c, lay, s, src, index, painted) ==
            if index < 0 || index > 0x7FFF_FFFF then Failure(ErrDecode)
            else if !Prepared(c, src, f, w, h, lay.dstLen) then Failure(Unprepared(w, h, lay.dstLen))
            else if index >= |configs| || !painted then Failure(ErrDecode)
            else if ValidateDestination(s, w, h, 4).Some? then Failure(ValidateDestination(s, w, h, 4).value)
            else
              var frame := FrameOf(index, configs[index]);
              if 0 <= frame.bounds.minX < frame.bounds.maxX <= w && 0 <= frame.bounds.minY < frame.bounds.maxY <= h
              then Success(frame) else Failure(ErrDecode)
  {
    hide Formats.Sniff, ValidateDestination, FrameOf, Need, Open;
    OpenIs(c, src, f, w, h);
    NeedIs(w, h);
  }

  /** Every successful DecodeFrame reports the indexed config, field by field. */
  lemma FrameReported(c: Codec, lay: SlotLayout, s: Shape, src: seq<byte>, index: int, f: Frame)
    requires FrameAnswer(c, lay, s, src, index, Success(f))
    ensures 0 <= index < |c.frames(Formats.Sniff(src), src).configs|
    ensures var fc := c.frames(Formats.Sniff(src), src).configs[index];
            && f.index == index
            && (fc.minX <= fc.maxX < 0x8000_0000 && fc.minY <= fc.maxY < 0x8000_0000 ==>
                  f.bounds == Rect(fc.minX, fc.minY, fc.maxX, fc.maxY))
            && f.flicks == fc.flicks && f.ioPosition == fc.ioPosition && f.disposal == fc.disposal
            && f.opaqueWithin == fc.opaqueWithin && f.overwrite == fc.overwrite
            && f.background == Color(fc.bgR, fc.bgG, fc.bgB, fc.bgA)
  {
    hide Formats.Sniff, FrameAnswer, FrameOf;
    FrameOfAnswer(c, lay, s, src, index, f);
    FrameFields(index, Frames(c, src).configs[index]);
  }

  /** DecodeNRGBA (four bytes a pixel) and the guest half of DecodeGray (one). */
  lemma DecodeImageAnswers(c: Codec, lay: SlotLayout, s: Shape, bpp: int, src: seq<byte>, fmt: int, painted: bool,
                     f: u32, w: Dim, h: Dim)
    requires 0 < |src| <= lay.srcLen <= 0xFFFF_FFFF && lay.dstLen <= 0xFFFF_FFFF
    requires Opens(c, src, f, w, h) && 1 <= fmt <= 3
    ensures var stream := c.frames(f, src);
            ImageResult(c, lay, s, bpp, src, fmt, painted) ==
            if !Prepared(c, src, f, w, h, lay.dstLen) then Failure(Unprepared(w, h, lay.dstLen))
            else if (|stream.configs| == 0 && !stream.endsCleanly) || !painted then Failure(ErrDecode)
            else if ValidateDestination(s, w, h, bpp).Some? then Failure(ValidateDestination(s, w, h, bpp).value)
            else Success(Meta(0, w, h, w * 4, 4 * (w * h), f))
  {
    hide Formats.Sniff, ValidateDestination, Need, Open;
    OpenIs(c, src, f, w, h);
    NeedIs(w, h);
  }

  /** A decode_image paints frame 0, or, on a clean stream without a frame, with no
      config consumed; never a later frame. */
  lemma ImageConsumes(c: Codec, src: seq<byte>, dstCap: nat, fmt: int)
    requires ReachImage(c, src, dstCap, fmt).Ready?
    ensures ReachImage(c, src, dstCap, fmt).consumed == if |c.frames(Formats.Sniff(src), src).configs| > 0 then 1 else 0
  {
    hide Formats.Sniff;
  }

  // ---- the pixels, in canvas coordinates ----

  /** The canvas byte that channel k of pixel (x, y) is. */
  function At(x: nat, y: nat, w: nat, k: nat): nat {
    4 * (y * w + x) + k
  }

  lemma AtInside(x: nat, y: nat, w: nat, h: nat, k: nat)
    requires x < w && y < h && k < 4
    ensures At(x, y, w, k) < 4 * (w * h)
    ensures At(x, y, w, k) == RowStart(y, w * 4) + (4 * x + k)
  {
    MulMono(y + 1, h, w);
    assert y * (w * 4) == 4 * (y * w);
  }

  /** Byte 4x + k of row y of an image lies in row y, column 4x + k. */
  lemma PlaceXY(n: int, stride: int, rowBytes: int, h: nat, y: nat, col: nat)
    requires RowsFit(n, stride, rowBytes, h) && y < h && col < rowBytes
    ensures var i := y * stride + col;
            0 <= i < n && i / stride == y && i % stride == col
  {
    assert 0 <= RowStart(y, stride) && RowStart(y, stride) + rowBytes <= n;
    RowColumn(y * stride + col, stride, y, col);
  }

  /** A successful DecodeFrame, pixel by pixel: inside the frame's bounds a channel
      is what the codec painted for that frame at that canvas pixel, zero where it
      painted nothing; outside it is as before. */
  lemma {:induction false} FramePixels(c: Codec, lay: SlotLayout, s: Shape, src: seq<byte>, index: nat, mem: seq<byte>,
                                       before: seq<byte>, after: seq<byte>, f: Frame, w: Dim, h: Dim,
                                       x: nat, y: nat, k: nat)
    requires Addressable(s) && |before| == s.pixLen && WorkFits(c, src, lay.srcOff)
    requires FrameAnswer(c, lay, s, src, index, Success(f))
    requires FrameShown(c, lay, src, index, mem, before, after, s.stride, f)
    requires Opens(c, src, Formats.Sniff(src), w, h) && x < w && y < h && k < 4
    ensures var i := y * s.stride + 4 * x + k;
            && 0 <= i < |after| == |before|
            && after[i] ==
               if f.bounds.minX <= x < f.bounds.maxX && f.bounds.minY <= y < f.bounds.maxY
               then match c.paint(Formats.Sniff(src), src, index + 1, 1).at(At(x, y, w, k))
                    case Some(b) => b
                    case None => 0
               else before[i]
  {
    hide Formats.Sniff, FrameAnswer, RowsFit, Canvas, WorkFits, Need, FrameOf;
    OpenIs(c, src, Formats.Sniff(src), w, h);
    FrameOfAnswer(c, lay, s, src, index, f);
    FrameAccepted(c, lay, s, src, index, f);
    AcceptedRows(s, w, h, 4);
    NeedIs(w, h);
    var scratch :| ScratchIs(c, lay, src, mem, scratch)
                   && Copied(before, after, s.stride, scratch, w * 4, f.bounds.minY, f.bounds.maxY,
                             f.bounds.minX * 4, f.bounds.maxX * 4)
                   && scratch == Canvas(PaintOf(c, src, index + 1, RGBA_PREMUL), Zeros(|scratch|));
    PlaceXY(|after|, s.stride, w * 4, h, y, 4 * x + k);
    AtInside(x, y, w, h, k);
  }

  /** The host accepted the destination of a successful DecodeFrame. */
  lemma FrameAccepted(c: Codec, lay: SlotLayout, s: Shape, src: seq<byte>, index: int, f: Frame)
    requires FrameAnswer(c, lay, s, src, index, Success(f))
    ensures Open(c, src).Opened? && ValidateDestination(s, Open(c, src).width, Open(c, src).height, 4) == None
    ensures RoomFor(Open(c, src), lay.dstLen)
  {
    hide ValidateDestination, FrameOf, BoundsInCanvas, WorkFits, Formats.Sniff;
  }

  lemma ImageAccepted(c: Codec, lay: SlotLayout, s: Shape, bpp: int, src: seq<byte>, fmt: int, m: Meta)
    requires ImageAnswer(c, lay, s, bpp, src, fmt, Success(m))
    ensures Open(c, src).Opened? && ValidateDestination(s, Open(c, src).width, Open(c, src).height, bpp) == None
    ensures RoomFor(Open(c, src), lay.dstLen) && ReachImage(c, src, lay.dstLen, fmt).Ready?
  {
    hide ValidateDestination, WorkFits, Formats.Sniff;
  }

  /** Bytes of an image that belong to no canvas pixel are as before. */
  lemma {:induction false} PaddingStays(c: Codec, lay: SlotLayout, src: seq<byte>, index: nat, m0: seq<byte>, m: seq<byte>,
                                        before: seq<byte>, after: seq<byte>, stride: int, f: Frame, w: Dim, h: Dim, i: nat)
    requires Open(c, src) == Opened(Formats.Sniff(src), w, h) && BoundsInCanvas(f, w, h)
    requires stride > 0 && i < |before| && (i % stride >= 4 * w || i / stride >= h)
    ensures FrameShown(c, lay, src, index, m, before, after, stride, f) ==> |after| == |before| && after[i] == before[i]
    ensures NRGBAShown(c, lay, src, m0, m, before, after, stride) ==> |after| == |before| && after[i] == before[i]
  {
    hide Formats.Sniff, ScratchIs, ImageScratch, WorkFits, Canvas, SourceIndex;
  }

  lemma {:induction false} GrayPaddingStays(c: Codec, lay: SlotLayout, src: seq<byte>, m0: seq<byte>, m: seq<byte>,
                                            before: seq<byte>, after: seq<byte>, stride: int, w: Dim, h: Dim, i: nat)
    requires Open(c, src) == Opened(Formats.Sniff(src), w, h)
    requires stride > 0 && i < |before| && (i % stride >= w || i / stride >= h)
    ensures GrayShown(c, lay, src, m0, m, before, after, stride) ==> |after| == |before| && after[i] == before[i]
  {
    hide Formats.Sniff, ImageScratch, GrayAt, PixelStart;
  }

  /** The number of configs a decode_image has consumed when it paints. */
  function Consumed(c: Codec, src: seq<byte>): nat {
    if |c.frames(Formats.Sniff(src), src).configs| > 0 then 1 else 0
  }

  /** The canvas byte after a decode over memory m0: painted, or as the slot held it. */
  function Byte(p: Paint, i: nat, m0: seq<byte>, off: nat): byte
    requires off + i < |m0|
  {
    match p.at(i)
    case Some(b) => b
    case None => m0[off + i]
  }

  /** A successful DecodeNRGBA, pixel by pixel: every channel is what the codec
      painted there for frame 0, or what the destination slot held before. */
  lemma {:induction false} NRGBAPixels(c: Codec, lay: SlotLayout, s: Shape, src: seq<byte>, m0: seq<byte>, m: seq<byte>,
                                       before: seq<byte>, after: seq<byte>, meta: Meta, w: Dim, h: Dim,
                                       x: nat, y: nat, k: nat)
    requires Addressable(s) && |before| == s.pixLen && WorkFits(c, src, lay.srcOff)
    requires ImageAnswer(c, lay, s, 4, src, RGBA_NONPREMUL, Success(meta))
    requires NRGBAShown(c, lay, src, m0, m, before, after, s.stride)
    requires Opens(c, src, Formats.Sniff(src), w, h) && x < w && y < h && k < 4
    ensures var i, at := y * s.stride + 4 * x + k, At(x, y, w, k);
            && 0 <= i < |after| == |before| && lay.dstOff + at < |m0|
            && after[i] == Byte(c.paint(Formats.Sniff(src), src, Consumed(c, src), 2), at, m0, lay.dstOff)
  {
    hide Formats.Sniff, ImageAnswer, RowsFit, Canvas, WorkFits, Need, ReachImage;
    OpenIs(c, src, Formats.Sniff(src), w, h);
    ImageAccepted(c, lay, s, 4, src, RGBA_NONPREMUL, meta);
    ImageConsumes(c, src, lay.dstLen, RGBA_NONPREMUL);
    AcceptedRows(s, w, h, 4);
    NeedIs(w, h);
    var scratch :| ImageScratch(c, lay, src, RGBA_NONPREMUL, m0, m, scratch)
                   && Copied(before, after, s.stride, scratch, w * 4, 0, h, 0, w * 4);
    Stale.ScratchOver(c, lay, src, RGBA_NONPREMUL, m0, m, scratch);
    PlaceXY(|after|, s.stride, w * 4, h, y, 4 * x + k);
    AtInside(x, y, w, h, k);
  }

  lemma GrayedXY(before: seq<byte>, after: seq<byte>, stride: int, scratch: seq<byte>, w: nat, h: nat, x: nat, y: nat)
    requires stride > 0 && RowsFit(|after|, stride, w, h) && x < w && y < h
    requires Grayed(before, after, stride, scratch, w, h, 0)
    ensures 0 <= y * stride + x < |after| == |before|
    ensures At(x, y, w, 0) + 4 <= |scratch| && after[y * stride + x] == GrayAt(scratch, At(x, y, w, 0))
  {
    hide RowsFit, GrayAt;
    PlaceXY(|after|, stride, w, h, y, x);
    AtInside(x, y, w, h, 0);
    var i := y * stride + x;
    assert PixelStart(x, y, w) == At(x, y, w, 0);
    hide PixelStart, At;
    assert i / stride == y && i % stride == x && Covers(i, stride, 0, h, 0, w);
  }

  /** A successful DecodeGray, pixel by pixel: the gray of the four bytes painted
      there for frame 0, or held by the slot before, as blue, green, red, alpha. */
  lemma {:induction false} GrayPixels(c: Codec, lay: SlotLayout, s: Shape, src: seq<byte>, m0: seq<byte>, m: seq<byte>,
                                      before: seq<byte>, after: seq<byte>, meta: Meta, w: Dim, h: Dim, x: nat, y: nat)
    requires Addressable(s) && |before| == s.pixLen && WorkFits(c, src, lay.srcOff)
    requires ImageAnswer(c, lay, s, 1, src, BGRA_PREMUL, Success(meta))
    requires GrayShown(c, lay, src, m0, m, before, after, s.stride)
    requires Opens(c, src, Formats.Sniff(src), w, h) && x < w && y < h
    ensures var i, at := y * s.stride + x, At(x, y, w, 0);
            var p := c.paint(Formats.Sniff(src), src, Consumed(c, src), 3);
            && 0 <= i < |after| == |before| && lay.dstOff + at + 3 < |m0|
            && after[i] == Gray(Byte(p, at, m0, lay.dstOff), Byte(p, at + 1, m0, lay.dstOff),
                                Byte(p, at + 2, m0, lay.dstOff), Byte(p, at + 3, m0, lay.dstOff))
  {
    hide Formats.Sniff, ImageAnswer, RowsFit, Canvas, WorkFits, Need, ReachImage, Gray;
    OpenIs(c, src, Formats.Sniff(src), w, h);
    ImageAccepted(c, lay, s, 1, src, BGRA_PREMUL, meta);
    ImageConsumes(c, src, lay.dstLen, BGRA_PREMUL);
    AcceptedRows(s, w, h, 1);
    NeedIs(w, h);
    var scratch :| ImageScratch(c, lay, src, BGRA_PREMUL, m0, m, scratch)
                   && Grayed(before, after, s.stride, scratch, w, h, 0);
    Stale.ScratchOver(c, lay, src, BGRA_PREMUL, m0, m, scratch);
    GrayedXY(before, after, s.stride, scratch, w, h, x, y);
    hide Grayed;
  }

  // ---- the work buffer ----

  /** Where the work buffer ends: behind the decoder object, rounded up to eight, at
      9 MiB; its length is the codec's figure cut to 32 bits, or 64 KiB for none. */
  lemma WorkFitsExactly(c: Codec, src: seq<byte>, srcOff: int)
    ensures var f := Formats.Sniff(src);
            var n := c.workMax(f, src) % 0x1_0000_0000;
            WorkFits(c, src, srcOff) <==>
            || c.objSize(f) > 4_194_304
            || 9_437_184 + RoundUp8(c.objSize(f)) + (if n == 0 then 65_536 else n) <= srcOff
  {
    hide Formats.Sniff;
    if c.objSize(Formats.Sniff(src)) <= 4_194_304 {
      Align8Exact(c.objSize(Formats.Sniff(src)));
    }
  }

  // ---- the allocating helpers ----

  /** A preparation whose source does not fit, or does not open, fails with the
      rejection or with Probe's error. */
  lemma PrepFails(c: Codec, st: State, src: seq<byte>, bpp: int)
    requires Sound(st)
    ensures st.lay.dstLen + Max(st.lay.srcLen, |src|) > 234_880_944 ==>
              Convenience.PrepResult(c, st, src, bpp) == Failure(Convenience.ReserveRejected(Invalid))
    ensures st.lay.dstLen + Max(st.lay.srcLen, |src|) <= 234_880_944 ==>
              var probe := ProbeResult(c, AfterReserve(st, 0, |src|).lay, src);
              probe.Failure? ==> Convenience.PrepResult(c, st, src, bpp) == Failure(Convenience.Failed(probe.error))
  {
    hide Formats.Sniff, AfterReserve, Accepts, ProbeResult, Open, Convenience.AllocatingGeometry, ComputeLayout;
    AcceptsExactly(st, 0, |src|);
  }

  /** A preparation of an opened source: refused when the canvas is empty or does
      not fit 32 bits, rejected when both slots do not fit the page limit, and
      otherwise left in the state of one request for canvas and source. */
  lemma PrepAnswers(c: Codec, st: State, src: seq<byte>, bpp: int, f: u32, w: Dim, h: Dim)
    requires Sound(st) && (bpp == 1 || bpp == 4) && |src| > 0 && Opens(c, src, f, w, h)
    requires st.lay.dstLen + Max(st.lay.srcLen, |src|) <= 234_880_944
    ensures var need := 4 * Times(w, h);
            Convenience.PrepResult(c, st, src, bpp) ==
            if need == 0 || need > 0xFFFF_FFFF then Failure(Convenience.Failed(ErrBadImage))
            else if Max(st.lay.dstLen, need) + Max(st.lay.srcLen, |src|) > 234_880_944 then
              Failure(Convenience.ReserveRejected(Invalid))
            else Success(Convenience.Prep(AfterReserve(st, need, |src|), w, h, need))
  {
    hide Formats.Sniff, Sound, AfterReserve, Accepts, Open, Times, Convenience.AllocatingGeometry;
    AcceptsExactly(st, 0, |src|);
    ReserveKeepsSound(st, 0, |src|);
    var st1 := AfterReserve(st, 0, |src|);
    OpenIs(c, src, f, w, h);
    Convenience.GeometryExact(w, h, bpp);
    AcceptsExactly(st1, Need(w, h), |src|);
    ReserveCompose(st, 0, |src|, Need(w, h), |src|);
  }

  /** The image a helper allocates: zero origin, no padding. */
  lemma TightIs(w: Dim, h: Dim, bpp: nat)
    ensures Convenience.TightShape(w, h, bpp) == Shape(Rect(0, 0, w, h), bpp * (w * h), w * bpp)
  {}

  /** The meta of a successful DecodeGray counts one byte a pixel. */
  lemma GrayMetaIs(o: Opened)
    requires o.Opened?
    ensures GrayMeta(o) == Meta(0, o.width, o.height, o.width * 4, o.width * o.height % 0x1_0000_0000, o.fourcc)
  {}

  /** Success with a meta is passed on with that count, an error unchanged. */
  lemma GrayAnswerIs(r: Result<Meta, Error>)
    ensures r.Failure? ==> GrayAnswer(r) == r
    ensures r.Success? ==>
              var m := r.value;
              GrayAnswer(r) ==
              Success(Meta(m.err, m.width, m.height, m.stride, m.width * m.height % 0x1_0000_0000, m.format))
  {}
}
