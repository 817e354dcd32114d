/** decoder.go and errors.go: what the host-side checks decide, and what each
    Decoder call therefore answers, as functions of the layout and the source. */
module HostSpec {
  import opened Bytes
  import opened Codec
  import opened Layout
  import opened Pixels
  import opened Structs
  import opened GuestSpec
  import opened Pack

  datatype Error =
    | ErrUnknownFormat
    | ErrSrcTooLarge
    | ErrDecode
    | ErrBadImage
    | DstTooSmall(minBytes: u32, width: u32, height: u32, stride: u32)

  /** errFromGuestReturn. */
  function FromGuest(ret: i32): Error {
    if ret == ERR_UNKNOWN then ErrUnknownFormat
    else if ret == ERR_TOO_SMALL then DstTooSmall(0, 0, 0, 0)
    else ErrDecode
  }

  /** The too-small error filled in from the guest's meta, in uint32 arithmetic. */
  function TooSmall(m: Meta): Error {
    DstTooSmall(Wrap32(m.stride * m.height), m.width, m.height, m.stride)
  }

  // ---- the destination check ----

  const MAX_INT := 0x7FFF_FFFF_FFFF_FFFF

  /** A caller's image: its rectangle, the length of its Pix and its stride. */
  datatype Shape = Shape(rect: Rect, pixLen: nat, stride: int)

  /** Values a Go image can hold in 64-bit ints. */
  predicate GoShape(s: Shape) {
    s.pixLen <= MAX_INT && -MAX_INT - 1 <= s.stride <= MAX_INT
  }

  /** validateDestination; None is nil. */
  function ValidateDestination(s: Shape, width: int, height: int, bpp: int): Option<Error> {
    if s.rect.Dx() == 0 || s.rect.Dy() == 0 || s.pixLen == 0 || s.rect.minX != 0 || s.rect.minY != 0 then
      Some(ErrBadImage)
    else if s.rect.Dx() != width || s.rect.Dy() != height then
      Some(ErrBadImage)
    else
      var rowBytes := Wrap64(width * bpp);
      if width <= 0 || height <= 0 || rowBytes > MAX_INT then
        Some(ErrBadImage)
      else
        var tightBytes := Wrap64(rowBytes * height);
        if tightBytes > MAX_U32 then
          Some(ErrBadImage)
        else if s.stride < rowBytes then
          Some(DstTooSmall(Wrap32(tightBytes), Wrap32(width), Wrap32(height), Wrap32(rowBytes)))
        else
          var totalBytes := Wrap64(s.stride * height);
          if totalBytes > MAX_U32 then Some(ErrBadImage)
          else if s.pixLen < totalBytes then
            Some(DstTooSmall(Wrap32(totalBytes), Wrap32(width), Wrap32(height), Wrap32(s.stride)))
          else None
  }

  /** A Go image whose stride times height is a representable byte count; on
      others validateDestination is no bounds check. */
  predicate Addressable(s: Shape) {
    GoShape(s) && s.stride * s.rect.Dy() < TWO_64
  }

  lemma Wrap64Exact(x: int)
    requires 0 <= x < TWO_64
    ensures Wrap64(x) == x
  {}

  lemma ProductBound(a: int, b: int, ma: int, mb: int)
    requires 0 <= a <= ma && 0 <= b <= mb
    ensures 0 <= a * b <= ma * mb
  {
    MulMono(a, ma, b);
    MulMono(b, mb, ma);
  }

  /** An accepted image has the decoded size. */
  lemma AcceptedSize(s: Shape, width: Dim, height: Dim, bpp: int)
    requires ValidateDestination(s, width, height, bpp) == None
    ensures s.rect.Dx() == width && s.rect.Dy() == height && width >= 1 && height >= 1
  {
    hide Wrap32;
  }

  /** validateDestination accepts an image whose rows do not all fit exactly when
      stride times height overflows uint64: the 64-bit product it tests wraps. */
  lemma AcceptedRowsFitIff(s: Shape, width: Dim, height: Dim, bpp: int)
    requires GoShape(s) && (bpp == 1 || bpp == 4)
    requires ValidateDestination(s, width, height, bpp) == None
    ensures RowsFit(s.pixLen, s.stride, width * bpp, height) <==> s.stride * height < TWO_64
  {
    Wrap64Exact(width * bpp);
    assert width >= 1 && height >= 1 && s.stride >= width * bpp >= 0;
    if s.stride * height < TWO_64 {
      FittingRows(s, width, height, bpp);
    } else {
      OverflowingRows(s, width, height, bpp);
    }
  }

  lemma FittingRows(s: Shape, width: Dim, height: Dim, bpp: int)
    requires width >= 1 && height >= 1 && (bpp == 1 || bpp == 4) && s.stride >= width * bpp
    requires Wrap64(s.stride * height) <= s.pixLen && s.stride * height < TWO_64
    ensures RowsFit(s.pixLen, s.stride, width * bpp, height)
  {
    MulMono(0, s.stride, height);
    Wrap64Exact(s.stride * height);
    assert (height - 1) * s.stride + s.stride == s.stride * height;
    LastRowFits(s.pixLen, s.stride, width * bpp, height);
  }

  lemma OverflowingRows(s: Shape, width: Dim, height: Dim, bpp: int)
    requires GoShape(s) && width >= 1 && height >= 1 && (bpp == 1 || bpp == 4)
    requires s.stride * height >= TWO_64
    ensures !RowsFit(s.pixLen, s.stride, width * bpp, height)
  {
    var last := RowStart(height - 1, s.stride);
    assert last == s.stride * height - s.stride;
    assert last > s.pixLen;
  }

  lemma WrappedTotalAccepted(s: Shape, width: Dim, height: Dim, total: int)
    requires width >= 1 && height >= 1 && Need(width, height) <= MAX_U32
    requires s.rect == Full(width, height) && s.pixLen > 0 && s.stride >= width * 4
    requires total == s.stride * height && Wrap64(total) == 0
    ensures ValidateDestination(s, width, height, 4) == None
  {
    hide RowsFit, Wrap64, Wrap32;
    Wrap64Exact(width * 4);
    assert width * 4 * height == Need(width, height);
    ProductBound(1, 1, width, height);
    Wrap64Exact(width * 4 * height);
  }

  /** A one-pixel-wide, four-row image with stride 2^62 and four bytes of Pix is
      accepted, although its second row starts far outside Pix. */
  lemma OverflowIsAccepted(s: Shape, width: Dim, height: Dim)
    requires width == 1 && height == 4
    requires s.rect == Full(width, height) && s.pixLen == 4 && s.stride == 0x4000_0000_0000_0000
    ensures ValidateDestination(s, width, height, 4) == None
    ensures !RowsFit(s.pixLen, s.stride, width * 4, height)
  {
    hide RowsFit, Wrap64, ValidateDestination;
    WrapsToZero();
    WrappedTotalAccepted(s, width, height, TWO_64);
    OverflowingRows(s, width, height, 4);
  }

  lemma WrapsToZero()
    ensures Wrap64(TWO_64) == 0
  {}

  /** A freshly allocated tight image of the decoded size is always accepted. */
  lemma TightAccepted(width: Dim, height: Dim, bpp: int)
    requires width >= 1 && height >= 1 && (bpp == 1 || bpp == 4)
    requires Need(width, height) <= MAX_U32
    ensures bpp * Times(width, height) >= 1
    ensures ValidateDestination(Shape(Full(width, height), bpp * Times(width, height), width * bpp), width, height, bpp)
            == None
  {
    ProductBound(1, 1, width, height);
    assert width * bpp * height == bpp * Times(width, height);
    Wrap64Exact(width * bpp);
    Wrap64Exact(width * bpp * height);
  }

  // ---- results of the calls ----

  function ProbeResult(c: Codec, lay: SlotLayout, src: seq<byte>): Result<Meta, Error> {
    if |src| > lay.srcLen then Failure(ErrSrcTooLarge)
    else if |src| == 0 then Failure(ErrDecode)
    else
      match Open(c, src)
      case Refused(ret) => Failure(FromGuest(ret))
      case Opened(f, w, h) => Success(ProbeMeta(Open(c, src)))
  }

  function FrameCountResult(c: Codec, lay: SlotLayout, src: seq<byte>): Result<nat, Error> {
    if |src| > lay.srcLen then Failure(ErrSrcTooLarge)
    else
      match CountFrames(c, src)
      case Failure(ret) => Failure(FromGuest(ret))
      case Success(n) => if n == 0 then Failure(ErrDecode) else Success(n)
  }

  function LoopCountResult(c: Codec, lay: SlotLayout, src: seq<byte>): Result<u32, Error> {
    if |src| > lay.srcLen then Failure(ErrSrcTooLarge)
    else
      match CountLoops(c, src)
      case Failure(ret) => Failure(FromGuest(ret))
      case Success(n) => Success(n)
  }

  const METADATA_DST_MIN := 64 * 1024

  function MetadataResult(c: Codec, lay: SlotLayout, src: seq<byte>): Result<Metadata, Error> {
    if |src| > lay.srcLen then Failure(ErrSrcTooLarge)
    else if lay.dstLen < METADATA_DST_MIN then Failure(ErrDecode)
    else
      match ReadMetadata(c, src, lay.dstLen)
      case Failure(ret) => Failure(FromGuest(ret))
      case Success(p) => Success(Reported(p.0, p.1))
  }

  /** Where a decode stands once the guest has stopped or painted. */
  function GuestError(c: Codec, src: seq<byte>, ret: i32): Error {
    var o := Open(c, src);
    if ret == ERR_TOO_SMALL && o.Opened? then TooSmall(TooSmallMeta(o)) else FromGuest(ret)
  }

  function BoundsInCanvas(f: Frame, width: int, height: int): bool {
    !f.bounds.Empty() && f.bounds.Within(width, height)
  }

  /** What the guest's decode_frame hands back, given whether the codec paints the frame. */
  function GuestFrame(c: Codec, lay: SlotLayout, src: seq<byte>, index: int, painted: bool): Result<(Meta, Frame), Error> {
    match ReachFrame(c, src, lay.dstLen, index, RGBA_PREMUL)
    case Stopped(ret) => Failure(GuestError(c, src, ret))
    case Ready(_) =>
      var o := Open(c, src);
      if !painted || !o.Opened? || !(0 <= index < |Frames(c, src).configs|) then Failure(ErrDecode)
      else Success((DoneMeta(o), FrameOf(index, Frames(c, src).configs[index])))
  }

  /** What the host makes of the guest's meta and frame. */
  function Checked(s: Shape, g: Result<(Meta, Frame), Error>): Result<Frame, Error> {
    match g
    case Failure(e) => Failure(e)
    case Success((m, f)) =>
      match ValidateDestination(s, m.width, m.height, 4)
      case Some(e) => Failure(e)
      case None => if BoundsInCanvas(f, m.width, m.height) then Success(f) else Failure(ErrDecode)
  }

  /** DecodeFrame's answer, given whether the codec paints the frame. */
  function FrameResult(c: Codec, lay: SlotLayout, s: Shape, src: seq<byte>, index: int, painted: bool)
      : Result<Frame, Error>
  {
    if index < 0 || index > 0x7FFF_FFFF then Failure(ErrDecode)
    else if |src| > lay.srcLen then Failure(ErrSrcTooLarge)
    else Checked(s, GuestFrame(c, lay, src, index, painted))
  }

  /** What the guest's decode_image hands back, given whether the codec paints. */
  function GuestImage(c: Codec, lay: SlotLayout, src: seq<byte>, fmt: int, painted: bool): Result<Meta, Error> {
    match ReachImage(c, src, lay.dstLen, fmt)
    case Stopped(ret) => Failure(GuestError(c, src, ret))
    case Ready(_) =>
      var o := Open(c, src);
      if !painted || !o.Opened? then Failure(ErrDecode) else Success(DoneMeta(o))
  }

  /** What the host makes of the guest's meta. */
  function CheckedImage(s: Shape, bpp: int, g: Result<Meta, Error>): Result<Meta, Error> {
    match g
    case Failure(e) => Failure(e)
    case Success(m) =>
      match ValidateDestination(s, m.width, m.height, bpp)
      case Some(e) => Failure(e)
      case None => Success(m)
  }

  /** DecodeNRGBA's and DecodeGray's answer, given whether the codec paints. */
  function ImageResult(c: Codec, lay: SlotLayout, s: Shape, bpp: int, src: seq<byte>, fmt: int, painted: bool)
      : Result<Meta, Error>
  {
    if |src| > lay.srcLen then Failure(ErrSrcTooLarge)
    else CheckedImage(s, bpp, GuestImage(c, lay, src, fmt, painted))
  }

  /** How a DecodeFrame answer relates to its inputs: the codec's verdict on the
      pixels is the only unknown, and it too is determined by the source when
      the work buffer stays clear of the source slot. */
  ghost predicate FrameAnswer(c: Codec, lay: SlotLayout, s: Shape, src: seq<byte>, index: int, r: Result<Frame, Error>) {
    && (r == FrameResult(c, lay, s, src, index, true) || r == FrameResult(c, lay, s, src, index, false))
    && (WorkFits(c, src, lay.srcOff) && index >= 0 ==>
          r == FrameResult(c, lay, s, src, index, PaintOf(c, src, index + 1, RGBA_PREMUL).ok))
  }

  ghost predicate ImageAnswer(c: Codec, lay: SlotLayout, s: Shape, bpp: int, src: seq<byte>, fmt: int,
                              r: Result<Meta, Error>)
  {
    && (r == ImageResult(c, lay, s, bpp, src, fmt, true) || r == ImageResult(c, lay, s, bpp, src, fmt, false))
    && (WorkFits(c, src, lay.srcOff) && ReachImage(c, src, lay.dstLen, fmt).Ready? ==>
          r == ImageResult(c, lay, s, bpp, src, fmt,
                           PaintOf(c, src, ReachImage(c, src, lay.dstLen, fmt).consumed, fmt).ok))
  }

  /** A Go shape with which a call does not panic: where the call can succeed, and
      so reaches the copy into Pix, the shape is addressable. */
  ghost predicate FrameSafe(c: Codec, lay: SlotLayout, s: Shape, src: seq<byte>, index: int) {
    GoShape(s) && ((exists f :: FrameAnswer(c, lay, s, src, index, Success(f))) ==> Addressable(s))
  }

  ghost predicate ImageSafe(c: Codec, lay: SlotLayout, s: Shape, bpp: int, src: seq<byte>, fmt: int) {
    GoShape(s) && ((exists m :: ImageAnswer(c, lay, s, bpp, src, fmt, Success(m))) ==> Addressable(s))
  }

  /** The scratch view of an opened source after a decode. */
  ghost predicate ScratchIs(c: Codec, lay: SlotLayout, src: seq<byte>, mem: seq<byte>, scratch: seq<byte>) {
    var o := Open(c, src);
    && o.Opened? && RoomFor(o, lay.dstLen) && lay.dstOff + lay.dstLen <= |mem|
    && scratch == mem[lay.dstOff..lay.dstOff + Need(o.width, o.height)]
  }

  /** A successful DecodeFrame: inside the frame's bounds the destination shows
      the scratch at the same canvas coordinates, everywhere else it is as
      before; and the scratch is what the codec paints on a cleared canvas. */
  ghost predicate FrameShown(c: Codec, lay: SlotLayout, src: seq<byte>, index: nat, mem: seq<byte>,
                             before: seq<byte>, after: seq<byte>, stride: int, f: Frame)
  {
    var o := Open(c, src);
    && o.Opened? && stride > 0
    && exists scratch ::
         && ScratchIs(c, lay, src, mem, scratch)
         && Copied(before, after, stride, scratch, o.width * 4,
                   f.bounds.minY, f.bounds.maxY, f.bounds.minX * 4, f.bounds.maxX * 4)
         && (WorkFits(c, src, lay.srcOff) ==> scratch == Canvas(PaintOf(c, src, index + 1, RGBA_PREMUL), Zeros(|scratch|)))
  }

  /** The scratch view after decode_image, which paints over whatever the
      destination slot held: stale bytes show wherever the codec does not write. */
  ghost predicate ImageScratch(c: Codec, lay: SlotLayout, src: seq<byte>, fmt: int,
                               before: seq<byte>, mem: seq<byte>, scratch: seq<byte>)
  {
    && ScratchIs(c, lay, src, mem, scratch)
    && |before| == |mem|
    && var g := ReachImage(c, src, lay.dstLen, fmt);
       WorkFits(c, src, lay.srcOff) && g.Ready? ==>
         scratch == Canvas(PaintOf(c, src, g.consumed, fmt), before[lay.dstOff..lay.dstOff + |scratch|])
  }

  /** A successful DecodeNRGBA over memory m0 and Pix `before`: every canvas byte
      is the scratch byte at the same coordinates, padding is as before. */
  ghost predicate NRGBAShown(c: Codec, lay: SlotLayout, src: seq<byte>, m0: seq<byte>, m: seq<byte>,
                             before: seq<byte>, after: seq<byte>, stride: int)
  {
    var o := Open(c, src);
    && o.Opened? && stride > 0
    && exists scratch ::
         && ImageScratch(c, lay, src, RGBA_NONPREMUL, m0, m, scratch)
         && Copied(before, after, stride, scratch, o.width * 4, 0, o.height, 0, o.width * 4)
  }

  /** A successful DecodeGray: every pixel is the gray of its scratch pixel. */
  ghost predicate GrayShown(c: Codec, lay: SlotLayout, src: seq<byte>, m0: seq<byte>, m: seq<byte>,
                            before: seq<byte>, after: seq<byte>, stride: int)
  {
    var o := Open(c, src);
    && o.Opened? && stride > 0
    && exists scratch ::
         && ImageScratch(c, lay, src, BGRA_PREMUL, m0, m, scratch)
         && Grayed(before, after, stride, scratch, o.width, o.height, 0)
  }

  /** The meta of a successful DecodeGray. */
  function GrayMeta(o: Opened): Meta
    requires o.Opened?
  {
    DoneMeta(o).(bytesWritten := Wrap32(o.width * o.height))
  }

  /** DecodeGray reports host bytes: one a pixel. */
  function GrayAnswer(r: Result<Meta, Error>): Result<Meta, Error> {
    match r
    case Failure(e) => Failure(e)
    case Success(m) => Success(m.(bytesWritten := Wrap32(m.width * m.height)))
  }
}
