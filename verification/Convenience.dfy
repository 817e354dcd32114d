/** convenience.go: the allocating helpers that reserve, probe, size, reserve
    again and decode. */
module Convenience {
  import opened Bytes
  import opened Codec
  import opened Layout
  import opened Pixels
  import opened Structs
  import opened GuestSpec
  import opened HostSpec
  import opened Decoder
  import opened Shim

  const MAX_DIMENSION := 0xFF_FFFF

  datatype HelperError = ReserveRejected(reason: ReserveError) | Failed(error: Error)

  /** validateAllocatingGeometry: host row, host length and guest length. */
  function AllocatingGeometry(width: int, height: int, bpp: int): Result<(nat, nat, nat), Error> {
    if width <= 0 || height <= 0 || width > MAX_DIMENSION || height > MAX_DIMENSION then Failure(ErrBadImage)
    else if bpp != 1 && bpp != 4 then Failure(ErrBadImage)
    else
      var rowBytes := Wrap64(width * bpp);
      var tightBytes := Wrap64(rowBytes * height);
      var decodedBytes := Wrap64(Wrap64(width * height) * 4);
      if rowBytes > MAX_INT || tightBytes > MAX_INT || decodedBytes > MAX_U32 then Failure(ErrBadImage)
      else Success((rowBytes, tightBytes, decodedBytes))
  }

  /** None of its 64-bit products wraps: it accepts exactly the non-empty images
      whose four-byte canvas fits 32 bits. */
  lemma GeometryExact(width: Dim, height: Dim, bpp: int)
    requires bpp == 1 || bpp == 4
    ensures AllocatingGeometry(width, height, bpp) ==
            if 0 < Need(width, height) <= MAX_U32
            then Success((width * bpp, bpp * Times(width, height), Need(width, height))) else Failure(ErrBadImage)
  {
    hide Wrap64;
    ProductBound(width, height, MAX_DIMENSION, MAX_DIMENSION);
    assert width * bpp * height == bpp * Times(width, height);
    if width >= 1 && height >= 1 {
      ProductBound(1, 1, width, height);
    }
  }

  /** The states and sizes decodePrep goes through. */
  datatype Prep = Prep(st: State, width: Dim, height: Dim, guestLen: nat)

  function PrepResult(c: Codec, st: State, src: seq<byte>, bpp: int): Result<Prep, HelperError> {
    if !Accepts(st, 0, |src|) then Failure(ReserveRejected(Invalid))
    else
      var st1 := AfterReserve(st, 0, |src|);
      match ProbeResult(c, st1.lay, src)
      case Failure(e) => Failure(Failed(e))
      case Success(_) =>
        var o := Open(c, src);
        if !o.Opened? then Failure(Failed(ErrDecode))
        else
          match AllocatingGeometry(o.width, o.height, bpp)
          case Failure(e) => Failure(Failed(e))
          case Success(g) =>
            if !Accepts(st1, g.2, |src|) then Failure(ReserveRejected(Invalid))
            else Success(Prep(AfterReserve(st1, g.2, |src|), o.width, o.height, g.2))
  }

  /** What a successful preparation guarantees about the state it leaves. */
  lemma PrepGuarantees(c: Codec, st: State, src: seq<byte>, bpp: int)
    requires Sound(st) && (bpp == 1 || bpp == 4)
    requires PrepResult(c, st, src, bpp).Success?
    ensures var p := PrepResult(c, st, src, bpp).value;
            var o := Open(c, src);
            && o.Opened? && p.width == o.width && p.height == o.height
            && p.guestLen == Need(o.width, o.height)
            && Sound(p.st) && 0 < |src| <= p.st.lay.srcLen && RoomFor(o, p.st.lay.dstLen)
  {
    hide Sound, Accepts, AfterReserve, Open, Need, AllocatingGeometry;
    var o := Open(c, src);
    GeometryExact(o.width, o.height, bpp);
    ReserveKeepsSound(st, 0, |src|);
    ReserveKeepsSound(AfterReserve(st, 0, |src|), PrepResult(c, st, src, bpp).value.guestLen, |src|);
  }

  /** The tight image of a size. */
  function TightShape(width: Dim, height: Dim, bpp: nat): Shape {
    Shape(Full(width, height), bpp * Times(width, height), width * bpp)
  }

  /** Once the preparation has succeeded, decoding frame 0 into the tight image
      of the probed size can only succeed or be a decode error. */
  lemma PreparedFrameDecodes(c: Codec, st: State, src: seq<byte>, painted: bool)
    requires Sound(st) && PrepResult(c, st, src, 4).Success?
    ensures var p := PrepResult(c, st, src, 4).value;
            var r := FrameResult(c, p.st.lay, TightShape(p.width, p.height, 4), src, 0, painted);
            r.Failure? ==> r == Failure(ErrDecode)
  {
    hide Sound, PrepResult, Need, ValidateDestination;
    PrepGuarantees(c, st, src, 4);
    var p := PrepResult(c, st, src, 4).value;
    OpenedSniff(c, src);
    PositiveDims(p.width, p.height);
    TightAccepted(p.width, p.height, 4);
  }

  lemma PreparedImageDecodes(c: Codec, st: State, src: seq<byte>, bpp: int, fmt: int, painted: bool)
    requires Sound(st) && (bpp == 1 || bpp == 4) && KnownPixfmt(fmt) && PrepResult(c, st, src, bpp).Success?
    ensures var p := PrepResult(c, st, src, bpp).value;
            var r := ImageResult(c, p.st.lay, TightShape(p.width, p.height, bpp), bpp, src, fmt, painted);
            && (r.Failure? ==> r == Failure(ErrDecode))
            && (r.Success? ==> r.value == DoneMeta(Open(c, src)))
  {
    hide Sound, PrepResult, Need, ValidateDestination;
    PrepGuarantees(c, st, src, bpp);
    var p := PrepResult(c, st, src, bpp).value;
    OpenedSniff(c, src);
    PositiveDims(p.width, p.height);
    TightAccepted(p.width, p.height, bpp);
  }

  /** A successful decode's meta is the probe's but for the bytes written, w * h * 4. */
  lemma DoneIsProbe(o: Opened)
    requires o.Opened? && Need(o.width, o.height) <= MAX_U32
    ensures DoneMeta(o) == ProbeMeta(o).(bytesWritten := Need(o.width, o.height))
  {}

  // ---- when a prepared decode succeeds ----

  /** Whether decoding frame 0 of a prepared source succeeds: never when the guest
      stops before the pixels or the frame leaves the canvas, and otherwise, with
      the source intact, exactly when the codec paints it. */
  predicate FrameVerdict(c: Codec, lay: SlotLayout, src: seq<byte>, ok: bool) {
    && (ok ==> FrameZeroInside(c, lay, src))
    && (WorkFits(c, src, lay.srcOff) && FrameZeroInside(c, lay, src) ==> (ok <==> PaintOf(c, src, 1, RGBA_PREMUL).ok))
  }

  /** The guest reaches frame 0 and its bounds lie in the canvas. */
  predicate FrameZeroInside(c: Codec, lay: SlotLayout, src: seq<byte>) {
    && ReachFrame(c, src, lay.dstLen, 0, RGBA_PREMUL).Ready?
    && Open(c, src).Opened?
    && BoundsInCanvas(FrameOf(0, Frames(c, src).configs[0]), Open(c, src).width, Open(c, src).height)
  }

  /** The same for the image decodes, which do not look at the frame's bounds. */
  predicate ImageVerdict(c: Codec, lay: SlotLayout, src: seq<byte>, fmt: int, ok: bool) {
    var g := ReachImage(c, src, lay.dstLen, fmt);
    && (ok ==> g.Ready?)
    && (WorkFits(c, src, lay.srcOff) && g.Ready? ==> (ok <==> PaintOf(c, src, g.consumed, fmt).ok))
  }

  lemma PreparedFrameAnswers(c: Codec, st: State, src: seq<byte>, r: Result<Frame, Error>)
    requires Sound(st) && PrepResult(c, st, src, 4).Success?
    requires var p := PrepResult(c, st, src, 4).value;
             FrameAnswer(c, p.st.lay, TightShape(p.width, p.height, 4), src, 0, r)
    ensures r.Failure? ==> r == Failure(ErrDecode)
    ensures FrameVerdict(c, PrepResult(c, st, src, 4).value.st.lay, src, r.Success?)
  {
    hide Sound, PrepResult, Need, ValidateDestination, WorkFits, PaintOf, FrameOf, BoundsInCanvas;
    PrepGuarantees(c, st, src, 4);
    var p := PrepResult(c, st, src, 4).value;
    PreparedFrameDecodes(c, st, src, true);
    PreparedFrameDecodes(c, st, src, false);
    PositiveDims(p.width, p.height);
    TightAccepted(p.width, p.height, 4);
  }

  lemma PreparedImageAnswers(c: Codec, st: State, src: seq<byte>, bpp: int, fmt: int, r: Result<Meta, Error>)
    requires Sound(st) && (bpp == 1 || bpp == 4) && KnownPixfmt(fmt) && PrepResult(c, st, src, bpp).Success?
    requires var p := PrepResult(c, st, src, bpp).value;
             ImageAnswer(c, p.st.lay, TightShape(p.width, p.height, bpp), bpp, src, fmt, r)
    ensures r.Failure? ==> r == Failure(ErrDecode)
    ensures ImageVerdict(c, PrepResult(c, st, src, bpp).value.st.lay, src, fmt, r.Success?)
  {
    hide Sound, PrepResult, Need, ValidateDestination, WorkFits, PaintOf;
    PrepGuarantees(c, st, src, bpp);
    var p := PrepResult(c, st, src, bpp).value;
    PreparedImageDecodes(c, st, src, bpp, fmt, true);
    PreparedImageDecodes(c, st, src, bpp, fmt, false);
    PositiveDims(p.width, p.height);
    TightAccepted(p.width, p.height, bpp);
  }

  lemma PreparedGrayAnswers(c: Codec, st: State, src: seq<byte>, r: Result<Meta, Error>)
    requires Sound(st) && PrepResult(c, st, src, 1).Success?
    requires var p := PrepResult(c, st, src, 1).value;
             exists g :: ImageAnswer(c, p.st.lay, TightShape(p.width, p.height, 1), 1, src, BGRA_PREMUL, g)
                         && r == GrayAnswer(g)
    ensures r.Failure? ==> r == Failure(ErrDecode)
    ensures ImageVerdict(c, PrepResult(c, st, src, 1).value.st.lay, src, BGRA_PREMUL, r.Success?)
  {
    hide Sound, PrepResult, ImageAnswer, ImageVerdict;
    var p := PrepResult(c, st, src, 1).value;
    var g :| ImageAnswer(c, p.st.lay, TightShape(p.width, p.height, 1), 1, src, BGRA_PREMUL, g) && r == GrayAnswer(g);
    PreparedImageAnswers(c, st, src, 1, BGRA_PREMUL, g);
  }

  /** Where the probe of a preparation that starts in st has put the source. */
  predicate LeftBehind(m: seq<byte>, st: State, src: seq<byte>) {
    var off := AfterReserve(st, 0, |src|).lay.srcOff;
    off + |src| <= |m| && m[off..off + |src|] == src
  }

  /** What a helper that starts in st and decodes under lay puts into a new
      NRGBA image: a canvas decoded over memory that still holds the probed source. */
  ghost predicate NewNRGBAShown(c: Codec, st: State, lay: SlotLayout, src: seq<byte>, m: seq<byte>, pix: seq<byte>) {
    var o := Open(c, src);
    && o.Opened?
    && exists m0 :: LeftBehind(m0, st, src) && NRGBAShown(c, lay, src, m0, m, Zeros(|pix|), pix, o.width * 4)
  }

  ghost predicate NewGrayShown(c: Codec, st: State, lay: SlotLayout, src: seq<byte>, m: seq<byte>, pix: seq<byte>) {
    var o := Open(c, src);
    && o.Opened?
    && exists m0 :: LeftBehind(m0, st, src) && GrayShown(c, lay, src, m0, m, Zeros(|pix|), pix, o.width)
  }

  // ---- the helpers ----

  /** probeWithDecoder. */
  method ProbeWithDecoder(src: seq<byte>, d: Decoder) returns (r: Result<Meta, HelperError>)
    requires d.Valid()
    modifies d, d.guest
    ensures d.Valid() && d.View() == AfterReserve(old(d.View()), 0, |src|)
    ensures r == if !Accepts(old(d.View()), 0, |src|) then Failure(ReserveRejected(Invalid))
                 else match ProbeResult(d.guest.codec, d.layout, src)
                      case Failure(e) => Failure(Failed(e))
                      case Success(m) => Success(m)
  {
    hide AfterReserve, Accepts, Sound, Open;
    var err := d.Reserve(0, |src|);
    if err.Some? {
      return Failure(ReserveRejected(err.value));
    }
    var meta := d.Probe(src);
    match meta
    case Failure(e) => r := Failure(Failed(e));
    case Success(m) => r := Success(m);
  }

  /** decodePrep. */
  method DecodePrep(src: seq<byte>, d: Decoder, bpp: int) returns (r: Result<(Dim, Dim, nat), HelperError>)
    requires d.Valid()
    modifies d, d.guest
    ensures d.Valid() && d.lastFrame == old(d.lastFrame) && d.lastMetadata == old(d.lastMetadata)
    ensures match PrepResult(d.guest.codec, old(d.View()), src, bpp)
            case Failure(e) => r == Failure(e) && d.View() == AfterReserve(old(d.View()), 0, |src|)
            case Success(p) => r == Success((p.width, p.height, p.guestLen)) && d.View() == p.st
    ensures r.Success? ==> LeftBehind(d.guest.mem, old(d.View()), src)
  {
    hide AfterReserve, Accepts, Sound, AllocatingGeometry, Open;
    ghost var st := d.View();
    KeptWhenRejected(st, 0, |src|);
    OpenedSniff(d.guest.codec, src);
    var err := d.Reserve(0, |src|);
    if err.Some? {
      return Failure(ReserveRejected(err.value));
    }
    var meta := d.Probe(src);
    if meta.Failure? {
      return Failure(Failed(meta.error));
    }
    var width, height := meta.value.width, meta.value.height;
    var g := AllocatingGeometry(width, height, bpp);
    if g.Failure? {
      return Failure(Failed(g.error));
    }
    ghost var m1 := d.guest.mem;
    ProbedBehind(d, st, src);
    KeptWhenRejected(d.View(), g.value.2, |src|);
    err := d.Reserve(g.value.2, |src|);
    if err.Some? {
      return Failure(ReserveRejected(err.value));
    }
    StillBehind(m1, d.guest.mem, st, src);
    r := Success((width, height, g.value.2));
  }

  lemma KeptWhenRejected(st: State, dst: int, src: int)
    ensures !Accepts(st, dst, src) ==> AfterReserve(st, dst, src) == st
  {}

  lemma ProbedBehind(d: Decoder, st: State, src: seq<byte>)
    requires d.Valid() && d.View() == AfterReserve(st, 0, |src|)
    requires |src| <= d.layout.srcLen && d.SrcSlot(|src|) == src
    ensures LeftBehind(d.guest.mem, st, src)
  {
    hide AfterReserve, ComputeLayout;
    SoundSeparated(d.View());
  }

  lemma StillBehind(m: seq<byte>, m': seq<byte>, st: State, src: seq<byte>)
    requires LeftBehind(m, st, src) && |m| <= |m'| && m'[..|m|] == m
    ensures LeftBehind(m', st, src)
  {
    hide AfterReserve;
    var off := AfterReserve(st, 0, |src|).lay.srcOff;
    SubSlice(m', 0, |m|, off, off + |src|);
    assert m'[0..|m|] == m'[..|m|];
  }

  /** image.NewRGBA, NewNRGBA and NewGray: a cleared, tightly packed image. */
  method NewImage(width: Dim, height: Dim, bpp: nat) returns (img: Raster)
    requires width >= 1 && height >= 1 && (bpp == 1 || bpp == 4) && Need(width, height) <= MAX_U32
    ensures fresh(img) && fresh(img.pix)
    ensures img.GetShape() == TightShape(width, height, bpp) && Addressable(img.GetShape())
    ensures forall i :: 0 <= i < img.pix.Length ==> img.pix[i] == 0
  {
    TightAccepted(width, height, bpp);
    assert width * bpp * height == bpp * Times(width, height);
    var pix := new byte[bpp * Times(width, height)](_ => 0);
    img := new Raster(pix, width * bpp, Full(width, height));
  }

  /** decodeWithAllocator: after a successful preparation only a decode error
      remains, and a success carries the probe's meta with w * h * 4 bytes written. */
  method DecodeWithAllocator(src: seq<byte>, d: Decoder) returns (r: Result<(Raster, Meta), HelperError>)
    requires d.Valid()
    modifies d, d.guest
    ensures d.Valid()
    ensures match PrepResult(d.guest.codec, old(d.View()), src, 4)
            case Failure(e) => r == Failure(e) && d.View() == AfterReserve(old(d.View()), 0, |src|)
            case Success(p) =>
              && d.View() == p.st
              && (r.Failure? ==> r == Failure(Failed(ErrDecode)))
              && FrameVerdict(d.guest.codec, d.layout, src, r.Success?)
              && (r.Success? ==>
                    var o := Open(d.guest.codec, src);
                    && o.Opened? && fresh(r.value.0.pix)
                    && r.value.0.GetShape() == TightShape(o.width, o.height, 4)
                    && r.value.1 == ProbeMeta(o).(bytesWritten := Wrap32(Need(o.width, o.height)))
                    && 0 < |Frames(d.guest.codec, src).configs|
                    && d.lastFrame == FrameOf(0, Frames(d.guest.codec, src).configs[0])
                    && FrameShown(d.guest.codec, d.layout, src, 0, d.guest.mem,
                                  Zeros(r.value.0.pix.Length), r.value.0.pix[..], r.value.0.stride, d.lastFrame))
  {
    hide PrepResult, FrameAnswer, FrameVerdict, FrameShown, LeftBehind, Open, Sound, Need, AfterReserve;
    var p := DecodePrep(src, d, 4);
    if p.Failure? {
      return Failure(p.error);
    }
    var c := d.guest.codec;
    PrepGuarantees(c, old(d.View()), src, 4);
    PositiveDims(p.value.0, p.value.1);
    var dst := NewImage(p.value.0, p.value.1, 4);
    assert dst.pix[..] == Zeros(dst.pix.Length);
    var m := d.DecodeRGBA(dst, src);
    PreparedFrameAnswers(c, old(d.View()), src, if m.Success? then Success(d.lastFrame) else Failure(m.error));
    if m.Failure? {
      return Failure(Failed(m.error));
    }
    FrameOfAnswer(c, d.layout, dst.GetShape(), src, 0, d.lastFrame);
    DoneIsProbe(Open(c, src));
    r := Success((dst, m.value));
  }

  /** decodeNRGBAWithAllocator. */
  method DecodeNRGBAWithAllocator(src: seq<byte>, d: Decoder) returns (r: Result<(Raster, Meta), HelperError>)
    requires d.Valid()
    modifies d, d.guest
    ensures d.Valid()
    ensures match PrepResult(d.guest.codec, old(d.View()), src, 4)
            case Failure(e) => r == Failure(e) && d.View() == AfterReserve(old(d.View()), 0, |src|)
            case Success(p) =>
              && d.View() == p.st
              && (r.Failure? ==> r == Failure(Failed(ErrDecode)))
              && ImageVerdict(d.guest.codec, d.layout, src, RGBA_NONPREMUL, r.Success?)
              && (r.Success? ==>
                    var o := Open(d.guest.codec, src);
                    && o.Opened? && fresh(r.value.0.pix)
                    && r.value.0.GetShape() == TightShape(o.width, o.height, 4)
                    && r.value.1 == ProbeMeta(o).(bytesWritten := Wrap32(Need(o.width, o.height)))
                    && NewNRGBAShown(d.guest.codec, old(d.View()), d.layout, src, d.guest.mem, r.value.0.pix[..]))
  {
    hide PrepResult, ImageAnswer, ImageVerdict, NRGBAShown, LeftBehind, Open, Sound, Need, AfterReserve;
    var p := DecodePrep(src, d, 4);
    if p.Failure? {
      return Failure(p.error);
    }
    var c := d.guest.codec;
    PrepGuarantees(c, old(d.View()), src, 4);
    PositiveDims(p.value.0, p.value.1);
    var dst := NewImage(p.value.0, p.value.1, 4);
    assert dst.pix[..] == Zeros(dst.pix.Length);
    var m := d.DecodeNRGBA(dst, src);
    PreparedImageAnswers(c, old(d.View()), src, 4, RGBA_NONPREMUL, m);
    if m.Failure? {
      return Failure(Failed(m.error));
    }
    DoneIsProbe(Open(c, src));
    r := Success((dst, m.value));
  }

  /** decodeGrayWithAllocator: the meta counts w * h bytes. */
  method DecodeGrayWithAllocator(src: seq<byte>, d: Decoder) returns (r: Result<(Raster, Meta), HelperError>)
    requires d.Valid()
    modifies d, d.guest
    ensures d.Valid()
    ensures match PrepResult(d.guest.codec, old(d.View()), src, 1)
            case Failure(e) => r == Failure(e) && d.View() == AfterReserve(old(d.View()), 0, |src|)
            case Success(p) =>
              && d.View() == p.st
              && (r.Failure? ==> r == Failure(Failed(ErrDecode)))
              && ImageVerdict(d.guest.codec, d.layout, src, BGRA_PREMUL, r.Success?)
              && (r.Success? ==>
                    var o := Open(d.guest.codec, src);
                    && o.Opened? && fresh(r.value.0.pix)
                    && r.value.0.GetShape() == TightShape(o.width, o.height, 1)
                    && r.value.1 == ProbeMeta(o).(bytesWritten := Wrap32(o.width * o.height))
                    && NewGrayShown(d.guest.codec, old(d.View()), d.layout, src, d.guest.mem, r.value.0.pix[..]))
  {
    hide PrepResult, ImageAnswer, ImageVerdict, GrayAnswer, GrayShown, LeftBehind, Open, Sound, Need, AfterReserve;
    var p := DecodePrep(src, d, 1);
    if p.Failure? {
      return Failure(p.error);
    }
    var c := d.guest.codec;
    PrepGuarantees(c, old(d.View()), src, 1);
    PositiveDims(p.value.0, p.value.1);
    var dst := NewImage(p.value.0, p.value.1, 1);
    assert dst.pix[..] == Zeros(dst.pix.Length);
    var m := d.DecodeGray(dst, src);
    PreparedGrayAnswers(c, old(d.View()), src, m);
    if m.Failure? {
      return Failure(Failed(m.error));
    }
    r := Success((dst, m.value));
  }

  lemma PreparedDims(c: Codec, st: State, src: seq<byte>, bpp: int)
    requires Sound(st) && (bpp == 1 || bpp == 4)
    ensures PrepResult(c, st, src, bpp).Success? ==>
              && Open(c, src).Opened?
              && PrepResult(c, st, src, bpp).value.width == Open(c, src).width
              && PrepResult(c, st, src, bpp).value.height == Open(c, src).height
  {
    hide PrepResult, Sound;
    if PrepResult(c, st, src, bpp).Success? {
      PrepGuarantees(c, st, src, bpp);
    }
  }

  // ---- the exported functions: a new decoder each time ----

  /** Decode. */
  method Decode(c: Codec, image: seq<byte>, src: seq<byte>) returns (r: Result<(Raster, Meta), HelperError>)
    requires |image| == INITIAL_BYTES
    ensures match PrepResult(c, FreshState(), src, 4)
            case Failure(e) => r == Failure(e)
            case Success(p) =>
              && (r.Failure? ==> r == Failure(Failed(ErrDecode)))
              && FrameVerdict(c, p.st.lay, src, r.Success?)
              && (r.Success? ==>
                    && r.value.0.GetShape() == TightShape(p.width, p.height, 4)
                    && Open(c, src).Opened? && 0 < |Frames(c, src).configs|
                    && r.value.1 == ProbeMeta(Open(c, src)).(bytesWritten := Wrap32(Need(p.width, p.height)))
                    && exists m :: FrameShown(c, p.st.lay, src, 0, m, Zeros(r.value.0.pix.Length), r.value.0.pix[..],
                                              r.value.0.stride, FrameOf(0, Frames(c, src).configs[0])))
  {
    hide PrepResult, FrameShown, FrameVerdict, Open, Sound, Need, AfterReserve, ComputeLayout;
    var d := new Decoder(c, image);
    PreparedDims(c, FreshState(), src, 4);
    r := DecodeWithAllocator(src, d);
  }

  /** DecodeNRGBA: whatever a new decoder's memory holds. */
  method DecodeNRGBA(c: Codec, image: seq<byte>, src: seq<byte>) returns (r: Result<(Raster, Meta), HelperError>)
    requires |image| == INITIAL_BYTES
    ensures match PrepResult(c, FreshState(), src, 4)
            case Failure(e) => r == Failure(e)
            case Success(p) =>
              && (r.Failure? ==> r == Failure(Failed(ErrDecode)))
              && ImageVerdict(c, p.st.lay, src, RGBA_NONPREMUL, r.Success?)
              && (r.Success? ==>
                    && r.value.0.GetShape() == TightShape(p.width, p.height, 4)
                    && Open(c, src).Opened?
                    && r.value.1 == ProbeMeta(Open(c, src)).(bytesWritten := Wrap32(Need(p.width, p.height)))
                    && exists m :: NewNRGBAShown(c, FreshState(), p.st.lay, src, m, r.value.0.pix[..]))
  {
    hide PrepResult, NewNRGBAShown, ImageVerdict, Open, Sound, Need, AfterReserve, ComputeLayout;
    var d := new Decoder(c, image);
    PreparedDims(c, FreshState(), src, 4);
    r := DecodeNRGBAWithAllocator(src, d);
  }

  /** DecodeGray. */
  method DecodeGray(c: Codec, image: seq<byte>, src: seq<byte>) returns (r: Result<(Raster, Meta), HelperError>)
    requires |image| == INITIAL_BYTES
    ensures match PrepResult(c, FreshState(), src, 1)
            case Failure(e) => r == Failure(e)
            case Success(p) =>
              && (r.Failure? ==> r == Failure(Failed(ErrDecode)))
              && ImageVerdict(c, p.st.lay, src, BGRA_PREMUL, r.Success?)
              && (r.Success? ==>
                    && r.value.0.GetShape() == TightShape(p.width, p.height, 1)
                    && Open(c, src).Opened?
                    && r.value.1 == ProbeMeta(Open(c, src)).(bytesWritten := Wrap32(p.width * p.height))
                    && exists m :: NewGrayShown(c, FreshState(), p.st.lay, src, m, r.value.0.pix[..]))
  {
    hide PrepResult, NewGrayShown, ImageVerdict, Open, Sound, Need, AfterReserve, ComputeLayout;
    var d := new Decoder(c, image);
    PreparedDims(c, FreshState(), src, 1);
    r := DecodeGrayWithAllocator(src, d);
  }

  lemma PositiveDims(width: Dim, height: Dim)
    ensures Need(width, height) > 0 ==> width >= 1 && height >= 1
  {}
}
