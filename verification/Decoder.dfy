/** decoder.go, memory.go, metadata.go: the reusable decoder over the guest's
    memory, its slot layout and its reused result fields. */
module Decoder {
  import opened Bytes
  import opened Codec
  import opened Layout
  import opened Pixels
  import opened Structs
  import opened Regions
  import opened GuestSpec
  import opened HostSpec
  import opened Shim
  import opened Pack

  const NO_METADATA := Metadata(0, [], [], [], None, None, None, false)

  /** A caller-owned image: Pix, Stride and Rect. */
  class Raster {
    const pix: array<byte>
    const stride: int
    const rect: Rect

    constructor (pix: array<byte>, stride: int, rect: Rect)
      ensures this.pix == pix && this.stride == stride && this.rect == rect
    {
      this.pix := pix;
      this.stride := stride;
      this.rect := rect;
    }

    function GetShape(): Shape {
      Shape(rect, pix.Length, stride)
    }
  }

  class Decoder {
    const guest: Guest
    var layout: SlotLayout
    var lastMeta: Meta
    var lastFrame: Frame
    var lastMetadata: Metadata

    function View(): State
      reads this, guest
    {
      State(|guest.mem|, layout)
    }

    ghost predicate Valid()
      reads this, guest
    {
      Sound(View())
    }

    /** New: 64 MiB of memory in any state, 128 KiB dst and 64 KiB src slots. */
    constructor (codec: Codec, image: seq<byte>)
      requires |image| == INITIAL_BYTES
      ensures fresh(guest) && guest.codec == codec
      ensures Valid() && View() == FreshState()
    {
      guest := new Guest(codec, image);
      layout := ComputeLayout(INITIAL_BYTES, INITIAL_DST, DEFAULT_SRC);
      lastMeta := ZERO_META;
      lastFrame := ZERO_FRAME;
      lastMetadata := NO_METADATA;
      new;
      FreshSound();
    }

    /** The bytes of the source slot that a source of n bytes occupies. */
    function SrcSlot(n: nat): seq<byte>
      requires Sound(View()) && n <= layout.srcLen
      reads this, guest
    {
      SoundSeparated(View());
      guest.mem[layout.srcOff..layout.srcOff + n]
    }

    // ---- Reserve ----

    method Reserve(dstBytes: int, srcBytes: int) returns (err: Option<ReserveError>)
      requires Valid()
      modifies this, guest
      ensures Valid()
      ensures err == if Accepts(old(View()), dstBytes, srcBytes) then None else Some(Invalid)
      ensures View() == AfterReserve(old(View()), dstBytes, srcBytes)
      ensures |old(guest.mem)| <= |guest.mem| && guest.mem[..|old(guest.mem)|] == old(guest.mem)
      ensures lastMeta == old(lastMeta) && lastFrame == old(lastFrame) && lastMetadata == old(lastMetadata)
    {
      hide ComputeLayout, ResolveSlot, CheckedRequirement, PagesFor, PageCeil, Required;
      ReserveKeepsSound(View(), dstBytes, srcBytes);
      var cur := layout;
      ResolveIsMax(cur.dstLen, dstBytes);
      ResolveIsMax(cur.srcLen, srcBytes);
      if dstBytes > MAX_U32 || srcBytes > MAX_U32 {
        TooLargeRejected(View(), dstBytes, srcBytes);
      }
      var newDst := ResolveSlot(cur.dstLen, dstBytes);
      if newDst.Failure? {
        return Some(newDst.error);
      }
      var newSrc := ResolveSlot(cur.srcLen, srcBytes);
      if newSrc.Failure? {
        return Some(newSrc.error);
      }
      RequirementExact(newDst.value, newSrc.value);
      var requiredMem := CheckedRequirement(newDst.value, newSrc.value);
      if requiredMem.Failure? {
        return Some(requiredMem.error);
      }
      var currentBytes := |guest.mem|;
      PagesEnough(currentBytes, requiredMem.value);
      var pagesNeeded := PagesFor(requiredMem.value);
      var currentPages := currentBytes / PAGE;
      if pagesNeeded > currentPages {
        var ok := guest.Grow(pagesNeeded - currentPages, MAX_PAGES);
        if !ok {
          return Some(GrowFailed);
        }
        currentBytes := |guest.mem|;
      }
      layout := ComputeLayout(currentBytes, newDst.value, newSrc.value);
      err := None;
    }

    // ---- shared steps ----

    /** copySrcToSlot. */
    method CopySrcToSlot(src: seq<byte>)
      requires Valid() && |src| <= layout.srcLen
      modifies guest
      ensures |guest.mem| == |old(guest.mem)|
      ensures guest.mem == Write(old(guest.mem), layout.srcOff, src)
      ensures Valid() && SrcSlot(|src|) == src
    {
      SoundSeparated(View());
      guest.Put(layout.srcOff, src);
    }

    // ---- Probe, FrameCount, LoopCount ----

    method Probe(src: seq<byte>) returns (r: Result<Meta, Error>)
      requires Valid()
      modifies this, guest
      ensures Valid() && View() == old(View())
      ensures r == ProbeResult(guest.codec, layout, src)
      ensures |src| <= layout.srcLen ==> SrcSlot(|src|) == src
      ensures lastMeta == if r.Success? then r.value else old(lastMeta)
      ensures lastFrame == old(lastFrame) && lastMetadata == old(lastMetadata)
    {
      hide Open, EncodeMeta, OnlyWrites, Write, ComputeLayout;
      SoundSeparated(View());
      if |src| > layout.srcLen {
        return Failure(ErrSrcTooLarge);
      }
      CopySrcToSlot(src);
      var ret := guest.ProbeImage(layout.srcOff, |src|, layout.metaOff);
      OpenedSniff(guest.codec, src);
      if ret != 0 {
        return Failure(FromGuest(ret));
      }
      MetaRoundTrip(guest.mem, layout.metaOff, ProbeMeta(Open(guest.codec, src)));
      var decMeta := ReadMeta(guest.mem, layout.metaOff);
      lastMeta := decMeta;
      r := Success(decMeta);
    }

    method FrameCount(src: seq<byte>) returns (r: Result<nat, Error>)
      requires Valid()
      modifies guest
      ensures Valid() && View() == old(View())
      ensures r == FrameCountResult(guest.codec, layout, src)
      ensures |src| <= layout.srcLen ==> SrcSlot(|src|) == src
    {
      hide Open, OnlyWrites, Write, ComputeLayout, Put32;
      SoundSeparated(View());
      if |src| > layout.srcLen {
        return Failure(ErrSrcTooLarge);
      }
      CopySrcToSlot(src);
      ZeroWordAt(layout.countOutOff, src);
      var ret := guest.FrameCount(layout.srcOff, |src|, layout.countOutOff);
      OpenedSniff(guest.codec, src);
      if ret != 0 {
        return Failure(FromGuest(ret));
      }
      GetAt32(guest.mem, layout.countOutOff, |Frames(guest.codec, src).configs|);
      var n := Signed32(Get32(guest.mem, layout.countOutOff));
      if n <= 0 {
        return Failure(ErrDecode);
      }
      r := Success(n);
    }

    method LoopCount(src: seq<byte>) returns (r: Result<u32, Error>)
      requires Valid()
      modifies guest
      ensures Valid() && View() == old(View())
      ensures r == LoopCountResult(guest.codec, layout, src)
      ensures |src| <= layout.srcLen ==> SrcSlot(|src|) == src
    {
      hide Open, OnlyWrites, Write, ComputeLayout, Put32;
      SoundSeparated(View());
      if |src| > layout.srcLen {
        return Failure(ErrSrcTooLarge);
      }
      CopySrcToSlot(src);
      ZeroWordAt(layout.loopsOutOff, src);
      var ret := guest.AnimationLoops(layout.srcOff, |src|, layout.loopsOutOff);
      OpenedSniff(guest.codec, src);
      if ret != 0 {
        return Failure(FromGuest(ret));
      }
      GetAt32(guest.mem, layout.loopsOutOff, CountLoops(guest.codec, src).value);
      r := Success(Get32(guest.mem, layout.loopsOutOff));
    }

    // ---- Metadata ----

    method Metadata(src: seq<byte>) returns (r: Result<Metadata, Error>)
      requires Valid()
      modifies this, guest
      ensures Valid() && View() == old(View())
      ensures r == MetadataResult(guest.codec, layout, src)
      ensures |src| <= layout.srcLen ==> SrcSlot(|src|) == src
      ensures lastMetadata == if r.Success? then r.value else old(lastMetadata)
      ensures lastMeta == old(lastMeta) && lastFrame == old(lastFrame)
    {
      hide ReadMetadata, OnlyWrites, Write, ComputeLayout, PackBytes, Unpacked;
      SoundSeparated(View());
      if |src| > layout.srcLen {
        return Failure(ErrSrcTooLarge);
      }
      CopySrcToSlot(src);
      if layout.dstLen < METADATA_DST_MIN {
        return Failure(ErrDecode);
      }
      if layout.dstOff + HEADER_BYTES > |guest.mem| {
        return Failure(ErrDecode);
      }
      ghost var m0 := guest.mem;
      guest.Put(layout.dstOff, Zeros(HEADER_BYTES));
      Untouched(m0, guest.mem, [Slot(layout.dstOff, HEADER_BYTES)], layout.srcOff, layout.srcOff + |src|);
      var ret := guest.ReadImageMetadata(layout.srcOff, |src|, layout.dstOff, layout.dstLen);
      MetadataErrors(guest.codec, src, layout.dstLen);
      if ret != 0 {
        return Failure(FromGuest(ret));
      }
      ghost var p := ReadMetadata(guest.codec, src, layout.dstLen).value;
      PackRoundTrip(guest.mem, layout.dstOff, p.0, p.1);
      var md := ReadPack(guest.mem, layout.dstOff);
      if md.None? {
        return Failure(ErrDecode);
      }
      lastMetadata := md.value;
      r := Success(md.value);
    }

    // ---- decoding pixels ----

    /** DecodeFrame. The answer is a function of the layout, the destination's
        shape and the source; only bytes inside the frame's bounds change. */
    method DecodeFrame(dst: Raster?, src: seq<byte>, index: int) returns (r: Result<Frame, Error>)
      requires Valid()
      requires dst != null ==> FrameSafe(guest.codec, layout, dst.GetShape(), src, index)
      modifies this, guest, if dst == null then {} else {dst.pix}
      ensures Valid() && View() == old(View())
      ensures lastMetadata == old(lastMetadata)
      ensures dst == null ==> r == Failure(ErrBadImage)
      ensures r.Failure? ==> lastMeta == old(lastMeta) && lastFrame == old(lastFrame)
      ensures r.Failure? && dst != null ==> dst.pix[..] == old(dst.pix[..])
      ensures dst != null ==> FrameAnswer(guest.codec, layout, dst.GetShape(), src, index, r)
      ensures r.Success? ==>
                && 0 <= index && lastFrame == r.value
                && Open(guest.codec, src).Opened? && lastMeta == DoneMeta(Open(guest.codec, src))
                && FrameShown(guest.codec, layout, src, index, guest.mem,
                              old(dst.pix[..]), dst.pix[..], dst.stride, r.value)
      ensures dst != null && 0 <= index <= 0x7FFF_FFFF && |src| <= layout.srcLen ==>
                WorkFits(guest.codec, src, layout.srcOff) ==> SrcSlot(|src|) == src
    {
      hide Open, OnlyWrites, Write, ComputeLayout, Copied, Canvas, WorkFits, GuestFrame, ValidateDestination;
      hide Need, RowsFit, Zeros, PaintOf, FrameAnswer, FrameShown;
      if dst == null {
        return Failure(ErrBadImage);
      }
      FrameRejected(guest.codec, layout, dst.GetShape(), src, index);
      if index < 0 || index > 0x7FFF_FFFF {
        return Failure(ErrDecode);
      }
      if |src| > layout.srcLen {
        return Failure(ErrSrcTooLarge);
      }
      var g := FrameFromGuest(src, index);
      FrameAnswers(guest.codec, layout, dst.GetShape(), src, index, g);
      if g.Failure? {
        return Failure(g.error);
      }
      var (decMeta, frame) := g.value;
      var invalid := ValidateDestination(dst.GetShape(), decMeta.width, decMeta.height, 4);
      if invalid.Some? {
        return Failure(invalid.value);
      }
      if frame.bounds.Empty() || frame.bounds.minX < 0 || frame.bounds.minY < 0
         || frame.bounds.maxX > decMeta.width || frame.bounds.maxY > decMeta.height {
        return Failure(ErrDecode);
      }
      var scratch := DecodedScratch(decMeta.width, decMeta.height);
      AcceptedRows(dst.GetShape(), decMeta.width, decMeta.height, 4);
      CopyScratchToRGBARegion(dst.pix, dst.stride, scratch.value, decMeta.width, decMeta.height, frame.bounds);
      FrameShows(guest.codec, layout, src, index, guest.mem, old(dst.pix[..]), dst.pix[..], dst.stride, frame,
                 scratch.value);
      lastMeta := decMeta;
      lastFrame := frame;
      r := Success(frame);
    }

    /** The guest half of DecodeFrame: copy the source, clear the metas, call, read the metas back. */
    method FrameFromGuest(src: seq<byte>, index: int) returns (r: Result<(Meta, Frame), Error>)
      requires Valid() && |src| <= layout.srcLen && 0 <= index <= 0x7FFF_FFFF
      modifies guest
      ensures Valid() && View() == old(View())
      ensures || r == GuestFrame(guest.codec, layout, src, index, true)
              || r == GuestFrame(guest.codec, layout, src, index, false)
      ensures WorkFits(guest.codec, src, layout.srcOff) ==>
                && SrcSlot(|src|) == src
                && r == GuestFrame(guest.codec, layout, src, index, PaintOf(guest.codec, src, index + 1, RGBA_PREMUL).ok)
      ensures r.Success? ==>
                var o := Open(guest.codec, src);
                && o.Opened? && RoomFor(o, layout.dstLen) && layout.dstOff + layout.dstLen <= |guest.mem|
                && r.value.0 == DoneMeta(o)
                && (WorkFits(guest.codec, src, layout.srcOff) ==>
                      guest.mem[layout.dstOff..layout.dstOff + Need(o.width, o.height)]
                      == Canvas(PaintOf(guest.codec, src, index + 1, RGBA_PREMUL), Zeros(Need(o.width, o.height))))
    {
      hide Open, EncodeMeta, EncodeFrameMeta, Canvas, WorkFits, Sound, RoomFor, Signed32,
           ReadMeta, ReadFrameMeta, GuestError, DoneMeta, TooSmallMeta, FrameOf, Need, Zeros, GuestFrame, ReachFrame,
           PaintOf;
      var ret := CallDecodeFrame(src, index);
      GuestFrameIs(guest.codec, layout, src, index);
      if ret != 0 {
        var e := ErrorFromGuest(ret, src);
        return Failure(e);
      }
      ghost var o := Open(guest.codec, src);
      MetaRoundTrip(guest.mem, layout.metaOff, DoneMeta(o));
      FrameMetaRoundTrip(guest.mem, layout.frameMetaOff, index, Frames(guest.codec, src).configs[index]);
      r := Success((ReadMeta(guest.mem, layout.metaOff), ReadFrameMeta(guest.mem, layout.frameMetaOff)));
    }

    /** The call itself: copy the source, clear the metas, enter the guest. */
    method CallDecodeFrame(src: seq<byte>, index: int) returns (ret: i32)
      requires Valid() && |src| <= layout.srcLen && 0 <= index <= 0x7FFF_FFFF
      modifies guest
      ensures Valid() && View() == old(View())
      ensures var g := ReachFrame(guest.codec, src, layout.dstLen, index, RGBA_PREMUL);
              if g.Stopped? then ret == g.ret else ret == 0 || ret == ERR_DECODE
      ensures layout.metaOff + META_BYTES <= |guest.mem| && layout.frameMetaOff + FRAME_META_BYTES <= |guest.mem|
      ensures layout.dstOff + layout.dstLen <= |guest.mem|
      ensures ret == ERR_TOO_SMALL ==>
                && Open(guest.codec, src).Opened?
                && guest.mem[layout.metaOff..layout.metaOff + META_BYTES] ==
                     EncodeMeta(TooSmallMeta(Open(guest.codec, src)))
      ensures ret == 0 ==>
                var o := Open(guest.codec, src);
                && o.Opened? && RoomFor(o, layout.dstLen) && index < |Frames(guest.codec, src).configs|
                && guest.mem[layout.metaOff..layout.metaOff + META_BYTES] == EncodeMeta(DoneMeta(o))
                && guest.mem[layout.frameMetaOff..layout.frameMetaOff + FRAME_META_BYTES] ==
                     EncodeFrameMeta(index, Frames(guest.codec, src).configs[index])
      ensures WorkFits(guest.codec, src, layout.srcOff) ==>
                && SrcSlot(|src|) == src
                && var g := ReachFrame(guest.codec, src, layout.dstLen, index, RGBA_PREMUL);
                   g.Ready? ==>
                     var o := Open(guest.codec, src);
                     var p := PaintOf(guest.codec, src, g.consumed, RGBA_PREMUL);
                     && (ret == 0 <==> p.ok)
                     && o.Opened? && RoomFor(o, layout.dstLen)
                     && guest.mem[layout.dstOff..layout.dstOff + Need(o.width, o.height)] ==
                          Canvas(p, Zeros(Need(o.width, o.height)))
    {
      hide Open, OnlyWrites, Write, ComputeLayout, EncodeMeta, EncodeFrameMeta, Canvas, WorkFits, Prepare,
           DoneMeta, TooSmallMeta, Need, Zeros, ReachFrame, PaintOf, Sound, ArenaEnd, RoomFor;
      SoundSeparated(View());
      CopySrcToSlot(src);
      ZeroMetas(src);
      ret := guest.DecodeFrame(layout.srcOff, |src|, layout.dstOff, layout.dstLen,
                               layout.metaOff, layout.frameMetaOff, index, RGBA_PREMUL);
    }

    // ---- DecodeNRGBA and DecodeGray ----

    /** decodeImage: the guest half, shared by the typed destinations. */
    method ImageFromGuest(src: seq<byte>, fmt: int) returns (r: Result<Meta, Error>)
      requires Valid() && |src| <= layout.srcLen
      modifies guest
      ensures Valid() && View() == old(View())
      ensures || r == GuestImage(guest.codec, layout, src, fmt, true)
              || r == GuestImage(guest.codec, layout, src, fmt, false)
      ensures WorkFits(guest.codec, src, layout.srcOff) ==> SrcSlot(|src|) == src
      ensures WorkFits(guest.codec, src, layout.srcOff) && ReachImage(guest.codec, src, layout.dstLen, fmt).Ready? ==>
                r == GuestImage(guest.codec, layout, src, fmt,
                                PaintOf(guest.codec, src, ReachImage(guest.codec, src, layout.dstLen, fmt).consumed, fmt).ok)
      ensures r.Success? ==>
                var o := Open(guest.codec, src);
                && o.Opened? && RoomFor(o, layout.dstLen) && r.value == DoneMeta(o)
                && layout.dstOff + layout.dstLen <= |guest.mem| == |old(guest.mem)|
                && (WorkFits(guest.codec, src, layout.srcOff) && ReachImage(guest.codec, src, layout.dstLen, fmt).Ready? ==>
                      guest.mem[layout.dstOff..layout.dstOff + Need(o.width, o.height)]
                      == Canvas(PaintOf(guest.codec, src, ReachImage(guest.codec, src, layout.dstLen, fmt).consumed, fmt),
                                old(guest.mem)[layout.dstOff..layout.dstOff + Need(o.width, o.height)]))
    {
      hide Open, EncodeMeta, Canvas, WorkFits, Sound, RoomFor, ReadMeta, Need,
           GuestError, DoneMeta, TooSmallMeta, GuestImage, ReachImage, PaintOf;
      var ret := CallDecodeImage(src, fmt);
      GuestImageIs(guest.codec, layout, src, fmt);
      if ret != 0 {
        var e := ErrorFromGuest(ret, src);
        return Failure(e);
      }
      MetaRoundTrip(guest.mem, layout.metaOff, DoneMeta(Open(guest.codec, src)));
      r := Success(ReadMeta(guest.mem, layout.metaOff));
    }

    /** The call itself: copy the source, enter the guest. The metas are not cleared here. */
    method CallDecodeImage(src: seq<byte>, fmt: int) returns (ret: i32)
      requires Valid() && |src| <= layout.srcLen
      modifies guest
      ensures Valid() && View() == old(View())
      ensures var g := ReachImage(guest.codec, src, layout.dstLen, fmt);
              if g.Stopped? then ret == g.ret else ret == 0 || ret == ERR_DECODE
      ensures layout.metaOff + META_BYTES <= |guest.mem| && layout.dstOff + layout.dstLen <= |guest.mem| == |old(guest.mem)|
      ensures ret == ERR_TOO_SMALL ==>
                && Open(guest.codec, src).Opened?
                && guest.mem[layout.metaOff..layout.metaOff + META_BYTES] ==
                     EncodeMeta(TooSmallMeta(Open(guest.codec, src)))
      ensures ret == 0 ==>
                var o := Open(guest.codec, src);
                && o.Opened? && RoomFor(o, layout.dstLen)
                && guest.mem[layout.metaOff..layout.metaOff + META_BYTES] == EncodeMeta(DoneMeta(o))
      ensures WorkFits(guest.codec, src, layout.srcOff) ==>
                && SrcSlot(|src|) == src
                && var g := ReachImage(guest.codec, src, layout.dstLen, fmt);
                   g.Ready? ==>
                     var o := Open(guest.codec, src);
                     var p := PaintOf(guest.codec, src, g.consumed, fmt);
                     && (ret == 0 <==> p.ok)
                     && o.Opened? && RoomFor(o, layout.dstLen)
                     && guest.mem[layout.dstOff..layout.dstOff + Need(o.width, o.height)] ==
                          Canvas(p, old(guest.mem)[layout.dstOff..layout.dstOff + Need(o.width, o.height)])
    {
      hide Open, OnlyWrites, Write, ComputeLayout, EncodeMeta, Canvas, WorkFits, Prepare,
           DoneMeta, TooSmallMeta, ReachImage, PaintOf, Need, ArenaEnd, Sound;
      SoundSeparated(View());
      ghost var m0 := guest.mem;
      CopySrcToSlot(src);
      WriteOnly(m0, layout.srcOff, src);
      ghost var m1 := guest.mem;
      ghost var o := Open(guest.codec, src);
      ghost var shown := if o.Opened? && RoomFor(o, layout.dstLen) then Need(o.width, o.height) else 0;
      Untouched(m0, m1, [Region(layout.srcOff, layout.srcOff + |src|)], layout.dstOff, layout.dstOff + shown);
      ret := guest.DecodeImage(layout.srcOff, |src|, layout.dstOff, layout.dstLen, layout.metaOff, fmt);
    }

    /** decodeImageForDestination: decode, check the caller's image, view the scratch. */
    method DecodeImageForDestination(dst: Raster, bpp: int, src: seq<byte>, fmt: int)
        returns (r: Result<(Meta, seq<byte>), Error>)
      requires Valid() && GoShape(dst.GetShape()) && (bpp == 1 || bpp == 4)
      modifies guest
      ensures Valid() && View() == old(View())
      ensures ImageAnswer(guest.codec, layout, dst.GetShape(), bpp, src, fmt,
                          if r.Success? then Success(r.value.0) else Failure(r.error))
      ensures |src| <= layout.srcLen && WorkFits(guest.codec, src, layout.srcOff) ==> SrcSlot(|src|) == src
      ensures r.Success? ==>
                var (m, scratch) := r.value;
                && ImageScratch(guest.codec, layout, src, fmt, old(guest.mem), guest.mem, scratch)
                && Open(guest.codec, src).Opened? && m == DoneMeta(Open(guest.codec, src))
                && m.width > 0 && m.height > 0
                && RowsFit(|scratch|, m.width * 4, m.width * 4, m.height)
                && (Addressable(dst.GetShape()) ==>
                      dst.stride > 0 && RowsFit(dst.pix.Length, dst.stride, m.width * bpp, m.height))
    {
      hide Open, Sound, Canvas, WorkFits, GuestImage, ValidateDestination, ReachImage, RowsFit, ImageAnswer, Need, PaintOf;
      ImageRejected(guest.codec, layout, dst.GetShape(), bpp, src, fmt);
      if |src| > layout.srcLen {
        return Failure(ErrSrcTooLarge);
      }
      var g := ImageFromGuest(src, fmt);
      ImageAnswers(guest.codec, layout, dst.GetShape(), bpp, src, fmt, g);
      if g.Failure? {
        return Failure(g.error);
      }
      var decMeta := g.value;
      var invalid := ValidateDestination(dst.GetShape(), decMeta.width, decMeta.height, bpp);
      if invalid.Some? {
        return Failure(invalid.value);
      }
      var scratch := DecodedScratch(decMeta.width, decMeta.height);
      AcceptedRows(dst.GetShape(), decMeta.width, decMeta.height, bpp);
      r := Success((decMeta, scratch.value));
    }

    /** DecodeNRGBA: every canvas byte is the scratch byte at the same coordinates, padding stays. */
    method DecodeNRGBA(dst: Raster?, src: seq<byte>) returns (r: Result<Meta, Error>)
      requires Valid()
      requires dst != null ==> ImageSafe(guest.codec, layout, dst.GetShape(), 4, src, RGBA_NONPREMUL)
      modifies this, guest, if dst == null then {} else {dst.pix}
      ensures Valid() && View() == old(View())
      ensures lastFrame == old(lastFrame) && lastMetadata == old(lastMetadata)
      ensures lastMeta == if r.Success? then r.value else old(lastMeta)
      ensures dst == null ==> r == Failure(ErrBadImage)
      ensures dst != null ==> ImageAnswer(guest.codec, layout, dst.GetShape(), 4, src, RGBA_NONPREMUL, r)
      ensures dst != null && |src| <= layout.srcLen && WorkFits(guest.codec, src, layout.srcOff) ==>
                SrcSlot(|src|) == src
      ensures r.Failure? && dst != null ==> dst.pix[..] == old(dst.pix[..])
      ensures r.Success? ==>
                && Open(guest.codec, src).Opened? && r.value == DoneMeta(Open(guest.codec, src))
                && NRGBAShown(guest.codec, layout, src, old(guest.mem), guest.mem,
                              old(dst.pix[..]), dst.pix[..], dst.stride)
    {
      hide ImageAnswer, ImageScratch, Copied, ComputeLayout, Open;
      if dst == null {
        return Failure(ErrBadImage);
      }
      var d := DecodeImageForDestination(dst, 4, src, RGBA_NONPREMUL);
      if d.Failure? {
        return Failure(d.error);
      }
      var (decMeta, scratch) := d.value;
      CopyScratchToNRGBA(dst.pix, dst.stride, scratch, decMeta.width, decMeta.height);
      lastMeta := decMeta;
      r := Success(decMeta);
    }

    /** DecodeGray: every pixel is the gray of its scratch pixel, padding stays;
        the meta counts one byte a pixel. */
    method DecodeGray(dst: Raster?, src: seq<byte>) returns (r: Result<Meta, Error>)
      requires Valid()
      requires dst != null ==> ImageSafe(guest.codec, layout, dst.GetShape(), 1, src, BGRA_PREMUL)
      modifies this, guest, if dst == null then {} else {dst.pix}
      ensures Valid() && View() == old(View())
      ensures lastFrame == old(lastFrame) && lastMetadata == old(lastMetadata)
      ensures lastMeta == if r.Success? then r.value else old(lastMeta)
      ensures dst == null ==> r == Failure(ErrBadImage)
      ensures dst != null ==> exists g ::
                ImageAnswer(guest.codec, layout, dst.GetShape(), 1, src, BGRA_PREMUL, g) && r == GrayAnswer(g)
      ensures dst != null && |src| <= layout.srcLen && WorkFits(guest.codec, src, layout.srcOff) ==>
                SrcSlot(|src|) == src
      ensures r.Failure? && dst != null ==> dst.pix[..] == old(dst.pix[..])
      ensures r.Success? ==>
                && Open(guest.codec, src).Opened? && r.value == GrayMeta(Open(guest.codec, src))
                && GrayShown(guest.codec, layout, src, old(guest.mem), guest.mem,
                             old(dst.pix[..]), dst.pix[..], dst.stride)
    {
      hide ImageAnswer, ImageScratch, Grayed, ComputeLayout, RowsFit, Open;
      if dst == null {
        return Failure(ErrBadImage);
      }
      var d := DecodeImageForDestination(dst, 1, src, BGRA_PREMUL);
      if d.Failure? {
        return Failure(d.error);
      }
      var (decMeta, scratch) := d.value;
      ConvertBGRAToGray(dst.pix, dst.stride, scratch, decMeta.width, decMeta.height);
      assert GrayAnswer(Success(decMeta)) == Success(decMeta.(bytesWritten := Wrap32(decMeta.width * decMeta.height)));
      decMeta := decMeta.(bytesWritten := Wrap32(decMeta.width * decMeta.height));
      lastMeta := decMeta;
      r := Success(decMeta);
    }

    /** DecodeRGBA is DecodeFrame of frame 0 that returns the meta. */
    method DecodeRGBA(dst: Raster?, src: seq<byte>) returns (r: Result<Meta, Error>)
      requires Valid()
      requires dst != null ==> FrameSafe(guest.codec, layout, dst.GetShape(), src, 0)
      modifies this, guest, if dst == null then {} else {dst.pix}
      ensures Valid() && View() == old(View())
      ensures lastMetadata == old(lastMetadata)
      ensures dst == null ==> r == Failure(ErrBadImage)
      ensures r.Failure? ==> lastMeta == old(lastMeta) && lastFrame == old(lastFrame)
      ensures r.Failure? && dst != null ==> dst.pix[..] == old(dst.pix[..])
      ensures dst != null ==>
                FrameAnswer(guest.codec, layout, dst.GetShape(), src, 0,
                            if r.Success? then Success(lastFrame) else Failure(r.error))
      ensures r.Success? ==>
                && r.value == lastMeta
                && Open(guest.codec, src).Opened? && r.value == DoneMeta(Open(guest.codec, src))
                && FrameShown(guest.codec, layout, src, 0, guest.mem,
                              old(dst.pix[..]), dst.pix[..], dst.stride, lastFrame)
    {
      hide Open, OnlyWrites, FrameAnswer, FrameShown, DoneMeta;
      var f := DecodeFrame(dst, src, 0);
      if f.Failure? {
        return Failure(f.error);
      }
      r := Success(lastMeta);
    }

    /** Zeroing a four-byte out slot. */
    method ZeroWordAt(off: int, ghost src: seq<byte>)
      requires Valid() && |src| <= layout.srcLen && SrcSlot(|src|) == src
      requires 0 <= off && off + 4 <= layout.srcOff
      modifies guest
      ensures |guest.mem| == |old(guest.mem)| && Valid() && SrcSlot(|src|) == src
    {
      hide OnlyWrites, Write, ComputeLayout, Put32;
      SoundSeparated(View());
      ghost var m0 := guest.mem;
      guest.Put(off, Put32(0));
      Untouched(m0, guest.mem, [Slot(off, 4)], layout.srcOff, layout.srcOff + |src|);
    }

    /** Zeroing the decode-meta and frame-meta slots byte by byte. */
    method ZeroMetas(ghost src: seq<byte>)
      requires Valid() && |src| <= layout.srcLen && SrcSlot(|src|) == src
      modifies guest
      ensures |guest.mem| == |old(guest.mem)| && Valid() && SrcSlot(|src|) == src
    {
      hide OnlyWrites, Write, ComputeLayout;
      SoundSeparated(View());
      ghost var m0 := guest.mem;
      guest.PutMetas(layout.metaOff, layout.frameMetaOff, Zeros(META_BYTES), Zeros(FRAME_META_BYTES));
      Untouched(m0, guest.mem, guest.Metas(layout.metaOff, layout.frameMetaOff), layout.srcOff, layout.srcOff + |src|);
    }

    /** The host error for a nonzero guest code; a too-small error carries the guest's meta. */
    method ErrorFromGuest(ret: i32, ghost src: seq<byte>) returns (e: Error)
      requires Valid() && ret != 0
      requires ret == ERR_TOO_SMALL ==>
                 && Open(guest.codec, src).Opened?
                 && layout.metaOff + META_BYTES <= |guest.mem|
                 && guest.mem[layout.metaOff..layout.metaOff + META_BYTES] ==
                      EncodeMeta(TooSmallMeta(Open(guest.codec, src)))
      ensures e == GuestError(guest.codec, src, ret)
    {
      hide Open, EncodeMeta, ReadMeta;
      e := FromGuest(ret);
      if ret == ERR_TOO_SMALL {
        MetaRoundTrip(guest.mem, layout.metaOff, TooSmallMeta(Open(guest.codec, src)));
        e := TooSmall(ReadMeta(guest.mem, layout.metaOff));
      }
    }

    /** decodedScratch: the decoded canvas as a view of the destination slot. Its
        own size check never fails here: the guest accepted only what the slot holds. */
    method DecodedScratch(width: int, height: int) returns (r: Result<seq<byte>, Error>)
      requires Valid() && 0 <= width <= 0xFF_FFFF && 0 <= height <= 0xFF_FFFF
      requires Need(width, height) <= layout.dstLen
      ensures layout.dstOff + layout.dstLen <= |guest.mem|
      ensures r == Success(guest.mem[layout.dstOff..layout.dstOff + Need(width, height)])
    {
      hide ComputeLayout;
      SoundSeparated(View());
      var decodedBytes := Wrap64(Wrap64(width * height) * 4);
      ProductBound(width, height, 0xFF_FFFF, 0xFF_FFFF);
      assert decodedBytes == Need(width, height);
      if decodedBytes > MAX_U32 {
        return Failure(ErrBadImage);
      }
      r := Success(guest.mem[layout.dstOff..Wrap32(layout.dstOff + decodedBytes)]);
    }
  }

  /** The guest's answers by how far it got. */
  lemma GuestFrameIs(c: Codec, lay: SlotLayout, src: seq<byte>, index: nat)
    ensures var g := ReachFrame(c, src, lay.dstLen, index, RGBA_PREMUL);
            && (g.Stopped? ==>
                  && g.ret != 0
                  && forall painted :: GuestFrame(c, lay, src, index, painted) == Failure(GuestError(c, src, g.ret)))
            && (g.Ready? ==>
                  && Open(c, src).Opened? && g.consumed == index + 1 && index < |Frames(c, src).configs|
                  && GuestFrame(c, lay, src, index, false) == Failure(GuestError(c, src, ERR_DECODE))
                  && GuestFrame(c, lay, src, index, true) ==
                       Success((DoneMeta(Open(c, src)), FrameOf(index, Frames(c, src).configs[index]))))
  {
    StoppedNonzero(c, src, lay.dstLen, index, RGBA_PREMUL);
    DecodeError(c, src);
  }

  lemma GuestImageIs(c: Codec, lay: SlotLayout, src: seq<byte>, fmt: int)
    ensures var g := ReachImage(c, src, lay.dstLen, fmt);
            && (g.Stopped? ==>
                  && g.ret != 0
                  && forall painted :: GuestImage(c, lay, src, fmt, painted) == Failure(GuestError(c, src, g.ret)))
            && (g.Ready? ==>
                  && Open(c, src).Opened?
                  && GuestImage(c, lay, src, fmt, false) == Failure(GuestError(c, src, ERR_DECODE))
                  && GuestImage(c, lay, src, fmt, true) == Success(DoneMeta(Open(c, src))))
  {
    StoppedNonzero(c, src, lay.dstLen, 0, fmt);
    DecodeError(c, src);
  }

  lemma StoppedNonzero(c: Codec, src: seq<byte>, dstCap: nat, index: int, fmt: int)
    ensures ReachFrame(c, src, dstCap, index, fmt).Stopped? ==> ReachFrame(c, src, dstCap, index, fmt).ret != 0
    ensures ReachImage(c, src, dstCap, fmt).Stopped? ==> ReachImage(c, src, dstCap, fmt).ret != 0
    ensures ReachFrame(c, src, dstCap, index, fmt).Ready? || ReachImage(c, src, dstCap, fmt).Ready? ==> Open(c, src).Opened?
  {}

  /** The answers decided before the guest is called. */
  lemma FrameRejected(c: Codec, lay: SlotLayout, s: Shape, src: seq<byte>, index: int)
    ensures index < 0 || index > 0x7FFF_FFFF ==> FrameAnswer(c, lay, s, src, index, Failure(ErrDecode))
    ensures 0 <= index <= 0x7FFF_FFFF && |src| > lay.srcLen ==> FrameAnswer(c, lay, s, src, index, Failure(ErrSrcTooLarge))
  {
    hide GuestFrame;
  }

  lemma FrameAnswers(c: Codec, lay: SlotLayout, s: Shape, src: seq<byte>, index: int, g: Result<(Meta, Frame), Error>)
    requires 0 <= index <= 0x7FFF_FFFF && |src| <= lay.srcLen
    requires g == GuestFrame(c, lay, src, index, true) || g == GuestFrame(c, lay, src, index, false)
    requires WorkFits(c, src, lay.srcOff) ==>
               g == GuestFrame(c, lay, src, index, PaintOf(c, src, index + 1, RGBA_PREMUL).ok)
    ensures FrameAnswer(c, lay, s, src, index, Checked(s, g))
  {
    hide GuestFrame, WorkFits, PaintOf, ValidateDestination;
  }

  /** A successful answer is the indexed frame, inside the canvas. */
  lemma FrameOfAnswer(c: Codec, lay: SlotLayout, s: Shape, src: seq<byte>, index: int, f: Frame)
    requires FrameAnswer(c, lay, s, src, index, Success(f))
    ensures Open(c, src).Opened? && 0 <= index < |Frames(c, src).configs|
    ensures f == FrameOf(index, Frames(c, src).configs[index])
    ensures BoundsInCanvas(f, Open(c, src).width, Open(c, src).height)
  {
    hide ValidateDestination, FrameOf, WorkFits;
  }

  lemma ImageRejected(c: Codec, lay: SlotLayout, s: Shape, bpp: int, src: seq<byte>, fmt: int)
    ensures |src| > lay.srcLen ==> ImageAnswer(c, lay, s, bpp, src, fmt, Failure(ErrSrcTooLarge))
  {
    hide GuestImage, ReachImage, WorkFits;
  }

  lemma ImageAnswers(c: Codec, lay: SlotLayout, s: Shape, bpp: int, src: seq<byte>, fmt: int, g: Result<Meta, Error>)
    requires |src| <= lay.srcLen
    requires g == GuestImage(c, lay, src, fmt, true) || g == GuestImage(c, lay, src, fmt, false)
    requires WorkFits(c, src, lay.srcOff) && ReachImage(c, src, lay.dstLen, fmt).Ready? ==>
               g == GuestImage(c, lay, src, fmt, PaintOf(c, src, ReachImage(c, src, lay.dstLen, fmt).consumed, fmt).ok)
    ensures ImageAnswer(c, lay, s, bpp, src, fmt, CheckedImage(s, bpp, g))
  {
    hide GuestImage, ReachImage, WorkFits, PaintOf, ValidateDestination;
  }

  lemma FrameShows(c: Codec, lay: SlotLayout, src: seq<byte>, index: nat, mem: seq<byte>,
                   before: seq<byte>, after: seq<byte>, stride: int, f: Frame, scratch: seq<byte>)
    requires stride > 0 && ScratchIs(c, lay, src, mem, scratch)
    requires Copied(before, after, stride, scratch, Open(c, src).width * 4,
                    f.bounds.minY, f.bounds.maxY, f.bounds.minX * 4, f.bounds.maxX * 4)
    requires WorkFits(c, src, lay.srcOff) ==> scratch == Canvas(PaintOf(c, src, index + 1, RGBA_PREMUL), Zeros(|scratch|))
    ensures FrameShown(c, lay, src, index, mem, before, after, stride, f)
  {
    hide Copied, WorkFits, Canvas, PaintOf, Zeros, Open, ScratchIs;
    assert Open(c, src).Opened? by {
      OpenedByScratch(c, lay, src, mem, scratch);
    }
  }

  lemma OpenedByScratch(c: Codec, lay: SlotLayout, src: seq<byte>, mem: seq<byte>, scratch: seq<byte>)
    requires ScratchIs(c, lay, src, mem, scratch)
    ensures Open(c, src).Opened?
  {}

  lemma DecodeError(c: Codec, src: seq<byte>)
    ensures GuestError(c, src, ERR_DECODE) == ErrDecode
  {}

  lemma MetadataErrors(c: Codec, src: seq<byte>, packCap: nat)
    ensures ReadMetadata(c, src, packCap).Failure? ==> ReadMetadata(c, src, packCap).error != 0
  {}

  /** An accepted destination holds all its rows if it is addressable. */
  lemma AcceptedRows(s: Shape, width: Dim, height: Dim, bpp: int)
    requires GoShape(s) && (bpp == 1 || bpp == 4)
    requires ValidateDestination(s, width, height, bpp) == None
    requires Need(width, height) > 0
    ensures width > 0 && height > 0
    ensures Addressable(s) ==> s.stride > 0 && RowsFit(s.pixLen, s.stride, width * bpp, height)
    ensures RowsFit(Need(width, height), width * 4, width * 4, height)
  {
    hide ValidateDestination;
    AcceptedSize(s, width, height, bpp);
    AcceptedRowsFitIff(s, width, height, bpp);
    TightRowsFit(width * 4, height);
    assert height * (width * 4) == Need(width, height);
  }
}
