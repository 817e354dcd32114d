/** What each wasm/shim.c export answers, as functions of the source bytes and
    the capacities it is given; no memory appears here. */
module GuestSpec {
  import opened Bytes
  import opened Codec
  import opened Layout
  import opened Structs
  import opened Buffers
  import opened MetadataWalk
  import opened Pack
  import Formats

  const ERR_UNKNOWN := -1
  const ERR_TOO_SMALL := -2
  const ERR_DECODE := -3
  const ERR_BAD_ARG := -4

  const RGBA_PREMUL := 1
  const RGBA_NONPREMUL := 2
  const BGRA_PREMUL := 3

  /** The codes dst_pixfmt_to_format knows. */
  predicate KnownPixfmt(fmt: int) {
    RGBA_PREMUL <= fmt <= BGRA_PREMUL
  }

  // ---- opening a decoder: the steps every export starts with ----

  datatype Opened = Refused(ret: i32) | Opened(fourcc: u32, width: Dim, height: Dim)

  /** Sniff, find the decoder, check its size, initialise it, decode the image config. */
  function Open(c: Codec, src: seq<byte>): Opened {
    var fourcc := Formats.Sniff(src);
    if fourcc == 0 then Refused(ERR_UNKNOWN)
    else if c.objSize(fourcc) > BUMP_LIMIT || !c.initOk(fourcc) then Refused(ERR_DECODE)
    else
      match c.config(fourcc, src)
      case None => Refused(ERR_DECODE)
      case Some(cfg) => Opened(fourcc, cfg.width, cfg.height)
  }

  function Need(width: Dim, height: Dim): nat {
    4 * Times(width, height)
  }

  /** The meta of a probe. */
  function ProbeMeta(o: Opened): Meta
    requires o.Opened?
  {
    Meta(0, o.width, o.height, o.width * 4, 0, o.fourcc)
  }

  /** Zeroed but for the error code. */
  function ErrMeta(err: i32): Meta {
    Meta(err, 0, 0, 0, 0, 0)
  }

  function TooSmallMeta(o: Opened): Meta
    requires o.Opened?
  {
    Meta(ERR_TOO_SMALL, o.width, o.height, o.width * 4, 0, 0)
  }

  function DoneMeta(o: Opened): Meta
    requires o.Opened?
  {
    Meta(0, o.width, o.height, o.width * 4, Wrap32(Need(o.width, o.height)), o.fourcc)
  }

  // ---- reaching a frame ----

  /** Where a decode export stands when it is about to decode pixels. */
  datatype Reach = Stopped(ret: i32) | Ready(consumed: nat)

  predicate RoomFor(o: Opened, dstCap: nat)
    requires o.Opened?
  {
    0 < Need(o.width, o.height) <= dstCap
  }

  /** Up to the work buffer and the pixel buffer. */
  function Prepare(c: Codec, src: seq<byte>, dstCap: nat, fmt: int): i32 {
    match Open(c, src)
    case Refused(ret) => ret
    case Opened(fourcc, width, height) =>
      if !KnownPixfmt(fmt) then ERR_BAD_ARG
      else if !RoomFor(Open(c, src), dstCap) then ERR_TOO_SMALL
      else if c.workMin(fourcc, src) > c.workMax(fourcc, src) || !c.bindOk(fourcc, src) then ERR_DECODE
      else 0
  }

  function Frames(c: Codec, src: seq<byte>): FrameStream {
    c.frames(Formats.Sniff(src), src)
  }

  /** decode_frame: the config of frame `index` must be reached. */
  function ReachFrame(c: Codec, src: seq<byte>, dstCap: nat, index: int, fmt: int): Reach {
    if |src| == 0 || index < 0 then Stopped(ERR_DECODE)
    else
      var ret := Prepare(c, src, dstCap, fmt);
      if ret != 0 then Stopped(ret)
      else if index >= |Frames(c, src).configs| then Stopped(ERR_DECODE)
      else Ready(index + 1)
  }

  /** decode_image: the first config, or a clean end of data, which is tolerated. */
  function ReachImage(c: Codec, src: seq<byte>, dstCap: nat, fmt: int): Reach {
    if |src| == 0 then Stopped(ERR_BAD_ARG)
    else
      var ret := Prepare(c, src, dstCap, fmt);
      if ret != 0 then Stopped(ret)
      else if |Frames(c, src).configs| > 0 then Ready(1)
      else if Frames(c, src).endsCleanly then Ready(0)
      else Stopped(ERR_DECODE)
  }

  /** frame_count: the number of configs, or an error code. */
  function CountFrames(c: Codec, src: seq<byte>): Result<nat, i32> {
    if |src| == 0 then Failure(ERR_BAD_ARG)
    else
      match Open(c, src)
      case Refused(ret) => Failure(ret)
      case Opened(_, _, _) =>
        if Frames(c, src).endsCleanly then Success(|Frames(c, src).configs|) else Failure(ERR_DECODE)
  }

  /** animation_loops: the loop count, or an error code. */
  function CountLoops(c: Codec, src: seq<byte>): Result<u32, i32> {
    if |src| == 0 then Failure(ERR_BAD_ARG)
    else
      match Open(c, src)
      case Refused(ret) => Failure(ret)
      case Opened(fourcc, _, _) => Success(c.loops(fourcc, src))
  }

  /** read_image_metadata: the format and what was accumulated, or an error code. */
  function ReadMetadata(c: Codec, src: seq<byte>, packCap: nat): Result<(u32, Acc), i32> {
    var fourcc := Formats.Sniff(src);
    if |src| == 0 then Failure(ERR_BAD_ARG)
    else if fourcc == 0 then Failure(ERR_UNKNOWN)
    else if !Guarded(c.objSize(fourcc), |src|) || !c.initOk(fourcc) then Failure(ERR_DECODE)
    else
      match Walk(src, c.metadata(fourcc, src))
      case None => Failure(ERR_DECODE)
      case Some(acc) => if PackSize(acc) > packCap then Failure(ERR_DECODE) else Success((fourcc, acc))
  }

  // ---- pixels ----

  function PaintOf(c: Codec, src: seq<byte>, consumed: nat, fmt: int): Paint {
    c.paint(Formats.Sniff(src), src, consumed, fmt)
  }

  function CanvasByte(p: Paint, before: seq<byte>, i: nat): byte
    requires i < |before|
  {
    match p.at(i)
    case Some(b) => b
    case None => before[i]
  }

  /** The canvas bytes after a decode that starts from `before`. */
  function Canvas(p: Paint, before: seq<byte>): (s: seq<byte>)
    ensures |s| == |before|
    ensures forall i :: 0 <= i < |s| ==> s[i] == CanvasByte(p, before, i)
  {
    seq(|before|, i requires 0 <= i < |before| => CanvasByte(p, before, i))
  }

  // ---- the bump arena ----

  /** Length of the work buffer that is allocated: the 64-bit figure is cut to 32 bits, and 0 means 64 KiB. */
  function WorkLen(c: Codec, src: seq<byte>): u32 {
    var n := Wrap32(c.workMax(Formats.Sniff(src), src));
    if n == 0 then 0x10000 else n
  }

  function WorkStart(c: Codec, src: seq<byte>): int
    requires c.objSize(Formats.Sniff(src)) <= BUMP_LIMIT
  {
    BUMP_BASE + Align8(c.objSize(Formats.Sniff(src)))
  }

  function WorkEnd(c: Codec, src: seq<byte>): int
    requires c.objSize(Formats.Sniff(src)) <= BUMP_LIMIT
  {
    WorkStart(c, src) + WorkLen(c, src)
  }

  /** Where a decode export's own memory ends. */
  function ArenaEnd(c: Codec, src: seq<byte>): (end: int)
    ensures HOST_BASE <= end
  {
    if c.objSize(Formats.Sniff(src)) <= BUMP_LIMIT then Max(HOST_BASE, WorkEnd(c, src)) else HOST_BASE
  }

  /** The decoder object and the work buffer stay below the source slot. */
  predicate WorkFits(c: Codec, src: seq<byte>, srcOff: int) {
    c.objSize(Formats.Sniff(src)) <= BUMP_LIMIT ==> WorkEnd(c, src) <= srcOff
  }
}
