/** The Wuffs decoders, left uninterpreted: every answer is an unknown but
    fixed function of the format and the source bytes. */
module Codec {
  import opened Bytes

  /** Wuffs image dimensions never exceed 24 bits. */
  type Dim = x: int | 0 <= x <= 0xFF_FFFF

  datatype Config = Config(width: Dim, height: Dim)

  /** What a frame config reports; bg is the background already unpremultiplied, as r, g, b, a. */
  datatype FrameConfig = FrameConfig(
    minX: u32, minY: u32, maxX: u32, maxY: u32,
    flicks: u64, ioPosition: u64,
    disposal: byte, overwrite: bool, opaqueWithin: bool,
    bgR: byte, bgG: byte, bgB: byte, bgA: byte)

  /** Successive decode_frame_config answers: the configs, then end of data or
      an error for ever. Each config takes source bytes, so there are fewer
      than 2^31 of them. */
  datatype FrameStreamRaw = FrameStream(configs: seq<FrameConfig>, endsCleanly: bool)

  type FrameStream = s: FrameStreamRaw | |s.configs| < 0x8000_0000 witness FrameStream([], true)

  /** One decode_frame call: whether it succeeds, and which canvas bytes it writes. */
  datatype Paint = Paint(ok: bool, at: nat -> Option<byte>)

  datatype Kind = Exif | Iccp | Xmp | Chrm | Gama | Srgb | OtherKind

  /** The status beside a tell_me_more answer that is not an error. */
  datatype Status = Ok | EvenMore | OtherStatus

  const HAVE_LEN := 1048576

  type Transformed = s: seq<byte> | |s| <= HAVE_LEN witness []

  /** The eight chromaticity scalars of a CHRM item. */
  type Chrm = s: seq<i32> | |s| == 8 witness [0, 0, 0, 0, 0, 0, 0, 0]

  /** One tell_me_more answer. */
  datatype Answer =
    | Error
    | Parsed(kind: Kind, gama: u32, srgb: u32, chrm: Chrm)
    | Passthrough(kind: Kind, lo: u64, hi: u64, status: Status)
    | Transform(kind: Kind, bytes: Transformed, status: Status)
    | OtherFlavor

  /** The items that decode_image_config reports with reporting on, each as the
      answers tell_me_more gives for it, and whether the config then decodes.
      Past the last answer of an item tell_me_more reports an error. */
  datatype MetaStream = MetaStream(items: seq<seq<Answer>>, configDecodes: bool)

  datatype Codec = Codec(
    objSize: u32 -> nat,
    initOk: u32 -> bool,
    config: (u32, seq<byte>) -> Option<Config>,
    loops: (u32, seq<byte>) -> u32,
    workMin: (u32, seq<byte>) -> u64,
    workMax: (u32, seq<byte>) -> u64,
    bindOk: (u32, seq<byte>) -> bool,
    frames: (u32, seq<byte>) -> FrameStream,
    paint: (u32, seq<byte>, nat, int) -> Paint,
    metadata: (u32, seq<byte>) -> MetaStream)
}
