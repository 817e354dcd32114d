/** The fixed structs the guest writes into host slots and the host reads back:
    wuffs_wasm_decode_meta (meta.go) and wuffs_wasm_frame_meta (decoder.go). */
module Structs {
  import opened Bytes
  import opened Codec
  import opened Pixels

  // ---- decode meta: 24 bytes ----

  datatype Meta = Meta(err: i32, width: u32, height: u32, stride: u32, bytesWritten: u32, format: u32)

  const ZERO_META := Meta(0, 0, 0, 0, 0, 0)

  function MetaWords(m: Meta): (ws: seq<u32>)
    ensures |ws| == 6
  {
    [Wrap32(m.err), m.width, m.height, m.stride, m.bytesWritten, m.format]
  }

  function EncodeMeta(m: Meta): (s: seq<byte>)
    ensures |s| == 24
  {
    Words(MetaWords(m))
  }

  /** readMeta. */
  function ReadMeta(mem: seq<byte>, off: nat): Meta {
    if off + 24 > |mem| then ZERO_META
    else
      var slot := mem[off..off + 24];
      Meta(Signed32(Get32(slot, 0)), Get32(slot, 4), Get32(slot, 8), Get32(slot, 12), Get32(slot, 16), Get32(slot, 20))
  }

  lemma {:induction false} MetaRoundTrip(mem: seq<byte>, off: nat, m: Meta)
    requires off + 24 <= |mem| && mem[off..off + 24] == EncodeMeta(m)
    ensures ReadMeta(mem, off) == m
  {
    hide Words, Get32;
    var s, ws := EncodeMeta(m), MetaWords(m);
    assert s == [] + Words(ws) + [];
    WordAt(s, [], ws, [], 0, 0);
    WordAt(s, [], ws, [], 1, 4);
    WordAt(s, [], ws, [], 2, 8);
    WordAt(s, [], ws, [], 3, 12);
    WordAt(s, [], ws, [], 4, 16);
    WordAt(s, [], ws, [], 5, 20);
    SignedWrap(m.err);
  }

  /** Where each field of the struct lies. */
  lemma {:induction false} MetaLayout(m: Meta)
    ensures var s := EncodeMeta(m);
            && s[0..4] == LE(Wrap32(m.err), 4) && s[4..8] == LE(m.width, 4) && s[8..12] == LE(m.height, 4)
            && s[12..16] == LE(m.stride, 4) && s[16..20] == LE(m.bytesWritten, 4) && s[20..24] == LE(m.format, 4)
  {
    hide LE, Words;
    var ws := MetaWords(m);
    WordSlice(ws, 0, 0);
    WordSlice(ws, 1, 4);
    WordSlice(ws, 2, 8);
    WordSlice(ws, 3, 12);
    WordSlice(ws, 4, 16);
    WordSlice(ws, 5, 20);
  }

  // ---- frame meta: 48 bytes ----

  datatype Color = Color(r: byte, g: byte, b: byte, a: byte)

  datatype Frame = Frame(
    index: nat,
    bounds: Rect,
    flicks: u64,
    disposal: byte,
    opaqueWithin: bool,
    overwrite: bool,
    background: Color,
    ioPosition: u64)

  function FrameWords(index: u32, fc: FrameConfig): (ws: seq<u32>)
    ensures |ws| == 6
  {
    [0, index, fc.minX, fc.minY, fc.maxX, fc.maxY]
  }

  function FrameTail(fc: FrameConfig): (s: seq<byte>)
    ensures |s| == 8
  {
    [fc.disposal, if fc.overwrite then 1 else 0, if fc.opaqueWithin then 1 else 0,
     fc.bgR, fc.bgG, fc.bgB, fc.bgA, 0]
  }

  /** The struct after a successful decode; byte 47 is padding. */
  function EncodeFrameMeta(index: u32, fc: FrameConfig): (s: seq<byte>)
    ensures |s| == 48
  {
    Words(FrameWords(index, fc)) + Put64(fc.flicks) + Put64(fc.ioPosition) + FrameTail(fc)
  }

  /** image.Rect: the corners are swapped into order. */
  function CanonicalRect(x0: int, y0: int, x1: int, y1: int): Rect {
    Rect(if x0 > x1 then x1 else x0, if y0 > y1 then y1 else y0,
         if x0 > x1 then x0 else x1, if y0 > y1 then y0 else y1)
  }

  const ZERO_FRAME := Frame(0, Rect(0, 0, 0, 0), 0, 0, false, false, Color(0, 0, 0, 0), 0)

  /** readFrameMeta. */
  function ReadFrameMeta(mem: seq<byte>, off: nat): Frame {
    if off + 48 > |mem| then ZERO_FRAME
    else
      var slot := mem[off..off + 48];
      Frame(Get32(slot, 4),
            CanonicalRect(Signed32(Get32(slot, 8)), Signed32(Get32(slot, 12)),
                          Signed32(Get32(slot, 16)), Signed32(Get32(slot, 20))),
            Get64(slot, 24), slot[40], slot[42] == 1, slot[41] == 1,
            Color(slot[43], slot[44], slot[45], slot[46]), Get64(slot, 32))
  }

  /** The frame a config describes, as the host reports it. */
  function FrameOf(index: u32, fc: FrameConfig): Frame {
    Frame(index,
          CanonicalRect(Signed32(fc.minX), Signed32(fc.minY), Signed32(fc.maxX), Signed32(fc.maxY)),
          fc.flicks, fc.disposal, fc.opaqueWithin, fc.overwrite,
          Color(fc.bgR, fc.bgG, fc.bgB, fc.bgA), fc.ioPosition)
  }

  lemma {:induction false} FrameMetaRoundTrip(mem: seq<byte>, off: nat, index: u32, fc: FrameConfig)
    requires off + 48 <= |mem| && mem[off..off + 48] == EncodeFrameMeta(index, fc)
    ensures ReadFrameMeta(mem, off) == FrameOf(index, fc)
  {
    hide Words, Get32, Get64, Put64, FrameWords, FrameTail;
    var s := EncodeFrameMeta(index, fc);
    FrameWordsRead(s, index, fc);
    FrameTailRead(s, index, fc);
  }

  lemma {:induction false} FrameWordsRead(s: seq<byte>, index: u32, fc: FrameConfig)
    requires s == EncodeFrameMeta(index, fc)
    ensures Get32(s, 4) == index && Get32(s, 8) == fc.minX && Get32(s, 12) == fc.minY
    ensures Get32(s, 16) == fc.maxX && Get32(s, 20) == fc.maxY
  {
    hide Words, Get32, Put64, FrameTail;
    var ws := FrameWords(index, fc);
    var post := Put64(fc.flicks) + Put64(fc.ioPosition) + FrameTail(fc);
    assert s == [] + Words(ws) + post;
    WordAt(s, [], ws, post, 1, 4);
    WordAt(s, [], ws, post, 2, 8);
    WordAt(s, [], ws, post, 3, 12);
    WordAt(s, [], ws, post, 4, 16);
    WordAt(s, [], ws, post, 5, 20);
  }

  lemma {:induction false} FrameTailRead(s: seq<byte>, index: u32, fc: FrameConfig)
    requires s == EncodeFrameMeta(index, fc)
    ensures Get64(s, 24) == fc.flicks && Get64(s, 32) == fc.ioPosition
    ensures s[40] == fc.disposal && s[41] == (if fc.overwrite then 1 else 0)
    ensures s[42] == (if fc.opaqueWithin then 1 else 0)
    ensures s[43] == fc.bgR && s[44] == fc.bgG && s[45] == fc.bgB && s[46] == fc.bgA
  {
    hide Words, Get64, Put64, FrameWords;
    var w, t := Words(FrameWords(index, fc)), FrameTail(fc);
    var f, p := Put64(fc.flicks), Put64(fc.ioPosition);
    assert s == w + f + (p + t) && |w| == 24;
    GetPut64(w, fc.flicks, p + t);
    assert s == (w + f) + p + t;
    GetPut64(w + f, fc.ioPosition, t);
    assert forall k :: 0 <= k < 8 ==> s[40 + k] == t[k];
    assert s[40 + 0] == t[0] && s[40 + 1] == t[1] && s[40 + 2] == t[2] && s[40 + 3] == t[3];
    assert s[40 + 4] == t[4] && s[40 + 5] == t[5] && s[40 + 6] == t[6];
  }

  /** Where each field of the frame struct lies. */
  lemma {:induction false} FrameMetaLayout(index: u32, fc: FrameConfig)
    ensures var s := EncodeFrameMeta(index, fc);
            && s[0..4] == LE(0, 4) && s[4..8] == LE(index, 4)
            && s[8..12] == LE(fc.minX, 4) && s[12..16] == LE(fc.minY, 4)
            && s[16..20] == LE(fc.maxX, 4) && s[20..24] == LE(fc.maxY, 4)
            && s[24..32] == LE(fc.flicks, 8) && s[32..40] == LE(fc.ioPosition, 8)
            && s[40] == fc.disposal
            && s[41] == (if fc.overwrite then 1 else 0) && s[42] == (if fc.opaqueWithin then 1 else 0)
            && s[43..47] == [fc.bgR, fc.bgG, fc.bgB, fc.bgA]
  {
    hide LE, Words;
    var ws := FrameWords(index, fc);
    var w, f, p, t := Words(ws), Put64(fc.flicks), Put64(fc.ioPosition), FrameTail(fc);
    var s := EncodeFrameMeta(index, fc);
    assert s == w + f + p + t;
    assert s[..24] == w && s[24..32] == f && s[32..40] == p && s[40..48] == t;
    WordSlice(ws, 0, 0);
    WordSlice(ws, 1, 4);
    WordSlice(ws, 2, 8);
    WordSlice(ws, 3, 12);
    WordSlice(ws, 4, 16);
    WordSlice(ws, 5, 20);
    PrefixSlices(s, w);
    forall k | 0 <= k < 8 ensures s[40 + k] == t[k] {
      assert s[40..48][k] == t[k];
    }
    assert s[40 + 0] == t[0] && s[40 + 1] == t[1] && s[40 + 2] == t[2] && s[40 + 3] == t[3];
    assert s[40 + 4] == t[4] && s[40 + 5] == t[5] && s[40 + 6] == t[6];
  }

  lemma PrefixSlices(s: seq<byte>, w: seq<byte>)
    requires |w| == 24 && w <= s
    ensures s[0..4] == w[0..4] && s[4..8] == w[4..8] && s[8..12] == w[8..12]
    ensures s[12..16] == w[12..16] && s[16..20] == w[16..20] && s[20..24] == w[20..24]
  {}

  /** The frame a config describes, field by field; corners out of order are swapped. */
  lemma FrameFields(index: u32, fc: FrameConfig)
    ensures var f := FrameOf(index, fc);
            var x0, y0, x1, y1 := Signed32(fc.minX), Signed32(fc.minY), Signed32(fc.maxX), Signed32(fc.maxY);
            && f.index == index && f.flicks == fc.flicks && f.ioPosition == fc.ioPosition
            && f.disposal == fc.disposal && f.opaqueWithin == fc.opaqueWithin && f.overwrite == fc.overwrite
            && f.background == Color(fc.bgR, fc.bgG, fc.bgB, fc.bgA)
            && (x0 <= x1 && y0 <= y1 ==> f.bounds == Rect(x0, y0, x1, y1))
            && (x1 <= x0 && y0 <= y1 ==> f.bounds == Rect(x1, y0, x0, y1))
            && (x0 <= x1 && y1 <= y0 ==> f.bounds == Rect(x0, y1, x1, y0))
            && (x1 <= x0 && y1 <= y0 ==> f.bounds == Rect(x1, y1, x0, y0))
  {}
}
