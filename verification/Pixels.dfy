/** convert.go: the in-place pixel kernels, each against a per-byte description
    of the whole destination, and the fixed-point gray conversion. */
module Pixels {
  import opened Bytes

  /** A half-open rectangle. */
  datatype Rect = Rect(minX: int, minY: int, maxX: int, maxY: int) {
    function Dx(): int { maxX - minX }
    function Dy(): int { maxY - minY }
    predicate Empty() { minX >= maxX || minY >= maxY }
    predicate Within(width: int, height: int) {
      0 <= minX && 0 <= minY && maxX <= width && maxY <= height
    }
  }

  function Full(width: int, height: int): Rect {
    Rect(0, 0, width, height)
  }

  /** Every one of h rows of rowBytes bytes, stride apart, lies within n bytes. */
  ghost predicate RowsFit(n: int, stride: int, rowBytes: int, h: int) {
    && 0 <= rowBytes <= stride
    && forall y :: 0 <= y < h ==> 0 <= RowStart(y, stride) && RowStart(y, stride) + rowBytes <= n
  }

  function RowStart(y: int, stride: int): int {
    y * stride
  }

  lemma LastRowFits(n: int, stride: int, rowBytes: int, h: int)
    requires 0 <= rowBytes <= stride && h >= 1
    requires (h - 1) * stride + rowBytes <= n
    ensures RowsFit(n, stride, rowBytes, h)
  {
    forall y | 0 <= y < h ensures 0 <= RowStart(y, stride) && RowStart(y, stride) + rowBytes <= n {
      MulMono(y, h - 1, stride);
    }
  }

  lemma TightRowsFit(stride: int, h: int)
    requires 0 <= stride && 0 <= h
    ensures RowsFit(h * stride, stride, stride, h)
  {
    forall y | 0 <= y < h ensures 0 <= RowStart(y, stride) && RowStart(y, stride) + stride <= h * stride {
      MulMono(y + 1, h, stride);
      assert (y + 1) * stride == y * stride + stride;
    }
  }

  // ---- which bytes of a raster a rectangle covers ----

  /** Byte i of a raster lies in rows y0 up to y1 and in byte columns lo up to hi. */
  predicate Covers(i: nat, stride: int, y0: int, y1: int, lo: int, hi: int)
    requires stride > 0
  {
    y0 <= i / stride < y1 && lo <= i % stride < hi
  }

  /** The bytes that row y contributes are one run. */
  lemma RowSpan(i: nat, stride: int, y: int, lo: int, hi: int)
    requires 0 <= lo <= hi <= stride && stride > 0 && 0 <= y
    ensures Covers(i, stride, y, y + 1, lo, hi) <==> RowStart(y, stride) + lo <= i < RowStart(y, stride) + hi
    ensures Covers(i, stride, y, y + 1, lo, hi) ==> i % stride == i - RowStart(y, stride)
  {
    if RowStart(y, stride) + lo <= i < RowStart(y, stride) + hi {
      RowColumn(i, stride, y, i - RowStart(y, stride));
    }
  }

  /** Where byte i of the destination comes from in a source of another stride. */
  function SourceIndex(i: nat, stride: int, srcStride: int): int
    requires stride > 0
  {
    RowStart(i / stride, srcStride) + i % stride
  }

  // ---- row copies ----

  /** The destination after the bytes in rows y0 up to y1 and byte columns lo up
      to hi are taken from the same row and column of src; all others stay. */
  ghost predicate Copied(before: seq<byte>, after: seq<byte>, stride: int, src: seq<byte>, srcStride: int,
                         y0: int, y1: int, lo: int, hi: int)
    requires stride > 0
  {
    && |after| == |before|
    && forall i :: 0 <= i < |after| ==>
         if Covers(i, stride, y0, y1, lo, hi)
         then 0 <= SourceIndex(i, stride, srcStride) < |src| && after[i] == src[SourceIndex(i, stride, srcStride)]
         else after[i] == before[i]
  }

  /** Copying row y extends a copy of the rows above it. */
  lemma RowCopied(before: seq<byte>, mid: seq<byte>, after: seq<byte>, stride: int, src: seq<byte>, srcStride: int,
                  y0: int, y: int, lo: int, hi: int)
    requires 0 <= lo <= hi <= stride && stride > 0 && 0 <= y0 <= y
    requires Copied(before, mid, stride, src, srcStride, y0, y, lo, hi)
    requires |after| == |mid|
    requires 0 <= RowStart(y, srcStride) + lo && RowStart(y, srcStride) + hi <= |src|
    requires forall i :: 0 <= i < |after| ==>
               after[i] == if RowStart(y, stride) + lo <= i < RowStart(y, stride) + hi
                           then src[RowStart(y, srcStride) + (i - RowStart(y, stride))] else mid[i]
    ensures Copied(before, after, stride, src, srcStride, y0, y + 1, lo, hi)
  {
    forall i | 0 <= i < |after|
      ensures if Covers(i, stride, y0, y + 1, lo, hi)
              then 0 <= SourceIndex(i, stride, srcStride) < |src| && after[i] == src[SourceIndex(i, stride, srcStride)]
              else after[i] == before[i]
    {
      RowSpan(i, stride, y, lo, hi);
    }
  }

  /** copy(dst[d:d+n], src[s:s+n]). */
  method CopyBytes(dst: array<byte>, d: int, src: seq<byte>, s: int, n: int)
    requires 0 <= n && 0 <= d && d + n <= dst.Length && 0 <= s && s + n <= |src|
    modifies dst
    ensures forall i :: 0 <= i < dst.Length ==>
              dst[i] == if d <= i < d + n then src[s + (i - d)] else old(dst[i])
  {
    forall k | 0 <= k < n {
      dst[d + k] := src[s + k];
    }
  }

  /** copyScratchToRGBARegion: exactly the bytes inside bounds change, each to
      the scratch byte at the same canvas coordinate. */
  method CopyScratchToRGBARegion(dst: array<byte>, dstStride: int, src: seq<byte>, canvasWidth: int,
                                 ghost canvasHeight: int, bounds: Rect)
    requires !bounds.Empty() && bounds.Within(canvasWidth, canvasHeight)
    requires RowsFit(dst.Length, dstStride, canvasWidth * 4, canvasHeight)
    requires RowsFit(|src|, canvasWidth * 4, canvasWidth * 4, canvasHeight)
    modifies dst
    ensures Copied(old(dst[..]), dst[..], dstStride, src, canvasWidth * 4,
                   bounds.minY, bounds.maxY, bounds.minX * 4, bounds.maxX * 4)
  {
    var srcStride := canvasWidth * 4;
    var rowLen := bounds.Dx() * 4;
    ghost var before := dst[..];
    for y := bounds.minY to bounds.maxY
      invariant Copied(before, dst[..], dstStride, src, srcStride, bounds.minY, y, bounds.minX * 4, bounds.maxX * 4)
    {
      var s := RowStart(y, srcStride) + bounds.minX * 4;
      var d := RowStart(y, dstStride) + bounds.minX * 4;
      ghost var mid := dst[..];
      CopyBytes(dst, d, src, s, rowLen);
      RowCopied(before, mid, dst[..], dstStride, src, srcStride, bounds.minY, y, bounds.minX * 4, bounds.maxX * 4);
    }
  }

  /** copyScratchToNRGBA: every canvas byte is copied and every padding byte stays. */
  method CopyScratchToNRGBA(dst: array<byte>, dstStride: int, src: seq<byte>, width: int, height: int)
    requires width > 0 && height > 0
    requires RowsFit(dst.Length, dstStride, width * 4, height)
    requires RowsFit(|src|, width * 4, width * 4, height)
    modifies dst
    ensures Copied(old(dst[..]), dst[..], dstStride, src, width * 4, 0, height, 0, width * 4)
  {
    var srcStride := width * 4;
    var rowLen := width * 4;
    ghost var before := dst[..];
    for y := 0 to height
      invariant Copied(before, dst[..], dstStride, src, srcStride, 0, y, 0, rowLen)
    {
      var s := RowStart(y, srcStride);
      var d := RowStart(y, dstStride);
      ghost var mid := dst[..];
      CopyBytes(dst, d, src, s, rowLen);
      RowCopied(before, mid, dst[..], dstStride, src, srcStride, 0, y, 0, rowLen);
    }
  }

  // ---- gray conversion, in the code's fixed-width arithmetic ----

  function Wrap8(x: int): (r: byte)
    ensures 0 <= x < 0x100 ==> r == x
  {
    x % 0x100
  }

  function Wrap16(x: int): int {
    x % 0x1_0000
  }

  function Unpremultiply(c: byte, a: byte): byte
    requires a != 0
  {
    Wrap8(Wrap16(Wrap16(c) * 255) / a)
  }

  /** A channel expanded to 16 bits and scaled by alpha. */
  function Expand(c: byte, a: byte): u32 {
    Wrap32(Wrap32(c + Wrap32(c * 0x100)) * a) / 0xFF
  }

  const RED := 19595
  const GREEN := 38470
  const BLUE := 7471

  /** The JFIF luma of 16-bit channels, rounded to 8 bits (clause 7 of ITU-T T.871). */
  function Rounded(r16: u32, g16: u32, b16: u32): byte {
    Wrap8(Wrap32(Wrap32(Wrap32(Wrap32(RED * r16) + Wrap32(GREEN * g16)) + Wrap32(BLUE * b16)) + 0x8000) / 0x100_0000)
  }

  function Gray(b: byte, g: byte, r: byte, a: byte): byte {
    if a == 0 then 0
    else if a == 255 then Rounded(Expand(r, a), Expand(g, a), Expand(b, a))
    else Rounded(Expand(Unpremultiply(r, a), a), Expand(Unpremultiply(g, a), a), Expand(Unpremultiply(b, a), a))
  }

  // ---- gray conversion, against real rounding ----

  /** The same luma applied directly to premultiplied channels, in unbounded arithmetic. */
  function Luma(b: byte, g: byte, r: byte): int {
    (257 * (RED * r + GREEN * g + BLUE * b) + 0x8000) / 0x100_0000
  }

  lemma DivBelow(n: nat, a: int, k: int)
    requires a > 0
    ensures n / a <= k <==> n < (k + 1) * a
  {
    var q := n / a;
    assert q * a <= n < q * a + a;
    if q <= k {
      MulMono(q + 1, k + 1, a);
    } else {
      MulMono(k + 1, q, a);
    }
  }

  lemma Wrap8Iff(q: nat)
    ensures Wrap8(q) == q <==> q <= 255
  {}

  /** The uint8 conversion of unpremultiply truncates exactly when the channel exceeds alpha. */
  lemma UnpremultiplyExactIff(c: byte, a: byte)
    requires a != 0
    ensures Unpremultiply(c, a) == c * 255 / a <==> c <= a
  {
    var n := c * 255;
    assert Wrap16(Wrap16(c) * 255) == n;
    DivBelow(n, a, 255);
    Wrap8Iff(n / a);
  }

  lemma ExpandExact(u: byte, a: byte)
    ensures Expand(u, a) == 257 * (u * a) / 255
    ensures Expand(u, a) <= 0xFFFF
  {
    assert Wrap32(u + Wrap32(u * 0x100)) == 257 * u;
    assert 257 * u * a == 257 * (u * a);
    MulMono(u, 255, a);
    assert 0 <= u * a <= 255 * 255;
  }

  lemma Quotient(n: nat, a: int)
    requires a > 0
    ensures n / a * a <= n < n / a * a + a
  {}

  lemma NearMultiple(c: int, p: int, k: int)
    requires 0 <= k <= 253 && p <= 255 * c <= p + k
    ensures 257 * c - 255 <= 257 * p / 255 <= 257 * c
  {
    var v := 257 * p / 255;
    assert 255 * v <= 257 * p <= 255 * v + 254;
  }

  /** Unpremultiplying and scaling back loses less than one 8-bit step. */
  lemma ScaledBack(c: byte, a: byte)
    requires 0 < a < 255 && c <= a
    ensures 257 * c - 255 <= Expand(Unpremultiply(c, a), a) <= 257 * c
  {
    UnpremultiplyExactIff(c, a);
    var u := Unpremultiply(c, a);
    Quotient(c * 255, a);
    ExpandExact(u, a);
    NearMultiple(c, u * a, a - 1);
  }

  lemma OpaqueScaled(c: byte)
    ensures Expand(c, 255) == 257 * c
  {
    ExpandExact(c, 255);
  }

  lemma RoundedExact(r16: u32, g16: u32, b16: u32)
    requires r16 <= 0xFFFF && g16 <= 0xFFFF && b16 <= 0xFFFF
    ensures Rounded(r16, g16, b16) == (RED * r16 + GREEN * g16 + BLUE * b16 + 0x8000) / 0x100_0000
  {
    var sum := RED * r16 + GREEN * g16 + BLUE * b16 + 0x8000;
    assert RED * r16 + GREEN * g16 + BLUE * b16 <= 65536 * 0xFFFF;
    assert 0 <= sum <= MAX_U32;
    assert sum / 0x100_0000 <= 255;
  }

  lemma LumaAtMost(b: byte, g: byte, r: byte, a: byte)
    requires b <= a && g <= a && r <= a
    ensures 0 <= Luma(b, g, r) <= a
  {
    var s := RED * r + GREEN * g + BLUE * b;
    assert s <= 65536 * a;
    assert 257 * s + 0x8000 < 0x100_0000 * (a + 1);
  }

  /** convertBGRAToGray on a premultiplied pixel: within one step below the
      direct luma, never above alpha, and exact when opaque. */
  lemma GrayBounds(b: byte, g: byte, r: byte, a: byte)
    requires b <= a && g <= a && r <= a
    ensures Luma(b, g, r) - 1 <= Gray(b, g, r, a) <= Luma(b, g, r)
    ensures Gray(b, g, r, a) <= a
    ensures a == 255 ==> Gray(b, g, r, a) == Luma(b, g, r)
  {
    LumaAtMost(b, g, r, a);
    if a == 255 {
      OpaqueScaled(b);
      OpaqueScaled(g);
      OpaqueScaled(r);
      RoundedExact(257 * r, 257 * g, 257 * b);
    } else if a > 0 {
      ScaledBack(b, a);
      ScaledBack(g, a);
      ScaledBack(r, a);
      RoundedNear(b, g, r, Expand(Unpremultiply(b, a), a), Expand(Unpremultiply(g, a), a),
                  Expand(Unpremultiply(r, a), a));
    }
  }

  lemma RoundedNear(b: byte, g: byte, r: byte, b16: u32, g16: u32, r16: u32)
    requires 257 * b - 255 <= b16 <= 257 * b
    requires 257 * g - 255 <= g16 <= 257 * g
    requires 257 * r - 255 <= r16 <= 257 * r
    ensures Luma(b, g, r) - 1 <= Rounded(r16, g16, b16) <= Luma(b, g, r)
  {
    RoundedExact(r16, g16, b16);
    var s := 257 * (RED * r + GREEN * g + BLUE * b) + 0x8000;
    var s' := RED * r16 + GREEN * g16 + BLUE * b16 + 0x8000;
    assert s - 0x100_0000 <= s' <= s;
  }

  /** A gray opaque pixel keeps its value. */
  lemma OpaqueGrayFixed(c: byte)
    ensures Gray(c, c, c, 255) == c
  {
    GrayBounds(c, c, c, 255);
    assert 257 * (RED * c + GREEN * c + BLUE * c) + 0x8000 == 257 * 65536 * c + 0x8000;
    assert 0x100_0000 * c <= 257 * 65536 * c + 0x8000 < 0x100_0000 * (c + 1);
  }

  lemma ScaledExact(c: byte, a: byte)
    requires a > 0
    ensures Unpremultiply(c, a) == c * 255 / a % 256
    ensures Expand(Unpremultiply(c, a), a) == 257 * (c * 255 / a % 256 * a) / 255
  {
    assert Wrap16(Wrap16(c) * 255) == c * 255;
    ExpandExact(Unpremultiply(c, a), a);
  }

  /** The exact gray value of every pixel, premultiplied or not, in unbounded
      arithmetic: each channel is divided by alpha down to 8 bits, scaled back to
      16, and the weighted sum is rounded. */
  lemma GrayExact(b: byte, g: byte, r: byte, a: byte)
    ensures a == 0 ==> Gray(b, g, r, a) == 0
    ensures a > 0 ==>
              var b16 := 257 * (b * 255 / a % 256 * a) / 255;
              var g16 := 257 * (g * 255 / a % 256 * a) / 255;
              var r16 := 257 * (r * 255 / a % 256 * a) / 255;
              Gray(b, g, r, a) == (19595 * r16 + 38470 * g16 + 7471 * b16 + 32768) / 16777216
  {
    hide Expand, Unpremultiply, Rounded;
    if a > 0 {
      ScaledExact(b, a);
      ScaledExact(g, a);
      ScaledExact(r, a);
      var b', g', r' := Unpremultiply(b, a), Unpremultiply(g, a), Unpremultiply(r, a);
      ExpandExact(b', a);
      ExpandExact(g', a);
      ExpandExact(r', a);
      RoundedExact(Expand(r', a), Expand(g', a), Expand(b', a));
      if a == 255 {
        OpaqueUnchanged(b);
        OpaqueUnchanged(g);
        OpaqueUnchanged(r);
      }
    }
  }

  lemma OpaqueUnchanged(c: byte)
    ensures Unpremultiply(c, 255) == c
  {}

  /** The gray value of the pixel that destination byte i shows. */
  function GrayAt(src: seq<byte>, p: int): byte
    requires 0 <= p && p + 4 <= |src|
  {
    Gray(src[p], src[p + 1], src[p + 2], src[p + 3])
  }

  /** Where pixel column x of row y starts in the four-byte scratch. */
  function PixelStart(x: int, y: int, width: int): int {
    RowStart(y, width * 4) + x * 4
  }

  /** The destination after row y0 up to y1 in full and row y1 up to column x are converted. */
  ghost predicate Grayed(before: seq<byte>, after: seq<byte>, stride: int, src: seq<byte>, width: int, y1: int, x: int)
    requires stride > 0
  {
    && |after| == |before|
    && forall i :: 0 <= i < |after| ==>
         if Covers(i, stride, 0, y1, 0, width) || Covers(i, stride, y1, y1 + 1, 0, x)
         then var p := PixelStart(i % stride, i / stride, width);
              0 <= p && p + 4 <= |src| && after[i] == GrayAt(src, p)
         else after[i] == before[i]
  }

  lemma PixelGrayed(before: seq<byte>, mid: seq<byte>, after: seq<byte>, stride: int, src: seq<byte>, width: int,
                    y: int, x: int, di: int, si: int)
    requires 0 <= x < width <= stride && 0 <= y
    requires Grayed(before, mid, stride, src, width, y, x)
    requires di == RowStart(y, stride) + x && si == PixelStart(x, y, width)
    requires 0 <= di < |mid| && 0 <= si && si + 4 <= |src|
    requires after == mid[di := GrayAt(src, si)]
    ensures Grayed(before, after, stride, src, width, y, x + 1)
  {
    forall i | 0 <= i < |after|
      ensures if Covers(i, stride, 0, y, 0, width) || Covers(i, stride, y, y + 1, 0, x + 1)
              then var p := PixelStart(i % stride, i / stride, width);
                   0 <= p && p + 4 <= |src| && after[i] == GrayAt(src, p)
              else after[i] == before[i]
    {
      RowSpan(i, stride, y, x, x + 1);
    }
  }

  /** convertBGRAToGray: every pixel of the image is the gray of its scratch
      pixel, and every padding byte stays. */
  method ConvertBGRAToGray(dst: array<byte>, dstStride: int, src: seq<byte>, width: int, height: int)
    requires width > 0 && height > 0
    requires RowsFit(dst.Length, dstStride, width, height)
    requires RowsFit(|src|, width * 4, width * 4, height)
    modifies dst
    ensures Grayed(old(dst[..]), dst[..], dstStride, src, width, height, 0)
  {
    var srcStride := width * 4;
    ghost var before := dst[..];
    for y := 0 to height
      invariant Grayed(before, dst[..], dstStride, src, width, y, 0)
    {
      var s := RowStart(y, srcStride);
      var d := RowStart(y, dstStride);
      for x := 0 to width
        invariant Grayed(before, dst[..], dstStride, src, width, y, x)
      {
        var si := s + x * 4;
        var di := d + x;
        ghost var mid := dst[..];
        var b, g, r, a := src[si], src[si + 1], src[si + 2], src[si + 3];
        if a == 0 {
          dst[di] := 0;
        } else {
          if a != 255 {
            r := Unpremultiply(r, a);
            g := Unpremultiply(g, a);
            b := Unpremultiply(b, a);
          }
          dst[di] := Rounded(Expand(r, a), Expand(g, a), Expand(b, a));
        }
        assert dst[..] == mid[di := GrayAt(src, si)];
        PixelGrayed(before, mid, dst[..], dstStride, src, width, y, x, di, si);
      }
      RowGrayed(before, dst[..], dstStride, src, width, y);
    }
  }

  lemma RowGrayed(before: seq<byte>, after: seq<byte>, stride: int, src: seq<byte>, width: int, y: int)
    requires stride > 0 && 0 <= y && 0 <= width
    requires Grayed(before, after, stride, src, width, y, width)
    ensures Grayed(before, after, stride, src, width, y + 1, 0)
  {
    forall i | 0 <= i < |after|
      ensures Covers(i, stride, 0, y + 1, 0, width) || Covers(i, stride, y + 1, y + 2, 0, 0) <==>
              Covers(i, stride, 0, y, 0, width) || Covers(i, stride, y, y + 1, 0, width)
    {}
  }
}
