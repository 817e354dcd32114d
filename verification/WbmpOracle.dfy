/** decode_wbmp_integration_test.go, wbmpOraclePixels: an independent reader of
    WBMP Type 0 sources whose rows of bits are aligned to byte boundaries. */
module WbmpOracle {
  import opened Bytes
  import Wbmp

  // ---- the reference varint reader ----

  /** Reads base-128 groups from i on, n already read; no shortest-form or range check. */
  function ReadGroups(src: seq<byte>, i: nat, val: nat, n: nat): (r: Option<(nat, nat)>)
    requires n <= 4
    ensures r.Some? ==> i < r.value.1 <= |src|
    decreases |src| - i
  {
    if i >= |src| || n == 4 then None
    else
      var val' := val * 128 + src[i] % 128;
      if src[i] < 0x80 then Some((val', i + 1))
      else ReadGroups(src, i + 1, val', n + 1)
  }

  function ReadDims(src: seq<byte>): Option<(nat, nat, nat)> {
    if |src| < 4 || src[0] != 0 || src[1] != 0 then None
    else match ReadGroups(src, 2, 0, 0)
      case None => None
      case Some((w, j)) =>
        match ReadGroups(src, j, 0, 0)
        case None => None
        case Some((h, k)) => Some((w, h, k))
  }

  lemma {:induction false} GroupsAgree(src: seq<byte>, i: nat, val: u32, groups: nat)
    requires groups <= 4 && val < Wbmp.Cap(groups)
    requires Wbmp.ParseGroups(src, i, val, groups).Some?
    ensures ReadGroups(src, i, val, groups) == Wbmp.ParseGroups(src, i, val, groups)
    decreases |src| - i
  {
    if src[i] >= 0x80 {
      GroupsAgree(src, i + 1, val * 128 + (src[i] - 0x80), groups + 1);
    }
  }

  /** On every header the guest's sniffer accepts, the reference reader finds the
      same dimensions and consumes the same bytes. */
  lemma {:induction false} DimsAgree(src: seq<byte>)
    requires Wbmp.ParseHeader(src).Some?
    ensures ReadDims(src) == Wbmp.ParseHeader(src)
  {
    GroupsAgree(src, 2, 0, 0);
    GroupsAgree(src, Wbmp.ParseDim(src, 2).value.1, 0, 0);
  }

  /** The reference reader takes one to four groups, in shortest form or not, and
      never a fifth. */
  lemma {:induction false} VarintCases(src: seq<byte>, i: nat)
    ensures var n := |src| - i;
            ReadGroups(src, i, 0, 0) ==
            if n >= 1 && src[i] < 0x80 then Some((src[i] as nat, i + 1))
            else if n >= 2 && src[i + 1] < 0x80 then Some(((src[i] as int - 0x80) * 0x80 + src[i + 1], i + 2))
            else if n >= 3 && src[i + 2] < 0x80 then
              Some(((src[i] as int - 0x80) * 0x4000 + (src[i + 1] as int - 0x80) * 0x80 + src[i + 2], i + 3))
            else if n >= 4 && src[i + 3] < 0x80 then
              Some(((src[i] as int - 0x80) * 0x20_0000 + (src[i + 1] as int - 0x80) * 0x4000 + (src[i + 2] as int - 0x80) * 0x80 + src[i + 3],
                    i + 4))
            else None
  {
    var n := |src| - i;
    if n >= 1 && src[i] >= 0x80 {
      var v1: nat := src[i] - 0x80;
      assert ReadGroups(src, i, 0, 0) == ReadGroups(src, i + 1, v1, 1);
      if n >= 2 && src[i + 1] >= 0x80 {
        var v2: nat := v1 * 128 + (src[i + 1] as int - 0x80);
        assert ReadGroups(src, i + 1, v1, 1) == ReadGroups(src, i + 2, v2, 2);
        if n >= 3 && src[i + 2] >= 0x80 {
          assert ReadGroups(src, i + 2, v2, 2) == ReadGroups(src, i + 3, v2 * 128 + (src[i + 2] as int - 0x80), 3);
        }
      }
    }
  }

  method ReadVarint(src: seq<byte>, start: nat) returns (r: Option<(nat, nat)>)
    ensures r == ReadGroups(src, start, 0, 0)
  {
    var i: nat, val: nat, n: nat := start, 0, 0;
    while true
      invariant n <= 4
      invariant ReadGroups(src, i, val, n) == ReadGroups(src, start, 0, 0)
      decreases |src| - i
    {
      if i >= |src| {
        return None;
      }
      var c := src[i];
      i := i + 1;
      n := n + 1;
      if n > 4 {
        return None;
      }
      val := val * 128 + c % 128;
      if c < 0x80 {
        return Some((val, i));
      }
    }
  }

  // ---- the bit unpacker ----

  function Pow2(n: nat): (p: nat)
    ensures p >= 1
  {
    if n == 0 then 1 else 2 * Pow2(n - 1)
  }

  predicate Bit(b: byte, n: nat) {
    b / Pow2(n) % 2 == 1
  }

  /** What the n lowest bits of a byte spell. */
  function BitSum(b: byte, n: nat): nat {
    if n == 0 then 0 else BitSum(b, n - 1) + (if Bit(b, n - 1) then Pow2(n - 1) else 0)
  }

  lemma NextBit(x: nat, p: nat)
    requires p > 0
    ensures x % (2 * p) == x % p + (if x / p % 2 == 1 then p else 0)
  {
    var q, r := x / p, x % p;
    var low := r + (if q % 2 == 1 then p else 0);
    assert x == q * p + r;
    assert q == 2 * (q / 2) + q % 2;
    assert x == (q / 2) * (2 * p) + low by {
      assert q * p == 2 * (q / 2) * p + q % 2 * p;
    }
    RowColumn(x, 2 * p, q / 2, low);
  }

  lemma {:induction false} LowBits(b: byte, n: nat)
    ensures BitSum(b, n) == b % Pow2(n)
    decreases n
  {
    if n > 0 {
      LowBits(b, n - 1);
      NextBit(b, Pow2(n - 1));
    }
  }

  /** The eight bits of a byte spell it. */
  lemma {:induction false} BitsSpell(b: byte)
    ensures BitSum(b, 8) == b
  {
    LowBits(b, 8);
    assert Pow2(4) == 16;
    assert Pow2(8) == 256;
  }

  /** Bytes that one row of w bits occupies. */
  function RowBytes(w: nat): nat {
    (w + 7) / 8
  }

  /** The source byte that holds pixel k of a w-wide image whose rows begin at start. */
  function BitByte(start: nat, w: nat, k: nat): nat
    requires w > 0
  {
    start + Times(k / w, RowBytes(w)) + k % w / 8
  }

  /** Pixel k is white: the most significant bit of a byte is its leftmost pixel. */
  predicate White(src: seq<byte>, start: nat, w: nat, k: nat)
    requires w > 0
  {
    BitByte(start, w, k) < |src| && Bit(src[BitByte(start, w, k)], 7 - k % w % 8)
  }

  function Rgba(white: bool): (s: seq<byte>)
    ensures |s| == 4
  {
    if white then [0xFF, 0xFF, 0xFF, 0xFF] else [0x00, 0x00, 0x00, 0xFF]
  }

  function PixelAt(pix: seq<byte>, k: nat): seq<byte>
    requires 4 * k + 4 <= |pix|
  {
    pix[4 * k..4 * k + 4]
  }

  /** Pixels 0 up to n are unpacked. */
  ghost predicate Unpacked(pix: seq<byte>, src: seq<byte>, start: nat, w: nat, n: nat) {
    && 4 * n <= |pix|
    && (n > 0 ==> w > 0)
    && forall k :: 0 <= k < n ==> PixelAt(pix, k) == Rgba(White(src, start, w, k))
  }

  lemma CursorInRow(start: nat, w: nat, y: nat, x: nat)
    requires x < w
    ensures BitByte(start, w, Times(y, w) + x) == start + Times(y, RowBytes(w)) + x / 8
    ensures (Times(y, w) + x) % w == x && x / 8 < RowBytes(w)
  {
    RowColumn(Times(y, w) + x, w, y, x);
  }

  /** Pixel (x, y) of an unpacked image: white when bit 7 - x mod 8 of byte
      y * ceil(w / 8) + x / 8 of the bits is set, opaque black when not. */
  lemma UnpackedAt(pix: seq<byte>, src: seq<byte>, start: nat, w: nat, h: nat, x: nat, y: nat)
    requires Unpacked(pix, src, start, w, Times(h, w)) && x < w && y < h
    ensures 4 * (y * w + x) + 4 <= |pix|
    ensures var at := start + y * ((w + 7) / 8) + x / 8;
            pix[4 * (y * w + x)..4 * (y * w + x) + 4]
            == if at < |src| && Bit(src[at], 7 - x % 8) then [0xFF, 0xFF, 0xFF, 0xFF] else [0, 0, 0, 0xFF]
  {
    var k := Times(y, w) + x;
    TimesNext(y, w, h);
    CursorInRow(start, w, y, x);
    assert PixelAt(pix, k) == Rgba(White(src, start, w, k));
  }

  lemma PixelReplaced(before: seq<byte>, after: seq<byte>, k: nat, rgba: seq<byte>, m: nat)
    requires |rgba| == 4 && 4 * k + 4 <= |before| == |after| && m <= k
    requires after == before[..4 * k] + rgba + before[4 * k + 4..]
    ensures PixelAt(after, m) == if m < k then PixelAt(before, m) else rgba
  {}

  lemma OnePixel(before: seq<byte>, after: seq<byte>, src: seq<byte>, start: nat, w: nat, k: nat)
    requires w > 0 && 4 * k + 4 <= |before| == |after|
    requires Unpacked(before, src, start, w, k)
    requires after == before[..4 * k] + Rgba(White(src, start, w, k)) + before[4 * k + 4..]
    ensures Unpacked(after, src, start, w, k + 1)
  {
    hide White, Rgba;
    var rgba := Rgba(White(src, start, w, k));
    forall m | 0 <= m < k + 1 ensures PixelAt(after, m) == Rgba(White(src, start, w, m)) {
      PixelReplaced(before, after, k, rgba, m);
    }
  }

  /** Fails exactly when the header does not spell the wanted dimensions or the
      bits run out; otherwise every pixel is its own bit, padding bits skipped. */
  method OraclePixels(src: seq<byte>, wantW: nat, wantH: nat) returns (r: Option<seq<byte>>)
    ensures r.Some? <==>
              && ReadDims(src).Some?
              && ReadDims(src).value.0 == wantW && ReadDims(src).value.1 == wantH
              && (wantW > 0 ==> ReadDims(src).value.2 + Times(wantH, RowBytes(wantW)) <= |src|)
    ensures r.Some? ==> |r.value| == 4 * Times(wantH, wantW)
    ensures r.Some? ==> Unpacked(r.value, src, ReadDims(src).value.2, wantW, Times(wantH, wantW))
  {
    if |src| < 4 || src[0] != 0 || src[1] != 0 {
      return None;
    }
    var first := ReadVarint(src, 2);
    if first.None? {
      return None;
    }
    var second := ReadVarint(src, first.value.1);
    if second.None? {
      return None;
    }
    if first.value.0 != wantW || second.value.0 != wantH {
      return None;
    }
    var pix := new byte[Times(wantH, wantW) * 4];
    r := Unpack(src, second.value.1, wantW, wantH, pix);
  }

  method Unpack(src: seq<byte>, start: nat, w: nat, h: nat, pix: array<byte>) returns (r: Option<seq<byte>>)
    requires pix.Length == 4 * Times(h, w) && start <= |src|
    modifies pix
    ensures r.Some? <==> (w > 0 ==> start + Times(h, RowBytes(w)) <= |src|)
    ensures r.Some? ==> |r.value| == 4 * Times(h, w) && Unpacked(r.value, src, start, w, Times(h, w))
  {
    var i := start;
    for y := 0 to h
      invariant i == start + Times(y, RowBytes(w))
      invariant w > 0 ==> i <= |src|
      invariant Unpacked(pix[..], src, start, w, Times(y, w))
    {
      TimesNext(y, w, h);
      TimesNext(y, RowBytes(w), h);
      var bit := 0;
      for x := 0 to w
        invariant i == start + Times(y, RowBytes(w)) + x / 8
        invariant bit == if x % 8 == 0 then 0 else 8 - x % 8
        invariant i <= |src| && (bit != 0 ==> i < |src|)
        invariant Unpacked(pix[..], src, start, w, Times(y, w) + x)
      {
        ghost var k := Times(y, w) + x;
        CursorInRow(start, w, y, x);
        if bit == 0 {
          if i >= |src| {
            return None;
          }
          bit := 8;
        }
        Store(pix, Times(y, w) + x, Bit(src[i], bit - 1), src, start, w);
        bit := bit - 1;
        if bit == 0 {
          i := i + 1;
        }
      }
      if bit != 0 {
        i := i + 1;
      }
    }
    r := Some(pix[..]);
  }

  /** Four bytes of one pixel. */
  method Store(pix: array<byte>, k: nat, white: bool, ghost src: seq<byte>, ghost start: nat, ghost w: nat)
    requires w > 0 && 4 * k + 4 <= pix.Length
    requires Unpacked(pix[..], src, start, w, k) && white == White(src, start, w, k)
    modifies pix
    ensures Unpacked(pix[..], src, start, w, k + 1)
  {
    var p := 4 * k;
    ghost var before := pix[..];
    if white {
      pix[p], pix[p + 1], pix[p + 2], pix[p + 3] := 0xFF, 0xFF, 0xFF, 0xFF;
    } else {
      pix[p], pix[p + 1], pix[p + 2], pix[p + 3] := 0x00, 0x00, 0x00, 0xFF;
    }
    assert pix[..] == before[..p] + Rgba(white) + before[p + 4..];
    OnePixel(before, pix[..], src, start, w, k);
  }
}
