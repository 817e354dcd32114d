/** wasm/shim.c, sniff_wbmp: the WBMP Type 0 header, two zero bytes followed by
    a width and a height, each a shortest-form base-128 integer (the WAP
    uintvar of WAP-230-WSP, section 8.1.2) of at most 0xFFFFFF. */
module Wbmp {
  import opened Bytes

  const MAX_DIM := 0xFF_FFFF

  // ---- the encoding ----

  /** The continuation bytes of m, most significant group first, no leading zero group. */
  function Cont(m: nat): seq<byte> {
    if m == 0 then [] else Cont(m / 128) + [128 + m % 128]
  }

  /** The shortest base-128 encoding of v. */
  function Enc(v: nat): (s: seq<byte>)
    ensures |s| >= 1
  {
    Cont(v / 128) + [v % 128]
  }

  /** src starts with a WBMP header for w by h pixels. */
  ghost predicate StartsWith(src: seq<byte>, w: nat, h: nat) {
    && 1 <= w <= 16_777_215 && 1 <= h <= 16_777_215
    && [0, 0] + Enc(w) + Enc(h) <= src
  }

  /** The encoding written out: one byte for each seven bits, most significant
      first, the continuation bit set on all but the last. */
  lemma {:induction false} EncBytes(v: nat)
    requires v < 0x1000_0000
    ensures Enc(v) == if v < 0x80 then [v]
                      else if v < 0x4000 then [0x80 + v / 0x80, v % 0x80]
                      else if v < 0x20_0000 then [0x80 + v / 0x4000, 0x80 + v / 0x80 % 0x80, v % 0x80]
                      else [0x80 + v / 0x20_0000, 0x80 + v / 0x4000 % 0x80, 0x80 + v / 0x80 % 0x80, v % 0x80]
  {
    var q := v / 128;
    assert Cont(0) == [];
    assert v >= 0x80 ==> Cont(q) == Cont(q / 128) + [128 + q % 128];
    assert v >= 0x4000 ==> Cont(q / 128) == Cont(q / 128 / 128) + [128 + q / 128 % 128];
    assert v >= 0x20_0000 ==> Cont(q / 128 / 128) == Cont(q / 128 / 128 / 128) + [128 + q / 128 / 128 % 128];
  }

  // ---- the parser, one base-128 group at a time ----

  /** What n groups can spell: seven bits each. */
  function Cap(n: nat): nat {
    if n == 0 then 1 else if n == 1 then 0x80 else if n == 2 then 0x4000
    else if n == 3 then 0x20_0000 else 0x1000_0000
  }

  /** Reads groups from position i on, `groups` of them (worth val) already
      read; returns the integer and the position after it. */
  function ParseGroups(src: seq<byte>, i: nat, val: u32, groups: nat): (r: Option<(nat, nat)>)
    requires groups <= 4
    decreases |src| - i
  {
    if i >= |src| then None
    else
      var c := src[i];
      if groups == 4 || (groups == 0 && c == 0x80) then None
      else
        var val' := Wrap32(Wrap32(val * 128) + c % 128);
        if c >= 0x80 then ParseGroups(src, i + 1, val', groups + 1)
        else if val' == 0 || val' > MAX_DIM then None
        else Some((val', i + 1))
  }

  function ParseDim(src: seq<byte>, i: nat): Option<(nat, nat)> {
    ParseGroups(src, i, 0, 0)
  }

  /** The dimensions and the header length of a recognised source. */
  function ParseHeader(src: seq<byte>): Option<(nat, nat, nat)> {
    if |src| < 4 || src[0] != 0 || src[1] != 0 then None
    else match ParseDim(src, 2)
      case None => None
      case Some((w, j)) =>
        match ParseDim(src, j)
        case None => None
        case Some((h, k)) => Some((w, h, k))
  }

  // ---- the parser undoes the encoding, and accepts nothing else ----

  lemma {:induction false} ContStep(m: nat, d: nat)
    requires d < 128 && m * 128 + d > 0
    ensures Cont(m * 128 + d) == Cont(m) + [128 + d]
  {
    assert (m * 128 + d) / 128 == m && (m * 128 + d) % 128 == d;
  }

  lemma {:induction false} EncLast(m: nat, d: nat)
    requires d < 128
    ensures Enc(m * 128 + d) == Cont(m) + [d]
  {
    assert (m * 128 + d) / 128 == m && (m * 128 + d) % 128 == d;
  }

  lemma Regroup(head: seq<byte>, src: seq<byte>, i: nat, j: nat)
    requires i < j <= |src|
    ensures head + [src[i]] + src[i + 1..j] == head + src[i..j]
  {}

  lemma ParseStep(src: seq<byte>, i: nat, val: u32, groups: nat, digit: nat)
    requires i < |src| && groups < 4 && val < Cap(groups) && digit < 128
    requires src[i] == 128 + digit && val * 128 + digit > 0
    ensures ParseGroups(src, i, val, groups) == ParseGroups(src, i + 1, val * 128 + digit, groups + 1)
  {}

  lemma NoGroups()
    ensures Cont(0) == []
  {}

  /** Whatever ParseGroups accepts is the shortest encoding of what it returns. */
  lemma {:induction false} ParsedIsEncoded(src: seq<byte>, i: nat, val: u32, groups: nat)
    requires groups <= 4 && val < Cap(groups)
    requires groups == 0 <==> val == 0
    ensures match ParseGroups(src, i, val, groups)
            case None => true
            case Some((v, j)) =>
              i < j <= |src| && 1 <= v <= MAX_DIM && Enc(v) == Cont(val) + src[i..j]
    decreases |src| - i
  {
    hide Cont, Enc;
    assert Cont(0) == [] by {
      NoGroups();
    }
    if i < |src| && groups < 4 && !(groups == 0 && src[i] == 0x80) {
      var c := src[i];
      if c >= 0x80 {
        var val' := val * 128 + (c - 128);
        ParseStep(src, i, val, groups, c - 128);
        ParsedIsEncoded(src, i + 1, val', groups + 1);
        ContStep(val, c - 128);
        match ParseGroups(src, i + 1, val', groups + 1)
        case None =>
        case Some((v, j)) =>
          Regroup(Cont(val), src, i, j);
      } else {
        EncLast(val, c);
        assert src[i..i + 1] == [c];
      }
    }
  }

  lemma {:induction false} ContSize(m: nat, k: nat)
    requires k <= 3 && m < Cap(k)
    ensures |Cont(m)| <= k && m < Cap(|Cont(m)|)
    ensures |Cont(m)| == 0 <==> m == 0
    decreases k
  {
    if m > 0 {
      ContSize(m / 128, k - 1);
    }
  }

  lemma {:induction false} ContSplit(m: nat) returns (q: nat, d: nat)
    requires 0 < m
    ensures d < 128 && m == q * 128 + d && q < m
    ensures Cont(m) == Cont(q) + [128 + d]
    ensures m < Cap(3) ==> q < Cap(2)
  {
    q, d := m / 128, m % 128;
  }

  /** Reading all the continuation bytes of m accumulates m. */
  lemma {:induction false} ParseCont(src: seq<byte>, i: nat, m: nat)
    requires m < Cap(3)
    requires i + |Cont(m)| <= |src| && src[i..i + |Cont(m)|] == Cont(m)
    ensures |Cont(m)| <= 3 && ParseDim(src, i) == ParseGroups(src, i + |Cont(m)|, m, |Cont(m)|)
    decreases m
  {
    ContSize(m, 3);
    if m > 0 {
      var q, d := ContSplit(m);
      var k := |Cont(q)|;
      SplitLast(src, i, Cont(q), 128 + d);
      ParseCont(src, i, q);
      ContSize(q, 2);
      ParseStep(src, i + k, q, k, d);
    }
  }

  /** Reading back an encoded dimension, whatever follows it. */
  lemma {:induction false} ParseEncoded(src: seq<byte>, i: nat, v: nat)
    requires 1 <= v <= MAX_DIM
    requires i + |Enc(v)| <= |src| && src[i..i + |Enc(v)|] == Enc(v)
    ensures ParseDim(src, i) == Some((v, i + |Enc(v)|))
  {
    var front := Cont(v / 128);
    var k := |front|;
    SplitLast(src, i, front, v % 128);
    ParseCont(src, i, v / 128);
    ContSize(v / 128, 3);
  }

  lemma {:induction false} EncodedParses(src: seq<byte>, w: nat, h: nat)
    requires StartsWith(src, w, h)
    ensures ParseHeader(src) == Some((w, h, 2 + |Enc(w)| + |Enc(h)|))
  {
    var ew, eh := Enc(w), Enc(h);
    var head := [0, 0] + ew + eh;
    var j := 2 + |ew|;
    var k := j + |eh|;
    assert src[..k] == head;
    assert src[2..j] == src[..k][2..j] == ew;
    assert src[j..k] == src[..k][j..k] == eh;
    assert src[0] == src[..k][0] && src[1] == src[..k][1];
    ParseEncoded(src, 2, w);
    ParseEncoded(src, j, h);
  }

  lemma {:induction false} ParsedStarts(src: seq<byte>)
    ensures ParseHeader(src).Some? ==> StartsWith(src, ParseHeader(src).value.0, ParseHeader(src).value.1)
  {
    hide ParseGroups, Cont, Enc;
    match ParseHeader(src)
    case None =>
    case Some((w, h, k)) =>
      ParsedIsEncoded(src, 2, 0, 0);
      var j := ParseDim(src, 2).value.1;
      ParsedIsEncoded(src, j, 0, 0);
      NoGroups();
      assert Enc(w) == src[2..j] && Enc(h) == src[j..k];
      assert src[..k] == [0, 0] + src[2..j] + src[j..k];
  }

  /** The parser accepts w by h exactly when src starts with their encoding:
      at most one pair of dimensions, read back whatever bytes follow. */
  lemma {:induction false} HeaderExactlyCanonical(src: seq<byte>, w: nat, h: nat)
    ensures StartsWith(src, w, h) <==>
            ParseHeader(src).Some? && ParseHeader(src).value.0 == w && ParseHeader(src).value.1 == h
    ensures StartsWith(src, w, h) ==> ParseHeader(src) == Some((w, h, 2 + |Enc(w)| + |Enc(h)|))
  {
    if StartsWith(src, w, h) {
      EncodedParses(src, w, h);
    }
    ParsedStarts(src);
  }

  /** Recognition does not look past the header. */
  lemma {:induction false} HeaderExtends(src: seq<byte>, tail: seq<byte>)
    requires ParseHeader(src).Some?
    ensures ParseHeader(src + tail) == ParseHeader(src)
  {
    var (w, h, k) := ParseHeader(src).value;
    HeaderExactlyCanonical(src, w, h);
    assert StartsWith(src + tail, w, h);
    HeaderExactlyCanonical(src + tail, w, h);
  }

  /** A source is recognised exactly when some pair of dimensions heads it. */
  lemma {:induction false} RecognisesExactlyHeaders(src: seq<byte>)
    ensures ParseHeader(src).Some? <==> exists w: nat, h: nat :: StartsWith(src, w, h)
  {
    if ParseHeader(src).Some? {
      HeaderExactlyCanonical(src, ParseHeader(src).value.0, ParseHeader(src).value.1);
    } else {
      forall w: nat, h: nat ensures !StartsWith(src, w, h) {
        HeaderExactlyCanonical(src, w, h);
      }
    }
  }

  // ---- sniff_wbmp ----

  /** The accumulator stays within 28 bits, so the uint32 shift drops nothing. */
  lemma Accumulated(val: u32, groups: nat, digit: nat)
    requires groups < 4 && val < Cap(groups) && digit < 128
    ensures Wrap32(val * 128) + digit == val * 128 + digit < Cap(groups + 1) <= 0x1000_0000
  {}

  lemma NoCap()
    ensures Cap(0) == 1
  {}

  /** The inner loop: one dimension, group by group. */
  method ReadDim(src: seq<byte>, start: nat) returns (r: Option<(nat, nat)>)
    requires start <= |src|
    ensures r == ParseDim(src, start)
    ensures r.Some? ==> start < r.value.1 <= |src|
  {
    hide Cap;
    NoCap();
    var i := start;
    var val: u32, groups: nat := 0, 0;
    while true
      invariant start <= i <= |src| && groups <= 4 && val < Cap(groups)
      invariant ParseGroups(src, i, val, groups) == ParseDim(src, start)
      decreases |src| - i
    {
      if i >= |src| {
        return None;
      }
      var c := src[i];
      i := i + 1;
      groups := groups + 1;
      if groups > 4 {
        return None;
      }
      if groups == 1 && c == 0x80 {
        return None;
      }
      Accumulated(val, groups - 1, c % 128);
      val := Wrap32(val * 128) + c % 128;
      if c < 0x80 {
        if val == 0 || val > MAX_DIM {
          return None;
        }
        return Some((val as nat, i));
      }
    }
  }

  method Sniff(src: seq<byte>) returns (ok: bool)
    ensures ok <==> ParseHeader(src).Some?
    ensures ok <==> exists w: nat, h: nat :: StartsWith(src, w, h)
  {
    RecognisesExactlyHeaders(src);
    if |src| < 4 || src[0] != 0 || src[1] != 0 {
      return false;
    }
    hide ParseDim, StartsWith;
    var i := 2;
    for dim := 0 to 2
      invariant 2 <= i <= |src|
      invariant dim == 0 ==> i == 2
      invariant dim == 1 ==> ParseDim(src, 2).Some? && i == ParseDim(src, 2).value.1
      invariant dim == 2 ==> ParseHeader(src).Some?
    {
      var d := ReadDim(src, i);
      if d.None? {
        return false;
      }
      i := d.value.1;
    }
    return true;
  }
}
