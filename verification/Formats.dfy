/** wasm/shim.c: which of the thirteen formats a source is, decided by an
    ordered chain of recognisers. */
module Formats {
  import opened Bytes
  import Tga
  import Wbmp

  datatype Format = BMP | PNG | JPEG | GIF | WEBP | QOI | NIE | NPBM | ETC2 | TH | TGA | WBMP | HNSM

  /** The FourCC the guest reports for a format. */
  function Code(f: Format): u32 {
    match f
    case BMP => 0x424D5020
    case PNG => 0x504E4720
    case JPEG => 0x4A504547
    case GIF => 0x47494620
    case WEBP => 0x57454250
    case QOI => 0x514F4920
    case NIE => 0x4E494520
    case NPBM => 0x4E50424D
    case ETC2 => 0x45544332
    case TH => 0x54482020
    case TGA => 0x54474120
    case WBMP => 0x57424D50
    case HNSM => 0x484E534D
  }

  // ---- the recognisers ----

  predicate IsBmp(src: seq<byte>) {
    |src| >= 2 && src[0] == 0x42 && src[1] == 0x4D
  }

  predicate IsPng(src: seq<byte>) {
    |src| >= 8 && src[..8] == [0x89, 0x50, 0x4E, 0x47, 0x0D, 0x0A, 0x1A, 0x0A]
  }

  predicate IsJpeg(src: seq<byte>) {
    |src| >= 3 && src[0] == 0xFF && src[1] == 0xD8 && src[2] == 0xFF
  }

  predicate IsGif(src: seq<byte>) {
    && |src| >= 6
    && src[0] == 0x47 && src[1] == 0x49 && src[2] == 0x46 && src[3] == 0x38
    && (src[4] == 0x37 || src[4] == 0x39) && src[5] == 0x61
  }

  predicate IsWebp(src: seq<byte>) {
    && |src| >= 12
    && src[..4] == [0x52, 0x49, 0x46, 0x46]
    && src[8..12] == [0x57, 0x45, 0x42, 0x50]
  }

  predicate IsQoi(src: seq<byte>) {
    |src| >= 4 && src[0] == 0x71 && src[1] == 0x6F && src[2] == 0x69 && src[3] == 0x66
  }

  predicate IsNie(src: seq<byte>) {
    |src| >= 4 && src[0] == 0x6E && src[1] == 0xC3 && src[2] == 0xAF && (src[3] == 0x45 || src[3] == 0x41)
  }

  predicate IsNpbm(src: seq<byte>) {
    || (|src| >= 4 && src[0] == 0x50 && 0x31 <= src[1] <= 0x36
        && (src[2] == 0x20 || src[2] == 0x0A || src[2] == 0x0D || src[2] == 0x09))
    || (|src| >= 2 && src[0] == 0x50 && src[1] == 0x36)
  }

  predicate IsEtc2(src: seq<byte>) {
    |src| >= 4 && src[0] == 0x50 && src[1] == 0x4B && src[2] == 0x4D && src[3] == 0x20
  }

  predicate IsTh(src: seq<byte>) {
    |src| >= 3 && src[0] == 0xC3 && src[1] == 0xBE && src[2] == 0xFE
  }

  const HNSM_TOP := 0x7F6B

  /** The packed 24-bit Handsum header: 15 prefix bits, 2 colour bits, 2 quality bits, 5 geometry bits. */
  predicate IsHnsm(src: seq<byte>) {
    |src| >= 3 &&
    var c32 := Be24(src[0], src[1], src[2]);
    && c32 / 0x200 == HNSM_TOP
    && c32 / 0x80 % 4 != 1
    && c32 % 0x20 != 0x1F
  }

  predicate IsWbmp(src: seq<byte>) {
    Wbmp.ParseHeader(src).Some?
  }

  predicate Recognises(f: Format, src: seq<byte>) {
    match f
    case BMP => IsBmp(src)
    case PNG => IsPng(src)
    case JPEG => IsJpeg(src)
    case GIF => IsGif(src)
    case WEBP => IsWebp(src)
    case QOI => IsQoi(src)
    case NIE => IsNie(src)
    case NPBM => IsNpbm(src)
    case ETC2 => IsEtc2(src)
    case TH => IsTh(src)
    case TGA => Tga.Accepts(src)
    case WBMP => IsWbmp(src)
    case HNSM => IsHnsm(src)
  }

  /** sniff_fourcc: the first recogniser in this order decides; 0 when none accepts. */
  function Sniff(src: seq<byte>): u32 {
    if IsBmp(src) then Code(BMP)
    else if IsPng(src) then Code(PNG)
    else if IsJpeg(src) then Code(JPEG)
    else if IsGif(src) then Code(GIF)
    else if IsWebp(src) then Code(WEBP)
    else if IsQoi(src) then Code(QOI)
    else if IsNie(src) then Code(NIE)
    else if IsNpbm(src) then Code(NPBM)
    else if IsEtc2(src) then Code(ETC2)
    else if IsTh(src) then Code(TH)
    else if Tga.Accepts(src) then Code(TGA)
    else if IsWbmp(src) then Code(WBMP)
    else if IsHnsm(src) then Code(HNSM)
    else 0
  }

  // ---- the recognisers never compete ----

  /** What the first two bytes of a recognised source look like. */
  lemma Leading(f: Format, src: seq<byte>)
    requires Recognises(f, src)
    ensures |src| >= 2
    ensures match f
            case BMP => src[0] == 0x42
            case PNG => src[0] == 0x89
            case JPEG => src[0] == 0xFF
            case GIF => src[0] == 0x47
            case WEBP => src[0] == 0x52
            case QOI => src[0] == 0x71
            case NIE => src[0] == 0x6E
            case NPBM => src[0] == 0x50 && src[1] <= 0x36
            case ETC2 => src[0] == 0x50 && src[1] == 0x4B
            case TH => src[0] == 0xC3
            case TGA => src[1] <= 1
            case WBMP => src[0] == 0 && src[1] == 0
            case HNSM => src[0] == 0xFE && 0xD6 <= src[1] <= 0xD7
    ensures !f.TGA? && !f.WBMP? ==> src[1] > 1
  {
    match f
    case PNG => assert src[..8][0] == src[0] && src[..8][1] == src[1];
    case WEBP => assert src[..4][0] == src[0] && src[..4][1] == src[1];
    case _ =>
  }

  /** Every TGA header that starts with two zero bytes spells a zero height for WBMP. */
  lemma TgaIsNotWbmp(src: seq<byte>)
    requires Tga.Accepts(src)
    ensures !IsWbmp(src)
  {
    if src[0] == 0 && src[1] == 0 {
      assert Wbmp.ParseDim(src, 2) == Some((src[2] as nat, 3));
      assert Wbmp.ParseDim(src, 3) == None;
    }
  }

  lemma RecognisersDisjoint(f: Format, g: Format, src: seq<byte>)
    requires Recognises(f, src) && Recognises(g, src)
    ensures f == g
  {
    Leading(f, src);
    Leading(g, src);
    if f.TGA? || g.TGA? {
      TgaIsNotWbmp(src);
    }
  }

  lemma CodesDistinct(f: Format, g: Format)
    ensures Code(f) != 0
    ensures Code(f) == Code(g) ==> f == g
  {}

  // ---- the recognisers and codes, spelled in ASCII ----

  /** The bytes of an ASCII string. */
  function Ascii(s: string): (b: seq<byte>)
    requires forall i :: 0 <= i < |s| ==> s[i] < 128 as char
    ensures |b| == |s|
  {
    seq(|s|, i requires 0 <= i < |s| => s[i] as int)
  }

  /** Four ASCII letters as a FourCC, most significant first. */
  function FourCC(s: string): int
    requires |s| == 4
  {
    ((s[0] as int * 256 + s[1] as int) * 256 + s[2] as int) * 256 + s[3] as int
  }

  lemma CodesSpell(f: Format)
    ensures Code(f) == FourCC(match f
                              case BMP => "BMP " case PNG => "PNG " case JPEG => "JPEG" case GIF => "GIF "
                              case WEBP => "WEBP" case QOI => "QOI " case NIE => "NIE " case NPBM => "NPBM"
                              case ETC2 => "ETC2" case TH => "TH  " case TGA => "TGA " case WBMP => "WBMP"
                              case HNSM => "HNSM")
  {}

  /** The prefix recognisers, each by what a source must start with. */
  lemma PrefixesSpell(src: seq<byte>)
    ensures IsBmp(src) <==> Ascii("BM") <= src
    ensures IsJpeg(src) <==> [0xFF, 0xD8, 0xFF] <= src
    ensures IsGif(src) <==> Ascii("GIF87a") <= src || Ascii("GIF89a") <= src
    ensures IsQoi(src) <==> Ascii("qoif") <= src
    ensures IsEtc2(src) <==> Ascii("PKM ") <= src
    ensures IsTh(src) <==> [0xC3, 0xBE, 0xFE] <= src
  {}

  lemma LongPrefixesSpell(src: seq<byte>)
    ensures IsPng(src) <==> [0x89] + Ascii("PNG") + [13, 10, 26, 10] <= src
    ensures IsWebp(src) <==> |src| >= 12 && Ascii("RIFF") <= src && Ascii("WEBP") <= src[8..]
    ensures IsNie(src) <==> [0x6E, 0xC3, 0xAF] + Ascii("E") <= src || [0x6E, 0xC3, 0xAF] + Ascii("A") <= src
  {
    if |src| >= 12 {
      assert src[8..][..4] == src[8..12];
    }
  }

  /** A netpbm source: "P6", or "P1" to "P5" and white space before a fourth byte. */
  lemma NetpbmSpells(src: seq<byte>)
    ensures IsNpbm(src) <==>
            || Ascii("P6") <= src
            || (&& |src| >= 4 && src[0] == 0x50 && src[1] in {0x31, 0x32, 0x33, 0x34, 0x35}
                && src[2] in {9, 10, 13, 32})
  {}

  /** The order of the chain is irrelevant: a source gets a format's code exactly
      when that format's own recogniser accepts it. */
  lemma SniffIffRecognises(f: Format, src: seq<byte>)
    ensures Sniff(src) == Code(f) <==> Recognises(f, src)
  {
    if Recognises(f, src) {
      forall g | Recognises(g, src) ensures g == f {
        RecognisersDisjoint(f, g, src);
      }
      assert forall g: Format :: g != f ==> !Recognises(g, src);
      SniffSole(f, src);
    } else {
      var g := SniffWitness(src);
      CodesDistinct(f, g);
    }
  }

  lemma SniffSole(f: Format, src: seq<byte>)
    requires Recognises(f, src)
    requires forall g: Format :: g != f ==> !Recognises(g, src)
    ensures Sniff(src) == Code(f)
  {
    hide IsBmp, IsPng, IsJpeg, IsGif, IsWebp, IsQoi, IsNie, IsNpbm, IsEtc2, IsTh, Tga.Accepts, IsWbmp, IsHnsm;
    assert forall g: Format :: Recognises(g, src) <==> g == f;
    assert Recognises(BMP, src) <==> IsBmp(src);
    assert Recognises(PNG, src) <==> IsPng(src);
    assert Recognises(JPEG, src) <==> IsJpeg(src);
    assert Recognises(GIF, src) <==> IsGif(src);
    assert Recognises(WEBP, src) <==> IsWebp(src);
    assert Recognises(QOI, src) <==> IsQoi(src);
    assert Recognises(NIE, src) <==> IsNie(src);
    assert Recognises(NPBM, src) <==> IsNpbm(src);
    assert Recognises(ETC2, src) <==> IsEtc2(src);
    assert Recognises(TH, src) <==> IsTh(src);
    assert Recognises(TGA, src) <==> Tga.Accepts(src);
    assert Recognises(WBMP, src) <==> IsWbmp(src);
    assert Recognises(HNSM, src) <==> IsHnsm(src);
  }

  /** A nonzero code is the code of a format whose recogniser accepts the source. */
  lemma SniffWitness(src: seq<byte>) returns (g: Format)
    ensures Sniff(src) != 0 ==> Sniff(src) == Code(g) && Recognises(g, src)
  {
    g := if IsBmp(src) then BMP
         else if IsPng(src) then PNG
         else if IsJpeg(src) then JPEG
         else if IsGif(src) then GIF
         else if IsWebp(src) then WEBP
         else if IsQoi(src) then QOI
         else if IsNie(src) then NIE
         else if IsNpbm(src) then NPBM
         else if IsEtc2(src) then ETC2
         else if IsTh(src) then TH
         else if Tga.Accepts(src) then TGA
         else if IsWbmp(src) then WBMP
         else HNSM;
  }

  lemma RecognisesExtends(f: Format, src: seq<byte>, tail: seq<byte>)
    requires Recognises(f, src)
    ensures Recognises(f, src + tail)
  {
    var longer := src + tail;
    match f
    case PNG => assert longer[..8] == src[..8];
    case WEBP => assert longer[..4] == src[..4] && longer[8..12] == src[8..12];
    case WBMP => Wbmp.HeaderExtends(src, tail);
    case _ =>
  }

  /** A recognised source keeps its format however many bytes follow. */
  lemma SniffExtends(src: seq<byte>, tail: seq<byte>)
    requires Sniff(src) != 0
    ensures Sniff(src + tail) == Sniff(src)
  {
    var f := SniffWitness(src);
    RecognisesExtends(f, src, tail);
    SniffIffRecognises(f, src + tail);
  }

  // ---- find_decoder ----

  const DECODERS: seq<Format> :=
    [BMP, ETC2, GIF, HNSM, JPEG, NIE, NPBM, PNG, QOI, TGA, TH, WBMP, WEBP]

  /** find_decoder over k_decoders: the table holds a decoder for every code
      sniff_fourcc reports, and none for 0. */
  method FindDecoder(fourcc: u32) returns (slot: Option<Format>)
    ensures slot.Some? ==> Code(slot.value) == fourcc
    ensures slot.None? <==> forall f: Format :: Code(f) != fourcc
  {
    for i := 0 to |DECODERS|
      invariant forall k :: 0 <= k < i ==> Code(DECODERS[k]) != fourcc
    {
      if Code(DECODERS[i]) == fourcc {
        return Some(DECODERS[i]);
      }
    }
    forall f: Format ensures Code(f) != fourcc {
      TableComplete(f);
    }
    return None;
  }

  lemma TableComplete(f: Format)
    ensures f in DECODERS
  {
    assert DECODERS[0] == BMP && DECODERS[1] == ETC2 && DECODERS[2] == GIF && DECODERS[3] == HNSM;
    assert DECODERS[4] == JPEG && DECODERS[5] == NIE && DECODERS[6] == NPBM && DECODERS[7] == PNG;
    assert DECODERS[8] == QOI && DECODERS[9] == TGA && DECODERS[10] == TH && DECODERS[11] == WBMP;
    assert DECODERS[12] == WEBP;
  }
}
