/** registration.go: the catalogue of magic prefixes submitted to the standard
    image registry, and how it agrees with the guest's own recognisers. */
module Registry {
  import opened Bytes
  import opened Formats
  import Tga
  import Wbmp

  datatype Entry = Entry(name: string, magic: seq<byte>)

  /** adapter.go, formatName: the canonical name of a format. */
  function Name(f: Format): string {
    match f
    case ETC2 => "etc2"
    case HNSM => "hnsm"
    case NIE => "nie"
    case PNG => "png"
    case WEBP => "webp"
    case BMP => "bmp"
    case GIF => "gif"
    case JPEG => "jpeg"
    case NPBM => "npbm"
    case QOI => "qoi"
    case TGA => "tga"
    case TH => "th"
    case WBMP => "wbmp"
  }

  /** A letter of a FourCC that spells a lower-case name, padded with spaces. */
  function Capital(s: string, i: nat): int {
    if i >= |s| then 32 else if 'a' <= s[i] <= 'z' then s[i] as int - 32 else s[i] as int
  }

  /** A format's name is its FourCC in lower case without the padding. */
  lemma NamesSpellCodes(f: Format)
    ensures |Name(f)| <= 4
    ensures Code(f) ==
            ((Capital(Name(f), 0) * 256 + Capital(Name(f), 1)) * 256 + Capital(Name(f), 2)) * 256 + Capital(Name(f), 3)
    ensures forall i :: 0 <= i < |Name(f)| ==> !('A' <= Name(f)[i] <= 'Z') && Name(f)[i] != ' '
  {}

  const WILD := 0x3F // '?'

  const PNG_MAGIC: seq<byte> := [0x89, 0x50, 0x4E, 0x47, 0x0D, 0x0A, 0x1A, 0x0A]
  const WEBP_MAGIC: seq<byte> := [0x52, 0x49, 0x46, 0x46, WILD, WILD, WILD, WILD, 0x57, 0x45, 0x42, 0x50]
  const BMP_MAGIC: seq<byte> := [0x42, 0x4D]
  const GIF_MAGIC: seq<byte> := [0x47, 0x49, 0x46, 0x38]
  const JPEG_MAGIC: seq<byte> := [0xFF, 0xD8, 0xFF]
  const QOI_MAGIC: seq<byte> := [0x71, 0x6F, 0x69, 0x66]
  const ETC2_MAGIC: seq<byte> := [0x50, 0x4B, 0x4D, 0x20]
  const NIE_MAGIC: seq<byte> := [0x6E, 0xC3, 0xAF, 0x45]
  const TH_MAGIC: seq<byte> := [0xC3, 0xBE, 0xFE]
  const GRAY_MAGIC: seq<byte> := [0x50, 0x35]
  const COLOR_MAGIC: seq<byte> := [0x50, 0x36]
  const WBMP_MUYBRIDGE: seq<byte> := [0x00, 0x00, 0x1E, 0x14]
  const WBMP_BRICKS: seq<byte> := [0x00, 0x00, 0x81, 0x20, 0x78]
  const TGA_COLOR: seq<byte> :=
    [0x00, 0x00, 0x02, 0x00, 0x00, 0x00, 0x00, 0x00, 0x00, 0x00, 0x00, 0x00, 0xA0, 0x00, 0x78, 0x00, 0x18, 0x20]
  const TGA_NODITHER: seq<byte> :=
    [0x00, 0x01, 0x01, 0x00, 0x00, 0x00, 0x01, 0x18, 0x00, 0x00, 0x00, 0x00, 0xA0, 0x00, 0x78, 0x00, 0x08, 0x20]
  const TGA_GRAY: seq<byte> :=
    [0x00, 0x00, 0x0B, 0x00, 0x00, 0x00, 0x00, 0x00, 0x00, 0x00, 0x00, 0x00, 0xA0, 0x00, 0x78, 0x00, 0x08, 0x20]

  /** The literal part of the catalogue, in registration order. */
  const LITERALS: seq<Entry> := [
    Entry(Name(PNG), PNG_MAGIC),
    Entry(Name(WEBP), WEBP_MAGIC),
    Entry(Name(BMP), BMP_MAGIC),
    Entry(Name(GIF), GIF_MAGIC),
    Entry(Name(JPEG), JPEG_MAGIC),
    Entry(Name(QOI), QOI_MAGIC),
    Entry(Name(ETC2), ETC2_MAGIC),
    Entry(Name(NIE), NIE_MAGIC),
    Entry(Name(TH), TH_MAGIC),
    Entry(Name(NPBM), GRAY_MAGIC),
    Entry(Name(NPBM), COLOR_MAGIC),
    Entry(Name(WBMP), WBMP_MUYBRIDGE),
    Entry(Name(WBMP), WBMP_BRICKS),
    Entry(Name(TGA), TGA_COLOR),
    Entry(Name(TGA), TGA_NODITHER),
    Entry(Name(TGA), TGA_GRAY)
  ]

  /** The image registry's match: each magic byte equals the source byte or is the wildcard. */
  predicate Matches(magic: seq<byte>, src: seq<byte>) {
    |magic| <= |src| && forall i :: 0 <= i < |magic| ==> magic[i] == WILD || magic[i] == src[i]
  }

  /** The registry is first-match-wins. */
  function FirstMatch(catalogue: seq<Entry>, src: seq<byte>): (r: Option<Entry>)
    ensures r.Some? ==> r.value in catalogue && Matches(r.value.magic, src)
    ensures r.None? ==> forall e :: e in catalogue ==> !Matches(e.magic, src)
  {
    if |catalogue| == 0 then None
    else if Matches(catalogue[0].magic, src) then Some(catalogue[0])
    else FirstMatch(catalogue[1..], src)
  }

  // ---- Handsum magics ----

  const COLORS: seq<byte> := [0, 2, 3]
  const MAX_QUALITY := 3
  const MAX_GEOMETRY := 30

  predicate Accepted(color: byte, quality: byte, geom: byte) {
    color in COLORS && quality <= MAX_QUALITY && geom <= MAX_GEOMETRY
  }

  /** hnsmMagic: the packed header as three big-endian bytes. */
  function HnsmMagic(color: byte, quality: byte, geom: byte): (s: seq<byte>)
    requires Accepted(color, quality, geom)
    ensures |s| == 3
  {
    var v: int := HNSM_TOP * 0x200 + Low9(color, quality, geom);
    [v / 0x1_0000 % 0x100, v / 0x100 % 0x100, v % 0x100]
  }

  /** The nine variable bits of the header. */
  function Low9(color: int, quality: int, geom: int): int {
    color * 0x80 + quality * 0x20 + geom
  }

  lemma Unpack(v: int, a: byte, b: byte, c: byte)
    requires v == Be24(a, b, c)
    ensures v / 0x1_0000 % 0x100 == a && v / 0x100 % 0x100 == b && v % 0x100 == c
  {
    assert v / 0x1_0000 == a;
    assert v / 0x100 == a * 0x100 + b;
  }

  lemma HnsmMagicBytes(color: byte, quality: byte, geom: byte)
    requires Accepted(color, quality, geom)
    ensures HnsmMagic(color, quality, geom) ==
            [0xFE, if color >= 2 then 0xD7 else 0xD6,
             (if color == 3 then 0x80 else 0) + quality * 0x20 + geom]
  {
    assert COLORS[0] == 0 && COLORS[1] == 2 && COLORS[2] == 3;
    Unpack(HNSM_TOP * 0x200 + Low9(color, quality, geom), 0xFE, if color >= 2 then 0xD7 else 0xD6,
           (if color == 3 then 0x80 else 0) + quality * 0x20 + geom);
  }

  lemma HnsmBytes(src: seq<byte>)
    ensures IsHnsm(src) <==>
              && |src| >= 3 && src[0] == 0xFE && (src[1] == 0xD6 || src[1] == 0xD7)
              && !(src[1] == 0xD6 && src[2] >= 0x80)
              && src[2] % 0x20 != 0x1F
  {
    if |src| >= 3 {
      PackedBits(src[0], src[1], src[2], Be24(src[0], src[1], src[2]));
    }
  }

  lemma TopBits(a: byte, b: byte, c: byte, c32: int)
    requires c32 == Be24(a, b, c)
    ensures c32 / 0x200 == HNSM_TOP <==> a == 0xFE && (b == 0xD6 || b == 0xD7)
  {
    assert c32 / 0x200 == HNSM_TOP <==> HNSM_TOP * 0x200 <= c32 < (HNSM_TOP + 1) * 0x200;
  }

  lemma GeometryBits(k: int, c: int)
    ensures (k * 0x20 + c) % 0x20 == c % 0x20
  {}

  lemma ColorBits(b: byte, c: byte, c32: int)
    requires c32 == Be24(0xFE, b, c) && (b == 0xD6 || b == 0xD7)
    ensures c32 / 0x80 % 4 == (if b == 0xD7 then 2 else 0) + (if c >= 0x80 then 1 else 0)
  {
    assert c32 / 0x80 == HNSM_TOP * 4 + (if b == 0xD7 then 2 else 0) + (if c >= 0x80 then 1 else 0);
  }

  /** The bit fields of a 24-bit header, byte by byte. */
  lemma PackedBits(a: byte, b: byte, c: byte, c32: int)
    requires c32 == Be24(a, b, c)
    ensures c32 / 0x200 == HNSM_TOP <==> a == 0xFE && (b == 0xD6 || b == 0xD7)
    ensures c32 / 0x200 == HNSM_TOP ==>
              c32 / 0x80 % 4 == (if b == 0xD7 then 2 else 0) + (if c >= 0x80 then 1 else 0)
    ensures c32 % 0x20 == c % 0x20
  {
    TopBits(a, b, c, c32);
    GeometryBits(a * 0x800 + b * 8, c);
    if c32 / 0x200 == HNSM_TOP {
      ColorBits(b, c, c32);
    }
  }

  /** The fields of an accepted header. */
  function Fields(src: seq<byte>): (byte, byte, byte)
    requires |src| >= 3
  {
    var color: byte := if src[1] == 0xD6 then 0 else if src[2] < 0x80 then 2 else 3;
    var low := if src[2] < 0x80 then src[2] else src[2] - 0x80;
    (color, low / 0x20, low % 0x20)
  }

  lemma LowBits(x: byte)
    ensures var low := if x < 0x80 then x else x - 0x80;
            low / 0x20 <= MAX_QUALITY && low % 0x20 == x % 0x20 && low == low / 0x20 * 0x20 + low % 0x20
  {}

  lemma FieldsRebuild(src: seq<byte>)
    requires IsHnsm(src)
    ensures var (c, q, g) := Fields(src); Accepted(c, q, g) && HnsmMagic(c, q, g) == src[..3]
  {
    HnsmBytes(src);
    var (c, q, g) := Fields(src);
    LowBits(src[2]);
    assert c in COLORS by {
      assert COLORS[0] == 0 && COLORS[1] == 2 && COLORS[2] == 3;
    }
    HnsmMagicBytes(c, q, g);
  }

  /** sniff_hnsm accepts exactly the sources that start with a packed header
      of an accepted colour, quality and geometry. */
  lemma HnsmExactlyPacked(src: seq<byte>)
    ensures IsHnsm(src) <==>
            exists c: byte, q: byte, g: byte :: Accepted(c, q, g) && HnsmMagic(c, q, g) <= src
  {
    if IsHnsm(src) {
      FieldsRebuild(src);
      var (c, q, g) := Fields(src);
      assert HnsmMagic(c, q, g) <= src;
    }
    forall c: byte, q: byte, g: byte | Accepted(c, q, g) && HnsmMagic(c, q, g) <= src ensures IsHnsm(src) {
      HnsmMagicBytes(c, q, g);
      var m := HnsmMagic(c, q, g);
      assert src[0] == m[0] && src[1] == m[1] && src[2] == m[2];
      HnsmBytes(src);
    }
  }

  /** Magics determine their fields, and none holds an accidental wildcard. */
  lemma HnsmMagicInjective(c: byte, q: byte, g: byte, c': byte, q': byte, g': byte)
    requires Accepted(c, q, g) && Accepted(c', q', g')
    ensures HnsmMagic(c, q, g) == HnsmMagic(c', q', g') ==> c == c' && q == q' && g == g'
    ensures WILD !in HnsmMagic(c, q, g)
  {
    hide HnsmMagic;
    HnsmMagicBytes(c, q, g);
    HnsmMagicBytes(c', q', g');
    ThirdByte(c, q, g);
    ThirdByte(c', q', g');
    var m, m' := HnsmMagic(c, q, g), HnsmMagic(c', q', g');
    if m == m' {
      assert m[1] == m'[1] && m[2] == m'[2];
    }
  }

  /** The third byte of a magic: its halves tell the two colours that share the
      second byte apart, its low bits spell quality and geometry, and it is no wildcard. */
  lemma ThirdByte(c: byte, q: byte, g: byte)
    requires Accepted(c, q, g)
    ensures c == 0 || c == 2 || c == 3
    ensures var low := q * 0x20 + g;
            low < 0x80 && low / 0x20 == q && low % 0x20 == g && low != WILD && low + 0x80 != WILD
  {
    assert COLORS[0] == 0 && COLORS[1] == 2 && COLORS[2] == 3;
  }

  const PER_COLOR := (MAX_QUALITY + 1) * (MAX_GEOMETRY + 1)
  const HNSM_COUNT := 3 * PER_COLOR

  /** The k-th entry of the enumeration, colour slowest and geometry fastest. */
  function HnsmEntry(k: nat): Entry
    requires k < HNSM_COUNT
  {
    var color := COLORS[k / PER_COLOR];
    var quality := k % PER_COLOR / (MAX_GEOMETRY + 1);
    var geom := k % PER_COLOR % (MAX_GEOMETRY + 1);
    assert color in COLORS;
    Entry(Name(HNSM), HnsmMagic(color, quality, geom))
  }

  function HnsmEntries(n: nat): (s: seq<Entry>)
    requires n <= HNSM_COUNT
    ensures |s| == n
  {
    seq(n, k requires 0 <= k < n => HnsmEntry(k))
  }

  lemma Appended(k: nat)
    requires k < HNSM_COUNT
    ensures HnsmEntries(k) + [HnsmEntry(k)] == HnsmEntries(k + 1)
  {}

  method HnsmFormats() returns (out: seq<Entry>)
    ensures out == HnsmEntries(HNSM_COUNT)
  {
    hide HnsmMagic, HnsmEntry, HnsmEntries;
    out := [];
    for color := 0 to |COLORS|
      invariant out == HnsmEntries(PER_COLOR * color)
    {
      for quality := 0 to MAX_QUALITY + 1
        invariant out == HnsmEntries(PER_COLOR * color + (MAX_GEOMETRY + 1) * quality)
      {
        for geom := 0 to MAX_GEOMETRY + 1
          invariant out == HnsmEntries(PER_COLOR * color + (MAX_GEOMETRY + 1) * quality + geom)
        {
          ghost var k := PER_COLOR * color + (MAX_GEOMETRY + 1) * quality + geom;
          Enumerated(color, quality, geom, k);
          Appended(k);
          out := out + [Entry(Name(HNSM), HnsmMagic(COLORS[color], quality, geom))];
        }
      }
    }
  }

  lemma Enumerated(color: nat, quality: nat, geom: nat, k: nat)
    requires color < 3 && quality <= MAX_QUALITY && geom <= MAX_GEOMETRY
    requires k == PER_COLOR * color + (MAX_GEOMETRY + 1) * quality + geom
    ensures COLORS[color] in COLORS && k < HNSM_COUNT
    ensures HnsmEntry(k) == Entry(Name(HNSM), HnsmMagic(COLORS[color], quality, geom))
  {
    var low := (MAX_GEOMETRY + 1) * quality + geom;
    RowColumn(k, PER_COLOR, color, low);
    RowColumn(low, MAX_GEOMETRY + 1, quality, geom);
  }

  lemma HnsmSelecting(src: seq<byte>) returns (k: nat)
    requires IsHnsm(src)
    ensures k < HNSM_COUNT && Matches(HnsmEntry(k).magic, src)
  {
    FieldsRebuild(src);
    var (c, q, g) := Fields(src);
    var i := if c == 0 then 0 else if c == 2 then 1 else 2;
    k := PER_COLOR * i + (MAX_GEOMETRY + 1) * q + g;
    Enumerated(i, q, g, k);
    assert HnsmEntry(k).magic == src[..3];
    PrefixMatches(src, 3);
  }

  lemma PrefixMatches(src: seq<byte>, n: nat)
    requires n <= |src|
    ensures Matches(src[..n], src)
  {}

  /** The 372 enumerated magics select exactly the sources sniff_hnsm accepts. */
  lemma HnsmEntriesComplete(src: seq<byte>)
    ensures IsHnsm(src) <==> exists k :: 0 <= k < HNSM_COUNT && Matches(HnsmEntry(k).magic, src)
  {
    if IsHnsm(src) {
      var k := HnsmSelecting(src);
    }
    forall k | 0 <= k < HNSM_COUNT && Matches(HnsmEntry(k).magic, src) ensures IsHnsm(src) {
      EntryMatch(k, src);
    }
  }

  lemma EntryFields(k: nat) returns (color: nat, quality: nat, geom: nat)
    requires k < HNSM_COUNT
    ensures color < 3 && quality <= MAX_QUALITY && geom <= MAX_GEOMETRY
    ensures k == PER_COLOR * color + (MAX_GEOMETRY + 1) * quality + geom
    ensures COLORS[color] in COLORS
    ensures HnsmEntry(k) == Entry(Name(HNSM), HnsmMagic(COLORS[color], quality, geom))
  {
    color := k / PER_COLOR;
    quality := k % PER_COLOR / (MAX_GEOMETRY + 1);
    geom := k % PER_COLOR % (MAX_GEOMETRY + 1);
    Enumerated(color, quality, geom, k);
  }

  /** No magic is enumerated twice. */
  lemma EntriesDiffer(j: nat, k: nat)
    requires j < k < HNSM_COUNT
    ensures HnsmEntry(j).magic != HnsmEntry(k).magic
  {
    var c, q, g := EntryFields(j);
    var c', q', g' := EntryFields(k);
    HnsmMagicInjective(COLORS[c], q, g, COLORS[c'], q', g');
    assert COLORS[0] == 0 && COLORS[1] == 2 && COLORS[2] == 3;
  }

  lemma EntryMatch(k: nat, src: seq<byte>)
    requires k < HNSM_COUNT && Matches(HnsmEntry(k).magic, src)
    ensures IsHnsm(src) && Recognises(HNSM, src)
  {
    var c, q, g := EntryFields(k);
    HnsmMagicInjective(COLORS[c], q, g, COLORS[c], q, g);
    var m := HnsmMagic(COLORS[c], q, g);
    MatchedBytes(m, src);
    assert m <= src;
    HnsmExactlyPacked(src);
  }

  // ---- the whole catalogue against the guest ----

  function Catalogue(): seq<Entry> {
    LITERALS + HnsmEntries(HNSM_COUNT)
  }

  /** The sources that a literal entry selects but the guest does not know:
      a GIF prefix without a valid version, a P5 prefix without white space. */
  predicate PrefixOnly(e: Entry, src: seq<byte>) {
    || (e.magic == GIF_MAGIC && !IsGif(src))
    || (e.magic == GRAY_MAGIC && !IsNpbm(src))
  }

  lemma MatchedBytes(magic: seq<byte>, src: seq<byte>)
    requires Matches(magic, src) && WILD !in magic
    ensures src[..|magic|] == magic
  {
    forall i | 0 <= i < |magic| ensures src[i] == magic[i] {
      assert magic[i] in magic;
    }
  }

  /** The format whose recogniser a literal entry stands for. */
  function LiteralFormat(k: nat): Format
    requires k < 16
  {
    match k
    case 0 => PNG case 1 => WEBP case 2 => BMP case 3 => GIF
    case 4 => JPEG case 5 => QOI case 6 => ETC2 case 7 => NIE
    case 8 => TH case 9 => NPBM case 10 => NPBM case 11 => WBMP
    case 12 => WBMP case _ => TGA
  }

  lemma LiteralName(k: nat)
    requires k < 16
    ensures LITERALS[k].name == Name(LiteralFormat(k))
  {}

  lemma LiteralAgrees(k: nat, src: seq<byte>)
    requires k < 16 && Matches(LITERALS[k].magic, src)
    ensures PrefixOnly(LITERALS[k], src) || Recognises(LiteralFormat(k), src)
  {
    if k < 4 {
      LiteralAgrees0(k, src);
    } else if k < 8 {
      LiteralAgrees1(k, src);
    } else if k < 11 {
      LiteralAgrees2(k, src);
    } else if k < 13 {
      WbmpLiterals(k);
      HeaderLiteral(WBMP, LITERALS[k].magic, src);
    } else {
      TgaLiterals(k);
      HeaderLiteral(TGA, LITERALS[k].magic, src);
    }
  }

  lemma LiteralAgrees0(k: nat, src: seq<byte>)
    requires k < 4 && Matches(LITERALS[k].magic, src)
    ensures PrefixOnly(LITERALS[k], src) || Recognises(LiteralFormat(k), src)
  {
    if k == 0 {
      MatchedBytes(PNG_MAGIC, src);
    } else if k == 1 {
      WebpAgrees(src);
    } else if k == 2 {
      var m := BMP_MAGIC;
      assert m[0] == src[0] && m[1] == src[1];
    }
  }

  lemma WebpAgrees(src: seq<byte>)
    requires Matches(WEBP_MAGIC, src)
    ensures IsWebp(src)
  {
    var m := WEBP_MAGIC;
    assert m[0] == src[0] && m[1] == src[1] && m[2] == src[2] && m[3] == src[3];
    assert m[8] == src[8] && m[9] == src[9] && m[10] == src[10] && m[11] == src[11];
  }

  lemma LiteralAgrees1(k: nat, src: seq<byte>)
    requires 4 <= k < 8 && Matches(LITERALS[k].magic, src)
    ensures Recognises(LiteralFormat(k), src)
  {
    var m := LITERALS[k].magic;
    assert m[0] == src[0] && m[1] == src[1] && m[2] == src[2];
    assert k > 4 ==> m[3] == src[3];
  }

  lemma LiteralAgrees2(k: nat, src: seq<byte>)
    requires 8 <= k < 11 && Matches(LITERALS[k].magic, src)
    ensures PrefixOnly(LITERALS[k], src) || Recognises(LiteralFormat(k), src)
  {
    var m := LITERALS[k].magic;
    assert m[0] == src[0] && m[1] == src[1];
    assert k == 8 ==> m[2] == src[2];
  }

  /** A magic that is itself a complete header. */
  lemma HeaderLiteral(f: Format, magic: seq<byte>, src: seq<byte>)
    requires Recognises(f, magic) && WILD !in magic && Matches(magic, src)
    ensures Recognises(f, src)
  {
    MatchedBytes(magic, src);
    assert src == magic + src[|magic|..];
    RecognisesExtends(f, magic, src[|magic|..]);
  }

  lemma WbmpLiterals(k: nat)
    requires 11 <= k <= 12
    ensures Recognises(WBMP, LITERALS[k].magic) && WILD !in LITERALS[k].magic
  {
    if k == 11 {
      MuybridgeLiteral();
    } else {
      BricksLiteral();
    }
  }

  lemma MuybridgeLiteral()
    ensures IsWbmp(WBMP_MUYBRIDGE) && WILD !in WBMP_MUYBRIDGE
  {
    var m := WBMP_MUYBRIDGE;
    assert Wbmp.ParseDim(m, 2) == Some((0x1E as nat, 3));
    assert Wbmp.ParseDim(m, 3) == Some((0x14 as nat, 4));
  }

  lemma BricksLiteral()
    ensures IsWbmp(WBMP_BRICKS) && WILD !in WBMP_BRICKS
  {
    var m := WBMP_BRICKS;
    assert Wbmp.ParseGroups(m, 3, 1, 1) == Some((0xA0 as nat, 4));
    assert Wbmp.ParseDim(m, 2) == Wbmp.ParseGroups(m, 3, 1, 1);
    assert Wbmp.ParseDim(m, 4) == Some((0x78 as nat, 5));
  }

  lemma TgaLiterals(k: nat)
    requires 13 <= k < 16
    ensures Recognises(TGA, LITERALS[k].magic) && WILD !in LITERALS[k].magic
  {
    if k == 13 {
      TgaColorLiteral();
    } else if k == 14 {
      TgaNoditherLiteral();
    } else {
      TgaGrayLiteral();
    }
  }

  lemma TgaColorLiteral()
    ensures Tga.Accepts(TGA_COLOR) && WILD !in TGA_COLOR
  {
    var m := TGA_COLOR;
    assert m[1] == 0 && m[2] == 2 && m[16] == 24 && m[17] == 32;
  }

  lemma TgaNoditherLiteral()
    ensures Tga.Accepts(TGA_NODITHER) && WILD !in TGA_NODITHER
  {
    var m := TGA_NODITHER;
    assert m[1] == 1 && m[2] == 1 && m[6] == 1 && m[16] == 8 && m[17] == 32;
  }

  lemma TgaGrayLiteral()
    ensures Tga.Accepts(TGA_GRAY) && WILD !in TGA_GRAY
  {
    var m := TGA_GRAY;
    assert m[1] == 0 && m[2] == 11 && m[16] == 8 && m[17] == 32;
  }

  lemma EntryAgrees(e: Entry, src: seq<byte>) returns (f: Format)
    requires e in Catalogue() && Matches(e.magic, src)
    ensures Name(f) == e.name && (PrefixOnly(e, src) || Recognises(f, src))
  {
    hide Recognises, PrefixOnly, Matches, HnsmEntries, HnsmMagic, LiteralFormat;
    var k := EntryIndex(e);
    if k < 16 {
      LiteralName(k);
      LiteralAgrees(k, src);
      f := LiteralFormat(k);
    } else {
      EntryMatch(k - 16, src);
      f := HNSM;
    }
  }

  lemma EntryIndex(e: Entry) returns (k: nat)
    requires e in Catalogue()
    ensures if k < 16 then e == LITERALS[k] else k - 16 < HNSM_COUNT && e == HnsmEntry(k - 16)
  {
    assert |LITERALS| == 16;
    k := InAppend(LITERALS, HnsmEntries(HNSM_COUNT), e);
  }

  lemma InAppend(a: seq<Entry>, b: seq<Entry>, e: Entry) returns (k: nat)
    requires e in a + b
    ensures if k < |a| then e == a[k] else k - |a| < |b| && e == b[k - |a|]
  {
    k :| 0 <= k < |a + b| && (a + b)[k] == e;
  }

  lemma BarePrefixUnknown(e: Entry, src: seq<byte>)
    requires PrefixOnly(e, src) && Matches(e.magic, src)
    ensures Sniff(src) == 0
  {
    assert e.magic[0] == src[0] && e.magic[1] == src[1];
    var f := SniffWitness(src);
    if Sniff(src) != 0 {
      Leading(f, src);
    }
  }

  /** Whatever entry the registry selects, the guest names the same format,
      except that it knows none exactly for the two bare prefixes. */
  lemma SelectionAgrees(src: seq<byte>)
    ensures match FirstMatch(Catalogue(), src)
            case None => true
            case Some(e) =>
              if PrefixOnly(e, src) then Sniff(src) == 0
              else exists f :: Sniff(src) == Code(f) && Name(f) == e.name
  {
    match FirstMatch(Catalogue(), src)
    case None =>
    case Some(e) =>
      var f := EntryAgrees(e, src);
      if PrefixOnly(e, src) {
        BarePrefixUnknown(e, src);
      } else {
        SniffIffRecognises(f, src);
      }
  }

  predicate AlwaysSelected(f: Format) {
    f in {PNG, WEBP, BMP, GIF, JPEG, QOI, ETC2, TH, HNSM}
  }

  lemma SelectingEntry(f: Format, src: seq<byte>) returns (e: Entry)
    requires AlwaysSelected(f) && Recognises(f, src)
    ensures e in Catalogue() && Matches(e.magic, src)
  {
    if f == HNSM {
      var k := HnsmSelecting(src);
      e := HnsmEntry(k);
      assert Catalogue()[|LITERALS| + k] == e;
    } else {
      var k := match f case PNG => 0 case WEBP => 1 case BMP => 2 case GIF => 3
                       case JPEG => 4 case QOI => 5 case ETC2 => 6 case _ => 8;
      e := LITERALS[k];
      assert Catalogue()[k] == e;
      MagicMatches(f, k, src);
    }
  }

  lemma MagicMatches(f: Format, k: nat, src: seq<byte>)
    requires k <= 8 && k != 7 && f == LiteralFormat(k) && Recognises(f, src)
    ensures Matches(LITERALS[k].magic, src)
  {
    if k == 0 {
      assert forall i :: 0 <= i < 8 ==> src[i] == PNG_MAGIC[i] by {
        assert src[..8] == PNG_MAGIC;
      }
    } else if k == 1 {
      WebpMatches(src);
    }
  }

  lemma WebpMatches(src: seq<byte>)
    requires IsWebp(src)
    ensures Matches(WEBP_MAGIC, src)
  {
    assert src[..4] == WEBP_MAGIC[..4] && src[8..12] == WEBP_MAGIC[8..12];
    forall i | 0 <= i < 12 ensures WEBP_MAGIC[i] == WILD || WEBP_MAGIC[i] == src[i] {
      if i < 4 {
        assert src[..4][i] == WEBP_MAGIC[..4][i];
      } else if i >= 8 {
        assert src[8..12][i - 8] == WEBP_MAGIC[8..12][i - 8];
      }
    }
  }

  /** Every recognised source of these formats is selected, under its own name;
      for HNSM the selected sources are exactly those sniff_hnsm accepts. */
  lemma RecognisedIsSelected(f: Format, src: seq<byte>)
    requires AlwaysSelected(f) && Recognises(f, src)
    ensures FirstMatch(Catalogue(), src).Some? && FirstMatch(Catalogue(), src).value.name == Name(f)
  {
    var e := SelectingEntry(f, src);
    var e' := FirstMatch(Catalogue(), src).value;
    SelectionAgrees(src);
    SniffIffRecognises(f, src);
    CodesDistinct(f, f);
    var g :| Sniff(src) == Code(g) && Name(g) == e'.name;
    CodesDistinct(f, g);
  }

  /** The sources of a format that the catalogue selects: all of nine formats,
      and of the other four those that start with a listed magic. */
  predicate Listed(f: Format, src: seq<byte>)
    requires Recognises(f, src)
  {
    match f
    case NIE => src[3] == 0x45
    case NPBM => src[1] == 0x35 || src[1] == 0x36
    case WBMP => [0, 0, 0x1E, 0x14] <= src || [0, 0, 0x81, 0x20, 0x78] <= src
    case TGA => TGA_COLOR <= src || TGA_NODITHER <= src || TGA_GRAY <= src
    case _ => true
  }

  lemma LiteralSelects(k: nat, src: seq<byte>)
    requires k < 16 && Matches(LITERALS[k].magic, src)
    ensures FirstMatch(Catalogue(), src).Some?
  {
    hide Matches, HnsmEntries;
    assert Catalogue()[k] == LITERALS[k];
    assert LITERALS[k] in Catalogue();
  }

  lemma LiteralPrefix(k: nat, src: seq<byte>)
    requires k < 16 && k != 1
    ensures Matches(LITERALS[k].magic, src) <==> LITERALS[k].magic <= src
  {
    if Matches(LITERALS[k].magic, src) {
      NoWildcard(k);
      MatchedBytes(LITERALS[k].magic, src);
    }
  }

  lemma NoWildcard(k: nat)
    requires k < 16 && k != 1
    ensures WILD !in LITERALS[k].magic
  {
    if k >= 13 {
      TgaLiterals(k);
    } else if k >= 11 {
      WbmpLiterals(k);
    } else {
      ShortMagics(k);
    }
  }

  lemma ShortMagics(k: nat)
    requires k < 11 && k != 1
    ensures WILD !in LITERALS[k].magic
  {}

  lemma ListedSelected(f: Format, src: seq<byte>)
    requires Recognises(f, src) && Listed(f, src)
    ensures FirstMatch(Catalogue(), src).Some?
  {
    if AlwaysSelected(f) {
      RecognisedIsSelected(f, src);
    } else {
      var k := match f
               case NIE => 7
               case NPBM => if src[1] == 0x35 then 9 else 10
               case WBMP => if [0, 0, 0x1E, 0x14] <= src then 11 else 12
               case _ => if TGA_COLOR <= src then 13 else if TGA_NODITHER <= src then 14 else 15;
      hide Wbmp.ParseHeader, Tga.Accepts;
      LiteralPrefix(k, src);
      LiteralSelects(k, src);
    }
  }

  lemma SelectedListed(f: Format, src: seq<byte>)
    requires Recognises(f, src) && FirstMatch(Catalogue(), src).Some?
    ensures Listed(f, src) && FirstMatch(Catalogue(), src).value.name == Name(f)
  {
    hide Recognises, Matches, HnsmEntries, Tga.Accepts, Wbmp.ParseHeader, PrefixOnly;
    var e := FirstMatch(Catalogue(), src).value;
    SniffIffRecognises(f, src);
    CodesDistinct(f, f);
    var k := EntryIndex(e);
    if k >= 16 {
      EntryMatch(k - 16, src);
      RecognisersDisjoint(f, HNSM, src);
    } else {
      LiteralAgrees(k, src);
      LiteralName(k);
      if PrefixOnly(e, src) {
        BarePrefixUnknown(e, src);
      } else {
        RecognisersDisjoint(f, LiteralFormat(k), src);
        MatchedListed(k, src);
      }
    }
  }

  lemma MatchedListed(k: nat, src: seq<byte>)
    requires k < 16 && Matches(LITERALS[k].magic, src) && Recognises(LiteralFormat(k), src)
    ensures Listed(LiteralFormat(k), src)
  {
    hide Recognises, Matches;
    if k != 1 {
      LiteralPrefix(k, src);
    }
  }

  /** Which recognised sources the registry selects, and under which name. */
  lemma SelectedIffListed(f: Format, src: seq<byte>)
    requires Recognises(f, src)
    ensures FirstMatch(Catalogue(), src).Some? <==> Listed(f, src)
    ensures FirstMatch(Catalogue(), src).Some? ==> FirstMatch(Catalogue(), src).value.name == Name(f)
  {
    hide Recognises, Listed, FirstMatch;
    if Listed(f, src) {
      ListedSelected(f, src);
    }
    if FirstMatch(Catalogue(), src).Some? {
      SelectedListed(f, src);
    }
  }
}
