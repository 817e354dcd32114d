# Verified model of the Wuffs WebAssembly image decoder

A Dafny model of the hand-written code around the Wuffs codecs: the guest shim
(`wasm/shim.c`), the Go host that drives it over one shared linear memory
(`decoder.go`, `memory.go`, `metadata.go`, `convenience.go`), the pixel kernels
(`convert.go`), format recognition on both sides (`wasm/shim.c`,
`registration.go`) and the repository's own reference codecs for WBMP and NIA.

`dafny verify dfyconfig.toml` checks the whole project.

## How the model is built

- Linear memory is a byte sequence held by a `Guest` object; every store goes
  through `Write`, and `Regions` tracks which ranges a step may have written.
  A caller's Pix is an array that the kernels update in place.
- A Wuffs decoder is a value of `Codec.Codec`: unknown total functions of the
  format and the source bytes (size, image config, frame configs, metadata
  reports, painted canvas bytes). Every codec call is answered from the bytes
  that are in memory at that moment. While it decodes pixels the codec may
  leave any bytes in its work buffer.
- uint8, uint16, uint32, uint64 and int32 arithmetic is written with explicit
  wrapping; that nothing wraps, or when it does, is proved.
- `GuestSpec` and `HostSpec` say what each export and each Decoder call answers
  as functions of sizes and source bytes. The methods are proved against them,
  and the theorems about runs and about several calls together are about them.
  `Answers` writes these functions out in the codec's own answers and plain
  numbers, down to single pixels.

| file | contents |
|---|---|
| `Bytes`, `Regions` | machine integers, little-endian words, memory, written ranges |
| `Layout` | slot layout and Reserve (`memory.go`) |
| `Wbmp`, `Tga`, `Formats`, `Registry` | recognisers, dispatch, registration catalogue |
| `Codec`, `GuestSpec`, `Structs`, `Shim` | the codec interface and the guest exports |
| `MetadataWalk`, `Buffers`, `Pack` | metadata accumulation, bump buffers, pack codec |
| `Pixels` | row copies and gray conversion |
| `HostSpec`, `Decoder`, `Convenience` | host checks, Decoder methods, helpers |
| `Answers` | every call's answer and pixels written out in codec answers, sizes and numbers |
| `Protocol`, `Stale` | whole-run theorems, sizing and retrying, what unpainted pixels show |
| `WbmpOracle`, `Nia` | reference readers and writer from the tests |

## Assumptions

- Wuffs dimensions are at most 0xFFFFFF, and a source has fewer than 2^31 frame
  configs (each takes source bytes).
- The guest never grows memory; memory growth from the host succeeds exactly
  within its page limit. Memory starts at 64 MiB and is a whole number of pages.
- A codec's answers are functions of the source bytes; it writes only its own
  object, its work buffer, the transform destination and the canvas.
- Go `int` has 64 bits.

## Where the code and its documentation differ

- `decoder.go:134-137` and `decoder.go:174-176` promise ErrBadImage for an
  unrepresentable host layout. The code multiplies stride and height in uint64,
  which can wrap: `HostSpec.AcceptedRowsFitIff` gives the exact condition and
  `HostSpec.OverflowIsAccepted` an image that is accepted although its rows do
  not fit.
- `wasm/shim.c:16` calls 4 MiB the maximum per bump allocation. The work buffer
  of the two decode exports is not checked against it; the source slot is safe
  exactly when the buffer ends at or below it (`Protocol.WorkBufferApartIff`,
  `Protocol.WorkFitsOnEveryRunIff`), which the allocating helpers do not ensure
  (`Protocol.PreparedWorkFitsIff`, `Protocol.PreparedDecodeReachesSource`).
- `errors.go:83-86` presents MinBytes as the size to reserve. Reserving it works
  exactly when the canvas is not empty and the slots it then needs fit the 256 MiB
  page limit (`Protocol.RetryWorksIff`); otherwise no sequence of calls helps
  (`Protocol.SomeRunDecodesIff`), as for an 8192 x 8192 canvas, whose MinBytes
  Reserve rejects, and for a 32768 x 32768 one, whose MinBytes wraps to 0.
- `decode_image` does not clear the canvas, as decode_frame does, so DecodeNRGBA
  and DecodeGray show earlier slot contents wherever the codec writes nothing
  (`Stale.NRGBAIndependentIff`, `Stale.GrayIndependentIff`). In the exported
  DecodeNRGBA these can be the bytes of the file itself
  (`Stale.FreshDecodeShowsSource`).

## Model

| member | source | states |
|---|---|---|
| Layout.LayoutSound | memory.go:114-144 | for any memory that holds them, the six slots are ordered, disjoint, in bounds, at or above 32 MiB, the metas 8-aligned, and no uint32 step wraps |
| Layout.RequirementExact | memory.go:165-179 | Reserve's uint64 checks accept exactly the sizes whose unbounded requirement is within 4096 pages, and compute that requirement |
| Layout.ReserveKeepsSound | memory.go:153-197 | Reserve, accepted or not, keeps the layout invariant, and an accepted one sets each slot to the larger of old and requested size |
| Layout.ReserveCompose | memory.go:80-92 | after an accepted request, a second one is accepted exactly when one request for the larger sizes would be, with the same result |
| Layout.ReserveHistoryIndependent | memory.go:153-197 | any run of Reserve ends in the memory size and layout of the single request for the component-wise maxima of the accepted ones |
| Layout.AcceptsExactly | memory.go:153-197 | a request is accepted exactly when both slots together stay within 234,880,944 bytes |
| Layout.ReservedExactly | memory.go:114-144 | an accepted one leaves the least whole number of pages, unless memory was larger, and the slots packed from its end down, with every distance in numbers |
| Wbmp.ParsedIsEncoded | wasm/shim.c:193-222 | whatever bytes the dimension loop accepts are the shortest base-128 encoding of the value it returns |
| Wbmp.EncBytes | wasm/shim.c:193-222 | the encoding of each size of value, byte by byte |
| Wbmp.ParseEncoded | wasm/shim.c:193-222 | the loop reads back every encoded dimension from 1 to 0xFFFFFF and stops right after it, whatever follows |
| Wbmp.HeaderExactlyCanonical | wasm/shim.c:187-224 | a source is parsed as w by h exactly when it starts with 00 00 enc(w) enc(h), so the pair is unique |
| Wbmp.RecognisesExactlyHeaders | wasm/shim.c:187-224 | a source is recognised exactly when some pair of dimensions heads it |
| Wbmp.HeaderExtends | wasm/shim.c:187-224 | more bytes never change a recognised header |
| Wbmp.Sniff | wasm/shim.c:187-224 | the nested loops, in uint32 arithmetic, accept exactly the sources headed by some pair of encoded dimensions |
| Wbmp.Accumulated | wasm/shim.c:199-213 | within four groups the accumulator stays below 2^28, so the uint32 shift drops nothing |
| Tga.AcceptsExactlySupported | wasm/shim.c:99-174 | the header check accepts exactly the sources that start with the encoding of a supported header record |
| Tga.AcceptedClasses | wasm/shim.c:99-174 | the accepted headers class by class in raw bytes, descriptors enumerated |
| Formats.TgaIsNotWbmp | wasm/shim.c:99-224 | no source is both TGA and WBMP: every TGA header that starts 00 00 spells a zero WBMP height |
| Formats.RecognisersDisjoint | wasm/shim.c:255-333 | at most one of the thirteen recognisers accepts any source |
| Formats.SniffIffRecognises | wasm/shim.c:255-333 | the chain reports a format exactly when that format's own recogniser accepts, so its order is irrelevant |
| Formats.SniffExtends | wasm/shim.c:255-333 | a recognised source keeps its format under any extension |
| Formats.PrefixesSpell | wasm/shim.c:255-333 | the short prefix recognisers accept exactly the sources that start with these ASCII strings, both GIF versions included |
| Formats.LongPrefixesSpell | wasm/shim.c:255-333 | the same for PNG, WebP, and NIE stills and containers |
| Formats.NetpbmSpells | wasm/shim.c:284-292 | a netpbm source is P6, or P1 to P5 with white space behind |
| Formats.CodesSpell | wasm/shim.c:255-333 | every reported code spells its four letters |
| Formats.FindDecoder | wasm/shim.c:368-375 | the table search finds the decoder of every reported code and nothing else |
| Registry.HnsmExactlyPacked | wasm/shim.c:231-253 | sniff_hnsm accepts exactly the sources that start with a packed header of an accepted colour, quality and geometry |
| Registry.HnsmMagicInjective | registration.go:114-118 | magics determine their fields and never contain an accidental wildcard byte |
| Registry.HnsmFormats | registration.go:123-133 | the three loops list the 372 entries, colour slowest and geometry fastest |
| Registry.EntriesDiffer | registration.go:123-133 | no magic is listed twice |
| Registry.HnsmEntriesComplete | registration.go:123-133 | the listed magics select exactly the sources sniff_hnsm accepts |
| Registry.SelectionAgrees | registration.go:76-93 | whatever entry the first-match registry selects, the guest names the same format, or knows none exactly for a bare GIF8 or P5 prefix |
| Registry.RecognisedIsSelected | registration.go:76-93 | every recognised source of nine formats, HNSM included, is selected under its own name |
| Registry.SelectedIffListed | registration.go:76-93 | which recognised sources are selected, for all thirteen formats: of NIE only stills, of netpbm only P5 and P6, of WBMP and TGA only the listed headers |
| Registry.NamesSpellCodes | adapter.go:19-50 | a registered name is its format's code in lower case |
| Pixels.CopyScratchToRGBARegion | convert.go:20-28 | exactly the bytes inside bounds change, each to the scratch byte at the same canvas coordinate |
| Pixels.CopyScratchToNRGBA | convert.go:33-41 | every canvas byte is copied for any stride, every padding byte stays |
| Pixels.ConvertBGRAToGray | convert.go:48-89 | every pixel becomes the gray of its scratch pixel, every padding byte stays |
| Pixels.UnpremultiplyExactIff | convert.go:5-9 | the uint8 conversion truncates exactly when the channel exceeds alpha |
| Pixels.ScaledBack | convert.go:64-85 | unpremultiplying and scaling back loses less than one 8-bit step |
| Pixels.RoundedExact | convert.go:86-86 | no uint32 or uint8 step of the weighted sum overflows or truncates |
| Pixels.GrayBounds | convert.go:48-89 | on a premultiplied pixel the gray is at most one below the directly rounded luma, never above it or alpha, and equal when opaque |
| Pixels.GrayExact | convert.go:48-89 | the exact gray value of every pixel, premultiplied or not, in unbounded arithmetic and plain numbers |
| Pixels.OpaqueGrayFixed | convert.go:48-89 | equal opaque channels map to themselves |
| Structs.MetaRoundTrip | meta.go:67-80 | the host reads back every field of the decode meta the guest wrote |
| Structs.MetaLayout | wasm/shim.c:489-495 | the little-endian place of each field of the decode meta |
| Structs.FrameMetaRoundTrip | decoder.go:418-437 | the host reads back the frame the guest described, bounds put in order as image.Rect does |
| Structs.FrameMetaLayout | decoder.go:418-437 | the little-endian place of each field of the frame meta |
| Structs.FrameFields | decoder.go:418-437 | each field of a reported frame is its own config field; corners out of order are swapped axis by axis |
| MetadataWalk.ConsumeSays | wasm/shim.c:1089-1207 | one answer is consumed exactly when it is well formed and within its limit, to what the reports then say |
| MetadataWalk.WalkMeaning | wasm/shim.c:1067-1214 | the nested loops succeed exactly on readable report streams, and then each blob is the in-order concatenation of its chunks and the last parsed value wins |
| MetadataWalk.FitsCases | wasm/shim.c:1100-1207 | when a report is taken, flavour by flavour, with its limit in numbers |
| MetadataWalk.ChunkCases | wasm/shim.c:1100-1207 | what a report adds to each blob |
| MetadataWalk.JoinedSnoc | wasm/shim.c:1100-1207 | a blob grows by appending the last report's chunk |
| MetadataWalk.LatestSnoc | wasm/shim.c:1098-1117 | a later parsed value replaces an earlier one |
| MetadataWalk.TakenIs | wasm/shim.c:1081-1212 | the reports of an item run up to and including the first with nothing more to come |
| MetadataWalk.ReportsJoin | wasm/shim.c:1067-1214 | the reports of the items follow each other |
| Buffers.GuardSuffices | wasm/shim.c:986-1014 | the capacity guard keeps object and buffers disjoint, unwrapped and below the host slots despite rounding |
| Pack.HeaderRoundTrip | metadata.go:47-69 | the decoded header is the one the guest encoded, field by field |
| Pack.PackRoundTrip | metadata.go:180-248 | the host returns exactly the format, blobs and scalars that were packed |
| Pack.PackLayout | metadata.go:47-69 | the place of each header field in the 88 bytes, and the blobs behind them in order |
| Shim.Guest.OpenDecoder | wasm/shim.c:512-556 | the steps every export starts with write only the bump arena and answer from the caller's bytes |
| Shim.Guest.ProbeImage | wasm/shim.c:503-577 | return code and meta depend only on the source bytes, which stay intact; nothing outside arena and meta is written |
| Shim.Guest.FrameCount | wasm/shim.c:587-653 | counts the frame configs, with the source intact |
| Shim.Guest.AnimationLoops | wasm/shim.c:661-714 | reports the loop count, with the source intact |
| Shim.Guest.DecodeImage | wasm/shim.c:377-496 | stops where the size and config checks say, writes only arena, meta and dst, and paints over the slot from intact source bytes when the work buffer fits below them |
| Shim.Guest.DecodeFrame | wasm/shim.c:744-917 | reaches the indexed config, reports it, and paints a cleared canvas from intact source bytes when the work buffer fits below them |
| Shim.Guest.Take | wasm/shim.c:1081-1212 | one reported answer appends to its own buffer only, within capacity; the read index, moved by codec and shim, never goes back or past the source |
| Shim.Guest.WalkStream | wasm/shim.c:1067-1214 | the nested loops leave in the buffers exactly what the walk accumulates |
| Shim.Guest.ReadImageMetadata | wasm/shim.c:964-1255 | the pack written is that of the accumulated metadata, or the error code is the one its checks decide; the source stays intact |
| HostSpec.AcceptedRowsFitIff | decoder.go:254-293 | an accepted destination holds all its rows exactly when stride times height is below 2^64 |
| HostSpec.OverflowIsAccepted | decoder.go:254-293 | a four-row image with stride 2^62 and four bytes of Pix is accepted |
| HostSpec.TightAccepted | decoder.go:254-293 | a tight image of the decoded size is always accepted |
| Answers.DestinationAnswers | decoder.go:254-293 | which images are accepted, padded ones included, and the sizes the two too-small errors report, in unbounded products |
| Answers.ProbeAnswers | wasm/shim.c:512-577 | Probe reports the codec's own width and height, four bytes a pixel and the format, or the error of the first failing step |
| Answers.FrameCountAnswers | wasm/shim.c:587-653 | FrameCount fails as Probe does, and otherwise counts the configs of a non-empty, clean stream |
| Answers.LoopCountAnswers | wasm/shim.c:661-714 | LoopCount fails as Probe does, and otherwise answers the codec's loop count |
| Answers.UnopenedAnswers | decoder.go:202-247 | a source that does not open fails every decode with Probe's error |
| Answers.DecodeFrameAnswers | decoder.go:454-524 | DecodeFrame's answer in codec answers and sizes: which check decides which error, and the indexed config's frame |
| Answers.FrameReported | decoder.go:418-437 | a successful DecodeFrame reports every field of the indexed config |
| Answers.DecodeImageAnswers | decoder.go:202-247 | the image decodes' answer in codec answers and sizes, with every meta field |
| Answers.ImageConsumes | wasm/shim.c:475-487 | decode_image paints frame 0, never a later one |
| Answers.FramePixels | decoder.go:454-524 | pixel by pixel in canvas coordinates: inside the frame what the codec painted for that frame or zero, outside as before |
| Answers.NRGBAPixels | convert.go:33-41 | pixel by pixel: what the codec painted for frame 0, or the earlier slot byte |
| Answers.GrayPixels | convert.go:48-89 | pixel by pixel: the gray of those four bytes |
| Answers.PaddingStays | convert.go:20-41 | bytes that belong to no canvas pixel stay |
| Answers.GrayPaddingStays | convert.go:48-89 | the same for gray images |
| Answers.WorkFitsExactly | wasm/shim.c:450-465 | where the work buffer ends, in numbers |
| Decoder.Decoder.Reserve | memory.go:153-197 | accepts exactly within the page limit, reaches the specified state, never reports a failed growth, keeps old memory contents, and changes nothing when it rejects |
| Decoder.Decoder.Probe | decoder.go:313-342 | the answer is a function of layout and source; only a success updates the reused meta |
| Decoder.Decoder.FrameCount | decoder.go:350-378 | answers the number of frame configs or the mapped error |
| Decoder.Decoder.LoopCount | decoder.go:385-409 | answers the loop count or the mapped error |
| Decoder.Decoder.Metadata | metadata.go:149-252 | answers the guest's accumulated metadata after the pack round trip; only a success updates the reused result |
| Decoder.Decoder.DecodeFrame | decoder.go:454-524 | the answer is fixed by layout, shape and source; a success changes exactly the bytes inside the frame's bounds to the painted canvas, an error changes neither Pix nor results nor layout |
| Decoder.Decoder.DecodeRGBA | decoder.go:108-117 | DecodeFrame's answer for frame 0, its pixels and reused frame, with the meta returned |
| Decoder.Decoder.DecodeImageForDestination | decoder.go:202-217 | the answer is fixed by layout, shape and source; after a success all rows of scratch, and of an addressable destination, are in bounds |
| Decoder.Decoder.DecodeNRGBA | decoder.go:142-155 | every canvas byte is the scratch byte, padding and, on error, everything stays |
| Decoder.Decoder.DecodeGray | decoder.go:181-196 | every pixel is the gray of the scratch pixel, and the meta counts one byte a pixel |
| Convenience.GeometryExact | convenience.go:215-244 | no product wraps; accepted are exactly the non-empty images whose canvas size fits 32 bits |
| Convenience.ProbeWithDecoder | convenience.go:91-101 | a rejected reservation or the probe's answer on the reserved layout; the state is that after the reservation |
| Convenience.DecodePrep | convenience.go:108-130 | goes through exactly the specified reservations and errors; a failure leaves the state of the first Reserve, a success also the probed source bytes in memory |
| Convenience.PrepGuarantees | convenience.go:108-130 | a success leaves a slot for the source and one for the probed canvas |
| Answers.PrepFails | convenience.go:108-130 | a source that does not fit or open fails the preparation with the rejection or Probe's error |
| Answers.PrepAnswers | convenience.go:108-130 | on an opened source: which sizes are refused or rejected, and the state of one request for canvas and source |
| Answers.TightIs | convenience.go:142-147 | a helper's image has zero origin and no padding |
| Answers.GrayAnswerIs | decoder.go:181-196 | DecodeGray counts one byte a pixel in its meta and passes errors on |
| Convenience.PreparedFrameDecodes | convenience.go:136-157 | after a successful preparation, decoding into the tight image succeeds or is ErrDecode |
| Convenience.PreparedImageDecodes | convenience.go:162-209 | the same for the NRGBA and Gray paths |
| Convenience.DoneIsProbe | wasm/shim.c:489-495 | a decode's meta is the probe's but for the bytes written, w * h * 4 |
| Convenience.DecodeWithAllocator | convenience.go:136-157 | fails only as the preparation does or with ErrDecode, and then exactly when frame 0 is not reached, not inside the canvas or not painted; a success carries the probe's meta and shows frame 0 in a fresh tight image |
| Convenience.DecodeNRGBAWithAllocator | convenience.go:162-183 | the same with the image decode, and the full canvas copied from what the codec painted over memory that still holds the probed source |
| Convenience.DecodeGrayWithAllocator | convenience.go:188-209 | the same, with the gray of that canvas and w * h bytes written |
| Convenience.Decode | convenience.go:60-62 | the exported helper on a new decoder: when it succeeds, its meta, and frame 0 in a tight image |
| Convenience.DecodeNRGBA | convenience.go:70-72 | the exported helper on a new decoder, whatever its memory holds: when it succeeds, its meta and pixels |
| Convenience.DecodeGray | convenience.go:84-86 | the exported helper on a new decoder, whatever its memory holds: when it succeeds, its meta and pixels |
| Protocol.Perform | decoder.go:454-524 | every Decoder call is a step of the run model: only Reserve moves memory size or layout |
| Protocol.RunKeepsSlots | memory.go:114-144 | after any run of calls on a new decoder the slots are ordered, disjoint, in bounds and unwrapped |
| Protocol.RunHistoryIndependent | memory.go:153-197 | a run of any calls ends where one Reserve of the accepted maxima ends |
| Protocol.WorkBufferApartIff | wasm/shim.c:450-465 | the work buffer stays off the source bytes exactly when it ends at or below the source slot |
| Protocol.LargeWorkBufferReachesSource | wasm/shim.c:836-852 | on a new decoder a decode that asks for a 56 MiB work buffer is prepared and reaches its frame, and the buffer runs into the source bytes |
| Protocol.WorkFitsOnEveryRunIff | wasm/shim.c:836-862 | after every run that can hold the source the work buffer fits below it exactly when it ends within 80 bytes of the 32 MiB host base |
| Protocol.PreparedWorkFitsIff | convenience.go:108-130 | after a successful preparation on a new decoder the work buffer fits below the source exactly when it ends at or below a place written out from canvas and source size |
| Protocol.PreparedSourceBound | memory.go:153-197 | once the slots outgrow the initial 64 MiB that place is within a page of the 32 MiB host base |
| Protocol.PreparedDecodeReachesSource | wasm/shim.c:836-852 | a prepared 3000 x 3000 decode with a work buffer 3000 bytes longer than its canvas reaches its frame, and the buffer runs over the source |
| Protocol.RetryWorksIff | decoder.go:235-247 | Reserve(MinBytes, len(src)) is accepted and, whatever intervenes, the too-small error never returns for any frame or pixel format, exactly when the canvas is not empty and its slots fit the page limit; then MinBytes is w * h * 4 |
| Protocol.SomeRunDecodesIff | memory.go:153-197 | some sequence of calls makes room for the source and its canvas exactly on that condition |
| Protocol.LargeCanvasNeverDecodes | decoder.go:235-247 | an 8192 x 8192 canvas reports MinBytes 2^28, which Reserve rejects, and no run ever makes room for it |
| Protocol.WrappedCanvasNeverDecodes | decoder.go:235-247 | a 32768 x 32768 canvas reports MinBytes 0; reserving it changes nothing and no run ever makes room |
| Protocol.FrameCountBoundsFrames | wasm/shim.c:864-878 | with FrameCount n and room for the canvas, the config walk reaches exactly the indices below n, and every other index is ErrDecode |
| Protocol.FrameDecodesWithinCount | wasm/shim.c:638-652 | a successful DecodeFrame means its index is below the number of configs, which FrameCount answers unless the stream ends badly |
| Protocol.ImageAgreesWithFrameZero | wasm/shim.c:475-487 | on one destination, and given the codec's separate verdicts on the pixels, DecodeNRGBA succeeds where DecodeFrame of frame 0 does, and beyond it exactly without a frame or with frame 0 outside the canvas |
| Stale.NRGBAIndependentIff | wasm/shim.c:467-487 | what DecodeNRGBA shows is the same for all earlier memory contents exactly when the codec paints every canvas byte |
| Stale.GrayIndependentIff | wasm/shim.c:467-487 | what DecodeGray shows is the same for all earlier memory contents exactly when the painted bytes of every pixel fix its gray value |
| Stale.SettledCases | convert.go:48-89 | a fully painted or transparent pixel fixes its gray value, a bare one never does |
| Stale.WholePixelsSettled | convert.go:48-89 | for a codec that paints whole pixels that condition is that it paints every byte |
| Stale.ProbedSourceShows | convenience.go:162-183 | a new NRGBA image shows source bytes wherever the codec paints nothing over the place the probe copied the source to |
| Stale.FreshDecodeShowsSource | convenience.go:70-72 | in the exported DecodeNRGBA, unpainted canvas byte 0xD0000 + i of a 512 x 512 source of at most 64 KiB is source byte i |
| Stale.StaleInstance | convenience.go:70-72 | a concrete codec and two-byte source for which DecodeNRGBA returns an image that holds the two bytes of the file |
| Protocol.MetadataIsWhatWasReported | metadata.go:149-252 | Metadata succeeds exactly within the stated sizes on readable reports, returns the joined chunks and last scalars, and otherwise answers the error of the first failing check |
| WbmpOracle.DimsAgree | decode_wbmp_integration_test.go:345-364 | on every header the guest accepts, the reference reader finds the same dimensions and consumes the same bytes |
| WbmpOracle.OraclePixels | decode_wbmp_integration_test.go:340-397 | fails exactly on a wrong header or missing bits; otherwise pixel k is white exactly when its own bit of its row-aligned byte is set |
| WbmpOracle.UnpackedAt | decode_wbmp_integration_test.go:366-397 | pixel (x, y) is white exactly when bit 7 - x mod 8 of byte y * ceil(w / 8) + x / 8 is set |
| WbmpOracle.BitsSpell | decode_wbmp_integration_test.go:366-397 | the eight bits of a byte spell it |
| WbmpOracle.VarintCases | decode_wbmp_integration_test.go:345-364 | the reference varint reader takes one to four groups, in shortest form or not |
| Nia.Premul8Bounds | decode_nie_integration_test.go:451-457 | premul8 never overflows or truncates, and never exceeds alpha |
| Nia.Premul8Opaque | decode_nie_integration_test.go:451-457 | premul8 leaves opaque pixels alone |
| Nia.EncodeRGBA | nia_encoder_test.go:22-53 | the row and column loops write the NIA stream of the image, for any stride |
| Nia.EncodedLayout | nia_encoder_test.go:22-53 | the stream's headers, padding to a multiple of eight and footer, byte by byte |
| Nia.EncodedPixel | nia_encoder_test.go:22-53 | pixel (x, y) lies in the stream as blue, green, red, alpha |
| Nia.FrameZeroPremulRGBA | decode_nie_integration_test.go:381-445 | the reader's header checks, wrapping int products and conversion loop compute the decoded image, or fail where it is fatal or panics |
| Nia.DecodedPixels | decode_nie_integration_test.go:409-445 | it succeeds exactly on a long enough payload of a supported configuration, and output pixel k is then the conversion of wire pixel k |
| Nia.ConvertCases | decode_nie_integration_test.go:425-443 | each configuration's pixel, channel by channel |
| Nia.WidenedAgrees | decode_nie_integration_test.go:425-469 | a 16-bit image of widened channels converts like its 8-bit image |
| Nia.ConfigurationsSpell | decode_nie_integration_test.go:404-443 | the four configurations and their bytes per pixel |
| Nia.OpenStill | decode_nie_integration_test.go:381-403 | where a still image's configuration and dimensions lie |
| Nia.OpenAnimated | decode_nie_integration_test.go:381-403 | a container's must match those of the still image inside |
| Nia.CountExactIff | decode_nie_integration_test.go:411-418 | no pixel is lost to the int products exactly when w * h * bpp is below 2^63 |
| Nia.WrappedImageAccepted | decode_nie_integration_test.go:411-418 | a 2^31 by 2^31 header is read as an image without a pixel |
| Nia.Premul16Bounds | decode_nie_integration_test.go:463-469 | premul16 never overflows or truncates, and never exceeds the alpha byte |
| Nia.ReadBackEncoded | nia_encoder_test.go:22-53 | reading an encoded image returns its dimensions and premultiplied pixels, tight or padded, odd or even |
| Nia.PremultipliedAt | decode_nie_integration_test.go:425-443 | pixel k of the result is the premultiplied pixel k of the image |
| Nia.ParsedPixelIsGrayable | decode_nie_integration_test.go:451-457 | parsed pixels meet the gray converter's bounds |

## Left out

- Decoder.Decoder.DecodeFrame: validateDestination can accept an image whose stride times height is 2^64 or more; its rows lie outside Pix (HostSpec.AcceptedRowsFitIff) and Go's copy panics. Exactly the calls that could reach that copy are excluded.
- Decoder.Decoder.DecodeRGBA: the same calls are excluded.
- Decoder.Decoder.DecodeNRGBA: the same calls are excluded.
- Decoder.Decoder.DecodeGray: the same calls are excluded.
- Protocol.Perform: the same calls are excluded.
- Shim.Guest.DecodeImage: a codec that stores past the end of memory in an oversized work buffer traps; only calls that return are modelled, and they may write any of the buffer that exists.
- Shim.Guest.DecodeFrame: the same calls are excluded.
- Wuffs itself and the generated module `internal/wuffswasm/wuffs.go`.
- Version numbers, the reader adapters, DecodeConfig, the WASI host, sync.Once and the real image registry.
- Frame duration, gamma and chromaticities as floats, modification time: the raw integers are carried.
- The injectable allocators and decoder fakes of the helpers; the default constructors are modelled.
- Pointer identity of reused results and allocation counts.
- Out-of-memory behaviour of Go allocations.
