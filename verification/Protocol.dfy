/** Facts about whole runs and about several calls together: the layout over
    any run, sizing and retrying, frame counts and frames, metadata end to end. */
module Protocol {
  import opened Bytes
  import opened Codec
  import opened Layout
  import opened Structs
  import opened Regions
  import opened Pack
  import opened MetadataWalk
  import opened Buffers
  import opened GuestSpec
  import opened HostSpec
  import opened Shim
  import opened Decoder
  import Convenience
  import Formats

  // ---- runs ----

  datatype Op =
    | OpReserve(dstBytes: int, srcBytes: int)
    | OpProbe(src: seq<byte>)
    | OpFrameCount(src: seq<byte>)
    | OpLoopCount(src: seq<byte>)
    | OpMetadata(src: seq<byte>)
    | OpFrame(image: Raster?, src: seq<byte>, index: int)
    | OpNRGBA(image: Raster?, src: seq<byte>)
    | OpGray(image: Raster?, src: seq<byte>)
  {
    ghost function Pixels(): set<object> {
      if (OpFrame? || OpNRGBA? || OpGray?) && image != null then {image.pix} else {}
    }

    /** The call does not panic in its copy into Pix. */
    ghost predicate Allowed(c: Codec, lay: SlotLayout) {
      && (OpFrame? && image != null ==> FrameSafe(c, lay, image.GetShape(), src, index))
      && (OpNRGBA? && image != null ==> ImageSafe(c, lay, image.GetShape(), 4, src, RGBA_NONPREMUL))
      && (OpGray? && image != null ==> ImageSafe(c, lay, image.GetShape(), 1, src, BGRA_PREMUL))
    }
  }

  /** Only Reserve moves memory or layout. */
  function Next(st: State, op: Op): State {
    if op.OpReserve? then AfterReserve(st, op.dstBytes, op.srcBytes) else st
  }

  /** Every call of the decoder is such a step. */
  method Perform(d: Decoder, op: Op)
    requires d.Valid() && op.Allowed(d.guest.codec, d.layout)
    modifies d, d.guest, op.Pixels()
    ensures d.Valid() && d.View() == Next(old(d.View()), op)
  {
    hide ComputeLayout, AfterReserve, FrameAnswer, ImageAnswer, FrameShown, ImageScratch;
    match op
    case OpReserve(dstBytes, srcBytes) => var _ := d.Reserve(dstBytes, srcBytes);
    case OpProbe(src) => var _ := d.Probe(src);
    case OpFrameCount(src) => var _ := d.FrameCount(src);
    case OpLoopCount(src) => var _ := d.LoopCount(src);
    case OpMetadata(src) => var _ := d.Metadata(src);
    case OpFrame(image, src, index) => var _ := d.DecodeFrame(image, src, index);
    case OpNRGBA(image, src) => var _ := d.DecodeNRGBA(image, src);
    case OpGray(image, src) => var _ := d.DecodeGray(image, src);
  }

  function Run(st: State, ops: seq<Op>): State
    decreases |ops|
  {
    if |ops| == 0 then st else Run(Next(st, ops[0]), ops[1..])
  }

  /** The Reserve requests of a run. */
  function Requests(ops: seq<Op>): seq<Request>
    decreases |ops|
  {
    if |ops| == 0 then []
    else if ops[0].OpReserve? then [Request(ops[0].dstBytes, ops[0].srcBytes)] + Requests(ops[1..])
    else Requests(ops[1..])
  }

  lemma {:induction false} RunIsReserves(st: State, ops: seq<Op>)
    ensures Run(st, ops) == RunReserve(st, Requests(ops))
    decreases |ops|
  {
    hide AfterReserve;
    if |ops| > 0 {
      RunIsReserves(Next(st, ops[0]), ops[1..]);
      if ops[0].OpReserve? {
        assert Requests(ops)[1..] == Requests(ops[1..]);
      }
    }
  }

  /** At every point of every run the six slots are ordered, disjoint, in bounds
      and above the guest's memory, and no layout arithmetic has wrapped. */
  lemma {:induction false} RunKeepsSlots(ops: seq<Op>)
    ensures var st := Run(FreshState(), ops);
            Sound(st) && Separated(st.lay, st.memSize) && Unwrapped(st.lay, st.memSize)
  {
    hide Sound, Separated, Unwrapped, ComputeLayout;
    FreshSound();
    RunSound(FreshState(), ops);
    SoundSeparated(Run(FreshState(), ops));
  }

  lemma {:induction false} RunSound(st: State, ops: seq<Op>)
    requires Sound(st)
    ensures Sound(Run(st, ops))
    ensures Run(st, ops).lay.dstLen >= st.lay.dstLen && Run(st, ops).lay.srcLen >= st.lay.srcLen
    decreases |ops|
  {
    hide Sound, AfterReserve;
    if |ops| > 0 {
      if ops[0].OpReserve? {
        ReserveKeepsSound(st, ops[0].dstBytes, ops[0].srcBytes);
      }
      RunSound(Next(st, ops[0]), ops[1..]);
    }
  }

  /** A run ends where the single Reserve of the component-wise maxima of its
      accepted requests ends, whatever else was called in between. */
  lemma {:induction false} RunHistoryIndependent(st: State, ops: seq<Op>)
    requires Sound(st)
    ensures var m := AcceptedMax(st, Requests(ops), Request(0, 0));
            Accepts(st, m.dst, m.src) && Run(st, ops) == AfterReserve(st, m.dst, m.src)
  {
    hide Sound, AfterReserve, Accepts;
    RunIsReserves(st, ops);
    ReserveHistoryIndependent(st, Requests(ops));
  }

  // ---- the work buffer and the source slot ----

  /** The work buffer stays off the source bytes exactly when it ends at or below
      the source slot; nothing in the guest checks that. */
  lemma WorkBufferApartIff(c: Codec, src: seq<byte>, st: State)
    requires Sound(st) && 0 < |src| <= st.lay.srcLen
    requires c.objSize(Formats.Sniff(src)) <= BUMP_LIMIT
    ensures Apart(Slot(WorkStart(c, src), WorkLen(c, src)), st.lay.srcOff, st.lay.srcOff + |src|)
            <==> WorkFits(c, src, st.lay.srcOff)
  {
    SoundSeparated(st);
    ArenaCovers(c, src, st.lay.srcOff);
  }

  /** On a new decoder, whose slots take any canvas of up to 128 KiB, a decode
      that asks for a 56 MiB work buffer gets as far as allocating it, and it
      reaches into the source slot. */
  lemma LargeWorkBufferReachesSource(c: Codec, src: seq<byte>, index: nat, fmt: int)
    requires 0 < |src| <= DEFAULT_SRC && KnownPixfmt(fmt) && Open(c, src).Opened?
    requires RoomFor(Open(c, src), INITIAL_DST)
    requires c.workMin(Formats.Sniff(src), src) <= c.workMax(Formats.Sniff(src), src) == 0x380_0000
    requires c.bindOk(Formats.Sniff(src), src) && index < |Frames(c, src).configs|
    ensures var lay := FreshState().lay;
            && Prepare(c, src, lay.dstLen, fmt) == 0
            && ReachFrame(c, src, lay.dstLen, index, fmt).Ready? && ReachImage(c, src, lay.dstLen, fmt).Ready?
            && c.objSize(Formats.Sniff(src)) <= BUMP_LIMIT
            && !Apart(Slot(WorkStart(c, src), WorkLen(c, src)), lay.srcOff, lay.srcOff + |src|)
  {
    hide ComputeLayout;
    FreshSound();
    FreshOffsets();
    OpenedSniff(c, src);
    WorkBufferApartIff(c, src, FreshState());
  }

  lemma FreshOffsets()
    ensures FreshState().lay.srcOff == 0x3FD_0000
    ensures FreshState().lay.srcLen == DEFAULT_SRC && FreshState().lay.dstLen == INITIAL_DST
  {
    SoundSeparated(FreshState());
  }

  /** After every run that can hold the source the work buffer fits below it,
      exactly when it ends within 80 bytes of the 32 MiB host base: the source
      slot never sits lower, and some run puts it there. */
  lemma {:induction false} WorkFitsOnEveryRunIff(c: Codec, src: seq<byte>)
    requires 0 < |src| && c.objSize(Formats.Sniff(src)) <= BUMP_LIMIT && Accepts(FreshState(), 0, |src|)
    ensures (forall ops :: |src| <= Run(FreshState(), ops).lay.srcLen ==>
                             WorkFits(c, src, Run(FreshState(), ops).lay.srcOff))
            <==> WorkEnd(c, src) <= HOST_BASE + SLOT_OVERHEAD
  {
    hide ComputeLayout, Sound, Accepts, WorkEnd;
    forall ops ensures Run(FreshState(), ops).lay.srcOff >= HOST_BASE + SLOT_OVERHEAD {
      RunKeepsSlots(ops);
      SourceAbove(Run(FreshState(), ops));
    }
    var ops := LowestSource(|src|);
    assert |src| <= Run(FreshState(), ops).lay.srcLen;
  }

  lemma SourceAbove(st: State)
    requires Sound(st)
    ensures st.lay.srcOff >= HOST_BASE + SLOT_OVERHEAD
  {
    hide ComputeLayout;
    SoundSeparated(st);
  }

  /** A run that fills the 256 MiB, so that the source slot sits as low as it can. */
  lemma {:induction false} LowestSource(n: nat) returns (ops: seq<Op>)
    requires Accepts(FreshState(), 0, n)
    ensures n <= Run(FreshState(), ops).lay.srcLen
    ensures Run(FreshState(), ops).lay.srcOff == HOST_BASE + SLOT_OVERHEAD
  {
    hide ComputeLayout;
    FreshSound();
    FreshOffsets();
    var dst := MAX_BYTES - HOST_BASE - SLOT_OVERHEAD - Max(DEFAULT_SRC, n);
    ops := [OpReserve(dst, n)];
    var st := AfterReserve(FreshState(), dst, n);
    FillsMemory(dst, Max(DEFAULT_SRC, n));
    ReserveKeepsSound(FreshState(), dst, n);
    assert Next(FreshState(), ops[0]) == st && ops[1..] == [];
    SoundSeparated(st);
  }

  lemma FillsMemory(dst: int, src: nat)
    requires dst == MAX_BYTES - HOST_BASE - SLOT_OVERHEAD - src && Required(INITIAL_DST, src) <= MAX_BYTES
    ensures dst >= INITIAL_DST && Required(dst, src) == MAX_BYTES && PageCeil(MAX_BYTES) == MAX_BYTES
  {}

  // ---- the work buffer after an automatic preparation ----

  /** Where the exported helpers put the source slot for a canvas of `need` bytes
      and a source of n bytes, on a new decoder: memory grows only to the page
      that holds the slots, and the slots sit at its end. */
  function PreparedSource(need: nat, n: nat): int {
    var d, s := Max(INITIAL_DST, need), Max(DEFAULT_SRC, n);
    Max(INITIAL_BYTES, PageCeil(Required(d, s))) - RoundUp8(SLOT_OVERHEAD + s + d) + SLOT_OVERHEAD
  }

  /** Once the slots no longer fit the initial 64 MiB, the source slot is within
      a page of the guest's own memory. */
  lemma PreparedSourceBound(need: nat, n: nat)
    ensures PreparedSource(need, n) >= HOST_BASE + SLOT_OVERHEAD
    ensures Required(Max(INITIAL_DST, need), Max(DEFAULT_SRC, n)) >= INITIAL_BYTES ==>
              PreparedSource(need, n) < HOST_BASE + SLOT_OVERHEAD + PAGE
  {}

  /** After a successful preparation on a new decoder the work buffer fits below
      the source exactly when it ends at or below that place. */
  lemma {:induction false} PreparedWorkFitsIff(c: Codec, src: seq<byte>, bpp: int, p: Convenience.Prep)
    requires (bpp == 1 || bpp == 4) && Convenience.PrepResult(c, FreshState(), src, bpp) == Success(p)
    ensures p.st.lay.srcOff == PreparedSource(Need(p.width, p.height), |src|)
    ensures c.objSize(Formats.Sniff(src)) <= BUMP_LIMIT
    ensures WorkFits(c, src, p.st.lay.srcOff) <==> WorkEnd(c, src) <= PreparedSource(Need(p.width, p.height), |src|)
  {
    hide ComputeLayout, Open, Convenience.AllocatingGeometry, ProbeResult, WorkEnd, Required, PageCeil, RoundUp8;
    FreshSound();
    FreshSizes();
    OpenedSniff(c, src);
    Convenience.PrepGuarantees(c, FreshState(), src, bpp);
    var need := Need(p.width, p.height);
    ReserveCompose(FreshState(), 0, |src|, need, |src|);
    ReserveKeepsSound(FreshState(), need, |src|);
    assert p.st == AfterReserve(FreshState(), need, |src|);
    SoundSeparated(p.st);
  }

  /** A 3000 x 3000 canvas whose codec asks for 3000 bytes more than the canvas
      as work buffer: the helpers prepare the decode, the guest reaches the frame,
      and the work buffer runs over the source bytes. */
  lemma {:induction false} PreparedDecodeReachesSource(c: Codec, src: seq<byte>, p: Convenience.Prep, fmt: int)
    requires Convenience.PrepResult(c, FreshState(), src, 4) == Success(p) && KnownPixfmt(fmt)
    requires p.width == 3000 && p.height == 3000
    requires c.workMin(Formats.Sniff(src), src) <= c.workMax(Formats.Sniff(src), src) == 36_003_000
    requires c.bindOk(Formats.Sniff(src), src) && |Frames(c, src).configs| > 0
    ensures var lay := p.st.lay;
            && ReachFrame(c, src, lay.dstLen, 0, fmt).Ready? && ReachImage(c, src, lay.dstLen, fmt).Ready?
            && c.objSize(Formats.Sniff(src)) <= BUMP_LIMIT
            && !Apart(Slot(WorkStart(c, src), WorkLen(c, src)), lay.srcOff, lay.srcOff + |src|)
  {
    hide ComputeLayout, Convenience.PrepResult, Sound, Required, PageCeil, RoundUp8, PreparedSource, AfterReserve;
    FreshSound();
    OpenedSniff(c, src);
    Convenience.PrepGuarantees(c, FreshState(), src, 4);
    PreparedWorkFitsIff(c, src, 4, p);
    LargeNeed(|src|);
    PreparedSourceBound(36_000_000, |src|);
    WorkBufferApartIff(c, src, p.st);
  }

  lemma LargeNeed(n: nat)
    ensures Need(3000, 3000) == 36_000_000
    ensures Required(Max(INITIAL_DST, 36_000_000), Max(DEFAULT_SRC, n)) >= INITIAL_BYTES
  {}

  // ---- sizing, failing and retrying ----

  /** With a known pixel format, a source that opens is too large for a slot
      exactly when its canvas is empty or longer than the slot. */
  lemma TooSmallIff(c: Codec, src: seq<byte>, dstCap: nat, fmt: int)
    requires Open(c, src).Opened? && KnownPixfmt(fmt)
    ensures Prepare(c, src, dstCap, fmt) == ERR_TOO_SMALL <==> !RoomFor(Open(c, src), dstCap)
  {}

  /** The MinBytes of a guest too-small error is the canvas size modulo 2^32. */
  lemma MinBytesWraps(o: Opened)
    requires o.Opened?
    ensures TooSmall(TooSmallMeta(o)) ==
            DstTooSmall(Wrap32(Need(o.width, o.height)), o.width, o.height, o.width * 4)
  {
    assert o.width * 4 * o.height == Need(o.width, o.height);
  }

  /** A decode export stops with the guest's too-small error. */
  predicate StopsTooSmall(c: Codec, src: seq<byte>, dstCap: nat, index: nat, fmt: int) {
    || ReachFrame(c, src, dstCap, index, fmt) == Stopped(ERR_TOO_SMALL)
    || ReachImage(c, src, dstCap, fmt) == Stopped(ERR_TOO_SMALL)
  }

  lemma StopsTooSmallIff(c: Codec, src: seq<byte>, dstCap: nat, index: nat, fmt: int)
    ensures StopsTooSmall(c, src, dstCap, index, fmt) <==> Prepare(c, src, dstCap, fmt) == ERR_TOO_SMALL
    ensures StopsTooSmall(c, src, dstCap, index, fmt) ==> Open(c, src).Opened?
  {
    OpenedSniff(c, src);
    if |src| == 0 {
      assert Formats.Sniff(src) == 0;
    }
  }

  /** The destination and source slots a decode needs fit the page limit. */
  predicate Reservable(c: Codec, st: State, src: seq<byte>)
    requires Open(c, src).Opened?
  {
    var need := Need(Open(c, src).width, Open(c, src).height);
    0 < need && Required(Max(st.lay.dstLen, need), Max(st.lay.srcLen, |src|)) <= MAX_BYTES
  }

  /** Retry protocol. After a guest too-small error, Reserve(MinBytes, len(src))
      is accepted and then, whatever calls intervene, no decode of the source, of
      any frame and in any pixel format, fails with the too-small error again, exactly when the canvas is not empty
      and its slots fit the page limit; and then MinBytes is the canvas size. */
  lemma {:induction false} RetryWorksIff(c: Codec, st: State, src: seq<byte>, index: nat, index': nat, fmt: int,
                                         fmt': int, e: Error, ops: seq<Op>)
    requires Sound(st) && KnownPixfmt(fmt) && KnownPixfmt(fmt')
    requires StopsTooSmall(c, src, st.lay.dstLen, index, fmt)
    requires e == GuestError(c, src, ERR_TOO_SMALL)
    ensures Open(c, src).Opened? && e.DstTooSmall?
    ensures var later := Run(AfterReserve(st, e.minBytes, |src|), ops);
            Accepts(st, e.minBytes, |src|) && |src| <= later.lay.srcLen
              && !StopsTooSmall(c, src, later.lay.dstLen, index', fmt')
            <==> Reservable(c, st, src)
    ensures Reservable(c, st, src) ==> e.minBytes == Need(Open(c, src).width, Open(c, src).height)
  {
    hide AfterReserve, Prepare, Open, Need, StopsTooSmall, ComputeLayout, RoundUp8;
    var o := Open(c, src);
    StopsTooSmallIff(c, src, st.lay.dstLen, index, fmt);
    MinBytesWraps(o);
    var st' := AfterReserve(st, e.minBytes, |src|);
    ReserveKeepsSound(st, e.minBytes, |src|);
    RunSound(st', ops);
    var later := Run(st', ops);
    StopsTooSmallIff(c, src, later.lay.dstLen, index', fmt');
    TooSmallIff(c, src, later.lay.dstLen, fmt');
  }

  /** Some run of calls leads to a state that can decode the source, exactly on
      the same condition: beyond it nothing the caller reserves ever helps. */
  lemma {:induction false} SomeRunDecodesIff(c: Codec, st: State, src: seq<byte>, fmt: int)
    requires Sound(st) && KnownPixfmt(fmt) && Open(c, src).Opened?
    ensures (exists ops :: Decodable(c, Run(st, ops), src, fmt)) <==> Reservable(c, st, src)
  {
    if Reservable(c, st, src) {
      var ops := ReservingRun(c, st, src, fmt);
    }
    if ops :| Decodable(c, Run(st, ops), src, fmt) {
      DecodableReservable(c, st, src, fmt, ops);
    }
  }

  lemma {:induction false} DecodableReservable(c: Codec, st: State, src: seq<byte>, fmt: int, ops: seq<Op>)
    requires Sound(st) && KnownPixfmt(fmt) && Open(c, src).Opened?
    requires Decodable(c, Run(st, ops), src, fmt)
    ensures Reservable(c, st, src)
  {
    hide Prepare, Open, Need, ComputeLayout, RoundUp8;
    var need := Need(Open(c, src).width, Open(c, src).height);
    var later := Run(st, ops);
    RunSound(st, ops);
    TooSmallIff(c, src, later.lay.dstLen, fmt);
    RequiredMono(Max(st.lay.dstLen, need), Max(st.lay.srcLen, |src|), later.lay.dstLen, later.lay.srcLen);
  }

  lemma {:induction false} ReservingRun(c: Codec, st: State, src: seq<byte>, fmt: int) returns (ops: seq<Op>)
    requires Sound(st) && KnownPixfmt(fmt) && Open(c, src).Opened?
    requires Reservable(c, st, src)
    ensures Decodable(c, Run(st, ops), src, fmt)
  {
    hide AfterReserve, Prepare, Open, Need, ComputeLayout, RoundUp8;
    var need := Need(Open(c, src).width, Open(c, src).height);
    ops := [OpReserve(need, |src|)];
    assert ops[1..] == [] && Next(st, ops[0]) == AfterReserve(st, need, |src|);
    assert Run(st, ops) == Run(AfterReserve(st, need, |src|), []);
    ReserveKeepsSound(st, need, |src|);
    TooSmallIff(c, src, Run(st, ops).lay.dstLen, fmt);
  }

  /** The source and its canvas fit their slots. */
  predicate Decodable(c: Codec, st: State, src: seq<byte>, fmt: int) {
    |src| <= st.lay.srcLen && Prepare(c, src, st.lay.dstLen, fmt) != ERR_TOO_SMALL
  }

  /** An 8192 x 8192 canvas fits 32 bits, and MinBytes is its size, yet no run
      from any state ever decodes it: with the slots it needs more than 256 MiB. */
  lemma {:induction false} LargeCanvasNeverDecodes(c: Codec, st: State, src: seq<byte>, fmt: int, ops: seq<Op>)
    requires Sound(st) && KnownPixfmt(fmt)
    requires Open(c, src).Opened? && Open(c, src).width == 8192 && Open(c, src).height == 8192
    ensures GuestError(c, src, ERR_TOO_SMALL) == DstTooSmall(0x1000_0000, 8192, 8192, 32768)
    ensures !Accepts(st, 0x1000_0000, |src|) && !Decodable(c, Run(st, ops), src, fmt)
  {
    hide Prepare, Open, ComputeLayout, Decodable;
    MinBytesWraps(Open(c, src));
    SomeRunDecodesIff(c, st, src, fmt);
    BeyondLimit(0x1000_0000, st, src);
  }

  /** A 32768 x 32768 canvas has 2^32 bytes: MinBytes wraps to 0, so the reported
      reservation is accepted on a decoder that holds the source, and changes nothing. */
  lemma {:induction false} WrappedCanvasNeverDecodes(c: Codec, st: State, src: seq<byte>, fmt: int, ops: seq<Op>)
    requires Sound(st) && KnownPixfmt(fmt)
    requires Open(c, src).Opened? && Open(c, src).width == 32768 && Open(c, src).height == 32768
    ensures GuestError(c, src, ERR_TOO_SMALL) == DstTooSmall(0, 32768, 32768, 131072)
    ensures |src| <= st.lay.srcLen ==> Accepts(st, 0, |src|) && AfterReserve(st, 0, |src|) == st
    ensures !Decodable(c, Run(st, ops), src, fmt)
  {
    hide Prepare, Open, ComputeLayout, Decodable;
    MinBytesWraps(Open(c, src));
    SomeRunDecodesIff(c, st, src, fmt);
    BeyondLimit(0x1_0000_0000, st, src);
    ReserveNothing(st);
  }

  lemma BeyondLimit(dst: nat, st: State, src: seq<byte>)
    requires dst >= 0x1000_0000
    ensures Required(Max(st.lay.dstLen, dst), Max(st.lay.srcLen, |src|)) > MAX_BYTES
  {}

  // ---- frame count and frames ----

  /** If FrameCount answers n, then DecodeFrame's config walk reaches its frame
      for exactly the indices below n once the canvas is prepared, and every
      other index is a decode error whenever the canvas fits the slot. */
  lemma FrameCountBoundsFrames(c: Codec, lay: SlotLayout, s: Shape, src: seq<byte>, n: nat, index: int, painted: bool)
    requires FrameCountResult(c, lay, src) == Success(n)
    requires Open(c, src).Opened? ==> RoomFor(Open(c, src), lay.dstLen)
    ensures Open(c, src).Opened? && n > 0
    ensures Prepare(c, src, lay.dstLen, RGBA_PREMUL) == 0 ==>
              (ReachFrame(c, src, lay.dstLen, index, RGBA_PREMUL).Ready? <==> 0 <= index < n)
    ensures !(0 <= index < n) ==> FrameResult(c, lay, s, src, index, painted) == Failure(ErrDecode)
  {
    OpenedSniff(c, src);
  }

  /** A successful DecodeFrame says what FrameCount answers: the number of
      configs, which exceeds the index, unless the stream ends badly after it. */
  lemma FrameDecodesWithinCount(c: Codec, lay: SlotLayout, s: Shape, src: seq<byte>, index: int, r: Result<Frame, Error>)
    requires FrameAnswer(c, lay, s, src, index, r) && r.Success?
    ensures 0 <= index < |Frames(c, src).configs|
    ensures FrameCountResult(c, lay, src) ==
            if Frames(c, src).endsCleanly then Success(|Frames(c, src).configs|) else Failure(ErrDecode)
  {
    hide ValidateDestination;
    OpenedSniff(c, src);
  }

  /** On one destination, where the codec paints both: DecodeNRGBA succeeds when
      DecodeFrame of frame 0 does, and beyond it exactly without a frame or when
      frame 0 leaves the canvas; otherwise they fail with one error. The codec's
      two verdicts on the pixels are independent. */
  lemma ImageAgreesWithFrameZero(c: Codec, lay: SlotLayout, s: Shape, src: seq<byte>, fmt: int,
                                 imagePainted: bool, framePainted: bool)
    requires KnownPixfmt(fmt)
    ensures var image := ImageResult(c, lay, s, 4, src, fmt, imagePainted);
            var frame := FrameResult(c, lay, s, src, 0, framePainted);
            && (image.Success? ==> imagePainted) && (frame.Success? ==> framePainted)
            && (frame.Success? ==> (image.Success? <==> imagePainted))
            && (image.Success? ==>
                  && Open(c, src).Opened? && image.value == DoneMeta(Open(c, src))
                  && (frame.Success? <==>
                        && framePainted && |Frames(c, src).configs| > 0
                        && var zero := FrameOf(0, Frames(c, src).configs[0]);
                           BoundsInCanvas(zero, Open(c, src).width, Open(c, src).height)))
            && (image.Failure? && imagePainted && framePainted && |Frames(c, src).configs| > 0 ==>
                  frame == Failure(image.error))
  {
    hide ValidateDestination, BoundsInCanvas, FrameOf;
    OpenedSniff(c, src);
  }

  // ---- metadata end to end ----

  /** Metadata succeeds exactly when the source fits its slot, the destination slot
      is 64 KiB or more, the format is known, object and buffers fit 4 MiB, the
      reports are readable and the pack fits. Then each blob is the in-order
      concatenation of the chunks reported for its kind and each scalar is the
      last one reported. */
  lemma {:induction false} MetadataIsWhatWasReported(c: Codec, lay: SlotLayout, src: seq<byte>)
    ensures var f := Formats.Sniff(src);
            var stream := c.metadata(f, src);
            var reports := Reports(stream.items);
            var exif, icc, xmp := Joined(Exif, reports, src), Joined(Iccp, reports, src), Joined(Xmp, reports, src);
            var ok :=
              && 0 < |src| <= lay.srcLen && lay.dstLen >= 65536
              && f != 0 && c.objSize(f) + 2 * 1_048_576 + 2 * |src| <= 4_194_304 && c.initOk(f)
              && Readable(src, stream) && 88 + |exif| + |icc| + |xmp| <= lay.dstLen;
            && (MetadataResult(c, lay, src).Success? <==> ok)
            && (ok ==>
                  var md := MetadataResult(c, lay, src).value;
                  && md.format == f && md.exif == exif && md.icc == icc && md.xmp == xmp && !md.hasModTime
                  && md.gama == (match Latest(Gama, reports) case None => None case Some(a) => Some(a.gama))
                  && md.chrm == (match Latest(Chrm, reports) case None => None case Some(a) => Some(a.chrm))
                  && md.srgb == (match Latest(Srgb, reports) case None => None case Some(a) => Some(a.srgb)))
            && (!ok ==>
                  MetadataResult(c, lay, src) ==
                  Failure(if |src| > lay.srcLen then ErrSrcTooLarge
                          else if lay.dstLen >= 65536 && |src| > 0 && f == 0 then ErrUnknownFormat else ErrDecode))
  {
    hide Walk, Readable, Reports, Joined, Latest, Formats.Sniff;
    WalkMeaning(src, c.metadata(Formats.Sniff(src), src));
  }
}
