/** memory.go: where the host slots sit in the guest's linear memory, and how
    Reserve grows them. All uint32 arithmetic is written with explicit wrapping. */
module Layout {
  import opened Bytes

  const INITIAL_DST := 128 * 1024
  const DEFAULT_SRC := 64 * 1024
  const META_BYTES := 24
  const FRAME_META_BYTES := 48
  const SCRATCH_BYTES := 56
  const SLOT_OVERHEAD := SCRATCH_BYTES + META_BYTES
  const HOST_BASE := 0x2000000
  const PAGE := 0x10000
  const MAX_PAGES := 4096
  const MAX_BYTES := MAX_PAGES * PAGE
  const INITIAL_BYTES := 64 * 1024 * 1024

  // ---- the code's uint32 arithmetic ----

  function Align8(n: u32): (r: u32)
    ensures r % 8 == 0
    ensures n <= MAX_U32 - 7 ==> n <= r < n + 8
  {
    var m := Wrap32(n + 7);
    m - m % 8
  }

  function SlotTotal(dstBytes: u32, srcBytes: u32): u32 {
    Align8(Wrap32(Wrap32(SLOT_OVERHEAD + srcBytes) + dstBytes))
  }

  datatype SlotLayout = SlotLayout(
    countOutOff: u32,
    loopsOutOff: u32,
    frameMetaOff: u32,
    metaOff: u32,
    metaLen: u32,
    srcOff: u32,
    srcLen: u32,
    dstOff: u32,
    dstLen: u32,
    hostBase: u32)

  function ComputeLayout(memSize: u32, dstBytes: u32, srcBytes: u32): SlotLayout {
    var below := Wrap32(memSize - SlotTotal(dstBytes, srcBytes));
    var base := if below < HOST_BASE then HOST_BASE else below;
    var metaOff := Wrap32(base + SCRATCH_BYTES);
    var srcOff := Wrap32(metaOff + META_BYTES);
    SlotLayout(base, Wrap32(base + 4), Wrap32(base + 8), metaOff, META_BYTES,
               srcOff, srcBytes, Wrap32(srcOff + srcBytes), dstBytes, base)
  }

  datatype ReserveError = Invalid | GrowFailed

  function ResolveSlot(current: u32, requested: int): Result<u32, ReserveError> {
    if requested <= 0 then Success(current)
    else if requested > MAX_U32 then Failure(Invalid)
    else Success(Max(current, requested))
  }

  // ---- what the layout promises, in unbounded arithmetic ----

  function RoundUp8(n: nat): (r: nat)
    ensures r % 8 == 0 && n <= r < n + 8
  {
    (n + 7) / 8 * 8
  }

  function PageCeil(n: nat): (r: nat)
    ensures r % PAGE == 0 && n <= r < n + PAGE
  {
    (n + PAGE - 1) / PAGE * PAGE
  }

  /** Bytes of memory that slots of these sizes require. */
  function Required(dst: nat, src: nat): nat {
    HOST_BASE + RoundUp8(SLOT_OVERHEAD + src + dst)
  }

  /** The six slots are ordered, disjoint, in bounds and above the guest's own memory. */
  ghost predicate Separated(lay: SlotLayout, memSize: int) {
    && HOST_BASE <= lay.hostBase == lay.countOutOff
    && lay.countOutOff + 4 <= lay.loopsOutOff
    && lay.loopsOutOff + 4 <= lay.frameMetaOff
    && lay.frameMetaOff + FRAME_META_BYTES <= lay.metaOff
    && lay.metaOff + lay.metaLen <= lay.srcOff
    && lay.srcOff + lay.srcLen <= lay.dstOff
    && lay.dstOff + lay.dstLen <= memSize
    && lay.metaLen == META_BYTES
    && lay.frameMetaOff % 8 == 0
    && lay.metaOff % 8 == 0
  }

  /** No uint32 operation of ComputeLayout wraps: its offsets are the sums in unbounded integers. */
  ghost predicate Unwrapped(lay: SlotLayout, memSize: int) {
    && lay.hostBase == memSize - RoundUp8(SLOT_OVERHEAD + lay.srcLen + lay.dstLen)
    && lay.loopsOutOff == lay.countOutOff + 4
    && lay.frameMetaOff == lay.countOutOff + 8
    && lay.metaOff == lay.hostBase + SCRATCH_BYTES
    && lay.srcOff == lay.metaOff + META_BYTES
    && lay.dstOff == lay.srcOff + lay.srcLen
  }

  lemma Align8Exact(n: u32)
    requires n <= MAX_U32 - 7
    ensures Align8(n) == RoundUp8(n)
  {}

  lemma PageAligned8(memSize: int, total: int)
    requires memSize % PAGE == 0 && total % 8 == 0
    ensures (memSize - total) % 8 == 0
    ensures (memSize - total + 8) % 8 == 0 && (memSize - total + SCRATCH_BYTES) % 8 == 0
  {
    var p, t := memSize / PAGE, total / 8;
    assert memSize - total == 8 * (8192 * p - t);
  }

  lemma LayoutSound(memSize: int, dst: u32, src: u32)
    requires memSize % PAGE == 0 && Required(dst, src) <= memSize <= MAX_BYTES
    ensures var lay := ComputeLayout(memSize, dst, src);
            lay.dstLen == dst && lay.srcLen == src && Separated(lay, memSize) && Unwrapped(lay, memSize)
  {
    Align8Exact(SLOT_OVERHEAD + src + dst);
    var total := RoundUp8(SLOT_OVERHEAD + src + dst);
    assert SlotTotal(dst, src) == total;
    PageAligned8(memSize, total);
  }

  // ---- the memory size and the layout as a state ----

  datatype State = State(memSize: int, lay: SlotLayout)

  /** What every decoder state satisfies. */
  ghost predicate Sound(st: State) {
    && INITIAL_BYTES <= st.memSize <= MAX_BYTES
    && st.memSize % PAGE == 0
    && Required(st.lay.dstLen, st.lay.srcLen) <= st.memSize
    && st.lay == ComputeLayout(st.memSize, st.lay.dstLen, st.lay.srcLen)
  }

  function FreshState(): State {
    State(INITIAL_BYTES, ComputeLayout(INITIAL_BYTES, INITIAL_DST, DEFAULT_SRC))
  }

  lemma FreshSound()
    ensures Sound(FreshState())
  {}

  lemma SoundSeparated(st: State)
    requires Sound(st)
    ensures INITIAL_BYTES <= st.memSize <= MAX_BYTES
    ensures Separated(st.lay, st.memSize) && Unwrapped(st.lay, st.memSize)
  {
    LayoutSound(st.memSize, st.lay.dstLen, st.lay.srcLen);
  }

  /** Reserve's request fits the module's page limit. */
  predicate Accepts(st: State, dst: int, src: int) {
    Required(Max(st.lay.dstLen, dst), Max(st.lay.srcLen, src)) <= MAX_BYTES
  }

  /** The state after Reserve(dst, src). */
  function AfterReserve(st: State, dst: int, src: int): State {
    if Accepts(st, dst, src) then
      var d := Max(st.lay.dstLen, dst);
      var s := Max(st.lay.srcLen, src);
      var size := Max(st.memSize, PageCeil(Required(d, s)));
      State(size, ComputeLayout(Wrap32(size), d, s))
    else
      st
  }

  lemma CeilWithin(n: nat, limit: nat)
    requires n <= limit && limit % PAGE == 0
    ensures PageCeil(n) <= limit
  {}

  lemma CeilMono(a: nat, b: nat)
    requires a <= b
    ensures PageCeil(a) <= PageCeil(b)
  {
    assert (a + PAGE - 1) / PAGE <= (b + PAGE - 1) / PAGE;
  }

  lemma RequiredMono(d: nat, s: nat, d': nat, s': nat)
    requires d <= d' && s <= s'
    ensures Required(d, s) <= Required(d', s')
  {}

  lemma ReserveKeepsSound(st: State, dst: int, src: int)
    requires Sound(st)
    ensures Sound(AfterReserve(st, dst, src))
    ensures AfterReserve(st, dst, src).lay.dstLen ==
            if Accepts(st, dst, src) then Max(st.lay.dstLen, dst) else st.lay.dstLen
    ensures AfterReserve(st, dst, src).lay.srcLen ==
            if Accepts(st, dst, src) then Max(st.lay.srcLen, src) else st.lay.srcLen
  {
    if Accepts(st, dst, src) {
      CeilWithin(Required(Max(st.lay.dstLen, dst), Max(st.lay.srcLen, src)), MAX_BYTES);
    }
  }

  /** Two accepted requests have the effect of the one that asks for the larger of each slot. */
  lemma ReserveCompose(st: State, d1: int, s1: int, d2: int, s2: int)
    requires Sound(st) && Accepts(st, d1, s1)
    ensures Accepts(AfterReserve(st, d1, s1), d2, s2) <==> Accepts(st, Max(d1, d2), Max(s1, s2))
    ensures Accepts(AfterReserve(st, d1, s1), d2, s2) ==>
              AfterReserve(AfterReserve(st, d1, s1), d2, s2) == AfterReserve(st, Max(d1, d2), Max(s1, s2))
  {
    ReserveKeepsSound(st, d1, s1);
    var d, s := Max(st.lay.dstLen, d1), Max(st.lay.srcLen, s1);
    var d', s' := Max(d, d2), Max(s, s2);
    assert d' == Max(st.lay.dstLen, Max(d1, d2)) && s' == Max(st.lay.srcLen, Max(s1, s2));
    RequiredMono(d, s, d', s');
    CeilMono(Required(d, s), Required(d', s'));
    assert Max(Max(st.memSize, PageCeil(Required(d, s))), PageCeil(Required(d', s')))
        == Max(st.memSize, PageCeil(Required(d', s')));
  }

  lemma FreshSizes()
    ensures FreshState().lay.dstLen == INITIAL_DST == 131_072 && FreshState().lay.srcLen == DEFAULT_SRC == 65_536
    ensures FreshState().memSize == 67_108_864
    ensures Required(INITIAL_DST, DEFAULT_SRC) <= INITIAL_BYTES && Required(0x10_0000, DEFAULT_SRC) <= INITIAL_BYTES
  {}

  /** A request that already fits the memory moves the layout alone. */
  lemma ReserveWithin(st: State, dst: int, src: int)
    requires Sound(st) && Required(Max(st.lay.dstLen, dst), Max(st.lay.srcLen, src)) <= st.memSize
    ensures var st' := AfterReserve(st, dst, src);
            && Sound(st') && st'.memSize == st.memSize
            && st'.lay.dstLen == Max(st.lay.dstLen, dst) && st'.lay.srcLen == Max(st.lay.srcLen, src)
  {
    hide ComputeLayout, Required;
    ReserveKeepsSound(st, dst, src);
    CeilWithin(Required(Max(st.lay.dstLen, dst), Max(st.lay.srcLen, src)), st.memSize);
  }

  /** Exactly which requests are accepted: both slots together get the 224 MiB
      above the guest's memory, less the 80 bytes of the fixed slots. */
  lemma AcceptsExactly(st: State, dst: int, src: int)
    ensures Accepts(st, dst, src) <==> Max(st.lay.dstLen, dst) + Max(st.lay.srcLen, src) <= 234_880_944
  {}

  /** The state an accepted request leaves: the least whole number of pages that
      holds the slots, unless memory was larger already, and the slots packed
      from the end of memory down in this order. */
  lemma ReservedExactly(st: State, dst: int, src: int)
    requires Sound(st) && Accepts(st, dst, src)
    ensures var st' := AfterReserve(st, dst, src);
            var d, s := Max(st.lay.dstLen, dst), Max(st.lay.srcLen, src);
            && st'.lay.dstLen == d && st'.lay.srcLen == s
            && st'.memSize % 65536 == 0 && st'.memSize >= st.memSize
            && st'.memSize >= 33_554_432 + 80 + s + d
            && (st'.memSize > st.memSize ==> st'.memSize - 65536 < 33_554_432 + 80 + s + d + 7)
            && st'.lay.dstOff + d <= st'.memSize < st'.lay.dstOff + d + 8
            && st'.lay.srcOff + s == st'.lay.dstOff
            && st'.lay.metaOff + 24 == st'.lay.srcOff && st'.lay.metaOff % 8 == 0
            && st'.lay.frameMetaOff + 48 == st'.lay.metaOff
            && st'.lay.loopsOutOff + 4 == st'.lay.frameMetaOff
            && st'.lay.countOutOff + 4 == st'.lay.loopsOutOff
  {
    hide ComputeLayout;
    ReserveKeepsSound(st, dst, src);
    SoundSeparated(AfterReserve(st, dst, src));
  }

  // ---- Reserve's own checks, in uint64 arithmetic ----

  /** The memory Reserve computes it needs, or the rejection of one of its checks. */
  function CheckedRequirement(newDst: u32, newSrc: u32): Result<u64, ReserveError> {
    var total := Wrap64(Wrap64(SLOT_OVERHEAD + newSrc) + newDst);
    if total < newSrc || total < newDst then Failure(Invalid)
    else
      var up := Wrap64(total + 7);
      var aligned := up - up % 8;
      var requiredMem := Wrap64(HOST_BASE + aligned);
      if requiredMem < HOST_BASE || requiredMem > MAX_BYTES then Failure(Invalid)
      else Success(requiredMem)
  }

  lemma RequirementExact(newDst: u32, newSrc: u32)
    ensures CheckedRequirement(newDst, newSrc) ==
            if Required(newDst, newSrc) <= MAX_BYTES then Success(Required(newDst, newSrc)) else Failure(Invalid)
  {
    hide Wrap64;
    var total := SLOT_OVERHEAD + newSrc + newDst;
    assert total + 7 - (total + 7) % 8 == RoundUp8(total);
  }

  lemma ResolveIsMax(current: u32, requested: int)
    ensures ResolveSlot(current, requested) ==
            if requested > MAX_U32 then Failure(Invalid) else Success(Max(current, requested))
  {}

  lemma TooLargeRejected(st: State, dst: int, src: int)
    requires dst > MAX_U32 || src > MAX_U32
    ensures !Accepts(st, dst, src)
  {}

  /** Pages that Reserve grows to. */
  function PagesFor(requiredMem: nat): nat {
    (requiredMem + PAGE - 1) / PAGE
  }

  lemma PagesEnough(size: nat, requiredMem: nat)
    requires size % PAGE == 0 && requiredMem <= MAX_BYTES
    ensures PagesFor(requiredMem) <= MAX_PAGES && PageCeil(requiredMem) == PagesFor(requiredMem) * PAGE
    ensures PagesFor(requiredMem) > size / PAGE ==>
              size + (PagesFor(requiredMem) - size / PAGE) * PAGE == PageCeil(requiredMem) > size
    ensures PagesFor(requiredMem) <= size / PAGE ==> PageCeil(requiredMem) <= size
  {
    assert size == size / PAGE * PAGE;
  }

  // ---- runs of Reserve ----

  datatype Request = Request(dst: int, src: int)

  function RunReserve(st: State, reqs: seq<Request>): State
    decreases |reqs|
  {
    if |reqs| == 0 then st
    else RunReserve(AfterReserve(st, reqs[0].dst, reqs[0].src), reqs[1..])
  }

  /** The component-wise maxima of the requests that a run accepts, at least `top`. */
  function AcceptedMax(st: State, reqs: seq<Request>, top: Request): Request
    decreases |reqs|
  {
    if |reqs| == 0 then top
    else
      var r := reqs[0];
      var top' := if Accepts(st, r.dst, r.src)
                  then Request(Max(top.dst, r.dst), Max(top.src, r.src)) else top;
      AcceptedMax(AfterReserve(st, r.dst, r.src), reqs[1..], top')
  }

  lemma ReserveNothing(st: State)
    requires Sound(st)
    ensures Accepts(st, 0, 0) && AfterReserve(st, 0, 0) == st
  {
    CeilWithin(Required(st.lay.dstLen, st.lay.srcLen), st.memSize);
  }

  lemma {:induction false} RunFromMax(start: State, top: Request, reqs: seq<Request>)
    requires Sound(start) && Accepts(start, top.dst, top.src)
    ensures var st := AfterReserve(start, top.dst, top.src);
            var m := AcceptedMax(st, reqs, top);
            Accepts(start, m.dst, m.src) && RunReserve(st, reqs) == AfterReserve(start, m.dst, m.src)
    decreases |reqs|
  {
    var st := AfterReserve(start, top.dst, top.src);
    if |reqs| > 0 {
      var r := reqs[0];
      ReserveCompose(start, top.dst, top.src, r.dst, r.src);
      var top' := if Accepts(st, r.dst, r.src)
                  then Request(Max(top.dst, r.dst), Max(top.src, r.src)) else top;
      RunFromMax(start, top', reqs[1..]);
    }
  }

  /** Reserve forgets its history: any run ends where the single request for
      the component-wise maxima of the accepted requests ends. */
  lemma {:induction false} ReserveHistoryIndependent(start: State, reqs: seq<Request>)
    requires Sound(start)
    ensures var m := AcceptedMax(start, reqs, Request(0, 0));
            Accepts(start, m.dst, m.src) && RunReserve(start, reqs) == AfterReserve(start, m.dst, m.src)
  {
    ReserveNothing(start);
    RunFromMax(start, Request(0, 0), reqs);
  }
}
