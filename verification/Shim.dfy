/** wasm/shim.c: the exports as steps over the module's linear memory. Codec
    calls are answered from the bytes that are in memory when they are made. */
module Shim {
  import opened Bytes
  import opened Codec
  import opened Layout
  import opened Regions
  import opened Structs
  import opened GuestSpec
  import opened MetadataWalk
  import opened Pack
  import opened Buffers
  import Formats

  /** The guest's own memory, from the bump arena up to `end`. */
  function Arena(end: int): Region {
    Region(BUMP_BASE, end)
  }

  function Slot(off: int, n: int): Region {
    Region(off, off + n)
  }

  const NO_CONFIG := FrameConfig(0, 0, 0, 0, 0, 0, 0, false, false, 0, 0, 0, 0)

  /** A zeroed frame meta but for its error code. */
  function FrameError(err: i32): (s: seq<byte>)
    ensures |s| == FRAME_META_BYTES
  {
    Put32(Wrap32(err)) + Zeros(44)
  }

  class Guest {
    const codec: Codec
    var mem: seq<byte>
    var bumpPtr: u32

    constructor (codec: Codec, image: seq<byte>)
      requires |image| == INITIAL_BYTES
      ensures this.codec == codec && mem == image
    {
      this.codec := codec;
      mem := image;
      bumpPtr := BUMP_BASE;
    }

    predicate Valid()
      reads this
    {
      INITIAL_BYTES <= |mem| <= MAX_BYTES
    }

    /** A slot of the host region. */
    predicate HostSlot(off: int, n: int)
      reads this
    {
      HOST_BASE <= off && 0 <= n && off + n <= |mem|
    }

    // ---- memory ----

    /** Memory growth: refused beyond `limit` pages, zero-filled otherwise. */
    method Grow(delta: nat, limit: nat) returns (ok: bool)
      modifies `mem
      ensures ok <==> old(|mem|) / PAGE + delta <= limit
      ensures mem == if ok then old(mem) + Zeros(delta * PAGE) else old(mem)
    {
      ok := |mem| / PAGE + delta <= limit;
      if ok {
        mem := mem + Zeros(delta * PAGE);
      }
    }

    method Put(off: int, data: seq<byte>)
      requires 0 <= off && off + |data| <= |mem|
      modifies `mem
      ensures mem == Write(old(mem), off, data)
      ensures |mem| == |old(mem)|
      ensures OnlyWrites(old(mem), mem, [Slot(off, |data|)])
      ensures mem[off..off + |data|] == data
    {
      WriteOnly(mem, off, data);
      ReadBack(mem, off, data);
      mem := Write(mem, off, data);
    }

    /** The codec's private use of a buffer: any bytes may end up in it. */
    method Scribble(off: int, n: nat)
      requires 0 <= off && off + n <= |mem|
      modifies `mem
      ensures |mem| == |old(mem)|
      ensures OnlyWrites(old(mem), mem, [Slot(off, n)])
    {
      var junk := Junk(n);
      Put(off, junk);
    }

    /** Any bytes. */
    method Junk(n: nat) returns (junk: seq<byte>)
      ensures |junk| == n
    {
      assert |Zeros(n)| == n;
      junk :| |junk| == n;
    }

    method BumpRewind()
      modifies `bumpPtr
      ensures bumpPtr == BUMP_BASE
    {
      bumpPtr := BUMP_BASE;
    }

    method BumpAlloc(size: u32) returns (p: u32)
      modifies `bumpPtr
      ensures p == old(bumpPtr) && bumpPtr == Wrap32(old(bumpPtr) + Align8(size))
    {
      p := bumpPtr;
      bumpPtr := Wrap32(bumpPtr + Align8(size));
    }

    // ---- the shared opening steps ----

    /** Rewind, sniff, find, guard, allocate, initialise, decode the image config. */
    method OpenDecoder(srcOff: int, srcLen: nat) returns (o: Opened)
      requires Valid() && HostSlot(srcOff, srcLen)
      modifies this
      ensures o == Open(codec, old(mem)[srcOff..srcOff + srcLen])
      ensures |mem| == |old(mem)|
      ensures OnlyWrites(old(mem), mem, [Arena(HOST_BASE)])
      ensures mem[srcOff..srcOff + srcLen] == old(mem)[srcOff..srcOff + srcLen]
      ensures o.Opened? ==>
                && codec.objSize(o.fourcc) <= BUMP_LIMIT
                && bumpPtr == BUMP_BASE + Align8(codec.objSize(o.fourcc))
    {
      hide OnlyWrites, Formats.Sniff, Formats.Recognises;
      WritesNothing(mem, [Arena(HOST_BASE)]);
      BumpRewind();
      var fourcc := Formats.Sniff(mem[srcOff..srcOff + srcLen]);
      var slot := Formats.FindDecoder(fourcc);
      ghost var w := Formats.SniffWitness(mem[srcOff..srcOff + srcLen]);
      if slot.None? {
        return Refused(ERR_UNKNOWN);
      }
      Formats.CodesDistinct(slot.value, slot.value);
      if codec.objSize(fourcc) > BUMP_LIMIT {
        return Refused(ERR_DECODE);
      }
      var dec := BumpAlloc(codec.objSize(fourcc));
      var cfg := ConfigureDecoder(dec, fourcc, srcOff, srcLen);
      if cfg.None? {
        return Refused(ERR_DECODE);
      }
      o := Opened(fourcc, cfg.value.width, cfg.value.height);
    }

    /** Clear the decoder object, initialise it, decode the image config into it. */
    method ConfigureDecoder(dec: int, fourcc: u32, srcOff: int, srcLen: nat) returns (cfg: Option<Config>)
      requires Valid() && HostSlot(srcOff, srcLen)
      requires BUMP_BASE <= dec && dec + codec.objSize(fourcc) <= HOST_BASE
      modifies `mem
      ensures cfg == if codec.initOk(fourcc) then codec.config(fourcc, old(mem)[srcOff..srcOff + srcLen]) else None
      ensures |mem| == |old(mem)|
      ensures OnlyWrites(old(mem), mem, [Arena(HOST_BASE)])
      ensures mem[srcOff..srcOff + srcLen] == old(mem)[srcOff..srcOff + srcLen]
    {
      hide OnlyWrites, Write;
      ghost var m0 := mem;
      PutBelow(dec, Zeros(codec.objSize(fourcc)), srcOff, srcLen);
      if !codec.initOk(fourcc) {
        return None;
      }
      cfg := codec.config(fourcc, mem[srcOff..srcOff + srcLen]);
      ghost var m1 := mem;
      var junk := Junk(codec.objSize(fourcc));
      PutBelow(dec, junk, srcOff, srcLen);
      WritesTrans(m0, m1, mem, [Arena(HOST_BASE)]);
    }

    // ---- probe_image ----

    method ProbeImage(srcOff: int, srcLen: nat, metaOff: int) returns (ret: i32)
      requires Valid() && HostSlot(srcOff, srcLen) && HostSlot(metaOff, META_BYTES)
      requires metaOff + META_BYTES <= srcOff
      modifies this
      ensures |mem| == |old(mem)|
      ensures OnlyWrites(old(mem), mem, [Arena(HOST_BASE), Slot(metaOff, META_BYTES)])
      ensures mem[srcOff..srcOff + srcLen] == old(mem)[srcOff..srcOff + srcLen]
      ensures srcLen == 0 ==> ret == ERR_BAD_ARG
      ensures srcLen > 0 ==>
                var o := Open(codec, old(mem)[srcOff..srcOff + srcLen]);
                && ret == (if o.Refused? then o.ret else 0)
                && mem[metaOff..metaOff + META_BYTES] ==
                     EncodeMeta(if o.Refused? then ErrMeta(o.ret) else ProbeMeta(o))
    {
      hide OnlyWrites, Write, EncodeMeta, Open;
      ghost var m0 := mem;
      ghost var rs := [Arena(HOST_BASE), Slot(metaOff, META_BYTES)];
      WritesNothing(mem, rs);
      if srcLen == 0 || metaOff == 0 {
        return ERR_BAD_ARG;
      }
      Put(metaOff, Zeros(META_BYTES));
      WritesExtend(m0, m0, mem, rs, Slot(metaOff, META_BYTES), 1);
      Untouched(m0, mem, rs, srcOff, srcOff + srcLen);
      ghost var m1 := mem;
      var o := OpenDecoder(srcOff, srcLen);
      WritesExtend(m0, m1, mem, rs, Arena(HOST_BASE), 0);
      ghost var m2 := mem;
      Put(metaOff, EncodeMeta(if o.Refused? then ErrMeta(o.ret) else ProbeMeta(o)));
      WritesExtend(m0, m2, mem, rs, Slot(metaOff, META_BYTES), 1);
      Untouched(m0, mem, rs, srcOff, srcOff + srcLen);
      ret := if o.Refused? then o.ret else 0;
    }

    // ---- frame_count and animation_loops ----

    method FrameCount(srcOff: int, srcLen: nat, countOff: int) returns (ret: i32)
      requires Valid() && HostSlot(srcOff, srcLen) && HostSlot(countOff, 4)
      requires countOff + 4 <= srcOff
      modifies this
      ensures |mem| == |old(mem)|
      ensures OnlyWrites(old(mem), mem, [Arena(HOST_BASE), Slot(countOff, 4)])
      ensures mem[srcOff..srcOff + srcLen] == old(mem)[srcOff..srcOff + srcLen]
      ensures match CountFrames(codec, old(mem)[srcOff..srcOff + srcLen])
              case Failure(err) => ret == err
              case Success(n) => ret == 0 && n < 0x8000_0000 && mem[countOff..countOff + 4] == Put32(n)
    {
      hide OnlyWrites, Write, Open, Put32;
      ghost var m0 := mem;
      ghost var rs := [Arena(HOST_BASE), Slot(countOff, 4)];
      WritesNothing(mem, rs);
      if srcLen == 0 || countOff == 0 {
        return ERR_BAD_ARG;
      }
      Put(countOff, Put32(0));
      WritesExtend(m0, m0, mem, rs, Slot(countOff, 4), 1);
      Untouched(m0, mem, rs, srcOff, srcOff + srcLen);
      ghost var m1 := mem;
      var o := OpenDecoder(srcOff, srcLen);
      WritesExtend(m0, m1, mem, rs, Arena(HOST_BASE), 0);
      if o.Refused? {
        return o.ret;
      }
      OpenedSniff(codec, mem[srcOff..srcOff + srcLen]);
      var count := 0;
      while true
        invariant 0 <= count <= |Frames(codec, mem[srcOff..srcOff + srcLen]).configs|
        decreases |Frames(codec, mem[srcOff..srcOff + srcLen]).configs| - count
      {
        var stream := codec.frames(o.fourcc, mem[srcOff..srcOff + srcLen]);
        if count == |stream.configs| {
          if !stream.endsCleanly {
            return ERR_DECODE;
          }
          break;
        }
        count := count + 1;
      }
      ghost var m2 := mem;
      Put(countOff, Put32(count));
      WritesExtend(m0, m2, mem, rs, Slot(countOff, 4), 1);
      Untouched(m0, mem, rs, srcOff, srcOff + srcLen);
      ret := 0;
    }

    method AnimationLoops(srcOff: int, srcLen: nat, loopsOff: int) returns (ret: i32)
      requires Valid() && HostSlot(srcOff, srcLen) && HostSlot(loopsOff, 4)
      requires loopsOff + 4 <= srcOff
      modifies this
      ensures |mem| == |old(mem)|
      ensures OnlyWrites(old(mem), mem, [Arena(HOST_BASE), Slot(loopsOff, 4)])
      ensures mem[srcOff..srcOff + srcLen] == old(mem)[srcOff..srcOff + srcLen]
      ensures match CountLoops(codec, old(mem)[srcOff..srcOff + srcLen])
              case Failure(err) => ret == err
              case Success(n) => ret == 0 && mem[loopsOff..loopsOff + 4] == Put32(n)
    {
      hide OnlyWrites, Write, Open, Put32;
      ghost var m0 := mem;
      ghost var rs := [Arena(HOST_BASE), Slot(loopsOff, 4)];
      WritesNothing(mem, rs);
      if srcLen == 0 || loopsOff == 0 {
        return ERR_BAD_ARG;
      }
      Put(loopsOff, Put32(0));
      WritesExtend(m0, m0, mem, rs, Slot(loopsOff, 4), 1);
      Untouched(m0, mem, rs, srcOff, srcOff + srcLen);
      ghost var m1 := mem;
      var o := OpenDecoder(srcOff, srcLen);
      WritesExtend(m0, m1, mem, rs, Arena(HOST_BASE), 0);
      if o.Refused? {
        return o.ret;
      }
      OpenedSniff(codec, mem[srcOff..srcOff + srcLen]);
      ghost var m2 := mem;
      Put(loopsOff, Put32(codec.loops(o.fourcc, mem[srcOff..srcOff + srcLen])));
      WritesExtend(m0, m2, mem, rs, Slot(loopsOff, 4), 1);
      Untouched(m0, mem, rs, srcOff, srcOff + srcLen);
      ret := 0;
    }

    // ---- decode_image and decode_frame ----

    /** The steps up to the pixel buffer: open, apply the pixel format, check
        the capacity, allocate the work buffer, bind the destination. */
    method PrepareDecode(srcOff: int, srcLen: nat, dstCap: nat, fmt: int)
        returns (ret: i32, o: Opened, work: int, workLen: u32)
      requires Valid() && HostSlot(srcOff, srcLen)
      modifies this
      ensures ret == Prepare(codec, old(mem)[srcOff..srcOff + srcLen], dstCap, fmt)
      ensures o == Open(codec, old(mem)[srcOff..srcOff + srcLen])
      ensures ret == ERR_TOO_SMALL ==> o.Opened?
      ensures ret == 0 ==> o.Opened? && RoomFor(o, dstCap)
      ensures ret == 0 ==>
                && codec.objSize(o.fourcc) <= BUMP_LIMIT
                && work == WorkStart(codec, old(mem)[srcOff..srcOff + srcLen])
                && workLen == WorkLen(codec, old(mem)[srcOff..srcOff + srcLen])
      ensures |mem| == |old(mem)|
      ensures OnlyWrites(old(mem), mem, [Arena(HOST_BASE)])
      ensures mem[srcOff..srcOff + srcLen] == old(mem)[srcOff..srcOff + srcLen]
    {
      hide OnlyWrites, Open;
      work, workLen := 0, 0;
      ghost var src := mem[srcOff..srcOff + srcLen];
      o := OpenDecoder(srcOff, srcLen);
      OpenedSniff(codec, src);
      if o.Refused? {
        return o.ret, o, work, workLen;
      }
      if !KnownPixfmt(fmt) {
        return ERR_BAD_ARG, o, work, workLen;
      }
      var need := Need(o.width, o.height);
      if need == 0 || need > dstCap {
        return ERR_TOO_SMALL, o, work, workLen;
      }
      var lo := codec.workMin(o.fourcc, mem[srcOff..srcOff + srcLen]);
      var hi := codec.workMax(o.fourcc, mem[srcOff..srcOff + srcLen]);
      if lo > hi {
        return ERR_DECODE, o, work, workLen;
      }
      workLen := Wrap32(hi);
      if workLen == 0 {
        workLen := 64 * 1024;
      }
      work := BumpAlloc(workLen);
      if !codec.bindOk(o.fourcc, mem[srcOff..srcOff + srcLen]) {
        return ERR_DECODE, o, work, workLen;
      }
      ret := 0;
    }

    /** The codec's decode_frame: it uses its work buffer, reads the source and
        writes canvas bytes. Past the end of memory a store would trap, so only
        the part of the work buffer that exists is written. */
    method DecodePixels(srcOff: int, srcLen: nat, dstOff: int, need: nat, fourcc: u32, consumed: nat, fmt: int,
                        work: int, workLen: u32)
        returns (ok: bool)
      requires Valid() && HostSlot(srcOff, srcLen) && HostSlot(dstOff, need) && srcOff + srcLen <= dstOff
      requires BUMP_BASE <= work <= HOST_BASE
      modifies `mem
      ensures |mem| == |old(mem)|
      ensures OnlyWrites(old(mem), mem, [Slot(work, workLen), Slot(dstOff, need)])
      ensures work + workLen <= srcOff ==>
                var src := old(mem)[srcOff..srcOff + srcLen];
                var p := codec.paint(fourcc, src, consumed, fmt);
                && mem[srcOff..srcOff + srcLen] == src
                && ok == p.ok
                && mem[dstOff..dstOff + need] == Canvas(p, old(mem)[dstOff..dstOff + need])
    {
      hide OnlyWrites, Write, Canvas;
      ghost var m0 := mem;
      ghost var rs := [Slot(work, workLen), Slot(dstOff, need)];
      WritesNothing(mem, rs);
      var n := if work + workLen <= |mem| then workLen else |mem| - work;
      Scribble(work, n);
      WritesExtend(m0, m0, mem, rs, Slot(work, n), 0);
      ghost var ws := [Slot(work, workLen)];
      WritesNothing(m0, ws);
      WritesExtend(m0, m0, mem, ws, Slot(work, n), 0);
      if work + workLen <= srcOff {
        Untouched(m0, mem, ws, srcOff, srcOff + srcLen);
        Untouched(m0, mem, ws, dstOff, dstOff + need);
      }
      var p := codec.paint(fourcc, mem[srcOff..srcOff + srcLen], consumed, fmt);
      ghost var m1 := mem;
      Put(dstOff, Canvas(p, mem[dstOff..dstOff + need]));
      WritesExtend(m0, m1, mem, rs, Slot(dstOff, need), 1);
      if work + workLen <= srcOff {
        Untouched(m0, mem, rs, srcOff, srcOff + srcLen);
      }
      ok := p.ok;
    }

    method DecodeImage(srcOff: int, srcLen: nat, dstOff: int, dstCap: nat, metaOff: int, fmt: int)
        returns (ret: i32)
      requires Valid() && HostSlot(metaOff, META_BYTES) && HostSlot(srcOff, srcLen) && HostSlot(dstOff, dstCap)
      requires metaOff + META_BYTES <= srcOff && srcOff + srcLen <= dstOff
      modifies this
      ensures |mem| == |old(mem)|
      ensures OnlyWrites(old(mem), mem,
                [Arena(ArenaEnd(codec, old(mem)[srcOff..srcOff + srcLen])), Slot(metaOff, META_BYTES), Slot(dstOff, dstCap)])
      ensures var src := old(mem)[srcOff..srcOff + srcLen];
              var g := ReachImage(codec, src, dstCap, fmt);
              if g.Stopped? then ret == g.ret else ret == 0 || ret == ERR_DECODE
      ensures ret == ERR_TOO_SMALL ==>
                var o := Open(codec, old(mem)[srcOff..srcOff + srcLen]);
                o.Opened? && mem[metaOff..metaOff + META_BYTES] == EncodeMeta(TooSmallMeta(o))
      ensures ret == 0 ==>
                var o := Open(codec, old(mem)[srcOff..srcOff + srcLen]);
                o.Opened? && RoomFor(o, dstCap) && mem[metaOff..metaOff + META_BYTES] == EncodeMeta(DoneMeta(o))
      ensures var src := old(mem)[srcOff..srcOff + srcLen];
              var g := ReachImage(codec, src, dstCap, fmt);
              WorkFits(codec, src, srcOff) ==>
                && mem[srcOff..srcOff + srcLen] == src
                && (g.Ready? ==>
                      var o := Open(codec, src);
                      var p := PaintOf(codec, src, g.consumed, fmt);
                      && (ret == 0 <==> p.ok)
                      && o.Opened? && RoomFor(o, dstCap)
                      && var need := Need(o.width, o.height);
                         mem[dstOff..dstOff + need] == Canvas(p, old(mem)[dstOff..dstOff + need]))
    {
      hide OnlyWrites, Write, EncodeMeta, Open, Canvas, ArenaEnd, WorkStart, WorkLen, WorkFits, Need;
      hide Prepare, TooSmallMeta, DoneMeta, ErrMeta, Formats.Sniff, Zeros, ReachImage;
      ghost var m0 := mem;
      ghost var src0 := mem[srcOff..srcOff + srcLen];
      ArenaCovers(codec, src0, srcOff);
      ghost var rs := [Arena(ArenaEnd(codec, src0)), Slot(metaOff, META_BYTES), Slot(dstOff, dstCap)];
      WritesNothing(mem, rs);
      ImageReached(codec, src0, dstCap, fmt);
      if srcLen == 0 || metaOff == 0 {
        return ERR_BAD_ARG;
      }
      Put(metaOff, Zeros(META_BYTES));
      WritesExtend(m0, m0, mem, rs, Slot(metaOff, META_BYTES), 1);
      ghost var ms := [Slot(metaOff, META_BYTES)];
      Untouched(m0, mem, ms, srcOff, srcOff + srcLen);
      ghost var m1 := mem;
      var o: Opened, consumed: nat, work: int, workLen: u32;
      ret, o, consumed, work, workLen := BeginImage(srcOff, srcLen, dstCap, fmt);
      WritesExtend(m0, m1, mem, rs, Arena(HOST_BASE), 0);
      ghost var m2 := mem;
      if ret != 0 {
        Put(metaOff, EncodeMeta(if ret == ERR_TOO_SMALL then TooSmallMeta(o) else ErrMeta(ret)));
        WritesExtend(m0, m2, mem, rs, Slot(metaOff, META_BYTES), 1);
        KeptWhenFits(codec, src0, m0, mem, rs, srcOff, srcLen);
        return ret;
      }
      var need := Need(o.width, o.height);
      Untouched(m0, m1, ms, dstOff, dstOff + need);
      Untouched(m1, m2, [Arena(HOST_BASE)], dstOff, dstOff + need);
      ret := PaintImage(srcOff, srcLen, dstOff, need, metaOff, o, consumed, fmt, work, workLen);
      PaintExtends(m0, m2, mem, rs, Slot(work, workLen), Slot(metaOff, META_BYTES), Slot(dstOff, need));
      KeptWhenFits(codec, src0, m0, mem, rs, srcOff, srcLen);
    }

    /** Decode the pixels over whatever the slot holds, then write the meta. */
    method PaintImage(srcOff: int, srcLen: nat, dstOff: int, need: nat, metaOff: int, o: Opened, consumed: nat,
                      fmt: int, work: int, workLen: u32)
        returns (ret: i32)
      requires Valid() && HostSlot(metaOff, META_BYTES) && HostSlot(srcOff, srcLen) && HostSlot(dstOff, need)
      requires metaOff + META_BYTES <= srcOff && srcOff + srcLen <= dstOff
      requires o.Opened? && BUMP_BASE <= work <= HOST_BASE
      modifies `mem
      ensures |mem| == |old(mem)|
      ensures OnlyWrites(old(mem), mem, [Slot(work, workLen), Slot(metaOff, META_BYTES), Slot(dstOff, need)])
      ensures ret == 0 || ret == ERR_DECODE
      ensures ret == 0 ==> mem[metaOff..metaOff + META_BYTES] == EncodeMeta(DoneMeta(o))
      ensures work + workLen <= srcOff ==>
                var p := codec.paint(o.fourcc, old(mem)[srcOff..srcOff + srcLen], consumed, fmt);
                (ret == 0 <==> p.ok) && mem[dstOff..dstOff + need] == Canvas(p, old(mem)[dstOff..dstOff + need])
    {
      hide OnlyWrites, Write, EncodeMeta, Canvas, DoneMeta, ErrMeta;
      ghost var m0 := mem;
      ghost var rs := [Slot(work, workLen), Slot(metaOff, META_BYTES), Slot(dstOff, need)];
      WritesNothing(mem, rs);
      var ok := DecodePixels(srcOff, srcLen, dstOff, need, o.fourcc, consumed, fmt, work, workLen);
      PixelsExtend(m0, m0, mem, rs, Slot(work, workLen), Slot(dstOff, need), 0, 2);
      ghost var m1 := mem;
      Put(metaOff, EncodeMeta(if ok then DoneMeta(o) else ErrMeta(ERR_DECODE)));
      WritesExtend(m0, m1, mem, rs, Slot(metaOff, META_BYTES), 1);
      Untouched(m1, mem, [Slot(metaOff, META_BYTES)], dstOff, dstOff + need);
      ret := if ok then 0 else ERR_DECODE;
    }

    /** decode_image up to the pixels: prepare, then the first frame config, or
        a clean end of data, which is tolerated. */
    method BeginImage(srcOff: int, srcLen: nat, dstCap: nat, fmt: int)
        returns (ret: i32, o: Opened, consumed: nat, work: int, workLen: u32)
      requires Valid() && HostSlot(srcOff, srcLen) && srcLen > 0
      modifies this
      ensures var g := ReachImage(codec, old(mem)[srcOff..srcOff + srcLen], dstCap, fmt);
              ret == (if g.Stopped? then g.ret else 0) && (g.Ready? ==> consumed == g.consumed) && (ret == 0 ==> g.Ready?)
      ensures o == Open(codec, old(mem)[srcOff..srcOff + srcLen])
      ensures ret == ERR_TOO_SMALL ==> o.Opened?
      ensures ret == 0 ==>
                && o.Opened? && RoomFor(o, dstCap)
                && o.fourcc == Formats.Sniff(old(mem)[srcOff..srcOff + srcLen]) && codec.objSize(o.fourcc) <= BUMP_LIMIT
                && work == WorkStart(codec, old(mem)[srcOff..srcOff + srcLen])
                && workLen == WorkLen(codec, old(mem)[srcOff..srcOff + srcLen])
      ensures |mem| == |old(mem)|
      ensures OnlyWrites(old(mem), mem, [Arena(HOST_BASE)])
      ensures mem[srcOff..srcOff + srcLen] == old(mem)[srcOff..srcOff + srcLen]
    {
      hide OnlyWrites, Open, Prepare, WorkStart, WorkLen, Formats.Sniff;
      ghost var src := mem[srcOff..srcOff + srcLen];
      consumed := 0;
      ret, o, work, workLen := PrepareDecode(srcOff, srcLen, dstCap, fmt);
      OpenedSniff(codec, src);
      if ret != 0 {
        return;
      }
      var stream := codec.frames(o.fourcc, mem[srcOff..srcOff + srcLen]);
      if |stream.configs| > 0 {
        consumed := 1;
      } else if !stream.endsCleanly {
        ret := ERR_DECODE;
      }
    }

    method DecodeFrame(srcOff: int, srcLen: nat, dstOff: int, dstCap: nat, metaOff: int, frameMetaOff: int,
                       index: int, fmt: int)
        returns (ret: i32)
      requires Valid() && HostSlot(frameMetaOff, FRAME_META_BYTES) && HostSlot(metaOff, META_BYTES)
      requires HostSlot(srcOff, srcLen) && HostSlot(dstOff, dstCap)
      requires frameMetaOff + FRAME_META_BYTES <= metaOff && metaOff + META_BYTES <= srcOff
      requires srcOff + srcLen <= dstOff && index < 0x8000_0000
      modifies this
      ensures |mem| == |old(mem)|
      ensures OnlyWrites(old(mem), mem,
                [Arena(ArenaEnd(codec, old(mem)[srcOff..srcOff + srcLen])), Slot(metaOff, META_BYTES),
                 Slot(dstOff, dstCap), Slot(frameMetaOff, FRAME_META_BYTES)])
      ensures var src := old(mem)[srcOff..srcOff + srcLen];
              var g := ReachFrame(codec, src, dstCap, index, fmt);
              if g.Stopped? then ret == g.ret else ret == 0 || ret == ERR_DECODE
      ensures ret == ERR_TOO_SMALL ==>
                var o := Open(codec, old(mem)[srcOff..srcOff + srcLen]);
                o.Opened? && mem[metaOff..metaOff + META_BYTES] == EncodeMeta(TooSmallMeta(o))
      ensures ret == 0 ==>
                var src := old(mem)[srcOff..srcOff + srcLen];
                var o := Open(codec, src);
                && o.Opened? && RoomFor(o, dstCap)
                && mem[metaOff..metaOff + META_BYTES] == EncodeMeta(DoneMeta(o))
                && 0 <= index < |Frames(codec, src).configs|
                && mem[frameMetaOff..frameMetaOff + FRAME_META_BYTES] ==
                     EncodeFrameMeta(index, Frames(codec, src).configs[index])
      ensures var src := old(mem)[srcOff..srcOff + srcLen];
              var g := ReachFrame(codec, src, dstCap, index, fmt);
              WorkFits(codec, src, srcOff) ==>
                && mem[srcOff..srcOff + srcLen] == src
                && (g.Ready? ==>
                      var o := Open(codec, src);
                      var p := PaintOf(codec, src, g.consumed, fmt);
                      && (ret == 0 <==> p.ok)
                      && o.Opened? && RoomFor(o, dstCap)
                      && var need := Need(o.width, o.height);
                         mem[dstOff..dstOff + need] == Canvas(p, Zeros(need)))
    {
      hide OnlyWrites, Write, EncodeMeta, EncodeFrameMeta, Open, Canvas, ArenaEnd, WorkStart, WorkLen, WorkFits, Need;
      hide Prepare, TooSmallMeta, DoneMeta, ErrMeta, FrameError, Formats.Sniff;
      ghost var m0 := mem;
      ghost var src0 := mem[srcOff..srcOff + srcLen];
      ArenaCovers(codec, src0, srcOff);
      ghost var rs := [Arena(ArenaEnd(codec, src0)), Slot(metaOff, META_BYTES), Slot(dstOff, dstCap),
                       Slot(frameMetaOff, FRAME_META_BYTES)];
      WritesNothing(mem, rs);
      if srcLen == 0 || metaOff == 0 || frameMetaOff == 0 || index < 0 {
        Put(metaOff, EncodeMeta(ErrMeta(ERR_DECODE)));
        WritesExtend(m0, m0, mem, rs, Slot(metaOff, META_BYTES), 1);
        KeptWhenFits(codec, src0, m0, mem, rs, srcOff, srcLen);
        return ERR_DECODE;
      }
      PutMetas(metaOff, frameMetaOff, Zeros(META_BYTES), Zeros(FRAME_META_BYTES));
      PixelsExtend(m0, m0, mem, rs, Slot(metaOff, META_BYTES), Slot(frameMetaOff, FRAME_META_BYTES), 1, 3);
      Untouched(m0, mem, Metas(metaOff, frameMetaOff), srcOff, srcOff + srcLen);
      ghost var m1 := mem;
      var o: Opened, work: int, workLen: u32;
      ret, o, work, workLen := PrepareDecode(srcOff, srcLen, dstCap, fmt);
      WritesExtend(m0, m1, mem, rs, Arena(HOST_BASE), 0);
      OpenedSniff(codec, src0);
      ghost var m2 := mem;
      if ret != 0 {
        PutMetas(metaOff, frameMetaOff,
                 EncodeMeta(if ret == ERR_TOO_SMALL then TooSmallMeta(o) else ErrMeta(ret)), FrameError(ret));
        PixelsExtend(m0, m2, mem, rs, Slot(metaOff, META_BYTES), Slot(frameMetaOff, FRAME_META_BYTES), 1, 3);
        KeptWhenFits(codec, src0, m0, mem, rs, srcOff, srcLen);
        return ret;
      }
      var need := Need(o.width, o.height);
      ret := ShowFrame(srcOff, srcLen, dstOff, need, metaOff, frameMetaOff, o, index, fmt, work, workLen);
      FrameExtends(m0, m2, mem, rs, Slot(work, workLen), Slot(dstOff, need), metaOff, frameMetaOff);
      KeptWhenFits(codec, src0, m0, mem, rs, srcOff, srcLen);
    }

    /** Paint the indexed frame on a cleared canvas, then write both metas. */
    method ShowFrame(srcOff: int, srcLen: nat, dstOff: int, need: nat, metaOff: int, frameMetaOff: int, o: Opened,
                     index: int, fmt: int, work: int, workLen: u32)
        returns (ret: i32)
      requires Valid() && HostSlot(frameMetaOff, FRAME_META_BYTES) && HostSlot(metaOff, META_BYTES)
      requires HostSlot(srcOff, srcLen) && HostSlot(dstOff, need)
      requires frameMetaOff + FRAME_META_BYTES <= metaOff && metaOff + META_BYTES <= srcOff
      requires srcOff + srcLen <= dstOff && 0 <= index < 0x8000_0000
      requires o.Opened? && BUMP_BASE <= work <= HOST_BASE
      modifies `mem
      ensures |mem| == |old(mem)|
      ensures OnlyWrites(old(mem), mem, [Slot(work, workLen), Slot(metaOff, META_BYTES), Slot(dstOff, need),
                                         Slot(frameMetaOff, FRAME_META_BYTES)])
      ensures var stream := codec.frames(o.fourcc, old(mem)[srcOff..srcOff + srcLen]);
              && (if index < |stream.configs| then ret == 0 || ret == ERR_DECODE else ret == ERR_DECODE)
              && (ret == 0 ==>
                    && mem[metaOff..metaOff + META_BYTES] == EncodeMeta(DoneMeta(o))
                    && mem[frameMetaOff..frameMetaOff + FRAME_META_BYTES] ==
                         EncodeFrameMeta(index, stream.configs[index]))
              && (work + workLen <= srcOff && index < |stream.configs| ==>
                    var p := codec.paint(o.fourcc, old(mem)[srcOff..srcOff + srcLen], index + 1, fmt);
                    (ret == 0 <==> p.ok) && mem[dstOff..dstOff + need] == Canvas(p, Zeros(need)))
    {
      hide OnlyWrites, Write, EncodeMeta, EncodeFrameMeta, Canvas, DoneMeta, ErrMeta, FrameError;
      ghost var m0 := mem;
      ghost var rs := [Slot(work, workLen), Slot(metaOff, META_BYTES), Slot(dstOff, need),
                       Slot(frameMetaOff, FRAME_META_BYTES)];
      WritesNothing(mem, rs);
      var reached: bool, fc: FrameConfig;
      reached, fc, ret := PaintFrame(srcOff, srcLen, dstOff, need, o.fourcc, index, fmt, work, workLen);
      PixelsExtend(m0, m0, mem, rs, Slot(work, workLen), Slot(dstOff, need), 0, 2);
      ghost var m1 := mem;
      PutMetas(metaOff, frameMetaOff,
               EncodeMeta(if ret == 0 then DoneMeta(o) else ErrMeta(ERR_DECODE)),
               if ret == 0 then EncodeFrameMeta(index, fc) else FrameError(ERR_DECODE));
      PixelsExtend(m0, m1, mem, rs, Slot(metaOff, META_BYTES), Slot(frameMetaOff, FRAME_META_BYTES), 1, 3);
      Untouched(m1, mem, Metas(metaOff, frameMetaOff), dstOff, dstOff + need);
    }

    ghost function Metas(metaOff: int, frameMetaOff: int): seq<Region> {
      [Slot(metaOff, META_BYTES), Slot(frameMetaOff, FRAME_META_BYTES)]
    }

    /** Both metas, the frame meta last as it is the lower one. */
    method PutMetas(metaOff: int, frameMetaOff: int, meta: seq<byte>, frameMeta: seq<byte>)
      requires |meta| == META_BYTES && |frameMeta| == FRAME_META_BYTES
      requires 0 <= frameMetaOff && frameMetaOff + FRAME_META_BYTES <= metaOff && metaOff + META_BYTES <= |mem|
      modifies `mem
      ensures |mem| == |old(mem)|
      ensures OnlyWrites(old(mem), mem, Metas(metaOff, frameMetaOff))
      ensures mem[metaOff..metaOff + META_BYTES] == meta
      ensures mem[frameMetaOff..frameMetaOff + FRAME_META_BYTES] == frameMeta
    {
      hide OnlyWrites, Write;
      ghost var m0 := mem;
      ghost var rs := Metas(metaOff, frameMetaOff);
      WritesNothing(mem, rs);
      Put(metaOff, meta);
      WritesExtend(m0, m0, mem, rs, Slot(metaOff, META_BYTES), 0);
      ghost var m1 := mem;
      Put(frameMetaOff, frameMeta);
      WritesExtend(m0, m1, mem, rs, Slot(frameMetaOff, FRAME_META_BYTES), 1);
      Untouched(m1, mem, [Slot(frameMetaOff, FRAME_META_BYTES)], metaOff, metaOff + META_BYTES);
    }

    /** Zero the canvas, walk the configs up to `index`, decode that frame. */
    method PaintFrame(srcOff: int, srcLen: nat, dstOff: int, need: nat, fourcc: u32, index: int, fmt: int,
                      work: int, workLen: u32)
        returns (reached: bool, fc: FrameConfig, ret: i32)
      requires Valid() && HostSlot(srcOff, srcLen) && HostSlot(dstOff, need) && srcOff + srcLen <= dstOff
      requires BUMP_BASE <= work <= HOST_BASE && 0 <= index
      modifies `mem
      ensures |mem| == |old(mem)|
      ensures OnlyWrites(old(mem), mem, [Slot(work, workLen), Slot(dstOff, need)])
      ensures var stream := codec.frames(fourcc, old(mem)[srcOff..srcOff + srcLen]);
              reached == (index < |stream.configs|) && (reached ==> fc == stream.configs[index])
      ensures if reached then ret == 0 || ret == ERR_DECODE else ret == ERR_DECODE
      ensures work + workLen <= srcOff ==>
                var src := old(mem)[srcOff..srcOff + srcLen];
                var p := codec.paint(fourcc, src, index + 1, fmt);
                && mem[srcOff..srcOff + srcLen] == src
                && (reached ==> (ret == 0 <==> p.ok)
                                && mem[dstOff..dstOff + need] == Canvas(p, Zeros(need)))
    {
      hide OnlyWrites, Write, Canvas;
      ghost var m0 := mem;
      ghost var rs := [Slot(work, workLen), Slot(dstOff, need)];
      WritesNothing(mem, rs);
      Put(dstOff, Zeros(need));
      WritesExtend(m0, m0, mem, rs, Slot(dstOff, need), 1);
      Untouched(m0, mem, [Slot(dstOff, need)], srcOff, srcOff + srcLen);
      fc := NO_CONFIG;
      ghost var m1 := mem;
      for i := 0 to index + 1
        invariant mem == m1
        invariant i <= |codec.frames(fourcc, m1[srcOff..srcOff + srcLen]).configs|
        invariant i > 0 ==> fc == codec.frames(fourcc, m1[srcOff..srcOff + srcLen]).configs[i - 1]
      {
        var stream := codec.frames(fourcc, mem[srcOff..srcOff + srcLen]);
        if i == |stream.configs| {
          return false, fc, ERR_DECODE;
        }
        fc := stream.configs[i];
      }
      var ok := DecodePixels(srcOff, srcLen, dstOff, need, fourcc, index + 1, fmt, work, workLen);
      WritesTrans(m0, m1, mem, rs);
      reached := true;
      ret := if ok then 0 else ERR_DECODE;
    }

    // ---- read_image_metadata ----

    method ReadImageMetadata(srcOff: int, srcLen: u32, packOff: int, packCap: nat) returns (ret: i32)
      requires Valid() && HostSlot(srcOff, srcLen) && HostSlot(packOff, packCap)
      requires HEADER_BYTES <= packCap && srcOff + srcLen <= packOff
      modifies this
      ensures |mem| == |old(mem)|
      ensures OnlyWrites(old(mem), mem, [Arena(HOST_BASE), Slot(packOff, packCap)])
      ensures mem[srcOff..srcOff + srcLen] == old(mem)[srcOff..srcOff + srcLen]
      ensures match ReadMetadata(codec, old(mem)[srcOff..srcOff + srcLen], packCap)
              case Failure(err) => ret == err
              case Success(r) =>
                && ret == 0 && Packable(r.1) && PackSize(r.1) <= packCap
                && mem[packOff..packOff + PackSize(r.1)] == PackBytes(r.0, r.1)
    {
      hide OnlyWrites, Write, Walk, Held, PackBytes, Header, Placed, Formats.Sniff, Laid;
      ghost var m0 := mem;
      ghost var src := mem[srcOff..srcOff + srcLen];
      ghost var rs := [Arena(HOST_BASE), Slot(packOff, packCap)];
      WritesNothing(mem, rs);
      if packOff == 0 || srcLen == 0 {
        return ERR_BAD_ARG;
      }
      BumpRewind();
      var fourcc := Formats.Sniff(mem[srcOff..srcOff + srcLen]);
      var slot := Formats.FindDecoder(fourcc);
      ghost var w := Formats.SniffWitness(src);
      if slot.None? {
        PutError(packOff, ERR_UNKNOWN, 0);
        WritesExtend(m0, m0, mem, rs, Slot(packOff, HEADER_BYTES), 1);
        Untouched(m0, mem, rs, srcOff, srcOff + srcLen);
        return ERR_UNKNOWN;
      }
      Formats.CodesDistinct(slot.value, slot.value);
      var acc: Option<Acc> := None;
      if Guarded(codec.objSize(fourcc), srcLen) {
        GuardSuffices(codec.objSize(fourcc), srcLen);
        acc := Accumulate(srcOff, srcLen, fourcc);
        WritesExtend(m0, m0, mem, rs, Arena(HOST_BASE), 0);
      }
      ghost var m1 := mem;
      ret := FinishPack(packOff, packCap, fourcc, acc);
      WritesExtend(m0, m1, mem, rs, Slot(packOff, packCap), 1);
      Untouched(m0, mem, rs, srcOff, srcOff + srcLen);
    }

    /** Write the pack, or only its header when nothing was accumulated or it does not fit. */
    method FinishPack(packOff: int, packCap: nat, format: u32, acc: Option<Acc>) returns (ret: i32)
      requires HEADER_BYTES <= packCap && 0 <= packOff && packOff + packCap <= |mem|
      requires acc.Some? ==> Packable(acc.value)
      modifies `mem
      ensures |mem| == |old(mem)|
      ensures OnlyWrites(old(mem), mem, [Slot(packOff, packCap)])
      ensures ret == if acc.Some? && PackSize(acc.value) <= packCap then 0 else ERR_DECODE
      ensures ret == 0 ==> mem[packOff..packOff + PackSize(acc.value)] == PackBytes(format, acc.value)
    {
      hide OnlyWrites, PackBytes;
      ghost var m0 := mem;
      ghost var rs := [Slot(packOff, packCap)];
      WritesNothing(mem, rs);
      if acc.None? || PackSize(acc.value) > packCap {
        PutError(packOff, ERR_DECODE, format);
        WritesExtend(m0, m0, mem, rs, Slot(packOff, HEADER_BYTES), 0);
        return ERR_DECODE;
      }
      PutPack(packOff, format, acc.value);
      WritesExtend(m0, m0, mem, rs, Slot(packOff, PackSize(acc.value)), 0);
      ret := 0;
    }

    /** A zeroed header but for its error code and format. */
    method PutError(packOff: int, err: i32, format: u32)
      requires 0 <= packOff && packOff + HEADER_BYTES <= |mem|
      modifies `mem
      ensures |mem| == |old(mem)|
      ensures OnlyWrites(old(mem), mem, [Slot(packOff, HEADER_BYTES)])
    {
      Put(packOff, Put32(Wrap32(err)) + Put32(format) + Zeros(80));
    }

    /** Header, then each non-empty blob in the order EXIF, ICC, XMP. */
    method PutPack(packOff: int, format: u32, acc: Acc)
      requires Packable(acc) && 0 <= packOff && packOff + PackSize(acc) <= |mem|
      modifies `mem
      ensures |mem| == |old(mem)|
      ensures OnlyWrites(old(mem), mem, [Slot(packOff, PackSize(acc))])
      ensures mem[packOff..packOff + PackSize(acc)] == PackBytes(format, acc)
    {
      hide Header, OnlyWrites, Write;
      ghost var m0 := mem;
      var h := Header(format, acc);
      Put(packOff, h);
      PutBlob(packOff, h, acc.exif, m0);
      PutBlob(packOff, h + acc.exif, acc.icc, m0);
      PutBlob(packOff, h + acc.exif + acc.icc, acc.xmp, m0);
      WriteOnly(m0, packOff, PackBytes(format, acc));
      ReadBack(m0, packOff, PackBytes(format, acc));
    }

    /** memcpy a blob behind what the pack already holds, unless it is empty. */
    method PutBlob(packOff: int, before: seq<byte>, blob: seq<byte>, ghost m0: seq<byte>)
      requires 0 <= packOff && packOff + |before| + |blob| <= |mem| == |m0|
      requires mem == Write(m0, packOff, before)
      modifies `mem
      ensures |mem| == |old(mem)|
      ensures mem == Write(m0, packOff, before + blob)
    {
      hide Write;
      if |blob| > 0 {
        WriteAppend(m0, packOff, before, blob);
        Put(packOff + |before|, blob);
      } else {
        assert before + blob == before;
      }
    }

    /** Allocate the object and the buffers, initialise, and walk the metadata. */
    method Accumulate(srcOff: int, srcLen: u32, fourcc: u32) returns (r: Option<Acc>)
      requires Valid() && HostSlot(srcOff, srcLen)
      requires bumpPtr == BUMP_BASE && Guarded(codec.objSize(fourcc), srcLen)
      modifies this
      ensures |mem| == |old(mem)|
      ensures OnlyWrites(old(mem), mem, [Arena(HOST_BASE)])
      ensures var src := old(mem)[srcOff..srcOff + srcLen];
              r == if codec.initOk(fourcc) then Walk(src, codec.metadata(fourcc, src)) else None
      ensures r.Some? ==> Packable(r.value)
    {
      hide OnlyWrites, Write, Held, Walk;
      ghost var m0 := mem;
      ghost var src := mem[srcOff..srcOff + srcLen];
      ghost var rs := [Arena(HOST_BASE)];
      WritesNothing(mem, rs);
      var objSize := codec.objSize(fourcc);
      var dec, b := AllocBuffers(objSize, srcLen);
      PutBelow(dec, Zeros(objSize), srcOff, srcLen);
      if !codec.initOk(fourcc) {
        return None;
      }
      ghost var m1 := mem;
      var junk := Junk(objSize);
      PutBelow(dec, junk, srcOff, srcLen);
      WritesTrans(m0, m1, mem, rs);
      ghost var m2 := mem;
      r := WalkStream(srcOff, srcLen, fourcc, b);
      WritesTrans(m0, m2, mem, rs);
    }

    /** The five bump allocations. */
    method AllocBuffers(objSize: u32, srcLen: u32) returns (dec: int, b: Bufs)
      requires bumpPtr == BUMP_BASE && Guarded(objSize, srcLen)
      modifies `bumpPtr
      ensures dec == BUMP_BASE && dec + objSize <= b.have && Laid(b, srcLen)
    {
      hide Align8;
      GuardSuffices(objSize, srcLen);
      dec := BumpAlloc(objSize);
      var have := BumpAlloc(HAVE_LEN);
      var icc := BumpAlloc(ICC_CAP);
      var exif := BumpAlloc(srcLen);
      var xmp := BumpAlloc(srcLen);
      b := Bufs(have, icc, exif, xmp);
      assert b == Placed(objSize, srcLen);
    }

    /** The nested loops over items and answers, accumulating into the buffers. */
    method WalkStream(srcOff: int, srcLen: u32, fourcc: u32, b: Bufs) returns (r: Option<Acc>)
      requires Valid() && HostSlot(srcOff, srcLen) && Laid(b, srcLen)
      modifies `mem
      ensures |mem| == |old(mem)|
      ensures OnlyWrites(old(mem), mem, [Arena(HOST_BASE)])
      ensures var src := old(mem)[srcOff..srcOff + srcLen];
              r == Walk(src, codec.metadata(fourcc, src))
      ensures r.Some? ==> Packable(r.value)
    {
      hide OnlyWrites, Held, Consume;
      ghost var m0 := mem;
      ghost var src := mem[srcOff..srcOff + srcLen];
      ghost var rs := [Arena(HOST_BASE)];
      ghost var stream0 := codec.metadata(fourcc, src);
      WritesNothing(mem, rs);
      HeldEmpty(mem, b, srcLen);
      var t := START;
      ghost var acc := EMPTY;
      var k: nat := 0;
      while true
        invariant |mem| == |m0| && OnlyWrites(m0, mem, rs) && mem[srcOff..srcOff + srcLen] == src
        invariant k <= |stream0.items| && t.ri <= srcLen
        invariant Matches(t, acc) && Held(mem, b, acc, srcLen)
        invariant WalkItems(acc, src, stream0.items[k..]) == WalkItems(EMPTY, src, stream0.items)
        decreases |stream0.items| - k
      {
        var stream := codec.metadata(fourcc, mem[srcOff..srcOff + srcLen]);
        if k == |stream.items| {
          if !stream.configDecodes {
            return None;
          }
          break;
        }
        var j: nat := 0;
        var turn := More;
        ghost var item := stream0.items[k];
        ghost var acc0 := acc;
        while turn == More
          invariant |mem| == |m0| && OnlyWrites(m0, mem, rs) && mem[srcOff..srcOff + srcLen] == src
          invariant j <= |item| && t.ri <= srcLen
          invariant Matches(t, acc) && Held(mem, b, acc, srcLen)
          invariant turn == More ==> WalkItem(acc, src, item[j..]) == WalkItem(acc0, src, item)
          invariant turn == Done ==> WalkItem(acc0, src, item) == Some(acc)
          invariant turn != Stop
          decreases |item| - j, turn == More
        {
          var answers := codec.metadata(fourcc, mem[srcOff..srcOff + srcLen]).items[k];
          if j == |answers| {
            return None;
          }
          ghost var m1 := mem;
          turn, t := Take(answers[j], t, b, srcOff, srcLen, acc);
          WritesTrans(m0, m1, mem, rs);
          if turn == Stop {
            return None;
          }
          acc := Consume(acc, src, answers[j]).acc;
          j := j + 1;
          assert item[j - 1..][1..] == item[j..];
        }
        assert stream0.items[k..][1..] == stream0.items[k + 1..];
        k := k + 1;
      }
      HeldReads(mem, b, acc, srcLen);
      r := Some(Acc(mem[b.exif..b.exif + t.exifLen], mem[b.icc..b.icc + t.iccLen], mem[b.xmp..b.xmp + t.xmpLen],
                    t.gama, t.chrm, t.srgb));
    }

    /** The codec's own calls between two answers consume source bytes: they move
        the read index forward within the source. */
    method Consumes(ri: nat, srcLen: nat) returns (ri': nat)
      requires ri <= srcLen
      ensures ri <= ri' <= srcLen
    {
      ri' :| ri <= ri' <= srcLen;
    }

    /** One tell_me_more answer. The read index never moves back or past the source. */
    method Take(a: Answer, t: Tally, b: Bufs, srcOff: int, srcLen: u32, ghost acc: Acc)
        returns (turn: Step, t': Tally)
      requires Valid() && HostSlot(srcOff, srcLen)
      requires Matches(t, acc) && Held(mem, b, acc, srcLen) && t.ri <= srcLen
      modifies `mem
      ensures |mem| == |old(mem)|
      ensures OnlyWrites(old(mem), mem, [Arena(HOST_BASE)])
      ensures mem[srcOff..srcOff + srcLen] == old(mem)[srcOff..srcOff + srcLen]
      ensures t.ri <= t'.ri <= srcLen
      ensures var c := Consume(acc, old(mem)[srcOff..srcOff + srcLen], a);
              && turn == (match c case Failed => Stop case Again(_) => More case ItemDone(_) => Done)
              && (!c.Failed? ==> Matches(t', c.acc) && Held(mem, b, c.acc, srcLen))
    {
      hide OnlyWrites, Held, AddRange, AddTransformed;
      WritesNothing(mem, [Arena(HOST_BASE)]);
      var ri := Consumes(t.ri, srcLen);
      t' := t.(ri := ri);
      match a
      case Error =>
        turn := Stop;
      case OtherFlavor =>
        turn := Stop;
      case Parsed(kind, gama, srgb, chrm) =>
        t' := match kind
              case Chrm => t'.(chrm := Some(chrm))
              case Gama => t'.(gama := Some(gama))
              case Srgb => t'.(srgb := Some(srgb))
              case _ => t';
        HeldScalars(mem, b, acc, TakeParsed(acc, a), srcLen);
        turn := Done;
      case Passthrough(kind, lo, hi, status) =>
        var ok: bool;
        ok, t' := TakeRange(kind, lo, hi, t', b, srcOff, srcLen, acc);
        turn := if ok then StepOf(status) else Stop;
      case Transform(kind, bytes, status) =>
        var ok: bool;
        ok, t' := TakeTransformed(kind, bytes, t', b, srcOff, srcLen, acc);
        turn := if ok then StepOf(status) else Stop;
    }

    /** Copy a source range onto the end of its kind's buffer. */
    method TakeRange(kind: Kind, lo: u64, hi: u64, t: Tally, b: Bufs, srcOff: int, srcLen: u32, ghost acc: Acc)
        returns (ok: bool, t': Tally)
      requires Valid() && HostSlot(srcOff, srcLen)
      requires Matches(t, acc) && Held(mem, b, acc, srcLen) && t.ri <= srcLen
      modifies `mem
      ensures |mem| == |old(mem)|
      ensures OnlyWrites(old(mem), mem, [Arena(HOST_BASE)])
      ensures mem[srcOff..srcOff + srcLen] == old(mem)[srcOff..srcOff + srcLen]
      ensures t.ri <= t'.ri <= srcLen
      ensures var c := AddRange(acc, old(mem)[srcOff..srcOff + srcLen], kind, lo, hi);
              && ok == c.Some?
              && (ok ==> Matches(t', c.value) && Held(mem, b, c.value, srcLen))
    {
      hide OnlyWrites, Write, Held;
      HeldReads(mem, b, acc, srcLen);
      WritesNothing(mem, [Arena(HOST_BASE)]);
      t' := t;
      var n := RangeLength(lo, hi);
      if n == 0 {
        return true, t';
      }
      if hi > srcLen {
        return false, t';
      }
      SubSlice(mem, srcOff, srcOff + srcLen, lo, hi);
      var chunk := mem[srcOff + lo..srcOff + hi];
      match kind {
        case Exif =>
          if t.exifLen + n > srcLen {
            return false, t';
          }
          HeldExif(mem, b, acc, srcLen, chunk);
          PutBelow(b.exif + t.exifLen, chunk, srcOff, srcLen);
          t' := t.(exifLen := t.exifLen + n);
        case Iccp =>
          if t.iccLen + n > srcLen {
            return false, t';
          }
          HeldIcc(mem, b, acc, srcLen, chunk);
          PutBelow(b.icc + t.iccLen, chunk, srcOff, srcLen);
          t' := t.(iccLen := t.iccLen + n);
        case Xmp =>
          if t.xmpLen + n > srcLen {
            return false, t';
          }
          HeldXmp(mem, b, acc, srcLen, chunk);
          PutBelow(b.xmp + t.xmpLen, chunk, srcOff, srcLen);
          t' := t.(xmpLen := t.xmpLen + n);
        case _ =>
      }
      if hi > t'.ri {
        t' := t'.(ri := hi);
      }
      ok := true;
    }

    /** A store inside the bump arena; the source slot does not notice. */
    method PutBelow(off: int, data: seq<byte>, ghost srcOff: int, ghost srcLen: nat)
      requires Valid() && HostSlot(srcOff, srcLen)
      requires BUMP_BASE <= off && off + |data| <= HOST_BASE
      modifies `mem
      ensures mem == Write(old(mem), off, data)
      ensures OnlyWrites(old(mem), mem, [Arena(HOST_BASE)])
      ensures mem[srcOff..srcOff + srcLen] == old(mem)[srcOff..srcOff + srcLen]
      ensures mem[off..off + |data|] == data
    {
      hide OnlyWrites, Write;
      ghost var m0 := mem;
      ghost var rs := [Arena(HOST_BASE)];
      WritesNothing(mem, rs);
      Put(off, data);
      WritesExtend(m0, m0, mem, rs, Slot(off, |data|), 0);
      Untouched(m0, mem, rs, srcOff, srcOff + srcLen);
    }

    /** The codec fills the transform destination; its bytes are copied onto the profile. */
    method TakeTransformed(kind: Kind, bytes: Transformed, t: Tally, b: Bufs, srcOff: int, srcLen: u32, ghost acc: Acc)
        returns (ok: bool, t': Tally)
      requires Valid() && HostSlot(srcOff, srcLen)
      requires Matches(t, acc) && Held(mem, b, acc, srcLen) && t.ri <= srcLen
      modifies `mem
      ensures |mem| == |old(mem)|
      ensures OnlyWrites(old(mem), mem, [Arena(HOST_BASE)])
      ensures mem[srcOff..srcOff + srcLen] == old(mem)[srcOff..srcOff + srcLen]
      ensures t'.ri == t.ri
      ensures var c := AddTransformed(acc, kind, bytes);
              && ok == c.Some?
              && (ok ==> Matches(t', c.value) && Held(mem, b, c.value, srcLen))
    {
      hide OnlyWrites, Write, Held;
      HeldReads(mem, b, acc, srcLen);
      ghost var m0 := mem;
      t' := t;
      HeldAside(mem, b, acc, srcLen, b.have, bytes);
      PutBelow(b.have, bytes, srcOff, srcLen);
      if kind != Iccp {
        return false, t';
      }
      if |bytes| == 0 {
        assert acc.icc + bytes == acc.icc;
        return true, t';
      }
      if t.iccLen + |bytes| > ICC_CAP {
        return false, t';
      }
      ghost var m1 := mem;
      HeldIcc(mem, b, acc, srcLen, bytes);
      PutBelow(b.icc + t.iccLen, mem[b.have..b.have + |bytes|], srcOff, srcLen);
      WritesTrans(m0, m1, mem, [Arena(HOST_BASE)]);
      t' := t.(iccLen := t.iccLen + |bytes|);
      ok := true;
    }
  }

  lemma ImageReached(c: Codec, src: seq<byte>, dstCap: nat, fmt: int)
    ensures |src| == 0 ==> ReachImage(c, src, dstCap, fmt) == Stopped(ERR_BAD_ARG)
    ensures ReachImage(c, src, dstCap, fmt).Stopped? ==> ReachImage(c, src, dstCap, fmt).ret != 0
  {}

  /** What the inner loop does next. */
  datatype Step = More | Done | Stop

  function StepOf(status: Status): Step {
    match status case Ok => Done case EvenMore => More case OtherStatus => Stop
  }

  lemma HeldReads(m: seq<byte>, b: Bufs, acc: Acc, srcLen: nat)
    requires Held(m, b, acc, srcLen)
    ensures Laid(b, srcLen) && HOST_BASE <= |m| && Bounded(acc, srcLen)
    ensures m[b.exif..b.exif + |acc.exif|] == acc.exif
    ensures m[b.icc..b.icc + |acc.icc|] == acc.icc
    ensures m[b.xmp..b.xmp + |acc.xmp|] == acc.xmp
  {}

  lemma HeldScalars(m: seq<byte>, b: Bufs, acc: Acc, acc': Acc, srcLen: nat)
    requires Held(m, b, acc, srcLen)
    requires acc'.exif == acc.exif && acc'.icc == acc.icc && acc'.xmp == acc.xmp
    ensures Held(m, b, acc', srcLen)
  {}

  lemma OpenedSniff(c: Codec, src: seq<byte>)
    ensures Open(c, src).Opened? ==>
              Open(c, src).fourcc == Formats.Sniff(src) && c.objSize(Formats.Sniff(src)) <= BUMP_LIMIT
    ensures Open(c, src).Refused? ==> Open(c, src).ret == ERR_UNKNOWN || Open(c, src).ret == ERR_DECODE
  {}

  lemma ArenaCovers(c: Codec, src: seq<byte>, srcOff: int)
    requires HOST_BASE <= srcOff
    ensures HOST_BASE <= ArenaEnd(c, src)
    ensures c.objSize(Formats.Sniff(src)) <= BUMP_LIMIT ==>
              && BUMP_BASE <= WorkStart(c, src) <= HOST_BASE
              && Inside(Slot(WorkStart(c, src), WorkLen(c, src)), Arena(ArenaEnd(c, src)))
              && (WorkFits(c, src, srcOff) <==> WorkStart(c, src) + WorkLen(c, src) <= srcOff)
  {}

  /** The source slot survives when the arena ends at or below it. */
  lemma KeptWhenFits(c: Codec, src: seq<byte>, m0: seq<byte>, m: seq<byte>, rs: seq<Region>, srcOff: int, srcLen: nat)
    requires 0 <= srcOff && HOST_BASE <= srcOff && srcOff + srcLen <= |m0|
    requires |rs| > 0 && rs[0] == Arena(ArenaEnd(c, src))
    requires OnlyWrites(m0, m, rs)
    requires forall k :: 1 <= k < |rs| ==> Apart(rs[k], srcOff, srcOff + srcLen)
    ensures WorkFits(c, src, srcOff) ==> |m| == |m0| && m[srcOff..srcOff + srcLen] == m0[srcOff..srcOff + srcLen]
  {
    if WorkFits(c, src, srcOff) {
      Untouched(m0, m, rs, srcOff, srcOff + srcLen);
    }
  }

  lemma PaintExtends(m0: seq<byte>, m: seq<byte>, m': seq<byte>, rs: seq<Region>, a: Region, b: Region, c: Region)
    requires OnlyWrites(m0, m, rs) && OnlyWrites(m, m', [a, b, c])
    requires |rs| == 3 && Inside(a, rs[0]) && Inside(b, rs[1]) && Inside(c, rs[2])
    ensures OnlyWrites(m0, m', rs)
  {
    hide OnlyWrites;
    assert [a, b, c][0] == a && [a, b, c][1] == b && [a, b, c][2] == c;
    WritesWiden(m, m', [a, b, c], rs);
    WritesTrans(m0, m, m', rs);
  }

  lemma FrameExtends(m0: seq<byte>, m: seq<byte>, m': seq<byte>, rs: seq<Region>, work: Region, dst: Region,
                     metaOff: int, frameMetaOff: int)
    requires OnlyWrites(m0, m, rs)
    requires OnlyWrites(m, m', [work, Slot(metaOff, META_BYTES), dst, Slot(frameMetaOff, FRAME_META_BYTES)])
    requires |rs| == 4 && Inside(work, rs[0]) && rs[1] == Slot(metaOff, META_BYTES) && Inside(dst, rs[2])
    requires rs[3] == Slot(frameMetaOff, FRAME_META_BYTES)
    ensures OnlyWrites(m0, m', rs)
  {
    hide OnlyWrites;
    var ws := [work, Slot(metaOff, META_BYTES), dst, Slot(frameMetaOff, FRAME_META_BYTES)];
    assert ws[0] == work && ws[1] == rs[1] && ws[2] == dst && ws[3] == rs[3];
    WritesWiden(m, m', ws, rs);
    WritesTrans(m0, m, m', rs);
  }

  lemma PixelsExtend(m0: seq<byte>, m: seq<byte>, m': seq<byte>, rs: seq<Region>, a: Region, b: Region, i: nat, j: nat)
    requires OnlyWrites(m0, m, rs) && OnlyWrites(m, m', [a, b])
    requires i < |rs| && j < |rs| && Inside(a, rs[i]) && Inside(b, rs[j])
    ensures OnlyWrites(m0, m', rs)
  {
    hide OnlyWrites;
    assert [a, b][0] == a && [a, b][1] == b;
    WritesWiden(m, m', [a, b], rs);
    WritesTrans(m0, m, m', rs);
  }
}
