/** wasm/shim.c, read_image_metadata: the nested walk over reported metadata,
    first as the code accumulates it, then as what the reports say. */
module MetadataWalk {
  import opened Bytes
  import opened Codec

  const ICC_CAP := 1048576

  datatype Acc = Acc(
    exif: seq<byte>,
    icc: seq<byte>,
    xmp: seq<byte>,
    gama: Option<u32>,
    chrm: Option<Chrm>,
    srgb: Option<u32>)

  const EMPTY := Acc([], [], [], None, None, None)

  // ---- the accumulation, answer by answer ----

  datatype Turn = Again(acc: Acc) | ItemDone(acc: Acc) | Failed

  function Next(acc: Acc, status: Status): Turn {
    match status
    case Ok => ItemDone(acc)
    case EvenMore => Again(acc)
    case OtherStatus => Failed
  }

  function RangeLength(lo: u64, hi: u64): nat {
    if lo < hi then hi - lo else 0
  }

  function TakeParsed(acc: Acc, a: Answer): Acc
    requires a.Parsed?
  {
    match a.kind
    case Chrm => acc.(chrm := Some(a.chrm))
    case Gama => acc.(gama := Some(a.gama))
    case Srgb => acc.(srgb := Some(a.srgb))
    case _ => acc
  }

  /** A passthrough range of the source, bounded by the source length for each kind. */
  function AddRange(acc: Acc, src: seq<byte>, kind: Kind, lo: u64, hi: u64): Option<Acc> {
    var n := RangeLength(lo, hi);
    if n == 0 then Some(acc)
    else if hi > |src| then None
    else
      var chunk := src[lo..hi];
      match kind
      case Exif => if |acc.exif| + n > |src| then None else Some(acc.(exif := acc.exif + chunk))
      case Iccp => if |acc.icc| + n > |src| then None else Some(acc.(icc := acc.icc + chunk))
      case Xmp => if |acc.xmp| + n > |src| then None else Some(acc.(xmp := acc.xmp + chunk))
      case _ => Some(acc)
  }

  /** Transformed bytes, bounded by the profile buffer. */
  function AddTransformed(acc: Acc, kind: Kind, bytes: seq<byte>): Option<Acc> {
    if kind != Iccp then None
    else if |bytes| > 0 && |acc.icc| + |bytes| > ICC_CAP then None
    else Some(acc.(icc := acc.icc + bytes))
  }

  function Consume(acc: Acc, src: seq<byte>, a: Answer): Turn {
    match a
    case Error => Failed
    case Parsed(_, _, _, _) => ItemDone(TakeParsed(acc, a))
    case Passthrough(kind, lo, hi, status) =>
      (match AddRange(acc, src, kind, lo, hi)
       case None => Failed
       case Some(acc') => Next(acc', status))
    case Transform(kind, bytes, status) =>
      (match AddTransformed(acc, kind, bytes)
       case None => Failed
       case Some(acc') => Next(acc', status))
    case OtherFlavor => Failed
  }

  /** The inner loop: one item, up to the answer that ends it. */
  function WalkItem(acc: Acc, src: seq<byte>, answers: seq<Answer>): Option<Acc>
    decreases |answers|
  {
    if |answers| == 0 then None
    else
      match Consume(acc, src, answers[0])
      case Failed => None
      case ItemDone(acc') => Some(acc')
      case Again(acc') => WalkItem(acc', src, answers[1..])
  }

  /** The outer loop. */
  function WalkItems(acc: Acc, src: seq<byte>, items: seq<seq<Answer>>): Option<Acc>
    decreases |items|
  {
    if |items| == 0 then Some(acc)
    else
      match WalkItem(acc, src, items[0])
      case None => None
      case Some(acc') => WalkItems(acc', src, items[1..])
  }

  function Walk(src: seq<byte>, stream: MetaStream): Option<Acc> {
    var r := WalkItems(EMPTY, src, stream.items);
    if stream.configDecodes then r else None
  }

  // ---- what the reports say, without the loops ----

  predicate Continues(a: Answer) {
    (a.Passthrough? || a.Transform?) && a.status.EvenMore?
  }

  /** The answers of an item that the walk asks for: up to the first that does not continue. */
  function Taken(answers: seq<Answer>): seq<Answer>
    decreases |answers|
  {
    if |answers| == 0 then []
    else if Continues(answers[0]) then [answers[0]] + Taken(answers[1..])
    else [answers[0]]
  }

  /** An item whose answers do come to an end. */
  predicate Ends(answers: seq<Answer>) {
    exists i :: 0 <= i < |answers| && !Continues(answers[i])
  }

  function Reports(items: seq<seq<Answer>>): seq<Answer>
    decreases |items|
  {
    if |items| == 0 then [] else Taken(items[0]) + Reports(items[1..])
  }

  /** What one report contributes to the blob of a kind. */
  function Chunk(kind: Kind, a: Answer, src: seq<byte>): seq<byte> {
    match a
    case Passthrough(k, lo, hi, _) => if k == kind && lo < hi <= |src| then src[lo..hi] else []
    case Transform(_, bytes, _) => if kind == Iccp then bytes else []
    case _ => []
  }

  /** The in-order concatenation of the chunks reported for a kind. */
  function Joined(kind: Kind, reports: seq<Answer>, src: seq<byte>): seq<byte>
    decreases |reports|
  {
    if |reports| == 0 then []
    else Joined(kind, reports[..|reports| - 1], src) + Chunk(kind, reports[|reports| - 1], src)
  }

  /** The last parsed report of a kind. */
  function Latest(kind: Kind, reports: seq<Answer>): (r: Option<Answer>)
    ensures r.Some? ==> r.value.Parsed? && r.value.kind == kind
    decreases |reports|
  {
    if |reports| == 0 then None
    else
      var a := reports[|reports| - 1];
      if a.Parsed? && a.kind == kind then Some(a) else Latest(kind, reports[..|reports| - 1])
  }

  function Said(reports: seq<Answer>, src: seq<byte>): Acc {
    Acc(Joined(Exif, reports, src), Joined(Iccp, reports, src), Joined(Xmp, reports, src),
        match Latest(Gama, reports) case None => None case Some(a) => Some(a.gama),
        match Latest(Chrm, reports) case None => None case Some(a) => Some(a.chrm),
        match Latest(Srgb, reports) case None => None case Some(a) => Some(a.srgb))
  }

  /** A blob's capacity when a report of this flavour extends it. */
  function Limit(a: Answer, src: seq<byte>): nat {
    if a.Transform? then ICC_CAP else |src|
  }

  /** The report is well formed for this source. */
  predicate WellFormed(a: Answer, src: seq<byte>) {
    match a
    case Parsed(_, _, _, _) => true
    case Passthrough(_, lo, hi, status) => !status.OtherStatus? && (lo < hi ==> hi <= |src|)
    case Transform(kind, _, status) => kind == Iccp && !status.OtherStatus?
    case _ => false
  }

  predicate Stored(kind: Kind) {
    kind == Exif || kind == Iccp || kind == Xmp
  }

  /** Report a fits after the reports h: it is well formed, and a chunk it adds
      to a stored blob leaves that blob within the report's limit. */
  predicate Fits(h: seq<Answer>, a: Answer, src: seq<byte>) {
    && WellFormed(a, src)
    && ((a.Passthrough? || a.Transform?) && Stored(a.kind) && |Chunk(a.kind, a, src)| > 0 ==>
          |Joined(a.kind, h, src)| + |Chunk(a.kind, a, src)| <= Limit(a, src))
  }

  predicate AllFit(h: seq<Answer>, t: seq<Answer>, src: seq<byte>)
    decreases |t|
  {
    |t| == 0 || (Fits(h, t[0], src) && AllFit(h + [t[0]], t[1..], src))
  }

  // ---- the loops compute exactly what the reports say ----

  lemma {:induction false} JoinedSnoc(kind: Kind, h: seq<Answer>, a: Answer, src: seq<byte>)
    ensures Joined(kind, h + [a], src) == Joined(kind, h, src) + Chunk(kind, a, src)
  {
    assert (h + [a])[..|h|] == h;
  }

  lemma {:induction false} LatestSnoc(kind: Kind, h: seq<Answer>, a: Answer)
    ensures Latest(kind, h + [a]) == if a.Parsed? && a.kind == kind then Some(a) else Latest(kind, h)
  {
    assert (h + [a])[..|h|] == h;
  }

  lemma {:induction false} SaidSnoc(h: seq<Answer>, a: Answer, src: seq<byte>)
    ensures Said(h + [a], src) ==
            (var s := Said(h, src);
             var s' := s.(exif := s.exif + Chunk(Exif, a, src), icc := s.icc + Chunk(Iccp, a, src),
                          xmp := s.xmp + Chunk(Xmp, a, src));
             if a.Parsed? then TakeParsed(s', a) else s')
  {
    JoinedSnoc(Exif, h, a, src);
    JoinedSnoc(Iccp, h, a, src);
    JoinedSnoc(Xmp, h, a, src);
    LatestSnoc(Gama, h, a);
    LatestSnoc(Chrm, h, a);
    LatestSnoc(Srgb, h, a);
  }

  /** One answer: consumed exactly when it fits, to what the reports then say. */
  lemma {:induction false} ConsumeSays(h: seq<Answer>, a: Answer, src: seq<byte>)
    ensures Consume(Said(h, src), src, a) ==
            if !Fits(h, a, src) then Failed
            else if Continues(a) then Again(Said(h + [a], src))
            else ItemDone(Said(h + [a], src))
  {
    hide Joined, Latest;
    SaidSnoc(h, a, src);
    var s := Said(h, src);
    assert s.exif == Joined(Exif, h, src) && s.icc == Joined(Iccp, h, src) && s.xmp == Joined(Xmp, h, src);
    match a
    case Passthrough(kind, lo, hi, status) =>
      assert s.exif + [] == s.exif && s.icc + [] == s.icc && s.xmp + [] == s.xmp;
    case Transform(kind, bytes, status) =>
      assert s.exif + [] == s.exif && s.xmp + [] == s.xmp;
    case _ =>
      assert s.exif + [] == s.exif && s.icc + [] == s.icc && s.xmp + [] == s.xmp;
  }

  lemma {:induction false} EndsStep(answers: seq<Answer>)
    requires |answers| > 0
    ensures Ends(answers) <==> !Continues(answers[0]) || Ends(answers[1..])
  {
    if Ends(answers[1..]) {
      var i :| 0 <= i < |answers[1..]| && !Continues(answers[1..][i]);
      assert !Continues(answers[i + 1]);
    }
    if Ends(answers) && Continues(answers[0]) {
      var i :| 0 <= i < |answers| && !Continues(answers[i]);
      assert !Continues(answers[1..][i - 1]);
    }
  }

  lemma {:induction false} ItemSays(h: seq<Answer>, answers: seq<Answer>, src: seq<byte>)
    ensures WalkItem(Said(h, src), src, answers) ==
            if Ends(answers) && AllFit(h, Taken(answers), src)
            then Some(Said(h + Taken(answers), src)) else None
    decreases |answers|
  {
    hide Said, Fits, Consume;
    if |answers| > 0 {
      var a, rest := answers[0], answers[1..];
      ConsumeSays(h, a, src);
      EndsStep(answers);
      if Continues(a) {
        ItemSays(h + [a], rest, src);
        assert Taken(answers)[1..] == Taken(rest);
        assert h + [a] + Taken(rest) == h + Taken(answers);
      } else {
        assert Taken(answers) == [a] && Taken(answers)[1..] == [];
      }
    }
  }

  lemma {:induction false} AllFitAppend(h: seq<Answer>, t: seq<Answer>, u: seq<Answer>, src: seq<byte>)
    ensures AllFit(h, t + u, src) <==> AllFit(h, t, src) && AllFit(h + t, u, src)
    decreases |t|
  {
    hide Fits;
    if |t| == 0 {
      assert t + u == u && h + t == h;
    } else {
      AllFitAppend(h + [t[0]], t[1..], u, src);
      assert (t + u)[1..] == t[1..] + u;
      assert h + [t[0]] + t[1..] == h + t;
    }
  }

  predicate AllEnd(items: seq<seq<Answer>>) {
    forall i :: 0 <= i < |items| ==> Ends(items[i])
  }

  lemma {:induction false} ItemsSay(h: seq<Answer>, items: seq<seq<Answer>>, src: seq<byte>)
    ensures WalkItems(Said(h, src), src, items) ==
            if AllEnd(items) && AllFit(h, Reports(items), src)
            then Some(Said(h + Reports(items), src)) else None
    decreases |items|
  {
    hide Said, Fits, Consume, Ends, Taken;
    if |items| == 0 {
      assert h + [] == h;
    } else {
      var t, u := Taken(items[0]), Reports(items[1..]);
      ItemSays(h, items[0], src);
      AllFitAppend(h, t, u, src);
      assert AllEnd(items) <==> Ends(items[0]) && AllEnd(items[1..]);
      if Ends(items[0]) && AllFit(h, t, src) {
        ItemsSay(h + t, items[1..], src);
        assert h + t + u == h + (t + u);
      }
    }
  }

  lemma {:induction false} AllFitPointwise(h: seq<Answer>, t: seq<Answer>, src: seq<byte>)
    ensures AllFit(h, t, src) <==> forall k :: 0 <= k < |t| ==> Fits(h + t[..k], t[k], src)
    decreases |t|
  {
    hide Fits;
    if |t| > 0 {
      var h', t' := h + [t[0]], t[1..];
      AllFitPointwise(h', t', src);
      assert h + t[..0] == h;
      forall k | 0 <= k < |t'| ensures Fits(h' + t'[..k], t'[k], src) <==> Fits(h + t[..k + 1], t[k + 1], src) {
        assert h' + t'[..k] == h + t[..k + 1];
      }
      if forall k :: 0 <= k < |t| ==> Fits(h + t[..k], t[k], src) {
        assert Fits(h + t[..0], t[0], src);
        forall k | 0 <= k < |t'| ensures Fits(h' + t'[..k], t'[k], src) {
          assert Fits(h + t[..k + 1], t[k + 1], src);
        }
      }
      if AllFit(h, t, src) {
        forall k | 0 <= k < |t| ensures Fits(h + t[..k], t[k], src) {
          if k > 0 {
            assert Fits(h' + t'[..k - 1], t'[k - 1], src);
          }
        }
      }
    }
  }

  /** The condition under which every report is taken. */
  ghost predicate Readable(src: seq<byte>, stream: MetaStream) {
    var r := Reports(stream.items);
    && stream.configDecodes
    && AllEnd(stream.items)
    && forall k :: 0 <= k < |r| ==> Fits(r[..k], r[k], src)
  }

  /** The nested loops succeed exactly on readable streams, and then each blob is
      the in-order concatenation of its chunks and the last parsed value wins. */
  lemma {:induction false} WalkMeaning(src: seq<byte>, stream: MetaStream)
    ensures Walk(src, stream) ==
            if Readable(src, stream) then Some(Said(Reports(stream.items), src)) else None
  {
    hide Fits, AllFit;
    var r := Reports(stream.items);
    assert Said([], src) == EMPTY;
    ItemsSay([], stream.items, src);
    AllFitPointwise([], r, src);
    assert [] + r == r;
    forall k | 0 <= k < |r| ensures Fits([] + r[..k], r[k], src) <==> Fits(r[..k], r[k], src) {
      assert [] + r[..k] == r[..k];
    }
  }

  /** The accumulators' bounds: exif and xmp never outgrow the source, and icc
      never outgrows its own buffer when the source fits it too. */
  ghost predicate Bounded(acc: Acc, srcLen: nat) {
    |acc.exif| <= srcLen && |acc.xmp| <= srcLen && |acc.icc| <= ICC_CAP
  }

  /** The reports of an item that ends: all answers up to and including the first
      that is not a passthrough or transform with more to come. */
  lemma {:induction false} TakenIs(answers: seq<Answer>) returns (n: nat)
    requires Ends(answers)
    ensures n < |answers| && Taken(answers) == answers[..n + 1]
    ensures forall i :: 0 <= i < n ==>
              (answers[i].Passthrough? || answers[i].Transform?) && answers[i].status == EvenMore
    ensures answers[n].Passthrough? || answers[n].Transform? ==> answers[n].status != EvenMore
    decreases |answers|
  {
    if Continues(answers[0]) {
      EndsStep(answers);
      var m := TakenIs(answers[1..]);
      n := m + 1;
      assert answers[..n + 1] == [answers[0]] + answers[1..][..m + 1];
      forall i | 0 <= i < n
        ensures (answers[i].Passthrough? || answers[i].Transform?) && answers[i].status == EvenMore
      {
        if i > 0 {
          assert answers[i] == answers[1..][i - 1];
        }
      }
    } else {
      n := 0;
    }
  }

  /** The reports of the items, one item after the other. */
  lemma {:induction false} ReportsJoin(items: seq<seq<Answer>>, more: seq<seq<Answer>>)
    ensures Reports(items + more) == Reports(items) + Reports(more)
    decreases |items|
  {
    hide Taken;
    if |items| == 0 {
      assert items + more == more;
    } else {
      ReportsJoin(items[1..], more);
      assert (items + more)[1..] == items[1..] + more;
      var t, u, v := Taken(items[0]), Reports(items[1..]), Reports(more);
      assert t + (u + v) == t + u + v;
    }
  }

  lemma ReportsOne(item: seq<Answer>)
    ensures Reports([item]) == Taken(item)
  {
    hide Taken;
    assert [item][1..] == [];
    assert Taken(item) + [] == Taken(item);
  }

  /** What one report adds to each blob. */
  lemma ChunkCases(kind: Kind, a: Answer, src: seq<byte>)
    ensures a.Passthrough? && a.lo < a.hi <= |src| ==> Chunk(kind, a, src) == if a.kind == kind then src[a.lo..a.hi] else []
    ensures a.Passthrough? && a.lo >= a.hi ==> Chunk(kind, a, src) == []
    ensures a.Transform? ==> Chunk(kind, a, src) == if kind == Iccp then a.bytes else []
    ensures a.Parsed? ==> Chunk(kind, a, src) == []
  {}

  /** When report a is taken after the reports h, flavour by flavour. */
  lemma FitsCases(h: seq<Answer>, a: Answer, src: seq<byte>)
    ensures a.Error? || a.OtherFlavor? ==> !Fits(h, a, src)
    ensures a.Parsed? ==> Fits(h, a, src)
    ensures a.Passthrough? ==>
              (Fits(h, a, src) <==>
                 && a.status != OtherStatus
                 && (a.lo < a.hi ==>
                       && a.hi <= |src|
                       && (a.kind == Exif ==> |Joined(Exif, h, src)| + (a.hi - a.lo) <= |src|)
                       && (a.kind == Iccp ==> |Joined(Iccp, h, src)| + (a.hi - a.lo) <= |src|)
                       && (a.kind == Xmp ==> |Joined(Xmp, h, src)| + (a.hi - a.lo) <= |src|)))
    ensures a.Transform? ==>
              (Fits(h, a, src) <==>
                 && a.kind == Iccp && a.status != OtherStatus
                 && (a.bytes != [] ==> |Joined(Iccp, h, src)| + |a.bytes| <= 1048576))
  {
    hide Joined;
  }
}
