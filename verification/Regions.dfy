/** Which parts of linear memory a step may have written. */
module Regions {
  import opened Bytes

  datatype Region = Region(lo: int, hi: int)

  predicate Inside(r: Region, outer: Region) {
    outer.lo <= r.lo && r.hi <= outer.hi
  }

  predicate Apart(r: Region, lo: int, hi: int) {
    r.hi <= lo || hi <= r.lo
  }

  /** Every byte that differs lies in one of the regions. */
  ghost predicate OnlyWrites(m0: seq<byte>, m: seq<byte>, rs: seq<Region>) {
    && |m| == |m0|
    && forall i {:trigger m[i]} {:trigger m0[i]} :: 0 <= i < |m| && m[i] != m0[i] ==>
         exists k :: 0 <= k < |rs| && rs[k].lo <= i < rs[k].hi
  }

  lemma WritesNothing(m: seq<byte>, rs: seq<Region>)
    ensures OnlyWrites(m, m, rs)
  {}

  lemma WriteOnly(m: seq<byte>, off: int, data: seq<byte>)
    requires 0 <= off && off + |data| <= |m|
    ensures OnlyWrites(m, Write(m, off, data), [Region(off, off + |data|)])
  {
    var rs := [Region(off, off + |data|)];
    assert rs[0].lo == off && rs[0].hi == off + |data|;
  }

  /** One more step that stays inside region k of those already allowed. */
  lemma WritesExtend(m0: seq<byte>, m: seq<byte>, m': seq<byte>, rs: seq<Region>, r: Region, k: nat)
    requires OnlyWrites(m0, m, rs) && OnlyWrites(m, m', [r])
    requires k < |rs| && Inside(r, rs[k])
    ensures OnlyWrites(m0, m', rs)
  {
    forall i | 0 <= i < |m'| && m'[i] != m0[i] ensures exists j :: 0 <= j < |rs| && rs[j].lo <= i < rs[j].hi {
      if m'[i] != m[i] {
        assert rs[k].lo <= i < rs[k].hi;
      }
    }
  }

  lemma WritesTrans(m0: seq<byte>, m: seq<byte>, m': seq<byte>, rs: seq<Region>)
    requires OnlyWrites(m0, m, rs) && OnlyWrites(m, m', rs)
    ensures OnlyWrites(m0, m', rs)
  {}

  /** Every region allowed here is inside one allowed there. */
  lemma WritesWiden(m0: seq<byte>, m: seq<byte>, rs: seq<Region>, rs': seq<Region>)
    requires OnlyWrites(m0, m, rs)
    requires forall k :: 0 <= k < |rs| ==> exists j :: 0 <= j < |rs'| && Inside(rs[k], rs'[j])
    ensures OnlyWrites(m0, m, rs')
  {
    forall i | 0 <= i < |m| && m[i] != m0[i] ensures exists j :: 0 <= j < |rs'| && rs'[j].lo <= i < rs'[j].hi {
      var k :| 0 <= k < |rs| && rs[k].lo <= i < rs[k].hi;
      var j :| 0 <= j < |rs'| && Inside(rs[k], rs'[j]);
      assert rs'[j].lo <= i < rs'[j].hi;
    }
  }

  /** A range apart from every written region is unchanged. */
  lemma Untouched(m0: seq<byte>, m: seq<byte>, rs: seq<Region>, lo: int, hi: int)
    requires OnlyWrites(m0, m, rs)
    requires 0 <= lo <= hi <= |m0|
    requires forall k :: 0 <= k < |rs| ==> Apart(rs[k], lo, hi)
    ensures |m| == |m0| && m[lo..hi] == m0[lo..hi]
  {
    forall i | lo <= i < hi ensures m[i] == m0[i] {}
  }
}
