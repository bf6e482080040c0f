/**
 * `RangeList.add` and `RangeList.remove` exactly as benchmark/util.py writes
 * them, as functions of the list, with the inputs on which they go wrong.
 * The rest of the model uses the corrected `RangeList.Add` and
 * `RangeList.Remove`.
 */
module RangeListsAsWritten {
  import opened Wrappers
  import opened RangeLists

  /** The exception `remove` can raise. */
  datatype Failure = IndexError

  /** The source's `add`, case for case; on a well-formed list `search` is `Position`. */
  function AddAsWritten(rs: seq<Range>, lo: int, hi: int): (r: seq<Range>)
    requires WellFormed(rs) && lo <= hi
    ensures forall n :: Covers(rs, n) ==> Covers(r, n)
    ensures Covers(r, hi)
    ensures forall n :: Covers(r, n) ==> Covers(rs, n) || lo <= n <= hi
  {
    PositionMonotone(rs, lo, hi);
    var loI := Position(rs, lo);
    var hiI := if lo == hi then loI else Position(rs, hi);
    if loI == hiI then
      if loI >= |rs| || hi < rs[loI].lo || lo > rs[loI].hi then
        InsertAllCovers(rs, loI, lo, hi);
        rs[..loI] + [Range(lo, hi)] + rs[loI..]
      else
        WidenCovers(rs, loI, Range(Min(lo, rs[loI].lo), Max(hi, rs[loI].hi)), lo, hi);
        rs[loI := Range(Min(lo, rs[loI].lo), Max(hi, rs[loI].hi))]
    else if loI + 1 == hiI && hiI < |rs| && (rs[hiI].lo > hi || hi >= rs[hiI].hi) then
      // "extend up": keeps rs[loI].lo even when lo lies below it
      WidenCovers(rs, loI, Range(rs[loI].lo, hi), lo, hi);
      rs[loI := Range(rs[loI].lo, hi)]
    else
      // "merge": keeps range hiI only when hi is its upper end
      var h := if hiI < |rs| && hi == rs[hiI].hi then hiI else hiI - 1;
      var cut := rs[..loI + 1] + rs[h + 1..];
      MergeAllCovers(rs, loI, h, lo, hi);
      cut[loI := Range(Min(cut[loI].lo, lo), Max(rs[h].hi, hi))]
  }

  /** The "merge" case of `add`: one range spanning rs[i..h+1] and [lo, hi] in place of that block. */
  lemma MergeAllCovers(rs: seq<Range>, i: nat, h: nat, lo: int, hi: int)
    requires SpansBlock(rs, i, h, lo, hi)
    ensures var cut := rs[..i + 1] + rs[h + 1..];
      forall n :: Covers(cut[i := Range(Min(cut[i].lo, lo), Max(rs[h].hi, hi))], n) <==> Covers(rs, n) || lo <= n <= hi
  {
    var cut := rs[..i + 1] + rs[h + 1..];
    assert cut[i := Range(Min(cut[i].lo, lo), Max(rs[h].hi, hi))] == MergeBlock(rs, i, h, lo, hi);
    forall n ensures Covers(MergeBlock(rs, i, h, lo, hi), n) <==> Covers(rs, n) || lo <= n <= hi {
      MergeBlockCovers(rs, i, h, lo, hi, n);
    }
  }

  lemma InsertAllCovers(rs: seq<Range>, i: nat, lo: int, hi: int)
    requires i <= |rs| && lo <= hi
    ensures forall n :: Covers(rs[..i] + [Range(lo, hi)] + rs[i..], n) <==> Covers(rs, n) || lo <= n <= hi
  {
    forall n {
      InsertCovers(rs, i, lo, hi, n);
    }
  }

  /** Replacing rs[i] by a wider range x that stays inside rs[i] joined with [lo, hi], which hi lies in. */
  lemma WidenCovers(rs: seq<Range>, i: nat, x: Range, lo: int, hi: int)
    requires i < |rs| && lo <= rs[i].hi && rs[i].lo <= hi
    requires x.lo <= rs[i].lo && rs[i].hi <= x.hi && x.lo <= hi <= x.hi
    requires x.lo == rs[i].lo || lo <= x.lo
    requires x.hi == rs[i].hi || x.hi <= hi
    ensures forall n :: Covers(rs, n) ==> Covers(rs[i := x], n)
    ensures forall n :: Covers(rs[i := x], n) ==> Covers(rs, n) || lo <= n <= hi
    ensures Covers(rs[i := x], hi)
  {
    var before, after := rs[..i], rs[i + 1..];
    assert rs == before + [rs[i]] + after;
    assert rs[i := x] == before + [x] + after;
    forall n
      ensures Covers(rs, n) ==> Covers(rs[i := x], n)
      ensures Covers(rs[i := x], n) ==> Covers(rs, n) || lo <= n <= hi
    {
      CoversAppend(before + [rs[i]], after, n);
      CoversAppend(before, [rs[i]], n);
      CoversAppend(before + [x], after, n);
      CoversAppend(before, [x], n);
      CoversSingle(rs[i], n);
      CoversSingle(x, n);
    }
    assert rs[i := x][i] == x;
  }

  /** The source's `remove`, case for case, with the index error it can raise. */
  function RemoveAsWritten(rs: seq<Range>, lo: int, hi: int): (r: Result<seq<Range>, Failure>)
    requires WellFormed(rs) && lo <= hi
    ensures r.Ok? ==> forall n :: Covers(r.value, n) ==> Covers(rs, n)
    ensures r.Ok? ==> !Covers(r.value, lo)
  {
    PositionMonotone(rs, lo, hi);
    var loI := Position(rs, lo);
    var hiI := if lo == hi then loI else Position(rs, hi);
    if loI == hiI then
      if loI < |rs| && hi >= rs[loI].lo && lo <= rs[loI].hi then
        var a, b := rs[loI].lo, rs[loI].hi;
        SplitRemoved(rs, loI, lo, hi);
        Ok(rs[..loI] + NonEmpty(Range(a, Min(b, lo - 1))) + NonEmpty(Range(Max(a, hi + 1), b)) + rs[loI + 1..])
      else
        PositionCovers(rs, lo);
        Ok(rs)
    else if loI + 1 == hiI && hiI < |rs| && (rs[hiI].lo > hi || hi >= rs[hiI].hi) then
      // trims range loI without dropping it when empty, and never touches range hiI
      TrimRemoved(rs, loI, lo);
      Ok(rs[loI := Range(rs[loI].lo, lo - 1)])
    else
      var h := if hiI >= |rs| then hiI - 1 else hiI;
      if h == loI then
        // `self._list[lo_i + 1] = ...` past the end of the list
        Err(IndexError)
      else
        Ok(RemoveBlockAsWritten(rs, loI, h, lo, hi))
  }

  /**
   * The general case of `remove`: ranges i and h are trimmed and the ones
   * between dropped, then only the range at i is checked for emptiness, twice.
   */
  function RemoveBlockAsWritten(rs: seq<Range>, i: nat, h: nat, lo: int, hi: int): (r: seq<Range>)
    requires WellFormed(rs) && i < h < |rs| && i == Position(rs, lo)
    ensures forall n :: Covers(r, n) ==> Covers(rs, n)
    ensures !Covers(r, lo)
  {
    var start, end := rs[h].lo, rs[h].hi;
    var cut := rs[..i + 2] + rs[h + 1..];
    var trimmed := cut[i := Range(rs[i].lo, lo - 1)][i + 1 := Range(if hi >= start then hi + 1 else start, end)];
    var pair := [Range(rs[i].lo, lo - 1), Range(if hi >= start then hi + 1 else start, end)];
    assert trimmed == rs[..i] + pair + rs[h + 1..];
    PairRemoved(rs, i, h, pair, lo);
    RemovedAround(rs, i, h, pair, lo);
    var once := if trimmed[i].lo > trimmed[i].hi then trimmed[..i] + trimmed[i + 1..] else trimmed;
    DropEmpty(trimmed, i);
    DropEmpty(once, i);
    if once[i].lo > once[i].hi then once[..i] + once[i + 1..] else once
  }

  /** The case of `remove` inside one range: what is left of it on either side of [lo, hi]. */
  lemma SplitRemoved(rs: seq<Range>, i: nat, lo: int, hi: int)
    requires WellFormed(rs) && i < |rs| && i == Position(rs, lo) && lo <= hi
    ensures var a, b := rs[i].lo, rs[i].hi;
      var t := rs[..i] + NonEmpty(Range(a, Min(b, lo - 1))) + NonEmpty(Range(Max(a, hi + 1), b)) + rs[i + 1..];
      (forall n :: Covers(t, n) ==> Covers(rs, n)) && !Covers(t, lo)
  {
    var a, b := rs[i].lo, rs[i].hi;
    var left, right := NonEmpty(Range(a, Min(b, lo - 1))), NonEmpty(Range(Max(a, hi + 1), b));
    forall n | Covers(left + right, n) ensures Covers(rs, n) && n != lo {
      CoversAppend(left, right, n);
    }
    assert rs[..i] + left + right + rs[i + 1..] == rs[..i] + (left + right) + rs[i + 1..];
    RemovedAround(rs, i, i, left + right, lo);
  }

  /** The "trim" case of `remove`: range i cut short below lo, even when that leaves it empty. */
  lemma TrimRemoved(rs: seq<Range>, i: nat, lo: int)
    requires WellFormed(rs) && i < |rs| && i == Position(rs, lo)
    ensures var t := rs[i := Range(rs[i].lo, lo - 1)];
      (forall n :: Covers(t, n) ==> Covers(rs, n)) && !Covers(t, lo)
  {
    var piece := [Range(rs[i].lo, lo - 1)];
    assert rs[i := Range(rs[i].lo, lo - 1)] == rs[..i] + piece + rs[i + 1..];
    forall n | Covers(piece, n) ensures Covers(rs, n) && n != lo {
      CoversSingle(piece[0], n);
    }
    RemovedAround(rs, i, i, piece, lo);
  }

  /**
   * Replacing the block rs[i..h+1], which starts at lo's position, by pieces
   * that lie in rs and avoid lo removes lo and adds nothing.
   */
  lemma RemovedAround(rs: seq<Range>, i: nat, h: nat, pieces: seq<Range>, lo: int)
    requires WellFormed(rs) && i <= h < |rs| && i == Position(rs, lo)
    requires forall n :: Covers(pieces, n) ==> Covers(rs, n) && n != lo
    ensures forall n :: Covers(rs[..i] + pieces + rs[h + 1..], n) ==> Covers(rs, n)
    ensures !Covers(rs[..i] + pieces + rs[h + 1..], lo)
  {
    var t := rs[..i] + pieces + rs[h + 1..];
    forall n
      ensures Covers(t, n) ==> Covers(rs, n) && n != lo
    {
      CoversAppend(rs[..i] + pieces, rs[h + 1..], n);
      CoversAppend(rs[..i], pieces, n);
      if Covers(rs[..i], n) {
        var k :| 0 <= k < i && rs[..i][k].lo <= n <= rs[..i][k].hi;
        assert rs[..i][k] == rs[k];
      }
      if Covers(rs[h + 1..], n) {
        var k :| 0 <= k < |rs| - h - 1 && rs[h + 1..][k].lo <= n <= rs[h + 1..][k].hi;
        assert rs[h + 1..][k] == rs[h + 1 + k];
        assert rs[i].hi < rs[h + 1 + k].lo;
      }
    }
  }

  /** The two trimmed ends of the general case of `remove` lie in rs[i] and rs[h] and avoid lo. */
  lemma PairRemoved(rs: seq<Range>, i: nat, h: nat, pair: seq<Range>, lo: int)
    requires WellFormed(rs) && i < h < |rs| && lo <= rs[i].hi
    requires |pair| == 2 && pair[0] == Range(rs[i].lo, lo - 1)
    requires rs[h].lo <= pair[1].lo && pair[1].hi == rs[h].hi
    ensures forall n :: Covers(pair, n) ==> Covers(rs, n) && n != lo
  {
    assert pair == [pair[0]] + [pair[1]];
    forall n | Covers(pair, n) ensures Covers(rs, n) && n != lo {
      CoversAppend([pair[0]], [pair[1]], n);
      CoversSingle(pair[0], n);
      CoversSingle(pair[1], n);
      assert rs[i].hi < rs[h].lo;
    }
  }

  /** Dropping an empty range covers the same symbols. */
  lemma DropEmpty(t: seq<Range>, i: nat)
    requires i < |t|
    ensures t[i].lo > t[i].hi ==> forall n :: Covers(t[..i] + t[i + 1..], n) <==> Covers(t, n)
  {
    if t[i].lo > t[i].hi {
      assert t == t[..i] + [t[i]] + t[i + 1..];
      forall n ensures Covers(t[..i] + t[i + 1..], n) <==> Covers(t, n) {
        CoversAppend(t[..i], t[i + 1..], n);
        CoversAppend(t[..i] + [t[i]], t[i + 1..], n);
        CoversAppend(t[..i], [t[i]], n);
        CoversSingle(t[i], n);
      }
    }
  }

  /** "extend up" forgets the symbols between lo and the start of the range it extends. */
  lemma AddAsWrittenDropsSymbols()
    ensures WellFormed([Range(10, 20), Range(30, 40)])
    ensures AddAsWritten([Range(10, 20), Range(30, 40)], 5, 25) == [Range(10, 25), Range(30, 40)]
    ensures !Covers(AddAsWritten([Range(10, 20), Range(30, 40)], 5, 25), 5)
  {
    var r := AddAsWritten([Range(10, 20), Range(30, 40)], 5, 25);
    assert r[0] == Range(10, 25) && r[1] == Range(30, 40);
  }

  /** "extend up" with hi at the end of the next range, and "merge" with hi inside a range, leave overlapping ranges. */
  lemma AddAsWrittenOverlaps()
    ensures WellFormed([Range(10, 20), Range(30, 40)])
    ensures AddAsWritten([Range(10, 20), Range(30, 40)], 15, 40) == [Range(10, 40), Range(30, 40)]
    ensures !WellFormed(AddAsWritten([Range(10, 20), Range(30, 40)], 15, 40))
    ensures WellFormed([Range(10, 20), Range(30, 40), Range(50, 60)])
    ensures AddAsWritten([Range(10, 20), Range(30, 40), Range(50, 60)], 15, 55) == [Range(10, 55), Range(50, 60)]
    ensures !WellFormed(AddAsWritten([Range(10, 20), Range(30, 40), Range(50, 60)], 15, 55))
  {
    var two := [Range(10, 20), Range(30, 40)];
    assert two[1..] == [Range(30, 40)];
    assert Position(two, 40) == 1;
    var r := AddAsWritten(two, 15, 40);
    assert r == two[0 := Range(10, 40)];
    assert r[0] == Range(10, 40) && r[1] == Range(30, 40);
    var three := [Range(10, 20), Range(30, 40), Range(50, 60)];
    assert three[1..] == [Range(30, 40), Range(50, 60)];
    assert three[1..][1..] == [Range(50, 60)];
    assert Position(three, 55) == 2;
    var q := AddAsWritten(three, 15, 55);
    assert three[..1] + three[2..] == [Range(10, 20), Range(50, 60)];
    assert q[0] == Range(10, 55) && q[1] == Range(50, 60);
  }

  /** Removing up to the end of the next range leaves that range in place. */
  lemma RemoveAsWrittenKeepsRemoved()
    ensures WellFormed([Range(10, 20), Range(30, 40)])
    ensures RemoveAsWritten([Range(10, 20), Range(30, 40)], 15, 40) == Ok([Range(10, 14), Range(30, 40)])
    ensures Covers(RemoveAsWritten([Range(10, 20), Range(30, 40)], 15, 40).value, 35)
  {
    var two := [Range(10, 20), Range(30, 40)];
    assert two[1..] == [Range(30, 40)];
    assert Position(two, 40) == 1;
    var r := RemoveAsWritten(two, 15, 40).value;
    assert Position(two, 15) == 0;
    assert RemoveAsWritten(two, 15, 40) == Ok(two[0 := Range(10, 14)]);
    assert two[0 := Range(10, 14)] == [Range(10, 14), Range(30, 40)];
    assert r[1].lo <= 35 <= r[1].hi;
  }

  /** Removing past the end of the last range raises an index error. */
  lemma RemoveAsWrittenIndexError()
    ensures WellFormed([Range(10, 20)])
    ensures RemoveAsWritten([Range(10, 20)], 15, 25) == Err(IndexError)
  {
  }

  /** Trimming can leave an empty range behind, so the list is no longer well formed. */
  lemma RemoveAsWrittenLeavesEmptyRange()
    ensures WellFormed([Range(10, 20), Range(30, 40)])
    ensures RemoveAsWritten([Range(10, 20), Range(30, 40)], 10, 25) == Ok([Range(10, 9), Range(30, 40)])
    ensures WellFormed([Range(10, 20), Range(30, 40), Range(50, 60)])
    ensures RemoveAsWritten([Range(10, 20), Range(30, 40), Range(50, 60)], 15, 100) == Ok([Range(10, 14), Range(101, 60)])
  {
    var two := [Range(10, 20), Range(30, 40)];
    assert two[1..] == [Range(30, 40)];
    assert Position(two, 25) == 1;
    var r := RemoveAsWritten(two, 10, 25).value;
    assert Position(two, 10) == 0;
    assert RemoveAsWritten(two, 10, 25) == Ok(two[0 := Range(10, 9)]);
    assert two[0 := Range(10, 9)] == [Range(10, 9), Range(30, 40)];
    var three := [Range(10, 20), Range(30, 40), Range(50, 60)];
    assert three[1..] == [Range(30, 40), Range(50, 60)];
    assert three[1..][1..] == [Range(50, 60)];
    assert three[1..][1..][1..] == [];
    assert Position(three, 100) == 3;
    var cut := three[..2] + three[3..];
    assert cut == [Range(10, 20), Range(30, 40)];
    var trimmed := cut[0 := Range(10, 14)][1 := Range(101, 60)];
    assert trimmed == [Range(10, 14), Range(101, 60)];
    assert RemoveAsWritten(three, 15, 100) == Ok(trimmed);
  }
}
