/**
 * The sorted interval list behind character classes (`RangeList` in
 * benchmark/util.py). Symbols are integers; the successor and predecessor
 * functions the source takes as parameters are fixed to +1 and -1, which is
 * what the character-class leaf passes for code points.
 */
module RangeLists {
  import opened Wrappers

  /** An inclusive range of symbols. */
  datatype Range = Range(lo: int, hi: int)

  function Min(a: int, b: int): int { if a <= b then a else b }
  function Max(a: int, b: int): int { if a <= b then b else a }

  /** Every range is non-empty and ranges are strictly ordered and disjoint. */
  predicate WellFormed(rs: seq<Range>) {
    && (forall i :: 0 <= i < |rs| ==> rs[i].lo <= rs[i].hi)
    && (forall i, j :: 0 <= i < j < |rs| ==> rs[i].hi < rs[j].lo)
  }

  /** The symbol n lies in one of the ranges. */
  predicate Covers(rs: seq<Range>, n: int) {
    exists i :: 0 <= i < |rs| && rs[i].lo <= n <= rs[i].hi
  }

  /**
   * The index of the first range that does not lie wholly below n: the
   * range containing n if there is one, otherwise where a range holding n
   * would be inserted.
   */
  function Position(rs: seq<Range>, n: int): (p: nat)
    ensures p <= |rs|
    ensures forall j :: 0 <= j < p ==> rs[j].hi < n
    ensures p < |rs| ==> n <= rs[p].hi
  {
    if rs == [] || n <= rs[0].hi then 0 else 1 + Position(rs[1..], n)
  }

  /** On a well-formed list, n is covered exactly when the range at its position holds it. */
  lemma {:induction false} PositionCovers(rs: seq<Range>, n: int)
    requires WellFormed(rs)
    ensures Covers(rs, n) <==> (Position(rs, n) < |rs| && rs[Position(rs, n)].lo <= n)
  {
    var p := Position(rs, n);
    if Covers(rs, n) {
      var i :| 0 <= i < |rs| && rs[i].lo <= n <= rs[i].hi;
      assert p <= i;
      assert n <= rs[p].hi;
      assert i == p;
    }
  }

  /** The index splitting the ranges wholly below n from the rest is n's position. */
  lemma AtPosition(rs: seq<Range>, n: int, p: nat)
    requires WellFormed(rs) && p <= |rs|
    requires forall j :: 0 <= j < p ==> rs[j].hi < n
    requires forall j :: p <= j < |rs| ==> n <= rs[j].hi
    ensures p == Position(rs, n)
    ensures Covers(rs, n) <==> p < |rs| && rs[p].lo <= n
  {
    PositionCovers(rs, n);
    var q := Position(rs, n);
    assert q < |rs| ==> n <= rs[q].hi;
    assert p < |rs| ==> n <= rs[p].hi;
  }

  /** Positions are monotone in the symbol searched for. */
  lemma PositionMonotone(rs: seq<Range>, m: int, n: int)
    requires WellFormed(rs) && m <= n
    ensures Position(rs, m) <= Position(rs, n)
  {
  }

  lemma CoversAppend(a: seq<Range>, b: seq<Range>, n: int)
    ensures Covers(a + b, n) <==> Covers(a, n) || Covers(b, n)
  {
    if Covers(a + b, n) {
      var i :| 0 <= i < |a + b| && (a + b)[i].lo <= n <= (a + b)[i].hi;
      if i >= |a| {
        assert b[i - |a|] == (a + b)[i];
      }
    }
    if Covers(a, n) {
      var i :| 0 <= i < |a| && a[i].lo <= n <= a[i].hi;
      assert (a + b)[i] == a[i];
    }
    if Covers(b, n) {
      var i :| 0 <= i < |b| && b[i].lo <= n <= b[i].hi;
      assert (a + b)[|a| + i] == b[i];
    }
  }

  lemma CoversSingle(r: Range, n: int)
    ensures Covers([r], n) <==> r.lo <= n <= r.hi
  {
    if r.lo <= n <= r.hi {
      assert [r][0] == r;
    }
  }

  /** A list of at most one range: the range itself when it is not empty. */
  function NonEmpty(r: Range): (s: seq<Range>)
    ensures forall n :: Covers(s, n) <==> r.lo <= n <= r.hi
    ensures WellFormed(s)
  {
    if r.lo <= r.hi then
      assert forall n :: Covers([r], n) <==> r.lo <= n <= r.hi by {
        forall n { CoversSingle(r, n); }
      }
      [r]
    else []
  }

  /** The preconditions under which `add` may replace rs[i..h+1] by one range. */
  predicate MergeableBlock(rs: seq<Range>, i: nat, h: nat, lo: int, hi: int) {
    && WellFormed(rs) && lo <= hi
    && i <= h < |rs|
    && lo <= rs[i].hi && (forall j :: 0 <= j < i ==> rs[j].hi < lo)
    && (forall j :: i <= j < h ==> rs[j].hi < hi) && rs[h].lo <= hi
    && (h + 1 < |rs| ==> hi < rs[h + 1].lo)
  }

  /** [lo, hi] meets the first and the last range of the block rs[i..h+1]. */
  predicate SpansBlock(rs: seq<Range>, i: nat, h: nat, lo: int, hi: int) {
    WellFormed(rs) && lo <= hi && i <= h < |rs| && lo <= rs[i].hi && rs[h].lo <= hi
  }

  /**
   * The list with rs[i..h+1] replaced by one range spanning it and [lo, hi]:
   * the shared step of the "extend" and "merge" cases of `add`.
   */
  function MergeBlock(rs: seq<Range>, i: nat, h: nat, lo: int, hi: int): seq<Range>
    requires i <= h < |rs|
  {
    rs[..i] + [Range(Min(rs[i].lo, lo), Max(rs[h].hi, hi))] + rs[h + 1..]
  }

  lemma MergeBlockWellFormed(rs: seq<Range>, i: nat, h: nat, lo: int, hi: int)
    requires MergeableBlock(rs, i, h, lo, hi)
    ensures WellFormed(MergeBlock(rs, i, h, lo, hi))
  {
    var merged := MergeBlock(rs, i, h, lo, hi);
    forall x, y | 0 <= x < y < |merged| ensures merged[x].hi < merged[y].lo {
      if y < i {
      } else if y == i {
        assert merged[x] == rs[x];
      } else if x < i {
        assert merged[x] == rs[x] && merged[y] == rs[y - i + h];
      } else if x == i {
        assert merged[y] == rs[y - i + h];
        assert rs[h].hi < rs[y - i + h].lo || y - i + h == h + 1;
      } else {
        assert merged[x] == rs[x - i + h] && merged[y] == rs[y - i + h];
      }
    }
  }

  lemma MergeBlockCovers(rs: seq<Range>, i: nat, h: nat, lo: int, hi: int, n: int)
    requires SpansBlock(rs, i, h, lo, hi)
    ensures Covers(MergeBlock(rs, i, h, lo, hi), n) <==> Covers(rs, n) || lo <= n <= hi
  {
    var m := Range(Min(rs[i].lo, lo), Max(rs[h].hi, hi));
    var before, block, after := rs[..i], rs[i..h + 1], rs[h + 1..];
    assert rs == before + block + after;
    assert MergeBlock(rs, i, h, lo, hi) == before + [m] + after;
    CoversAppend(before + [m], after, n);
    CoversAppend(before, [m], n);
    CoversAppend(before + block, after, n);
    CoversAppend(before, block, n);
    CoversSingle(m, n);
    BlockCovers(rs, i, h, lo, hi, n);
  }

  /** The block rs[i..h+1] and [lo, hi] together cover exactly the one spanning range. */
  lemma BlockCovers(rs: seq<Range>, i: nat, h: nat, lo: int, hi: int, n: int)
    requires SpansBlock(rs, i, h, lo, hi)
    ensures Covers(rs[i..h + 1], n) || lo <= n <= hi <==> Min(rs[i].lo, lo) <= n <= Max(rs[h].hi, hi)
  {
    var block := rs[i..h + 1];
    if Covers(block, n) {
      var k :| 0 <= k < |block| && block[k].lo <= n <= block[k].hi;
      assert block[k] == rs[i + k];
      assert rs[i].lo <= rs[i + k].lo && rs[i + k].hi <= rs[h].hi;
    }
    if Min(rs[i].lo, lo) <= n <= Max(rs[h].hi, hi) && !(lo <= n <= hi) {
      if n < lo {
        assert block[0] == rs[i];
      } else {
        assert block[h - i] == rs[h];
      }
    }
  }

  lemma MergeBlockKeeps(rs: seq<Range>, i: nat, h: nat, lo: int, hi: int, j: nat)
    requires MergeableBlock(rs, i, h, lo, hi)
    requires j < |rs| && (rs[j].hi < lo || hi < rs[j].lo)
    ensures rs[j] in MergeBlock(rs, i, h, lo, hi)
  {
    var merged := MergeBlock(rs, i, h, lo, hi);
    if j < i {
      assert merged[j] == rs[j];
    } else if j <= h {
      assert false;
    } else {
      assert merged[j - h + i] == rs[j];
    }
  }

  lemma MergeBlockOnly(rs: seq<Range>, i: nat, h: nat, lo: int, hi: int, k: nat)
    requires MergeableBlock(rs, i, h, lo, hi)
    requires k < |MergeBlock(rs, i, h, lo, hi)|
    ensures var r := MergeBlock(rs, i, h, lo, hi)[k];
      (r in rs && Untouched(r, lo, hi)) || (r.lo <= lo && hi <= r.hi)
  {
    var merged := MergeBlock(rs, i, h, lo, hi);
    if k < i {
      assert merged[k] == rs[k];
    } else if k > i {
      var j := k - i + h;
      assert merged[k] == rs[j];
      assert rs[h + 1].lo <= rs[j].lo;
    }
  }

  /** The facts `add` needs about one merge step. */
  lemma MergeBlockAll(rs: seq<Range>, i: nat, h: nat, lo: int, hi: int)
    requires MergeableBlock(rs, i, h, lo, hi)
    ensures Added(rs, MergeBlock(rs, i, h, lo, hi), lo, hi)
  {
    MergeBlockWellFormed(rs, i, h, lo, hi);
    forall n ensures Covers(MergeBlock(rs, i, h, lo, hi), n) <==> Covers(rs, n) || lo <= n <= hi {
      MergeBlockCovers(rs, i, h, lo, hi, n);
    }
    forall r | r in rs && (r.hi < lo || hi < r.lo) ensures r in MergeBlock(rs, i, h, lo, hi) {
      var j :| 0 <= j < |rs| && rs[j] == r;
      MergeBlockKeeps(rs, i, h, lo, hi, j);
    }
    var merged := MergeBlock(rs, i, h, lo, hi);
    forall r | r in merged ensures (r in rs && Untouched(r, lo, hi)) || (r.lo <= lo && hi <= r.hi) {
      var k :| 0 <= k < |merged| && merged[k] == r;
      MergeBlockOnly(rs, i, h, lo, hi, k);
    }
  }

  /** The gap at index i lies strictly between rs[i-1] and rs[i] and holds [lo, hi]. */
  predicate FitsGap(rs: seq<Range>, i: nat, lo: int, hi: int) {
    && WellFormed(rs) && lo <= hi && i <= |rs|
    && (forall j :: 0 <= j < i ==> rs[j].hi < lo)
    && (i < |rs| ==> hi < rs[i].lo)
  }

  lemma InsertWellFormed(rs: seq<Range>, i: nat, lo: int, hi: int)
    requires FitsGap(rs, i, lo, hi)
    ensures WellFormed(rs[..i] + [Range(lo, hi)] + rs[i..])
  {
    var ins := rs[..i] + [Range(lo, hi)] + rs[i..];
    forall x, y | 0 <= x < y < |ins| ensures ins[x].hi < ins[y].lo {
      if y < i {
        assert ins[x] == rs[x] && ins[y] == rs[y];
      } else if y == i {
        assert ins[x] == rs[x];
      } else if x < i {
        assert ins[x] == rs[x] && ins[y] == rs[y - 1];
      } else if x == i {
        assert ins[y] == rs[y - 1];
        assert rs[i].lo <= rs[y - 1].lo;
      } else {
        assert ins[x] == rs[x - 1] && ins[y] == rs[y - 1];
      }
    }
  }

  lemma InsertCovers(rs: seq<Range>, i: nat, lo: int, hi: int, n: int)
    requires i <= |rs|
    ensures Covers(rs[..i] + [Range(lo, hi)] + rs[i..], n) <==> Covers(rs, n) || lo <= n <= hi
  {
    assert rs == rs[..i] + rs[i..];
    CoversAppend(rs[..i] + [Range(lo, hi)], rs[i..], n);
    CoversAppend(rs[..i], [Range(lo, hi)], n);
    CoversAppend(rs[..i], rs[i..], n);
    CoversSingle(Range(lo, hi), n);
  }

  lemma InsertOnly(rs: seq<Range>, i: nat, lo: int, hi: int, k: nat)
    requires FitsGap(rs, i, lo, hi) && k <= |rs|
    ensures var r := (rs[..i] + [Range(lo, hi)] + rs[i..])[k];
      (r in rs && Untouched(r, lo, hi)) || (r.lo <= lo && hi <= r.hi)
  {
    var ins := rs[..i] + [Range(lo, hi)] + rs[i..];
    if k < i {
      assert ins[k] == rs[k];
    } else if k > i {
      assert ins[k] == rs[k - 1];
      assert rs[i].lo <= rs[k - 1].lo;
    }
  }

  /** Inserting a range in the gap at index i (the "insert no-overlap" case of `add`). */
  lemma InsertInGap(rs: seq<Range>, i: nat, lo: int, hi: int)
    requires WellFormed(rs) && lo <= hi && i <= |rs|
    requires forall j :: 0 <= j < i ==> rs[j].hi < lo
    requires i < |rs| ==> hi < rs[i].lo
    ensures Added(rs, rs[..i] + [Range(lo, hi)] + rs[i..], lo, hi)
  {
    var ins := rs[..i] + [Range(lo, hi)] + rs[i..];
    InsertWellFormed(rs, i, lo, hi);
    forall n ensures Covers(ins, n) <==> Covers(rs, n) || lo <= n <= hi {
      InsertCovers(rs, i, lo, hi, n);
    }
    forall r | r in rs ensures r in ins {
      var j :| 0 <= j < |rs| && rs[j] == r;
      if j < i { assert ins[j] == r; } else { assert ins[j + 1] == r; }
    }
    forall r | r in ins ensures (r in rs && Untouched(r, lo, hi)) || (r.lo <= lo && hi <= r.hi) {
      var k :| 0 <= k < |ins| && ins[k] == r;
      InsertOnly(rs, i, lo, hi, k);
    }
  }

  /** [lo, hi] shares no symbol with r. */
  predicate Untouched(r: Range, lo: int, hi: int) {
    r.hi < lo || hi < r.lo
  }

  /**
   * What `add` promises: the new list is well formed and covers exactly the
   * old symbols plus [lo, hi]; it keeps every range that [lo, hi] does not
   * touch, even one merely adjacent to it, and its only other range is the
   * one holding all of [lo, hi].
   */
  ghost predicate Added(before: seq<Range>, after: seq<Range>, lo: int, hi: int) {
    && WellFormed(after)
    && (forall n :: Covers(after, n) <==> Covers(before, n) || lo <= n <= hi)
    && (forall r :: r in before && Untouched(r, lo, hi) ==> r in after)
    && (forall r :: r in after ==> (r in before && Untouched(r, lo, hi)) || (r.lo <= lo && hi <= r.hi))
  }

  lemma ExtendIsMerge(rs: seq<Range>, i: nat, lo: int, hi: int)
    requires i < |rs|
    ensures rs[i := Range(Min(lo, rs[i].lo), Max(hi, rs[i].hi))] == MergeBlock(rs, i, i, lo, hi)
  {
  }

  lemma MergeIsMerge(rs: seq<Range>, i: nat, h: nat, lo: int, hi: int)
    requires i <= h < |rs|
    ensures var cut := rs[..i + 1] + rs[h + 1..];
      cut[i := Range(Min(cut[i].lo, lo), Max(rs[h].hi, hi))] == MergeBlock(rs, i, h, lo, hi)
  {
  }

  lemma ConcatWellFormed(a: seq<Range>, b: seq<Range>, m: int)
    requires WellFormed(a) && WellFormed(b)
    requires forall x :: 0 <= x < |a| ==> a[x].hi < m
    requires forall y :: 0 <= y < |b| ==> m <= b[y].lo
    ensures WellFormed(a + b)
  {
    var ab := a + b;
    forall x, y | 0 <= x < y < |ab| ensures ab[x].hi < ab[y].lo {
      if y < |a| {
        assert ab[x] == a[x] && ab[y] == a[y];
      } else if x < |a| {
        assert ab[x] == a[x] && ab[y] == b[y - |a|];
      } else {
        assert ab[x] == b[x - |a|] && ab[y] == b[y - |a|];
      }
    }
  }

  /**
   * What `remove` promises: the new list is well formed and covers exactly
   * the old symbols outside [lo, hi]; it keeps every range that [lo, hi] does
   * not touch, and its only other ranges are the pieces just below lo and
   * just above hi.
   */
  ghost predicate Removed(before: seq<Range>, after: seq<Range>, lo: int, hi: int) {
    && WellFormed(after)
    && (forall n :: Covers(after, n) <==> Covers(before, n) && !(lo <= n <= hi))
    && (forall r :: r in before && Untouched(r, lo, hi) ==> r in after)
    && (forall r :: r in after ==> (r in before && Untouched(r, lo, hi)) || r.hi == lo - 1 || r.lo == hi + 1)
  }

  /** The preconditions under which `remove` may cut [lo, hi] out of rs[i..h+1]. */
  predicate CuttableBlock(rs: seq<Range>, i: nat, h: nat, lo: int, hi: int) {
    && WellFormed(rs) && lo <= hi
    && i <= h < |rs|
    && lo <= rs[i].hi && (forall j :: 0 <= j < i ==> rs[j].hi < lo)
    && (forall j :: i <= j < h ==> rs[j].hi < hi)
    && (h + 1 < |rs| ==> hi < rs[h + 1].lo)
  }

  /**
   * The list with rs[i..h+1] replaced by what is left of it outside [lo, hi]:
   * the part of rs[i] below lo and the part of rs[h] above hi, each dropped
   * when empty.
   */
  function CutBlock(rs: seq<Range>, i: nat, h: nat, lo: int, hi: int): seq<Range>
    requires i <= h < |rs|
  {
    rs[..i] + NonEmpty(Range(rs[i].lo, lo - 1)) + NonEmpty(Range(Max(rs[h].lo, hi + 1), rs[h].hi)) + rs[h + 1..]
  }

  lemma CutBlockWellFormed(rs: seq<Range>, i: nat, h: nat, lo: int, hi: int)
    requires CuttableBlock(rs, i, h, lo, hi)
    ensures WellFormed(CutBlock(rs, i, h, lo, hi))
  {
    var before, after := rs[..i], rs[h + 1..];
    var first, last := NonEmpty(Range(rs[i].lo, lo - 1)), NonEmpty(Range(Max(rs[h].lo, hi + 1), rs[h].hi));
    assert forall x :: 0 <= x < |before| ==> before[x].hi < rs[i].lo by {
      forall x | 0 <= x < |before| ensures before[x].hi < rs[i].lo { assert before[x] == rs[x]; }
    }
    ConcatWellFormed(before, first, rs[i].lo);
    ConcatWellFormed(before + first, last, lo);
    assert rs[i].hi <= rs[h].hi;
    forall x | 0 <= x < |after| ensures rs[h].hi + 1 <= after[x].lo {
      assert after[x] == rs[h + 1 + x];
    }
    ConcatWellFormed(before + first + last, after, rs[h].hi + 1);
  }

  /** What is left of the block rs[i..h+1] outside [lo, hi] is the two end pieces. */
  lemma CutBlockPieces(rs: seq<Range>, i: nat, h: nat, lo: int, hi: int, n: int)
    requires CuttableBlock(rs, i, h, lo, hi)
    ensures (Covers(rs[i..h + 1], n) && !(lo <= n <= hi)) <==>
      (Covers(NonEmpty(Range(rs[i].lo, lo - 1)), n) || Covers(NonEmpty(Range(Max(rs[h].lo, hi + 1), rs[h].hi)), n))
  {
    var block := rs[i..h + 1];
    if Covers(block, n) && !(lo <= n <= hi) {
      var k :| 0 <= k < |block| && block[k].lo <= n <= block[k].hi;
      assert block[k] == rs[i + k];
      if n < lo {
        assert k == 0;
      } else {
        assert i + k == h;
      }
    }
    if rs[i].lo <= n <= lo - 1 {
      assert block[0] == rs[i];
    }
    if Max(rs[h].lo, hi + 1) <= n <= rs[h].hi {
      assert block[h - i] == rs[h];
    }
  }

  /** The ranges outside the block lie wholly outside [lo, hi]. */
  lemma CutBlockOutside(rs: seq<Range>, i: nat, h: nat, lo: int, hi: int, n: int)
    requires CuttableBlock(rs, i, h, lo, hi)
    requires Covers(rs[..i], n) || Covers(rs[h + 1..], n)
    ensures !(lo <= n <= hi)
  {
    if Covers(rs[..i], n) {
      var k :| 0 <= k < |rs[..i]| && rs[..i][k].lo <= n <= rs[..i][k].hi;
      assert rs[..i][k] == rs[k];
    } else {
      var k :| 0 <= k < |rs[h + 1..]| && rs[h + 1..][k].lo <= n <= rs[h + 1..][k].hi;
      assert rs[h + 1..][k] == rs[h + 1 + k];
    }
  }

  lemma CutBlockCovers(rs: seq<Range>, i: nat, h: nat, lo: int, hi: int, n: int)
    requires CuttableBlock(rs, i, h, lo, hi)
    ensures Covers(CutBlock(rs, i, h, lo, hi), n) <==> Covers(rs, n) && !(lo <= n <= hi)
  {
    var before, block, after := rs[..i], rs[i..h + 1], rs[h + 1..];
    var first, last := NonEmpty(Range(rs[i].lo, lo - 1)), NonEmpty(Range(Max(rs[h].lo, hi + 1), rs[h].hi));
    assert rs == before + block + after;
    CoversAppend(before + first + last, after, n);
    CoversAppend(before + first, last, n);
    CoversAppend(before, first, n);
    CoversAppend(before + block, after, n);
    CoversAppend(before, block, n);
    CutBlockPieces(rs, i, h, lo, hi, n);
    if Covers(before, n) || Covers(after, n) {
      CutBlockOutside(rs, i, h, lo, hi, n);
    }
  }

  lemma CutBlockKeeps(rs: seq<Range>, i: nat, h: nat, lo: int, hi: int, j: nat)
    requires CuttableBlock(rs, i, h, lo, hi)
    requires j < |rs| && (rs[j].hi < lo || hi < rs[j].lo)
    ensures rs[j] in CutBlock(rs, i, h, lo, hi)
  {
    var cut := CutBlock(rs, i, h, lo, hi);
    var before := rs[..i] + NonEmpty(Range(rs[i].lo, lo - 1));
    if j < i {
      assert cut[j] == rs[j];
    } else if j < h {
      assert false;
    } else if j == h {
      assert cut[|before|] == rs[h];
    } else {
      var k := |cut| - (|rs| - j);
      assert cut[k] == rs[j];
    }
  }

  lemma CutBlockOnly(rs: seq<Range>, i: nat, h: nat, lo: int, hi: int, k: nat)
    requires CuttableBlock(rs, i, h, lo, hi)
    requires k < |CutBlock(rs, i, h, lo, hi)|
    ensures var r := CutBlock(rs, i, h, lo, hi)[k];
      (r in rs && Untouched(r, lo, hi)) || r.hi == lo - 1 || r.lo == hi + 1
  {
    var cut := CutBlock(rs, i, h, lo, hi);
    var first, last := NonEmpty(Range(rs[i].lo, lo - 1)), NonEmpty(Range(Max(rs[h].lo, hi + 1), rs[h].hi));
    if k < i {
      assert cut[k] == rs[k];
    } else if k < i + |first| {
      assert cut[k] == Range(rs[i].lo, lo - 1);
    } else if k < i + |first| + |last| {
      assert cut[k] == Range(Max(rs[h].lo, hi + 1), rs[h].hi);
      if rs[h].lo > hi + 1 {
        assert cut[k] == rs[h];
      }
    } else {
      var j := k - i - |first| - |last| + h + 1;
      assert cut[k] == rs[j];
      assert rs[h + 1].lo <= rs[j].lo;
    }
  }

  lemma CutBlockKeepsAll(rs: seq<Range>, i: nat, h: nat, lo: int, hi: int)
    requires CuttableBlock(rs, i, h, lo, hi)
    ensures forall r :: r in rs && Untouched(r, lo, hi) ==> r in CutBlock(rs, i, h, lo, hi)
  {
    forall r | r in rs && Untouched(r, lo, hi) ensures r in CutBlock(rs, i, h, lo, hi) {
      var j :| 0 <= j < |rs| && rs[j] == r;
      CutBlockKeeps(rs, i, h, lo, hi, j);
    }
  }

  lemma CutBlockOnlyAll(rs: seq<Range>, i: nat, h: nat, lo: int, hi: int)
    requires CuttableBlock(rs, i, h, lo, hi)
    ensures forall r :: r in CutBlock(rs, i, h, lo, hi) ==> (r in rs && Untouched(r, lo, hi)) || r.hi == lo - 1 || r.lo == hi + 1
  {
    var cut := CutBlock(rs, i, h, lo, hi);
    forall r | r in cut ensures (r in rs && Untouched(r, lo, hi)) || r.hi == lo - 1 || r.lo == hi + 1 {
      var k :| 0 <= k < |cut| && cut[k] == r;
      CutBlockOnly(rs, i, h, lo, hi, k);
    }
  }

  lemma CutBlockAll(rs: seq<Range>, i: nat, h: nat, lo: int, hi: int)
    requires CuttableBlock(rs, i, h, lo, hi)
    ensures Removed(rs, CutBlock(rs, i, h, lo, hi), lo, hi)
  {
    CutBlockWellFormed(rs, i, h, lo, hi);
    forall n ensures Covers(CutBlock(rs, i, h, lo, hi), n) <==> Covers(rs, n) && !(lo <= n <= hi) {
      CutBlockCovers(rs, i, h, lo, hi, n);
    }
    CutBlockKeepsAll(rs, i, h, lo, hi);
    CutBlockOnlyAll(rs, i, h, lo, hi);
  }

  lemma RemovedNothing(rs: seq<Range>, lo: int, hi: int)
    requires WellFormed(rs)
    requires forall j :: 0 <= j < |rs| ==> rs[j].hi < lo || hi < rs[j].lo
    ensures Removed(rs, rs, lo, hi)
  {
  }

  lemma SplitIsCut(rs: seq<Range>, i: nat, lo: int, hi: int)
    requires i < |rs| && lo <= rs[i].hi
    ensures rs[..i] + NonEmpty(Range(rs[i].lo, Min(rs[i].hi, lo - 1))) + NonEmpty(Range(Max(rs[i].lo, hi + 1), rs[i].hi)) + rs[i + 1..]
      == CutBlock(rs, i, i, lo, hi)
  {
  }

  lemma TrimIsCut(rs: seq<Range>, i: nat, lo: int, hi: int)
    requires i < |rs| && rs[i].hi < hi
    ensures rs[i].lo <= lo - 1 ==> rs[i := Range(rs[i].lo, lo - 1)] == CutBlock(rs, i, i, lo, hi)
    ensures rs[i].lo > lo - 1 ==> rs[..i] + rs[i + 1..] == CutBlock(rs, i, i, lo, hi)
  {
  }

  lemma TrimBothIsCut(rs: seq<Range>, i: nat, h: nat, lo: int, hi: int)
    requires i <= h < |rs|
    ensures var last := Range(if hi >= rs[h].lo then hi + 1 else rs[h].lo, rs[h].hi);
      rs[..i] + NonEmpty(Range(rs[i].lo, lo - 1)) + NonEmpty(last) + rs[h + 1..] == CutBlock(rs, i, h, lo, hi)
  {
  }

  /**
   * One step of the two-index sweep: once x[i] ends no later than y[j],
   * the common symbols x[i] adds are exactly its overlap with y[j].
   */
  lemma SweepStep(x: seq<Range>, y: seq<Range>, i: nat, j: nat, n: int)
    requires WellFormed(x) && WellFormed(y)
    requires i < |x| && j < |y| && x[i].hi <= y[j].hi
    ensures (Covers(x, n) && Covers(y, n) && (Covers(x[..i + 1], n) || Covers(y[..j], n)))
      <==> (Covers(x, n) && Covers(y, n) && (Covers(x[..i], n) || Covers(y[..j], n)))
           || Max(x[i].lo, y[j].lo) <= n <= Min(x[i].hi, y[j].hi)
  {
    assert x[..i + 1] == x[..i] + [x[i]];
    CoversAppend(x[..i], [x[i]], n);
    CoversSingle(x[i], n);
    assert y == y[..j] + y[j..];
    CoversAppend(y[..j], y[j..], n);
    if Covers(y[j..], n) && x[i].lo <= n <= x[i].hi {
      var k :| 0 <= k < |y[j..]| && y[j..][k].lo <= n <= y[j..][k].hi;
      assert y[j..][k] == y[j + k];
    }
    if Max(x[i].lo, y[j].lo) <= n <= Min(x[i].hi, y[j].hi) {
      assert x[i].lo <= n <= x[i].hi;
      assert y[j].lo <= n <= y[j].hi;
    }
  }

  /** The symbols two ranges share; empty (lo > hi) when they do not overlap. */
  function Meet(r: Range, s: Range): Range {
    Range(Max(r.lo, s.lo), Min(r.hi, s.hi))
  }

  /** x is the non-empty overlap of some range of a with some range of b. */
  ghost predicate IsOverlap(a: seq<Range>, b: seq<Range>, x: Range) {
    exists i, j :: 0 <= i < |a| && 0 <= j < |b| && x == Meet(a[i], b[j]) && x.lo <= x.hi
  }

  /** Every piece of t, taken from its end, is an overlap of a range of a with a range of b. */
  ghost predicate FromOverlaps(a: seq<Range>, b: seq<Range>, t: seq<Range>)
    decreases |t|
  {
    t == [] || (FromOverlaps(a, b, t[..|t| - 1]) && IsOverlap(a, b, t[|t| - 1]))
  }

  lemma FromOverlapsAppend(a: seq<Range>, b: seq<Range>, t: seq<Range>, x: Range)
    requires FromOverlaps(a, b, t) && IsOverlap(a, b, x)
    ensures FromOverlaps(a, b, t + [x])
  {
    assert (t + [x])[..|t|] == t;
  }

  lemma {:induction false} FromOverlapsMembers(a: seq<Range>, b: seq<Range>, t: seq<Range>)
    requires FromOverlaps(a, b, t)
    ensures forall x :: x in t ==> IsOverlap(a, b, x)
    decreases |t|
  {
    if t != [] {
      FromOverlapsMembers(a, b, t[..|t| - 1]);
      assert t == t[..|t| - 1] + [t[|t| - 1]];
    }
  }

  /**
   * A list made only of overlaps that covers every common symbol holds every
   * non-empty overlap: the first symbol of Meet(a[i], b[j]) lies in one of its
   * pieces, and that piece can only be the overlap of a[i] with b[j].
   */
  lemma OverlapKept(a: seq<Range>, b: seq<Range>, inter: seq<Range>, i: nat, j: nat)
    requires WellFormed(a) && WellFormed(b)
    requires forall x :: x in inter ==> IsOverlap(a, b, x)
    requires i < |a| && j < |b| && Meet(a[i], b[j]).lo <= Meet(a[i], b[j]).hi
    requires Covers(inter, Meet(a[i], b[j]).lo)
    ensures Meet(a[i], b[j]) in inter
  {
    var n := Meet(a[i], b[j]).lo;
    var k :| 0 <= k < |inter| && inter[k].lo <= n <= inter[k].hi;
    assert inter[k] in inter;
    var i', j' :| 0 <= i' < |a| && 0 <= j' < |b| && inter[k] == Meet(a[i'], b[j']) && inter[k].lo <= inter[k].hi;
    assert a[i'].lo <= n <= a[i'].hi && a[i].lo <= n <= a[i].hi;
    assert b[j'].lo <= n <= b[j'].hi && b[j].lo <= n <= b[j].hi;
  }

  lemma AppendCovers(rs: seq<Range>, r: Range)
    ensures forall n :: Covers(rs + [r], n) <==> Covers(rs, n) || r.lo <= n <= r.hi
  {
    forall n ensures Covers(rs + [r], n) <==> Covers(rs, n) || r.lo <= n <= r.hi {
      CoversAppend(rs, [r], n);
      CoversSingle(r, n);
    }
  }

  /**
   * One iteration of the sweep, advancing in x: the list after it covers
   * the common symbols found in x[..i+1] or y[..j].
   */
  lemma SweepCovers(x: seq<Range>, y: seq<Range>, i: nat, j: nat, before: seq<Range>, after: seq<Range>)
    requires WellFormed(x) && WellFormed(y)
    requires i < |x| && j < |y| && x[i].hi <= y[j].hi
    requires forall n :: Covers(before, n) <==> Covers(x, n) && Covers(y, n) && (Covers(x[..i], n) || Covers(y[..j], n))
    requires forall n :: Covers(after, n) <==> Covers(before, n) || Max(x[i].lo, y[j].lo) <= n <= Min(x[i].hi, y[j].hi)
    ensures forall n :: Covers(after, n) <==> Covers(x, n) && Covers(y, n) && (Covers(x[..i + 1], n) || Covers(y[..j], n))
  {
    forall n ensures Covers(after, n) <==> Covers(x, n) && Covers(y, n) && (Covers(x[..i + 1], n) || Covers(y[..j], n)) {
      SweepStep(x, y, i, j, n);
    }
  }

  /** Every non-empty overlap is kept once the list covers every common symbol. */
  lemma AllOverlapsKept(a: seq<Range>, b: seq<Range>, inter: seq<Range>)
    requires WellFormed(a) && WellFormed(b)
    requires forall x :: x in inter ==> IsOverlap(a, b, x)
    requires forall n :: Covers(inter, n) <==> Covers(a, n) && Covers(b, n)
    ensures forall x :: IsOverlap(a, b, x) ==> x in inter
  {
    forall x | IsOverlap(a, b, x) ensures x in inter {
      var i, j :| 0 <= i < |a| && 0 <= j < |b| && x == Meet(a[i], b[j]) && x.lo <= x.hi;
      assert a[i].lo <= x.lo <= a[i].hi && b[j].lo <= x.lo <= b[j].hi;
      assert Covers(a, x.lo) && Covers(b, x.lo);
      OverlapKept(a, b, inter, i, j);
    }
  }

  /**
   * Sorted pairwise overlaps of two range lists (the loop of `intersection`):
   * the result holds exactly the non-empty overlaps, one piece per pair, so
   * adjacent overlaps stay separate pieces.
   */
  method Intersect(a: seq<Range>, b: seq<Range>) returns (inter: seq<Range>)
    requires WellFormed(a) && WellFormed(b)
    ensures WellFormed(inter)
    ensures forall n :: Covers(inter, n) <==> Covers(a, n) && Covers(b, n)
    ensures forall x :: x in inter <==> IsOverlap(a, b, x)
  {
    inter := [];
    var si, oi := 0, 0;
    while si < |a| && oi < |b|
      invariant Swept(a, b, si, oi, inter)
      decreases |a| - si + |b| - oi
    {
      var lo := Max(a[si].lo, b[oi].lo);
      var hi := Min(a[si].hi, b[oi].hi);
      ghost var before := inter;
      if lo <= hi {
        inter := inter + [Range(lo, hi)];
      }
      if a[si].hi < b[oi].hi {
        SweepAdvanceFirst(a, b, si, oi, before, inter);
        si := si + 1;
      } else {
        SweepAdvanceSecond(a, b, si, oi, before, inter);
        oi := oi + 1;
      }
    }
    assert a[..|a|] == a && b[..|b|] == b;
    FromOverlapsMembers(a, b, inter);
    AllOverlapsKept(a, b, inter);
  }

  /**
   * The invariant of the sweep at indices si and oi: the pieces so far are
   * sorted overlaps, all below both current ranges, covering the common
   * symbols found in a[..si] or b[..oi].
   */
  ghost predicate Swept(a: seq<Range>, b: seq<Range>, si: nat, oi: nat, inter: seq<Range>) {
    && WellFormed(a) && WellFormed(b) && si <= |a| && oi <= |b| && WellFormed(inter)
    && (si < |a| && oi < |b| ==> forall k :: 0 <= k < |inter| ==> inter[k].hi < Max(a[si].lo, b[oi].lo))
    && (forall n :: Covers(inter, n) <==> Covers(a, n) && Covers(b, n) && (Covers(a[..si], n) || Covers(b[..oi], n)))
    && FromOverlaps(a, b, inter)
  }

  /** The list after one iteration appends the overlap of a[si] and b[oi] when it is not empty. */
  ghost predicate SweptPiece(a: seq<Range>, b: seq<Range>, si: nat, oi: nat, before: seq<Range>, after: seq<Range>)
    requires si < |a| && oi < |b|
  {
    after == if Max(a[si].lo, b[oi].lo) <= Min(a[si].hi, b[oi].hi) then before + [Meet(a[si], b[oi])] else before
  }

  /** What appending the current overlap does to the sorted order, the origin and the coverage of the pieces. */
  lemma SweepPiece(a: seq<Range>, b: seq<Range>, si: nat, oi: nat, before: seq<Range>, after: seq<Range>)
    requires Swept(a, b, si, oi, before) && si < |a| && oi < |b|
    requires SweptPiece(a, b, si, oi, before, after)
    ensures WellFormed(after) && FromOverlaps(a, b, after)
    ensures forall k :: 0 <= k < |after| ==> after[k].hi < Max(a[si].lo, b[oi].lo) || after[k].hi <= Min(a[si].hi, b[oi].hi)
    ensures forall n :: Covers(after, n) <==> Covers(before, n) || Max(a[si].lo, b[oi].lo) <= n <= Min(a[si].hi, b[oi].hi)
  {
    var m := Meet(a[si], b[oi]);
    if m.lo <= m.hi {
      assert IsOverlap(a, b, m);
      FromOverlapsAppend(a, b, before, m);
      AppendCovers(before, m);
      forall x, y | 0 <= x < y < |after| ensures after[x].hi < after[y].lo {
        if y < |before| {
          assert after[x] == before[x] && after[y] == before[y];
        } else {
          assert after[x] == before[x] && after[y] == m;
        }
      }
    }
  }

  /** An iteration that moves past a[si], which ends first. */
  lemma SweepAdvanceFirst(a: seq<Range>, b: seq<Range>, si: nat, oi: nat, before: seq<Range>, after: seq<Range>)
    requires Swept(a, b, si, oi, before) && si < |a| && oi < |b| && a[si].hi < b[oi].hi
    requires SweptPiece(a, b, si, oi, before, after)
    ensures Swept(a, b, si + 1, oi, after)
  {
    SweepPiece(a, b, si, oi, before, after);
    SweepCovers(a, b, si, oi, before, after);
    if si + 1 < |a| {
      assert a[si].lo <= a[si].hi < a[si + 1].lo;
      forall k | 0 <= k < |after| ensures after[k].hi < Max(a[si + 1].lo, b[oi].lo) {
      }
    }
  }

  /** An iteration that moves past b[oi], which ends no later than a[si]. */
  lemma SweepAdvanceSecond(a: seq<Range>, b: seq<Range>, si: nat, oi: nat, before: seq<Range>, after: seq<Range>)
    requires Swept(a, b, si, oi, before) && si < |a| && oi < |b| && b[oi].hi <= a[si].hi
    requires SweptPiece(a, b, si, oi, before, after)
    ensures Swept(a, b, si, oi + 1, after)
  {
    SweepPiece(a, b, si, oi, before, after);
    SweepCovers(b, a, oi, si, before, after);
    if oi + 1 < |b| {
      assert b[oi].lo <= b[oi].hi < b[oi + 1].lo;
      forall k | 0 <= k < |after| ensures after[k].hi < Max(a[si].lo, b[oi + 1].lo) {
      }
    }
  }

  class RangeList {
    /** The ranges, in ascending order (`_list` in the source). */
    var items: seq<Range>

    ghost predicate Valid()
      reads this
    {
      WellFormed(items)
    }

    constructor ()
      ensures Valid() && items == []
    {
      items := [];
    }

    /** Binary search: the index of the range containing n, or where one would be inserted. */
    method Search(n: int) returns (r: nat)
      requires Valid()
      ensures r <= |items|
      ensures forall j :: 0 <= j < r ==> items[j].hi < n
      ensures forall j :: r <= j < |items| ==> n <= items[j].hi
      ensures Covers(items, n) <==> r < |items| && items[r].lo <= n
      ensures r == Position(items, n)
    {
      var lo, hi := 0, |items|;
      var mid := (hi + lo) / 2;
      while lo <= mid && mid < hi
        invariant 0 <= lo <= hi <= |items| && mid == (hi + lo) / 2
        invariant forall j :: 0 <= j < lo ==> items[j].hi < n
        invariant forall j :: hi <= j < |items| ==> n < items[j].lo
      {
        var a, b := items[mid].lo, items[mid].hi;
        if n < a {
          hi := mid;
        } else if b < n {
          lo := mid + 1;
        } else {
          AtPosition(items, n, mid);
          return mid;
        }
        mid := (hi + lo) / 2;
      }
      AtPosition(items, n, mid);
      return mid;
    }

    /** Whether the range at index holds n; an index past the end holds nothing. */
    function IndexContains(index: nat, n: int): (b: bool)
      reads this
      requires Valid()
      ensures b ==> Covers(items, n)
      ensures b <==> index < |items| && items[index].lo <= n <= items[index].hi
    {
      if index < |items| then
        var a, b := items[index].lo, items[index].hi;
        a <= n && n <= b
      else
        false
    }

    /** The index of the range holding n, or -1 when no range holds it. */
    method IndexOf(n: int) returns (r: int)
      requires Valid()
      ensures -1 <= r < |items|
      ensures r == -1 <==> !Covers(items, n)
      ensures r != -1 ==> items[r].lo <= n <= items[r].hi
    {
      var i := Search(n);
      r := if IndexContains(i, n) then i else -1;
    }

    /**
     * Adds [lo, hi], merging it with every range it overlaps. Ranges that
     * are merely adjacent to [lo, hi] stay separate.
     */
    method Add(lo: int, hi: int := lo)
      requires Valid() && lo <= hi
      modifies this
      ensures Valid()
      ensures Added(old(items), items, lo, hi)
    {
      ghost var rs := items;
      var loI := Search(lo);
      var hiI := loI;
      if lo != hi {
        hiI := Search(hi);
      }
      PositionMonotone(rs, lo, hi);
      if loI == hiI {
        var i := loI;
        if i >= |items| || hi < items[i].lo || lo > items[i].hi {
          // insert no-overlap
          InsertInGap(rs, i, lo, hi);
          items := items[..i] + [Range(lo, hi)] + items[i..];
        } else {
          // extend down / contained
          MergeBlockAll(rs, i, i, lo, hi);
          ExtendIsMerge(rs, i, lo, hi);
          items := items[i := Range(Min(lo, items[i].lo), Max(hi, items[i].hi))];
        }
      } else if loI + 1 == hiI && hiI < |items| && items[hiI].lo > hi {
        // extend up
        MergeBlockAll(rs, loI, loI, lo, hi);
        ExtendIsMerge(rs, loI, lo, hi);
        items := items[loI := Range(Min(lo, items[loI].lo), hi)];
      } else {
        // merge
        var h := hiI;
        if !(h < |items| && items[h].lo <= hi) {
          h := h - 1;
        }
        var end := items[h].hi;
        MergeBlockAll(rs, loI, h, lo, hi);
        MergeIsMerge(rs, loI, h, lo, hi);
        items := items[..loI + 1] + items[h + 1..];
        items := items[loI := Range(Min(items[loI].lo, lo), Max(end, hi))];
      }
    }

    /**
     * Removes [lo, hi], splitting the range it falls in or trimming the
     * first and last ranges it overlaps and deleting those in between.
     */
    method Remove(lo: int, hi: int := lo)
      requires Valid() && lo <= hi
      modifies this
      ensures Valid()
      ensures Removed(old(items), items, lo, hi)
    {
      ghost var rs := items;
      var loI := Search(lo);
      var hiI := loI;
      if lo != hi {
        hiI := Search(hi);
      }
      PositionMonotone(rs, lo, hi);
      if loI == hiI {
        var i := loI;
        if i < |items| && hi >= items[i].lo && lo <= items[i].hi {
          // split the one range [lo, hi] falls in; keep the non-empty pieces
          var a, b := items[i].lo, items[i].hi;
          var below, above := Range(a, Min(b, lo - 1)), Range(Max(a, hi + 1), b);
          CutBlockAll(rs, i, i, lo, hi);
          SplitIsCut(rs, i, lo, hi);
          items := items[..i] + NonEmpty(below) + NonEmpty(above) + items[i + 1..];
        } else {
          RemovedNothing(rs, lo, hi);
        }
      } else if loI + 1 == hiI && hiI < |items| && items[hiI].lo > hi {
        // trim the range lo falls in, dropping it when nothing is left
        CutBlockAll(rs, loI, loI, lo, hi);
        TrimIsCut(rs, loI, lo, hi);
        if items[loI].lo <= lo - 1 {
          items := items[loI := Range(items[loI].lo, lo - 1)];
        } else {
          items := items[..loI] + items[loI + 1..];
        }
      } else {
        // trim the first and last ranges touched, delete those in between
        var h := hiI;
        if h >= |items| {
          h := h - 1;
        }
        CutBlockAll(rs, loI, h, lo, hi);
        TrimBothIsCut(rs, loI, h, lo, hi);
        var start, end := items[h].lo, items[h].hi;
        var first := Range(items[loI].lo, lo - 1);
        var last := Range(if hi >= start then hi + 1 else start, end);
        items := items[..loI] + NonEmpty(first) + NonEmpty(last) + items[h + 1..];
      }
    }

    /** A new list covering exactly the symbols both lists cover. */
    method Intersection(other: RangeList) returns (res: RangeList)
      requires Valid() && other.Valid()
      ensures fresh(res) && res.Valid()
      ensures forall n :: Covers(res.items, n) <==> Covers(items, n) && Covers(other.items, n)
      ensures forall x :: x in res.items <==> IsOverlap(items, other.items, x)
    {
      var inter := Intersect(items, other.items);
      res := new RangeList();
      res.items := inter;
    }
  }
}
