/**
 * The one-symbol leaves of benchmark/reex_ext.py (`uatom`, `chars`,
 * `dotany`): building a character class, membership, the Brzozowski
 * derivative by one symbol, the next accepted symbol and the intersection
 * of two leaves.
 */
module Leaves {
  import opened Wrappers
  import opened RangeLists
  import opened RegExps

  /** The first printable code point (the space), where `dotany` and negated classes start. */
  const FirstPrintable := 32

  /**
   * Every character class in e has a well-formed range list, as `chars`
   * always does, and a class that is not negated lists at least one symbol.
   */
  predicate WellFormedLeaves(e: RegExp) {
    match e
    case Chars(rs, neg) => WellFormed(rs) && (neg || rs != [])
    case Concat(a, b) => WellFormedLeaves(a) && WellFormedLeaves(b)
    case Disj(a, b) => WellFormedLeaves(a) && WellFormedLeaves(b)
    case Star(a) => WellFormedLeaves(a)
    case Opt(a) => WellFormedLeaves(a)
    case _ => true
  }

  /**
   * The `chars` constructor: every given range is added, in order, to a
   * fresh range list.
   */
  method MakeChars(symbols: seq<Range>, neg: bool) returns (e: RegExp)
    requires forall i :: 0 <= i < |symbols| ==> symbols[i].lo <= symbols[i].hi
    ensures e.Chars? && e.neg == neg && WellFormed(e.ranges)
    ensures forall n :: Covers(e.ranges, n) <==> Covers(symbols, n)
  {
    var ranges := new RangeList();
    var i := 0;
    while i < |symbols|
      invariant 0 <= i <= |symbols|
      invariant ranges.Valid()
      invariant forall n :: Covers(ranges.items, n) <==> Covers(symbols[..i], n)
    {
      ghost var before := ranges.items;
      ranges.Add(symbols[i].lo, symbols[i].hi);
      forall n ensures Covers(ranges.items, n) <==> Covers(symbols[..i + 1], n) {
        assert symbols[..i + 1] == symbols[..i] + [symbols[i]];
        CoversAppend(symbols[..i], [symbols[i]], n);
        CoversSingle(symbols[i], n);
      }
      i := i + 1;
    }
    assert symbols[..i] == symbols;
    e := Chars(ranges.items, neg);
  }

  /**
   * `__contains__`: whether the leaf lists symbol c. A class answers from
   * its ranges alone, whatever its negation flag.
   */
  function Contains(e: RegExp, c: int): (b: bool)
    requires IsSymbolLeaf(e)
    ensures e.Chars? ==> (b <==> Covers(e.ranges, c))
    ensures (b != (e.Chars? && e.neg)) <==> Accepts(e, c)
  {
    match e
    case Atom(s) => c == s
    case Chars(rs, _) => Covers(rs, c)
    case DotAny => true
  }

  /**
   * `derivative`: epsilon when the leaf accepts c, the empty set otherwise;
   * epsilon itself and anchors have the empty set as every derivative.
   */
  function Derivative(e: RegExp, c: int): (d: RegExp)
    requires IsSymbolLeaf(e) || EpsilonP(e)
    ensures d == Epsilon || d == EmptySet
    ensures forall w :: Matches(d, w) <==> Matches(e, [c] + w)
  {
    match e
    case Epsilon => EmptySet
    case Anchor(_) => EmptySet
    case Atom(_) => if Contains(e, c) then Epsilon else EmptySet
    case Chars(_, neg) =>
      if neg then (if Contains(e, c) then EmptySet else Epsilon)
      else (if Contains(e, c) then Epsilon else EmptySet)
    case DotAny => Epsilon
  }

  /** A leaf's derivative is epsilon exactly for the symbols it accepts. */
  lemma DerivativeAccepts(e: RegExp, c: int)
    requires IsSymbolLeaf(e)
    ensures Derivative(e, c) == Epsilon <==> Accepts(e, c)
  {
    assert Matches(Derivative(e, c), []) <==> Matches(e, [c] + []);
    assert [c] + [] == [c];
  }

  /**
   * Where `next` looks: above the current symbol, or, with no current
   * symbol, anywhere for an atom or a plain class and from the first
   * printable symbol on for the wildcard and a negated class.
   */
  predicate Beyond(e: RegExp, cur: Option<int>, c: int) {
    match cur
    case Some(x) => x < c
    case None => (e.DotAny? || (e.Chars? && e.neg)) ==> FirstPrintable <= c
  }

  /** r is the least symbol the leaf accepts beyond cur, or None when there is none. */
  ghost predicate IsNext(e: RegExp, cur: Option<int>, r: Option<int>)
    requires IsSymbolLeaf(e)
  {
    match r
    case Some(c) =>
      && Beyond(e, cur, c) && Accepts(e, c)
      && forall d :: Beyond(e, cur, d) && d < c ==> !Accepts(e, d)
    case None => forall d :: Beyond(e, cur, d) ==> !Accepts(e, d)
  }

  /**
   * The search loop of `next` on a negated class: starting at `start`, skip
   * every range that holds the candidate until one does not.
   */
  method FirstUncovered(rs: seq<Range>, start: int) returns (r: int)
    requires WellFormed(rs)
    ensures start <= r && !Covers(rs, r)
    ensures forall c :: start <= c < r ==> Covers(rs, c)
  {
    r := start;
    var i := Position(rs, r);
    SkipStart(rs, start);
    while i < |rs| && rs[i].lo <= r <= rs[i].hi
      invariant Skipped(rs, start, r, i)
      decreases |rs| - i
    {
      SkipRange(rs, start, r, i);
      r := rs[i].hi + 1;
      i := i + 1;
    }
    AtPosition(rs, r, i);
  }

  /**
   * The state of the search loop: every symbol from start below the
   * candidate r is covered, and i splits the ranges below r from the rest.
   */
  ghost predicate Skipped(rs: seq<Range>, start: int, r: int, i: nat) {
    && WellFormed(rs) && start <= r && i <= |rs|
    && (forall j :: 0 <= j < i ==> rs[j].hi < r)
    && (forall j :: i <= j < |rs| ==> r <= rs[j].hi)
    && (forall c :: start <= c < r ==> Covers(rs, c))
  }

  /** The search starts at the position of its first candidate. */
  lemma SkipStart(rs: seq<Range>, start: int)
    requires WellFormed(rs)
    ensures Skipped(rs, start, start, Position(rs, start))
  {
    var p := Position(rs, start);
    forall j | p <= j < |rs| ensures start <= rs[j].hi {
      assert start <= rs[p].hi;
    }
  }

  /** One pass of the search loop: the candidate moves past the range that holds it. */
  lemma SkipRange(rs: seq<Range>, start: int, r: int, i: nat)
    requires Skipped(rs, start, r, i) && i < |rs| && rs[i].lo <= r
    ensures Skipped(rs, start, rs[i].hi + 1, i + 1)
  {
    forall c | r <= c <= rs[i].hi ensures Covers(rs, c) {
      assert rs[i].lo <= c <= rs[i].hi;
    }
    forall j | i + 1 <= j < |rs| ensures rs[i].hi + 1 <= rs[j].hi {
      assert rs[i].hi < rs[j].lo;
    }
  }

  /**
   * `next`: the next symbol the leaf accepts after cur (after nothing when
   * cur is None). On a plain class whose ranges do not hold cur, the least
   * covered symbol above cur is returned; see `NextInClassAsWritten`.
   */
  method Next(e: RegExp, cur: Option<int>) returns (r: Option<int>)
    requires IsSymbolLeaf(e) && WellFormedLeaves(e)
    ensures IsNext(e, cur, r)
    ensures cur.None? ==> r.Some?
  {
    match e
    case Atom(v) =>
      if cur.None? || cur.value < v {
        r := Some(v);
      } else {
        r := None;
      }
    case Chars(rs, neg) =>
      if !neg {
        r := NextInClass(rs, cur);
      } else {
        var start := if cur.None? then FirstPrintable else cur.value + 1;
        var c := FirstUncovered(rs, start);
        r := Some(c);
      }
    case DotAny =>
      r := if cur.None? then Some(FirstPrintable) else Some(cur.value + 1);
  }

  /** `next` on a plain class, corrected for a current symbol the class does not cover. */
  function NextInClass(rs: seq<Range>, cur: Option<int>): (r: Option<int>)
    requires WellFormed(rs)
    ensures IsNext(Chars(rs, false), cur, r)
  {
    if cur.None? then
      NextInClassFirst(rs)
    else
      var x := cur.value;
      var i := Position(rs, x);
      PositionCovers(rs, x);
      if i < |rs| && rs[i].lo <= x then
        NextInClassCovered(rs, x, i)
      else if i < |rs| then
        assert forall d :: x < d < rs[i].lo ==> !Covers(rs, d) by {
          forall d | x < d < rs[i].lo ensures !Covers(rs, d) {
            PositionMonotone(rs, x, d);
            PositionCovers(rs, d);
          }
        }
        Some(rs[i].lo)
      else
        assert forall d :: x < d ==> !Covers(rs, d) by {
          forall d | x < d ensures !Covers(rs, d) {
            PositionMonotone(rs, x, d);
            PositionCovers(rs, d);
          }
        }
        None
  }

  /** `next(None)` on a plain class: the start of its first range. */
  function NextInClassFirst(rs: seq<Range>): (r: Option<int>)
    requires WellFormed(rs)
    ensures IsNext(Chars(rs, false), None, r)
  {
    if |rs| >= 1 then
      assert forall d :: d < rs[0].lo ==> !Covers(rs, d) by {
        forall d | d < rs[0].lo ensures !Covers(rs, d) {
          forall j | 0 <= j < |rs| ensures !(rs[j].lo <= d <= rs[j].hi) {
            assert j == 0 || rs[0].hi < rs[j].lo;
          }
        }
      }
      Some(rs[0].lo)
    else
      None
  }

  /** `next` on a plain class whose range i holds x: one up, else the next range's start. */
  function NextInClassCovered(rs: seq<Range>, x: int, i: nat): (r: Option<int>)
    requires WellFormed(rs) && i < |rs| && rs[i].lo <= x <= rs[i].hi
    ensures IsNext(Chars(rs, false), Some(x), r)
  {
    var nxt := x + 1;
    if nxt <= rs[i].hi then
      assert rs[i].lo <= nxt <= rs[i].hi;
      Some(nxt)
    else
      assert forall d :: x < d && (i + 1 == |rs| || d < rs[i + 1].lo) ==> !Covers(rs, d) by {
        forall d | x < d && (i + 1 == |rs| || d < rs[i + 1].lo) ensures !Covers(rs, d) {
          forall j | 0 <= j < |rs| ensures !(rs[j].lo <= d <= rs[j].hi) {
            if j < i {
              assert rs[j].hi < rs[i].lo;
            } else if i + 1 < j {
              assert rs[i + 1].lo < rs[j].lo;
            }
          }
        }
      }
      if i + 1 < |rs| then
        assert Covers(rs, rs[i + 1].lo) by {
          assert rs[i + 1].lo <= rs[i + 1].hi;
        }
        Some(rs[i + 1].lo)
      else
        None
  }

  /**
   * `next` on a plain class exactly as written: a current symbol the
   * ranges do not hold sends it back to the first range, whatever its
   * position.
   */
  function NextInClassAsWritten(rs: seq<Range>, cur: Option<int>): (r: Option<int>)
    requires WellFormed(rs)
    ensures cur.None? || !Covers(rs, cur.value) ==> r == (if |rs| >= 1 then Some(rs[0].lo) else None)
  {
    if cur.None? || !Covers(rs, cur.value) then
      if |rs| >= 1 then Some(rs[0].lo) else None
    else
      var x := cur.value;
      var i := Position(rs, x);
      PositionCovers(rs, x);
      NextInClassCovered(rs, x, i)
  }

  /** `[ac]` asked for the symbol after `b` answers `a`, which lies below `b`; `c` was meant. */
  lemma NextInClassGoesBackwards()
    ensures var rs := [Range(97, 97), Range(99, 99)];
      && NextInClassAsWritten(rs, Some(98)) == Some(97)
      && NextInClass(rs, Some(98)) == Some(99)
  {
    var rs := [Range(97, 97), Range(99, 99)];
    assert !Covers(rs, 98);
    assert Position(rs, 98) == 1 by {
      assert rs[1..] == [Range(99, 99)];
    }
  }

  /** Some symbol lies outside any finite list of ranges. */
  lemma {:induction false} Uncovered(rs: seq<Range>) returns (c: int)
    ensures !Covers(rs, c)
    ensures forall i :: 0 <= i < |rs| ==> rs[i].hi < c
  {
    if rs == [] {
      c := 0;
    } else {
      var d := Uncovered(rs[1..]);
      c := Max(d, rs[0].hi + 1);
      forall i | 0 <= i < |rs| ensures rs[i].hi < c {
        if i > 0 {
          assert rs[i] == rs[1..][i - 1];
        }
      }
    }
  }

  /** A symbol both leaves accept. */
  ghost predicate Overlap(e: RegExp, other: RegExp)
    requires IsSymbolLeaf(e)
  {
    IsSymbolLeaf(other) && exists c :: Accepts(e, c) && Accepts(other, c)
  }

  /**
   * `intersect` on two leaves (the second may also be epsilon or an anchor):
   * a leaf accepting exactly the symbols both accept, or None when no
   * symbol is accepted by both. Corrected for two negated classes (their
   * excluded ranges are united) and for the wildcard against an anchor;
   * see `LeavesAsWritten`.
   */
  method Intersect(e: RegExp, other: RegExp) returns (r: Option<RegExp>)
    requires IsSymbolLeaf(e) && WellFormedLeaves(e)
    requires (IsSymbolLeaf(other) || EpsilonP(other)) && WellFormedLeaves(other)
    ensures r.None? <==> !Overlap(e, other)
    ensures r.Some? ==> IsSymbolLeaf(r.value) && WellFormedLeaves(r.value)
    ensures r.Some? ==> IsSymbolLeaf(other) && forall c :: Accepts(r.value, c) <==> Accepts(e, c) && Accepts(other, c)
  {
    match e
    case Atom(v) =>
      if Derivative(other, v) == Epsilon {
        DerivativeAccepts(other, v);
        r := Some(e);
      } else {
        if EpsilonP(other) {
        } else {
          DerivativeAccepts(other, v);
        }
        r := None;
      }
    case DotAny =>
      if EpsilonP(other) {
        r := None;
      } else {
        r := Some(other);
        var c := OverlapWitness(other);
      }
    case Chars(rs, neg) =>
      r := IntersectClass(rs, neg, other);
  }

  /** A leaf accepts some symbol when its class is not empty. */
  lemma OverlapWitness(e: RegExp) returns (c: int)
    requires IsSymbolLeaf(e) && WellFormedLeaves(e)
    ensures Accepts(e, c)
  {
    match e
    case Atom(v) => c := v;
    case DotAny => c := 0;
    case Chars(rs, neg) =>
      if neg {
        c := Uncovered(rs);
      } else {
        c := rs[0].lo;
        assert rs[0].lo <= rs[0].hi;
      }
  }

  /** `chars.intersect`. */
  method IntersectClass(rs: seq<Range>, neg: bool, other: RegExp) returns (r: Option<RegExp>)
    requires WellFormedLeaves(Chars(rs, neg))
    requires (IsSymbolLeaf(other) || EpsilonP(other)) && WellFormedLeaves(other)
    ensures r.None? <==> !Overlap(Chars(rs, neg), other)
    ensures r.Some? ==> IsSymbolLeaf(r.value) && WellFormedLeaves(r.value)
    ensures r.Some? ==> IsSymbolLeaf(other) && forall c :: Accepts(r.value, c) <==> Accepts(Chars(rs, neg), c) && Accepts(other, c)
  {
    var e := Chars(rs, neg);
    match other
    case DotAny =>
      var c := OverlapWitness(e);
      r := Some(e);
    case Atom(v) =>
      if Derivative(e, v) == Epsilon {
        DerivativeAccepts(e, v);
        r := Some(other);
      } else {
        DerivativeAccepts(e, v);
        r := None;
      }
    case Chars(rs2, neg2) =>
      var ranges: seq<Range>;
      if neg == neg2 {
        if !neg {
          ranges := RangeLists.Intersect(rs, rs2);
        } else {
          ranges := Union(rs, rs2);
        }
      } else {
        if neg {
          ranges := Difference(rs2, rs);
        } else {
          ranges := Difference(rs, rs2);
        }
      }
      var sameNeg := neg && neg2;
      assert forall c :: Accepts(Chars(ranges, sameNeg), c) <==> Accepts(e, c) && Accepts(other, c);
      if !sameNeg && |ranges| == 0 {
        r := None;
        forall c ensures !(Accepts(e, c) && Accepts(other, c)) {
          assert !Covers(ranges, c);
        }
      } else {
        r := Some(Chars(ranges, sameNeg));
        var c := OverlapWitness(r.value);
        assert Accepts(e, c) && Accepts(other, c);
      }
    case Epsilon =>
      r := None;
    case Anchor(_) =>
      r := None;
  }

  /** The symbols of a minus those of b: a copy of a with every range of b removed. */
  method Difference(a: seq<Range>, b: seq<Range>) returns (d: seq<Range>)
    requires WellFormed(a) && WellFormed(b)
    ensures WellFormed(d)
    ensures forall n :: Covers(d, n) <==> Covers(a, n) && !Covers(b, n)
  {
    var pos := new RangeList();
    pos.items := a;
    var i := 0;
    while i < |b|
      invariant 0 <= i <= |b|
      invariant pos.Valid()
      invariant forall n :: Covers(pos.items, n) <==> Covers(a, n) && !Covers(b[..i], n)
    {
      assert b[i].lo <= b[i].hi;
      pos.Remove(b[i].lo, b[i].hi);
      forall n ensures Covers(pos.items, n) <==> Covers(a, n) && !Covers(b[..i + 1], n) {
        assert b[..i + 1] == b[..i] + [b[i]];
        CoversAppend(b[..i], [b[i]], n);
        CoversSingle(b[i], n);
      }
      i := i + 1;
    }
    assert b[..i] == b;
    d := pos.items;
  }

  /** The symbols of a or of b: a copy of a with every range of b added. */
  method Union(a: seq<Range>, b: seq<Range>) returns (u: seq<Range>)
    requires WellFormed(a) && WellFormed(b)
    ensures WellFormed(u)
    ensures forall n :: Covers(u, n) <==> Covers(a, n) || Covers(b, n)
  {
    var all := new RangeList();
    all.items := a;
    var i := 0;
    while i < |b|
      invariant 0 <= i <= |b|
      invariant all.Valid()
      invariant forall n :: Covers(all.items, n) <==> Covers(a, n) || Covers(b[..i], n)
    {
      assert b[i].lo <= b[i].hi;
      all.Add(b[i].lo, b[i].hi);
      forall n ensures Covers(all.items, n) <==> Covers(a, n) || Covers(b[..i + 1], n) {
        assert b[..i + 1] == b[..i] + [b[i]];
        CoversAppend(b[..i], [b[i]], n);
        CoversSingle(b[i], n);
      }
      i := i + 1;
    }
    assert b[..i] == b;
    u := all.items;
  }
}
