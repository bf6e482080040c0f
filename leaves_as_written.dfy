/**
 * Two branches of leaf intersection in benchmark/reex_ext.py exactly as
 * they are written, each with an input on which the result is not the
 * intersection. `Leaves.Intersect` is the corrected operation.
 */
module LeavesAsWritten {
  import opened Wrappers
  import opened RangeLists
  import opened RegExps

  /** A well-formed list that is not empty covers the start of its first range. */
  lemma FirstStartCovered(rs: seq<Range>)
    requires WellFormed(rs) && rs != []
    ensures Covers(rs, rs[0].lo)
  {
    assert rs[0].lo <= rs[0].hi;
  }

  /**
   * `chars.intersect` on two negated classes as written: the excluded
   * ranges are intersected, and no common excluded symbol means no result.
   */
  method IntersectNegatedAsWritten(rs: seq<Range>, rs2: seq<Range>) returns (r: Option<RegExp>)
    requires WellFormed(rs) && WellFormed(rs2)
    ensures r.None? <==> forall n :: !(Covers(rs, n) && Covers(rs2, n))
    ensures r.Some? ==> r.value.Chars? && r.value.neg
    ensures r.Some? ==> forall n :: Accepts(r.value, n) <==> !(Covers(rs, n) && Covers(rs2, n))
  {
    var inter := Intersect(rs, rs2);
    if |inter| == 0 {
      r := None;
      forall n ensures !(Covers(rs, n) && Covers(rs2, n)) {
        assert !Covers(inter, n);
      }
    } else {
      r := Some(Chars(inter, true));
      FirstStartCovered(inter);
    }
  }

  /**
   * `[^a]` and `[^b]` both accept `c`, yet their intersection as written is
   * None: it looked for a symbol both exclude.
   */
  method NegatedClassesLoseSymbols() returns (r: Option<RegExp>)
    ensures r.None?
    ensures Accepts(Chars([Range(97, 97)], true), 99) && Accepts(Chars([Range(98, 98)], true), 99)
  {
    var a, b := [Range(97, 97)], [Range(98, 98)];
    forall n ensures !(Covers(a, n) && Covers(b, n)) {
      CoversSingle(a[0], n);
      CoversSingle(b[0], n);
    }
    r := IntersectNegatedAsWritten(a, b);
    CoversSingle(a[0], 99);
    CoversSingle(b[0], 99);
  }

  /**
   * `dotany.intersect` as written: only an object of exactly the epsilon
   * class is refused, so an anchor (an epsilon subclass) comes back.
   */
  function DotAnyIntersectAsWritten(other: RegExp): (r: Option<RegExp>)
    requires IsSymbolLeaf(other) || EpsilonP(other)
    ensures other.Anchor? ==> r == Some(other)
    ensures IsSymbolLeaf(other) ==> r == Some(other)
  {
    if other == Epsilon then None else Some(other)
  }

  /** The wildcard meets `^` in a leaf matching the empty word, which the wildcard never matches. */
  lemma WildcardMeetsAnchor()
    ensures DotAnyIntersectAsWritten(Anchor(StartAnchor)) == Some(Anchor(StartAnchor))
    ensures Matches(Anchor(StartAnchor), []) && !Matches(DotAny, [])
  {
  }
}
