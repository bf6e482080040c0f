/**
 * The partial-match rewrite of benchmark/reex_ext.py (`_pmBoth`, `_pmStart`,
 * `_pmEnd`, `_pmNeither` on every node class, and `partialMatch`).
 *
 * The four methods become one function with a `Mode` argument. A mode says
 * on which sides of the sub-expression the text may run on past the match:
 * in `Both` and `Start` anything may come before it, in `Both` and `End`
 * anything may come after it. The rewrite pads leaves with `Any*` on the
 * free sides and pushes the mode down through the tree.
 */
module PartialMatching {
  import opened Wrappers
  import opened RegExps

  datatype Mode = Both | Start | End | Neither

  /** Text may precede the match. */
  predicate LeftFree(m: Mode) { m == Both || m == Start }

  /** Text may follow the match. */
  predicate RightFree(m: Mode) { m == Both || m == End }

  datatype PmError =
    | AnchorError(kind: AnchorKind, message: string)
    | NotImplemented     // the empty set has no rewrite
    | AlreadyRewritten   // `partialMatch` called again without `force`
    | TypeError          // what the source raises on a second keyword call

  /** `ustar(dotany())`. */
  function AnyStar(): RegExp { Star(DotAny) }

  /** x padded with `Any*` on the free sides of m, in the source's shapes. */
  function Pad(x: RegExp, m: Mode): RegExp {
    match m
    case Both => Concat(Concat(AnyStar(), x), AnyStar())
    case Start => Concat(AnyStar(), x)
    case End => Concat(x, AnyStar())
    case Neither => x
  }

  /** The modes a concatenation hands to its two children. */
  function ConcatModes(m: Mode): (Mode, Mode) {
    match m
    case Both => (Start, End)
    case Start => (Start, Neither)
    case End => (Neither, End)
    case Neither => (Neither, Neither)
  }

  /** An anchor's rewrite: kept when its side of the match is pinned, an error when it cannot sit at the text boundary. */
  function AnchorRewrite(k: AnchorKind, m: Mode): Result<RegExp, PmError> {
    match m
    case Both =>
      if k == StartAnchor then Ok(Concat(Anchor(StartAnchor), AnyStar()))
      else Ok(Concat(AnyStar(), Anchor(EndAnchor)))
    case Start =>
      if k == EndAnchor then Err(AnchorError(k, "Expected start of expression but found end"))
      else Ok(Anchor(k))
    case End =>
      if k == StartAnchor then Err(AnchorError(k, "Expected end of expression but found start"))
      else Ok(Anchor(k))
    case Neither => Err(AnchorError(k, "Neither anchor type allowed here"))
  }

  /**
   * The rewrite of e in mode m. Option and a star holding an anchor pair
   * the argument's rewrite with the rewrite of epsilon in the same mode;
   * the source pairs it with a bare epsilon instead (see
   * PartialMatchingAsWritten).
   */
  function PartialRewrite(e: RegExp, m: Mode): (r: Result<RegExp, PmError>)
    ensures r.Ok? ==> !HasEmptySet(e)
    ensures HasAnchor(e) && m == Neither ==> r.Err?
    ensures !HasAnchor(e) && !HasEmptySet(e) ==> r.Ok?
  {
    match e
    case EmptySet => Err(NotImplemented)
    case Epsilon => Ok(Pad(e, m))
    case Atom(_) => Ok(Pad(e, m))
    case Chars(_, _) => Ok(Pad(e, m))
    case DotAny => Ok(Pad(e, m))
    case Anchor(k) => AnchorRewrite(k, m)
    case Concat(a, b) =>
      var ra := PartialRewrite(a, ConcatModes(m).0);
      if ra.Err? then ra
      else
        var rb := PartialRewrite(b, ConcatModes(m).1);
        if rb.Err? then rb else Ok(Concat(ra.value, rb.value))
    case Disj(a, b) =>
      var ra := PartialRewrite(a, m);
      if ra.Err? then ra
      else
        var rb := PartialRewrite(b, m);
        if rb.Err? then rb else Ok(Disj(ra.value, rb.value))
    case Star(a) =>
      if m == Neither then
        var ra := PartialRewrite(a, Neither);
        if ra.Err? then ra else Ok(Star(ra.value))
      else if HasAnchor(e) then
        var ra := PartialRewrite(a, m);
        if ra.Err? then ra else Ok(Disj(ra.value, Pad(Epsilon, m)))
      else
        var ra := PartialRewrite(a, Neither);
        if ra.Err? then ra else Ok(Pad(Star(ra.value), m))
    case Opt(a) =>
      var ra := PartialRewrite(a, m);
      if ra.Err? then ra else Ok(Disj(ra.value, Pad(Epsilon, m)))
  }

  /** w has a factor in the language of x that reaches the text's ends on the sides m pins. */
  ghost predicate PartiallyMatches(x: RegExp, m: Mode, w: Word) {
    exists i, j :: 0 <= i <= j <= |w| && (i == 0 || LeftFree(m)) && (j == |w| || RightFree(m)) && Matches(x, w[i..j])
  }

  /** The factor w[i..j] is a partial match of x in mode m. */
  lemma PartialWitness(x: RegExp, m: Mode, w: Word, i: nat, j: nat)
    requires i <= j <= |w| && (i == 0 || LeftFree(m)) && (j == |w| || RightFree(m))
    requires Matches(x, w[i..j])
    ensures PartiallyMatches(x, m, w)
  {
  }

  /** The bounds of a factor that makes w a partial match of x. */
  lemma PartialChoose(x: RegExp, m: Mode, w: Word) returns (i: nat, j: nat)
    requires PartiallyMatches(x, m, w)
    ensures i <= j <= |w| && (i == 0 || LeftFree(m)) && (j == |w| || RightFree(m))
    ensures Matches(x, w[i..j])
  {
    i, j :| 0 <= i <= j <= |w| && (i == 0 || LeftFree(m)) && (j == |w| || RightFree(m)) && Matches(x, w[i..j]);
  }

  /** With both sides pinned a partial match is a match. */
  lemma NeitherIsMatch(x: RegExp, w: Word)
    ensures PartiallyMatches(x, Neither, w) <==> Matches(x, w)
  {
    assert w[0..|w|] == w;
  }

  lemma PadStartIsPartialMatch(x: RegExp, w: Word)
    ensures Matches(Pad(x, Start), w) <==> PartiallyMatches(x, Start, w)
  {
    if Matches(Pad(x, Start), w) {
      var k :| 0 <= k <= |w| && Matches(AnyStar(), w[..k]) && Matches(x, w[k..]);
      assert w[k..|w|] == w[k..];
    }
    if PartiallyMatches(x, Start, w) {
      var i, j :| 0 <= i <= j <= |w| && j == |w| && Matches(x, w[i..j]);
      AnyStarMatchesAll(w[..i]);
      assert w[i..] == w[i..j];
    }
  }

  lemma PadEndIsPartialMatch(x: RegExp, w: Word)
    ensures Matches(Pad(x, End), w) <==> PartiallyMatches(x, End, w)
  {
    if Matches(Pad(x, End), w) {
      var k :| 0 <= k <= |w| && Matches(x, w[..k]) && Matches(AnyStar(), w[k..]);
      assert w[0..k] == w[..k];
    }
    if PartiallyMatches(x, End, w) {
      var i, j :| 0 <= i <= j <= |w| && i == 0 && Matches(x, w[i..j]);
      AnyStarMatchesAll(w[j..]);
      assert w[..j] == w[i..j];
    }
  }

  lemma PadBothSound(x: RegExp, w: Word)
    requires Matches(Pad(x, Both), w)
    ensures PartiallyMatches(x, Both, w)
  {
    var j :| 0 <= j <= |w| && Matches(Concat(AnyStar(), x), w[..j]) && Matches(AnyStar(), w[j..]);
    var i :| 0 <= i <= j && Matches(AnyStar(), w[..j][..i]) && Matches(x, w[..j][i..]);
    assert w[..j][i..] == w[i..j];
  }

  lemma PadBothComplete(x: RegExp, w: Word)
    requires PartiallyMatches(x, Both, w)
    ensures Matches(Pad(x, Both), w)
  {
    var i, j :| 0 <= i <= j <= |w| && Matches(x, w[i..j]);
    AnyStarMatchesAll(w[..i]);
    AnyStarMatchesAll(w[j..]);
    var u := w[..j];
    assert u[..i] == w[..i];
    assert u[i..] == w[i..j];
    assert Matches(Concat(AnyStar(), x), u);
  }

  /** Padding x with `Any*` on the free sides accepts exactly the partial matches of x. */
  lemma PadIsPartialMatch(x: RegExp, m: Mode, w: Word)
    ensures Matches(Pad(x, m), w) <==> PartiallyMatches(x, m, w)
  {
    match m
    case Neither => NeitherIsMatch(x, w);
    case Start => PadStartIsPartialMatch(x, w);
    case End => PadEndIsPartialMatch(x, w);
    case Both =>
      if Matches(Pad(x, m), w) { PadBothSound(x, w); }
      if PartiallyMatches(x, m, w) { PadBothComplete(x, w); }
  }

  lemma ConcatModesFree(m: Mode)
    ensures LeftFree(ConcatModes(m).0) == LeftFree(m) && !RightFree(ConcatModes(m).0)
    ensures !LeftFree(ConcatModes(m).1) && RightFree(ConcatModes(m).1) == RightFree(m)
  {
  }

  /** The factor w[i..j], cut at k, is the tail of w[..k] followed by the head of w[k..]. */
  lemma SliceAround(w: Word, i: nat, k: nat, j: nat)
    requires i <= k <= j <= |w|
    ensures w[i..j][..k - i] == w[..k][i..k]
    ensures w[i..j][k - i..] == w[k..][0..j - k]
  {
  }

  /** Partial matches of the two halves, split at k, form a partial match of the concatenation. */
  lemma ConcatPartialSound(a: RegExp, b: RegExp, m: Mode, w: Word, k: nat)
    requires k <= |w|
    requires PartiallyMatches(a, ConcatModes(m).0, w[..k])
    requires PartiallyMatches(b, ConcatModes(m).1, w[k..])
    ensures PartiallyMatches(Concat(a, b), m, w)
  {
    ConcatModesFree(m);
    var i1, j1 := PartialChoose(a, ConcatModes(m).0, w[..k]);
    var i2, j2 := PartialChoose(b, ConcatModes(m).1, w[k..]);
    ConcatFactorJoin(a, b, m, w, i1, k, k + j2);
  }

  /** Matching factors w[i..k] and w[k..j] of the halves join into one of the concatenation. */
  lemma ConcatFactorJoin(a: RegExp, b: RegExp, m: Mode, w: Word, i: nat, k: nat, j: nat)
    requires i <= k <= j <= |w| && (i == 0 || LeftFree(m)) && (j == |w| || RightFree(m))
    requires Matches(a, w[..k][i..k]) && Matches(b, w[k..][0..j - k])
    ensures PartiallyMatches(Concat(a, b), m, w)
  {
    SliceAround(w, i, k, j);
    ConcatIntro(a, b, w[i..j], k - i);
    PartialWitness(Concat(a, b), m, w, i, j);
  }

  /** A partial match of the concatenation splits into partial matches of the halves. */
  lemma ConcatPartialComplete(a: RegExp, b: RegExp, m: Mode, w: Word) returns (k: nat)
    requires PartiallyMatches(Concat(a, b), m, w)
    ensures k <= |w|
    ensures PartiallyMatches(a, ConcatModes(m).0, w[..k])
    ensures PartiallyMatches(b, ConcatModes(m).1, w[k..])
  {
    var i, j := PartialChoose(Concat(a, b), m, w);
    k := ConcatFactorSplit(a, b, m, w, i, j);
  }

  /** The split of one matching factor w[i..j] of the concatenation. */
  lemma ConcatFactorSplit(a: RegExp, b: RegExp, m: Mode, w: Word, i: nat, j: nat) returns (k: nat)
    requires i <= j <= |w| && (i == 0 || LeftFree(m)) && (j == |w| || RightFree(m))
    requires Matches(Concat(a, b), w[i..j])
    ensures k <= |w|
    ensures PartiallyMatches(a, ConcatModes(m).0, w[..k])
    ensures PartiallyMatches(b, ConcatModes(m).1, w[k..])
  {
    ConcatModesFree(m);
    var ma, mb := ConcatModes(m).0, ConcatModes(m).1;
    var k' := ConcatSplit(a, b, w[i..j]);
    k := i + k';
    SliceAround(w, i, k, j);
    PartialWitness(a, ma, w[..k], i, k);
    PartialWitness(b, mb, w[k..], 0, j - k);
  }

  lemma DisjPartial(a: RegExp, b: RegExp, m: Mode, w: Word)
    ensures PartiallyMatches(Disj(a, b), m, w) <==> PartiallyMatches(a, m, w) || PartiallyMatches(b, m, w)
  {
    if PartiallyMatches(Disj(a, b), m, w) {
      var i, j :| 0 <= i <= j <= |w| && (i == 0 || LeftFree(m)) && (j == |w| || RightFree(m)) && Matches(Disj(a, b), w[i..j]);
    }
  }

  lemma OptPartial(a: RegExp, m: Mode, w: Word)
    ensures PartiallyMatches(Opt(a), m, w) <==> PartiallyMatches(a, m, w) || PartiallyMatches(Epsilon, m, w)
  {
    if PartiallyMatches(Opt(a), m, w) {
      var i, j :| 0 <= i <= j <= |w| && (i == 0 || LeftFree(m)) && (j == |w| || RightFree(m)) && Matches(Opt(a), w[i..j]);
    }
  }

  /** Partial matching depends only on the language. */
  lemma PartialCongruent(x: RegExp, y: RegExp, m: Mode, w: Word)
    requires forall u :: Matches(x, u) <==> Matches(y, u)
    ensures PartiallyMatches(x, m, w) <==> PartiallyMatches(y, m, w)
  {
  }

  /**
   * For an expression without anchors the rewrite is exact: in mode m it
   * accepts precisely the words that have a factor in the language of e,
   * free on the sides m leaves open. In `Both` mode that is the promise of
   * `partialMatch`: the words p w s with w in the language of e.
   */
  lemma {:induction false} RewriteIsExact(e: RegExp, m: Mode)
    requires !HasAnchor(e) && !HasEmptySet(e)
    ensures forall w :: Matches(PartialRewrite(e, m).value, w) <==> PartiallyMatches(e, m, w)
    decreases e
  {
    match e
    case Epsilon => forall w { PadIsPartialMatch(e, m, w); }
    case Atom(_) => forall w { PadIsPartialMatch(e, m, w); }
    case Chars(_, _) => forall w { PadIsPartialMatch(e, m, w); }
    case DotAny => forall w { PadIsPartialMatch(e, m, w); }
    case Concat(a, b) =>
      RewriteIsExact(a, ConcatModes(m).0);
      RewriteIsExact(b, ConcatModes(m).1);
      ConcatRewriteExact(a, b, m, PartialRewrite(a, ConcatModes(m).0).value, PartialRewrite(b, ConcatModes(m).1).value);
    case Disj(a, b) =>
      RewriteIsExact(a, m);
      RewriteIsExact(b, m);
      forall w { DisjPartial(a, b, m, w); }
    case Opt(a) =>
      RewriteIsExact(a, m);
      forall w
        ensures Matches(PartialRewrite(e, m).value, w) <==> PartiallyMatches(e, m, w)
      {
        PadIsPartialMatch(Epsilon, m, w);
        OptPartial(a, m, w);
      }
    case Star(a) =>
      RewriteIsExact(a, Neither);
      StarRewriteExact(a, m, PartialRewrite(a, Neither).value);
  }

  /** The concatenation case of `RewriteIsExact`, given the rewrites of both halves. */
  lemma ConcatRewriteExact(a: RegExp, b: RegExp, m: Mode, ra: RegExp, rb: RegExp)
    requires forall w :: Matches(ra, w) <==> PartiallyMatches(a, ConcatModes(m).0, w)
    requires forall w :: Matches(rb, w) <==> PartiallyMatches(b, ConcatModes(m).1, w)
    ensures forall w :: Matches(Concat(ra, rb), w) <==> PartiallyMatches(Concat(a, b), m, w)
  {
    forall w
      ensures Matches(Concat(ra, rb), w) ==> PartiallyMatches(Concat(a, b), m, w)
    {
      if Matches(Concat(ra, rb), w) {
        var k := ConcatSplit(ra, rb, w);
        ConcatPartialSound(a, b, m, w, k);
      }
    }
    forall w
      ensures PartiallyMatches(Concat(a, b), m, w) ==> Matches(Concat(ra, rb), w)
    {
      if PartiallyMatches(Concat(a, b), m, w) {
        var k := ConcatPartialComplete(a, b, m, w);
        ConcatIntro(ra, rb, w, k);
      }
    }
  }

  /** The star case of `RewriteIsExact` (no anchor inside), given the exact rewrite of the argument. */
  lemma StarRewriteExact(a: RegExp, m: Mode, ra: RegExp)
    requires forall u :: Matches(ra, u) <==> PartiallyMatches(a, Neither, u)
    ensures forall w :: Matches(if m == Neither then Star(ra) else Pad(Star(ra), m), w) <==> PartiallyMatches(Star(a), m, w)
  {
    forall u
      ensures Matches(ra, u) <==> Matches(a, u)
    {
      NeitherIsMatch(a, u);
    }
    forall u
      ensures Matches(Star(ra), u) <==> Matches(Star(a), u)
    {
      StarCongruent(ra, a, u);
    }
    forall w
      ensures Matches(if m == Neither then Star(ra) else Pad(Star(ra), m), w) <==> PartiallyMatches(Star(a), m, w)
    {
      if m == Neither {
        NeitherIsMatch(Star(a), w);
      } else {
        PadIsPartialMatch(Star(ra), m, w);
        PartialCongruent(Star(ra), Star(a), m, w);
      }
    }
  }

  lemma StartAnchorConcat(x: RegExp, w: Word)
    ensures Matches(Concat(Anchor(StartAnchor), x), w) <==> Matches(x, w)
  {
    if Matches(x, w) {
      assert w[..0] == [] && w[0..] == w;
    }
  }

  lemma EndAnchorConcat(x: RegExp, w: Word)
    ensures Matches(Concat(x, Anchor(EndAnchor)), w) <==> Matches(x, w)
  {
    if Matches(Concat(x, Anchor(EndAnchor)), w) {
      var k :| 0 <= k <= |w| && Matches(x, w[..k]) && Matches(Anchor(EndAnchor), w[k..]);
      assert k == |w| && w[..k] == w;
    }
    if Matches(x, w) {
      assert w[..|w|] == w && w[|w|..] == [];
    }
  }

  lemma StartAnchoredShape(e: RegExp)
    requires !HasAnchor(e) && !HasEmptySet(e)
    ensures PartialRewrite(Concat(Anchor(StartAnchor), e), Both) == Ok(Concat(Anchor(StartAnchor), PartialRewrite(e, End).value))
  {
  }

  lemma EndAnchoredShape(e: RegExp)
    requires !HasAnchor(e) && !HasEmptySet(e)
    ensures PartialRewrite(Concat(e, Anchor(EndAnchor)), Both) == Ok(Concat(PartialRewrite(e, Start).value, Anchor(EndAnchor)))
  {
  }

  lemma FullyAnchoredShape(e: RegExp)
    requires !HasAnchor(e) && !HasEmptySet(e)
    ensures PartialRewrite(Concat(Anchor(StartAnchor), Concat(e, Anchor(EndAnchor))), Both)
         == Ok(Concat(Anchor(StartAnchor), Concat(PartialRewrite(e, Neither).value, Anchor(EndAnchor))))
  {
    assert PartialRewrite(Concat(e, Anchor(EndAnchor)), End) == Ok(Concat(PartialRewrite(e, Neither).value, Anchor(EndAnchor)));
  }

  lemma SliceFromStart(w: Word, j: nat)
    requires j <= |w|
    ensures w[0..j] == w[..j]
  {
  }

  lemma SliceToEnd(w: Word, i: nat)
    requires i <= |w|
    ensures w[i..|w|] == w[i..]
  {
  }

  lemma EndPartialIsPrefix(e: RegExp, w: Word)
    ensures PartiallyMatches(e, End, w) <==> exists j :: 0 <= j <= |w| && Matches(e, w[..j])
  {
    if PartiallyMatches(e, End, w) {
      var i, j := PartialChoose(e, End, w);
      SliceFromStart(w, j);
    }
    if exists j :: 0 <= j <= |w| && Matches(e, w[..j]) {
      var j :| 0 <= j <= |w| && Matches(e, w[..j]);
      SliceFromStart(w, j);
      PartialWitness(e, End, w, 0, j);
    }
  }

  lemma StartPartialIsSuffix(e: RegExp, w: Word)
    ensures PartiallyMatches(e, Start, w) <==> exists i :: 0 <= i <= |w| && Matches(e, w[i..])
  {
    if PartiallyMatches(e, Start, w) {
      var i, j := PartialChoose(e, Start, w);
      SliceToEnd(w, i);
    }
    if exists i :: 0 <= i <= |w| && Matches(e, w[i..]) {
      var i :| 0 <= i <= |w| && Matches(e, w[i..]);
      SliceToEnd(w, i);
      PartialWitness(e, Start, w, i, |w|);
    }
  }

  /** `^e` partially matches exactly the words with a prefix in the language of e. */
  lemma StartAnchoredIsPrefixMatch(e: RegExp, w: Word)
    requires !HasAnchor(e) && !HasEmptySet(e)
    ensures PartialRewrite(Concat(Anchor(StartAnchor), e), Both).Ok?
    ensures Matches(PartialRewrite(Concat(Anchor(StartAnchor), e), Both).value, w)
        <==> exists j :: 0 <= j <= |w| && Matches(e, w[..j])
  {
    StartAnchoredShape(e);
    RewriteIsExact(e, End);
    StartAnchorConcat(PartialRewrite(e, End).value, w);
    EndPartialIsPrefix(e, w);
  }

  /** `e$` partially matches exactly the words with a suffix in the language of e. */
  lemma EndAnchoredIsSuffixMatch(e: RegExp, w: Word)
    requires !HasAnchor(e) && !HasEmptySet(e)
    ensures PartialRewrite(Concat(e, Anchor(EndAnchor)), Both).Ok?
    ensures Matches(PartialRewrite(Concat(e, Anchor(EndAnchor)), Both).value, w)
        <==> exists i :: 0 <= i <= |w| && Matches(e, w[i..])
  {
    EndAnchoredShape(e);
    RewriteIsExact(e, Start);
    EndAnchorConcat(PartialRewrite(e, Start).value, w);
    StartPartialIsSuffix(e, w);
  }

  /** `^e$` partially matches exactly the language of e. */
  lemma FullyAnchoredIsMatch(e: RegExp, w: Word)
    requires !HasAnchor(e) && !HasEmptySet(e)
    ensures PartialRewrite(Concat(Anchor(StartAnchor), Concat(e, Anchor(EndAnchor))), Both).Ok?
    ensures Matches(PartialRewrite(Concat(Anchor(StartAnchor), Concat(e, Anchor(EndAnchor))), Both).value, w)
        <==> Matches(e, w)
  {
    FullyAnchoredShape(e);
    RewriteIsExact(e, Neither);
    NeitherIsMatch(e, w);
    var re := PartialRewrite(e, Neither).value;
    StartAnchorConcat(Concat(re, Anchor(EndAnchor)), w);
    EndAnchorConcat(re, w);
  }

  /** Where a free side exists, an expression accepting the empty word partially matches every word. */
  lemma EmptyMatchIsPartial(x: RegExp, m: Mode, w: Word)
    requires m != Neither && Matches(x, [])
    ensures PartiallyMatches(x, m, w)
  {
    if LeftFree(m) {
      assert w[|w|..|w|] == [];
    } else {
      assert w[0..0] == [];
    }
  }

  /**
   * Zero repetitions match anywhere, so the rewrite of a star accepts every
   * word in every mode but `Neither`, whether or not it holds an anchor.
   */
  lemma StarMatchesEverywhere(a: RegExp, m: Mode, w: Word)
    requires m != Neither && PartialRewrite(Star(a), m).Ok?
    ensures Matches(PartialRewrite(Star(a), m).value, w)
  {
    if HasAnchor(Star(a)) {
      EmptyMatchIsPartial(Epsilon, m, w);
      PadIsPartialMatch(Epsilon, m, w);
    } else {
      var ra := PartialRewrite(a, Neither).value;
      EmptyMatchIsPartial(Star(ra), m, w);
      PadIsPartialMatch(Star(ra), m, w);
    }
  }

  /** Likewise for an option, which may match nothing. */
  lemma OptMatchesEverywhere(a: RegExp, m: Mode, w: Word)
    requires m != Neither && PartialRewrite(Opt(a), m).Ok?
    ensures Matches(PartialRewrite(Opt(a), m).value, w)
  {
    EmptyMatchIsPartial(Epsilon, m, w);
    PadIsPartialMatch(Epsilon, m, w);
  }

  /** An expression object together with whether `partialMatch` produced it. */
  datatype Pattern = Pattern(expr: RegExp, rewritten: bool)

  /**
   * `partialMatch`: the `Both` rewrite, marked as rewritten. A rewritten
   * pattern refuses a second rewrite unless `force` is set.
   */
  function PartialMatch(p: Pattern, force: bool): (r: Result<Pattern, PmError>)
    ensures r.Ok? ==> r.value.rewritten
    ensures p.rewritten && !force ==> r == Err(AlreadyRewritten)
  {
    if p.rewritten && !force then Err(AlreadyRewritten)
    else
      var re := PartialRewrite(p.expr, Both);
      if re.Err? then Err(re.error) else Ok(Pattern(re.value, true))
  }

  /**
   * A fresh anchor-free pattern is rewritten into one accepting exactly the
   * words with a factor in its language; rewriting that again is refused,
   * and forcing it rewrites the rewritten expression.
   */
  lemma PartialMatchOnce(e: RegExp, w: Word)
    requires !HasAnchor(e) && !HasEmptySet(e)
    ensures PartialMatch(Pattern(e, false), false).Ok?
    ensures Matches(PartialMatch(Pattern(e, false), false).value.expr, w)
        <==> exists i, j :: 0 <= i <= j <= |w| && Matches(e, w[i..j])
    ensures PartialMatch(PartialMatch(Pattern(e, false), false).value, false) == Err(AlreadyRewritten)
    ensures PartialMatch(PartialMatch(Pattern(e, false), false).value, true)
        == PartialMatch(Pattern(PartialMatch(Pattern(e, false), false).value.expr, false), false)
  {
    RewriteIsExact(e, Both);
  }
}
