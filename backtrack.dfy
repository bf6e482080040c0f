/**
 * The backtracking matcher (`_backtrackMatch` and `evalWordPBacktrack` in
 * benchmark/reex_ext.py, after Berglund, Drewes and van der Merwe, 2014).
 * The generator becomes a function returning the remainders it yields, in
 * order: what is left of the word after each way a prefix can be matched.
 */
module Backtracking {
  import opened Wrappers
  import opened RegExps

  predicate IsSuffix(r: Word, w: Word) {
    |r| <= |w| && r == w[|w| - |r|..]
  }

  /**
   * The remainders e yields on w. A star tries its argument, repeats on
   * each remainder that is shorter than w, and finally yields w itself;
   * the source repeats on every remainder (see StarBacktrackAsWritten).
   */
  function Backtrack(e: RegExp, w: Word): (rs: seq<Word>)
    requires !HasEmptySet(e)
    ensures forall r :: r in rs ==> IsSuffix(r, w)
    ensures e.Opt? ==> |rs| > 0 && rs[0] == w
    ensures e.Star? ==> |rs| > 0 && rs[|rs| - 1] == w
    decreases e, |w|, 0
  {
    match e
    case EmptySet => assert false; []
    case Epsilon => [w]
    case Anchor(_) => [w]
    case Atom(c) => if |w| > 0 && w[0] == c then [w[1..]] else []
    case Chars(_, _) => if |w| == 0 then [] else if Accepts(e, w[0]) then [w[1..]] else []
    case DotAny => if |w| > 0 then [w[1..]] else []
    case Concat(a, b) => ThenMatch(b, Backtrack(a, w), w)
    case Disj(a, b) => Backtrack(a, w) + Backtrack(b, w)
    case Star(a) => (if |w| == 0 then [] else StarThen(a, Backtrack(a, w), w)) + [w]
    case Opt(a) => [w] + Backtrack(a, w)
  }

  /** A suffix of a suffix of w is a suffix of w. */
  lemma SuffixesOfSuffix(rs: seq<Word>, p: Word, w: Word)
    requires IsSuffix(p, w)
    requires forall r :: r in rs ==> IsSuffix(r, p)
    ensures forall r :: r in rs ==> IsSuffix(r, w)
  {
    forall r | r in rs ensures IsSuffix(r, w) {
      assert w[|w| - |p|..][|p| - |r|..] == w[|w| - |r|..];
    }
  }

  /** For each remainder p of the first half, in order, the remainders b yields on p. */
  function ThenMatch(b: RegExp, ps: seq<Word>, w: Word): (rs: seq<Word>)
    requires !HasEmptySet(b)
    requires forall p :: p in ps ==> IsSuffix(p, w)
    ensures forall r :: r in rs ==> IsSuffix(r, w)
    decreases b, |w|, |ps|
  {
    if ps == [] then []
    else
      var p := ps[0];
      assert p in ps;
      assert IsSuffix(p, w);
      var first := Backtrack(b, p);
      SuffixesOfSuffix(first, p, w);
      first + ThenMatch(b, ps[1..], w)
  }

  /** For each remainder p of the argument that is shorter than w, the remainders the star yields on p. */
  function StarThen(a: RegExp, ps: seq<Word>, w: Word): (rs: seq<Word>)
    requires !HasEmptySet(a) && |w| > 0
    requires forall p :: p in ps ==> IsSuffix(p, w)
    ensures forall r :: r in rs ==> IsSuffix(r, w)
    decreases Star(a), |w| - 1, |ps|
  {
    if ps == [] then []
    else
      var p := ps[0];
      assert p in ps;
      var first := if |p| < |w| then Backtrack(Star(a), p) else [];
      SuffixesOfSuffix(first, p, w);
      first + StarThen(a, ps[1..], w)
  }

  /** r is what remains of w after a prefix in the language of e. */
  ghost predicate Residue(e: RegExp, w: Word, r: Word) {
    exists k :: 0 <= k <= |w| && r == w[k..] && Matches(e, w[..k])
  }

  lemma ThenMatchMembers(b: RegExp, ps: seq<Word>, w: Word, r: Word)
    requires !HasEmptySet(b)
    requires forall p :: p in ps ==> IsSuffix(p, w)
    ensures r in ThenMatch(b, ps, w) <==> exists p :: p in ps && r in Backtrack(b, p)
    decreases |ps|
  {
    if ps != [] {
      var p0 := ps[0];
      assert p0 in ps;
      assert ThenMatch(b, ps, w) == Backtrack(b, p0) + ThenMatch(b, ps[1..], w);
      ThenMatchMembers(b, ps[1..], w, r);
      if exists p :: p in ps && r in Backtrack(b, p) {
        var p :| p in ps && r in Backtrack(b, p);
        if p != p0 {
          assert p in ps[1..];
        }
      }
    }
  }

  lemma StarThenMembers(a: RegExp, ps: seq<Word>, w: Word, r: Word)
    requires !HasEmptySet(a) && |w| > 0
    requires forall p :: p in ps ==> IsSuffix(p, w)
    ensures r in StarThen(a, ps, w) <==> exists p :: p in ps && |p| < |w| && r in Backtrack(Star(a), p)
    decreases |ps|
  {
    if ps != [] {
      var p0 := ps[0];
      assert p0 in ps;
      var first := if |p0| < |w| then Backtrack(Star(a), p0) else [];
      var rest := StarThen(a, ps[1..], w);
      assert StarThen(a, ps, w) == first + rest;
      assert forall p :: p in ps[1..] ==> p in ps;
      StarThenMembers(a, ps[1..], w, r);
      if r in first {
        assert p0 in ps && |p0| < |w| && r in Backtrack(Star(a), p0);
      }
      if exists p :: p in ps && |p| < |w| && r in Backtrack(Star(a), p) {
        var p :| p in ps && |p| < |w| && r in Backtrack(Star(a), p);
        if p != p0 {
          assert p in ps[1..];
        }
      }
    }
  }

  /** A leaf that consumes one symbol leaves w[1..] exactly when it accepts w[0]. */
  lemma LeafResidue(e: RegExp, w: Word, r: Word)
    requires IsSymbolLeaf(e)
    ensures Residue(e, w, r) <==> |w| > 0 && Accepts(e, w[0]) && r == w[1..]
  {
    if Residue(e, w, r) {
      var k :| 0 <= k <= |w| && r == w[k..] && Matches(e, w[..k]);
      assert |w[..k]| == 1;
    }
    if |w| > 0 && Accepts(e, w[0]) && r == w[1..] {
      assert w[..1] == [w[0]];
      assert Matches(e, w[..1]);
    }
  }

  lemma EmptyResidue(e: RegExp, w: Word, r: Word)
    requires e.Epsilon? || e.Anchor?
    ensures Residue(e, w, r) <==> r == w
  {
    if r == w {
      assert w[..0] == [] && w[0..] == w;
    }
  }

  lemma SliceFacts(w: Word, k1: nat, k2: nat)
    requires k1 + k2 <= |w|
    ensures w[..k1 + k2][..k1] == w[..k1]
    ensures w[..k1 + k2][k1..] == w[k1..][..k2]
    ensures w[k1 + k2..] == w[k1..][k2..]
  {
  }

  lemma ConcatResidueSound(a: RegExp, b: RegExp, w: Word, p: Word, r: Word)
    requires Residue(a, w, p) && Residue(b, p, r)
    ensures Residue(Concat(a, b), w, r)
  {
    var k1 :| 0 <= k1 <= |w| && p == w[k1..] && Matches(a, w[..k1]);
    var k2 :| 0 <= k2 <= |p| && r == p[k2..] && Matches(b, p[..k2]);
    SliceFacts(w, k1, k2);
    var v := w[..k1 + k2];
    ConcatIntro(a, b, v, k1);
    assert r == w[k1 + k2..];
  }

  /** The remainder after the prefix w[..k]. */
  lemma ResidueWitness(e: RegExp, w: Word, k: nat)
    requires k <= |w| && Matches(e, w[..k])
    ensures Residue(e, w, w[k..])
  {
  }

  lemma ConcatResidueComplete(a: RegExp, b: RegExp, w: Word, r: Word) returns (p: Word)
    requires Residue(Concat(a, b), w, r)
    ensures Residue(a, w, p) && Residue(b, p, r)
  {
    var k :| 0 <= k <= |w| && r == w[k..] && Matches(Concat(a, b), w[..k]);
    var j := ConcatSplit(a, b, w[..k]);
    SliceFacts(w, j, k - j);
    p := w[j..];
    ResidueWitness(a, w, j);
    ResidueWitness(b, p, k - j);
  }

  lemma StarResidueSound(a: RegExp, w: Word, p: Word, r: Word)
    requires Residue(a, w, p) && |p| < |w| && Residue(Star(a), p, r)
    ensures Residue(Star(a), w, r)
  {
    var k1 :| 0 <= k1 <= |w| && p == w[k1..] && Matches(a, w[..k1]);
    var k2 :| 0 <= k2 <= |p| && r == p[k2..] && Matches(Star(a), p[..k2]);
    SliceFacts(w, k1, k2);
    var v := w[..k1 + k2];
    StarIntro(a, v, k1);
    assert r == w[k1 + k2..];
  }

  lemma StarResidueComplete(a: RegExp, w: Word, r: Word) returns (p: Word)
    requires Residue(Star(a), w, r) && r != w
    ensures Residue(a, w, p) && |p| < |w| && Residue(Star(a), p, r)
  {
    var k :| 0 <= k <= |w| && r == w[k..] && Matches(Star(a), w[..k]);
    var v := w[..k];
    assert k != 0;
    var j :| 0 < j <= |v| && Matches(a, v[..j]) && Matches(Star(a), v[j..]);
    SliceFacts(w, j, k - j);
    p := w[j..];
    assert p == w[j..] && Matches(a, w[..j]);
    assert r == p[k - j..] && Matches(Star(a), p[..k - j]);
  }

  /**
   * The matcher is correct: the remainders it yields are exactly what is
   * left of w after the prefixes of w in the language of e.
   */
  lemma {:induction false} BacktrackIsCorrect(e: RegExp, w: Word, r: Word)
    requires !HasEmptySet(e)
    ensures r in Backtrack(e, w) <==> Residue(e, w, r)
    decreases e, |w|
  {
    match e
    case Epsilon => EmptyResidue(e, w, r);
    case Anchor(_) => EmptyResidue(e, w, r);
    case Atom(_) => LeafResidue(e, w, r);
    case Chars(_, _) => LeafResidue(e, w, r);
    case DotAny => LeafResidue(e, w, r);
    case Disj(a, b) =>
      BacktrackIsCorrect(a, w, r);
      BacktrackIsCorrect(b, w, r);
      if Residue(e, w, r) {
        var k :| 0 <= k <= |w| && r == w[k..] && Matches(e, w[..k]);
        assert Residue(a, w, r) || Residue(b, w, r);
      }
    case Opt(a) =>
      BacktrackIsCorrect(a, w, r);
      EmptyResidue(Epsilon, w, r);
      if Residue(e, w, r) {
        var k :| 0 <= k <= |w| && r == w[k..] && Matches(e, w[..k]);
        assert Residue(a, w, r) || Residue(Epsilon, w, r);
      }
    case Concat(a, b) =>
      var ps := Backtrack(a, w);
      ThenMatchMembers(b, ps, w, r);
      if r in Backtrack(e, w) {
        var p :| p in ps && r in Backtrack(b, p);
        BacktrackIsCorrect(a, w, p);
        BacktrackIsCorrect(b, p, r);
        ConcatResidueSound(a, b, w, p, r);
      }
      if Residue(e, w, r) {
        var p := ConcatResidueComplete(a, b, w, r);
        BacktrackIsCorrect(a, w, p);
        BacktrackIsCorrect(b, p, r);
      }
    case Star(a) =>
      EmptyResidue(Epsilon, w, r);
      if r == w {
        assert w[..0] == [] && w[0..] == w;
        assert Residue(e, w, r);
      } else {
        assert r in Backtrack(e, w) <==> |w| > 0 && r in StarThen(a, Backtrack(a, w), w);
        if |w| > 0 {
          StarThenMembers(a, Backtrack(a, w), w, r);
        }
        if r in Backtrack(e, w) {
          var p :| p in Backtrack(a, w) && |p| < |w| && r in Backtrack(Star(a), p);
          BacktrackIsCorrect(a, w, p);
          BacktrackIsCorrect(e, p, r);
          StarResidueSound(a, w, p, r);
        }
        if Residue(e, w, r) {
          var p := StarResidueComplete(a, w, r);
          BacktrackIsCorrect(a, w, p);
          BacktrackIsCorrect(e, p, r);
        }
      }
  }

  /** Nothing remains exactly when the whole word matched. */
  lemma EmptyResidueIsMatch(e: RegExp, w: Word)
    ensures Residue(e, w, []) <==> Matches(e, w)
  {
    if Matches(e, w) {
      assert w[|w|..] == [] && w[..|w|] == w;
    }
    if Residue(e, w, []) {
      var k :| 0 <= k <= |w| && [] == w[k..] && Matches(e, w[..k]);
      assert k == |w| && w[..k] == w;
    }
  }

  /**
   * `evalWordPBacktrack`: the empty word by `ewp`, any other word by
   * looking for an empty remainder among those the matcher yields.
   */
  method EvalWordPBacktrack(e: RegExp, w: Word) returns (accepted: bool)
    requires w == [] || !HasEmptySet(e)
    ensures accepted == Matches(e, w)
  {
    if |w| == 0 {
      EwpIsEmptyWord(e);
      return Ewp(e);
    }
    BacktrackIsCorrect(e, w, []);
    EmptyResidueIsMatch(e, w);
    var rs := Backtrack(e, w);
    var i := 0;
    while i < |rs|
      invariant 0 <= i <= |rs|
      invariant forall j :: 0 <= j < i ==> rs[j] != []
    {
      if |rs[i]| == 0 {
        return true;
      }
      i := i + 1;
    }
    return false;
  }

  /**
   * The source's `_backtrackMatch` on the whole tree, with every star as
   * written: a star repeats on every remainder of its argument, the word
   * itself included. `fuel` bounds how often a star may recurse on its own
   * remainders; None means that the bound was reached somewhere in the
   * enumeration.
   */
  function BacktrackAsWritten(e: RegExp, w: Word, fuel: nat): (r: Option<seq<Word>>)
    requires !HasEmptySet(e)
    ensures r.Some? ==> forall x :: x in r.value ==> IsSuffix(x, w)
    ensures r.Some? && e.Opt? ==> |r.value| > 0 && r.value[0] == w
    decreases fuel, e, 2, 0
  {
    match e
    case Concat(a, b) =>
      var ps := BacktrackAsWritten(a, w, fuel);
      if ps.None? then None else ThenMatchAsWritten(b, ps.value, w, fuel)
    case Disj(a, b) =>
      var ra := BacktrackAsWritten(a, w, fuel);
      var rb := BacktrackAsWritten(b, w, fuel);
      if ra.None? || rb.None? then None else Some(ra.value + rb.value)
    case Star(a) => StarBacktrackAsWritten(a, w, fuel)
    case Opt(a) =>
      var ra := BacktrackAsWritten(a, w, fuel);
      if ra.None? then None else Some([w] + ra.value)
    case EmptySet => assert false; None
    case Epsilon | Anchor(_) | Atom(_) | Chars(_, _) | DotAny => Some(Backtrack(e, w))
  }

  /** For each remainder p of a concatenation's first half, the second half's remainders on p. */
  function ThenMatchAsWritten(b: RegExp, ps: seq<Word>, w: Word, fuel: nat): (r: Option<seq<Word>>)
    requires !HasEmptySet(b)
    requires forall p :: p in ps ==> IsSuffix(p, w)
    ensures r.Some? ==> forall x :: x in r.value ==> IsSuffix(x, w)
    decreases fuel, b, 3, |ps|
  {
    if ps == [] then Some([])
    else
      assert ps[0] in ps;
      var first := BacktrackAsWritten(b, ps[0], fuel);
      var rest := ThenMatchAsWritten(b, ps[1..], w, fuel);
      if first.None? || rest.None? then None
      else
        SuffixesOfSuffix(first.value, ps[0], w);
        Some(first.value + rest.value)
  }

  /** The source's star: its argument's remainders, the star on each of them, then the word. */
  function StarBacktrackAsWritten(a: RegExp, w: Word, fuel: nat): (r: Option<seq<Word>>)
    requires !HasEmptySet(a)
    ensures r.Some? ==> |r.value| > 0 && r.value[|r.value| - 1] == w
    ensures r.Some? ==> forall x :: x in r.value ==> IsSuffix(x, w)
    decreases fuel, Star(a), 0, 0
  {
    if fuel == 0 then None
    else
      var ps := BacktrackAsWritten(a, w, fuel);
      if ps.None? then None
      else
        var inner := StarEachAsWritten(a, ps.value, fuel - 1);
        if inner.None? then None
        else
          assert forall x :: x in inner.value ==> IsSuffix(x, w) by {
            forall x | x in inner.value ensures IsSuffix(x, w) {
              var p :| p in ps.value && IsSuffix(x, p);
              SuffixesOfSuffix([x], p, w);
            }
          }
          Some(inner.value + [w])
  }

  /** The star repeated on each remainder in turn, the yields concatenated. */
  function StarEachAsWritten(a: RegExp, ps: seq<Word>, fuel: nat): (r: Option<seq<Word>>)
    requires !HasEmptySet(a)
    ensures r.Some? ==> |r.value| >= |ps|
    ensures r.Some? ==> forall x :: x in r.value ==> exists p :: p in ps && IsSuffix(x, p)
    decreases fuel, Star(a), 1, |ps|
  {
    if ps == [] then Some([])
    else
      var first := StarBacktrackAsWritten(a, ps[0], fuel);
      if first.None? then None
      else
        var rest := StarEachAsWritten(a, ps[1..], fuel);
        if rest.None? then None else Some(first.value + rest.value)
  }

  /**
   * On `(c?)*` the source's star recurses on the same word forever: no
   * depth bound is enough, for any word.
   */
  lemma {:induction false} OptionStarNeverReturns(c: int, w: Word, fuel: nat)
    ensures !HasEmptySet(Star(Opt(Atom(c))))
    ensures BacktrackAsWritten(Star(Opt(Atom(c))), w, fuel).None?
    decreases fuel
  {
    assert !HasEmptySet(Opt(Atom(c)));
    if fuel > 0 {
      assert BacktrackAsWritten(Atom(c), w, fuel).Some?;
      var ps := BacktrackAsWritten(Opt(Atom(c)), w, fuel);
      assert ps.Some? && ps.value[0] == w;
      OptionStarNeverReturns(c, w, fuel - 1);
      assert StarBacktrackAsWritten(Opt(Atom(c)), w, fuel - 1).None?;
      assert StarEachAsWritten(Opt(Atom(c)), ps.value, fuel - 1).None?;
    }
  }

  /**
   * A nested `(c?)*` is reached with the empty word inside `(b(c?)*)*` on
   * "b", although the outer star's argument does not match the empty word.
   */
  lemma NestedOptionStarNeverReturns(fuel: nat)
    ensures !Ewp(Concat(Atom(98), Star(Opt(Atom(99)))))
    ensures BacktrackAsWritten(Star(Concat(Atom(98), Star(Opt(Atom(99))))), [98], fuel).None?
  {
    if fuel > 0 {
      var a := Concat(Atom(98), Star(Opt(Atom(99))));
      assert [98][1..] == [];
      assert BacktrackAsWritten(Atom(98), [98], fuel) == Some([[]]);
      OptionStarNeverReturns(99, [], fuel);
      assert ThenMatchAsWritten(Star(Opt(Atom(99))), [[]], [98], fuel).None?;
      assert BacktrackAsWritten(a, [98], fuel).None?;
    }
  }

  /** No star in e has an argument that matches the empty word. */
  predicate NullableStarFree(e: RegExp) {
    match e
    case Concat(a, b) => NullableStarFree(a) && NullableStarFree(b)
    case Disj(a, b) => NullableStarFree(a) && NullableStarFree(b)
    case Star(a) => !Ewp(a) && NullableStarFree(a)
    case Opt(a) => NullableStarFree(a)
    case _ => true
  }

  /** Without the empty word, every remainder of a is strictly shorter than w. */
  lemma RemaindersShrink(a: RegExp, w: Word)
    requires !HasEmptySet(a) && !Ewp(a)
    ensures forall p :: p in Backtrack(a, w) ==> |p| < |w|
  {
    EwpIsEmptyWord(a);
    forall p | p in Backtrack(a, w) ensures |p| < |w| {
      BacktrackIsCorrect(a, w, p);
      var k :| 0 <= k <= |w| && p == w[k..] && Matches(a, w[..k]);
      assert k != 0 by {
        assert w[..0] == [];
      }
    }
  }

  /**
   * When no star of e has an argument that matches the empty word and the
   * depth bound exceeds the word's length, the source's matcher yields
   * exactly the corrected matcher's remainders.
   */
  lemma {:induction false} BacktrackAsWrittenAgrees(e: RegExp, w: Word, fuel: nat)
    requires !HasEmptySet(e) && NullableStarFree(e) && fuel > |w|
    ensures BacktrackAsWritten(e, w, fuel) == Some(Backtrack(e, w))
    decreases fuel, e, 2, 0
  {
    match e
    case Concat(a, b) =>
      BacktrackAsWrittenAgrees(a, w, fuel);
      ThenMatchAgrees(b, Backtrack(a, w), w, fuel);
    case Disj(a, b) =>
      BacktrackAsWrittenAgrees(a, w, fuel);
      BacktrackAsWrittenAgrees(b, w, fuel);
    case Star(a) => StarAsWrittenAgrees(a, w, fuel);
    case Opt(a) => BacktrackAsWrittenAgrees(a, w, fuel);
    case _ =>
  }

  /** The concatenation's loop over the first half's remainders agrees with ThenMatch. */
  lemma {:induction false} ThenMatchAgrees(b: RegExp, ps: seq<Word>, w: Word, fuel: nat)
    requires !HasEmptySet(b) && NullableStarFree(b) && fuel > |w|
    requires forall p :: p in ps ==> IsSuffix(p, w)
    ensures ThenMatchAsWritten(b, ps, w, fuel) == Some(ThenMatch(b, ps, w))
    decreases fuel, b, 3, |ps|
  {
    if ps != [] {
      assert ps[0] in ps;
      BacktrackAsWrittenAgrees(b, ps[0], fuel);
      ThenMatchAgrees(b, ps[1..], w, fuel);
    }
  }

  /** The star case: its argument does not match the empty word, so every remainder is shorter. */
  lemma {:induction false} StarAsWrittenAgrees(a: RegExp, w: Word, fuel: nat)
    requires !HasEmptySet(a) && !Ewp(a) && NullableStarFree(a) && fuel > |w|
    ensures StarBacktrackAsWritten(a, w, fuel) == Some(Backtrack(Star(a), w))
    decreases fuel, Star(a), 0, 0
  {
    var ps := Backtrack(a, w);
    BacktrackAsWrittenAgrees(a, w, fuel);
    RemaindersShrink(a, w);
    if |w| == 0 {
      assert ps == [];
    } else {
      StarEachAgrees(a, ps, w, fuel - 1);
      StarStep(a, w, fuel);
    }
  }

  /** One level of both stars on a non-empty word, in terms of the argument's remainders. */
  lemma StarStep(a: RegExp, w: Word, fuel: nat)
    requires !HasEmptySet(a) && |w| > 0 && fuel > 0
    requires BacktrackAsWritten(a, w, fuel) == Some(Backtrack(a, w))
    requires StarEachAsWritten(a, Backtrack(a, w), fuel - 1) == Some(StarThen(a, Backtrack(a, w), w))
    ensures StarBacktrackAsWritten(a, w, fuel) == Some(Backtrack(Star(a), w))
  {
  }

  /** The loop over the remainders, recursing on each, agrees with StarThen. */
  lemma {:induction false} StarEachAgrees(a: RegExp, ps: seq<Word>, w: Word, fuel: nat)
    requires !HasEmptySet(a) && !Ewp(a) && NullableStarFree(a) && |w| > 0 && fuel >= |w|
    requires forall p :: p in ps ==> IsSuffix(p, w) && |p| < |w|
    ensures StarEachAsWritten(a, ps, fuel) == Some(StarThen(a, ps, w))
    decreases fuel, Star(a), 1, |ps|
  {
    if ps != [] {
      assert ps[0] in ps;
      StarAsWrittenAgrees(a, ps[0], fuel);
      StarEachAgrees(a, ps[1..], w, fuel);
    }
  }
  /**
   * Whenever the source's matcher returns within the depth bound, it
   * returns exactly the corrected matcher's remainders: the two differ
   * only by the source's recursion never ending.
   */
  lemma {:induction false} BacktrackAsWrittenSound(e: RegExp, w: Word, fuel: nat)
    requires !HasEmptySet(e)
    ensures BacktrackAsWritten(e, w, fuel).Some? ==> BacktrackAsWritten(e, w, fuel).value == Backtrack(e, w)
    decreases fuel, e, 2, 0
  {
    match e
    case Concat(a, b) =>
      BacktrackAsWrittenSound(a, w, fuel);
      var ps := BacktrackAsWritten(a, w, fuel);
      if ps.Some? {
        ThenMatchSound(b, ps.value, w, fuel);
      }
    case Disj(a, b) =>
      BacktrackAsWrittenSound(a, w, fuel);
      BacktrackAsWrittenSound(b, w, fuel);
    case Star(a) => StarSound(a, w, fuel);
    case Opt(a) => BacktrackAsWrittenSound(a, w, fuel);
    case _ =>
  }

  /** The concatenation's loop, whenever it returns, returns ThenMatch. */
  lemma {:induction false} ThenMatchSound(b: RegExp, ps: seq<Word>, w: Word, fuel: nat)
    requires !HasEmptySet(b)
    requires forall p :: p in ps ==> IsSuffix(p, w)
    ensures ThenMatchAsWritten(b, ps, w, fuel).Some? ==> ThenMatchAsWritten(b, ps, w, fuel).value == ThenMatch(b, ps, w)
    decreases fuel, b, 3, |ps|
  {
    if ps != [] {
      assert ps[0] in ps;
      BacktrackAsWrittenSound(b, ps[0], fuel);
      ThenMatchSound(b, ps[1..], w, fuel);
    }
  }

  /** The star on a word that its argument can leave whole never returns. */
  lemma {:induction false} StarNoSelf(a: RegExp, w: Word, fuel: nat)
    requires !HasEmptySet(a) && w in Backtrack(a, w)
    ensures StarBacktrackAsWritten(a, w, fuel).None?
    decreases fuel, Star(a), 0, 1
  {
    if fuel > 0 {
      BacktrackAsWrittenSound(a, w, fuel);
      var ps := BacktrackAsWritten(a, w, fuel);
      if ps.Some? {
        StarNoSelf(a, w, fuel - 1);
        StarEachFails(a, ps.value, fuel - 1, w);
      }
    }
  }

  /** The loop over the remainders fails as soon as the star fails on one of them. */
  lemma {:induction false} StarEachFails(a: RegExp, ps: seq<Word>, fuel: nat, p: Word)
    requires !HasEmptySet(a) && p in ps && StarBacktrackAsWritten(a, p, fuel).None?
    ensures StarEachAsWritten(a, ps, fuel).None?
    decreases |ps|
  {
    if ps[0] != p {
      StarEachFails(a, ps[1..], fuel, p);
    }
  }

  /** The star case of BacktrackAsWrittenSound. */
  lemma {:induction false} StarSound(a: RegExp, w: Word, fuel: nat)
    requires !HasEmptySet(a)
    ensures StarBacktrackAsWritten(a, w, fuel).Some? ==> StarBacktrackAsWritten(a, w, fuel).value == Backtrack(Star(a), w)
    decreases fuel, Star(a), 0, 0
  {
    if fuel > 0 {
      BacktrackAsWrittenSound(a, w, fuel);
      var ps := BacktrackAsWritten(a, w, fuel);
      if ps.Some? {
        var rs := ps.value;
        if w in rs {
          StarNoSelf(a, w, fuel - 1);
          StarEachFails(a, rs, fuel - 1, w);
        } else if |w| == 0 {
          SuffixesOfEmpty(rs);
        } else {
          StarEachSound(a, rs, w, fuel - 1);
        }
        StarSoundStep(a, w, fuel);
      }
    }
  }

  /** One level of both stars, given what the loop over the remainders returns. */
  lemma StarSoundStep(a: RegExp, w: Word, fuel: nat)
    requires !HasEmptySet(a) && fuel > 0
    requires BacktrackAsWritten(a, w, fuel) == Some(Backtrack(a, w))
    requires var inner := StarEachAsWritten(a, Backtrack(a, w), fuel - 1);
      inner.Some? ==> inner.value == if |w| == 0 then [] else StarThen(a, Backtrack(a, w), w)
    ensures StarBacktrackAsWritten(a, w, fuel).Some? ==> StarBacktrackAsWritten(a, w, fuel).value == Backtrack(Star(a), w)
  {
  }

  /** The only suffix of the empty word is the empty word. */
  lemma SuffixesOfEmpty(rs: seq<Word>)
    requires forall p :: p in rs ==> IsSuffix(p, [])
    ensures rs == [] || [] in rs
  {
    if rs != [] {
      assert rs[0] in rs;
    }
  }

  /** The loop over the remainders, whenever it returns, returns StarThen. */
  lemma {:induction false} StarEachSound(a: RegExp, ps: seq<Word>, w: Word, fuel: nat)
    requires !HasEmptySet(a) && |w| > 0 && w !in ps
    requires forall p :: p in ps ==> IsSuffix(p, w)
    ensures StarEachAsWritten(a, ps, fuel).Some? ==> StarEachAsWritten(a, ps, fuel).value == StarThen(a, ps, w)
    decreases fuel, Star(a), 1, |ps|
  {
    if ps != [] {
      assert ps[0] in ps;
      assert |ps[0]| < |w|;
      StarSound(a, ps[0], fuel);
      StarEachSound(a, ps[1..], w, fuel);
    }
  }
}
