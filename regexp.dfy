/**
 * The regular-expression tree of benchmark/reex_ext.py: the `u*` node
 * classes, the character-class leaf `chars`, the wildcard `dotany` and the
 * `anchor` (an epsilon that remembers it was `^` or `$`). Symbols are
 * integer code points and words are sequences of them.
 *
 * `Matches` is the language of an expression, with anchors matching the
 * empty word as the source's `anchor` class does by inheriting from
 * epsilon. It is the reference the operations in the other modules are
 * proved against.
 */
module RegExps {
  import opened RangeLists

  datatype AnchorKind = StartAnchor | EndAnchor

  datatype RegExp =
    | EmptySet
    | Epsilon
    | Anchor(kind: AnchorKind)
    | Atom(sym: int)
    | Chars(ranges: seq<Range>, neg: bool)
    | DotAny
    | Concat(left: RegExp, right: RegExp)
    | Disj(left: RegExp, right: RegExp)
    | Star(arg: RegExp)
    | Opt(arg: RegExp)

  type Word = seq<int>

  /** The one-symbol leaves: `uatom` and its subclasses `chars` and `dotany`. */
  predicate IsSymbolLeaf(e: RegExp) {
    e.Atom? || e.Chars? || e.DotAny?
  }

  /** Whether a one-symbol leaf accepts symbol c; a negated class accepts what its ranges do not cover. */
  predicate Accepts(e: RegExp, c: int)
    requires IsSymbolLeaf(e)
  {
    match e
    case Atom(s) => c == s
    case Chars(rs, neg) => Covers(rs, c) != neg
    case DotAny => true
  }

  /** The language of e. */
  predicate Matches(e: RegExp, w: Word)
    decreases e, |w|
  {
    match e
    case EmptySet => false
    case Epsilon => w == []
    case Anchor(_) => w == []
    case Atom(_) => |w| == 1 && Accepts(e, w[0])
    case Chars(_, _) => |w| == 1 && Accepts(e, w[0])
    case DotAny => |w| == 1
    case Concat(a, b) => exists k :: 0 <= k <= |w| && Matches(a, w[..k]) && Matches(b, w[k..])
    case Disj(a, b) => Matches(a, w) || Matches(b, w)
    case Star(a) => w == [] || exists k :: 0 < k <= |w| && Matches(a, w[..k]) && Matches(e, w[k..])
    case Opt(a) => w == [] || Matches(a, w)
  }

  /** Empty-word property (FAdo's `ewp`), by the usual nullability rules; an anchor is an epsilon. */
  predicate Ewp(e: RegExp) {
    match e
    case EmptySet => false
    case Epsilon => true
    case Anchor(_) => true
    case Atom(_) => false
    case Chars(_, _) => false
    case DotAny => false
    case Concat(a, b) => Ewp(a) && Ewp(b)
    case Disj(a, b) => Ewp(a) || Ewp(b)
    case Star(_) => true
    case Opt(_) => true
  }

  /** FAdo's `epsilonP`: true for epsilon nodes, anchors included since they are epsilons. */
  predicate EpsilonP(e: RegExp) {
    e.Epsilon? || e.Anchor?
  }

  /** FAdo's `emptysetP`. */
  predicate EmptySetP(e: RegExp) {
    e.EmptySet?
  }

  /** Some node of e is an anchor. */
  predicate HasAnchor(e: RegExp) {
    match e
    case Anchor(_) => true
    case Concat(a, b) => HasAnchor(a) || HasAnchor(b)
    case Disj(a, b) => HasAnchor(a) || HasAnchor(b)
    case Star(a) => HasAnchor(a)
    case Opt(a) => HasAnchor(a)
    case _ => false
  }

  /** Some node of e is the empty set. */
  predicate HasEmptySet(e: RegExp) {
    match e
    case EmptySet => true
    case Concat(a, b) => HasEmptySet(a) || HasEmptySet(b)
    case Disj(a, b) => HasEmptySet(a) || HasEmptySet(b)
    case Star(a) => HasEmptySet(a)
    case Opt(a) => HasEmptySet(a)
    case _ => false
  }

  /** A split of v into a word of a and a word of b is a match of their concatenation. */
  lemma ConcatIntro(a: RegExp, b: RegExp, v: Word, k: nat)
    requires k <= |v| && Matches(a, v[..k]) && Matches(b, v[k..])
    ensures Matches(Concat(a, b), v)
  {
  }

  /** A match of a concatenation splits into a match of each half. */
  lemma ConcatSplit(a: RegExp, b: RegExp, v: Word) returns (k: nat)
    requires Matches(Concat(a, b), v)
    ensures k <= |v| && Matches(a, v[..k]) && Matches(b, v[k..])
  {
    k :| 0 <= k <= |v| && Matches(a, v[..k]) && Matches(b, v[k..]);
  }

  /** A non-empty word of a followed by a word of a's star is a word of the star. */
  lemma StarIntro(a: RegExp, v: Word, k: nat)
    requires 0 < k <= |v| && Matches(a, v[..k]) && Matches(Star(a), v[k..])
    ensures Matches(Star(a), v)
  {
  }

  /** A non-empty match of a star begins with a non-empty match of its argument. */
  lemma StarSplit(a: RegExp, v: Word) returns (k: nat)
    requires v != [] && Matches(Star(a), v)
    ensures 0 < k <= |v| && Matches(a, v[..k]) && Matches(Star(a), v[k..])
  {
    k :| 0 < k <= |v| && Matches(a, v[..k]) && Matches(Star(a), v[k..]);
  }

  /** `ewp` is exactly membership of the empty word. */
  lemma {:induction false} EwpIsEmptyWord(e: RegExp)
    ensures Ewp(e) <==> Matches(e, [])
  {
    match e
    case Concat(a, b) =>
      EwpIsEmptyWord(a);
      EwpIsEmptyWord(b);
      var w: Word := [];
      assert w[..0] == [] && w[0..] == [];
    case Disj(a, b) =>
      EwpIsEmptyWord(a);
      EwpIsEmptyWord(b);
    case _ =>
  }

  /** `Any*` accepts every word. */
  lemma {:induction false} AnyStarMatchesAll(w: Word)
    ensures Matches(Star(DotAny), w)
    decreases |w|
  {
    if w != [] {
      AnyStarMatchesAll(w[1..]);
      assert Matches(DotAny, w[..1]);
    }
  }

  /** Stars of expressions with the same language have the same language. */
  lemma {:induction false} StarCongruent(a: RegExp, b: RegExp, w: Word)
    requires forall u :: Matches(a, u) <==> Matches(b, u)
    ensures Matches(Star(a), w) <==> Matches(Star(b), w)
    decreases |w|
  {
    if w != [] {
      if Matches(Star(a), w) {
        var k :| 0 < k <= |w| && Matches(a, w[..k]) && Matches(Star(a), w[k..]);
        StarCongruent(a, b, w[k..]);
        assert Matches(b, w[..k]);
      }
      if Matches(Star(b), w) {
        var k :| 0 < k <= |w| && Matches(b, w[..k]) && Matches(Star(b), w[k..]);
        StarCongruent(a, b, w[k..]);
        assert Matches(a, w[..k]);
      }
    }
  }
}
