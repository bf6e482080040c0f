/**
 * `pairGen` of benchmark/reex_ext.py: the set of test words for pairwise
 * coverage (after Zheng et al., String Generating for Testing Regular
 * Expressions). A leaf yields its first symbol, a concatenation every
 * prefix-suffix combination, a union both sides, an option the empty word
 * besides its argument's words, and a star chains its argument's words so
 * that every ordered pair of them appears side by side in some chain.
 */
module PairGeneration {
  import opened Wrappers
  import opened RegExps
  import opened Leaves
  import opened Backtracking

  /** The concatenation of a list of words (the `reduce` over `+`). */
  function Join(ws: seq<Word>): (w: Word)
    ensures |ws| == 1 ==> w == ws[0]
  {
    if ws == [] then [] else ws[0] + Join(ws[1..])
  }

  /** Every word of the list belongs to u. */
  predicate AllIn(ws: seq<Word>, u: set<Word>) {
    forall i :: 0 <= i < |ws| ==> ws[i] in u
  }

  /** w is a concatenation of words of u. */
  ghost predicate Chained(u: set<Word>, w: Word) {
    exists ws :: AllIn(ws, u) && Join(ws) == w
  }

  /** The (key, value) pairs still in the cross table; each step of a chain removes one. */
  ghost function Pairs(cross: map<Word, set<Word>>): set<(Word, Word)> {
    set k, v | k in cross && v in cross[k] :: (k, v)
  }

  /** The table after y is popped from the set of `last`; an emptied set is deleted. */
  function Pop(cross: map<Word, set<Word>>, last: Word, y: Word): map<Word, set<Word>>
    requires last in cross
  {
    var rest := cross[last] - {y};
    if |rest| == 0 then cross - {last} else cross[last := rest]
  }

  /** Popping y from the set of `last` removes exactly one pair from the table. */
  lemma PopShrinks(cross: map<Word, set<Word>>, last: Word, y: Word)
    requires last in cross && y in cross[last]
    ensures Pairs(Pop(cross, last, y)) <= Pairs(cross) - {(last, y)}
  {
  }

  lemma SubsetSize<T>(a: set<T>, b: set<T>)
    requires a <= b
    ensures |a| <= |b|
  {
    assert b == a + (b - a);
  }

  /** Every set of the table is a non-empty set of words of u. */
  ghost predicate TableOk(u: set<Word>, cross: map<Word, set<Word>>) {
    forall k :: k in cross ==> cross[k] <= u && cross[k] != {}
  }

  /** The words so far hold every word of u, and each is a chain of words of u. */
  ghost predicate CoveredOk(u: set<Word>, covered: set<Word>) {
    u <= covered && forall w :: w in covered ==> Chained(u, w)
  }

  /** The pair (x, y) is still waiting in the cross table. */
  ghost predicate Pending(cross: map<Word, set<Word>>, x: Word, y: Word) {
    x in cross && y in cross[x]
  }

  /** The words whose set in the table holds v (v's unused predecessors). */
  ghost function Preds(cross: map<Word, set<Word>>, v: Word): set<Word> {
    set k | k in cross && v in cross[k]
  }

  /** The number of v's unused successors. */
  ghost function Succs(cross: map<Word, set<Word>>, v: Word): nat {
    if v in cross then |cross[v]| else 0
  }

  /**
   * The degree balance of a walk from `start` to `last` through a table in
   * which every word had as many predecessors as successors: only the two
   * ends are out of balance, by one each.
   */
  ghost predicate Balanced(cross: map<Word, set<Word>>, start: Word, last: Word) {
    forall v :: |Preds(cross, v)| + (if v == last then 1 else 0) == Succs(cross, v) + (if v == start then 1 else 0)
  }

  /** The full table, every word followed by every word, is in balance. */
  lemma FullTableBalanced(u: set<Word>, s: Word)
    ensures Balanced(map x | x in u :: u, s, s)
  {
    var cross := map x | x in u :: u;
    forall v ensures |Preds(cross, v)| == Succs(cross, v) {
      if v in u {
        assert Preds(cross, v) == u;
      } else {
        assert Preds(cross, v) == {};
      }
    }
  }

  /** Taking the edge from `last` to y moves the walk's open end to y. */
  lemma PopBalanced(cross: map<Word, set<Word>>, start: Word, last: Word, y: Word)
    requires last in cross && y in cross[last]
    requires Balanced(cross, start, last)
    ensures Balanced(Pop(cross, last, y), start, y)
  {
    var next := Pop(cross, last, y);
    forall v ensures |Preds(next, v)| + (if v == y then 1 else 0) == Succs(next, v) + (if v == start then 1 else 0) {
      assert |Preds(cross, v)| + (if v == last then 1 else 0) == Succs(cross, v) + (if v == start then 1 else 0);
      PopPreds(cross, last, y, v);
      PopSuccs(cross, last, y, v);
    }
  }

  /** Popping y from `last` takes `last` off y's predecessors and changes no other word's. */
  lemma PopPreds(cross: map<Word, set<Word>>, last: Word, y: Word, v: Word)
    requires last in cross && y in cross[last]
    ensures v == y ==> last in Preds(cross, v) && Preds(Pop(cross, last, y), v) == Preds(cross, v) - {last}
    ensures v != y ==> Preds(Pop(cross, last, y), v) == Preds(cross, v)
  {
  }

  /** Popping y from `last` takes one successor from `last` and none from any other word. */
  lemma PopSuccs(cross: map<Word, set<Word>>, last: Word, y: Word, v: Word)
    requires last in cross && y in cross[last]
    ensures Succs(Pop(cross, last, y), v) == Succs(cross, v) - (if v == last then 1 else 0)
  {
    assert |cross[last] - {y}| == |cross[last]| - 1;
  }

  /** A walk can only get stuck where it started. */
  lemma StuckAtStart(cross: map<Word, set<Word>>, start: Word, last: Word)
    requires Balanced(cross, start, last) && last !in cross
    ensures last == start && start !in cross
    ensures forall s :: Balanced(cross, s, s)
  {
    assert |Preds(cross, last)| + 1 == Succs(cross, last) + (if last == start then 1 else 0);
    forall s ensures Balanced(cross, s, s) {
      forall v ensures |Preds(cross, v)| + (if v == s then 1 else 0) == Succs(cross, v) + (if v == s then 1 else 0) {
        assert |Preds(cross, v)| + (if v == last then 1 else 0) == Succs(cross, v) + (if v == start then 1 else 0);
      }
    }
  }

  /** x is directly followed by y somewhere in the chain. */
  ghost predicate AdjacentIn(ws: seq<Word>, x: Word, y: Word) {
    exists i :: 0 <= i < |ws| - 1 && ws[i] == x && ws[i + 1] == y
  }

  /** Some generated word is a chain of words of u in which x is directly followed by y. */
  ghost predicate Linked(u: set<Word>, words: set<Word>, x: Word, y: Word) {
    exists ws :: AllIn(ws, u) && Join(ws) in words && AdjacentIn(ws, x, y)
  }

  /** Every pair of u is waiting, already in a generated chain, or in the current chain. */
  ghost predicate Accounted(u: set<Word>, cross: map<Word, set<Word>>, words: set<Word>, chain: seq<Word>) {
    forall x, y :: x in u && y in u ==> Pending(cross, x, y) || Linked(u, words, x, y) || AdjacentIn(chain, x, y)
  }

  /** Extending the chain with a popped successor keeps every pair accounted for. */
  lemma ChainStep(u: set<Word>, cross: map<Word, set<Word>>, words: set<Word>, chain: seq<Word>, y: Word)
    requires chain != [] && chain[|chain| - 1] in cross && y in cross[chain[|chain| - 1]]
    requires Accounted(u, cross, words, chain)
    ensures Accounted(u, Pop(cross, chain[|chain| - 1], y), words, chain + [y])
  {
    var last := chain[|chain| - 1];
    var next := Pop(cross, last, y);
    var longer := chain + [y];
    forall x, z | x in u && z in u
      ensures Pending(next, x, z) || Linked(u, words, x, z) || AdjacentIn(longer, x, z)
    {
      if x == last && z == y {
        assert longer[|chain| - 1] == x && longer[|chain|] == z;
      } else if AdjacentIn(chain, x, z) {
        var i :| 0 <= i < |chain| - 1 && chain[i] == x && chain[i + 1] == z;
        assert longer[i] == x && longer[i + 1] == z;
      }
    }
  }

  /** Adding a finished chain to the words accounts for the pairs it holds. */
  lemma ChainDone(u: set<Word>, cross: map<Word, set<Word>>, words: set<Word>, chain: seq<Word>)
    requires AllIn(chain, u) && Accounted(u, cross, words, chain)
    ensures Accounted(u, cross, words + {Join(chain)}, [])
  {
    var more := words + {Join(chain)};
    forall x, y | x in u && y in u
      ensures Pending(cross, x, y) || Linked(u, more, x, y) || AdjacentIn([], x, y)
    {
      if AdjacentIn(chain, x, y) {
        assert Join(chain) in more;
      } else if Linked(u, words, x, y) {
        var ws :| AllIn(ws, u) && Join(ws) in words && AdjacentIn(ws, x, y);
        assert Join(ws) in more;
      }
    }
  }

  /** A concatenation of words the argument matches is matched by its star. */
  lemma {:induction false} JoinInStar(a: RegExp, ws: seq<Word>)
    requires forall i :: 0 <= i < |ws| ==> Matches(a, ws[i])
    ensures Matches(Star(a), Join(ws))
  {
    if ws != [] {
      var rest := ws[1..];
      JoinInStar(a, rest);
      var w := Join(ws);
      var k := |ws[0]|;
      if k == 0 {
        assert w == Join(rest);
      } else {
        assert w[..k] == ws[0] && w[k..] == Join(rest);
        StarIntro(a, w, k);
      }
    }
  }

  /** Every chain of words matched by a is matched by a's star. */
  lemma ChainedInStar(a: RegExp, u: set<Word>, w: Word)
    requires forall x :: x in u ==> Matches(a, x)
    requires Chained(u, w)
    ensures Matches(Star(a), w)
  {
    var ws :| AllIn(ws, u) && Join(ws) == w;
    JoinInStar(a, ws);
  }

  /** What holds between two chains: todo holds the words not yet started. */
  ghost predicate BetweenChains(u: set<Word>, cross: map<Word, set<Word>>, covered: set<Word>, todo: set<Word>) {
    && todo <= u && CoveredOk(u, covered) && TableOk(u, cross)
    && (forall k :: k in cross ==> k in todo)
    && (forall s :: Balanced(cross, s, s))
    && Accounted(u, cross, covered, [])
  }

  /** What holds while the chain that began with `start` grows. */
  ghost predicate Walking(u: set<Word>, cross: map<Word, set<Word>>, covered: set<Word>, todo: set<Word>,
                          start: Word, chain: seq<Word>) {
    && |chain| > 0 && AllIn(chain, u) && todo <= u
    && CoveredOk(u, covered) && TableOk(u, cross)
    && (forall k :: k in cross ==> k in todo || k == start)
    && Balanced(cross, start, chain[|chain| - 1])
    && Accounted(u, cross, covered, chain)
  }

  lemma StartChain(u: set<Word>, cross: map<Word, set<Word>>, covered: set<Word>, todo: set<Word>, start: Word)
    requires BetweenChains(u, cross, covered, todo) && start in todo
    ensures Walking(u, cross, covered, todo - {start}, start, [start])
  {
    assert Balanced(cross, start, start);
    forall x, y | x in u && y in u
      ensures Pending(cross, x, y) || Linked(u, covered, x, y) || AdjacentIn([start], x, y)
    {
      assert Pending(cross, x, y) || Linked(u, covered, x, y) || AdjacentIn([], x, y);
    }
  }

  lemma GrowChain(u: set<Word>, cross: map<Word, set<Word>>, covered: set<Word>, todo: set<Word>,
                  start: Word, chain: seq<Word>, y: Word)
    requires Walking(u, cross, covered, todo, start, chain)
    requires chain[|chain| - 1] in cross && y in cross[chain[|chain| - 1]]
    ensures Walking(u, Pop(cross, chain[|chain| - 1], y), covered, todo, start, chain + [y])
    ensures |Pairs(Pop(cross, chain[|chain| - 1], y))| < |Pairs(cross)|
  {
    var last := chain[|chain| - 1];
    PopShrinks(cross, last, y);
    PopBalanced(cross, start, last, y);
    ChainStep(u, cross, covered, chain, y);
    assert (last, y) in Pairs(cross);
    SubsetSize(Pairs(Pop(cross, last, y)), Pairs(cross) - {(last, y)});
    var next := Pop(cross, last, y);
    var longer := chain + [y];
    assert longer[|longer| - 1] == y;
    assert AllIn(longer, u) by {
      forall i | 0 <= i < |longer| ensures longer[i] in u {
        if i < |chain| {
          assert longer[i] == chain[i];
        }
      }
    }
    assert TableOk(u, next) by {
      forall k | k in next ensures next[k] <= u && next[k] != {} {
        assert k in cross;
      }
    }
    assert forall k :: k in next ==> k in todo || k == start;
  }

  lemma EndChain(u: set<Word>, cross: map<Word, set<Word>>, covered: set<Word>, todo: set<Word>,
                 start: Word, chain: seq<Word>)
    requires Walking(u, cross, covered, todo, start, chain) && chain[|chain| - 1] !in cross
    ensures BetweenChains(u, cross, covered + {Join(chain)}, todo)
  {
    var more := covered + {Join(chain)};
    StuckAtStart(cross, start, chain[|chain| - 1]);
    ChainDone(u, cross, covered, chain);
    assert Chained(u, Join(chain));
    forall w | w in more ensures Chained(u, w) {
      if w != Join(chain) {
        assert w in covered;
      }
    }
  }

  /** Once every word has started a chain, the table is empty and every pair is linked. */
  lemma AllChained(u: set<Word>, cross: map<Word, set<Word>>, covered: set<Word>)
    requires BetweenChains(u, cross, covered, {})
    ensures forall x, y :: x in u && y in u ==> Linked(u, {[]} + covered, x, y)
  {
    forall x, y | x in u && y in u ensures Linked(u, {[]} + covered, x, y) {
      assert !Pending(cross, x, y);
      var ws :| AllIn(ws, u) && Join(ws) in covered && AdjacentIn(ws, x, y);
      assert Join(ws) in {[]} + covered;
    }
  }

  /**
   * The star's loop: each word of the argument starts a chain, which keeps
   * taking an unused successor of its last word from the cross table until
   * that word has none left; the joined chain is added to the result. Every
   * ordered pair of the argument's words ends up side by side in some chain.
   */
  method StarWords(uncovered: set<Word>) returns (words: set<Word>)
    ensures [] in words && uncovered <= words
    ensures forall w :: w in words ==> w == [] || Chained(uncovered, w)
    ensures forall x, y :: x in uncovered && y in uncovered ==> Linked(uncovered, words, x, y)
  {
    var covered := uncovered;
    forall w | w in uncovered ensures Chained(uncovered, w) {
      assert AllIn([w], uncovered) && Join([w]) == w;
    }
    var cross: map<Word, set<Word>> := map x | x in uncovered :: uncovered;
    FullTableBalanced(uncovered, []);
    var todo := uncovered;
    while todo != {}
      invariant BetweenChains(uncovered, cross, covered, todo)
      decreases |todo|
    {
      var start :| start in todo;
      StartChain(uncovered, cross, covered, todo, start);
      todo := todo - {start};
      var chain := [start];
      while true
        invariant Walking(uncovered, cross, covered, todo, start, chain)
        decreases |Pairs(cross)|
      {
        var last := chain[|chain| - 1];
        if last !in cross {
          EndChain(uncovered, cross, covered, todo, start, chain);
          covered := covered + {Join(chain)};
          break;
        }
        var y :| y in cross[last];
        GrowChain(uncovered, cross, covered, todo, start, chain, y);
        chain := chain + [y];
        cross := Pop(cross, last, y);
      }
    }
    AllChained(uncovered, cross, covered);
    words := {[]} + covered;
  }

  /** The concatenation case: every generated prefix followed by every generated suffix. */
  method ConcatWords(prefixes: set<Word>, suffixes: set<Word>) returns (words: set<Word>)
    ensures forall w :: w in words <==> exists p, s :: p in prefixes && s in suffixes && w == p + s
  {
    words := {};
    var todo := prefixes;
    while todo != {}
      invariant todo <= prefixes
      invariant forall w :: w in words <==> exists p, s :: p in prefixes - todo && s in suffixes && w == p + s
      decreases |todo|
    {
      var p :| p in todo;
      var rest := suffixes;
      ghost var before := words;
      while rest != {}
        invariant rest <= suffixes
        invariant forall w :: w in words <==> w in before || exists s :: s in suffixes - rest && w == p + s
        decreases |rest|
      {
        var s :| s in rest;
        words := words + {p + s};
        rest := rest - {s};
      }
      todo := todo - {p};
    }
  }

  /**
   * words is a set `pairGen` may return for e: nothing for the empty set,
   * the empty word for epsilon and anchors, the first symbol for a leaf,
   * exactly every prefix-suffix combination for a concatenation, the union
   * for a disjunction, the empty word besides the argument's words for an
   * option, and for a star the empty word, the argument's words and chains
   * of them in which every ordered pair of the argument's words stands side
   * by side somewhere. A star's chains depend on which successor `pop`
   * picks, so this is a relation, not a function.
   */
  ghost predicate PairWords(e: RegExp, words: set<Word>)
    decreases e
  {
    match e
    case EmptySet => words == {}
    case Epsilon => words == {[]}
    case Anchor(_) => words == {[]}
    case Atom(_) => exists c :: words == {[c]} && IsNext(e, None, Some(c))
    case Chars(_, _) => exists c :: words == {[c]} && IsNext(e, None, Some(c))
    case DotAny => exists c :: words == {[c]} && IsNext(e, None, Some(c))
    case Concat(a, b) =>
      exists prefixes, suffixes ::
        && PairWords(a, prefixes) && PairWords(b, suffixes)
        && forall w :: w in words <==> exists p, s :: p in prefixes && s in suffixes && w == p + s
    case Disj(a, b) =>
      exists left, right :: PairWords(a, left) && PairWords(b, right) && words == left + right
    case Opt(a) =>
      exists inner :: PairWords(a, inner) && words == {[]} + inner
    case Star(a) =>
      exists inner ::
        && PairWords(a, inner)
        && [] in words && inner <= words
        && (forall w :: w in words ==> w == [] || Chained(inner, w))
        && forall x, y :: x in inner && y in inner ==> Linked(inner, words, x, y)
  }

  method PairGen(e: RegExp) returns (words: set<Word>)
    requires WellFormedLeaves(e)
    ensures PairWords(e, words)
    ensures forall w :: w in words ==> Matches(e, w)
    ensures Ewp(e) ==> [] in words
    ensures !HasEmptySet(e) ==> words != {}
  {
    match e
    case EmptySet =>
      words := {};
    case Epsilon =>
      words := {[]};
    case Anchor(_) =>
      words := {[]};
    case Atom(_) =>
      words := LeafWords(e);
    case Chars(_, _) =>
      words := LeafWords(e);
    case DotAny =>
      words := LeafWords(e);
    case Concat(a, b) =>
      var prefixes := PairGen(a);
      var suffixes := PairGen(b);
      words := ConcatWords(prefixes, suffixes);
      ConcatWordsGenerated(a, b, prefixes, suffixes, words);
      ConcatWordsMatch(a, b, prefixes, suffixes, words);
    case Disj(a, b) =>
      var left := PairGen(a);
      var right := PairGen(b);
      words := left + right;
      assert PairWords(a, left) && PairWords(b, right);
    case Opt(a) =>
      var inner := PairGen(a);
      words := {[]} + inner;
      assert PairWords(a, inner);
    case Star(a) =>
      var inner := PairGen(a);
      words := StarWords(inner);
      StarWordsGenerated(a, inner, words);
  }

  /** Every prefix word followed by every suffix word is what `pairGen` returns for the concatenation. */
  lemma ConcatWordsGenerated(a: RegExp, b: RegExp, prefixes: set<Word>, suffixes: set<Word>, words: set<Word>)
    requires PairWords(a, prefixes) && PairWords(b, suffixes)
    requires forall w :: w in words <==> exists p, s :: p in prefixes && s in suffixes && w == p + s
    ensures PairWords(Concat(a, b), words)
  {
  }

  /** The concatenation's words are in its language, and it has some unless it holds the empty set. */
  lemma ConcatWordsMatch(a: RegExp, b: RegExp, prefixes: set<Word>, suffixes: set<Word>, words: set<Word>)
    requires forall w :: w in prefixes ==> Matches(a, w)
    requires forall w :: w in suffixes ==> Matches(b, w)
    requires Ewp(a) ==> [] in prefixes
    requires Ewp(b) ==> [] in suffixes
    requires !HasEmptySet(a) ==> prefixes != {}
    requires !HasEmptySet(b) ==> suffixes != {}
    requires forall w :: w in words <==> exists p, s :: p in prefixes && s in suffixes && w == p + s
    ensures forall w :: w in words ==> Matches(Concat(a, b), w)
    ensures Ewp(Concat(a, b)) ==> [] in words
    ensures !HasEmptySet(Concat(a, b)) ==> words != {}
  {
    forall w | w in words ensures Matches(Concat(a, b), w) {
      var p, s :| p in prefixes && s in suffixes && w == p + s;
      assert w[..|p|] == p && w[|p|..] == s;
      ConcatIntro(a, b, w, |p|);
    }
    if Ewp(Concat(a, b)) {
      var empty: Word := [];
      assert empty + empty == empty;
    }
    if !HasEmptySet(Concat(a, b)) {
      var p :| p in prefixes;
      var s :| s in suffixes;
      assert p + s in words;
    }
  }

  /** The star's words: what `pairGen` returns for it, all in its language. */
  lemma StarWordsGenerated(a: RegExp, inner: set<Word>, words: set<Word>)
    requires PairWords(a, inner)
    requires forall w :: w in inner ==> Matches(a, w)
    requires [] in words && inner <= words
    requires forall w :: w in words ==> w == [] || Chained(inner, w)
    requires forall x, y :: x in inner && y in inner ==> Linked(inner, words, x, y)
    ensures PairWords(Star(a), words)
    ensures forall w :: w in words ==> Matches(Star(a), w)
  {
    forall w | w in words ensures Matches(Star(a), w) {
      if w != [] {
        ChainedInStar(a, inner, w);
      }
    }
  }

  /** A leaf's words: its first symbol, as `next` with no current symbol finds it. */
  method LeafWords(e: RegExp) returns (words: set<Word>)
    requires IsSymbolLeaf(e) && WellFormedLeaves(e)
    ensures exists c :: words == {[c]} && IsNext(e, None, Some(c))
    ensures forall w :: w in words ==> |w| == 1 && Accepts(e, w[0])
  {
    var c := Next(e, None);
    words := {[c.value]};
    assert words == {[c.value]} && IsNext(e, None, Some(c.value));
  }
}
