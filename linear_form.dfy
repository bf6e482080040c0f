/**
 * Antimirov linear forms (`linearForm` and `_memoLF` in
 * benchmark/reex_ext.py). A linear form maps each head, a one-symbol leaf,
 * to the set of tails that may follow a symbol the head accepts. The
 * concatenation and star cases are the source's; the others are FAdo's
 * standard ones: disjunction merges its children's forms, an option has
 * its argument's, and epsilon, anchors and the empty set have none.
 */
module LinearForms {
  import opened RegExps

  type LinearForm = map<RegExp, set<RegExp>>

  /** A tail followed by x, simplified: the empty set stays, epsilon gives x. */
  function Tail(t: RegExp, x: RegExp): RegExp {
    if EmptySetP(t) then EmptySet
    else if EpsilonP(t) then x
    else Concat(t, x)
  }

  function TailSet(ts: set<RegExp>, x: RegExp): set<RegExp> {
    set t | t in ts :: Tail(t, x)
  }

  /** Every tail of lf followed by x. */
  function Tails(lf: LinearForm, x: RegExp): LinearForm {
    map h | h in lf :: TailSet(lf[h], x)
  }

  /** The head-wise union of two linear forms. */
  function Merge(l1: LinearForm, l2: LinearForm): LinearForm {
    map h | h in l1.Keys + l2.Keys :: (if h in l1 then l1[h] else {}) + (if h in l2 then l2[h] else {})
  }

  function LinearFormOf(e: RegExp): (lf: LinearForm)
    ensures forall h :: h in lf ==> IsSymbolLeaf(h)
  {
    match e
    case EmptySet => map[]
    case Epsilon => map[]
    case Anchor(_) => map[]
    case Atom(_) => map[e := {Epsilon}]
    case Chars(_, _) => map[e := {Epsilon}]
    case DotAny => map[e := {Epsilon}]
    case Concat(a, b) =>
      var l := Tails(LinearFormOf(a), b);
      if Ewp(a) then Merge(l, LinearFormOf(b)) else l
    case Disj(a, b) => Merge(LinearFormOf(a), LinearFormOf(b))
    case Star(a) => Tails(LinearFormOf(a), e)
    case Opt(a) => LinearFormOf(a)
  }

  /** The non-empty words a linear form accepts: a head accepting the first symbol, then a tail accepting the rest. */
  ghost predicate LfMatches(lf: LinearForm, w: Word)
    requires forall h :: h in lf ==> IsSymbolLeaf(h)
  {
    w != [] && exists h, t :: h in lf && t in lf[h] && Accepts(h, w[0]) && Matches(t, w[1..])
  }

  lemma TailMatches(t: RegExp, x: RegExp, u: Word)
    ensures Matches(Tail(t, x), u) <==> Matches(Concat(t, x), u)
  {
    if EpsilonP(t) {
      if Matches(Concat(t, x), u) {
        var k :| 0 <= k <= |u| && Matches(t, u[..k]) && Matches(x, u[k..]);
        assert k == 0 && u[k..] == u;
      }
      if Matches(x, u) {
        assert u[..0] == [] && u[0..] == u;
      }
    }
  }

  lemma TailsMatch(lf: LinearForm, x: RegExp, w: Word)
    requires forall h :: h in lf ==> IsSymbolLeaf(h)
    ensures forall h :: h in Tails(lf, x) ==> IsSymbolLeaf(h)
    ensures LfMatches(Tails(lf, x), w) <==>
      w != [] && exists h, t :: h in lf && t in lf[h] && Accepts(h, w[0]) && Matches(Concat(t, x), w[1..])
  {
    if LfMatches(Tails(lf, x), w) {
      var h, t' :| h in Tails(lf, x) && t' in Tails(lf, x)[h] && Accepts(h, w[0]) && Matches(t', w[1..]);
      var t :| t in lf[h] && t' == Tail(t, x);
      TailMatches(t, x, w[1..]);
    }
    if w != [] && exists h, t :: h in lf && t in lf[h] && Accepts(h, w[0]) && Matches(Concat(t, x), w[1..]) {
      var h, t :| h in lf && t in lf[h] && Accepts(h, w[0]) && Matches(Concat(t, x), w[1..]);
      TailMatches(t, x, w[1..]);
      assert Tail(t, x) in Tails(lf, x)[h];
    }
  }

  lemma MergeMatches(l1: LinearForm, l2: LinearForm, w: Word)
    requires forall h :: h in l1 ==> IsSymbolLeaf(h)
    requires forall h :: h in l2 ==> IsSymbolLeaf(h)
    ensures forall h :: h in Merge(l1, l2) ==> IsSymbolLeaf(h)
    ensures LfMatches(Merge(l1, l2), w) <==> LfMatches(l1, w) || LfMatches(l2, w)
  {
    if LfMatches(l1, w) {
      var h, t :| h in l1 && t in l1[h] && Accepts(h, w[0]) && Matches(t, w[1..]);
      assert t in Merge(l1, l2)[h];
    }
    if LfMatches(l2, w) {
      var h, t :| h in l2 && t in l2[h] && Accepts(h, w[0]) && Matches(t, w[1..]);
      assert t in Merge(l1, l2)[h];
    }
  }

  /** Splitting a non-empty word after the first symbol consumed by x. */
  lemma ConsumeFirst(x: RegExp, h: RegExp, t: RegExp, y: RegExp, w: Word)
    requires IsSymbolLeaf(h) && w != [] && Accepts(h, w[0])
    requires forall v :: v != [] && Accepts(h, v[0]) && Matches(t, v[1..]) ==> Matches(x, v)
    requires Matches(Concat(t, y), w[1..])
    ensures exists k :: 0 < k <= |w| && Matches(x, w[..k]) && Matches(y, w[k..])
  {
    var k' := ConcatSplit(t, y, w[1..]);
    FirstSymbolSlices(w, k' + 1);
    assert Matches(x, w[..k' + 1]);
  }

  /**
   * The linear form is correct (Antimirov): e accepts a word exactly when
   * the word is empty and e has the empty-word property, or some head
   * accepts its first symbol and a tail of that head the rest.
   */
  lemma {:induction false} LinearFormIsCorrect(e: RegExp, w: Word)
    ensures Matches(e, w) <==> (w == [] && Ewp(e)) || LfMatches(LinearFormOf(e), w)
    decreases e
  {
    EwpIsEmptyWord(e);
    match e
    case EmptySet =>
    case Epsilon =>
    case Anchor(_) =>
    case Atom(_) =>
      if w != [] { assert Matches(e, w) <==> Accepts(e, w[0]) && Matches(Epsilon, w[1..]); }
    case Chars(_, _) =>
      if w != [] { assert Matches(e, w) <==> Accepts(e, w[0]) && Matches(Epsilon, w[1..]); }
    case DotAny =>
      if w != [] { assert Matches(e, w) <==> Accepts(e, w[0]) && Matches(Epsilon, w[1..]); }
    case Disj(a, b) =>
      LinearFormIsCorrect(a, w);
      LinearFormIsCorrect(b, w);
      MergeMatches(LinearFormOf(a), LinearFormOf(b), w);
    case Opt(a) =>
      LinearFormIsCorrect(a, w);
    case Concat(a, b) =>
      if w != [] { ConcatLinearForm(a, b, w); }
    case Star(a) =>
      if w != [] { StarLinearForm(a, w); }
  }

  lemma {:induction false} ConcatLinearForm(a: RegExp, b: RegExp, w: Word)
    requires w != []
    ensures Matches(Concat(a, b), w) <==> LfMatches(LinearFormOf(Concat(a, b)), w)
    decreases Concat(a, b), 2
  {
    var la := LinearFormOf(a);
    TailsMatch(la, b, w);
    if Ewp(a) {
      MergeMatches(Tails(la, b), LinearFormOf(b), w);
    }
    if Matches(Concat(a, b), w) { ConcatLinearFormSound(a, b, w); }
    if LfMatches(LinearFormOf(Concat(a, b)), w) { ConcatLinearFormComplete(a, b, w); }
  }

  lemma {:induction false} ConcatLinearFormSound(a: RegExp, b: RegExp, w: Word)
    requires w != [] && Matches(Concat(a, b), w)
    ensures LfMatches(LinearFormOf(Concat(a, b)), w)
    decreases Concat(a, b), 1
  {
    var k := ConcatSplit(a, b, w);
    if k == 0 {
      ConcatSoundSkipFirst(a, b, w);
    } else {
      ConcatSoundThroughFirst(a, b, w, k);
    }
  }

  /** The first half matches the empty word, so the word comes from b's form. */
  lemma {:induction false} ConcatSoundSkipFirst(a: RegExp, b: RegExp, w: Word)
    requires w != [] && Matches(a, []) && Matches(b, w)
    ensures LfMatches(LinearFormOf(Concat(a, b)), w)
    decreases Concat(a, b), 0
  {
    EwpIsEmptyWord(a);
    LinearFormIsCorrect(b, w);
    MergeMatches(Tails(LinearFormOf(a), b), LinearFormOf(b), w);
  }

  /** The first half consumes w[..k], so the word comes from a's form followed by b. */
  lemma {:induction false} ConcatSoundThroughFirst(a: RegExp, b: RegExp, w: Word, k: nat)
    requires 0 < k <= |w| && Matches(a, w[..k]) && Matches(b, w[k..])
    ensures LfMatches(LinearFormOf(Concat(a, b)), w)
    decreases Concat(a, b), 0
  {
    var la := LinearFormOf(a);
    LinearFormIsCorrect(a, w[..k]);
    ThroughFirstHead(la, b, w, k);
    if Ewp(a) {
      MergeMatches(Tails(la, b), LinearFormOf(b), w);
    }
  }

  /** If a's form accepts w[..k], its tails followed by x accept w. */
  lemma ThroughFirstHead(la: LinearForm, x: RegExp, w: Word, k: nat)
    requires forall h :: h in la ==> IsSymbolLeaf(h)
    requires 0 < k <= |w| && LfMatches(la, w[..k]) && Matches(x, w[k..])
    ensures forall h :: h in Tails(la, x) ==> IsSymbolLeaf(h)
    ensures LfMatches(Tails(la, x), w)
  {
    TailsMatch(la, x, w);
    var h, t := LfChoose(la, w[..k]);
    FirstSymbolSlices(w, k);
    ConcatIntro(t, x, w[1..], k - 1);
  }

  /** Cutting the first symbol off w and off w[..k] gives matching slices. */
  lemma FirstSymbolSlices(w: Word, k: nat)
    requires 0 < k <= |w|
    ensures w[..k][0] == w[0]
    ensures w[1..][..k - 1] == w[..k][1..]
    ensures w[1..][k - 1..] == w[k..]
  {
  }

  /** A head and a tail of lf that accept v. */
  lemma LfChoose(lf: LinearForm, v: Word) returns (h: RegExp, t: RegExp)
    requires forall h :: h in lf ==> IsSymbolLeaf(h)
    requires LfMatches(lf, v)
    ensures v != [] && h in lf && t in lf[h] && Accepts(h, v[0]) && Matches(t, v[1..])
  {
    h, t :| h in lf && t in lf[h] && Accepts(h, v[0]) && Matches(t, v[1..]);
  }

  lemma {:induction false} ConcatLinearFormComplete(a: RegExp, b: RegExp, w: Word)
    requires w != [] && LfMatches(LinearFormOf(Concat(a, b)), w)
    ensures Matches(Concat(a, b), w)
    decreases Concat(a, b), 1
  {
    var la := LinearFormOf(a);
    TailsMatch(la, b, w);
    if Ewp(a) {
      MergeMatches(Tails(la, b), LinearFormOf(b), w);
    }
    if LfMatches(Tails(la, b), w) {
      var h, t :| h in la && t in la[h] && Accepts(h, w[0]) && Matches(Concat(t, b), w[1..]);
      forall v | v != [] && Accepts(h, v[0]) && Matches(t, v[1..]) ensures Matches(a, v) {
        LinearFormIsCorrect(a, v);
      }
      ConsumeFirst(a, h, t, b, w);
    } else {
      LinearFormIsCorrect(b, w);
      EwpIsEmptyWord(a);
      assert w[..0] == [] && w[0..] == w;
    }
  }

  lemma {:induction false} StarLinearForm(a: RegExp, w: Word)
    requires w != []
    ensures Matches(Star(a), w) <==> LfMatches(LinearFormOf(Star(a)), w)
    decreases Star(a), 1
  {
    if Matches(Star(a), w) { StarLinearFormSound(a, w); }
    if LfMatches(LinearFormOf(Star(a)), w) { StarLinearFormComplete(a, w); }
  }

  lemma {:induction false} StarLinearFormSound(a: RegExp, w: Word)
    requires w != [] && Matches(Star(a), w)
    ensures LfMatches(LinearFormOf(Star(a)), w)
    decreases Star(a), 0
  {
    var k := StarSplit(a, w);
    LinearFormIsCorrect(a, w[..k]);
    ThroughFirstHead(LinearFormOf(a), Star(a), w, k);
  }

  lemma {:induction false} StarLinearFormComplete(a: RegExp, w: Word)
    requires w != [] && LfMatches(LinearFormOf(Star(a)), w)
    ensures Matches(Star(a), w)
    decreases Star(a), 0
  {
    var la := LinearFormOf(a);
    TailsMatch(la, Star(a), w);
    var h, t :| h in la && t in la[h] && Accepts(h, w[0]) && Matches(Concat(t, Star(a)), w[1..]);
    forall v | v != [] && Accepts(h, v[0]) && Matches(t, v[1..]) ensures Matches(a, v) {
      LinearFormIsCorrect(a, v);
    }
    ConsumeFirst(a, h, t, Star(a), w);
  }

  /** The inner loop of `linearForm`: the tails of one head, each followed by x. */
  method TailSetLoop(ts: set<RegExp>, x: RegExp) returns (pd: set<RegExp>)
    ensures pd == TailSet(ts, x)
  {
    pd := {};
    var rest := ts;
    while rest != {}
      invariant rest <= ts
      invariant pd == TailSet(ts - rest, x)
      decreases |rest|
    {
      var t :| t in rest;
      assert TailSet(ts - (rest - {t}), x) == pd + {Tail(t, x)};
      pd := pd + {Tail(t, x)};
      rest := rest - {t};
    }
    assert ts - rest == ts;
  }

  /** The head loop of `linearForm` for a concatenation or a star: every tail of lf followed by x. */
  method TailsLoop(lf: LinearForm, x: RegExp) returns (r: LinearForm)
    ensures r == Tails(lf, x)
  {
    r := map[];
    var heads := lf.Keys;
    while heads != {}
      invariant heads <= lf.Keys
      invariant r.Keys == lf.Keys - heads
      invariant forall h :: h in r ==> r[h] == TailSet(lf[h], x)
      decreases |heads|
    {
      var h :| h in heads;
      var pd := TailSetLoop(lf[h], x);
      r := r[h := pd];
      heads := heads - {h};
    }
  }

  /** The merge after the heads of l2 outside `pending` have been added. */
  function MergedSoFar(l1: LinearForm, l2: LinearForm, pending: set<RegExp>): LinearForm {
    Merge(l1, map h | h in l2 && h !in pending :: l2[h])
  }

  lemma MergeStep(l1: LinearForm, l2: LinearForm, pending: set<RegExp>, h: RegExp)
    requires h in pending && h in l2
    ensures MergedSoFar(l1, l2, pending - {h})
         == MergedSoFar(l1, l2, pending)[h := (if h in MergedSoFar(l1, l2, pending) then MergedSoFar(l1, l2, pending)[h] else {}) + l2[h]]
  {
    var added := map g | g in l2 && g !in pending :: l2[g];
    var added' := map g | g in l2 && g !in pending - {h} :: l2[g];
    assert added'.Keys == added.Keys + {h};
    assert added' == added[h := l2[h]];
    MergeInsert(l1, added, h, l2[h]);
  }

  /** Merging one more head h (new to r) adds its tails to those l1 has under h. */
  lemma MergeInsert(l1: LinearForm, r: LinearForm, h: RegExp, v: set<RegExp>)
    requires h !in r
    ensures Merge(l1, r[h := v]) == Merge(l1, r)[h := (if h in Merge(l1, r) then Merge(l1, r)[h] else {}) + v]
  {
    var before := Merge(l1, r);
    var after := Merge(l1, r[h := v]);
    var expected := before[h := (if h in before then before[h] else {}) + v];
    assert after.Keys == expected.Keys;
    forall d | d in after ensures after[d] == expected[d] {
      if d == h {
        assert after[d] == (if h in l1 then l1[h] else {}) + v;
      } else {
        assert after[d] == before[d];
      }
    }
  }

  lemma MergeStart(l1: LinearForm, l2: LinearForm)
    ensures MergedSoFar(l1, l2, l2.Keys) == l1
  {
    var m := MergedSoFar(l1, l2, l2.Keys);
    assert m.Keys == l1.Keys;
    forall d | d in m ensures m[d] == l1[d] {
    }
  }

  lemma MergeEnd(l1: LinearForm, l2: LinearForm)
    ensures MergedSoFar(l1, l2, {}) == Merge(l1, l2)
  {
    assert (map h | h in l2 && h !in {} :: l2[h]) == l2;
  }

  /** The merge loop: each head of l2 added to r, its tails joined to any already there. */
  method MergeLoop(l1: LinearForm, l2: LinearForm) returns (r: LinearForm)
    ensures r == Merge(l1, l2)
  {
    r := l1;
    var heads := l2.Keys;
    MergeStart(l1, l2);
    while heads != {}
      invariant heads <= l2.Keys
      invariant r == MergedSoFar(l1, l2, heads)
      decreases |heads|
    {
      var h :| h in heads;
      MergeStep(l1, l2, heads, h);
      if h in r {
        r := r[h := r[h] + l2[h]];
      } else {
        r := r[h := {} + l2[h]];
      }
      heads := heads - {h};
    }
    MergeEnd(l1, l2);
  }

  /** `linearForm`, recomputed from the leaves on every call. */
  method ComputeLinearForm(e: RegExp) returns (lf: LinearForm)
    ensures lf == LinearFormOf(e)
    decreases e
  {
    match e {
      case Concat(a, b) =>
        var la := ComputeLinearForm(a);
        lf := TailsLoop(la, b);
        if Ewp(a) {
          var lb := ComputeLinearForm(b);
          lf := MergeLoop(lf, lb);
        }
      case Star(a) =>
        var la := ComputeLinearForm(a);
        lf := TailsLoop(la, e);
      case Disj(a, b) =>
        var la := ComputeLinearForm(a);
        var lb := ComputeLinearForm(b);
        lf := MergeLoop(la, lb);
      case Opt(a) =>
        lf := ComputeLinearForm(a);
      case Atom(_) => lf := map[e := {Epsilon}];
      case Chars(_, _) => lf := map[e := {Epsilon}];
      case DotAny => lf := map[e := {Epsilon}];
      case _ => lf := map[];
    }
  }

  /** Every cached form is the node's linear form. */
  ghost predicate CacheOk(memo: map<RegExp, LinearForm>) {
    forall e :: e in memo ==> memo[e] == LinearFormOf(e)
  }

  /** m1 keeps every entry of m0 unchanged. */
  ghost predicate Extends(m0: map<RegExp, LinearForm>, m1: map<RegExp, LinearForm>) {
    forall d :: d in m0 ==> d in m1 && m1[d] == m0[d]
  }

  /** Caching the linear form of a node not yet cached keeps the cache correct and its old entries. */
  lemma CacheInsert(m0: map<RegExp, LinearForm>, m: map<RegExp, LinearForm>, e: RegExp, lf: LinearForm)
    requires CacheOk(m) && Extends(m0, m) && e !in m0 && lf == LinearFormOf(e)
    ensures CacheOk(m[e := lf]) && Extends(m0, m[e := lf])
  {
  }

  /**
   * The `_lf` fields that `_memoLF` fills in, one per node, kept as a map
   * from node to linear form.
   */
  class LinearFormCache {
    var memo: map<RegExp, LinearForm>

    /** Every cached form is the node's linear form. */
    ghost predicate Valid()
      reads this
    {
      CacheOk(memo)
    }

    constructor ()
      ensures Valid() && memo == map[]
    {
      memo := map[];
    }

    /**
     * `_memoLF`: fills in the forms of e and of the children it needs,
     * returning at once if e already has one. Cached forms never change.
     */
    method MemoLF(e: RegExp)
      requires Valid()
      modifies this
      ensures Valid()
      ensures e in memo && memo[e] == LinearFormOf(e)
      ensures Extends(old(memo), memo)
      ensures e in old(memo) ==> memo == old(memo)
      decreases e
    {
      if e in memo {
        return;
      }
      ghost var m0 := memo;
      match e {
        case Concat(a, b) =>
          MemoLF(a);
          var lf := TailsLoop(memo[a], b);
          if Ewp(a) {
            ghost var m1 := memo;
            MemoLF(b);
            assert memo[a] == m1[a];
            lf := MergeLoop(lf, memo[b]);
          }
          CacheInsert(m0, memo, e, lf);
          memo := memo[e := lf];
        case Star(a) =>
          MemoLF(a);
          var lf := TailsLoop(memo[a], e);
          CacheInsert(m0, memo, e, lf);
          memo := memo[e := lf];
        case Disj(a, b) =>
          MemoLF(a);
          MemoLF(b);
          var lf := MergeLoop(memo[a], memo[b]);
          CacheInsert(m0, memo, e, lf);
          memo := memo[e := lf];
        case Opt(a) =>
          MemoLF(a);
          CacheInsert(m0, memo, e, memo[a]);
          memo := memo[e := memo[a]];
        case _ =>
          var lf := ComputeLinearForm(e);
          CacheInsert(m0, memo, e, lf);
          memo := memo[e := lf];
      }
    }
  }
}
