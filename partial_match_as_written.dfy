/**
 * The partial-match rewrite and `partialMatch` exactly as benchmark/reex_ext.py
 * writes them, with the inputs on which they break the promise that the
 * result accepts every text containing a match. The rest of the model uses
 * `PartialMatching.PartialRewrite` and `PartialMatching.PartialMatch`.
 */
module PartialMatchingAsWritten {
  import opened Wrappers
  import opened RegExps
  import opened Rendering
  import opened PartialMatching

  /**
   * The source's rewrite: an option, and a star whose text contains "<A",
   * become `(arg.mode + epsilon)` with a bare epsilon in every mode.
   */
  function PartialRewriteAsWritten(e: RegExp, m: Mode): (r: Result<RegExp, PmError>)
    ensures r.Ok? ==> !HasEmptySet(e)
    ensures HasAnchor(e) && m == Neither ==> r.Err?
    ensures !HasAnchor(e) && !HasEmptySet(e) ==> r.Ok?
  {
    match e
    case EmptySet => Err(NotImplemented)
    case Epsilon => Ok(Pad(e, m))
    case Atom(_) => Ok(Pad(e, m))
    case Chars(_, _) => Ok(Pad(e, m))
    case DotAny => Ok(Pad(e, m))
    case Anchor(k) => AnchorRewrite(k, m)
    case Concat(a, b) =>
      var ra := PartialRewriteAsWritten(a, ConcatModes(m).0);
      if ra.Err? then ra
      else
        var rb := PartialRewriteAsWritten(b, ConcatModes(m).1);
        if rb.Err? then rb else Ok(Concat(ra.value, rb.value))
    case Disj(a, b) =>
      var ra := PartialRewriteAsWritten(a, m);
      if ra.Err? then ra
      else
        var rb := PartialRewriteAsWritten(b, m);
        if rb.Err? then rb else Ok(Disj(ra.value, rb.value))
    case Star(a) =>
      if m == Neither then
        var ra := PartialRewriteAsWritten(a, Neither);
        if ra.Err? then ra else Ok(Star(ra.value))
      else if ContainsAnchorText(e) then
        var ra := PartialRewriteAsWritten(a, m);
        if ra.Err? then ra else Ok(Disj(ra.value, Epsilon))
      else
        var ra := PartialRewriteAsWritten(a, Neither);
        if ra.Err? then ra else Ok(Pad(Star(ra.value), m))
    case Opt(a) =>
      var ra := PartialRewriteAsWritten(a, m);
      if ra.Err? then ra else Ok(Disj(ra.value, Epsilon))
  }

  /**
   * The source's `partialMatch`: the result's `partialMatch` attribute is a
   * plain function stored on the instance, so it is called without `self`,
   * and every second call with no argument or with `force` as a keyword
   * fails with a TypeError whatever `force` says.
   */
  function PartialMatchAsWritten(p: Pattern, force: bool): (r: Result<Pattern, PmError>)
    ensures p.rewritten ==> r == Err(TypeError)
    ensures r.Ok? ==> r.value.rewritten && !HasEmptySet(p.expr)
    ensures !p.rewritten && !HasAnchor(p.expr) && !HasEmptySet(p.expr) ==> r.Ok?
  {
    if p.rewritten then Err(TypeError)
    else
      var re := PartialRewriteAsWritten(p.expr, Both);
      if re.Err? then Err(re.error) else Ok(Pattern(re.value, true))
  }

  /** The symbol 98 alone has no factor matching the atom 97. */
  lemma NoFactorOfB()
    ensures !Matches(Pad(Atom(97), Both), [98])
  {
    PadIsPartialMatch(Atom(97), Both, [98]);
    var w: Word := [98];
    forall i, j | 0 <= i <= j <= 1
      ensures !Matches(Atom(97), w[i..j])
    {
      assert w[i..j] == [] || w[i..j] == [98];
    }
  }

  /** `a?` as written rejects the text "b", which contains the empty match. */
  lemma OptionLosesPadding()
    ensures PartialRewriteAsWritten(Opt(Atom(97)), Both) == Ok(Disj(Pad(Atom(97), Both), Epsilon))
    ensures !Matches(PartialRewriteAsWritten(Opt(Atom(97)), Both).value, [98])
    ensures PartialRewrite(Opt(Atom(97)), Both).Ok?
    ensures Matches(PartialRewrite(Opt(Atom(97)), Both).value, [98])
  {
    NoFactorOfB();
    OptMatchesEverywhere(Atom(97), Both, [98]);
  }

  /** `(^a)*` as written rejects "b", though zero repetitions match anywhere. */
  lemma AnchoredStarLosesPadding()
    ensures PartialRewriteAsWritten(Star(Concat(Anchor(StartAnchor), Atom(97))), Both)
         == Ok(Disj(Concat(Anchor(StartAnchor), Concat(Atom(97), AnyStar())), Epsilon))
    ensures !Matches(PartialRewriteAsWritten(Star(Concat(Anchor(StartAnchor), Atom(97))), Both).value, [98])
    ensures PartialRewrite(Star(Concat(Anchor(StartAnchor), Atom(97))), Both).Ok?
    ensures Matches(PartialRewrite(Star(Concat(Anchor(StartAnchor), Atom(97))), Both).value, [98])
  {
    assert HasAnchor(Concat(Anchor(StartAnchor), Atom(97)));
    AnchorIsRendered(Star(Concat(Anchor(StartAnchor), Atom(97))));
    var x := Concat(Anchor(StartAnchor), Concat(Atom(97), AnyStar()));
    var w: Word := [98];
    assert !Matches(x, w) by {
      StartAnchorConcat(Concat(Atom(97), AnyStar()), w);
      forall k | 0 <= k <= 1
        ensures !Matches(Atom(97), w[..k])
      {
        assert w[..k] == [] || w[..k] == [98];
      }
    }
    StarMatchesEverywhere(Concat(Anchor(StartAnchor), Atom(97)), Both, w);
  }

  /** The class `[<A]` looks anchored to the text check, so its star loses its padding too. */
  lemma ClassStarLosesPadding()
    ensures PartialRewriteAsWritten(Star(Chars([RangeLists.Range(60, 60), RangeLists.Range(65, 65)], false)), Both)
         == Ok(Disj(Pad(Chars([RangeLists.Range(60, 60), RangeLists.Range(65, 65)], false), Both), Epsilon))
    ensures PartialRewrite(Star(Chars([RangeLists.Range(60, 60), RangeLists.Range(65, 65)], false)), Both)
         == Ok(Pad(Star(Chars([RangeLists.Range(60, 60), RangeLists.Range(65, 65)], false)), Both))
  {
    var c := Chars([RangeLists.Range(60, 60), RangeLists.Range(65, 65)], false);
    ClassLooksLikeAnchor();
    assert Render(Star(c)) == Render(c) + "*";
    assert OccursAt("<A", Render(Star(c)), 1);
  }

  /** A second keyword call fails even with `force`, where it should rewrite again. */
  lemma SecondCallFails(e: RegExp)
    requires !HasAnchor(e) && !HasEmptySet(e)
    ensures PartialMatchAsWritten(Pattern(e, true), true) == Err(TypeError)
    ensures PartialMatch(Pattern(e, true), true).Ok?
  {
  }
}
