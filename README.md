# Regex benchmark core, modelled in Dafny

This project models the core of a regular-expression benchmark. The
benchmark collects regular expressions from source code, normalises them
and rewrites them into FAdo expression trees. It then generates test words
and matches words against the trees. The model covers five parts of it.

- **The expression tree** of `benchmark/reex_ext.py` (module `RegExps`):
  - the node classes `uconcat`, `udisj`, `ustar`, `uoption`, `uepsilon` and `uemptyset`;
  - the one-symbol leaves `uatom`, `chars` and `dotany`;
  - the `anchor` leaf, an epsilon that remembers whether it was `^` or `$`.

  Symbols are integer code points and words are sequences of them. The
  predicate `Matches` gives an expression's language. It is the reference
  the operations below are proved against, so each operation is tied to
  what the expression means, not only to how the source computes it. The
  tree operations are:
  - backtracking membership `evalWordPBacktrack` (`Backtracking`);
  - Antimirov linear forms `linearForm` and their memoised form `_memoLF` (`LinearForms`);
  - pairwise test-word generation `pairGen` (`PairGeneration`);
  - the partial-match rewrite `partialMatch` with `_pmBoth`, `_pmStart`, `_pmEnd` and `_pmNeither` (`PartialMatching`);
  - rendering by `__str__` and the textual `_containsAnchor` (`Rendering`);
  - on the leaves, membership, the derivative, `next` and `intersect` (`Leaves`).
- **`RangeList`** of `benchmark/util.py` (module `RangeLists`). It is a sorted
  list of disjoint inclusive ranges, modelled as a class whose `items` field
  the methods `Add` and `Remove` reassign. The model also covers the binary
  search `search`, `indexOf`, `indexContains` and the two-index sweep of
  `intersection`.
- **The pre-processing of `FAdoize`** in `benchmark/convert.py` and
  `benchmark/util.py` (module `Preprocessing`):
  - the `{,n}` to `{0,n}` rewrite;
  - the loop that deletes backslashes in front of characters outside a whitelist;
  - the refusal of an empty expression;
  - the escaping of raw CR, TAB and LF.
- **The JavaScript literal scanner** `get_line_expression` of
  `benchmark/sample.py` (module `JsScanner`).

The source's integer successor and predecessor on code points are +1 and
-1; integers are unbounded. The `*AsWritten` members follow the code.
Where the code breaks what its documentation or its tests promise, the rest
of the model follows the promise, and "## Findings" pairs the two. So
`Leaves.NextInClass` follows the "ascending" documented for `next`.
`PartialMatching.PartialRewrite` follows the language that the
`partialMatch` docstring gives. `RangeLists.RangeList.Add` and `Remove`
follow the tests of `RangeList`.

## Model

| member | source | states |
|---|---|---|
| RegExps.EwpIsEmptyWord | benchmark/reex_ext.py:49-50 | `ewp` holds exactly when the expression matches the empty word, which is what the empty-word shortcut of `evalWordPBacktrack` relies on |
| RegExps.ConcatSplit | benchmark/reex_ext.py:218-221 | a word matched by a concatenation splits into a prefix matched by the first argument and a suffix matched by the second |
| RegExps.StarSplit | benchmark/reex_ext.py:345-350 | a non-empty word matched by a star splits into a non-empty first iteration and a rest matched by the star |
| RegExps.AnyStarMatchesAll | benchmark/reex_ext.py:802-806 | `ustar(dotany())`, the padding the rewrite adds, matches every word |
| RegExps.StarCongruent | benchmark/reex_ext.py:357-376 | stars of two expressions with the same language have the same language |
| Backtracking.Backtrack | benchmark/reex_ext.py:345-350 | every remainder yielded is a suffix of the word; an option yields the word itself first and a star yields it last |
| Backtracking.BacktrackIsCorrect | benchmark/reex_ext.py:218-221 | a word r is yielded by `_backtrackMatch` exactly when some prefix of the word matches the expression and r is what follows it |
| Backtracking.LeafResidue | benchmark/reex_ext.py:729-738 | a one-symbol leaf yields the word without its first symbol exactly when it accepts that symbol |
| Backtracking.EmptyResidue | benchmark/reex_ext.py:431-432 | epsilon and anchors yield exactly the word they are given |
| Backtracking.ConcatResidueComplete | benchmark/reex_ext.py:218-221 | every remainder of a concatenation comes from a remainder of the first argument fed to the second |
| Backtracking.StarResidueComplete | benchmark/reex_ext.py:345-350 | every remainder of a star other than the word itself comes from a strictly shorter remainder of one iteration |
| Backtracking.EmptyResidueIsMatch | benchmark/reex_ext.py:52-55 | the empty remainder is yielded exactly when the whole word matches |
| Backtracking.EvalWordPBacktrack | benchmark/reex_ext.py:35-55 | `evalWordPBacktrack` returns True exactly when the expression matches the word |
| Backtracking.BacktrackAsWritten | benchmark/reex_ext.py:218-221 | the source's `_backtrackMatch` on the whole tree, with every star as written; whenever the depth bound is enough, it yields suffixes of the word, an option yielding the word itself first |
| Backtracking.StarBacktrackAsWritten | benchmark/reex_ext.py:345-350 | as written, the star yields suffixes of the word, the word itself last, whenever the depth bound is enough |
| Backtracking.StarEachAsWritten | benchmark/reex_ext.py:346-348 | as written, repeating the star on each remainder yields at least one word per remainder, each a suffix of a remainder |
| Backtracking.BacktrackAsWrittenAgrees | benchmark/reex_ext.py:345-350 | when no star in the expression has an argument that matches the empty word and the depth bound exceeds the word's length, the source's matcher returns, and yields exactly the corrected matcher's remainders |
| Backtracking.StarAsWrittenAgrees | benchmark/reex_ext.py:345-350 | the star case of the agreement: a star whose argument does not match the empty word, and holds no star whose argument does, yields exactly the corrected star's remainders |
| Backtracking.BacktrackAsWrittenSound | benchmark/reex_ext.py:345-350 | whenever the source's matcher returns within the depth bound, it yields exactly the corrected matcher's remainders, so the two differ only where the source's recursion never ends |
| Backtracking.StarNoSelf | benchmark/reex_ext.py:346-347 | as written, a star on a word that its argument can leave whole never returns, whatever the depth bound |
| Backtracking.OptionStarNeverReturns | benchmark/reex_ext.py:345-350 | as written, the star's backtracking on `(c?)*` recurses on the same word again at every level, so no depth bound is enough and Python's recursion limit is reached |
| Backtracking.NestedOptionStarNeverReturns | benchmark/reex_ext.py:218-221 | as written, `(b(c?)*)*` on "b" never returns, although the outer star's argument does not match the empty word: the concatenation hands the empty word to the inner `(c?)*` |
| LinearForms.LinearFormOf | benchmark/reex_ext.py:492-493 | every head of a linear form is a one-symbol leaf |
| LinearForms.LinearFormIsCorrect | benchmark/reex_ext.py:165-185 | a word matches an expression exactly when it is empty and the expression has the empty word, or a head of the linear form accepts its first symbol and one of that head's tails matches the rest |
| LinearForms.ConcatLinearForm | benchmark/reex_ext.py:165-185 | a non-empty word matches a concatenation exactly when the concatenation's linear form accepts it |
| LinearForms.StarLinearForm | benchmark/reex_ext.py:293-306 | a non-empty word matches a star exactly when the star's linear form accepts it |
| LinearForms.TailsMatch | benchmark/reex_ext.py:168-176 | the tails followed by x accept a word exactly when a head accepts its first symbol and a tail followed by x matches the rest |
| LinearForms.MergeMatches | benchmark/reex_ext.py:177-183 | the head-wise union of two linear forms accepts exactly what either form accepts |
| LinearForms.TailSetLoop | benchmark/reex_ext.py:170-176 | the inner loop builds the set of every tail followed by the second argument, with the empty set and epsilon simplified |
| LinearForms.TailsLoop | benchmark/reex_ext.py:168-176 | the outer loop gives each head its set of tails followed by the second argument |
| LinearForms.MergeLoop | benchmark/reex_ext.py:177-183 | the merging loop computes the head-wise union of the two forms |
| LinearForms.ComputeLinearForm | benchmark/reex_ext.py:165-185 | the loops of `linearForm` compute the linear form |
| LinearForms.CacheInsert | benchmark/reex_ext.py:186-207 | storing a correct linear form keeps the memo correct and extends the memo it started from |
| LinearForms.LinearFormCache.constructor | benchmark/reex_ext.py:186-188 | the memo starts valid and empty |
| LinearForms.LinearFormCache.MemoLF | benchmark/reex_ext.py:186-207 | afterwards the expression is in the memo with its linear form, every earlier entry is kept, and an expression already memoised leaves the memo unchanged |
| PairGeneration.Join | benchmark/reex_ext.py:337 | joining a one-word chain gives that word |
| PairGeneration.FullTableBalanced | benchmark/reex_ext.py:329 | the initial table, which lets every word be followed by every word, gives each word as many predecessors as successors |
| PairGeneration.PopBalanced | benchmark/reex_ext.py:339-341 | taking the pair (last, y) out of the table keeps only the chain's two ends out of balance |
| PairGeneration.StuckAtStart | benchmark/reex_ext.py:333-338 | a chain can only get stuck at the word it started from, and then the table is balanced again |
| PairGeneration.JoinInStar | benchmark/reex_ext.py:337 | a chain of words each matched by the argument is matched by the star |
| PairGeneration.ChainedInStar | benchmark/reex_ext.py:326-343 | every chained word is in the star's language |
| PairGeneration.AllChained | benchmark/reex_ext.py:326-343 | once no start word is left, every ordered pair of argument words appears next to each other in a generated word |
| PairGeneration.StarWords | benchmark/reex_ext.py:326-343 | the star's words include the empty word and every argument word; every other word is a chain of argument words; every ordered pair of argument words is covered |
| PairGeneration.ConcatWords | benchmark/reex_ext.py:209-216 | the concatenation's words are exactly every prefix word followed by every suffix word |
| PairGeneration.LeafWords | benchmark/reex_ext.py:568-569 | a leaf generates one word: the least symbol it accepts, as `next` finds it |
| PairGeneration.ConcatWordsMatch | benchmark/reex_ext.py:209-216 | every prefix word followed by every suffix word matches the concatenation, and there is one unless the concatenation holds the empty set |
| PairGeneration.PairGen | benchmark/reex_ext.py:15-23 | the words are a set `pairGen` returns for the expression, case by case: none for the empty set, the empty word for epsilon and anchors, a leaf's first symbol, exactly every prefix-suffix pair for a concatenation, the union for a disjunction, the empty word and the argument's words for an option, and for a star the empty word, the argument's words and chains of them in which every ordered pair of argument words stands side by side; every word matches the expression, the empty word is there when the expression has it, and something is there unless the expression holds the empty set |
| PartialMatching.PartialRewrite | benchmark/reex_ext.py:802-821 | the rewrite fails on the empty set; an anchor in a position where neither side may run on raises an anchor error; without anchors and the empty set it succeeds |
| PartialMatching.PadIsPartialMatch | benchmark/reex_ext.py:579-589 | a leaf padded with `Any*` on the free sides matches exactly the words in which the leaf matches a factor allowed by the mode |
| PartialMatching.ConcatPartialSound | benchmark/reex_ext.py:229-239 | partial matches of the two arguments under the modes a concatenation hands down join into a partial match of the concatenation |
| PartialMatching.ConcatPartialComplete | benchmark/reex_ext.py:229-239 | every partial match of a concatenation splits into partial matches of its arguments under the modes it hands down |
| PartialMatching.DisjPartial | benchmark/reex_ext.py:269-279 | a disjunction matches partially exactly when one of its arguments does |
| PartialMatching.OptPartial | benchmark/reex_ext.py:407-417 | an option matches partially exactly when its argument or epsilon does |
| PartialMatching.StarRewriteExact | benchmark/reex_ext.py:357-376 | the star's rewrite matches exactly the partial matches of the star |
| PartialMatching.RewriteIsExact | benchmark/reex_ext.py:113-128 | without anchors and the empty set, the rewrite in mode m matches exactly the words in which the expression matches a factor that may start late only if m frees the left side and end early only if m frees the right side |
| PartialMatching.StartAnchoredIsPrefixMatch | benchmark/reex_ext.py:802-806 | `^e` rewritten matches exactly the words that have a prefix matched by e |
| PartialMatching.EndAnchoredIsSuffixMatch | benchmark/reex_ext.py:814-818 | `e$` rewritten matches exactly the words that have a suffix matched by e |
| PartialMatching.FullyAnchoredIsMatch | benchmark/reex_ext.py:802-821 | `^e$` rewritten matches exactly the words e matches |
| PartialMatching.StarMatchesEverywhere | benchmark/reex_ext.py:357-374 | a star rewritten with a free side matches every word, because the star matches the empty word |
| PartialMatching.OptMatchesEverywhere | benchmark/reex_ext.py:407-414 | an option rewritten with a free side matches every word, because the option matches the empty word |
| PartialMatching.PartialMatch | benchmark/reex_ext.py:113-128 | a successful call gives a rewritten pattern; a second call without `force` is refused |
| PartialMatching.PartialMatchOnce | benchmark/reex_ext.py:113-128 | the first call accepts exactly the words with a factor matched by the expression; a second call is refused without `force`, and with it rewrites the already rewritten expression, as the stored bound `partialMatch` of the returned object would |
| PartialMatchingAsWritten.PartialRewriteAsWritten | benchmark/reex_ext.py:113-128 | as written, the rewrite fails on the empty set and on an anchor where neither side may run on, and succeeds without anchors and the empty set |
| PartialMatchingAsWritten.PartialMatchAsWritten | benchmark/reex_ext.py:120-127 | as written, a call on an already rewritten pattern with no argument or with `force` as a keyword raises TypeError; a first call on an expression without anchors and the empty set succeeds and marks the pattern rewritten |
| PartialMatchingAsWritten.OptionLosesPadding | benchmark/reex_ext.py:407-414 | as written, `a?` rewritten for partial matching rejects "b", which contains the empty factor; the corrected rewrite accepts it |
| PartialMatchingAsWritten.AnchoredStarLosesPadding | benchmark/reex_ext.py:357-362 | as written, `(^a)*` rewritten rejects "b"; the corrected rewrite accepts it |
| PartialMatchingAsWritten.ClassStarLosesPadding | benchmark/reex_ext.py:146-151 | as written, `[<A]*` is taken for an anchored star and loses its padding; the corrected rewrite pads it |
| PartialMatchingAsWritten.SecondCallFails | benchmark/reex_ext.py:120-127 | as written, a second `partialMatch` with no argument or with `force` as a keyword fails with a TypeError whatever `force` says; the corrected one succeeds with `force` |
| Rendering.Render | benchmark/reex_ext.py:146-151 | the text `_containsAnchor` searches is never empty |
| Rendering.ContainsAnchorText | benchmark/reex_ext.py:146-151 | an anchor is found; epsilon, the empty set, the wildcard and every atom are not taken for one |
| Rendering.AtomText | benchmark/reex_ext.py:474-484 | an atom renders as one character, or as two when it is escaped with a backslash |
| Rendering.AtomTextInjective | benchmark/reex_ext.py:474-484 | different atoms render differently |
| Rendering.RenderConcat | benchmark/reex_ext.py:162-163 | a concatenation renders as its arguments, separated by a space, in parentheses |
| Rendering.RenderDisj | benchmark/reex_ext.py:250-251 | a disjunction renders as its arguments, separated by ` + `, in parentheses |
| Rendering.AnchorIsRendered | benchmark/reex_ext.py:146-151 | every expression that holds an anchor renders with the text `<A`, so `_containsAnchor` never misses one |
| Rendering.ClassLooksLikeAnchor | benchmark/reex_ext.py:146-151 | the class `[<A]` holds no anchor, yet its text contains `<A` |
| Leaves.MakeChars | benchmark/reex_ext.py:598-631 | the class built from the given ranges has a well-formed range list covering exactly the given symbols and keeps the negation flag |
| Leaves.Contains | benchmark/reex_ext.py:644-645 | `in` on a class is range membership; a leaf accepts a symbol exactly when membership differs from negation |
| Leaves.Derivative | benchmark/reex_ext.py:647-651 | the derivative by c is epsilon or the empty set, and matches w exactly when the leaf matches c followed by w |
| Leaves.DerivativeAccepts | benchmark/reex_ext.py:489-490 | the derivative is epsilon exactly when the leaf accepts the symbol |
| Leaves.FirstUncovered | benchmark/reex_ext.py:670-682 | the first symbol at or after start that no range covers, with every symbol in between covered |
| Leaves.Next | benchmark/reex_ext.py:502-512 | `next` gives the least symbol the leaf accepts above the current one, or nothing when there is none; with no current symbol the wildcard and a negated class start at the space (32), and every leaf then gives a symbol |
| Leaves.NextInClass | benchmark/reex_ext.py:653-668 | for a positive class, the least covered symbol above the current one, or nothing |
| Leaves.NextInClassAsWritten | benchmark/reex_ext.py:655-660 | as written, a current symbol outside the class restarts at the class's first symbol |
| Leaves.NextInClassGoesBackwards | benchmark/reex_ext.py:655-660 | on `[ac]` after `b`, the code as written returns `a`, below `b`; the corrected `next` returns `c` |
| Leaves.Intersect | benchmark/reex_ext.py:684-717 | no leaf is returned exactly when the two leaves share no symbol; otherwise the leaf returned accepts exactly the symbols both accept |
| Leaves.IntersectClass | benchmark/reex_ext.py:684-717 | a class met with another leaf: nothing exactly when they share no symbol, otherwise a leaf accepting exactly the common symbols |
| Leaves.Difference | benchmark/reex_ext.py:705-711 | the ranges removed one by one leave exactly the symbols of the first list outside the second |
| Leaves.Union | benchmark/reex_ext.py:688-693 | the ranges added one by one give exactly the symbols of either list, which is what two negated classes exclude together |
| LeavesAsWritten.IntersectNegatedAsWritten | benchmark/reex_ext.py:688-693 | as written, two negated classes meet as the negation of the intersection of what they exclude |
| LeavesAsWritten.NegatedClassesLoseSymbols | benchmark/reex_ext.py:688-693 | as written, `[^a]` and `[^b]` give no intersection, yet both accept `c` |
| LeavesAsWritten.DotAnyIntersectAsWritten | benchmark/reex_ext.py:773-774 | as written, the wildcard met with an anchor returns the anchor |
| LeavesAsWritten.WildcardMeetsAnchor | benchmark/reex_ext.py:773-774 | the anchor returned matches only the empty word, which the wildcard never matches |
| RangeLists.PositionCovers | benchmark/util.py:253-271 | on a well-formed list a symbol is covered exactly when the range at its search position starts at or below it |
| RangeLists.RangeList.constructor | benchmark/util.py:225-234 | a new list is empty and well formed |
| RangeLists.RangeList.Search | benchmark/util.py:253-271 | the binary search returns the index that splits the ranges ending below n from the rest; n is covered exactly when the range there starts at or below n |
| RangeLists.RangeList.IndexContains | benchmark/util.py:283-293 | true exactly when the index is in the list and its range holds n |
| RangeLists.RangeList.IndexOf | benchmark/util.py:273-281 | -1 exactly when no range holds n, otherwise the index of the range holding it |
| RangeLists.InsertInGap | benchmark/util.py:310-312 | inserting a range into the gap it fits keeps the list well formed and adds exactly its symbols |
| RangeLists.MergeBlockAll | benchmark/util.py:320-327 | replacing the block of ranges the new range overlaps by their union keeps the list well formed, adds exactly the new symbols and keeps every untouched range |
| RangeLists.RangeList.Add | benchmark/util.py:295-327 | the list stays well formed and covers exactly the old symbols plus [lo, hi]; untouched ranges are kept and the only new range holds [lo, hi] |
| RangeLists.CutBlockAll | benchmark/util.py:356-369 | cutting [lo, hi] out of the block of ranges it touches keeps the list well formed, removes exactly those symbols and keeps every untouched range |
| RangeLists.RemovedNothing | benchmark/util.py:343-345 | removing a range that touches no range leaves the list as it is |
| RangeLists.RangeList.Remove | benchmark/util.py:329-369 | the list stays well formed and covers exactly the old symbols outside [lo, hi]; untouched ranges are kept and the only new ranges are the pieces just below lo and just above hi |
| RangeLists.OverlapKept | benchmark/util.py:381-392 | a list of overlaps that covers every common symbol holds every non-empty overlap, since a symbol lies in only one range of each list |
| RangeLists.SweepAdvanceFirst | benchmark/util.py:381-390 | an iteration that moves past the range of the first list keeps the sweep's invariant: sorted non-empty overlaps below both current ranges, covering the common symbols seen so far |
| RangeLists.SweepAdvanceSecond | benchmark/util.py:381-392 | the same for an iteration that moves past the range of the second list |
| RangeLists.Intersect | benchmark/util.py:381-392 | the sweep gives a well-formed list covering exactly the symbols both lists cover, made of exactly the non-empty overlaps of a range of one list with a range of the other, adjacent overlaps kept as separate pieces |
| RangeLists.RangeList.Intersection | benchmark/util.py:371-396 | a new well-formed list covering exactly the symbols both lists cover, made of exactly the non-empty pairwise overlaps |
| RangeListsAsWritten.AddAsWritten | benchmark/util.py:295-327 | as written, `add` keeps every old symbol, covers `hi` and adds no symbol outside [lo, hi]; it does not promise to cover all of [lo, hi] or to keep the list well formed |
| RangeListsAsWritten.RemoveAsWritten | benchmark/util.py:329-369 | as written, a `remove` that does not raise adds no symbol and removes `lo`; it does not promise to remove all of [lo, hi] or to keep the list well formed |
| RangeListsAsWritten.AddAsWrittenDropsSymbols | benchmark/util.py:316-319 | as written, adding (5, 25) to [(10, 20), (30, 40)] loses the symbols 5 to 9 |
| RangeListsAsWritten.AddAsWrittenOverlaps | benchmark/util.py:316-327 | as written, `add` can leave overlapping ranges, in the "extend up" case and in the "merge" case |
| RangeListsAsWritten.RemoveAsWrittenKeepsRemoved | benchmark/util.py:353-355 | as written, removing (15, 40) from [(10, 20), (30, 40)] keeps (30, 40) |
| RangeListsAsWritten.RemoveAsWrittenIndexError | benchmark/util.py:356-364 | as written, removing (15, 25) from [(10, 20)] writes past the end of the list |
| RangeListsAsWritten.RemoveAsWrittenLeavesEmptyRange | benchmark/util.py:353-369 | as written, `remove` can leave an empty range such as (10, 9) or (101, 60) |
| JsScanner.OpeningEndAt | benchmark/sample.py:219-220 | an opening found at i ends after one of the six openings; none found means none starts at i |
| JsScanner.FindOpening | benchmark/sample.py:223-225 | the search finds an opening when the line has one at or after i, and what it finds is the leftmost one |
| JsScanner.ScanLiteral | benchmark/sample.py:231-248 | the character loop computes the recursive reading of the literal |
| JsScanner.GetLineExpression | benchmark/sample.py:222-253 | no opening gives None; an opening at the end of the line gives "EOL found"; otherwise the literal's text, "Could not find terminator" when there is no closing `/`, or IndexError when the line ends in a backslash |
| JsScanner.ScanEncode | benchmark/sample.py:231-248 | the scanner reads back any text written as a literal with every `/` escaped, whatever follows the closing `/` |
| JsScanner.ScanDecode | benchmark/sample.py:231-248 | whatever the scanner finds was written on the line as such a literal followed by the closing `/` |
| Preprocessing.DigitRun | benchmark/convert.py:88-90 | the leading digit run: all digits, followed by a non-digit or the end |
| Preprocessing.RewriteRepeats | benchmark/convert.py:88-90 | the rewrite never shortens the expression and keeps its first character |
| Preprocessing.RewriteLeavesNoBareRepeat | benchmark/convert.py:88-90 | after the rewrite no `{,n}` is left |
| Preprocessing.RewriteWithoutBareRepeat | benchmark/util.py:173-176 | an expression without `{,n}` is left unchanged |
| Preprocessing.StripEscapesLoop | benchmark/convert.py:93-105 | the escape loop computes the clean-up: a backslash before a whitelisted character is kept with it, one before anything else is dropped |
| Preprocessing.StripEscapesSound | benchmark/convert.py:93-105 | the clean-up deletes backslashes only, never lengthens the expression and leaves only whitelisted escapes |
| Preprocessing.StripEscapesFixesClean | benchmark/convert.py:93-105 | an expression whose escapes are all whitelisted is left unchanged |
| Preprocessing.StripEscapesIdempotent | benchmark/convert.py:93-105 | cleaning up twice is cleaning up once |
| Preprocessing.Preprocess | benchmark/convert.py:88-108 | the result is the cleaned-up rewrite when that is non-empty, otherwise the "Expression must have a length > 0" error, which only the empty expression gets |
| Preprocessing.StripEscapesNonEmpty | benchmark/convert.py:93-105 | the clean-up never empties a non-empty expression |
| Preprocessing.EmptyOnlyFromEmpty | benchmark/convert.py:107-108 | the rewrite and clean-up give the empty string exactly for the empty expression |
| Preprocessing.StripEscapesAsWritten | benchmark/util.py:178-190 | as written, the clean-up raises IndexError exactly when the expression ends in a backslash, and otherwise never lengthens it |
| Preprocessing.StripEscapesLoopAsWritten | benchmark/util.py:178-190 | the loop of util.py computes its recursive reading, with IndexError on a final backslash |
| Preprocessing.EscapedBackslashLosesHalf | benchmark/util.py:178-190 | as written, `a\\q` becomes `a\q`; the corrected loop keeps `a\\q` |
| Preprocessing.EscapedQuestionMarkBecomesQuantifier | benchmark/util.py:179 | as written, `a\?` becomes the quantified `a?`; the corrected loop keeps `a\?` |
| Preprocessing.TrailingBackslashRaises | benchmark/util.py:180-190 | as written, `a\` raises IndexError; the corrected loop keeps it |
| Preprocessing.PreprocessAsWritten | benchmark/util.py:173-202 | the util.py pre-processing: IndexError from the loop, the empty-expression error, or the cleaned-up rewrite |
| Preprocessing.ReplaceChar | benchmark/convert.py:32-34 | `str.replace` of a character leaves text without it unchanged, leaves none of it when the replacement has none, and brings in only other characters of the text and the replacement's |
| Preprocessing.EscapeControls | benchmark/convert.py:32-34 | after the three replacements no CR, TAB or LF is left, and the only new characters are the backslash and the letters r, t and n |
| Preprocessing.EscapeChar | benchmark/convert.py:31-34 | each character escapes to itself or a two-character escape, and never to CR, TAB or LF |
| Preprocessing.EscapeControlsPerChar | benchmark/convert.py:32-34 | the three chained replacements escape each character on its own |
| Preprocessing.EscapeControlsRemovesControls | benchmark/convert.py:32-34 | no CR, TAB or LF is left, and text without them is unchanged |

## Left out

- I/O is not modelled. This covers the database, the console, the graphviz `display`/`_dotFormat`, the NodeJS subprocess that parses the expression after pre-processing, and UTF-8 encoding and decoding.
- The regex library's `search` for the scanner's start pattern is modelled as the leftmost occurrence of one of the six literal openings.
- NFA construction (`toInvariantNFA`, `nfaThompson`, Glushkov steps), `random` and `stringLength` are not part of this model. They are outside the matching and generation core.
- The linear forms of disjunction, option, epsilon and the empty set, `ewp`, `epsilonP` and `emptysetP` come from the FAdo base classes, which are not part of this model. They are given their standard definitions.
- Leaves.Next: code points are unbounded, so `chr` overflow past the last code point is not modelled. The negated class's final `return None`, which no input reaches, is not modelled either.
- Leaves.MakeChars: the empty positive class is excluded by `WellFormedLeaves`; `chars.next` would return None on it.
- Rendering.Render: a class renders from its sorted, merged range list. That is the text `chars` gives when it is built from a `RangeList` or copied (benchmark/reex_ext.py:609-615 and 633-639). A class built by the parser from its symbols keeps them as written in `val` (benchmark/reex_ext.py:616-629), in their order and with duplicates. So `[A-Z<]` is `[A-Z<]` in the source and `[<A-Z]` here. `ContainsAnchorText`, and with it `PartialRewriteAsWritten`, then differ from the source on such classes: `[A-Z<]*` is taken for an anchored star here and padded in the source. The corrected rewrite does not use the text and is not affected.
- Backtracking.Backtrack: the empty set has no `_backtrackMatch` in the source (it raises NotImplementedError), so it is a precondition here.
- Backtracking.Backtrack: it returns the remainders as a sequence, not as a lazy generator. The corrected star recurses only on strictly shorter remainders.
- Backtracking.OptionStarNeverReturns: the as-written matcher is modelled with a depth bound (`fuel`) on how often a star recurses on its own remainders, since an unbounded recursion has no Dafny value. It states that no bound is enough; in the source the recursion ends when Python's recursion limit raises RuntimeError, which the model's None for every bound stands for.
- Backtracking.BacktrackAsWritten: it enumerates every remainder, so it is None as soon as any branch of the enumeration does not return. The source's generator is lazy, and `evalWordPBacktrack` stops at the first empty remainder, so the source can return True before it reaches such a branch. The model does not capture that order of evaluation.
- PartialMatching.PartialRewrite: `uemptyset` has no rewrite in the source. It gives a `NotImplemented` error here.
- PartialMatching.PartialMatch: the source replaces `partialMatch` on the returned object. This is modelled as a `rewritten` flag on the pattern.
- RangeLists.RangeList.constructor: the optional iterable argument is not taken. Building a class from its ranges is `Leaves.MakeChars`, which adds them one by one.
- PartialMatchingAsWritten.PartialMatchAsWritten: the `force` parameter stands for a second call with no argument or with `force` as a keyword, which raises TypeError. A second call that passes one positional argument binds it to `_noRecall`'s `self` instead (benchmark/reex_ext.py:120-127). It then raises the "You should not call partialMatch" Exception when the first call's `force` was false, and an AttributeError when it was true. That call form is not modelled, because the model has no value for `self`.
- RangeLists.RangeList.Intersection: the TypeError for an argument that is not a `RangeList` is ruled out by Dafny's types.
- PairGeneration.StarWords: `cross[last].pop()` takes an unspecified element; the model picks any element. The contract holds for every choice.
- PairGeneration.PairGen: the words of a star depend on which element `pop` takes, so `PairWords` relates an expression to every set `pairGen` may return rather than naming one. How many words are generated is not stated.
- Rendering.AtomText: code points that are not Unicode scalar values render as U+FFFD.

## Findings

| source | as written | input that shows it | evidently intended | confidence | as-written member | corrected member |
|---|---|---|---|---|---|---|
| benchmark/util.py:316-319 | the "extend up" case keeps the old lower bound even when `lo` lies below it | `[(10,20),(30,40)].add(5,25)` gives `[(10,25),(30,40)]` and loses 5 to 9 | the new range starts at `min(lo, start)` | not executed | RangeListsAsWritten.AddAsWrittenDropsSymbols | RangeLists.RangeList.Add |
| benchmark/util.py:316-327 | "extend up" is also taken when `hi` ends the next range, and "merge" drops the last touched range unless `hi` ends it | `[(10,20),(30,40)].add(15,40)` gives `[(10,40),(30,40)]`; `[(10,20),(30,40),(50,60)].add(15,55)` gives `[(10,55),(50,60)]` | every overlapped range is merged into one | not executed | RangeListsAsWritten.AddAsWrittenOverlaps | RangeLists.RangeList.Add |
| benchmark/util.py:353-355 | the trim case is also taken when `hi` ends the next range, and that range is not touched | `[(10,20),(30,40)].remove(15,40)` keeps `(30,40)` | every symbol in [lo, hi] is removed | not executed | RangeListsAsWritten.RemoveAsWrittenKeepsRemoved | RangeLists.RangeList.Remove |
| benchmark/util.py:356-364 | the general case writes `self._list[lo_i + 1]` even when only one range is touched | `[(10,20)].remove(15,25)` raises IndexError | the range is trimmed to `(10,14)` | not executed | RangeListsAsWritten.RemoveAsWrittenIndexError | RangeLists.RangeList.Remove |
| benchmark/util.py:353-369 | emptied ranges are kept: the trim case never checks, and the general case checks the range at `lo_i` twice | `[(10,20),(30,40)].remove(10,25)` leaves `(10,9)`; `[(10,20),(30,40),(50,60)].remove(15,100)` leaves `(101,60)` | empty ranges are deleted | not executed | RangeListsAsWritten.RemoveAsWrittenLeavesEmptyRange | RangeLists.RangeList.Remove |
| benchmark/reex_ext.py:407-414 | an option's free-side rewrite is the argument's rewrite or a bare epsilon, with no padding around the epsilon | `a?` rewritten for partial matching rejects "b", yet the empty word is a factor of "b" | the epsilon is padded too, so the rewrite matches every word | not executed | PartialMatchingAsWritten.OptionLosesPadding | PartialMatching.OptMatchesEverywhere |
| benchmark/reex_ext.py:357-362 | a star holding an anchor is rewritten as its argument's rewrite or a bare epsilon | `(^a)*` rewritten rejects "b" | the star matches the empty word, so the rewrite matches every word | not executed | PartialMatchingAsWritten.AnchoredStarLosesPadding | PartialMatching.StarMatchesEverywhere |
| benchmark/reex_ext.py:146-151 | `_containsAnchor` looks for the text `<A` in the rendering | the class `[<A]` is taken to hold an anchor, so `[<A]*` loses its padding | an anchor node is looked for in the tree | not executed | PartialMatchingAsWritten.ClassStarLosesPadding | Rendering.AnchorIsRendered |
| benchmark/reex_ext.py:120-127 | `_noRecall` is stored on the instance, so it is called without `self` | a second `partialMatch()` or `partialMatch(force=True)` raises TypeError | refuse without `force`, and with it rewrite the rewritten expression again | not executed | PartialMatchingAsWritten.SecondCallFails | PartialMatching.PartialMatchOnce |
| benchmark/reex_ext.py:345-350 | the star recurses on every remainder of its argument, the word itself included | `(a?)*` on any word recurses on that same word at every level, until Python 2 raises `RuntimeError: maximum recursion depth exceeded`; so does `(b(c?)*)*` on "b", through its inner star | recurse only on strictly shorter remainders | not executed | Backtracking.OptionStarNeverReturns | Backtracking.BacktrackIsCorrect |
| benchmark/reex_ext.py:655-660 | a current symbol outside a positive class restarts at the class's first symbol | `[ac].next('b')` returns `a` | the least class symbol above the current one, `c` | not executed | Leaves.NextInClassGoesBackwards | Leaves.NextInClass |
| benchmark/reex_ext.py:688-693 | two negated classes are met by intersecting what they exclude | `[^a]` met with `[^b]` gives no intersection, though both accept `c` | exclude the union of what they exclude | not executed | LeavesAsWritten.NegatedClassesLoseSymbols | Leaves.IntersectClass |
| benchmark/reex_ext.py:773-774 | the wildcard excludes only exact `uepsilon`, not its subclass `anchor` | the wildcard met with `^` returns `^`, which accepts no symbol | no intersection with an anchor | not executed | LeavesAsWritten.WildcardMeetsAnchor | Leaves.Intersect |
| benchmark/util.py:178-190 | after a kept escape the search resumes at the escaped character, and a final backslash raises an uncaught IndexError | `a\\q` becomes `a\q`; `a\` raises IndexError | resume after the pair and stop at the end, as benchmark/convert.py:93-105 does | not executed | Preprocessing.EscapedBackslashLosesHalf | Preprocessing.StripEscapesLoop |
| benchmark/util.py:179 | the whitelist lacks the question mark and the vertical bar | `a\?` becomes `a?`, a quantifier | the whitelist of benchmark/convert.py:94 | not executed | Preprocessing.EscapedQuestionMarkBecomesQuantifier | Preprocessing.StripEscapesSound |
