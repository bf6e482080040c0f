/**
 * The string pre-processing that runs before an expression is handed to
 * the JavaScript parser (`Converter.FAdoize` in benchmark/convert.py and
 * `FAdoize` in benchmark/util.py), and the control-character escaping of
 * `Converter.math`:
 *  - every `{,n}` becomes `{0,n}`;
 *  - a backslash in front of a character outside a whitelist is deleted;
 *  - an empty result is refused;
 *  - raw carriage returns, tabs and line feeds become `\r`, `\t` and `\n`.
 */
module Preprocessing {
  import opened Wrappers

  datatype PrepError =
    | FAdoizeError(expression: string, message: string)
    | IndexError  // raised and not caught by the escape loop of benchmark/util.py

  // ---------------------------------------------------------------------
  // `{,n}` to `{0,n}`
  // ---------------------------------------------------------------------

  predicate IsDigit(c: char) {
    '0' <= c <= '9'
  }

  /** The number of leading digits of s. */
  function DigitRun(s: string): (n: nat)
    ensures n <= |s|
    ensures forall i :: 0 <= i < n ==> IsDigit(s[i])
    ensures n < |s| ==> !IsDigit(s[n])
  {
    if s != [] && IsDigit(s[0]) then 1 + DigitRun(s[1..]) else 0
  }

  /** s starts with a run of at least one digit followed by `}`. */
  predicate DigitsThenBrace(s: string) {
    0 < DigitRun(s) < |s| && s[DigitRun(s)] == '}'
  }

  /** s starts with `{,n}` for a digit run n. */
  predicate BareRepeat(s: string) {
    |s| >= 2 && s[0] == '{' && s[1] == ',' && DigitsThenBrace(s[2..])
  }

  /** The length of the `{,n}` that s starts with. */
  function BareRepeatLength(s: string): (k: nat)
    requires BareRepeat(s)
    ensures 3 < k <= |s| && s[k - 1] == '}'
  {
    DigitRun(s[2..]) + 3
  }

  predicate HasBareRepeat(s: string) {
    exists i :: 0 <= i < |s| && BareRepeat(s[i..])
  }

  /**
   * The `regex.sub` of `\{,[0-9]+\}`: matches are replaced left to right,
   * each by `{0,` and its digits and `}`.
   */
  function RewriteRepeats(s: string): (t: string)
    ensures |s| <= |t|
    ensures s != [] ==> t != [] && t[0] == s[0]
    decreases |s|
  {
    if s == [] then []
    else if BareRepeat(s) then
      var k := BareRepeatLength(s);
      "{0," + s[2..k - 1] + "}" + RewriteRepeats(s[k..])
    else [s[0]] + RewriteRepeats(s[1..])
  }

  /** The rewrite keeps the leading digit run and what follows it. */
  lemma {:induction false} RewriteKeepsDigitRun(u: string)
    ensures DigitRun(RewriteRepeats(u)) == DigitRun(u)
    ensures DigitRun(u) < |u| ==> DigitRun(u) < |RewriteRepeats(u)| && RewriteRepeats(u)[DigitRun(u)] == u[DigitRun(u)]
    decreases |u|
  {
    if u != [] && IsDigit(u[0]) {
      assert !BareRepeat(u);
      var t := RewriteRepeats(u[1..]);
      RewriteKeepsDigitRun(u[1..]);
      assert ([u[0]] + t)[1..] == t;
      assert u[1..][DigitRun(u) - 1..] == u[DigitRun(u)..];
    }
  }

  lemma DigitsThenBracePreserved(u: string)
    ensures DigitsThenBrace(RewriteRepeats(u)) <==> DigitsThenBrace(u)
  {
    RewriteKeepsDigitRun(u);
  }

  /** The rewrite leaves no `{,n}` behind. */
  lemma {:induction false} RewriteLeavesNoBareRepeat(s: string)
    ensures !HasBareRepeat(RewriteRepeats(s))
    decreases |s|
  {
    if s == [] {
    } else if BareRepeat(s) {
      var k := BareRepeatLength(s);
      RewriteLeavesNoBareRepeat(s[k..]);
      RewrittenRepeatClean(s);
    } else {
      RewriteLeavesNoBareRepeat(s[1..]);
      CopiedCharClean(s);
    }
  }

  /** The case of `RewriteLeavesNoBareRepeat` where s starts with a `{,n}`. */
  lemma RewrittenRepeatClean(s: string)
    requires BareRepeat(s)
    requires !HasBareRepeat(RewriteRepeats(s[BareRepeatLength(s)..]))
    ensures !HasBareRepeat(RewriteRepeats(s))
  {
    var t := RewriteRepeats(s);
    var k := BareRepeatLength(s);
    var tail := RewriteRepeats(s[k..]);
    var head := "{0," + s[2..k - 1] + "}";
    assert t == head + tail;
    forall i | 0 <= i < |t| ensures !BareRepeat(t[i..]) {
      if i == 0 {
        assert t[1] == '0';
      } else if i < |head| {
        assert t[i] == head[i];
        assert t[i] != '{' by {
          if i >= 3 && i < |head| - 1 {
            assert head[i] == s[2..k - 1][i - 3] == s[i - 1];
            assert IsDigit(s[2..][i - 3]);
          }
        }
      } else {
        assert t[i..] == tail[i - |head|..];
        assert !BareRepeat(tail[i - |head|..]);
      }
    }
  }

  /** The case of `RewriteLeavesNoBareRepeat` where the first character of s is copied. */
  lemma CopiedCharClean(s: string)
    requires s != [] && !BareRepeat(s)
    requires !HasBareRepeat(RewriteRepeats(s[1..]))
    ensures !HasBareRepeat(RewriteRepeats(s))
  {
    var t := RewriteRepeats(s);
    var tail := RewriteRepeats(s[1..]);
    assert t == [s[0]] + tail;
    CopiedCharNotBare(s);
    forall i | 1 <= i < |t| ensures !BareRepeat(t[i..]) {
      assert t[i..] == tail[i - 1..];
      assert !BareRepeat(tail[i - 1..]);
    }
    assert t[0..] == t;
  }

  /** A copied first character does not start a `{,n}` in the result either. */
  lemma CopiedCharNotBare(s: string)
    requires s != [] && !BareRepeat(s)
    ensures !BareRepeat(RewriteRepeats(s))
  {
    var t := RewriteRepeats(s);
    var tail := RewriteRepeats(s[1..]);
    assert t == [s[0]] + tail;
    if |t| >= 2 && t[0] == '{' && t[1] == ',' {
      assert tail[0] == ',' == s[1];
      var rest := RewriteRepeats(s[2..]);
      assert !BareRepeat(s[1..]);
      assert tail == [','] + rest;
      assert t[2..] == rest;
      assert s[2..] == s[1..][1..];
      DigitsThenBracePreserved(s[2..]);
    }
  }

  /** Without a `{,n}` the rewrite changes nothing. */
  lemma {:induction false} RewriteWithoutBareRepeat(s: string)
    requires !HasBareRepeat(s)
    ensures RewriteRepeats(s) == s
    decreases |s|
  {
    if s != [] {
      assert !BareRepeat(s[0..]);
      assert s[0..] == s;
      forall i | 0 <= i < |s[1..]| ensures !BareRepeat(s[1..][i..]) {
        assert s[1..][i..] == s[i + 1..];
      }
      RewriteWithoutBareRepeat(s[1..]);
    }
  }

  // ---------------------------------------------------------------------
  // The escape clean-up
  // ---------------------------------------------------------------------

  /** Characters a backslash may precede in benchmark/convert.py. */
  const Valids: set<char> :=
    {'s', 'S', 'w', 'W', 'd', 'D', 't', 'n', 'r', 'f', 'v', 'u', 'U', '\\', '^', '$', '.', '(', ')', '[', '-', ']', '+', '*', '?', '|', '{', '}', 'b', 'B', '0', '1', '2', '3', '4', '5', '6', '7', '8', '9'}

  /** The same whitelist in benchmark/util.py, which lacks `?` and `|`. */
  const UtilValids: set<char> :=
    {'s', 'S', 'w', 'W', 'd', 'D', 't', 'n', 'r', 'f', 'v', 'u', 'U', '\\', '-', '^', '$', '.', '(', ')', '[', ']', '+', '*', '{', '}', 'b', 'B', '0', '1', '2', '3', '4', '5', '6', '7', '8', '9'}

  /**
   * The escape clean-up of benchmark/convert.py as a recursive definition:
   * a backslash before a valid character is kept with it, a backslash
   * before anything else is dropped, and a final backslash stays.
   */
  function StripEscapes(s: string): string
    decreases |s|
  {
    if s == [] then []
    else if s[0] == '\\' then
      if |s| == 1 then s
      else if s[1] in Valids then s[..2] + StripEscapes(s[2..])
      else StripEscapes(s[1..])
    else [s[0]] + StripEscapes(s[1..])
  }

  /** The first backslash at or after `from` (`str.index`; None where it raises ValueError). */
  function FindBackslash(s: string, from: nat): (r: Option<nat>)
    ensures r.Some? ==> from <= r.value < |s| && s[r.value] == '\\'
    ensures forall j :: from <= j < |s| && (r.None? || j < r.value) ==> s[j] != '\\'
    decreases |s| - from
  {
    if from >= |s| then None
    else if s[from] == '\\' then Some(from)
    else FindBackslash(s, from + 1)
  }

  /** Characters that are not backslashes pass through the clean-up unchanged. */
  lemma {:induction false} StripSkipsPlain(s: string, k: nat)
    requires k <= |s| && forall j :: 0 <= j < k ==> s[j] != '\\'
    ensures StripEscapes(s) == s[..k] + StripEscapes(s[k..])
    decreases k
  {
    if k > 0 {
      StripSkipsPlain(s[1..], k - 1);
      assert s[1..][k - 1..] == s[k..];
      assert s[..k] == [s[0]] + s[1..][..k - 1];
    }
  }

  /** The search for the next backslash skips plain characters. */
  lemma StripToBackslash(e: string, i: nat, index: nat)
    requires i <= index <= |e| && forall j :: i <= j < index ==> e[j] != '\\'
    ensures e[..i] + StripEscapes(e[i..]) == e[..index] + StripEscapes(e[index..])
  {
    StripSkipsPlain(e[i..], index - i);
    assert e[i..][index - i..] == e[index..];
    assert e[..i] + e[i..][..index - i] == e[..index];
  }

  /** One step of the loop at a backslash that has a successor. */
  lemma StripAtBackslash(e: string, index: nat)
    requires index + 1 < |e| && e[index] == '\\'
    ensures e[index + 1] in Valids ==>
      e[..index] + StripEscapes(e[index..]) == e[..index + 2] + StripEscapes(e[index + 2..])
    ensures e[index + 1] !in Valids ==>
      var shorter := e[..index] + e[index + 1..];
      && |shorter| == |e| - 1
      && e[..index] + StripEscapes(e[index..]) == shorter[..index] + StripEscapes(shorter[index..])
  {
    var t := e[index..];
    assert t[1..] == e[index + 1..] && t[2..] == e[index + 2..];
    if e[index + 1] in Valids {
      assert t[..2] == e[index..index + 2];
      assert e[..index] + e[index..index + 2] == e[..index + 2];
    } else {
      var shorter := e[..index] + e[index + 1..];
      assert shorter[..index] == e[..index] && shorter[index..] == e[index + 1..];
    }
  }

  /** The loop ends when no backslash is left, or only a final one. */
  lemma StripFinished(e: string, i: nat)
    requires i <= |e|
    requires forall j :: i <= j < |e| - 1 ==> e[j] != '\\'
    ensures e[..i] + StripEscapes(e[i..]) == e
  {
    if i < |e| && e[|e| - 1] == '\\' {
      StripToBackslash(e, i, |e| - 1);
      assert e[|e| - 1..] == ['\\'];
      assert e[..|e| - 1] + e[|e| - 1..] == e;
    } else {
      StripToBackslash(e, i, |e|);
      assert e[|e|..] == [];
      assert e[..|e|] == e;
    }
  }

  /** The escape loop of benchmark/convert.py, proved to compute `StripEscapes`. */
  method StripEscapesLoop(s: string) returns (expression: string)
    ensures expression == StripEscapes(s)
  {
    expression := s;
    var i: nat := 0;
    while true
      invariant i <= |expression|
      invariant StripEscapes(s) == expression[..i] + StripEscapes(expression[i..])
      decreases 2 * |expression| - i
    {
      var found := FindBackslash(expression, i);
      if found.None? {
        StripFinished(expression, i);
        break;
      }
      var index := found.value;
      StripToBackslash(expression, i, index);
      if index + 1 >= |expression| {
        StripFinished(expression, i);
        break;
      }
      StripAtBackslash(expression, index);
      if expression[index + 1] !in Valids {
        expression := expression[..index] + expression[index + 1..];
        i := index;
      } else {
        i := index + 2;
      }
    }
  }

  /** Every backslash is the first of a valid pair or the last character. */
  predicate CleanEscapes(s: string)
    decreases |s|
  {
    if s == [] then true
    else if s[0] == '\\' then |s| == 1 || (s[1] in Valids && CleanEscapes(s[2..]))
    else CleanEscapes(s[1..])
  }

  /** s with every backslash deleted. */
  function DropBackslashes(s: string): (t: string)
    ensures forall c :: c in t ==> c in s && c != '\\'
  {
    if s == [] then [] else (if s[0] == '\\' then [] else [s[0]]) + DropBackslashes(s[1..])
  }

  lemma {:induction false} DropBackslashesAppend(a: string, b: string)
    ensures DropBackslashes(a + b) == DropBackslashes(a) + DropBackslashes(b)
  {
    if a != [] {
      assert (a + b)[0] == a[0] && (a + b)[1..] == a[1..] + b;
      DropBackslashesAppend(a[1..], b);
      var h: string := if a[0] == '\\' then [] else [a[0]];
      assert DropBackslashes(a + b) == h + DropBackslashes(a[1..] + b);
      assert DropBackslashes(a) == h + DropBackslashes(a[1..]);
    } else {
      assert a + b == b;
    }
  }

  /**
   * The clean-up deletes backslashes only (everything else is kept, in
   * order), never lengthens the expression and leaves only clean escapes.
   */
  lemma {:induction false} StripEscapesSound(s: string)
    ensures DropBackslashes(StripEscapes(s)) == DropBackslashes(s)
    ensures |StripEscapes(s)| <= |s|
    ensures CleanEscapes(StripEscapes(s))
    decreases |s|
  {
    if s == [] {
    } else if s[0] == '\\' {
      if |s| == 1 {
      } else if s[1] in Valids {
        StripEscapesSound(s[2..]);
        var t := StripEscapes(s[2..]);
        DropBackslashesAppend(s[..2], t);
        DropBackslashesAppend(s[..2], s[2..]);
        assert s[..2] + s[2..] == s;
        assert (s[..2] + t)[2..] == t;
      } else {
        StripEscapesSound(s[1..]);
      }
    } else {
      StripEscapesSound(s[1..]);
      var t := StripEscapes(s[1..]);
      assert ([s[0]] + t)[1..] == t;
    }
  }

  /** A clean expression is left as it is, so the clean-up is idempotent. */
  lemma {:induction false} StripEscapesFixesClean(s: string)
    requires CleanEscapes(s)
    ensures StripEscapes(s) == s
    decreases |s|
  {
    if s != [] {
      if s[0] == '\\' {
        if |s| > 1 {
          StripEscapesFixesClean(s[2..]);
          assert s[..2] + s[2..] == s;
        }
      } else {
        StripEscapesFixesClean(s[1..]);
        assert [s[0]] + s[1..] == s;
      }
    }
  }

  lemma StripEscapesIdempotent(s: string)
    ensures StripEscapes(StripEscapes(s)) == StripEscapes(s)
  {
    StripEscapesSound(s);
    StripEscapesFixesClean(StripEscapes(s));
  }

  /**
   * The pre-processing of `Converter.FAdoize`: the `{,n}` rewrite, the
   * escape clean-up, and the refusal of an empty result.
   */
  method Preprocess(expression: string) returns (r: Result<string, PrepError>)
    ensures r.Ok? <==> StripEscapes(RewriteRepeats(expression)) != []
    ensures r.Ok? ==> r.value == StripEscapes(RewriteRepeats(expression)) && CleanEscapes(r.value)
    ensures r.Err? ==> r.error == FAdoizeError([], "Expression must have a length > 0")
    ensures r.Err? <==> expression == []
  {
    var rewritten := RewriteRepeats(expression);
    var cleaned := StripEscapesLoop(rewritten);
    StripEscapesSound(rewritten);
    EmptyOnlyFromEmpty(expression);
    if |cleaned| == 0 {
      return Err(FAdoizeError(cleaned, "Expression must have a length > 0"));
    }
    r := Ok(cleaned);
  }

  /**
   * Cleaning never empties a non-empty string: a valid pair is kept, a
   * lone trailing backslash is kept, and an invalid pair keeps the escaped
   * character.
   */
  lemma {:induction false} StripEscapesNonEmpty(s: string)
    requires s != []
    ensures StripEscapes(s) != []
    decreases |s|
  {
    if s[0] == '\\' && |s| > 1 && s[1] !in Valids {
      StripEscapesNonEmpty(s[1..]);
    }
  }

  /** Only the empty expression reaches the "length > 0" error. */
  lemma EmptyOnlyFromEmpty(s: string)
    ensures StripEscapes(RewriteRepeats(s)) == [] <==> s == []
  {
    if s != [] {
      StripEscapesNonEmpty(RewriteRepeats(s));
    }
  }

  // ---------------------------------------------------------------------
  // The escape loop of benchmark/util.py, as written
  // ---------------------------------------------------------------------

  /**
   * The escape loop of benchmark/util.py: after a valid pair the search
   * resumes at the escaped character itself, so an escaped backslash is
   * read again as the start of an escape; a final backslash raises
   * IndexError, which is not caught.
   */
  function StripEscapesAsWritten(s: string): (r: Result<string, PrepError>)
    ensures r.Err? ==> r.error == IndexError
    ensures r.Err? <==> s != [] && s[|s| - 1] == '\\'
    ensures r.Ok? ==> |r.value| <= |s|
    decreases |s|
  {
    if s == [] then Ok([])
    else if s[0] == '\\' then
      if |s| == 1 then Err(IndexError)
      else if s[1] in UtilValids then
        var rest := StripEscapesAsWritten(s[1..]);
        if rest.Ok? then Ok([s[0]] + rest.value) else rest
      else StripEscapesAsWritten(s[1..])
    else
      var rest := StripEscapesAsWritten(s[1..]);
      if rest.Ok? then Ok([s[0]] + rest.value) else rest
  }

  /** A result with p in front of its text; an error passes through. */
  function Prefixed(p: string, r: Result<string, PrepError>): Result<string, PrepError> {
    if r.Ok? then Ok(p + r.value) else r
  }

  lemma PrefixedNothing(r: Result<string, PrepError>)
    ensures Prefixed([], r) == r
  {
    if r.Ok? {
      assert [] + r.value == r.value;
    }
  }

  lemma PrefixedTwice(p: string, q: string, r: Result<string, PrepError>)
    ensures Prefixed(p, Prefixed(q, r)) == Prefixed(p + q, r)
  {
    if r.Ok? {
      assert p + (q + r.value) == (p + q) + r.value;
    }
  }

  /** Non-backslash characters pass through the loop as written unchanged. */
  lemma {:induction false} AsWrittenSkipsPlain(s: string, k: nat)
    requires k <= |s| && forall j :: 0 <= j < k ==> s[j] != '\\'
    ensures StripEscapesAsWritten(s) == Prefixed(s[..k], StripEscapesAsWritten(s[k..]))
    decreases k
  {
    if k > 0 {
      AsWrittenSkipsPlain(s[1..], k - 1);
      assert s[1..][k - 1..] == s[k..];
      assert s[..k] == [s[0]] + s[1..][..k - 1];
      PrefixedTwice([s[0]], s[1..][..k - 1], StripEscapesAsWritten(s[k..]));
    } else {
      assert s[..0] == [] && s[0..] == s;
      PrefixedNothing(StripEscapesAsWritten(s));
    }
  }

  lemma AsWrittenToBackslash(e: string, i: nat, index: nat)
    requires i <= index <= |e| && forall j :: i <= j < index ==> e[j] != '\\'
    ensures Prefixed(e[..i], StripEscapesAsWritten(e[i..])) == Prefixed(e[..index], StripEscapesAsWritten(e[index..]))
  {
    AsWrittenSkipsPlain(e[i..], index - i);
    assert e[i..][index - i..] == e[index..];
    assert e[..i] + e[i..][..index - i] == e[..index];
    PrefixedTwice(e[..i], e[i..][..index - i], StripEscapesAsWritten(e[index..]));
  }

  lemma AsWrittenAtBackslash(e: string, index: nat)
    requires index + 1 < |e| && e[index] == '\\'
    ensures e[index + 1] in UtilValids ==>
      Prefixed(e[..index], StripEscapesAsWritten(e[index..])) == Prefixed(e[..index + 1], StripEscapesAsWritten(e[index + 1..]))
    ensures e[index + 1] !in UtilValids ==>
      var shorter := e[..index] + e[index + 1..];
      && |shorter| == |e| - 1
      && Prefixed(e[..index], StripEscapesAsWritten(e[index..])) == Prefixed(shorter[..index], StripEscapesAsWritten(shorter[index..]))
  {
    var t := e[index..];
    assert t[1..] == e[index + 1..];
    if e[index + 1] in UtilValids {
      assert e[..index] + [t[0]] == e[..index + 1];
      PrefixedTwice(e[..index], [t[0]], StripEscapesAsWritten(t[1..]));
    } else {
      var shorter := e[..index] + e[index + 1..];
      assert shorter[..index] == e[..index] && shorter[index..] == e[index + 1..];
    }
  }

  lemma AsWrittenFinished(e: string, i: nat)
    requires i <= |e| && forall j :: i <= j < |e| ==> e[j] != '\\'
    ensures Prefixed(e[..i], StripEscapesAsWritten(e[i..])) == Ok(e)
  {
    AsWrittenToBackslash(e, i, |e|);
    assert e[|e|..] == [] && e[..|e|] == e;
    assert e + [] == e;
  }

  lemma AsWrittenTrailing(e: string, i: nat)
    requires i < |e| && e[|e| - 1] == '\\' && forall j :: i <= j < |e| - 1 ==> e[j] != '\\'
    ensures Prefixed(e[..i], StripEscapesAsWritten(e[i..])) == Err(IndexError)
  {
    AsWrittenToBackslash(e, i, |e| - 1);
    assert e[|e| - 1..] == ['\\'];
  }

  /** The loop of benchmark/util.py, proved to compute `StripEscapesAsWritten`. */
  method StripEscapesLoopAsWritten(s: string) returns (r: Result<string, PrepError>)
    ensures r == StripEscapesAsWritten(s)
  {
    var expression := s;
    var i: nat := 0;
    assert expression[..0] == [] && expression[0..] == expression;
    PrefixedNothing(StripEscapesAsWritten(expression));
    while true
      invariant i <= |expression|
      invariant StripEscapesAsWritten(s) == Prefixed(expression[..i], StripEscapesAsWritten(expression[i..]))
      decreases 2 * |expression| - i
    {
      var found := FindBackslash(expression, i);
      if found.None? {
        AsWrittenFinished(expression, i);
        return Ok(expression);
      }
      var index := found.value;
      AsWrittenToBackslash(expression, i, index);
      if index + 1 >= |expression| {
        AsWrittenTrailing(expression, i);
        return Err(IndexError);
      }
      AsWrittenAtBackslash(expression, index);
      if expression[index + 1] !in UtilValids {
        expression := expression[..index] + expression[index + 1..];
        i := index;
      } else {
        i := index + 1;
      }
    }
  }

  /**
   * An escaped backslash before `q`: the loop as written reads the second
   * backslash as a new escape and drops it, leaving the escape `\q`; the
   * loop of benchmark/convert.py keeps the text.
   */
  lemma EscapedBackslashLosesHalf()
    ensures StripEscapesAsWritten("a\\\\q") == Ok("a\\q")
    ensures StripEscapes("a\\\\q") == "a\\\\q"
  {
    var s := "a\\\\q";
    assert '\\' in UtilValids && '\\' in Valids && 'q' !in UtilValids;
    assert s[1..] == "\\\\q" && s[1..][1..] == "\\q" && s[1..][1..][1..] == "q";
    assert "q"[1..] == [] && ['q'] + [] == "q";
    assert StripEscapesAsWritten("q") == Ok("q");
    assert StripEscapesAsWritten("\\q") == Ok("q");
    assert "\\\\q"[1..] == "\\q" && ['\\'] + "q" == "\\q";
    assert StripEscapesAsWritten("\\\\q") == Ok("\\q");
    assert ['a'] + "\\q" == "a\\q";
    assert s[1..][..2] == "\\\\" && s[1..][2..] == "q";
    assert StripEscapes("q") == "q";
    assert "\\\\q"[..2] + "q" == "\\\\q";
    assert StripEscapes("\\\\q") == "\\\\q";
    assert ['a'] + "\\\\q" == s;
  }

  /** An escaped `?` loses its backslash as written and becomes a quantifier. */
  lemma EscapedQuestionMarkBecomesQuantifier()
    ensures StripEscapesAsWritten("a\\?") == Ok("a?")
    ensures StripEscapes("a\\?") == "a\\?"
  {
    var t := "a\\?";
    assert '?' !in UtilValids && '?' in Valids;
    assert t[1..] == "\\?" && t[1..][1..] == "?" && "?"[1..] == [] && ['?'] + [] == "?";
    assert StripEscapesAsWritten("?") == Ok("?");
    assert StripEscapesAsWritten("\\?") == Ok("?");
    assert ['a'] + "?" == "a?";
    assert t[1..][..2] == "\\?" && t[1..][2..] == [] && "\\?" + [] == "\\?";
    assert StripEscapes("\\?") == "\\?";
    assert ['a'] + "\\?" == t;
  }

  /** A final backslash raises IndexError as written; the convert.py loop keeps it. */
  lemma TrailingBackslashRaises()
    ensures StripEscapesAsWritten("a\\") == Err(IndexError)
    ensures StripEscapes("a\\") == "a\\"
  {
    var u := "a\\";
    assert u[1..] == "\\";
  }

  /** The pre-processing of `FAdoize` in benchmark/util.py, with its escape loop as written. */
  method PreprocessAsWritten(expression: string) returns (r: Result<string, PrepError>)
    ensures var stripped := StripEscapesAsWritten(RewriteRepeats(expression));
      && (stripped.Err? ==> r == Err(IndexError))
      && (stripped.Ok? && stripped.value == [] ==> r == Err(FAdoizeError([], "Expression must have a length > 0")))
      && (stripped.Ok? && stripped.value != [] ==> r == stripped)
  {
    var rewritten := RewriteRepeats(expression);
    r := StripEscapesLoopAsWritten(rewritten);
    if r.Ok? && |r.value| == 0 {
      r := Err(FAdoizeError(r.value, "Expression must have a length > 0"));
    }
  }

  // ---------------------------------------------------------------------
  // `Converter.math`: control characters
  // ---------------------------------------------------------------------

  /** `str.replace` of one character by a string. */
  function ReplaceChar(s: string, c: char, rep: string): (r: string)
    ensures c !in s ==> r == s
    ensures c !in rep ==> c !in r
    ensures forall i :: 0 <= i < |r| ==> (r[i] in s && r[i] != c) || r[i] in rep
  {
    if s == [] then [] else (if s[0] == c then rep else [s[0]]) + ReplaceChar(s[1..], c, rep)
  }

  /** The three chained replacements of `math`. */
  function EscapeControls(s: string): (r: string)
    ensures forall d :: d in r ==> d != '\r' && d != '\t' && d != '\n'
    ensures forall d :: d in r ==> d in s || d in "\\rtn"
  {
    ReplaceChar(ReplaceChar(ReplaceChar(s, '\r', "\\r"), '\t', "\\t"), '\n', "\\n")
  }

  /** The escape of one character, the reference for the chained replacements. */
  function EscapeChar(c: char): (t: string)
    ensures 1 <= |t| <= 2
    ensures forall d :: d in t ==> d != '\r' && d != '\t' && d != '\n'
    ensures |t| == 1 <==> t == [c]
  {
    if c == '\r' then "\\r" else if c == '\t' then "\\t" else if c == '\n' then "\\n" else [c]
  }

  lemma {:induction false} ReplaceCharAppend(a: string, b: string, c: char, rep: string)
    ensures ReplaceChar(a + b, c, rep) == ReplaceChar(a, c, rep) + ReplaceChar(b, c, rep)
  {
    if a != [] {
      var head := if a[0] == c then rep else [a[0]];
      assert (a + b)[0] == a[0] && (a + b)[1..] == a[1..] + b;
      ReplaceCharAppend(a[1..], b, c, rep);
      calc {
        ReplaceChar(a + b, c, rep);
        head + ReplaceChar(a[1..] + b, c, rep);
        head + (ReplaceChar(a[1..], c, rep) + ReplaceChar(b, c, rep));
        (head + ReplaceChar(a[1..], c, rep)) + ReplaceChar(b, c, rep);
        ReplaceChar(a, c, rep) + ReplaceChar(b, c, rep);
      }
    } else {
      assert a + b == b;
    }
  }

  /** The chained replacements escape each character on its own. */
  lemma {:induction false} EscapeControlsPerChar(s: string)
    ensures s != [] ==> EscapeControls(s) == EscapeChar(s[0]) + EscapeControls(s[1..])
  {
    if s != [] {
      var c := s[0];
      assert s == [c] + s[1..];
      var r1a := ReplaceChar([c], '\r', "\\r");
      var r1b := ReplaceChar(s[1..], '\r', "\\r");
      ReplaceCharAppend([c], s[1..], '\r', "\\r");
      var r2a := ReplaceChar(r1a, '\t', "\\t");
      var r2b := ReplaceChar(r1b, '\t', "\\t");
      ReplaceCharAppend(r1a, r1b, '\t', "\\t");
      ReplaceCharAppend(r2a, r2b, '\n', "\\n");
      assert ReplaceChar(ReplaceChar(r1a, '\t', "\\t"), '\n', "\\n") == EscapeChar(c) by {
        assert ([c])[1..] == [];
        if c == '\r' {
          assert r1a == "\\r";
          assert "\\r"[1..] == "r" && "r"[1..] == [];
        } else if c == '\t' {
          assert r1a == [c];
          assert r2a == "\\t";
          assert "\\t"[1..] == "t" && "t"[1..] == [];
        } else if c == '\n' {
          assert r1a == [c] && r2a == [c];
        } else {
          assert r1a == [c] && r2a == [c];
        }
      }
    }
  }

  /** After `math`'s escaping no carriage return, tab or line feed is left, and other text is untouched. */
  lemma {:induction false} EscapeControlsRemovesControls(s: string)
    ensures forall c :: c in EscapeControls(s) ==> c != '\r' && c != '\t' && c != '\n'
    ensures (forall i :: 0 <= i < |s| ==> s[i] != '\r' && s[i] != '\t' && s[i] != '\n') ==> EscapeControls(s) == s
  {
    if s == [] {
    } else {
      EscapeControlsPerChar(s);
      EscapeControlsRemovesControls(s[1..]);
      if forall i :: 0 <= i < |s| ==> s[i] != '\r' && s[i] != '\t' && s[i] != '\n' {
        assert forall i :: 0 <= i < |s[1..]| ==> s[1..][i] == s[i + 1];
        assert [s[0]] + s[1..] == s;
      }
    }
  }
}
