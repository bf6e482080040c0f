/**
 * Extraction of a JavaScript regular-expression literal from a line of
 * code (`JavaScriptSampler.get_line_expression` in benchmark/sample.py):
 * find the first `.search(/`, `.replace(/`, `.test(/`, `.split(/`,
 * `.match(/` or `.matchAll(/`, then copy characters up to the first `/`
 * that does not follow a backslash, turning `\/` into `/` and keeping every
 * other backslash pair as it is.
 */
module JsScanner {
  import opened Wrappers

  /** What the call can raise: `InvalidExpressionError` with its message, or an `IndexError`. */
  datatype ScanError = InvalidExpression(message: string) | IndexError

  /** The outcome of the character loop. */
  datatype Scanned =
    | Found(expr: string)  // a terminating `/` was reached
    | Unterminated         // the line ended first
    | CutEscape            // the line ended right after a backslash

  /** The openings the start pattern accepts, the `.` and the `(/` included. */
  const Openings: seq<string> :=
    [".search(/", ".replace(/", ".test(/", ".split(/", ".match(/", ".matchAll(/"]

  /** The end of an opening that starts at i, if one does. */
  function OpeningEndAt(line: string, i: nat): (r: Option<nat>)
    requires i <= |line|
    ensures r.Some? ==> i < r.value <= |line| && line[i..r.value] in Openings
    ensures r.None? ==> forall p :: p in Openings && i + |p| <= |line| ==> line[i..i + |p|] != p
  {
    OpeningEndFrom(line, i, 0)
  }

  function OpeningEndFrom(line: string, i: nat, n: nat): (r: Option<nat>)
    requires i <= |line| && n <= |Openings|
    ensures r.Some? ==> i < r.value <= |line| && line[i..r.value] in Openings
    ensures r.None? ==> forall k :: n <= k < |Openings| && i + |Openings[k]| <= |line| ==> line[i..i + |Openings[k]|] != Openings[k]
    decreases |Openings| - n
  {
    if n == |Openings| then None
    else
      var p := Openings[n];
      if i + |p| <= |line| && line[i..i + |p|] == p then Some(i + |p|)
      else OpeningEndFrom(line, i, n + 1)
  }

  /**
   * The leftmost match of the start pattern at or after i (the regex
   * library's `search`), given by where the match ends.
   */
  function FindOpening(line: string, i: nat): (r: Option<nat>)
    requires i <= |line|
    ensures r.Some? ==> exists j ::
              && i <= j <= |line| && OpeningEndAt(line, j) == r
              && forall k :: i <= k < j ==> OpeningEndAt(line, k).None?
    ensures forall j :: i <= j <= |line| && OpeningEndAt(line, j).Some? ==> r.Some?
    decreases |line| - i
  {
    var here := OpeningEndAt(line, i);
    if here.Some? then here
    else if i == |line| then None
    else FindOpening(line, i + 1)
  }

  /** Adds p in front of a found expression; failures pass through. */
  function Prepend(p: string, r: Scanned): Scanned {
    if r.Found? then Found(p + r.expr) else r
  }

  /** The character loop, as a recursive definition over what is left of the line. */
  function Scan(s: string): Scanned {
    if s == [] then Unterminated
    else if s[0] == '\\' then
      if |s| < 2 then CutEscape
      else Prepend(if s[1] == '/' then "/" else s[..2], Scan(s[2..]))
    else if s[0] == '/' then Found("")
    else Prepend([s[0]], Scan(s[1..]))
  }

  /** The character loop of `get_line_expression`, proved to compute `Scan`. */
  method ScanLiteral(rest: string) returns (r: Scanned)
    ensures r == Scan(rest)
  {
    var expression := "";
    var i := 0;
    var success := false;
    while i < |rest|
      invariant 0 <= i <= |rest|
      invariant Scan(rest) == Prepend(expression, Scan(rest[i..]))
    {
      var c := rest[i];
      if c == '\\' {
        if i + 1 >= |rest| {
          return CutEscape;
        }
        ScanPair(rest, i);
        if rest[i + 1] == '/' {
          PrependTwice(expression, [rest[i + 1]], Scan(rest[i + 2..]));
          expression := expression + [rest[i + 1]];
        } else {
          PrependTwice(expression, [c, rest[i + 1]], Scan(rest[i + 2..]));
          expression := expression + [c, rest[i + 1]];
        }
        i := i + 1;
      } else if c == '/' {
        success := true;
        break;
      } else {
        ScanOne(rest, i);
        PrependTwice(expression, [c], Scan(rest[i + 1..]));
        expression := expression + [c];
      }
      i := i + 1;
    }
    if !success {
      return Unterminated;
    }
    r := Found(expression);
  }

  /** One step of `Scan` over an escape pair that starts at i. */
  lemma ScanPair(s: string, i: nat)
    requires i + 1 < |s| && s[i] == '\\'
    ensures Scan(s[i..]) == Prepend(if s[i + 1] == '/' then [s[i + 1]] else [s[i], s[i + 1]], Scan(s[i + 2..]))
  {
    assert s[i..][2..] == s[i + 2..];
    assert s[i..][..2] == [s[i], s[i + 1]];
  }

  /** One step of `Scan` over an ordinary character at i. */
  lemma ScanOne(s: string, i: nat)
    requires i < |s| && s[i] != '\\' && s[i] != '/'
    ensures Scan(s[i..]) == Prepend([s[i]], Scan(s[i + 1..]))
  {
    assert s[i..][1..] == s[i + 1..];
  }

  /** Prepending twice is prepending the concatenation. */
  lemma PrependTwice(p: string, q: string, r: Scanned)
    ensures Prepend(p, Prepend(q, r)) == Prepend(p + q, r)
  {
    if r.Found? {
      assert p + (q + r.expr) == (p + q) + r.expr;
    }
  }

  /**
   * `get_line_expression`: None when no opening is on the line, an
   * `InvalidExpressionError` when nothing follows the opening or no
   * terminator does, an `IndexError` when the line ends inside an escape,
   * and otherwise the literal's text.
   */
  method GetLineExpression(line: string) returns (r: Result<Option<string>, ScanError>)
    ensures FindOpening(line, 0).None? <==> r == Ok(None)
    ensures FindOpening(line, 0).Some? && FindOpening(line, 0).value == |line| ==>
      r == Err(InvalidExpression("EOL found, expected the expression"))
    ensures FindOpening(line, 0).Some? && FindOpening(line, 0).value < |line| ==>
      var s := Scan(line[FindOpening(line, 0).value..]);
      && (s.Found? ==> r == Ok(Some(s.expr)))
      && (s.Unterminated? ==> r == Err(InvalidExpression("Could not find terminator of the expression")))
      && (s.CutEscape? ==> r == Err(IndexError))
  {
    var m := FindOpening(line, 0);
    if m.None? {
      return Ok(None);
    }
    var end := line[m.value..];
    if |end| == 0 {
      return Err(InvalidExpression("EOL found, expected the expression"));
    }
    var s := ScanLiteral(end);
    match s
    case Found(x) => r := Ok(Some(x));
    case Unterminated => r := Err(InvalidExpression("Could not find terminator of the expression"));
    case CutEscape => r := Err(IndexError);
  }

  /**
   * Texts a literal can stand for: every backslash begins a pair whose
   * second character is not `/` (a `\/` in the code has become `/`).
   */
  predicate WellEscaped(x: string) {
    if x == [] then true
    else if x[0] == '\\' then |x| >= 2 && x[1] != '/' && WellEscaped(x[2..])
    else WellEscaped(x[1..])
  }

  /** How the text x is written inside a literal: each `/` gets a backslash in front. */
  function Encode(x: string): (s: string)
    requires WellEscaped(x)
  {
    if x == [] then []
    else if x[0] == '\\' then x[..2] + Encode(x[2..])
    else if x[0] == '/' then "\\/" + Encode(x[1..])
    else [x[0]] + Encode(x[1..])
  }

  /** The scanner reads back any encoded text, whatever follows its terminator. */
  lemma {:induction false} ScanEncode(x: string, rest: string)
    requires WellEscaped(x)
    ensures Scan(Encode(x) + "/" + rest) == Found(x)
  {
    if x == [] {
      assert (Encode(x) + "/" + rest)[0] == '/';
    } else if x[0] == '\\' {
      ScanEncode(x[2..], rest);
      ScanEncodePair(x, rest);
    } else if x[0] == '/' {
      ScanEncode(x[1..], rest);
      ScanEncodeSlash(x, rest);
    } else {
      ScanEncode(x[1..], rest);
      ScanEncodeChar(x, rest);
    }
  }

  /** The step of `ScanEncode` over an escape pair. */
  lemma ScanEncodePair(x: string, rest: string)
    requires WellEscaped(x) && x != [] && x[0] == '\\'
    requires Scan(Encode(x[2..]) + "/" + rest) == Found(x[2..])
    ensures Scan(Encode(x) + "/" + rest) == Found(x)
  {
    var t := Encode(x[2..]) + "/" + rest;
    assert Encode(x) + "/" + rest == x[..2] + t;
    ScanPrefix(x[..2], t);
    assert x[..2] + x[2..] == x;
  }

  /** The step of `ScanEncode` over a slash, written `\/`. */
  lemma ScanEncodeSlash(x: string, rest: string)
    requires WellEscaped(x) && x != [] && x[0] == '/'
    requires Scan(Encode(x[1..]) + "/" + rest) == Found(x[1..])
    ensures Scan(Encode(x) + "/" + rest) == Found(x)
  {
    var t := Encode(x[1..]) + "/" + rest;
    assert Encode(x) + "/" + rest == "\\/" + t;
    ScanPrefix("\\/", t);
    assert [x[0]] + x[1..] == x;
  }

  /** The step of `ScanEncode` over any other character. */
  lemma ScanEncodeChar(x: string, rest: string)
    requires WellEscaped(x) && x != [] && x[0] != '\\' && x[0] != '/'
    requires Scan(Encode(x[1..]) + "/" + rest) == Found(x[1..])
    ensures Scan(Encode(x) + "/" + rest) == Found(x)
  {
    var t := Encode(x[1..]) + "/" + rest;
    assert Encode(x) + "/" + rest == [x[0]] + t;
    ScanPrefix([x[0]], t);
    assert [x[0]] + x[1..] == x;
  }

  /** Scanning past a leading piece p of one or two characters. */
  lemma ScanPrefix(p: string, t: string)
    requires p == "\\/" || (|p| == 2 && p[0] == '\\' && p[1] != '/') || (|p| == 1 && p[0] != '\\' && p[0] != '/')
    ensures Scan(p + t) == Prepend(if p == "\\/" then "/" else p, Scan(t))
  {
    var s := p + t;
    if |p| == 2 {
      assert s[0] == '\\' && s[1] == p[1] && s[..2] == p && s[2..] == t;
    } else {
      assert s[0] == p[0] && s[1..] == t;
    }
  }

  /**
   * Whatever the scanner finds is such a text, and the line holds its
   * encoding followed by the terminator.
   */
  lemma {:induction false} ScanDecode(s: string) returns (rest: string)
    requires Scan(s).Found?
    ensures WellEscaped(Scan(s).expr)
    ensures s == Encode(Scan(s).expr) + "/" + rest
  {
    var x := Scan(s).expr;
    if s[0] == '\\' {
      rest := ScanDecode(s[2..]);
      var y := Scan(s[2..]).expr;
      if s[1] == '/' {
        assert x == "/" + y;
        assert x[1..] == y;
      } else {
        assert x == s[..2] + y;
        assert x[..2] == s[..2] && x[2..] == y;
      }
    } else if s[0] == '/' {
      rest := s[1..];
    } else {
      rest := ScanDecode(s[1..]);
      var y := Scan(s[1..]).expr;
      assert x == [s[0]] + y && x[1..] == y;
    }
  }
}
