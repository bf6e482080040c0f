/**
 * Rendering of the expression tree (`__str__` in benchmark/reex_ext.py and
 * FAdo's text for epsilon and the empty set), and `_containsAnchor`, which
 * looks for the text "<A" in that rendering.
 */
module Rendering {
  import opened RangeLists
  import opened RegExps

  /** A Unicode scalar value, the code points a Dafny `char` can hold. */
  predicate IsScalar(c: int) {
    0 <= c < 0xD800 || 0xE000 <= c < 0x11_0000
  }

  /** The character for code point c; other integers render as U+FFFD. */
  function CharOf(c: int): char {
    if IsScalar(c) then c as char else '�'
  }

  /** The text of an atom: the seven operator characters get a backslash, CR, LF and TAB their two-character escapes. */
  function AtomText(c: int): (t: string)
    ensures 1 <= |t| <= 2
    ensures |t| == 2 ==> t[0] == '\\'
  {
    var ch := CharOf(c);
    if ch in "()[]+*?" then ['\\', ch]
    else if ch == '\r' then "\\r"
    else if ch == '\n' then "\\n"
    else if ch == '\t' then "\\t"
    else [ch]
  }

  /** The listed ranges of a class, a single symbol or `lo-hi` each, unescaped. */
  function RangesText(rs: seq<Range>): string {
    if rs == [] then ""
    else
      (if rs[0].lo == rs[0].hi then [CharOf(rs[0].lo)] else [CharOf(rs[0].lo), '-', CharOf(rs[0].hi)])
      + RangesText(rs[1..])
  }

  /** The text of the tree, never empty. */
  function Render(e: RegExp): (t: string)
    ensures t != []
  {
    match e
    case EmptySet => "@empty_set"
    case Epsilon => "@epsilon"
    case Anchor(k) => if k == StartAnchor then "<ASTART>" else "<AEND>"
    case Atom(c) => AtomText(c)
    case Chars(rs, neg) => "[" + (if neg then "^" else "") + RangesText(rs) + "]"
    case DotAny => "@any"
    case Concat(a, b) => "(" + Render(a) + " " + Render(b) + ")"
    case Disj(a, b) => "(" + Render(a) + " + " + Render(b) + ")"
    case Star(a) => Render(a) + "*"
    case Opt(a) => Render(a) + "?"
  }

  /** p occurs in s at index i. */
  predicate OccursAt(p: string, s: string, i: int) {
    0 <= i && i + |p| <= |s| && s[i..i + |p|] == p
  }

  /** p occurs in s. */
  predicate Occurs(p: string, s: string) {
    exists i :: 0 <= i <= |s| && OccursAt(p, s, i)
  }

  /**
   * `_containsAnchor`: the rendering contains "<A". An anchor is found; FAdo's
   * names for epsilon, the empty set and the wildcard hold no "<", and an
   * atom's text is one character or a backslash escape.
   */
  predicate ContainsAnchorText(e: RegExp): (found: bool)
    ensures e.Anchor? ==> found
    ensures e.EmptySet? || e.Epsilon? || e.DotAny? || e.Atom? ==> !found
  {
    var t := Render(e);
    if e.Anchor? then
      assert OccursAt("<A", t, 0);
      Occurs("<A", t)
    else if e.Atom? then
      assert forall i :: 0 <= i <= |t| && OccursAt("<A", t, i) ==> i == 0 && |t| == 2 && t[0] == '<';
      Occurs("<A", t)
    else if e.EmptySet? || e.Epsilon? || e.DotAny? then
      assert forall i :: 0 <= i < |t| ==> t[i] != '<';
      assert forall i :: 0 <= i <= |t| && OccursAt("<A", t, i) ==> t[i] == '<';
      Occurs("<A", t)
    else
      Occurs("<A", t)
  }

  lemma OccursWithin(p: string, s: string, a: string, b: string)
    requires Occurs(p, s)
    ensures Occurs(p, a + s + b)
  {
    var i :| 0 <= i <= |s| && OccursAt(p, s, i);
    assert i + |p| <= |s|;
    assert (a + s + b)[|a| + i..|a| + i + |p|] == s[i..i + |p|];
    assert OccursAt(p, a + s + b, |a| + i);
  }

  /** Escaping is unambiguous: distinct code points render as distinct atom texts. */
  lemma {:induction false} AtomTextInjective(c: int, d: int)
    requires IsScalar(c) && IsScalar(d)
    requires AtomText(c) == AtomText(d)
    ensures c == d
  {
    var t := AtomText(c);
    if |t| == 1 {
      assert t == [CharOf(c)] && t == [CharOf(d)];
    } else if t[1] == 'r' {
      assert CharOf(c) == '\r' && CharOf(d) == '\r';
    } else if t[1] == 'n' {
      assert CharOf(c) == '\n' && CharOf(d) == '\n';
    } else if t[1] == 't' {
      assert CharOf(c) == '\t' && CharOf(d) == '\t';
    } else {
      assert t[1] == CharOf(c) && t[1] == CharOf(d);
    }
  }

  /** An occurrence in a child's text is an occurrence in its parent's. */
  lemma OccursInParent(e: RegExp, child: RegExp, pre: string, post: string)
    requires ContainsAnchorText(child)
    requires Render(e) == pre + Render(child) + post
    ensures ContainsAnchorText(e)
  {
    OccursWithin("<A", Render(child), pre, post);
  }

  /** A concatenation's text, re-associated in the two ways `OccursInParent` needs. */
  lemma RenderConcat(a: RegExp, b: RegExp)
    ensures Render(Concat(a, b)) == "(" + Render(a) + (" " + Render(b) + ")")
    ensures Render(Concat(a, b)) == ("(" + Render(a) + " ") + Render(b) + ")"
  {
  }

  /** A disjunction's text, re-associated in the two ways `OccursInParent` needs. */
  lemma RenderDisj(a: RegExp, b: RegExp)
    ensures Render(Disj(a, b)) == "(" + Render(a) + (" + " + Render(b) + ")")
    ensures Render(Disj(a, b)) == ("(" + Render(a) + " + ") + Render(b) + ")"
  {
  }

  /** Every expression holding an anchor renders with "<A" in it. */
  lemma {:induction false} AnchorIsRendered(e: RegExp)
    requires HasAnchor(e)
    ensures ContainsAnchorText(e)
  {
    match e
    case Anchor(k) =>
      assert OccursAt("<A", Render(e), 0);
    case Concat(a, b) =>
      RenderConcat(a, b);
      if HasAnchor(a) {
        AnchorIsRendered(a);
        OccursInParent(e, a, "(", " " + Render(b) + ")");
      } else {
        AnchorIsRendered(b);
        OccursInParent(e, b, "(" + Render(a) + " ", ")");
      }
    case Disj(a, b) =>
      RenderDisj(a, b);
      if HasAnchor(a) {
        AnchorIsRendered(a);
        OccursInParent(e, a, "(", " + " + Render(b) + ")");
      } else {
        AnchorIsRendered(b);
        OccursInParent(e, b, "(" + Render(a) + " + ", ")");
      }
    case Star(a) =>
      AnchorIsRendered(a);
      assert Render(e) == "" + Render(a) + "*";
      OccursInParent(e, a, "", "*");
    case Opt(a) =>
      AnchorIsRendered(a);
      assert Render(e) == "" + Render(a) + "?";
      OccursInParent(e, a, "", "?");
  }

  /** The converse fails: the class `[<A]` holds no anchor but renders with "<A". */
  lemma ClassLooksLikeAnchor()
    ensures !HasAnchor(Chars([Range(60, 60), Range(65, 65)], false))
    ensures ContainsAnchorText(Chars([Range(60, 60), Range(65, 65)], false))
  {
    var e := Chars([Range(60, 60), Range(65, 65)], false);
    assert Render(e) == "[<A]";
    assert OccursAt("<A", Render(e), 1);
  }
}
