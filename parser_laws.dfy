/**
 * How the parser treats whitespace and text that holds no selector: empty
 * text is the universal selector, text of nothing but whitespace is
 * rejected, whitespace in front of a selector is skipped, and whitespace at
 * the end is read after a path but not after a group.
 */
module SelectorParserLaws {
  import opened Wrappers
  import opened Chars
  import opened SelectorAst
  import opened SelectorPrinter
  import opened SelectorParser
  import opened SelectorRoundTrip

  predicate AllWhitespace(w: string) {
    forall i :: 0 <= i < |w| ==> IsWhitespace(w[i])
  }

  lemma {:induction false} BlankDropsToNothing(w: string)
    requires AllWhitespace(w)
    ensures DropWhitespace(w) == []
    decreases |w|
  {
    if w != [] {
      assert AllWhitespace(w[1..]) by {
        forall i | 0 <= i < |w[1..]| ensures IsWhitespace(w[1..][i]) {
          assert w[1..][i] == w[i + 1];
        }
      }
      BlankDropsToNothing(w[1..]);
    }
  }

  /** Empty text parses to the selector with no composites, which matches every context. */
  lemma ParseEmpty()
    ensures Parse("") == Some(ScopeSelector([]))
  {
    NothingToRead("");
  }

  /** Text of nothing but whitespace, at least one character of it, is rejected: no composite reads it, and it is left over. */
  lemma ParseBlank(w: string)
    requires w != [] && AllWhitespace(w)
    ensures Parse(w) == None
  {
    BlankDropsToNothing(w);
    NothingToRead(w);
  }

  /** Whitespace and newlines in front of text that starts with a composite change nothing. */
  lemma ParseLeadingWhitespace(w: string, s: string)
    requires AllWhitespace(w) && ParseComposite(s).Success?
    ensures Parse(w + s) == Parse(s)
  {
    DropWhitespaceAppend(w, s);
    assert ParseComposite(w + s) == ParseComposite(s);
  }

  /** The selector made of a single path. */
  function PathSelector(p: Path): ScopeSelector {
    ScopeSelector([Composite(Expression(false, PathTerm(p)), [])])
  }

  /** The selector made of a single group. */
  function GroupSelector(g: Group): ScopeSelector {
    ScopeSelector([Composite(Expression(false, GroupTerm(g)), [])])
  }

  /** A term that `t` starts with, no complement mark before it, and nothing but whitespace after it: one composite. */
  lemma LoneTerm(t: string, term: Term, out: string)
    requires t != [] && !IsWhitespace(t[0]) && t[0] != '-'
    requires ParseTerm(t) == Success(term, out) && DropWhitespace(out) == []
    ensures ParseComposite(t).Success?
    ensures Parse(t) == if out == [] then Some(ScopeSelector([Composite(Expression(false, term), [])])) else None
  {
    DropWhitespaceNone(t);
    assert ParseExpression(t) == Success(Expression(false, term), out);
    CompositionsStop(out);
    assert ParseComposite(t) == Success(Composite(Expression(false, term), []), out);
    MoreStop(out);
    assert [Composite(Expression(false, term), [])] + [] == [Composite(Expression(false, term), [])];
  }

  /** A path without an end anchor followed by whitespace is read as a term, whitespace included. */
  lemma PathTermThenSpace(p: Path, after: string)
    requires WellFormedPath(p) && !p.endAnchor && AllWhitespace(after)
    ensures ParseTerm(PathText(p) + after) == Success(PathTerm(p), [])
  {
    var t := PathText(p) + after;
    BlankDropsToNothing(after);
    PathRoundTrip(p, after, t);
    PathIsNoFilter(p, after, t);
  }

  /** A path without an end anchor and with only whitespace after it is a whole selector. */
  lemma LonePath(p: Path, after: string)
    requires WellFormedPath(p) && !p.endAnchor && AllWhitespace(after)
    ensures ParseComposite(PathText(p) + after).Success?
    ensures Parse(PathText(p) + after) == Some(PathSelector(p))
  {
    var t := PathText(p) + after;
    PathTextStart(p, after);
    PathTermThenSpace(p, after);
    LoneTerm(t, PathTerm(p), []);
  }

  /** A lone path without an end anchor is read whatever whitespace surrounds it: the path reads the whitespace after it. */
  lemma ParsePathWithSpaces(p: Path, before: string, after: string)
    requires WellFormedPath(p) && !p.endAnchor
    requires AllWhitespace(before) && AllWhitespace(after)
    ensures Parse(before + PathText(p) + after) == Some(PathSelector(p))
  {
    var t := PathText(p) + after;
    LonePath(p, after);
    assert before + PathText(p) + after == before + t;
    ParseLeadingWhitespace(before, t);
  }

  /** After its closing parenthesis a group reads no whitespace, so a lone group followed by whitespace is rejected. */
  lemma ParseGroupThenSpace(g: Group, after: string)
    requires WellFormedSelector(g.selector) && after != [] && AllWhitespace(after)
    ensures Parse(GroupText(g) + after) == None
  {
    var t := GroupText(g) + after;
    GroupRoundTrip(g, after, t);
    GroupIsNoFilter(g, after, t);
    GroupShape(g, after);
    BlankDropsToNothing(after);
    assert ParseTerm(t) == Success(GroupTerm(g), after);
    LoneTerm(t, GroupTerm(g), after);
  }

  /** The same group with nothing after it is accepted. */
  lemma ParseGroupAlone(g: Group)
    requires WellFormedSelector(g.selector)
    ensures Parse(GroupText(g)) == Some(GroupSelector(g))
  {
    var sel := GroupSelector(g);
    var c := sel.composites[0];
    assert WellFormedComposite(c);
    assert CompositeText(c) == GroupText(g) by {
      assert ExpressionText(c.base) == GroupText(g);
      assert CompositionsText(c, 0) == "";
    }
    assert SelectorText(sel) == GroupText(g);
    ParsePrinted(sel);
  }
}
