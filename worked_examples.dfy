/**
 * Worked examples: selectors and contexts from the source's test suite,
 * with the abstract syntax each selector text parses to and the answer
 * matching gives.  Names are written as their lists of components.  Names in
 * selector text are read as alphanumeric components, so `*`, `-` and `_`
 * cannot appear in a selector; names built from a string may hold any
 * character but `.`.  Components are compared exactly, so the tests that
 * rely on a `*` wildcard are not among these.
 */
module SelectorExamples {
  import opened Wrappers
  import opened Chars
  import opened ScopeNames
  import opened Scopes
  import opened Contexts
  import opened SelectorAst
  import opened SelectorPrinter
  import opened SelectorParser
  import opened SelectorMatching
  import opened SelectorRoundTrip
  import opened SelectorParserLaws

  /** A one-component name. */
  function N(c: string): ScopeName {
    ScopeName([c])
  }

  function Transitively(c: string): Descendent {
    Descendent(Transitive, N(c))
  }

  function Directly(c: string): Descendent {
    Descendent(Direct, N(c))
  }

  /** A path without anchors. */
  function P(root: ScopeName, ds: seq<Descendent>): Path {
    Path(false, false, root, ds)
  }

  /** A plain expression around a path. */
  function E(p: Path): Expression {
    Expression(false, PathTerm(p))
  }

  /** A selector of one composite without compositions. */
  function One(e: Expression): ScopeSelector {
    ScopeSelector([Composite(e, [])])
  }

  /** A context with only a main scope. */
  function Main(names: seq<ScopeName>): Context {
    MainOnly(Scope(names))
  }

  // Parsing.

  lemma ParseLonePath()
    ensures Parse("a b cd") == Some(One(E(P(N("a"), [Transitively("b"), Transitively("cd")]))))
  {
    var sel := One(E(P(N("a"), [Transitively("b"), Transitively("cd")])));
    assert SelectorText(sel) == "a b cd";
    ParsePrinted(sel);
  }

  lemma ParseSpacedPath()
    ensures Parse(" ab ") == Some(One(E(P(N("ab"), []))))
  {
    var p := P(N("ab"), []);
    assert PathText(p) == "ab";
    assert " ab " == " " + PathText(p) + " ";
    ParsePathWithSpaces(p, " ", " ");
  }

  /** A name given by its components. */
  function Dotted(cs: seq<string>): ScopeName {
    ScopeName(cs)
  }

  function ABCD(): ScopeSelector {
    One(E(P(N("a"), [Transitively("b"), Transitively("cd")])))
  }

  function DirectPath(): ScopeSelector {
    One(E(P(N("a"), [Directly("b"), Transitively("cd"), Directly("e")])))
  }

  function AOrB(): ScopeSelector {
    ScopeSelector([Composite(E(P(N("a"), [])), [Composition(Union, E(P(N("b"), [])))])])
  }

  function AAndB(): ScopeSelector {
    ScopeSelector([Composite(E(P(N("a"), [])), [Composition(Intersection, E(P(N("b"), [])))])])
  }

  function ComplementThenDifference(): ScopeSelector {
    ScopeSelector([Composite(Expression(true, PathTerm(P(N("a"), [Transitively("b")]))), [Composition(Difference, E(P(N("c"), [])))])])
  }

  function Comma(): ScopeSelector {
    ScopeSelector([Composite(E(P(N("a"), [])), []), Composite(E(P(N("b"), [])), [])])
  }

  function LeftA(): ScopeSelector {
    One(Expression(false, FilterTerm(Filter(Left, PathOperand(P(N("a"), []))))))
  }

  function BothA(): ScopeSelector {
    One(Expression(false, FilterTerm(Filter(Both, PathOperand(P(N("a"), []))))))
  }

  /** A one-component name followed by text that ends it is read as that name. */
  lemma ParseLoneName(c: string, rest: string)
    requires IsParsable(N(c))
    requires rest == [] || (!IsAlphanumeric(rest[0]) && rest[0] != '.')
    ensures ParseScopeName(c + rest) == Success(N(c), rest)
  {
    assert N(c).Description() == c;
    ParseScopeNamePrinted(N(c), rest);
  }

  /** The descendents of `" a > b cd>e "`: `>` binds whether or not spaces surround it. */
  /** Each descendent of `" a > b cd>e "` on its own: `>` binds whether or not spaces surround it. */
  lemma DirectDescendentSteps(s: string, s1: string, s2: string, s3: string)
    requires s == " > b" + s1 && s1 == " cd" + s2 && s2 == ">e" + s3 && s3 == " "
    ensures ParseDescendent(s3).Failure?
    ensures ParseDescendent(s2) == Success(Directly("e"), s3)
    ensures ParseDescendent(s1) == Success(Transitively("cd"), s2)
    ensures ParseDescendent(s) == Success(Directly("b"), s1)
  {
    assert DropWhitespace(s3) == [];
    DirectDescendent("e", s3, s2);
    TransitiveDescendent("cd", s2, s1);
    DirectDescendent("b", s1, s);
  }

  /** Three descendents read one after another, then a text that holds none. */
  lemma ThreeDescendents(s: string, s1: string, s2: string, s3: string, x: Descendent, y: Descendent, z: Descendent)
    requires ParseDescendent(s3).Failure?
    requires ParseDescendent(s2) == Success(z, s3)
    requires ParseDescendent(s1) == Success(y, s2)
    requires ParseDescendent(s) == Success(x, s1)
    ensures ParseDescendents(s) == Success([x, y, z], s3)
  {
    assert ParseDescendents(s2) == Success([z], s3) by {
      DescendentsStop(s3);
      DescendentsStep(s2, z, s3, [], s3);
      assert [z] + [] == [z];
    }
    assert ParseDescendents(s1) == Success([y, z], s3) by {
      DescendentsStep(s1, y, s2, [z], s3);
      assert [y] + [z] == [y, z];
    }
    DescendentsStep(s, x, s1, [y, z], s3);
    assert [x] + [y, z] == [x, y, z];
  }

  /** A space, then a one-component name, is a transitive descendent. */
  lemma TransitiveDescendent(c: string, rest: string, s: string)
    requires IsParsable(N(c))
    requires rest == [] || (!IsAlphanumeric(rest[0]) && rest[0] != '.')
    requires s == " " + c + rest
    ensures ParseDescendent(s) == Success(Transitively(c), rest)
  {
    ParseLoneName(c, rest);
    NameStart(N(c));
    assert N(c).Description() == c;
    assert s[1..] == c + rest;
    DropWhitespaceNone(c + rest);
    assert DropWhitespace(s) == c + rest;
  }

  /** A `>` with optional spaces on either side, then a one-component name, is a direct descendent. */
  lemma DirectDescendent(c: string, rest: string, s: string)
    requires IsParsable(N(c))
    requires rest == [] || (!IsAlphanumeric(rest[0]) && rest[0] != '.')
    requires s == ">" + c + rest || s == " > " + c + rest
    ensures ParseDescendent(s) == Success(Directly(c), rest)
  {
    ParseLoneName(c, rest);
    NameStart(N(c));
    assert N(c).Description() == c;
    if s == ">" + c + rest {
      assert DropWhitespace(s) == s;
      assert s[1..] == c + rest;
      DropWhitespaceNone(c + rest);
    } else {
      assert DropWhitespace(s) == s[1..];
      assert s[1..][1..] == " " + c + rest;
      assert DropWhitespace(" " + c + rest) == c + rest;
      DropWhitespaceNone(c + rest);
    }
  }

  /** Without its leading space, the text is read as one path term and nothing is left. */
  lemma ParseDirectTerm(t: string, s: string)
    requires t == "a" + s && s == " > b cd>e "
    ensures ParseTerm(t) == Success(PathTerm(DirectPath().composites[0].base.term.path), [])
  {
    var p := DirectPath().composites[0].base.term.path;
    DropWhitespaceNone(t);
    assert ParsePath(t) == Success(p, []) by {
      ParseLoneName("a", s);
      DirectDescendentSteps(s, " cd>e ", ">e ", " ");
      ThreeDescendents(s, " cd>e ", ">e ", " ", Directly("b"), Transitively("cd"), Directly("e"));
      assert DropWhitespace(" ") == [];
    }
    assert ParseFilter(t).Failure? by {
      assert ParseSide(t).Failure?;
    }
    assert SelectorParser.ParseGroup(t).Failure?;
  }

  /** `" a > b cd>e "` parses to the path `a > b cd > e`. */
  lemma ParseDirectPath(text: string)
    requires text == " a > b cd>e "
    ensures Parse(text) == Some(DirectPath())
  {
    var t := text[1..];
    assert t == "a" + " > b cd>e ";
    assert ParseComposite(t).Success? && Parse(t) == Some(DirectPath()) by {
      ParseDirectTerm(t, " > b cd>e ");
      LoneTerm(t, PathTerm(DirectPath().composites[0].base.term.path), []);
    }
    assert text == [' '] + t;
    ParseLeadingWhitespace([' '], t);
  }

  lemma ParseUnion()
    ensures Parse("a | b") == Some(AOrB())
  {
    assert SelectorText(AOrB()) == "a | b";
    ParsePrinted(AOrB());
  }

  lemma ParseDifference()
    ensures Parse("- a b - c") == Some(ComplementThenDifference())
  {
    assert SelectorText(ComplementThenDifference()) == "- a b - c";
    ParsePrinted(ComplementThenDifference());
  }

  lemma ParseComma()
    ensures Parse("a, b") == Some(Comma())
  {
    assert SelectorText(Comma()) == "a, b";
    ParsePrinted(Comma());
  }

  lemma ParseLeftFilter()
    ensures Parse("L: a") == Some(LeftA())
  {
    assert SelectorText(LeftA()) == "L: a";
    ParsePrinted(LeftA());
  }

  /** The group of the path `first second`. */
  function GroupFirstSecond(): ScopeSelector {
    One(Expression(false, GroupTerm(Group(One(E(P(N("first"), [Transitively("second")])))))))
  }

  /** The group of the path `first second.subsecond`. */
  function GroupSubsecond(): ScopeSelector {
    One(Expression(false, GroupTerm(Group(Subsecond()))))
  }

  function Subsecond(): ScopeSelector {
    One(E(P(N("first"), [Descendent(Transitive, Dotted(["second", "subsecond"]))])))
  }

  lemma ParseGroup(text: string)
    requires text == "(first second)"
    ensures Parse(text) == Some(GroupFirstSecond())
  {
    var g := Group(One(E(P(N("first"), [Transitively("second")]))));
    assert SelectorText(g.selector) == "first second";
    assert GroupText(g) == text;
    ParseGroupAlone(g);
  }

  // Matching.

  /** A transitive step on a scope whose first element refining `name` is at position `k`. */
  lemma StepsTo(scope: Scope, name: ScopeName, k: nat)
    requires k < |scope.elements| && scope.elements[k].IsRefinement(name)
    requires forall j :: 0 <= j < k ==> !scope.elements[j].IsRefinement(name)
    ensures scope.AfterTransitive(name) == Some(Scope(scope.elements[k + 1..]))
  {
  }

  /** A transitive step on a scope none of whose elements refines `name`. */
  lemma StepFails(scope: Scope, name: ScopeName)
    requires forall j :: 0 <= j < |scope.elements| ==> !scope.elements[j].IsRefinement(name)
    ensures scope.AfterTransitive(name).None?
  {
  }

  /** The empty selector text selects every context, one with an empty main scope included. */
  lemma EmptySelectsEverything(ctx: Context)
    ensures Parse("").Some? && SelectorMatches(Parse("").value, ctx)
  {
    ParseEmpty();
  }

  lemma MatchInOrder()
    ensures SelectorMatches(ABCD(), Main([N("first"), N("second"), N("a"), N("b"), N("cd"), N("last")]))
  {
    var e := [N("first"), N("second"), N("a"), N("b"), N("cd"), N("last")];
    assert Scope(e).AfterTransitive(N("a")) == Some(Scope(e[3..]));
    assert Scope(e[3..]).AfterTransitive(N("b")) == Some(Scope(e[4..]));
    assert Scope(e[4..]).AfterTransitive(N("cd")) == Some(Scope(e[5..]));
  }

  lemma NoMatchOutOfOrder()
    ensures !SelectorMatches(ABCD(), Main([N("a"), Dotted(["something", "else"]), N("b"), N("ef")]))
  {
  }

  lemma MatchDirect()
    ensures SelectorMatches(DirectPath(), Main([N("a"), N("b"), N("other"), N("things"), Dotted(["cd", "e"]), Dotted(["e", "f"])]))
  {
    var e := [N("a"), N("b"), N("other"), N("things"), Dotted(["cd", "e"]), Dotted(["e", "f"])];
    assert Scope(e).AfterTransitive(N("a")) == Some(Scope(e[1..]));
    assert Scope(e[1..]).AfterDirect(N("b")) == Some(Scope(e[2..]));
    assert Scope(e[2..]).AfterTransitive(N("cd")) == Some(Scope(e[5..]));
    assert Scope(e[5..]).AfterDirect(N("e")) == Some(Scope(e[6..]));
  }

  lemma NoMatchDirectInterrupted()
    ensures !SelectorMatches(DirectPath(), Main([N("a"), N("other"), N("things"), N("b"), N("cd"), N("e")]))
  {
  }

  lemma NoMatchUnion()
    ensures !SelectorMatches(AOrB(), Main([N("c")]))
  {
  }

  lemma MatchIntersection()
    ensures SelectorMatches(AAndB(), Main([N("b"), N("a"), N("c")]))
  {
  }

  lemma NoMatchIntersection()
    ensures !SelectorMatches(AAndB(), Main([Dotted(["a", "b"])]))
  {
  }

  lemma MatchDifference()
    ensures SelectorMatches(ComplementThenDifference(), Main([N("random"), N("a"), Dotted(["stuff", "c"]), Dotted(["back", "b"])]))
  {
    var e := [N("random"), N("a"), Dotted(["stuff", "c"]), Dotted(["back", "b"])];
    StepsTo(Scope(e), N("a"), 1);
    StepFails(Scope(e[2..]), N("b"));
    StepFails(Scope(e), N("c"));
  }

  lemma NoMatchDifference()
    ensures !SelectorMatches(ComplementThenDifference(), Main([N("random"), N("b"), N("a"), N("c"), N("stuff")]))
  {
    var e := [N("random"), N("b"), N("a"), N("c"), N("stuff")];
    StepsTo(Scope(e), N("a"), 2);
    StepFails(Scope(e[3..]), N("b"));
    assert !PathMatches(P(N("a"), [Transitively("b")]), Main(e));
    StepsTo(Scope(e), N("c"), 3);
    assert PathMatches(P(N("c"), []), Main(e));
  }

  lemma NoMatchComma()
    ensures !SelectorMatches(Comma(), Main([Dotted(["c", "a"]), Dotted(["c", "b"])]))
  {
  }

  lemma MatchLeft()
    ensures SelectorMatches(LeftA(), Context(Some(Scope([N("a")])), Scope([N("random"), N("stuff")])))
  {
  }

  lemma NoMatchLeft()
    ensures !SelectorMatches(LeftA(), Context(Some(Scope([N("random"), N("stuff")])), Scope([N("a")])))
  {
  }

  lemma MatchBoth()
    ensures SelectorMatches(BothA(), Context(Some(Scope([N("front"), N("a"), N("back")])), Scope([Dotted(["a", "bcd"])])))
  {
  }

  lemma MatchGroup()
    ensures SelectorMatches(GroupSubsecond(), Main([Dotted(["first", "a"]), Dotted(["b", "c"]), N("second"), Dotted(["second", "subsecond", "d", "efg"])]))
  {
    var e := [Dotted(["first", "a"]), Dotted(["b", "c"]), N("second"), Dotted(["second", "subsecond", "d", "efg"])];
    assert Scope(e).AfterTransitive(N("first")) == Some(Scope(e[1..]));
    assert Scope(e[1..]).AfterTransitive(Dotted(["second", "subsecond"])) == Some(Scope(e[4..]));
    assert SelectorMatches(Subsecond(), Main(e));
  }

  lemma NoMatchGroup()
    ensures !SelectorMatches(GroupSubsecond(), Main([Dotted(["first", "a"]), Dotted(["b", "c"]), Dotted(["second", "d", "efg"])]))
  {
    var e := [Dotted(["first", "a"]), Dotted(["b", "c"]), Dotted(["second", "d", "efg"])];
    assert Scope(e).AfterTransitive(N("first")) == Some(Scope(e[1..]));
    assert Scope(e[1..]).AfterTransitive(Dotted(["second", "subsecond"])) == None;
    assert !SelectorMatches(Subsecond(), Main(e));
  }

  /** Path matching takes the first element that fits each step and never goes back: `a > b` misses `a c a b`. */
  lemma NoMatchLeftmostOnly()
    ensures !SelectorMatches(One(E(P(N("a"), [Directly("b")]))), Main([N("a"), N("c"), N("a"), N("b")]))
  {
  }
}
