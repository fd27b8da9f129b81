/**
 * Printing and parsing agree: the description of every selector whose names
 * the grammar can produce parses back to the same selector.  Each rule gets
 * its own lemma, stated for the printed text followed by whatever comes after
 * it in the enclosing text; the `...Follows` predicates say which characters that may start
 * with once whitespace is skipped.
 */
module SelectorRoundTrip {
  import opened Wrappers
  import opened Chars
  import opened Strings
  import opened ScopeNames
  import opened SelectorAst
  import opened SelectorPrinter
  import opened SelectorParser

  /** A character that may follow a whole selector: a closing parenthesis (or the text ends). */
  predicate EndsSelector(c: char) {
    c == ')'
  }

  /** A character that may follow a composite: also the comma before the next one. */
  predicate EndsComposite(c: char) {
    EndsSelector(c) || c == ','
  }

  /** A character that may follow an expression: also the operator of the next composition. */
  predicate EndsExpression(c: char) {
    EndsComposite(c) || c == '|' || c == '&' || c == '-'
  }

  /** Once whitespace is skipped, `rest` is used up or starts with a character that may follow a selector. */
  predicate SelectorFollows(rest: string) {
    var d := DropWhitespace(rest);
    d == [] || EndsSelector(d[0])
  }

  predicate CompositeFollows(rest: string) {
    var d := DropWhitespace(rest);
    d == [] || EndsComposite(d[0])
  }

  predicate ExpressionFollows(rest: string) {
    var d := DropWhitespace(rest);
    d == [] || EndsExpression(d[0])
  }

  /**
   * The parse produced `x` and stopped where `rest` starts, give or take
   * whitespace it has read: the part still to read is no longer than `rest`
   * and looks the same once whitespace is skipped.
   */
  predicate Yields<T(==)>(r: Parsed<T>, x: T, rest: string) {
    r.Success? && r.value == x && DropWhitespace(r.rest) == DropWhitespace(rest) && |r.rest| <= |rest|
  }

  /** A character that can come right after a scope name without being read into it. */
  predicate EndsName(t: string) {
    t == [] || (!IsAlphanumeric(t[0]) && t[0] != '.' && t[0] != ':')
  }

  // Whitespace bookkeeping.

  lemma SkipSpace(x: string)
    ensures DropWhitespace(" " + x) == DropWhitespace(x)
  {
    assert (" " + x)[1..] == x;
  }

  lemma SkipNothing(x: string, rest: string)
    requires x != [] && !IsWhitespace(x[0])
    ensures DropWhitespace(x + rest) == x + rest
  {
    DropWhitespaceNone(x + rest);
  }

  /** One space in front of printed text that starts visibly is skipped, and nothing more. */
  lemma SkipSpaceBefore(x: string, rest: string)
    requires x != [] && !IsWhitespace(x[0])
    ensures DropWhitespace(" " + x + rest) == x + rest
  {
    assert " " + x + rest == " " + (x + rest);
    SkipSpace(x + rest);
    SkipNothing(x, rest);
  }

  /** A two-character mark ending in a space, then text: the mark's first character, then a space and the text. */
  lemma MarkThenSpace(mark: string, x: string, rest: string)
    requires |mark| == 2 && mark[1] == ' '
    ensures var t := mark + x + rest; t[0] == mark[0] && t[1..] == " " + x + rest
  {
    assert mark + x + rest == [mark[0]] + (" " + x + rest);
  }

  /** Text whose first visible character ends expressions does not continue a name. */
  lemma AheadEndsName(rest: string)
    requires ExpressionFollows(rest)
    ensures EndsName(rest)
  {
    if rest != [] && !IsWhitespace(rest[0]) {
      DropWhitespaceNone(rest);
    }
  }

  lemma HeadTail<T>(s: seq<T>)
    requires s != []
    ensures [s[0]] + s[1..] == s
  {
  }

  lemma SliceCons<T>(s: seq<T>, i: nat)
    requires i < |s|
    ensures [s[i]] + s[i + 1..] == s[i..]
  {
  }

  // What printed text starts with.

  /** A parsable name prints as text starting with an alphanumeric. */
  lemma NameStart(n: ScopeName)
    requires IsParsable(n)
    ensures n.Description() != [] && IsAlphanumeric(n.Description()[0])
  {
    var cs := n.components;
    assert IsComponent(cs[0]);
    JoinAsDotted(cs[0], cs[1..]);
    assert [cs[0]] + cs[1..] == cs;
  }

  /** A successful name parse started at an alphanumeric. */
  lemma NameNeedsAlphanumeric(s: string)
    requires s == [] || !IsAlphanumeric(s[0])
    ensures ParseScopeName(s).Failure?
  {
  }

  // Paths.

  /** Once whitespace is skipped, a name is read as a transitive descendent. */
  lemma TransitiveAt(s: string, n: ScopeName, tail: string)
    requires IsParsable(n) && EndsName(tail)
    requires DropWhitespace(s) == n.Description() + tail
    ensures ParseDescendent(s) == Success(Descendent(Transitive, n), tail)
  {
    NameStart(n);
    SkipNothing(n.Description(), tail);
    ParseScopeNamePrinted(n, tail);
  }

  /** Once whitespace is skipped, `>`, a space and a name are read as a direct descendent. */
  lemma DirectAt(s: string, n: ScopeName, tail: string)
    requires IsParsable(n) && EndsName(tail)
    requires DropWhitespace(s) == "> " + n.Description() + tail
    ensures ParseDescendent(s) == Success(Descendent(Direct, n), tail)
  {
    var x := n.Description();
    MarkThenSpace("> ", x, tail);
    NameStart(n);
    SkipSpaceBefore(x, tail);
    ParseScopeNamePrinted(n, tail);
  }

  /** A descendent preceded by its space is read back, and nothing after it. */
  lemma DescendentRoundTrip(d: Descendent, tail: string)
    requires IsParsable(d.scopeName) && EndsName(tail)
    ensures ParseDescendent(" " + DescendentText(d) + tail) == Success(d, tail)
  {
    var name := d.scopeName.Description();
    NameStart(d.scopeName);
    match d.selector {
      case Direct =>
        SkipSpaceBefore("> " + name, tail);
        DirectAt(" " + DescendentText(d) + tail, d.scopeName, tail);
      case Transitive =>
        SkipSpaceBefore(name, tail);
        TransitiveAt(" " + DescendentText(d) + tail, d.scopeName, tail);
    }
  }

  /** Text whose first visible character is neither `>` nor alphanumeric holds no descendent. */
  lemma NoDescendent(t: string)
    requires var v := DropWhitespace(t); v == [] || (v[0] != '>' && !IsAlphanumeric(v[0]))
    ensures ParseDescendent(t).Failure?
  {
    DropWhitespaceIdempotent(t);
    NameNeedsAlphanumeric(DropWhitespace(t));
  }

  lemma DescendentsStop(s: string)
    requires ParseDescendent(s).Failure?
    ensures ParseDescendents(s) == Success([], s)
  {
  }

  lemma DescendentsStep(s: string, x: Descendent, rest: string, xs: seq<Descendent>, tail: string)
    requires ParseDescendent(s) == Success(x, rest)
    requires ParseDescendents(rest) == Success(xs, tail)
    ensures ParseDescendents(s) == Success([x] + xs, tail)
  {
  }

  lemma DescendentsCons(ds: seq<Descendent>, tail: string)
    requires ds != []
    ensures DescendentsText(ds) + tail == " " + DescendentText(ds[0]) + (DescendentsText(ds[1..]) + tail)
  {
  }

  /** Printed descendents start with a space, so what follows a name still ends it. */
  lemma DescendentsEndName(ds: seq<Descendent>, tail: string)
    requires EndsName(tail)
    ensures EndsName(DescendentsText(ds) + tail)
  {
    if ds == [] {
      assert DescendentsText(ds) + tail == tail;
    }
  }

  /** The printed descendents are read back, up to the text after them. */
  lemma {:induction false} DescendentsRoundTrip(ds: seq<Descendent>, tail: string)
    requires forall k :: 0 <= k < |ds| ==> IsParsable(ds[k].scopeName)
    requires EndsName(tail) && ParseDescendent(tail).Failure?
    ensures ParseDescendents(DescendentsText(ds) + tail) == Success(ds, tail)
    decreases |ds|
  {
    if ds == [] {
      assert DescendentsText(ds) + tail == tail;
      DescendentsStop(tail);
    } else {
      var later := DescendentsText(ds[1..]) + tail;
      DescendentsCons(ds, tail);
      DescendentsEndName(ds[1..], tail);
      DescendentRoundTrip(ds[0], later);
      DescendentsRoundTrip(ds[1..], tail);
      DescendentsStep(DescendentsText(ds) + tail, ds[0], later, ds[1..], tail);
      HeadTail(ds);
    }
  }
  /** `ParsePath` first skips whitespace and reads the begin anchor; the name is then read from `t`. */
  predicate BeginsPath(s: string, beginAnchor: bool, t: string) {
    var v := DropWhitespace(s);
    var b := v != [] && v[0] == '^';
    b == beginAnchor && DropWhitespace(if b then v[1..] else v) == t
  }

  /** The last step of `ParsePath` reads the end anchor from `u`, leaving `out`. */
  predicate EndsPath(u: string, endAnchor: bool, out: string) {
    var e := DropWhitespace(u);
    var b := e != [] && e[0] == '$';
    b == endAnchor && (if b then e[1..] else e) == out
  }

  lemma PathAt(s: string, p: Path, t: string, after: string, u: string, out: string)
    requires BeginsPath(s, p.beginAnchor, t)
    requires ParseScopeName(t) == Success(p.root, after)
    requires ParseDescendents(after) == Success(p.descendents, u)
    requires EndsPath(u, p.endAnchor, out)
    ensures ParsePath(s) == Success(p, out)
  {
  }

  /** A printed path followed by `rest`: the anchor mark, the root, then the rest of the path and `rest`. */
  lemma PathTextShape(p: Path, rest: string)
    ensures PathText(p) + rest
      == (if p.beginAnchor then "^ " else "") + p.root.Description()
         + (DescendentsText(p.descendents) + ((if p.endAnchor then " $" else "") + rest))
  {
  }

  /** After the begin anchor and the whitespace, the root's printed text is what is read. */
  lemma PathBeginPrinted(s: string, beginAnchor: bool, x: string, after: string)
    requires x != [] && IsAlphanumeric(x[0])
    requires DropWhitespace(s) == DropWhitespace((if beginAnchor then "^ " else "") + x + after)
    ensures BeginsPath(s, beginAnchor, x + after)
  {
    if beginAnchor {
      SkipNothing("^ " + x, after);
      MarkThenSpace("^ ", x, after);
      SkipSpaceBefore(x, after);
    } else {
      assert "" + x + after == x + after;
      SkipNothing(x, after);
    }
  }

  /** The printed end anchor: a space and a `$`, which is what is read once whitespace is skipped. */
  lemma EndMarkText(rest: string)
    ensures DropWhitespace(" $" + rest) == "$" + rest && ("$" + rest)[1..] == rest
  {
    assert " $" + rest == " " + "$" + rest;
    SkipSpaceBefore("$", rest);
  }

  /** What follows the descendents of a printed path: its end mark, then text that ends expressions. */
  lemma PathEndPrinted(endAnchor: bool, rest: string)
    requires ExpressionFollows(rest)
    ensures var u := (if endAnchor then " $" else "") + rest;
      && EndsName(u)
      && (var v := DropWhitespace(u); v == [] || (v[0] != '>' && !IsAlphanumeric(v[0])))
      && EndsPath(u, endAnchor, if endAnchor then rest else DropWhitespace(rest))
  {
    if endAnchor {
      EndMarkText(rest);
    } else {
      assert "" + rest == rest;
      AheadEndsName(rest);
      DropWhitespaceIdempotent(rest);
    }
  }

  /** A printed path is read back; without an end anchor the parser also reads the whitespace after it. */
  lemma PathRoundTrip(p: Path, rest: string, s: string)
    requires WellFormedPath(p) && ExpressionFollows(rest)
    requires DropWhitespace(s) == DropWhitespace(PathText(p) + rest)
    ensures ParsePath(s) == Success(p, if p.endAnchor then rest else DropWhitespace(rest))
    ensures Yields(ParsePath(s), p, rest)
  {
    var x := p.root.Description();
    var u := (if p.endAnchor then " $" else "") + rest;
    var after := DescendentsText(p.descendents) + u;
    var out := if p.endAnchor then rest else DropWhitespace(rest);
    PathTextShape(p, rest);
    NameStart(p.root);
    PathBeginPrinted(s, p.beginAnchor, x, after);
    PathEndPrinted(p.endAnchor, rest);
    DescendentsEndName(p.descendents, u);
    ParseScopeNamePrinted(p.root, after);
    NoDescendent(u);
    DescendentsRoundTrip(p.descendents, u);
    PathAt(s, p, x + after, after, u, out);
    DropWhitespaceIdempotent(rest);
  }

  // Terms: which alternative reads the text.

  /** A character a printed term starts with. */
  predicate StartsTerm(c: char) {
    c == '(' || c == '^' || IsAlphanumeric(c)
  }

  /** A printed path starts with its begin anchor or with the root's first character. */
  lemma PathTextHead(p: Path)
    requires IsParsable(p.root)
    ensures PathText(p) != [] && PathText(p)[0] == if p.beginAnchor then '^' else p.root.Description()[0]
  {
    var x := p.root.Description();
    var mark := if p.beginAnchor then "^ " else "";
    var tail := DescendentsText(p.descendents) + (if p.endAnchor then " $" else "");
    NameStart(p.root);
    assert PathText(p) == mark + x + tail;
    if p.beginAnchor {
      assert (mark + x + tail)[0] == mark[0];
    } else {
      assert mark + x + tail == x + tail;
    }
  }

  lemma PathTextStart(p: Path, rest: string)
    requires WellFormedPath(p)
    ensures var t := PathText(p) + rest; t != [] && (t[0] == '^' || IsAlphanumeric(t[0]))
  {
    PathTextHead(p);
    NameStart(p.root);
    assert (PathText(p) + rest)[0] == PathText(p)[0];
  }

  /** A printed group: its opening parenthesis, the selector, the closing parenthesis. */
  lemma GroupShape(g: Group, rest: string)
    ensures var t := GroupText(g) + rest;
      t != [] && t[0] == '(' && t[1..] == SelectorText(g.selector) + (")" + rest)
  {
    assert GroupText(g) + rest == "(" + (SelectorText(g.selector) + (")" + rest));
  }

  lemma TermTextStart(t: Term, rest: string)
    requires WellFormedTerm(t)
    ensures var u := TermText(t) + rest; u != [] && StartsTerm(u[0])
  {
    match t
    case FilterTerm(f) =>
      assert TermText(t) + rest == SideText(f.side) + (" " + FilterOperandText(f.term) + rest);
    case GroupTerm(g) =>
      GroupShape(g, rest);
    case PathTerm(p) =>
      PathTextStart(p, rest);
  }

  /** A name followed by text that does not continue it is never a side letter and `:`. */
  lemma NameIsNoSide(n: ScopeName, after: string)
    requires IsParsable(n) && EndsName(after)
    ensures ParseSide(n.Description() + after).Failure?
  {
    var c, cs := n.components[0], n.components[1..];
    assert n.components == [c] + cs;
    JoinAsDotted(c, cs);
    var t := n.Description() + after;
    assert t == c + (DottedText(cs) + after);
    assert IsComponent(c);
    if |c| >= 2 {
      assert t[1] == c[1];
    } else if cs != [] {
      DottedTextCons(cs, after);
      assert t[1] == (DottedText(cs) + after)[0];
    } else {
      assert t == c + after;
    }
  }

  /** The filter alternative needs a side letter and `:` once whitespace is skipped. */
  lemma FilterNeedsSide(s: string)
    requires ParseSide(DropWhitespace(s)).Failure?
    ensures ParseFilter(s).Failure?
  {
  }

  /** The group alternative needs `(` once whitespace is skipped. */
  lemma GroupNeedsParen(s: string)
    requires var d := DropWhitespace(s); d == [] || d[0] != '('
    ensures ParseGroup(s).Failure?
  {
  }

  /** A printed path without a begin anchor starts with its root, which is never a side letter and `:`. */
  lemma RootIsNoSide(p: Path, rest: string)
    requires WellFormedPath(p) && !p.beginAnchor && ExpressionFollows(rest)
    ensures ParseSide(PathText(p) + rest).Failure?
  {
    var u := (if p.endAnchor then " $" else "") + rest;
    var after := DescendentsText(p.descendents) + u;
    PathTextShape(p, rest);
    assert PathText(p) + rest == p.root.Description() + after;
    PathEndPrinted(p.endAnchor, rest);
    DescendentsEndName(p.descendents, u);
    NameIsNoSide(p.root, after);
  }

  /** A printed path never starts with a side letter and `:`. */
  lemma PathIsNoSide(p: Path, rest: string)
    requires WellFormedPath(p) && ExpressionFollows(rest)
    ensures ParseSide(PathText(p) + rest).Failure?
  {
    if p.beginAnchor {
      PathTextHead(p);
      assert (PathText(p) + rest)[0] == '^';
    } else {
      RootIsNoSide(p, rest);
    }
  }

  /** Neither the filter nor the group alternative reads a printed path. */
  lemma PathIsNoFilter(p: Path, rest: string, s: string)
    requires WellFormedPath(p) && ExpressionFollows(rest)
    requires DropWhitespace(s) == DropWhitespace(PathText(p) + rest)
    ensures ParseFilter(s).Failure? && ParseGroup(s).Failure?
  {
    var t := PathText(p) + rest;
    PathTextStart(p, rest);
    DropWhitespaceNone(t);
    PathIsNoSide(p, rest);
    FilterNeedsSide(s);
    GroupNeedsParen(s);
  }

  /** The filter alternative does not read a printed group. */
  lemma GroupIsNoFilter(g: Group, rest: string, s: string)
    requires DropWhitespace(s) == DropWhitespace(GroupText(g) + rest)
    ensures ParseFilter(s).Failure?
  {
    GroupShape(g, rest);
    DropWhitespaceNone(GroupText(g) + rest);
    FilterNeedsSide(s);
  }

  // Filters and groups.

  lemma SideAt(t: string, side: Side, x: string)
    requires t == SideText(side) + " " + x
    ensures ParseSide(t) == Success(side, " " + x)
  {
    assert t == SideText(side) + (" " + x);
    assert t[2..] == " " + x;
  }

  lemma FilterAt(s: string, side: Side, after: string, t: FilterOperand, out: string)
    requires ParseSide(DropWhitespace(s)) == Success(side, after)
    requires ParseFilterOperand(after) == Success(t, out)
    ensures ParseFilter(s) == Success(Filter(side, t), out)
  {
  }

  /** The side of a printed filter is read first, leaving the space before its operand. */
  lemma FilterSideAt(f: Filter, rest: string)
    ensures ParseSide(DropWhitespace(FilterText(f) + rest)) == Success(f.side, " " + (FilterOperandText(f.term) + rest))
  {
    var x := FilterOperandText(f.term) + rest;
    var t := FilterText(f) + rest;
    assert t == SideText(f.side) + " " + x;
    assert t[0] == SideText(f.side)[0];
    DropWhitespaceNone(t);
    SideAt(t, f.side, x);
  }

  /** A printed filter is read back. */
  lemma {:induction false} FilterRoundTrip(f: Filter, rest: string, s: string)
    requires WellFormedFilterOperand(f.term) && ExpressionFollows(rest)
    requires DropWhitespace(s) == DropWhitespace(FilterText(f) + rest)
    ensures Yields(ParseFilter(s), f, rest)
    decreases f, 0, 0
  {
    var x := FilterOperandText(f.term) + rest;
    FilterSideAt(f, rest);
    SkipSpace(x);
    FilterOperandRoundTrip(f.term, rest, " " + x);
    var r := ParseFilterOperand(" " + x);
    FilterAt(s, f.side, " " + x, r.value, r.rest);
  }

  /** The operand of a printed filter is read back: a group, or else a path. */
  lemma {:induction false} FilterOperandRoundTrip(t: FilterOperand, rest: string, s: string)
    requires WellFormedFilterOperand(t) && ExpressionFollows(rest)
    requires DropWhitespace(s) == DropWhitespace(FilterOperandText(t) + rest)
    ensures Yields(ParseFilterOperand(s), t, rest)
    decreases t, 0, 0
  {
    match t
    case GroupOperand(g) =>
      GroupRoundTrip(g, rest, s);
    case PathOperand(p) =>
      PathIsNoFilter(p, rest, s);
      PathRoundTrip(p, rest, s);
  }

  lemma GroupAt(s: string, inner: ScopeSelector, after: string, out: string)
    requires var d := DropWhitespace(s); d != [] && d[0] == '(' && ParseSelector(d[1..]) == Success(inner, after)
    requires DropWhitespace(after) == ")" + out
    ensures ParseGroup(s) == Success(Group(inner), out)
  {
    assert (")" + out)[1..] == out;
  }

  /** A printed group is read back, up to exactly the text after its closing parenthesis. */
  lemma {:induction false} GroupRoundTrip(g: Group, rest: string, s: string)
    requires WellFormedSelector(g.selector)
    requires DropWhitespace(s) == DropWhitespace(GroupText(g) + rest)
    ensures ParseGroup(s) == Success(g, rest)
    decreases g, 0, 0
  {
    var t := GroupText(g) + rest;
    GroupShape(g, rest);
    DropWhitespaceNone(t);
    SkipNothing(")", rest);
    SelectorRoundTrip(g.selector, ")" + rest, t[1..]);
    GroupAt(s, g.selector, ParseSelector(t[1..]).rest, rest);
  }

  /** A printed term is read back by the alternative that printed it. */
  lemma {:induction false} TermRoundTrip(t: Term, rest: string, s: string)
    requires WellFormedTerm(t) && ExpressionFollows(rest)
    requires DropWhitespace(s) == DropWhitespace(TermText(t) + rest)
    ensures Yields(ParseTerm(s), t, rest)
    decreases t, 0, 0
  {
    match t
    case FilterTerm(f) =>
      FilterRoundTrip(f, rest, s);
    case GroupTerm(g) =>
      GroupIsNoFilter(g, rest, s);
      GroupRoundTrip(g, rest, s);
    case PathTerm(p) =>
      PathIsNoFilter(p, rest, s);
      PathRoundTrip(p, rest, s);
  }

  // Expressions and composites.

  lemma ExpressionThen(s: string, complement: bool, t: Term, rest: string)
    requires var d := DropWhitespace(s); (d != [] && d[0] == '-') == complement
    requires var d := DropWhitespace(s); Yields(ParseTerm(if complement then d[1..] else d), t, rest)
    ensures Yields(ParseExpression(s), Expression(complement, t), rest)
  {
  }

  /** A printed expression: a `-` once whitespace is skipped exactly when it is complemented, then its term. */
  lemma ExpressionMark(e: Expression, rest: string, s: string)
    requires WellFormedExpression(e)
    requires DropWhitespace(s) == DropWhitespace(ExpressionText(e) + rest)
    ensures var d := DropWhitespace(s); (d != [] && d[0] == '-') == e.complement
    ensures var d := DropWhitespace(s);
      DropWhitespace(if e.complement then d[1..] else d) == DropWhitespace(TermText(e.term) + rest)
  {
    var x := TermText(e.term) + rest;
    var d := DropWhitespace(s);
    TermTextStart(e.term, rest);
    if e.complement {
      var t := ExpressionText(e) + rest;
      MarkThenSpace("- ", TermText(e.term), rest);
      DropWhitespaceNone(t);
      assert " " + TermText(e.term) + rest == " " + x;
      SkipSpace(x);
    } else {
      assert ExpressionText(e) + rest == x;
      DropWhitespaceNone(x);
      DropWhitespaceIdempotent(s);
    }
  }

  /** A printed expression is read back, its complement mark included. */
  lemma {:induction false} ExpressionRoundTrip(e: Expression, rest: string, s: string)
    requires WellFormedExpression(e) && ExpressionFollows(rest)
    requires DropWhitespace(s) == DropWhitespace(ExpressionText(e) + rest)
    ensures Yields(ParseExpression(s), e, rest)
    decreases e, 1, 0
  {
    var d := DropWhitespace(s);
    ExpressionMark(e, rest, s);
    TermRoundTrip(e.term, rest, if e.complement then d[1..] else d);
    ExpressionThen(s, e.complement, e.term, rest);
  }


  lemma OperationAt(t: string, op: Operation, x: string)
    requires t == OperationText(op) + " " + x
    ensures ParseOperation(t) == Success(op, " " + x)
  {
    assert t == OperationText(op) + (" " + x);
    assert t[1..] == " " + x;
  }

  lemma CompositionAt(s: string, op: Operation, after: string, operand: Expression, out: string)
    requires ParseOperation(DropWhitespace(s)) == Success(op, after)
    requires ParseExpression(after) == Success(operand, out)
    ensures ParseComposition(s) == Success(Composition(op, operand), out)
  {
  }

  /** Text that is used up, or starts with a character that ends composites once whitespace is skipped, holds no composition. */
  lemma CompositionsStop(s: string)
    requires var d := DropWhitespace(s); d == [] || EndsComposite(d[0])
    ensures ParseCompositions(s) == Success([], s)
  {
    assert ParseOperation(DropWhitespace(s)).Failure?;
  }

  lemma CompositionsThen(s: string, x: Composition, xs: seq<Composition>, later: string, rest: string)
    requires Yields(ParseComposition(s), x, later)
    requires Yields(ParseCompositions(ParseComposition(s).rest), xs, rest)
    ensures Yields(ParseCompositions(s), [x] + xs, rest)
  {
  }

  /** The printed compositions from position `i` on: a space, the first of them, the others. */
  lemma CompositionsShape(c: Composite, i: nat, rest: string)
    requires i < |c.compositions|
    ensures CompositionsText(c, i) + rest
      == " " + (CompositionText(c.compositions[i]) + (CompositionsText(c, i + 1) + rest))
  {
  }

  /** What follows an expression inside a printed composite: further compositions, then text that ends composites. */
  lemma CompositionsFollow(c: Composite, i: nat, rest: string)
    requires i <= |c.compositions| && CompositeFollows(rest)
    ensures ExpressionFollows(CompositionsText(c, i) + rest)
  {
    if i == |c.compositions| {
      assert CompositionsText(c, i) + rest == rest;
    } else {
      var x := c.compositions[i];
      var y := CompositionText(x) + (CompositionsText(c, i + 1) + rest);
      CompositionsShape(c, i, rest);
      assert y[0] == OperationText(x.operation)[0];
      SkipSpace(y);
      DropWhitespaceNone(y);
    }
  }

  /** A printed composition is read back: its operator, then its operand. */
  lemma {:induction false} CompositionRoundTrip(x: Composition, rest: string, s: string)
    requires WellFormedExpression(x.operand) && ExpressionFollows(rest)
    requires DropWhitespace(s) == DropWhitespace(CompositionText(x) + rest)
    ensures Yields(ParseComposition(s), x, rest)
    decreases x, 1, 0
  {
    var y := ExpressionText(x.operand) + rest;
    var t := OperationText(x.operation) + " " + y;
    assert CompositionText(x) + rest == t;
    assert t[0] == OperationText(x.operation)[0];
    DropWhitespaceNone(t);
    OperationAt(t, x.operation, y);
    SkipSpace(y);
    ExpressionRoundTrip(x.operand, rest, " " + y);
    var r := ParseExpression(" " + y);
    CompositionAt(s, x.operation, " " + y, x.operand, r.rest);
  }

  /** Where the next printed composition starts, and what may follow its operand. */
  lemma CompositionsNext(c: Composite, i: nat, rest: string, s: string)
    requires i < |c.compositions| && WellFormedComposite(c) && CompositeFollows(rest)
    requires DropWhitespace(s) == DropWhitespace(CompositionsText(c, i) + rest)
    ensures var later := CompositionsText(c, i + 1) + rest;
      && DropWhitespace(s) == DropWhitespace(CompositionText(c.compositions[i]) + later)
      && ExpressionFollows(later)
      && WellFormedExpression(c.compositions[i].operand)
  {
    var later := CompositionsText(c, i + 1) + rest;
    CompositionsShape(c, i, rest);
    SkipSpace(CompositionText(c.compositions[i]) + later);
    CompositionsFollow(c, i + 1, rest);
  }

  /** The printed compositions from position `i` on are read back, and the repetition stops after them. */
  lemma {:induction false} CompositionsRoundTrip(c: Composite, i: nat, rest: string, s: string)
    requires i <= |c.compositions| && WellFormedComposite(c) && CompositeFollows(rest)
    requires DropWhitespace(s) == DropWhitespace(CompositionsText(c, i) + rest)
    requires |s| <= |CompositionsText(c, i) + rest|
    ensures Yields(ParseCompositions(s), c.compositions[i..], rest)
    decreases c, 1, |c.compositions| - i
  {
    if i == |c.compositions| {
      assert CompositionsText(c, i) + rest == rest;
      CompositionsStop(s);
      assert c.compositions[i..] == [];
    } else {
      var x := c.compositions[i];
      var later := CompositionsText(c, i + 1) + rest;
      CompositionsNext(c, i, rest, s);
      CompositionRoundTrip(x, later, s);
      CompositionsRoundTrip(c, i + 1, rest, ParseComposition(s).rest);
      CompositionsThen(s, x, c.compositions[i + 1..], later, rest);
      SliceCons(c.compositions, i);
    }
  }

  lemma CompositeThen(s: string, base: Expression, cs: seq<Composition>, later: string, rest: string)
    requires Yields(ParseExpression(DropWhitespace(s)), base, later)
    requires Yields(ParseCompositions(ParseExpression(DropWhitespace(s)).rest), cs, rest)
    ensures Yields(ParseComposite(s), Composite(base, cs), rest)
  {
  }

  /** A printed composite is read back. */
  lemma {:induction false} CompositeRoundTrip(c: Composite, rest: string, s: string)
    requires WellFormedComposite(c) && CompositeFollows(rest)
    requires DropWhitespace(s) == DropWhitespace(CompositeText(c) + rest)
    ensures Yields(ParseComposite(s), c, rest)
    decreases c, 2, 0
  {
    var later := CompositionsText(c, 0) + rest;
    assert CompositeText(c) + rest == ExpressionText(c.base) + later;
    CompositionsFollow(c, 0, rest);
    DropWhitespaceIdempotent(s);
    ExpressionRoundTrip(c.base, later, DropWhitespace(s));
    CompositionsRoundTrip(c, 0, rest, ParseExpression(DropWhitespace(s)).rest);
    CompositeThen(s, c.base, c.compositions[0..], later, rest);
    assert c.compositions[0..] == c.compositions;
  }

  // Selectors.

  /** The printed composites from position `i` on, each preceded by `", "`. */
  function MoreText(sel: ScopeSelector, i: nat): string
    requires i <= |sel.composites|
  {
    if i == |sel.composites| then "" else ", " + CompositesText(sel, i)
  }

  lemma CompositesShape(sel: ScopeSelector, i: nat, rest: string)
    requires i < |sel.composites|
    ensures CompositesText(sel, i) + rest == CompositeText(sel.composites[i]) + (MoreText(sel, i + 1) + rest)
  {
  }

  lemma MoreShape(sel: ScopeSelector, i: nat, rest: string)
    requires i < |sel.composites|
    ensures var t := MoreText(sel, i) + rest;
      t != [] && t[0] == ',' && t[1..] == " " + (CompositeText(sel.composites[i]) + (MoreText(sel, i + 1) + rest))
  {
    CompositesShape(sel, i, rest);
    assert MoreText(sel, i) + rest == "," + (" " + (CompositesText(sel, i) + rest));
  }

  /** What follows a composite inside a printed selector: further composites, then text that ends selectors. */
  lemma MoreFollows(sel: ScopeSelector, i: nat, rest: string)
    requires i <= |sel.composites| && SelectorFollows(rest)
    ensures CompositeFollows(MoreText(sel, i) + rest)
  {
    if i == |sel.composites| {
      assert MoreText(sel, i) + rest == rest;
    } else {
      MoreShape(sel, i, rest);
      DropWhitespaceNone(MoreText(sel, i) + rest);
    }
  }

  lemma MoreStop(s: string)
    requires var d := DropWhitespace(s); d == [] || d[0] != ','
    ensures ParseMoreComposites(s) == Success([], s)
  {
  }

  lemma MoreThen(s: string, c: Composite, cs: seq<Composite>, later: string, rest: string)
    requires var d := DropWhitespace(s); d != [] && d[0] == ',' && Yields(ParseComposite(d[1..]), c, later)
    requires var d := DropWhitespace(s); Yields(ParseMoreComposites(ParseComposite(d[1..]).rest), cs, rest)
    ensures Yields(ParseMoreComposites(s), [c] + cs, rest)
  {
  }

  /** Where the next printed composite starts: after a comma, and what may follow it. */
  lemma MoreNext(sel: ScopeSelector, i: nat, rest: string, s: string)
    requires i < |sel.composites| && WellFormedSelector(sel) && SelectorFollows(rest)
    requires DropWhitespace(s) == DropWhitespace(MoreText(sel, i) + rest)
    ensures var d := DropWhitespace(s); var later := MoreText(sel, i + 1) + rest;
      && d != [] && d[0] == ','
      && DropWhitespace(d[1..]) == DropWhitespace(CompositeText(sel.composites[i]) + later)
      && CompositeFollows(later)
      && WellFormedComposite(sel.composites[i])
  {
    var t := MoreText(sel, i) + rest;
    var later := MoreText(sel, i + 1) + rest;
    MoreShape(sel, i, rest);
    DropWhitespaceNone(t);
    SkipSpace(CompositeText(sel.composites[i]) + later);
    MoreFollows(sel, i + 1, rest);
  }

  /** The printed composites after the first are read back, and the repetition stops after them. */
  lemma {:induction false} MoreCompositesRoundTrip(sel: ScopeSelector, i: nat, rest: string, s: string)
    requires i <= |sel.composites| && WellFormedSelector(sel) && SelectorFollows(rest)
    requires DropWhitespace(s) == DropWhitespace(MoreText(sel, i) + rest)
    requires |s| <= |MoreText(sel, i) + rest|
    ensures Yields(ParseMoreComposites(s), sel.composites[i..], rest)
    decreases sel, 2, |sel.composites| - i
  {
    if i == |sel.composites| {
      assert MoreText(sel, i) + rest == rest;
      MoreStop(s);
      assert sel.composites[i..] == [];
    } else {
      var d := DropWhitespace(s);
      var later := MoreText(sel, i + 1) + rest;
      var c := sel.composites[i];
      MoreNext(sel, i, rest, s);
      CompositeRoundTrip(c, later, d[1..]);
      MoreCompositesRoundTrip(sel, i + 1, rest, ParseComposite(d[1..]).rest);
      MoreThen(s, c, sel.composites[i + 1..], later, rest);
      SliceCons(sel.composites, i);
    }
  }

  /** Text that is used up, or starts with `)` once whitespace is skipped, holds no composite. */
  lemma NothingToRead(s: string)
    requires var d := DropWhitespace(s); d == [] || d[0] == ')'
    ensures ParseComposite(s).Failure?
  {
    var d := DropWhitespace(s);
    DropWhitespaceIdempotent(s);
    NameNeedsAlphanumeric(d);
    FilterNeedsSide(d);
    GroupNeedsParen(d);
    assert ParsePath(d).Failure?;
    assert ParseTerm(d).Failure?;
  }

  lemma SelectorStop(s: string)
    requires ParseComposite(s).Failure?
    ensures ParseSelector(s) == Success(ScopeSelector([]), s)
  {
  }

  lemma SelectorThen(s: string, c: Composite, cs: seq<Composite>, later: string, rest: string)
    requires Yields(ParseComposite(s), c, later)
    requires Yields(ParseMoreComposites(ParseComposite(s).rest), cs, rest)
    ensures Yields(ParseSelector(s), ScopeSelector([c] + cs), rest)
  {
  }

  /** A printed selector is read back; the universal selector prints as nothing and reads back from nothing. */
  lemma {:induction false} SelectorRoundTrip(sel: ScopeSelector, rest: string, s: string)
    requires WellFormedSelector(sel) && SelectorFollows(rest)
    requires DropWhitespace(s) == DropWhitespace(SelectorText(sel) + rest)
    requires |s| <= |SelectorText(sel) + rest|
    ensures Yields(ParseSelector(s), sel, rest)
    decreases sel, 3, 0
  {
    if sel.composites == [] {
      assert SelectorText(sel) + rest == rest;
      NothingToRead(s);
      SelectorStop(s);
    } else {
      var c := sel.composites[0];
      var later := MoreText(sel, 1) + rest;
      CompositesShape(sel, 0, rest);
      MoreFollows(sel, 1, rest);
      CompositeRoundTrip(c, later, s);
      MoreCompositesRoundTrip(sel, 1, rest, ParseComposite(s).rest);
      SelectorThen(s, c, sel.composites[1..], later, rest);
      HeadTail(sel.composites);
    }
  }

  /** The description of every selector whose names the grammar accepts parses back to that selector. */
  lemma ParsePrinted(sel: ScopeSelector)
    requires WellFormedSelector(sel)
    ensures Parse(SelectorText(sel)) == Some(sel)
  {
    var t := SelectorText(sel);
    assert t + "" == t;
    SelectorRoundTrip(sel, "", t);
  }
  /**
   * Decoding what encoding wrote: any text that parses stands for a selector
   * whose description parses to the same selector, so a selector that came
   * from text survives an encode and a decode.
   */
  lemma ReparseParsed(text: string)
    requires Parse(text).Some?
    ensures Parse(SelectorText(Parse(text).value)) == Parse(text)
  {
    ParsePrinted(Parse(text).value);
  }
}
