/**
 * The selector grammar as a parser on text: every parser takes the text
 * still to read and either fails or returns a value and the text after it.
 * Alternatives are tried in order, each on the same text (a failed one
 * consumes nothing); repetitions take as many items as parse; the leading
 * `ws*` of a rule skips whitespace and newlines.
 *
 *   selector    := (composite (ws* "," composite)*)?
 *   composite   := ws* expression composition*
 *   composition := ws* ("|" | "&" | "-") expression
 *   expression  := ws* "-"? term
 *   term        := filter | group | path
 *   filter      := ws* ("L" | "R" | "B") ":" (group | path)
 *   group       := ws* "(" selector ws* ")"
 *   path        := ws* "^"? ws* name descendent* ws* "$"?
 *   descendent  := ws* ">"? ws* name
 */
module SelectorParser {
  import opened Wrappers
  import opened Chars
  import opened ScopeNames
  import opened SelectorAst

  /**
   * `ScopeSelector(_:)` on a string: the selector parser must read the whole
   * text.  Every selector it returns is well formed, so its description
   * parses back to it.
   */
  function Parse(s: string): (r: Option<ScopeSelector>)
    ensures r.Some? ==> WellFormedSelector(r.value)
  {
    match ParseSelector(s)
    case Success(sel, rest) => if rest == [] then Some(sel) else None
    case Failure => None
  }

  /** `ScopeSelector.parser`: never fails; no composite at all gives the universal selector. */
  function ParseSelector(s: string): (r: Parsed<ScopeSelector>)
    ensures r.Success? && |r.rest| <= |s|
    ensures WellFormedSelector(r.value)
    decreases |s|, 7
  {
    match ParseComposite(s)
    case Failure => Success(ScopeSelector([]), s)
    case Success(c, rest) =>
      var more := ParseMoreComposites(rest);
      Success(ScopeSelector([c] + more.value), more.rest)
  }

  /** `zeroOrMore(ws* "," composite)`. */
  function ParseMoreComposites(s: string): (r: Parsed<seq<Composite>>)
    ensures r.Success? && |r.rest| <= |s|
    ensures forall k :: 0 <= k < |r.value| ==> WellFormedComposite(r.value[k])
    decreases |s|, 7
  {
    var d := DropWhitespace(s);
    if d == [] || d[0] != ',' then Success([], s)
    else
      match ParseComposite(d[1..])
      case Failure => Success([], s)
      case Success(c, rest) =>
        var more := ParseMoreComposites(rest);
        Success([c] + more.value, more.rest)
  }

  /** `Composite.parser`. */
  function ParseComposite(s: string): (r: Parsed<Composite>)
    ensures r.Success? ==> |r.rest| < |s|
    ensures r.Success? ==> WellFormedComposite(r.value)
    decreases |s|, 6
  {
    match ParseExpression(DropWhitespace(s))
    case Failure => Failure
    case Success(base, rest) =>
      var compositions := ParseCompositions(rest);
      Success(Composite(base, compositions.value), compositions.rest)
  }

  /** `zeroOrMore(Composition.parser)`. */
  function ParseCompositions(s: string): (r: Parsed<seq<Composition>>)
    ensures r.Success? && |r.rest| <= |s|
    ensures forall k :: 0 <= k < |r.value| ==> WellFormedExpression(r.value[k].operand)
    decreases |s|, 5
  {
    match ParseComposition(s)
    case Failure => Success([], s)
    case Success(x, rest) =>
      var more := ParseCompositions(rest);
      Success([x] + more.value, more.rest)
  }

  /** `Composition.parser`. */
  function ParseComposition(s: string): (r: Parsed<Composition>)
    ensures r.Success? ==> |r.rest| < |s|
    ensures r.Success? ==> WellFormedExpression(r.value.operand)
    decreases |s|, 4
  {
    match ParseOperation(DropWhitespace(s))
    case Failure => Failure
    case Success(op, rest) =>
      match ParseExpression(rest)
      case Failure => Failure
      case Success(operand, rest') => Success(Composition(op, operand), rest')
  }

  /** `Operation.parser`: one of the characters `|`, `&`, `-`. */
  function ParseOperation(s: string): (r: Parsed<Operation>)
    ensures r.Success? ==> s != [] && r.rest == s[1..]
  {
    if s == [] then Failure
    else if s[0] == '|' then Success(Union, s[1..])
    else if s[0] == '&' then Success(Intersection, s[1..])
    else if s[0] == '-' then Success(Difference, s[1..])
    else Failure
  }

  /** `Expression.parser`: a `-` right after the whitespace marks a complement. */
  function ParseExpression(s: string): (r: Parsed<Expression>)
    ensures r.Success? ==> |r.rest| < |s|
    ensures r.Success? ==> WellFormedExpression(r.value)
    decreases |s|, 3
  {
    var d := DropWhitespace(s);
    var complement := d != [] && d[0] == '-';
    match ParseTerm(if complement then d[1..] else d)
    case Failure => Failure
    case Success(t, rest) => Success(Expression(complement, t), rest)
  }

  /** `Expression.Term.parser`: a filter, else a group, else a path. */
  function ParseTerm(s: string): (r: Parsed<Term>)
    ensures r.Success? ==> |r.rest| < |s|
    ensures r.Success? ==> WellFormedTerm(r.value)
    decreases |s|, 2
  {
    match ParseFilter(s)
    case Success(f, rest) => Success(FilterTerm(f), rest)
    case Failure =>
      match ParseGroup(s)
      case Success(g, rest) => Success(GroupTerm(g), rest)
      case Failure =>
        match ParsePath(s)
        case Success(p, rest) => Success(PathTerm(p), rest)
        case Failure => Failure
  }

  /** `Filter.parser`. */
  function ParseFilter(s: string): (r: Parsed<Filter>)
    ensures r.Success? ==> |r.rest| < |s|
    ensures r.Success? ==> WellFormedFilterOperand(r.value.term)
    decreases |s|, 1
  {
    match ParseSide(DropWhitespace(s))
    case Failure => Failure
    case Success(side, rest) =>
      match ParseFilterOperand(rest)
      case Failure => Failure
      case Success(t, rest') => Success(Filter(side, t), rest')
  }

  /** `Side.parser`: `L`, `R` or `B`, immediately followed by `:`. */
  function ParseSide(s: string): (r: Parsed<Side>)
    ensures r.Success? ==> |s| >= 2 && s[1] == ':' && r.rest == s[2..]
  {
    if |s| < 2 || s[1] != ':' then Failure
    else if s[0] == 'L' then Success(Left, s[2..])
    else if s[0] == 'R' then Success(Right, s[2..])
    else if s[0] == 'B' then Success(Both, s[2..])
    else Failure
  }

  /** `Filter.Term.parser`: a group, else a path. */
  function ParseFilterOperand(s: string): (r: Parsed<FilterOperand>)
    ensures r.Success? ==> |r.rest| < |s|
    ensures r.Success? ==> WellFormedFilterOperand(r.value)
    decreases |s|, 1
  {
    match ParseGroup(s)
    case Success(g, rest) => Success(GroupOperand(g), rest)
    case Failure =>
      match ParsePath(s)
      case Success(p, rest) => Success(PathOperand(p), rest)
      case Failure => Failure
  }

  /** `Group.parser`: the nested selector between `(` and `)`. */
  function ParseGroup(s: string): (r: Parsed<Group>)
    ensures r.Success? ==> |r.rest| < |s|
    ensures r.Success? ==> WellFormedSelector(r.value.selector)
    decreases |s|, 0
  {
    var d := DropWhitespace(s);
    if d == [] || d[0] != '(' then Failure
    else
      var inner := ParseSelector(d[1..]);
      var close := DropWhitespace(inner.rest);
      if close == [] || close[0] != ')' then Failure
      else Success(Group(inner.value), close[1..])
  }

  /** `Path.parser`: the trailing whitespace is read whether or not a `$` follows it. */
  function ParsePath(s: string): (r: Parsed<Path>)
    ensures r.Success? ==> |r.rest| < |s|
    ensures r.Success? ==> WellFormedPath(r.value)
  {
    var d := DropWhitespace(s);
    var beginAnchor := d != [] && d[0] == '^';
    match ParseScopeName(DropWhitespace(if beginAnchor then d[1..] else d))
    case Failure => Failure
    case Success(root, rest) =>
      var descendents := ParseDescendents(rest);
      var e := DropWhitespace(descendents.rest);
      var endAnchor := e != [] && e[0] == '$';
      Success(Path(beginAnchor, endAnchor, root, descendents.value), if endAnchor then e[1..] else e)
  }

  /** `zeroOrMore(Descendent.parser)`. */
  function ParseDescendents(s: string): (r: Parsed<seq<Descendent>>)
    ensures r.Success? && |r.rest| <= |s|
    ensures forall k :: 0 <= k < |r.value| ==> IsParsable(r.value[k].scopeName)
    decreases |s|
  {
    match ParseDescendent(s)
    case Failure => Success([], s)
    case Success(x, rest) =>
      var more := ParseDescendents(rest);
      Success([x] + more.value, more.rest)
  }

  /** `Descendent.parser`: a `>` marks a direct descendent; the name may stand apart from it. */
  function ParseDescendent(s: string): (r: Parsed<Descendent>)
    ensures r.Success? ==> |r.rest| < |s|
    ensures r.Success? ==> IsParsable(r.value.scopeName)
  {
    var d := DropWhitespace(s);
    var direct := d != [] && d[0] == '>';
    match ParseScopeName(DropWhitespace(if direct then d[1..] else d))
    case Failure => Failure
    case Success(name, rest) => Success(Descendent(if direct then Direct else Transitive, name), rest)
  }
}
