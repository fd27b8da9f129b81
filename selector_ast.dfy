/**
 * The abstract syntax of TextMate scope selectors.  A selector is a
 * comma-separated list of composites; a composite folds expressions together
 * with `|`, `&` and `-`; an expression is a possibly complemented term; a
 * term is a side filter, a parenthesised group or a path of scope names.
 */
module SelectorAst {
  import opened ScopeNames

  /** `ScopeSelector`: the universal selector when `composites` is empty. */
  datatype ScopeSelector = ScopeSelector(composites: seq<Composite>)

  /** `Composite`: `base` followed by operations applied strictly left to right. */
  datatype Composite = Composite(base: Expression, compositions: seq<Composition>)

  /** `Composite.Composition`: one operator and its right operand. */
  datatype Composition = Composition(operation: Operation, operand: Expression)

  /** `Composition.Operation`, written `|`, `&` and `-`. */
  datatype Operation = Union | Intersection | Difference

  /** `Expression`: a term, negated when `complement` is set (written with a leading `-`). */
  datatype Expression = Expression(complement: bool, term: Term)

  /** `Expression.Term`. */
  datatype Term =
    | FilterTerm(filter: Filter)
    | GroupTerm(group: Group)
    | PathTerm(path: Path)

  /** `Filter`: restricts the nested term to one side of the position. */
  datatype Filter = Filter(side: Side, term: FilterOperand)

  /** `Filter.Side`, written `L:`, `R:` and `B:`. */
  datatype Side = Left | Right | Both

  /** `Filter.Term`: a filter applies to a group or a path, never to another filter. */
  datatype FilterOperand =
    | GroupOperand(group: Group)
    | PathOperand(path: Path)

  /** `Group`: a parenthesised selector. */
  datatype Group = Group(selector: ScopeSelector)

  /**
   * `Path`: a root name and its descendents, optionally anchored to the
   * start (`^`) and to the end (`$`) of the scope.
   */
  datatype Path = Path(beginAnchor: bool, endAnchor: bool, root: ScopeName, descendents: seq<Descendent>)

  /** `Path.Descendent.Selector`: `>` asks for the very next element, nothing for any later one. */
  datatype Relation = Transitive | Direct

  /** `Path.Descendent`. */
  datatype Descendent = Descendent(selector: Relation, scopeName: ScopeName)

  /** The steps a path is matched with: the root, direct exactly when the path is begin-anchored, then the descendents. */
  function Steps(p: Path): (steps: seq<Descendent>)
    ensures |steps| == 1 + |p.descendents|
    ensures steps[0].scopeName == p.root && (steps[0].selector == Direct <==> p.beginAnchor)
    ensures steps[1..] == p.descendents
  {
    [Descendent(if p.beginAnchor then Direct else Transitive, p.root)] + p.descendents
  }

  // Well-formedness: every scope name is one the grammar can produce.

  predicate WellFormedSelector(s: ScopeSelector) {
    forall k :: 0 <= k < |s.composites| ==> WellFormedComposite(s.composites[k])
  }

  predicate WellFormedComposite(c: Composite) {
    && WellFormedExpression(c.base)
    && forall k :: 0 <= k < |c.compositions| ==> WellFormedExpression(c.compositions[k].operand)
  }

  predicate WellFormedExpression(e: Expression) {
    WellFormedTerm(e.term)
  }

  predicate WellFormedTerm(t: Term) {
    match t
    case FilterTerm(f) => WellFormedFilterOperand(f.term)
    case GroupTerm(g) => WellFormedSelector(g.selector)
    case PathTerm(p) => WellFormedPath(p)
  }

  predicate WellFormedFilterOperand(t: FilterOperand) {
    match t
    case GroupOperand(g) => WellFormedSelector(g.selector)
    case PathOperand(p) => WellFormedPath(p)
  }

  predicate WellFormedPath(p: Path) {
    && IsParsable(p.root)
    && forall k :: 0 <= k < |p.descendents| ==> IsParsable(p.descendents[k].scopeName)
  }
}
