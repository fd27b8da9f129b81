/**
 * The `description` of every selector node: the text a selector prints as.
 * Sequences print joined by a separator (`", "` between composites, `" "`
 * between the expressions of a composite and between the names of a path);
 * optional marks print with one space towards the rest (`"- "`, `"^ "`,
 * `" $"`, `"> "`).
 */
module SelectorPrinter {
  import opened ScopeNames
  import opened SelectorAst

  /** `ScopeSelector.description`: the composites joined by `", "`. */
  function SelectorText(s: ScopeSelector): string
    decreases s, 1, 0
  {
    CompositesText(s, 0)
  }

  /** The composites of `s` from position `from` on, joined by `", "`. */
  function CompositesText(s: ScopeSelector, from: nat): string
    requires from <= |s.composites|
    decreases s, 0, |s.composites| - from
  {
    if from == |s.composites| then ""
    else if from + 1 == |s.composites| then CompositeText(s.composites[from])
    else CompositeText(s.composites[from]) + ", " + CompositesText(s, from + 1)
  }

  /** `Composite.description`: the base and the compositions joined by `" "`. */
  function CompositeText(c: Composite): string
    decreases c, 1, 0
  {
    ExpressionText(c.base) + CompositionsText(c, 0)
  }

  /** The compositions of `c` from position `from` on, each preceded by a space. */
  function CompositionsText(c: Composite, from: nat): string
    requires from <= |c.compositions|
    decreases c, 0, |c.compositions| - from
  {
    if from == |c.compositions| then ""
    else " " + CompositionText(c.compositions[from]) + CompositionsText(c, from + 1)
  }

  /** `Composition.description`: the operator, a space and the operand. */
  function CompositionText(x: Composition): string
    decreases x, 0, 0
  {
    OperationText(x.operation) + " " + ExpressionText(x.operand)
  }

  /** `Operation.description`: its raw value. */
  function OperationText(op: Operation): string {
    match op
    case Union => "|"
    case Intersection => "&"
    case Difference => "-"
  }

  /** `Expression.description`: `"- "` when complemented, then the term. */
  function ExpressionText(e: Expression): string
    decreases e, 0, 0
  {
    (if e.complement then "- " else "") + TermText(e.term)
  }

  /** `Expression.Term.description`: the description of the variant present. */
  function TermText(t: Term): string
    decreases t, 0, 0
  {
    match t
    case FilterTerm(f) => FilterText(f)
    case GroupTerm(g) => GroupText(g)
    case PathTerm(p) => PathText(p)
  }

  /** `Filter.description`: the side, a space and the nested term. */
  function FilterText(f: Filter): string
    decreases f, 0, 0
  {
    SideText(f.side) + " " + FilterOperandText(f.term)
  }

  /** `Side.description`: its raw value. */
  function SideText(side: Side): string {
    match side
    case Left => "L:"
    case Right => "R:"
    case Both => "B:"
  }

  /** `Filter.Term.description`. */
  function FilterOperandText(t: FilterOperand): string
    decreases t, 0, 0
  {
    match t
    case GroupOperand(g) => GroupText(g)
    case PathOperand(p) => PathText(p)
  }

  /** `Group.description`: the selector in parentheses. */
  function GroupText(g: Group): string
    decreases g, 0, 0
  {
    "(" + SelectorText(g.selector) + ")"
  }

  /** `Path.description`: `"^ "`, the names joined by `" "`, `" $"`. */
  function PathText(p: Path): string {
    (if p.beginAnchor then "^ " else "") + p.root.Description() + DescendentsText(p.descendents)
      + (if p.endAnchor then " $" else "")
  }

  /** The descendents, each preceded by a space. */
  function DescendentsText(ds: seq<Descendent>): string {
    if ds == [] then "" else " " + DescendentText(ds[0]) + DescendentsText(ds[1..])
  }

  /** `Descendent.description`: the bare name for a transitive one, `"> "` and the name for a direct one. */
  function DescendentText(d: Descendent): string {
    match d.selector
    case Transitive => d.scopeName.Description()
    case Direct => "> " + d.scopeName.Description()
  }
}
