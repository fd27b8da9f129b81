/**
 * Matching a selector against a context.  Every node's `matches` is a total
 * boolean function of the node and the context; the two that the source
 * writes as loops, the composite fold and the path walk, are also given as
 * methods with loops, proved to compute those functions.
 */
module SelectorMatching {
  import opened Wrappers
  import opened ScopeNames
  import opened Scopes
  import opened Contexts
  import opened SelectorAst

  /** `ScopeSelector.matches`: the universal selector matches; otherwise the first matching composite decides. */
  function SelectorMatches(s: ScopeSelector, ctx: Context): bool
    decreases s, 1, 0
  {
    s.composites == [] || FirstMatching(s, 0, ctx).Some?
  }

  /** `composites.first { $0.matches(context) }`, searching from position `from` on. */
  function FirstMatching(s: ScopeSelector, from: nat, ctx: Context): Option<nat>
    requires from <= |s.composites|
    decreases s, 0, |s.composites| - from
  {
    if from == |s.composites| then None
    else if CompositeMatches(s.composites[from], ctx) then Some(from)
    else FirstMatching(s, from + 1, ctx)
  }

  /** `Composite.matches`: the fold of all compositions over the base. */
  function CompositeMatches(c: Composite, ctx: Context): bool
    decreases c, 1, 0
  {
    FoldUpTo(c, |c.compositions|, ctx)
  }

  /** The value of the `match` accumulator after the first `n` compositions. */
  function FoldUpTo(c: Composite, n: nat, ctx: Context): bool
    requires n <= |c.compositions|
    decreases c, 0, n
  {
    if n == 0 then ExpressionMatches(c.base, ctx)
    else Apply(FoldUpTo(c, n - 1, ctx), c.compositions[n - 1].operation, ExpressionMatches(c.compositions[n - 1].operand, ctx))
  }

  /** One step of the fold: `|` ors the operand in, `&` ands it in, `-` ands in its negation. */
  function Apply(acc: bool, op: Operation, operand: bool): bool {
    match op
    case Union => acc || operand
    case Intersection => acc && operand
    case Difference => acc && !operand
  }

  /** `Expression.matches`: the term's answer, negated when `complement` is set. */
  function ExpressionMatches(e: Expression, ctx: Context): bool
    decreases e, 0, 0
  {
    if e.complement then !TermMatches(e.term, ctx) else TermMatches(e.term, ctx)
  }

  /** `Expression.Term.matches`: dispatch to the one variant present. */
  function TermMatches(t: Term, ctx: Context): bool
    decreases t, 0, 0
  {
    match t
    case FilterTerm(f) => FilterMatches(f, ctx)
    case GroupTerm(g) => GroupMatches(g, ctx)
    case PathTerm(p) => PathMatches(p, ctx)
  }

  /**
   * `Filter.matches`: the nested term is matched on contexts that have no
   * left scope.  The left context's main scope is the left scope, or the main
   * scope when there is no left scope; the right context's is the main scope.
   */
  function FilterMatches(f: Filter, ctx: Context): bool
    decreases f, 0, 0
  {
    var leftContext := MainOnly(ctx.left.GetOr(ctx.main));
    var rightContext := MainOnly(ctx.main);
    match f.side
    case Left => FilterOperandMatches(f.term, leftContext)
    case Right => FilterOperandMatches(f.term, rightContext)
    case Both => FilterOperandMatches(f.term, leftContext) && FilterOperandMatches(f.term, rightContext)
  }

  /** `Filter.Term.matches`. */
  function FilterOperandMatches(t: FilterOperand, ctx: Context): bool
    decreases t, 0, 0
  {
    match t
    case GroupOperand(g) => GroupMatches(g, ctx)
    case PathOperand(p) => PathMatches(p, ctx)
  }

  /** `Group.matches`: the inner selector on the same context. */
  function GroupMatches(g: Group, ctx: Context): bool
    decreases g, 0, 0
  {
    SelectorMatches(g.selector, ctx)
  }

  /** One path step on a working scope: a direct step consumes the first element, a transitive one scans forward. */
  function Step(d: Descendent, scope: Scope): Option<Scope> {
    match d.selector
    case Direct => scope.AfterDirect(d.scopeName)
    case Transitive => scope.AfterTransitive(d.scopeName)
  }

  /** Runs the steps in order on the working scope; the first failing step fails the whole run. */
  function RunSteps(steps: seq<Descendent>, scope: Scope): Option<Scope>
    decreases |steps|
  {
    if steps == [] then Some(scope)
    else
      match Step(steps[0], scope)
      case None => None
      case Some(next) => RunSteps(steps[1..], next)
  }

  /** `Path.matches`: every step succeeds on a copy of the main scope, and an end anchor finds that copy used up. */
  function PathMatches(p: Path, ctx: Context): bool {
    match RunSteps(Steps(p), ctx.main)
    case None => false
    case Some(rest) => !p.endAnchor || rest.IsEmpty()
  }

  /** `Composite.matches` as the source writes it: a `for` loop updating `match`. */
  method MatchComposite(c: Composite, ctx: Context) returns (m: bool)
    ensures m == CompositeMatches(c, ctx)
  {
    m := ExpressionMatches(c.base, ctx);
    for i := 0 to |c.compositions|
      invariant m == FoldUpTo(c, i, ctx)
    {
      var composition := c.compositions[i];
      match composition.operation {
        case Union =>
          m := m || ExpressionMatches(composition.operand, ctx);
        case Intersection =>
          m := m && ExpressionMatches(composition.operand, ctx);
        case Difference =>
          m := m && !ExpressionMatches(composition.operand, ctx);
      }
    }
  }

  /**
   * `Path.matches` as the source writes it: a working copy of the main scope
   * is consumed step by step, returning false at the first failing step.
   */
  method MatchPath(p: Path, ctx: Context) returns (m: bool)
    ensures m == PathMatches(p, ctx)
  {
    var scope := ctx.main;
    var steps := Steps(p);
    for i := 0 to |steps|
      invariant RunSteps(steps, ctx.main) == RunSteps(steps[i..], scope)
    {
      var step := steps[i];
      assert steps[i..][0] == step && steps[i..][1..] == steps[i + 1..];
      var matched;
      match step.selector {
        case Transitive =>
          matched, scope := scope.MatchAndRemoveLeading(step.scopeName);
        case Direct =>
          matched, scope := scope.MatchAndRemoveFirst(step.scopeName);
      }
      if !matched {
        return false;
      }
    }
    m := !p.endAnchor || scope.IsEmpty();
  }
}
