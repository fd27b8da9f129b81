/** What the matcher promises, stated over all selectors, contexts and scopes. */
module MatchingLaws {
  import opened Wrappers
  import opened ScopeNames
  import opened Scopes
  import opened Contexts
  import opened SelectorAst
  import opened SelectorMatching

  // ----- Selectors -----

  /** The search for the first matching composite finds one exactly when one matches. */
  lemma {:induction false} FirstMatchingFinds(s: ScopeSelector, from: nat, ctx: Context)
    requires from <= |s.composites|
    ensures FirstMatching(s, from, ctx).Some? <==>
      exists k :: from <= k < |s.composites| && CompositeMatches(s.composites[k], ctx)
    decreases |s.composites| - from
  {
    if from < |s.composites| && !CompositeMatches(s.composites[from], ctx) {
      FirstMatchingFinds(s, from + 1, ctx);
    }
  }

  /** A selector with composites matches exactly when at least one of them does. */
  lemma SelectorMatchesSomeComposite(s: ScopeSelector, ctx: Context)
    requires s.composites != []
    ensures SelectorMatches(s, ctx) <==> exists k :: 0 <= k < |s.composites| && CompositeMatches(s.composites[k], ctx)
  {
    FirstMatchingFinds(s, 0, ctx);
  }

  /** The comma is a union: `a, b` and `a | b` match the same contexts. */
  lemma CommaIsUnion(a: Expression, b: Expression, ctx: Context)
    ensures SelectorMatches(ScopeSelector([Composite(a, []), Composite(b, [])]), ctx)
        == CompositeMatches(Composite(a, [Composition(Union, b)]), ctx)
  {
    var s := ScopeSelector([Composite(a, []), Composite(b, [])]);
    SelectorMatchesSomeComposite(s, ctx);
    assert CompositeMatches(s.composites[0], ctx) == ExpressionMatches(a, ctx);
    assert CompositeMatches(s.composites[1], ctx) == ExpressionMatches(b, ctx);
    var c := Composite(a, [Composition(Union, b)]);
    assert FoldUpTo(c, 1, ctx) == (FoldUpTo(c, 0, ctx) || ExpressionMatches(b, ctx));
  }

  // ----- Composites -----

  /** The fold only looks at the compositions it has reached. */
  lemma {:induction false} FoldUpToPrefix(c: Composite, d: Composite, n: nat, ctx: Context)
    requires c.base == d.base && n <= |c.compositions| && n <= |d.compositions|
    requires c.compositions[..n] == d.compositions[..n]
    ensures FoldUpTo(c, n, ctx) == FoldUpTo(d, n, ctx)
  {
    if n > 0 {
      assert c.compositions[..n - 1] == c.compositions[..n][..n - 1];
      assert d.compositions[..n - 1] == d.compositions[..n][..n - 1];
      assert c.compositions[n - 1] == c.compositions[..n][n - 1];
      assert d.compositions[n - 1] == d.compositions[..n][n - 1];
      FoldUpToPrefix(c, d, n - 1, ctx);
    }
  }

  /** A composite without compositions is its base. */
  lemma NoComposition(base: Expression, ctx: Context)
    ensures CompositeMatches(Composite(base, []), ctx) == ExpressionMatches(base, ctx)
  {
    assert CompositeMatches(Composite(base, []), ctx) == FoldUpTo(Composite(base, []), 0, ctx);
  }

  /** A composite with one composition applies its operator to the base and the operand. */
  lemma OneComposition(base: Expression, x: Composition, ctx: Context)
    ensures CompositeMatches(Composite(base, [x]), ctx) == Apply(ExpressionMatches(base, ctx), x.operation, ExpressionMatches(x.operand, ctx))
  {
    CompositeAppend(base, [], x, ctx);
    assert [] + [x] == [x];
    NoComposition(base, ctx);
  }

  /** Left to right: appending a composition applies it to the result of everything before it. */
  lemma CompositeAppend(base: Expression, cs: seq<Composition>, x: Composition, ctx: Context)
    ensures CompositeMatches(Composite(base, cs + [x]), ctx)
        == Apply(CompositeMatches(Composite(base, cs), ctx), x.operation, ExpressionMatches(x.operand, ctx))
  {
    var c, d := Composite(base, cs), Composite(base, cs + [x]);
    assert d.compositions[..|cs|] == c.compositions[..|cs|];
    FoldUpToPrefix(c, d, |cs|, ctx);
    assert d.compositions[|cs|] == x;
  }

  /** With only `|` operators a composite matches when the base or any operand matches. */
  lemma {:induction false} UnionsMatchAny(c: Composite, n: nat, ctx: Context)
    requires n <= |c.compositions|
    requires forall k :: 0 <= k < n ==> c.compositions[k].operation == Union
    ensures FoldUpTo(c, n, ctx) <==>
      ExpressionMatches(c.base, ctx) || exists k :: 0 <= k < n && ExpressionMatches(c.compositions[k].operand, ctx)
  {
    if n > 0 {
      UnionsMatchAny(c, n - 1, ctx);
    }
  }

  /** With only `&` operators a composite matches when the base and every operand match. */
  lemma {:induction false} IntersectionsMatchAll(c: Composite, n: nat, ctx: Context)
    requires n <= |c.compositions|
    requires forall k :: 0 <= k < n ==> c.compositions[k].operation == Intersection
    ensures FoldUpTo(c, n, ctx) <==>
      ExpressionMatches(c.base, ctx) && forall k :: 0 <= k < n ==> ExpressionMatches(c.compositions[k].operand, ctx)
  {
    if n > 0 {
      IntersectionsMatchAll(c, n - 1, ctx);
    }
  }

  /** `&` and `-` can only narrow: a composite whose base fails and that has no `|` fails. */
  lemma {:induction false} NoUnionNeedsBase(c: Composite, n: nat, ctx: Context)
    requires n <= |c.compositions|
    requires forall k :: 0 <= k < n ==> c.compositions[k].operation != Union
    requires !ExpressionMatches(c.base, ctx)
    ensures !FoldUpTo(c, n, ctx)
  {
    if n > 0 {
      NoUnionNeedsBase(c, n - 1, ctx);
    }
  }

  /** A trailing `- x` excludes every context that `x` matches. */
  lemma DifferenceExcludes(base: Expression, cs: seq<Composition>, x: Expression, ctx: Context)
    requires ExpressionMatches(x, ctx)
    ensures !CompositeMatches(Composite(base, cs + [Composition(Difference, x)]), ctx)
  {
    CompositeAppend(base, cs, Composition(Difference, x), ctx);
  }

  /** `a - x` is `a & -x`: a difference is an intersection with the operand's complement. */
  lemma DifferenceIsIntersectionWithComplement(base: Expression, cs: seq<Composition>, x: Expression, ctx: Context)
    ensures CompositeMatches(Composite(base, cs + [Composition(Difference, x)]), ctx)
        == CompositeMatches(Composite(base, cs + [Composition(Intersection, Expression(!x.complement, x.term))]), ctx)
  {
    CompositeAppend(base, cs, Composition(Difference, x), ctx);
    CompositeAppend(base, cs, Composition(Intersection, Expression(!x.complement, x.term)), ctx);
  }

  // ----- Expressions and groups -----

  /** A group holding a single composite matches exactly when that composite does. */
  lemma GroupOfOneComposite(c: Composite, ctx: Context)
    ensures GroupMatches(Group(ScopeSelector([c])), ctx) == CompositeMatches(c, ctx)
  {
    SelectorMatchesSomeComposite(ScopeSelector([c]), ctx);
  }

  /** Complementing a group that holds a complemented term gives back the term: `- (- t)` is `t`. */
  lemma DoubleComplement(t: Term, ctx: Context)
    ensures ExpressionMatches(Expression(true, GroupTerm(Group(ScopeSelector([Composite(Expression(true, t), [])])))), ctx)
        == ExpressionMatches(Expression(false, t), ctx)
  {
    var c := Composite(Expression(true, t), []);
    GroupOfOneComposite(c, ctx);
    assert CompositeMatches(c, ctx) == FoldUpTo(c, 0, ctx) == !TermMatches(t, ctx);
  }

  /** A complemented group of one composite: `- (a | b)` matches exactly where `- a & - b` does. */
  lemma ComplementOfUnion(a: Term, b: Term, ctx: Context)
    ensures ExpressionMatches(Expression(true, GroupTerm(Group(ScopeSelector([
              Composite(Expression(false, a), [Composition(Union, Expression(false, b))])])))), ctx)
        == CompositeMatches(Composite(Expression(true, a), [Composition(Intersection, Expression(true, b))]), ctx)
  {
    var c := Composite(Expression(false, a), [Composition(Union, Expression(false, b))]);
    var d := Composite(Expression(true, a), [Composition(Intersection, Expression(true, b))]);
    GroupOfOneComposite(c, ctx);
    OneComposition(c.base, c.compositions[0], ctx);
    OneComposition(d.base, d.compositions[0], ctx);
  }

  /** And dually: `- (a & b)` matches exactly where `- a | - b` does. */
  lemma ComplementOfIntersection(a: Term, b: Term, ctx: Context)
    ensures ExpressionMatches(Expression(true, GroupTerm(Group(ScopeSelector([
              Composite(Expression(false, a), [Composition(Intersection, Expression(false, b))])])))), ctx)
        == CompositeMatches(Composite(Expression(true, a), [Composition(Union, Expression(true, b))]), ctx)
  {
    var c := Composite(Expression(false, a), [Composition(Intersection, Expression(false, b))]);
    var d := Composite(Expression(true, a), [Composition(Union, Expression(true, b))]);
    GroupOfOneComposite(c, ctx);
    OneComposition(c.base, c.compositions[0], ctx);
    OneComposition(d.base, d.compositions[0], ctx);
  }

  // ----- Filters -----

  /**
   * A filter inside a filtered group changes nothing: the inner filter sees
   * a context without a left scope, so `x: (y: t)` matches exactly where
   * `x: t` does, whatever the two sides.
   */
  lemma NestedFilterIsOuter(x: Side, y: Side, t: FilterOperand, ctx: Context)
    ensures FilterMatches(Filter(x, GroupOperand(Group(ScopeSelector([
              Composite(Expression(false, FilterTerm(Filter(y, t))), [])])))), ctx)
        == FilterMatches(Filter(x, t), ctx)
  {
    var inner := Composite(Expression(false, FilterTerm(Filter(y, t))), []);
    forall m: Scope ensures GroupMatches(Group(ScopeSelector([inner])), MainOnly(m)) == FilterOperandMatches(t, MainOnly(m)) {
      var ctx' := MainOnly(m);
      GroupOfOneComposite(inner, ctx');
      assert MainOnly(ctx'.left.GetOr(ctx'.main)) == ctx';
      NoComposition(inner.base, ctx');
      assert ExpressionMatches(inner.base, ctx') == FilterMatches(Filter(y, t), ctx');
    }
  }

  // A selector reads the left scope only through `L:` and `B:` filters that
  // are not themselves inside a filter.

  predicate RightOnlySelector(s: ScopeSelector) {
    forall k :: 0 <= k < |s.composites| ==> RightOnlyComposite(s.composites[k])
  }

  predicate RightOnlyComposite(c: Composite) {
    && RightOnlyTerm(c.base.term)
    && forall k :: 0 <= k < |c.compositions| ==> RightOnlyTerm(c.compositions[k].operand.term)
  }

  predicate RightOnlyTerm(t: Term) {
    match t
    case FilterTerm(f) => f.side == Right
    case GroupTerm(g) => RightOnlySelector(g.selector)
    case PathTerm(_) => true
  }

  /** A selector without `L:` and `B:` filters gives the same answer whatever the left scope. */
  lemma {:induction false} SelectorIgnoresLeftScope(s: ScopeSelector, left: Option<Scope>, main: Scope)
    requires RightOnlySelector(s)
    ensures SelectorMatches(s, Context(left, main)) == SelectorMatches(s, MainOnly(main))
    decreases s, 1, 0
  {
    FirstMatchingIgnoresLeftScope(s, 0, left, main);
  }

  lemma {:induction false} FirstMatchingIgnoresLeftScope(s: ScopeSelector, from: nat, left: Option<Scope>, main: Scope)
    requires from <= |s.composites| && RightOnlySelector(s)
    ensures FirstMatching(s, from, Context(left, main)) == FirstMatching(s, from, MainOnly(main))
    decreases s, 0, |s.composites| - from
  {
    if from < |s.composites| {
      CompositeIgnoresLeftScope(s.composites[from], left, main);
      FirstMatchingIgnoresLeftScope(s, from + 1, left, main);
    }
  }

  lemma {:induction false} CompositeIgnoresLeftScope(c: Composite, left: Option<Scope>, main: Scope)
    requires RightOnlyComposite(c)
    ensures CompositeMatches(c, Context(left, main)) == CompositeMatches(c, MainOnly(main))
    decreases c, 1, 0
  {
    FoldIgnoresLeftScope(c, |c.compositions|, left, main);
  }

  lemma {:induction false} FoldIgnoresLeftScope(c: Composite, n: nat, left: Option<Scope>, main: Scope)
    requires n <= |c.compositions| && RightOnlyComposite(c)
    ensures FoldUpTo(c, n, Context(left, main)) == FoldUpTo(c, n, MainOnly(main))
    decreases c, 0, n
  {
    if n == 0 {
      TermIgnoresLeftScope(c.base.term, left, main);
    } else {
      FoldIgnoresLeftScope(c, n - 1, left, main);
      TermIgnoresLeftScope(c.compositions[n - 1].operand.term, left, main);
    }
  }

  lemma {:induction false} TermIgnoresLeftScope(t: Term, left: Option<Scope>, main: Scope)
    requires RightOnlyTerm(t)
    ensures TermMatches(t, Context(left, main)) == TermMatches(t, MainOnly(main))
    decreases t, 0, 0
  {
    match t
    case FilterTerm(f) =>
    case GroupTerm(g) => SelectorIgnoresLeftScope(g.selector, left, main);
    case PathTerm(p) =>
  }


  // ----- Paths -----

  /** Every successful step consumes at least one element, so a run of `n` steps needs `n` elements. */
  lemma {:induction false} RunStepsConsumes(steps: seq<Descendent>, scope: Scope)
    requires RunSteps(steps, scope).Some?
    ensures |RunSteps(steps, scope).value.elements| + |steps| <= |scope.elements|
    decreases |steps|
  {
    if steps != [] {
      var next := Step(steps[0], scope).value;
      RunStepsConsumes(steps[1..], next);
    }
  }

  /** No path matches an empty main scope: the root step always needs an element to consume. */
  lemma NoPathMatchesEmptyScope(p: Path, ctx: Context)
    requires ctx.main.IsEmpty()
    ensures !PathMatches(p, ctx)
  {
    if RunSteps(Steps(p), ctx.main).Some? {
      RunStepsConsumes(Steps(p), ctx.main);
    }
  }

  /** A path needs at least as many elements as it has names. */
  lemma PathNeedsElements(p: Path, ctx: Context)
    requires PathMatches(p, ctx)
    ensures |ctx.main.elements| >= 1 + |p.descendents|
  {
    RunStepsConsumes(Steps(p), ctx.main);
  }

  /** A lone unanchored name matches exactly when some element of the main scope refines it. */
  lemma SingleNamePath(root: ScopeName, ctx: Context)
    ensures PathMatches(Path(false, false, root, []), ctx) <==>
      exists i :: 0 <= i < |ctx.main.elements| && ctx.main.elements[i].IsRefinement(root)
  {
    var p := Path(false, false, root, []);
    assert Steps(p) == [Descendent(Transitive, root)];
    var r := ctx.main.FirstRefinement(root);
    if r.Some? {
      assert RunSteps(Steps(p), ctx.main).Some?;
    }
  }

  /** With `^`, a lone name matches exactly when the first (outermost) element refines it. */
  lemma BeginAnchoredName(root: ScopeName, ctx: Context)
    ensures PathMatches(Path(true, false, root, []), ctx) <==>
      ctx.main.elements != [] && ctx.main.elements[0].IsRefinement(root)
  {
    var p := Path(true, false, root, []);
    assert Steps(p) == [Descendent(Direct, root)];
    var r := ctx.main.AfterDirect(root);
    assert RunSteps(Steps(p), ctx.main) == r;
  }

  // ----- Paths, read as positions in the element list -----

  /** The first position at or after `from` whose element refines `name`. */
  function FirstRefiningFrom(e: seq<ScopeName>, name: ScopeName, from: nat): (r: Option<nat>)
    requires from <= |e|
    ensures r.Some? ==> from <= r.value < |e| && e[r.value].IsRefinement(name)
    ensures r.Some? ==> forall k :: from <= k < r.value ==> !e[k].IsRefinement(name)
    ensures r.None? ==> forall k :: from <= k < |e| ==> !e[k].IsRefinement(name)
    decreases |e| - from
  {
    if from == |e| then None
    else if e[from].IsRefinement(name) then Some(from)
    else FirstRefiningFrom(e, name, from + 1)
  }

  /** Where one step leaves off when it starts at position `from`: just after the element it takes. */
  function StepAt(d: Descendent, e: seq<ScopeName>, from: nat): (r: Option<nat>)
    requires from <= |e|
    ensures r.Some? ==> from < r.value <= |e|
  {
    match d.selector
    case Direct => if from < |e| && e[from].IsRefinement(d.scopeName) then Some(from + 1) else None
    case Transitive =>
      match FirstRefiningFrom(e, d.scopeName, from)
      case None => None
      case Some(k) => Some(k + 1)
  }

  /** Where a run of steps leaves off when it starts at position `from`. */
  function Walk(steps: seq<Descendent>, e: seq<ScopeName>, from: nat): (r: Option<nat>)
    requires from <= |e|
    ensures r.Some? ==> from <= r.value <= |e|
    decreases |steps|
  {
    if steps == [] then Some(from)
    else
      match StepAt(steps[0], e, from)
      case None => None
      case Some(k) => Walk(steps[1..], e, k)
  }

  /** The scope a position stands for: the elements from there on. */
  function Rest(e: seq<ScopeName>, at: Option<nat>): Option<Scope>
    requires at.Some? ==> at.value <= |e|
  {
    match at
    case None => None
    case Some(k) => Some(Scope(e[k..]))
  }

  /** One step on the scope of the elements from `from` on is the positional step. */
  lemma StepIsStepAt(d: Descendent, e: seq<ScopeName>, from: nat)
    requires from <= |e|
    ensures Step(d, Scope(e[from..])) == Rest(e, StepAt(d, e, from))
  {
    var scope := Scope(e[from..]);
    var name := d.scopeName;
    if d.selector == Transitive {
      var r := scope.FirstRefinement(name);
      var q := FirstRefiningFrom(e, name, from);
      if r.Some? {
        assert scope.elements[r.value] == e[from + r.value];
        assert q.Some? && q.value <= from + r.value;
        assert q.value >= from + r.value by {
          assert scope.elements[q.value - from] == e[q.value];
        }
        assert e[from..][r.value + 1..] == e[from + r.value + 1..];
      }
    } else if from < |e| {
      assert e[from..][0] == e[from] && e[from..][1..] == e[from + 1..];
    }
  }

  /** Running the steps on the scope of the elements from `from` on is the positional walk. */
  lemma {:induction false} RunStepsIsWalk(steps: seq<Descendent>, e: seq<ScopeName>, from: nat)
    requires from <= |e|
    ensures RunSteps(steps, Scope(e[from..])) == Rest(e, Walk(steps, e, from))
    decreases |steps|
  {
    if steps != [] {
      StepIsStepAt(steps[0], e, from);
      var k := StepAt(steps[0], e, from);
      if k.Some? {
        RunStepsIsWalk(steps[1..], e, k.value);
      }
    }
  }

  /**
   * Where each step's element may lie in `e`, reading the steps from position
   * `from` on: at or after `from`, and exactly at `from` for a direct step;
   * the next step then reads from just after that element.
   */
  ghost predicate Embeds(steps: seq<Descendent>, e: seq<ScopeName>, from: nat, idx: seq<nat>)
    decreases |steps|
  {
    && |idx| == |steps|
    && (steps != [] ==>
         && from <= idx[0] < |e|
         && e[idx[0]].IsRefinement(steps[0].scopeName)
         && (steps[0].selector == Direct ==> idx[0] == from)
         && Embeds(steps[1..], e, idx[0] + 1, idx[1..]))
  }

  /** A successful step takes one element that refines its name: the one at `from` for a direct step. */
  lemma StepAtTakes(d: Descendent, e: seq<ScopeName>, from: nat)
    requires from <= |e| && StepAt(d, e, from).Some?
    ensures var j := StepAt(d, e, from).value - 1;
      && from <= j < |e| && e[j].IsRefinement(d.scopeName)
      && (d.selector == Direct ==> j == from)
  {
  }

  /** Extending an embedding of the later steps by the position of the first step. */
  lemma EmbedsCons(steps: seq<Descendent>, e: seq<ScopeName>, from: nat, j: nat, rest: seq<nat>)
    requires steps != [] && from <= j < |e|
    requires e[j].IsRefinement(steps[0].scopeName)
    requires steps[0].selector == Direct ==> j == from
    requires Embeds(steps[1..], e, j + 1, rest)
    ensures Embeds(steps, e, from, [j] + rest)
  {
    var idx := [j] + rest;
    assert idx[0] == j && idx[1..] == rest;
  }

  /**
   * A successful walk picks out one element per step, in order, and leaves
   * off just after the last element it picked.
   */
  lemma {:induction false} WalkSound(steps: seq<Descendent>, e: seq<ScopeName>, from: nat) returns (idx: seq<nat>)
    requires from <= |e| && Walk(steps, e, from).Some?
    ensures Embeds(steps, e, from, idx)
    ensures steps != [] ==> Walk(steps, e, from).value == idx[|idx| - 1] + 1
    decreases |steps|
  {
    if steps == [] {
      return [];
    }
    var k := StepAt(steps[0], e, from).value;
    StepAtTakes(steps[0], e, from);
    var rest := WalkSound(steps[1..], e, k);
    idx := [k - 1] + rest;
    EmbedsCons(steps, e, from, k - 1, rest);
    assert idx[|idx| - 1] == if rest == [] then k - 1 else rest[|rest| - 1];
  }

  /**
   * Soundness of path matching: a matching path has, for each of its names in
   * order, an element of the main scope that refines it, with `^` pinning the
   * root to the first element, `>` pinning a name to the element right after
   * the previous one, and `$` pinning the last name to the last element.
   */
  lemma PathMatchSound(p: Path, ctx: Context) returns (idx: seq<nat>)
    requires PathMatches(p, ctx)
    ensures Embeds(Steps(p), ctx.main.elements, 0, idx)
    ensures p.endAnchor ==> idx[|idx| - 1] == |ctx.main.elements| - 1
  {
    var e := ctx.main.elements;
    assert e[0..] == e;
    RunStepsIsWalk(Steps(p), e, 0);
    idx := WalkSound(Steps(p), e, 0);
  }

  /** Moving the start earlier keeps an embedding whose first step is transitive. */
  lemma EmbedsFromEarlier(steps: seq<Descendent>, e: seq<ScopeName>, from: nat, earlier: nat, idx: seq<nat>)
    requires earlier <= from
    requires steps != [] ==> steps[0].selector == Transitive
    requires Embeds(steps, e, from, idx)
    ensures Embeds(steps, e, earlier, idx)
  {
  }

  predicate AllTransitive(steps: seq<Descendent>) {
    forall k :: 0 <= k < |steps| ==> steps[k].selector == Transitive
  }

  lemma AllTransitiveTail(steps: seq<Descendent>)
    requires steps != [] && AllTransitive(steps)
    ensures AllTransitive(steps[1..])
  {
    forall k | 0 <= k < |steps[1..]| ensures steps[1..][k].selector == Transitive {
      assert steps[1..][k] == steps[k + 1];
    }
  }

  /** For transitive steps, taking the leftmost refining element never loses a walk that exists. */
  lemma {:induction false} WalkComplete(steps: seq<Descendent>, e: seq<ScopeName>, from: nat, idx: seq<nat>)
    requires from <= |e|
    requires AllTransitive(steps)
    requires Embeds(steps, e, from, idx)
    ensures Walk(steps, e, from).Some?
    decreases |steps|
  {
    if steps != [] {
      var k := StepAt(steps[0], e, from).value;
      AllTransitiveTail(steps);
      if steps[1..] != [] {
        EmbedsFromEarlier(steps[1..], e, idx[0] + 1, k, idx[1..]);
      }
      WalkComplete(steps[1..], e, k, idx[1..]);
    }
  }

  /**
   * Completeness for paths without `>` or `$`: if the names occur in order in
   * the main scope (each as a refinement, the root at the first element when
   * the path starts with `^`), the path matches.
   */
  lemma PathMatchComplete(p: Path, ctx: Context, idx: seq<nat>)
    requires !p.endAnchor
    requires forall k :: 0 <= k < |p.descendents| ==> p.descendents[k].selector == Transitive
    requires Embeds(Steps(p), ctx.main.elements, 0, idx)
    ensures PathMatches(p, ctx)
  {
    var e := ctx.main.elements;
    assert e[0..] == e;
    var steps := Steps(p);
    assert AllTransitive(p.descendents);
    if p.beginAnchor {
      assert StepAt(steps[0], e, 0) == Some(1);
      WalkComplete(steps[1..], e, 1, idx[1..]);
    } else {
      assert AllTransitive(steps) by {
        forall k | 0 <= k < |steps| ensures steps[k].selector == Transitive {
          if k > 0 { assert steps[k] == p.descendents[k - 1]; }
        }
      }
      WalkComplete(steps, e, 0, idx);
    }
    RunStepsIsWalk(steps, e, 0);
  }
}
