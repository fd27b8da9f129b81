/**
 * The two scope stacks a selector is matched against: the one to the left of
 * the position being styled, which may be absent, and the one at it.
 */
module Contexts {
  import opened Wrappers
  import opened Scopes

  /** A plain record: both fields are set once, by the memberwise initialiser, and never changed. */
  datatype Context = Context(left: Option<Scope>, main: Scope)

  /** The initialiser with `left` left at its default: there is no scope to the left. */
  function MainOnly(main: Scope): (c: Context)
    ensures c.left.None? && c.main == main
  {
    Context(None, main)
  }
}
