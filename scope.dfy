/**
 * A scope is a stack of scope names, outermost first, as a tokenizer reports
 * it for one position of the text.  Path matching consumes a working copy of
 * a scope from the front with the two operations below.
 */
module Scopes {
  import opened Wrappers
  import opened Chars
  import opened Strings
  import opened ScopeNames

  datatype Scope = Scope(elements: seq<ScopeName>) {

    predicate IsEmpty() {
      elements == []
    }

    /**
     * The file-private array `popFirst`, applied to `elements`: the first
     * element and the scope without it, or nothing when the scope is empty.
     * Like every mutating operation on this value type, it is modelled as
     * returning the updated value.
     */
    method PopFirst() returns (first: Option<ScopeName>, after: Scope)
      ensures elements == [] ==> first == None && after == this
      ensures elements != [] ==> first == Some(elements[0]) && [elements[0]] + after.elements == elements
    {
      if elements == [] {
        return None, this;
      }
      first, after := Some(elements[0]), Scope(elements[1..]);
      assert [elements[0]] + elements[1..] == elements;
    }

    /** The position of the first (outermost) element that refines `name`, if any. */
    function FirstRefinement(name: ScopeName): (r: Option<nat>)
      ensures r.Some? ==> r.value < |elements| && elements[r.value].IsRefinement(name)
      ensures r.Some? ==> forall j :: 0 <= j < r.value ==> !elements[j].IsRefinement(name)
      ensures r.None? <==> forall j :: 0 <= j < |elements| ==> !elements[j].IsRefinement(name)
    {
      FirstRefinementFrom(name, 0)
    }

    function FirstRefinementFrom(name: ScopeName, i: nat): (r: Option<nat>)
      requires i <= |elements|
      requires forall j :: 0 <= j < i ==> !elements[j].IsRefinement(name)
      ensures r.Some? ==> i <= r.value < |elements| && elements[r.value].IsRefinement(name)
      ensures r.Some? ==> forall j :: 0 <= j < r.value ==> !elements[j].IsRefinement(name)
      ensures r.None? <==> forall j :: 0 <= j < |elements| ==> !elements[j].IsRefinement(name)
      decreases |elements| - i
    {
      if i == |elements| then None
      else if elements[i].IsRefinement(name) then Some(i)
      else FirstRefinementFrom(name, i + 1)
    }

    /** What a successful direct step leaves: the scope without its first element, when that element refines `name`. */
    function AfterDirect(name: ScopeName): Option<Scope> {
      if elements != [] && elements[0].IsRefinement(name) then Some(Scope(elements[1..])) else None
    }

    /** What a successful transitive step leaves: everything after the first element that refines `name`. */
    function AfterTransitive(name: ScopeName): Option<Scope> {
      match FirstRefinement(name)
      case None => None
      case Some(i) => Some(Scope(elements[i + 1..]))
    }

    /**
     * `matchAndRemoveFirst`: always pops the first element, even when it does
     * not refine `name`, and reports whether it did.  An empty scope stays
     * empty and the answer is false.
     */
    method MatchAndRemoveFirst(name: ScopeName) returns (matched: bool, after: Scope)
      ensures elements == [] ==> !matched && after.IsEmpty()
      ensures elements != [] ==> after.elements == elements[1..] && (matched <==> elements[0].IsRefinement(name))
      ensures matched <==> AfterDirect(name).Some?
      ensures matched ==> Some(after) == AfterDirect(name)
    {
      var first;
      first, after := PopFirst();
      matched := first.Some? && first.value.IsRefinement(name);
    }

    /**
     * `matchAndRemoveLeading`: pops elements from a local copy until one
     * refines `name`.  On success the result is what follows that element;
     * on failure the scope is returned unchanged, since only the copy was
     * consumed.
     */
    method MatchAndRemoveLeading(name: ScopeName) returns (matched: bool, after: Scope)
      ensures matched <==> exists i :: 0 <= i < |elements| && elements[i].IsRefinement(name)
      ensures matched ==> exists i :: (0 <= i < |elements| && elements[i].IsRefinement(name)
                                       && (forall j :: 0 <= j < i ==> !elements[j].IsRefinement(name))
                                       && after.elements == elements[i + 1..])
      ensures !matched ==> after == this
      ensures matched <==> AfterTransitive(name).Some?
      ensures matched ==> Some(after) == AfterTransitive(name)
    {
      var copy := this;
      while true
        invariant |copy.elements| <= |elements|
        invariant copy.elements == elements[|elements| - |copy.elements|..]
        invariant forall j :: 0 <= j < |elements| - |copy.elements| ==> !elements[j].IsRefinement(name)
        decreases |copy.elements|
      {
        var first;
        ghost var i := |elements| - |copy.elements|;
        first, copy := copy.PopFirst();
        match first
        case None =>
          return false, this;
        case Some(f) =>
          assert f == elements[i];
          if f.IsRefinement(name) {
            assert copy.elements == elements[i + 1..];
            return true, copy;
          }
      }
    }

    /** `description`: the names' descriptions joined with single spaces. */
    function Description(): string {
      Join(Descriptions(elements), ' ')
    }
  }

  /** Each name's description, in order. */
  function Descriptions(names: seq<ScopeName>): (texts: seq<string>)
    ensures |texts| == |names| && forall k :: 0 <= k < |names| ==> texts[k] == names[k].Description()
  {
    seq(|names|, k requires 0 <= k < |names| => names[k].Description())
  }

  /**
   * `Scope(string)`: splits the text on whitespace and builds one name from
   * each piece with `ScopeName(String(piece))`.  For a `String` argument that
   * call resolves to the non-throwing generic initialiser, the one that
   * splits on dots (the literal initialiser of `ScopeName` calls the same
   * overload without `try`), so building a scope from text never fails.
   */
  function FromText(s: string): (scope: Scope)
    ensures |scope.elements| == |Split(s, IsWhitespace)|
    ensures forall k :: 0 <= k < |scope.elements| ==> IsSplitName(scope.elements[k])
  {
    var pieces := Split(s, IsWhitespace);
    PiecesAreSplitNames(pieces);
    Scope(seq(|pieces|, k requires 0 <= k < |pieces| => FromString(pieces[k])))
  }

  /** A name the splitting initialiser builds from one piece of a scope's text: no component is empty or holds a dot or whitespace. */
  predicate IsSplitName(n: ScopeName) {
    forall k :: 0 <= k < |n.components| ==>
      n.components[k] != [] && '.' !in n.components[k] && NoSeparator(n.components[k], IsWhitespace)
  }

  /** The components split out of a whitespace-free piece are whitespace-free too. */
  lemma SplitName(piece: string)
    requires NoSeparator(piece, IsWhitespace)
    ensures IsSplitName(FromString(piece))
  {
    FromStringComponents(piece);
    SplitCharacters(piece, IsDot);
    var cs := FromString(piece).components;
    forall k, i | 0 <= k < |cs| && 0 <= i < |cs[k]| ensures !IsWhitespace(cs[k][i]) {
      assert cs[k][i] in piece;
    }
  }

  lemma PiecesAreSplitNames(pieces: seq<string>)
    requires forall k :: 0 <= k < |pieces| ==> NoSeparator(pieces[k], IsWhitespace)
    ensures forall k :: 0 <= k < |pieces| ==> IsSplitName(FromString(pieces[k]))
  {
    forall k | 0 <= k < |pieces| ensures IsSplitName(FromString(pieces[k])) {
      SplitName(pieces[k]);
    }
  }

  /** A name that reads back from its description inside a scope's text. */
  predicate IsPrintable(n: ScopeName) {
    n.components != [] && IsSplitName(n)
  }

  /** A scope of printable names reads back from its description. */
  lemma DescriptionRoundTrip(scope: Scope)
    requires forall k :: 0 <= k < |scope.elements| ==> IsPrintable(scope.elements[k])
    ensures FromText(scope.Description()) == scope
  {
    var es := scope.elements;
    var texts := Descriptions(es);
    forall k | 0 <= k < |texts| ensures texts[k] != [] && NoSeparator(texts[k], IsWhitespace) {
      JoinNonEmpty(es[k].components, '.');
      JoinNoSeparator(es[k].components, '.', IsWhitespace);
    }
    SplitJoin(texts, ' ', IsWhitespace);
    var pieces := Split(scope.Description(), IsWhitespace);
    assert pieces == texts;
    forall k | 0 <= k < |es| ensures FromString(pieces[k]) == es[k] {
      ScopeNames.DescriptionRoundTrip(es[k]);
    }
    assert FromText(scope.Description()).elements == es;
  }
}
