/**
 * A scope name is a dotted identifier such as `meta.property.vendor`, kept as
 * its list of components.  Prefix and refinement tests compare components by
 * exact equality; there is no wildcard component.
 */
module ScopeNames {
  import opened Wrappers
  import opened Chars
  import opened Strings

  datatype ScopeName = ScopeName(components: seq<string>) {

    /** `self` is a prefix of `name`: `name.components` starts with `components`. */
    predicate IsPrefix(name: ScopeName) {
      StartsWith(name.components, components)
    }

    /** `self` refines `name`: `components` starts with `name.components`. */
    predicate IsRefinement(name: ScopeName) {
      StartsWith(components, name.components)
    }

    predicate IsEmpty() {
      components == []
    }

    /** The mutating `removeFirst(count)`: returns the name with its first `count` components dropped. */
    method RemoveFirst(count: nat) returns (after: ScopeName)
      requires count <= |components|
      ensures components == components[..count] + after.components
      ensures |after.components| == |components| - count
    {
      after := ScopeName(components[count..]);
      assert components == components[..count] + components[count..];
    }

    /**
     * The mutating `removePrefix(name)`: when `self` refines `name`, drops
     * `name`'s components from the front and reports success; otherwise
     * reports failure and leaves the components as they were.
     */
    method RemovePrefix(name: ScopeName) returns (removed: bool, after: ScopeName)
      ensures removed <==> IsRefinement(name)
      ensures removed ==> name.components + after.components == components
      ensures !removed ==> after == this
    {
      if !IsRefinement(name) {
        return false, this;
      }
      StartsWithIsPrefix(components, name.components);
      after := RemoveFirst(|name.components|);
      removed := true;
    }

    /** `description`: the components joined with dots. */
    function Description(): string {
      Join(components, '.')
    }
  }

  /** Swift's `Sequence.starts(with:)`: walks both sequences while `prefix` lasts. */
  function StartsWith<T(==)>(s: seq<T>, prefix: seq<T>): bool {
    prefix == [] || (s != [] && s[0] == prefix[0] && StartsWith(s[1..], prefix[1..]))
  }

  /** `starts(with:)` holds exactly when `prefix` is an initial segment of `s`. */
  lemma {:induction false} StartsWithIsPrefix<T>(s: seq<T>, prefix: seq<T>)
    ensures StartsWith(s, prefix) <==> |prefix| <= |s| && s[..|prefix|] == prefix
  {
    if prefix != [] && s != [] {
      StartsWithIsPrefix(s[1..], prefix[1..]);
      if |prefix| <= |s| && s[..|prefix|] == prefix {
        assert s[1..][..|prefix| - 1] == prefix[1..];
      }
      if StartsWith(s, prefix) {
        assert s[..|prefix|] == [s[0]] + s[1..][..|prefix| - 1];
        assert prefix == [prefix[0]] + prefix[1..];
      }
    }
  }

  /** `a.isPrefix(of: b)` holds exactly when `b`'s components begin with all of `a`'s, compared one by one. */
  lemma IsPrefixComponentwise(a: ScopeName, b: ScopeName)
    ensures a.IsPrefix(b) <==>
      |a.components| <= |b.components| && forall i :: 0 <= i < |a.components| ==> a.components[i] == b.components[i]
  {
    StartsWithIsPrefix(b.components, a.components);
    if |a.components| <= |b.components| && forall i :: 0 <= i < |a.components| ==> a.components[i] == b.components[i] {
      assert b.components[..|a.components|] == a.components;
    }
  }

  /** Two names that refine each other are the same name: refinement is a partial order. */
  lemma {:induction false} RefinementAntisymmetric(a: ScopeName, b: ScopeName)
    requires a.IsRefinement(b) && b.IsRefinement(a)
    ensures a == b
  {
    StartsWithIsPrefix(a.components, b.components);
    StartsWithIsPrefix(b.components, a.components);
    assert a.components == a.components[..|b.components|];
  }

  /** Every name refines itself. */
  lemma {:induction false} RefinementReflexive(a: ScopeName)
    ensures a.IsRefinement(a)
  {
    StartsWithIsPrefix(a.components, a.components);
  }

  /** A refinement of a refinement of `c` refines `c`. */
  lemma {:induction false} RefinementTransitive(a: ScopeName, b: ScopeName, c: ScopeName)
    requires a.IsRefinement(b) && b.IsRefinement(c)
    ensures a.IsRefinement(c)
  {
    StartsWithIsPrefix(a.components, b.components);
    StartsWithIsPrefix(b.components, c.components);
    StartsWithIsPrefix(a.components, c.components);
    assert a.components[..|c.components|] == b.components[..|c.components|];
  }

  /** `ScopeName(string)`: splits on dots and drops the empty pieces. */
  function FromString(s: string): ScopeName {
    ScopeName(Split(s, IsDot))
  }

  /** No component built from a string is empty or holds a dot. */
  lemma FromStringComponents(s: string)
    ensures forall k :: 0 <= k < |FromString(s).components| ==>
      FromString(s).components[k] != [] && '.' !in FromString(s).components[k]
  {
    var cs := FromString(s).components;
    forall k | 0 <= k < |cs| ensures cs[k] != [] && '.' !in cs[k] {
      assert NoSeparator(cs[k], IsDot);
    }
  }

  /** The name built from a string is empty exactly when the string holds nothing but dots (`""` among them). */
  lemma FromStringIsEmpty(s: string)
    ensures FromString(s).IsEmpty() <==> forall i :: 0 <= i < |s| ==> s[i] == '.'
  {
    SplitEmpty(s, IsDot);
  }

  /** Non-empty, dot-free components survive `description` followed by the string initialiser. */
  lemma DescriptionRoundTrip(n: ScopeName)
    requires forall k :: 0 <= k < |n.components| ==> n.components[k] != [] && '.' !in n.components[k]
    ensures FromString(n.Description()) == n
  {
    forall k | 0 <= k < |n.components|
      ensures n.components[k] != [] && NoSeparator(n.components[k], IsDot)
    {
    }
    SplitJoin(n.components, '.', IsDot);
  }

  /** A component the parser accepts: one or more alphanumerics. */
  predicate IsComponent(c: string) {
    c != [] && forall i :: 0 <= i < |c| ==> IsAlphanumeric(c[i])
  }

  /** A name the parser can produce: at least one component, each of them alphanumeric. */
  predicate IsParsable(n: ScopeName) {
    n.components != [] && forall k :: 0 <= k < |n.components| ==> IsComponent(n.components[k])
  }

  /** `component`: one or more alphanumerics. */
  function ParseComponent(s: string): (r: Parsed<string>)
    ensures r.Success? ==> IsComponent(r.value) && s == r.value + r.rest
    ensures r.Success? ==> r.rest == [] || !IsAlphanumeric(r.rest[0])
  {
    var n := AlphanumericRun(s);
    if n == 0 then Failure
    else
      assert s == s[..n] + s[n..];
      Success(s[..n], s[n..])
  }

  /** Joining a component in front of a non-empty list puts one dot between them. */
  lemma JoinCons(c: string, cs: seq<string>)
    ensures Join([c] + cs, '.') == if cs == [] then c else c + "." + Join(cs, '.')
  {
    if cs != [] {
      assert ([c] + cs)[1..] == cs;
    }
  }

  /** `zeroOrMore(token(".") *> component)`: greedy, and a dot not followed by a component is left unread. */
  function ParseDottedComponents(s: string): (r: Parsed<seq<string>>)
    ensures r.Success? && |r.rest| <= |s|
    ensures forall k :: 0 <= k < |r.value| ==> IsComponent(r.value[k])
    decreases |s|
  {
    if s != [] && s[0] == '.' then
      match ParseComponent(s[1..])
      case Failure => Success([], s)
      case Success(c, rest) =>
        var more := ParseDottedComponents(rest);
        Success([c] + more.value, more.rest)
    else
      Success([], s)
  }

  /** Regrouping of `"." + c + ("." + j + tail)`, kept apart so that its proof sees nothing else. */
  lemma RegroupDotted(s: string, c: string, rest: string, j: string, tail: string)
    requires s == "." + c + rest && rest == "." + j + tail
    ensures s == "." + (c + "." + j) + tail
  {
  }

  /** Regrouping of `c + ("." + j + tail)`. */
  lemma RegroupFirst(s: string, c: string, rest: string, j: string, tail: string)
    requires s == c + rest && rest == "." + j + tail
    ensures s == (c + "." + j) + tail
  {
  }

  /** A string that starts with a dot is that dot followed by the rest. */
  lemma DotThenRest(s: string, c: string, rest: string)
    requires s != [] && s[0] == '.' && s[1..] == c + rest
    ensures s == "." + c + rest
  {
    assert s == [s[0]] + s[1..];
  }

  /** What `ParseDottedComponents` reads is exactly a dot before each component it returns. */
  lemma {:induction false} DottedComponentsText(s: string)
    ensures var r := ParseDottedComponents(s);
      && (r.value == [] ==> r.rest == s)
      && (r.value != [] ==> s == "." + Join(r.value, '.') + r.rest)
      && (r.value != [] ==> r.rest == [] || !IsAlphanumeric(r.rest[0]))
    decreases |s|
  {
    if s != [] && s[0] == '.' {
      var pc := ParseComponent(s[1..]);
      if pc.Success? {
        var c, rest := pc.value, pc.rest;
        var more := ParseDottedComponents(rest);
        DottedComponentsText(rest);
        DotThenRest(s, c, rest);
        JoinCons(c, more.value);
        if more.value != [] {
          RegroupDotted(s, c, rest, Join(more.value, '.'), more.rest);
        }
      }
    }
  }

  /**
   * `ScopeName.parser`: one or more components separated by single dots.  The
   * result has at least one component and every component is alphanumeric.
   */
  function ParseScopeName(s: string): (r: Parsed<ScopeName>)
    ensures r.Success? ==> IsParsable(r.value) && |r.rest| < |s|
  {
    match ParseComponent(s)
    case Failure => Failure
    case Success(c, rest) =>
      var more := ParseDottedComponents(rest);
      Success(ScopeName([c] + more.value), more.rest)
  }

  /**
   * On success the input is the parsed name's description followed by what is
   * left, and what is left does not start with an alphanumeric: the parser
   * never reads a dot it does not keep and never stops inside a component.
   */
  lemma ParseScopeNameText(s: string)
    ensures var r := ParseScopeName(s);
      r.Success? ==> s == r.value.Description() + r.rest && (r.rest == [] || !IsAlphanumeric(r.rest[0]))
  {
    var pc := ParseComponent(s);
    if pc.Success? {
      var c, rest := pc.value, pc.rest;
      var more := ParseDottedComponents(rest);
      DottedComponentsText(rest);
      JoinCons(c, more.value);
      if more.value != [] {
        RegroupFirst(s, c, rest, Join(more.value, '.'), more.rest);
      }
    }
  }

  /** What the printer writes after a name's first component: a dot before each further component. */
  function DottedText(cs: seq<string>): string {
    if cs == [] then "" else "." + cs[0] + DottedText(cs[1..])
  }

  lemma {:induction false} JoinAsDotted(c: string, cs: seq<string>)
    ensures Join([c] + cs, '.') == c + DottedText(cs)
    decreases |cs|
  {
    JoinCons(c, cs);
    if cs != [] {
      JoinAsDotted(cs[0], cs[1..]);
      assert [cs[0]] + cs[1..] == cs;
    }
  }

  /** A component followed by a non-alphanumeric is read up to that character. */
  lemma ParseComponentPrinted(c: string, rest: string)
    requires IsComponent(c) && (rest == [] || !IsAlphanumeric(rest[0]))
    ensures ParseComponent(c + rest) == Success(c, rest)
  {
    AlphanumericRunAppend(c, rest);
    assert (c + rest)[..|c|] == c && (c + rest)[|c|..] == rest;
  }

  /** The printed text of non-empty dotted components: a dot, the first component, then the others. */
  lemma DottedTextCons(cs: seq<string>, rest: string)
    requires cs != []
    ensures var s := DottedText(cs) + rest;
      s != [] && s[0] == '.' && s[1..] == cs[0] + (DottedText(cs[1..]) + rest)
  {
    var s := DottedText(cs) + rest;
    assert s == "." + (cs[0] + (DottedText(cs[1..]) + rest));
  }

  /** Printed text after a component never starts with an alphanumeric. */
  lemma DottedTextFollow(cs: seq<string>, rest: string)
    requires rest == [] || (!IsAlphanumeric(rest[0]) && rest[0] != '.')
    ensures var tail := DottedText(cs) + rest; tail == [] || !IsAlphanumeric(tail[0])
  {
    if DottedText(cs) == [] {
      assert DottedText(cs) + rest == rest;
    }
  }

  /** The dotted components the printer writes are read back, and nothing after them. */
  lemma {:induction false} DottedComponentsPrinted(cs: seq<string>, rest: string)
    requires forall k :: 0 <= k < |cs| ==> IsComponent(cs[k])
    requires rest == [] || (!IsAlphanumeric(rest[0]) && rest[0] != '.')
    ensures ParseDottedComponents(DottedText(cs) + rest) == Success(cs, rest)
    decreases |cs|
  {
    if cs == [] {
      assert DottedText(cs) + rest == rest;
    } else {
      var tail := DottedText(cs[1..]) + rest;
      DottedTextCons(cs, rest);
      DottedTextFollow(cs[1..], rest);
      ParseComponentPrinted(cs[0], tail);
      DottedComponentsPrinted(cs[1..], rest);
      assert [cs[0]] + cs[1..] == cs;
    }
  }

  /**
   * The parser reads back a parsable name's description, stopping where the
   * description ends when what follows is neither alphanumeric nor a dot.
   */
  lemma ParseScopeNamePrinted(n: ScopeName, rest: string)
    requires IsParsable(n)
    requires rest == [] || (!IsAlphanumeric(rest[0]) && rest[0] != '.')
    ensures ParseScopeName(n.Description() + rest) == Success(n, rest)
  {
    var c, cs := n.components[0], n.components[1..];
    assert n.components == [c] + cs;
    JoinAsDotted(c, cs);
    var tail := DottedText(cs) + rest;
    assert n.Description() + rest == c + tail;
    DottedTextFollow(cs, rest);
    ParseComponentPrinted(c, tail);
    DottedComponentsPrinted(cs, rest);
  }

  /** On text the parser reads completely, it and the string initialiser build the same name. */
  lemma ParserAgreesWithInitialiser(s: string)
    requires ParseScopeName(s).Success? && ParseScopeName(s).rest == []
    ensures FromString(s) == ParseScopeName(s).value
  {
    var n := ParseScopeName(s).value;
    ParseScopeNameText(s);
    assert s == n.Description();
    forall k | 0 <= k < |n.components| ensures n.components[k] != [] && '.' !in n.components[k] {
      assert IsComponent(n.components[k]);
      assert !IsAlphanumeric('.');
    }
    DescriptionRoundTrip(n);
  }
  /**
   * The `Parsable` initialiser `init(_:) throws` as `ScopeName` conforms to
   * it: the name parser must read the whole text.  (A plain `ScopeName(s)` on
   * a `String` resolves to the splitting initialiser instead.)  What the
   * parser builds is what the splitting initialiser builds from the same text.
   */
  function ParseWhole(s: string): (r: Option<ScopeName>)
    ensures r.Some? ==> IsParsable(r.value) && r.value == FromString(s)
  {
    match ParseScopeName(s)
    case Success(n, rest) =>
      if rest == [] then ParserAgreesWithInitialiser(s); Some(n) else None
    case Failure => None
  }

  /** A parsable name reads back from its description through the parser initialiser. */
  lemma ParseWholePrinted(n: ScopeName)
    requires IsParsable(n)
    ensures ParseWhole(n.Description()) == Some(n)
  {
    ParseScopeNamePrinted(n, []);
    assert n.Description() + [] == n.Description();
  }
}
