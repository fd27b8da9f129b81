# TooMuchTheme scope selectors in Dafny

This project models the scope-selector engine of TooMuchTheme, a Swift
library for TextMate themes. A scope selector such as `source.swift
- comment`, `L: (a b)` or `^ meta > string $` describes which stacks of
scope names a style rule applies to. The engine:

- parses the selector text into a tree (composites joined by `,`; operands
  folded with `|`, `&` and `-`; complemented expressions; side filters `L:`,
  `R:` and `B:`; parenthesised groups; paths of scope names with `^`, `>`
  and `$`);
- prints the tree back (`description`);
- decides whether the tree matches a context, that is an optional left
  scope and a main scope, each a stack of dotted scope names.

The model follows the four core files:

| Dafny file | module | Swift source |
|---|---|---|
| `scope_name.dfy` | `ScopeNames` | `ScopeName.swift`: components, `isPrefix`, `isRefinement`, `removeFirst`, `removePrefix`, `isEmpty`, the string initialiser, `description`, the name parser |
| `scope.dfy` | `Scopes` | `Scope.swift`: elements, `popFirst`, `matchAndRemoveFirst`, `matchAndRemoveLeading`, `isEmpty`, the whitespace-splitting initialiser, `description` |
| `context.dfy` | `Contexts` | `Context.swift` |
| `selector_ast.dfy`, `matcher.dfy`, `printer.dfy`, `parser.dfy` | `SelectorAst`, `SelectorMatching`, `SelectorPrinter`, `SelectorParser` | `ScopeSelector.swift`: the tree, every `matches`, every `description`, every combinator parser |

The supporting modules are:

- `wrappers.dfy`: `Option`, Swift's `T?` with `??`;
- `chars.dfy`: the character classes and the parse-result shape of the combinator library;
- `strings.dfy`: `split` and `joined(separator:)`.

The properties are proved in four further modules:

- `matching_laws.dfy` (`MatchingLaws`): the laws of matching;
- `roundtrip.dfy` (`SelectorRoundTrip`): parsing a printed selector gives back the same selector;
- `parser_laws.dfy` (`SelectorParserLaws`): how the parser treats empty text and whitespace;
- `worked_examples.dfy` (`SelectorExamples`): cases from the repository's test suite.

How the Swift is rendered:

- Swift structs and enums are value types, so they become datatypes.
- A `mutating` method (`removePrefix`, `popFirst`, `matchAndRemoveFirst`,
  `matchAndRemoveLeading`) becomes a datatype member method. It returns the
  updated value beside its answer. This copy-in/copy-out behaviour is what
  value semantics gives the Swift caller.
- Loops stay loops. `matchAndRemoveLeading` keeps its `while` loop over a
  local copy.
- `Composite.matches` and `Path.matches` are written twice:
  - as the `for` loops of the source (`MatchComposite`, `MatchPath`);
  - as total functions (`CompositeMatches`, `PathMatches`) that the laws are
    stated over.

  Each method is proved to compute its function.

The combinator parsers become recursive-descent functions over the text
still to read. They return `Failure` or `Success(value, rest)`. They assume
these combinator semantics:

- ordered choice backtracks;
- `zeroOrMore` is greedy;
- `parse` rejects input that is not read completely.

### Behaviour of the code as written

Where a description of the library and its code differ, the model follows
the code.

- `matchAndRemoveFirst` pops the first element whether or not it refines
  the name (Scope.swift:40-42). It does not leave the scope unchanged on a
  mismatch. The difference is invisible to `Path.matches`, which gives up at
  the first failing step.
- Names in selector text are read as alphanumeric components
  (ScopeName.swift:26), so `*`, `-` and `_` cannot appear in a selector.
  Names built from a string may hold any character but `.`
  (ScopeName.swift:30-32), so a scope such as `source.css
  support.type.property-name` is accepted. Components are compared exactly
  (ScopeName.swift:46-52): there is no `*` wildcard.
- The path parser reads the whitespace after a path whether or not a `$`
  follows (ScopeSelector.swift:281). A group reads none after its `)`. As a
  result, `"a "` parses while `"(a) "` is rejected
  (`SelectorParserLaws.ParsePathWithSpaces`,
  `SelectorParserLaws.ParseGroupThenSpace`).
- Empty text is the universal selector. Text of nothing but whitespace is
  rejected, because no composite reads it and `parse` leaves it unread
  (`SelectorParserLaws.ParseBlank`).
- Path matching takes the first element that fits each step and never goes
  back. `a > b` therefore does not match the scope `a c a b`
  (`SelectorExamples.NoMatchLeftmostOnly`). Completeness is proved only for
  paths without `>` and `$` (`MatchingLaws.PathMatchComplete`).

## Model

| member | source | states |
|---|---|---|
| Chars.DropWhitespace | Sources/TooMuchTheme/ScopeSelector.swift:34 | skipping `whitespacesOrNewline` never lengthens the text and stops at a character that is not whitespace |
| Chars.DropWhitespaceSuffix | Sources/TooMuchTheme/ScopeSelector.swift:34 | what is left is a suffix of the input and every character skipped is whitespace |
| Chars.DropWhitespaceIdempotent | Sources/TooMuchTheme/ScopeSelector.swift:34 | skipping whitespace twice is skipping it once, so consecutive `ws*` read as one |
| Chars.DropWhitespaceAppend | Sources/TooMuchTheme/ScopeSelector.swift:34 | whitespace in front of a text is invisible once whitespace is skipped |
| Chars.AlphanumericRun | Sources/TooMuchTheme/ScopeName.swift:26 | `oneOrMore(alphanumeric)` takes the longest alphanumeric prefix: all of it alphanumeric, and the next character is not |
| Chars.AlphanumericRunAppend | Sources/TooMuchTheme/ScopeName.swift:26 | an alphanumeric run in front of a non-alphanumeric is read exactly |
| Strings.Split | Sources/TooMuchTheme/ScopeName.swift:31 | `split` omits empty pieces: every piece is non-empty and holds no separator |
| Strings.SplitJoin | Sources/TooMuchTheme/ScopeName.swift:30-36 | splitting what `joined(separator:)` built gives the pieces back when none is empty or holds the separator |
| Strings.SplitEmpty | Sources/TooMuchTheme/ScopeName.swift:31 | `split` gives no pieces exactly when every character is a separator |
| Strings.JoinAppend | Sources/TooMuchTheme/ScopeName.swift:35 | joining two non-empty lists puts exactly one separator between their joins |
| Strings.JoinNoSeparator | Sources/TooMuchTheme/Scope.swift:33 | joining separator-free pieces with a non-separator character adds no separator |
| ScopeNames.ScopeName.RemoveFirst | Sources/TooMuchTheme/ScopeName.swift:54-56 | `removeFirst(count)` drops exactly the first `count` components: old components are the dropped ones followed by the new ones |
| ScopeNames.ScopeName.RemovePrefix | Sources/TooMuchTheme/ScopeName.swift:58-64 | returns true exactly when the name refines `name`, and then `name.components + new == old`; on false the name is unchanged |
| ScopeNames.StartsWithIsPrefix | Sources/TooMuchTheme/ScopeName.swift:46-52 | `starts(with:)` holds exactly when the prefix is an initial segment of the sequence |
| ScopeNames.IsPrefixComponentwise | Sources/TooMuchTheme/ScopeName.swift:46-48 | `a.isPrefix(of: b)` exactly when `b` has at least `a`'s components and they agree one by one by string equality |
| ScopeNames.RefinementReflexive | Sources/TooMuchTheme/ScopeName.swift:50-52 | every name refines itself |
| ScopeNames.RefinementTransitive | Sources/TooMuchTheme/ScopeName.swift:50-52 | a refinement of a refinement of `c` refines `c` |
| ScopeNames.RefinementAntisymmetric | Sources/TooMuchTheme/ScopeName.swift:50-52 | two names that refine each other are equal, so refinement is a partial order |
| ScopeNames.FromStringComponents | Sources/TooMuchTheme/ScopeName.swift:30-32 | no component built by the string initialiser is empty or holds a dot |
| ScopeNames.FromStringIsEmpty | Sources/TooMuchTheme/ScopeName.swift:30-32 | the name built from a string is empty exactly when the string is only dots, `""` included |
| ScopeNames.DescriptionRoundTrip | Sources/TooMuchTheme/ScopeName.swift:30-36 | for non-empty, dot-free components, building a name from its `description` gives the same name |
| ScopeNames.ParseComponent | Sources/TooMuchTheme/ScopeName.swift:26 | a component read is one or more alphanumerics, the text is the component followed by what is left, and what is left does not start alphanumeric |
| ScopeNames.ParseDottedComponents | Sources/TooMuchTheme/ScopeName.swift:27 | never fails, never lengthens the text, and every component read is alphanumeric |
| ScopeNames.DottedComponentsText | Sources/TooMuchTheme/ScopeName.swift:27 | the text read is exactly a dot before each component returned; a dot not followed by a component is left unread |
| ScopeNames.ParseScopeName | Sources/TooMuchTheme/ScopeName.swift:25-28 | a successful read gives one or more components, each of one or more alphanumerics, and consumes text |
| ScopeNames.ParseScopeNameText | Sources/TooMuchTheme/ScopeName.swift:25-28 | on success the input is the name's description followed by what is left, and what is left does not continue a component |
| ScopeNames.DottedComponentsPrinted | Sources/TooMuchTheme/ScopeName.swift:27 | the dotted components a description prints are read back exactly, and nothing after them |
| ScopeNames.ParseScopeNamePrinted | Sources/TooMuchTheme/ScopeName.swift:25-36 | the parser reads back a parsable name's description and stops exactly where it ends |
| ScopeNames.ParseWhole | Sources/TooMuchTheme/ScopeSelector.swift:368-370 | the `Parsable` initialiser of `ScopeName` succeeds only with a parsable name, the same one the splitting initialiser builds from that text |
| ScopeNames.ParseWholePrinted | Sources/TooMuchTheme/ScopeName.swift:25-36 | the parser initialiser reads back the `description` of every parsable name |
| ScopeNames.ParserAgreesWithInitialiser | Sources/TooMuchTheme/ScopeName.swift:25-32 | on text the parser reads completely, the parser and the splitting initialiser build the same name |
| Scopes.Scope.PopFirst | Sources/TooMuchTheme/Scope.swift:63-68 | nil and no change on an empty scope; otherwise the first element, and the old elements are it followed by the new ones |
| Scopes.Scope.FirstRefinement | Sources/TooMuchTheme/Scope.swift:44-53 | the position found refines the name and no earlier one does; none found exactly when no element refines it |
| Scopes.Scope.MatchAndRemoveFirst | Sources/TooMuchTheme/Scope.swift:40-42 | an empty scope stays empty and answers false; a non-empty one always loses exactly its first element, and the answer is whether that element refines the name |
| Scopes.Scope.MatchAndRemoveLeading | Sources/TooMuchTheme/Scope.swift:44-53 | true exactly when some element refines the name; then the scope is what follows the first such element and no earlier one refines it; on false the scope is unchanged |
| Scopes.Descriptions | Sources/TooMuchTheme/Scope.swift:33 | one description per element, in order |
| Scopes.FromText | Sources/TooMuchTheme/Scope.swift:24-26 | never fails; one name per whitespace-separated piece, and no component of any of them is empty or holds a dot or whitespace |
| Scopes.DescriptionRoundTrip | Sources/TooMuchTheme/Scope.swift:24-34 | a scope whose names each have a component, none of them empty or holding a dot or whitespace, reads back from its `description` |
| Contexts.MainOnly | Sources/TooMuchTheme/Context.swift:7-10 | the initialiser without `left` stores no left scope and the given main scope |
| SelectorAst.Steps | Sources/TooMuchTheme/ScopeSelector.swift:258 | one step per name; the root step is direct exactly when the path is begin-anchored; the descendents follow in order |
| SelectorMatching.MatchComposite | Sources/TooMuchTheme/ScopeSelector.swift:17-30 | the `for` loop over the compositions computes the left-to-right fold `CompositeMatches` |
| SelectorMatching.MatchPath | Sources/TooMuchTheme/ScopeSelector.swift:255-274 | the loop that consumes a copy of the main scope step by step computes `PathMatches` |
| MatchingLaws.FirstMatchingFinds | Sources/TooMuchTheme/ScopeSelector.swift:335 | the search for the first matching composite finds one exactly when one matches |
| MatchingLaws.SelectorMatchesSomeComposite | Sources/TooMuchTheme/ScopeSelector.swift:334-336 | a selector with composites matches exactly when at least one composite matches |
| MatchingLaws.CommaIsUnion | Sources/TooMuchTheme/ScopeSelector.swift:334-336 | `a, b` and `a \| b` match the same contexts |
| MatchingLaws.FoldUpToPrefix | Sources/TooMuchTheme/ScopeSelector.swift:17-30 | the fold after `n` compositions depends only on the base and those `n` compositions |
| MatchingLaws.CompositeAppend | Sources/TooMuchTheme/ScopeSelector.swift:17-30 | a composition appended at the end applies its operator to the result of everything before it |
| MatchingLaws.UnionsMatchAny | Sources/TooMuchTheme/ScopeSelector.swift:21-22 | with only `\|`, a composite matches exactly when the base or some operand matches |
| MatchingLaws.IntersectionsMatchAll | Sources/TooMuchTheme/ScopeSelector.swift:23-24 | with only `&`, a composite matches exactly when the base and every operand match |
| MatchingLaws.NoUnionNeedsBase | Sources/TooMuchTheme/ScopeSelector.swift:17-30 | without `\|`, a composite whose base fails fails |
| MatchingLaws.DifferenceExcludes | Sources/TooMuchTheme/ScopeSelector.swift:25-26 | a trailing `- x` excludes every context `x` matches |
| MatchingLaws.DifferenceIsIntersectionWithComplement | Sources/TooMuchTheme/ScopeSelector.swift:17-30 | `a - x` and `a & -x` match the same contexts, whatever comes before |
| MatchingLaws.GroupOfOneComposite | Sources/TooMuchTheme/ScopeSelector.swift:227-229 | a group of one composite matches exactly when that composite does, on the same context |
| MatchingLaws.DoubleComplement | Sources/TooMuchTheme/ScopeSelector.swift:121-123 | `- (- t)` matches exactly where `t` does |
| MatchingLaws.ComplementOfUnion | Sources/TooMuchTheme/ScopeSelector.swift:17-30 | `- (a \| b)` matches exactly where `- a & - b` does |
| MatchingLaws.ComplementOfIntersection | Sources/TooMuchTheme/ScopeSelector.swift:17-30 | `- (a & b)` matches exactly where `- a \| - b` does |
| MatchingLaws.NestedFilterIsOuter | Sources/TooMuchTheme/ScopeSelector.swift:196-207 | the inner filter of `x: (y: t)` sees no left scope, so it matches exactly where `x: t` does, for every pair of sides |
| MatchingLaws.SelectorIgnoresLeftScope | Sources/TooMuchTheme/ScopeSelector.swift:196-207 | a selector with no `L:` or `B:` filter outside a filter gives the same answer whatever the left scope, since paths read only the main scope and filters pass on no left scope |
| MatchingLaws.RunStepsConsumes | Sources/TooMuchTheme/ScopeSelector.swift:258-271 | every successful step removes at least one element, so `n` steps leave at most the scope's length minus `n` |
| MatchingLaws.NoPathMatchesEmptyScope | Sources/TooMuchTheme/ScopeSelector.swift:255-274 | no path matches an empty main scope |
| MatchingLaws.PathNeedsElements | Sources/TooMuchTheme/ScopeSelector.swift:255-274 | a matching path needs at least as many main-scope elements as it has names |
| MatchingLaws.SingleNamePath | Sources/TooMuchTheme/ScopeSelector.swift:255-274 | a lone unanchored name matches exactly when some element refines it |
| MatchingLaws.BeginAnchoredName | Sources/TooMuchTheme/ScopeSelector.swift:258 | `^ n` matches exactly when the outermost element refines `n` |
| MatchingLaws.FirstRefiningFrom | Sources/TooMuchTheme/Scope.swift:44-53 | the first position at or after `from` whose element refines the name: it refines it and nothing between does; none means nothing from `from` on does |
| MatchingLaws.StepAt | Sources/TooMuchTheme/ScopeSelector.swift:261-270 | a successful step starting at a position leaves off strictly after it |
| MatchingLaws.Walk | Sources/TooMuchTheme/ScopeSelector.swift:258-271 | a walk never moves backwards or past the end |
| MatchingLaws.StepIsStepAt | Sources/TooMuchTheme/ScopeSelector.swift:261-270 | a step on the elements from a position on is the positional step: same success, same rest |
| MatchingLaws.RunStepsIsWalk | Sources/TooMuchTheme/ScopeSelector.swift:258-271 | running the steps on a scope is the positional walk over its elements |
| MatchingLaws.StepAtTakes | Sources/TooMuchTheme/ScopeSelector.swift:261-270 | a successful step takes one element that refines its name, the very next one for a direct step |
| MatchingLaws.WalkSound | Sources/TooMuchTheme/ScopeSelector.swift:258-271 | a successful walk picks one refining element per step, in order, direct steps adjacent, and stops just after the last |
| MatchingLaws.PathMatchSound | Sources/TooMuchTheme/ScopeSelector.swift:255-274 | a matching path has a refining element per name, in order, with `^` on the first element, `>` on the next element and `$` on the last |
| MatchingLaws.WalkComplete | Sources/TooMuchTheme/ScopeSelector.swift:258-271 | with transitive steps only, taking the leftmost refining element loses no walk that exists |
| MatchingLaws.PathMatchComplete | Sources/TooMuchTheme/ScopeSelector.swift:255-274 | a path without `>` or `$` matches whenever its names occur in order as refinements, the root at the first element when it starts with `^` |
| SelectorParser.Parse | Sources/TooMuchTheme/ScopeSelector.swift:368-370 | every selector `parse` returns has only parsable names |
| SelectorParser.ParseSelector | Sources/TooMuchTheme/ScopeSelector.swift:338-342 | never fails (the `pure([])` alternative) and never lengthens the text; everything it reads has only parsable names |
| SelectorParser.ParseMoreComposites | Sources/TooMuchTheme/ScopeSelector.swift:340 | the repetition never fails and never lengthens the text; everything it reads has only parsable names |
| SelectorParser.ParseComposite | Sources/TooMuchTheme/ScopeSelector.swift:32-35 | a composite read consumes text; everything it reads has only parsable names |
| SelectorParser.ParseCompositions | Sources/TooMuchTheme/ScopeSelector.swift:35 | the repetition never fails and never lengthens the text; everything it reads has only parsable names |
| SelectorParser.ParseComposition | Sources/TooMuchTheme/ScopeSelector.swift:68-70 | a composition read consumes text; everything it reads has only parsable names |
| SelectorParser.ParseOperation | Sources/TooMuchTheme/ScopeSelector.swift:57-60 | an operator read consumes exactly one character |
| SelectorParser.ParseExpression | Sources/TooMuchTheme/ScopeSelector.swift:125-128 | an expression read consumes text; everything it reads has only parsable names |
| SelectorParser.ParseTerm | Sources/TooMuchTheme/ScopeSelector.swift:105-108 | a term read consumes text; everything it reads has only parsable names |
| SelectorParser.ParseFilter | Sources/TooMuchTheme/ScopeSelector.swift:209-211 | a filter read consumes text; everything it reads has only parsable names |
| SelectorParser.ParseSide | Sources/TooMuchTheme/ScopeSelector.swift:155-161 | a side read is a letter immediately followed by `:`, and consumes those two characters |
| SelectorParser.ParseFilterOperand | Sources/TooMuchTheme/ScopeSelector.swift:182-184 | a filter operand read consumes text; everything it reads has only parsable names |
| SelectorParser.ParseGroup | Sources/TooMuchTheme/ScopeSelector.swift:231-232 | a group read consumes text; everything it reads has only parsable names |
| SelectorParser.ParsePath | Sources/TooMuchTheme/ScopeSelector.swift:276-281 | a path read consumes text; everything it reads has only parsable names |
| SelectorParser.ParseDescendents | Sources/TooMuchTheme/ScopeSelector.swift:280 | the repetition never fails and never lengthens the text; everything it reads has only parsable names |
| SelectorParser.ParseDescendent | Sources/TooMuchTheme/ScopeSelector.swift:312-313 | a descendent read consumes text; everything it reads has only parsable names |
| SelectorRoundTrip.DescendentRoundTrip | Sources/TooMuchTheme/ScopeSelector.swift:312-313 | a printed descendent is read back with its relation: `>` gives a direct one, a bare name a transitive one |
| SelectorRoundTrip.DescendentsRoundTrip | Sources/TooMuchTheme/ScopeSelector.swift:280 | printed descendents are read back, up to the text after them |
| SelectorRoundTrip.PathRoundTrip | Sources/TooMuchTheme/ScopeSelector.swift:276-285 | a printed path is read back with both anchors; without `$` the whitespace after it is read too |
| SelectorRoundTrip.NameIsNoSide | Sources/TooMuchTheme/ScopeSelector.swift:155-161 | a name followed by what may follow it is never read as a side letter and `:` |
| SelectorRoundTrip.PathIsNoSide | Sources/TooMuchTheme/ScopeSelector.swift:155-161 | a printed path never starts with a side letter and `:` |
| SelectorRoundTrip.PathIsNoFilter | Sources/TooMuchTheme/ScopeSelector.swift:105-108 | neither the filter nor the group alternative reads a printed path, so ordered choice reaches the path parser |
| SelectorRoundTrip.GroupIsNoFilter | Sources/TooMuchTheme/ScopeSelector.swift:105-108 | the filter alternative does not read a printed group |
| SelectorRoundTrip.FilterRoundTrip | Sources/TooMuchTheme/ScopeSelector.swift:209-215 | a printed filter is read back, side and operand |
| SelectorRoundTrip.FilterOperandRoundTrip | Sources/TooMuchTheme/ScopeSelector.swift:182-192 | a printed filter operand is read back by the alternative that printed it |
| SelectorRoundTrip.GroupRoundTrip | Sources/TooMuchTheme/ScopeSelector.swift:231-236 | a printed group is read back, up to exactly the text after its `)` |
| SelectorRoundTrip.TermRoundTrip | Sources/TooMuchTheme/ScopeSelector.swift:105-117 | a printed term is read back by the alternative that printed it |
| SelectorRoundTrip.ExpressionMark | Sources/TooMuchTheme/ScopeSelector.swift:127 | after whitespace, a printed expression starts with `-` exactly when it is complemented |
| SelectorRoundTrip.ExpressionRoundTrip | Sources/TooMuchTheme/ScopeSelector.swift:125-132 | a printed expression is read back, complement included |
| SelectorRoundTrip.CompositionRoundTrip | Sources/TooMuchTheme/ScopeSelector.swift:68-74 | a printed composition is read back, operator and operand |
| SelectorRoundTrip.CompositionsStop | Sources/TooMuchTheme/ScopeSelector.swift:35 | the repetition of compositions stops, reading nothing, at text that ends a composite |
| SelectorRoundTrip.CompositionsRoundTrip | Sources/TooMuchTheme/ScopeSelector.swift:35 | the printed compositions are read back in order, and the repetition stops after the last |
| SelectorRoundTrip.CompositeRoundTrip | Sources/TooMuchTheme/ScopeSelector.swift:32-39 | a printed composite is read back |
| SelectorRoundTrip.MoreCompositesRoundTrip | Sources/TooMuchTheme/ScopeSelector.swift:340 | the composites printed after `", "` are read back in order, and the repetition stops after the last |
| SelectorRoundTrip.NothingToRead | Sources/TooMuchTheme/ScopeSelector.swift:338-342 | text that is used up, or starts with `)` after whitespace, holds no composite |
| SelectorRoundTrip.SelectorRoundTrip | Sources/TooMuchTheme/ScopeSelector.swift:338-346 | a printed selector, followed by text that may follow a selector, is read back |
| SelectorRoundTrip.ParsePrinted | Sources/TooMuchTheme/ScopeSelector.swift:344-346 | parsing the `description` of any selector whose names are parsable gives back the same selector |
| SelectorRoundTrip.ReparseParsed | Sources/TooMuchTheme/ScopeSelector.swift:344-356 | any text that parses gives a selector whose `description` parses back to it, so decoding what encoding wrote is the identity |
| SelectorParserLaws.ParseEmpty | Sources/TooMuchTheme/ScopeSelector.swift:338-342 | empty text parses to the selector with no composites |
| SelectorParserLaws.ParseBlank | Sources/TooMuchTheme/ScopeSelector.swift:368-370 | text of nothing but whitespace, at least one character of it, is rejected |
| SelectorParserLaws.ParseLeadingWhitespace | Sources/TooMuchTheme/ScopeSelector.swift:32-35 | whitespace and newlines in front of a composite change nothing |
| SelectorParserLaws.LoneTerm | Sources/TooMuchTheme/ScopeSelector.swift:338-342 | a visible term with only whitespace left after it parses as one composite when nothing is left unread, and is rejected otherwise |
| SelectorParserLaws.PathTermThenSpace | Sources/TooMuchTheme/ScopeSelector.swift:276-281 | a path without `$` reads all whitespace after it |
| SelectorParserLaws.LonePath | Sources/TooMuchTheme/ScopeSelector.swift:276-281 | a path without `$`, then whitespace, parses to the one-path selector |
| SelectorParserLaws.ParsePathWithSpaces | Sources/TooMuchTheme/ScopeSelector.swift:276-281 | a path without `$`, with any whitespace around it, parses to the one-path selector |
| SelectorParserLaws.ParseGroupThenSpace | Sources/TooMuchTheme/ScopeSelector.swift:231-232 | a group followed by whitespace is rejected, since the group reads none after its `)` |
| SelectorParserLaws.ParseGroupAlone | Sources/TooMuchTheme/ScopeSelector.swift:231-232 | a group with nothing around it parses to the one-group selector |
| SelectorExamples.EmptySelectsEverything | Tests/TooMuchThemeTests/ScopeSelectorMatchTests.swift:23-24 | the empty text parses, to a selector that matches every context, one with an empty main scope included |
| SelectorExamples.ParseLonePath | Tests/TooMuchThemeTests/ScopeSelectorParseTests.swift:10 | `"a b cd"` parses to a path of three transitive names |
| SelectorExamples.ParseSpacedPath | Tests/TooMuchThemeTests/ScopeSelectorParseTests.swift:9 | `" ab "` parses to the path `ab` |
| SelectorExamples.ParseDirectPath | Tests/TooMuchThemeTests/ScopeSelectorParseTests.swift:11 | `" a > b cd>e "` parses to the path `a > b cd > e`, the tree the `>` match tests use |
| SelectorExamples.DirectDescendentSteps | Tests/TooMuchThemeTests/ScopeSelectorParseTests.swift:11 | `>` marks a direct descendent whether or not spaces surround it, and a lone space holds no descendent |
| SelectorExamples.ParseGroup | Tests/TooMuchThemeTests/ScopeSelectorParseTests.swift:19 | `"(first second)"` parses to a group of the path `first second` |
| SelectorExamples.ParseLeftFilter | Tests/TooMuchThemeTests/ScopeSelectorParseTests.swift:27 | `"L: a"` parses to a left filter on the path `a` |
| SelectorExamples.ParseUnion | Tests/TooMuchThemeTests/ScopeSelectorParseTests.swift:46 | `"a \| b"` parses to a union |
| SelectorExamples.ParseDifference | Tests/TooMuchThemeTests/ScopeSelectorParseTests.swift:48 | `"- a b - c"` parses to a complemented path followed by a difference |
| SelectorExamples.ParseComma | Tests/TooMuchThemeTests/ScopeSelectorParseTests.swift:56 | `"a, b"` parses to two composites |
| SelectorExamples.MatchInOrder | Tests/TooMuchThemeTests/ScopeSelectorMatchTests.swift:13 | `a b cd` matches `first second a b cd last` |
| SelectorExamples.NoMatchOutOfOrder | Tests/TooMuchThemeTests/ScopeSelectorMatchTests.swift:15 | `a b cd` does not match `a something.else b ef` |
| SelectorExamples.MatchDirect | Tests/TooMuchThemeTests/ScopeSelectorMatchTests.swift:16 | `a > b cd > e` matches `a b other things cd.e e.f` |
| SelectorExamples.NoMatchDirectInterrupted | Tests/TooMuchThemeTests/ScopeSelectorMatchTests.swift:17 | `a > b cd > e` does not match `a other things b cd e` |
| SelectorExamples.MatchGroup | Tests/TooMuchThemeTests/ScopeSelectorMatchTests.swift:33 | `(first second.subsecond)` matches `first.a b.c second second.subsecond.d.efg` |
| SelectorExamples.NoMatchGroup | Tests/TooMuchThemeTests/ScopeSelectorMatchTests.swift:34 | `(first second.subsecond)` does not match `first.a b.c second.d.efg` |
| SelectorExamples.MatchLeft | Tests/TooMuchThemeTests/ScopeSelectorMatchTests.swift:42 | `L: a` matches when the left scope is `a` |
| SelectorExamples.NoMatchLeft | Tests/TooMuchThemeTests/ScopeSelectorMatchTests.swift:43 | `L: a` does not match when only the main scope holds `a` |
| SelectorExamples.MatchBoth | Tests/TooMuchThemeTests/ScopeSelectorMatchTests.swift:46 | `B: a` matches when both sides hold a refinement of `a` |
| SelectorExamples.NoMatchUnion | Tests/TooMuchThemeTests/ScopeSelectorMatchTests.swift:69 | `a \| b` does not match `c` |
| SelectorExamples.MatchIntersection | Tests/TooMuchThemeTests/ScopeSelectorMatchTests.swift:71 | `a & b` matches `b a c` |
| SelectorExamples.NoMatchIntersection | Tests/TooMuchThemeTests/ScopeSelectorMatchTests.swift:72 | `a & b` does not match `a.b` |
| SelectorExamples.MatchDifference | Tests/TooMuchThemeTests/ScopeSelectorMatchTests.swift:74 | `- a b - c` matches `random a stuff.c back.b` |
| SelectorExamples.NoMatchDifference | Tests/TooMuchThemeTests/ScopeSelectorMatchTests.swift:77 | `- a b - c` does not match `random b a c stuff` |
| SelectorExamples.NoMatchComma | Tests/TooMuchThemeTests/ScopeSelectorMatchTests.swift:87 | `a, b` does not match `c.a c.b` |
| SelectorExamples.NoMatchLeftmostOnly | Sources/TooMuchTheme/ScopeSelector.swift:255-274 | `a > b` does not match `a c a b`: each step takes the first fitting element and never goes back |

## Left out

- FootlessParser is not part of this model. Its combinators are mirrored by
  the grammar functions under the semantics stated above. Error positions
  and messages are not modelled: a failed parse is `None`.
- The character classes `alphanumeric` and `whitespacesOrNewline`, and
  Swift's `Character.isWhitespace`, are restricted to ASCII letters and
  digits and to space, tab, newline and carriage return. Unicode
  categories are not modelled.
- Codable (ScopeSelector.swift:348-356, ScopeName.swift:11-19,
  Scope.swift:10-18) is out: encoding writes `description` and decoding
  parses it. What it relies on is proved for selectors by
  `SelectorRoundTrip.ParsePrinted` and `SelectorRoundTrip.ReparseParsed`,
  and for names and scopes by the two `DescriptionRoundTrip` lemmas.
- Theme.swift, Style.swift, Color.swift, AttributedString.swift and
  Package.swift are out. They deal with platform attribute dictionaries,
  floating-point colours, fonts supplied from outside, and build settings.
- The tests that use `*`, `-` or `_` inside names
  (ScopeSelectorParseTests.swift:64-88, ScopeSelectorMatchTests.swift:19-22)
  are not examples here. The name parser accepts only alphanumerics, and
  refinement compares components exactly, so those tests do not describe
  the code as written.
- Scopes.FromText: `Scope(string)` calls `try ScopeName(String(piece))`.
  That call resolves to the non-throwing initialiser that splits on dots.
  The `Parsable` initialiser is not chosen, because `init(stringLiteral:)`
  (ScopeName.swift:38-40) calls the same overload without `try`. The model
  therefore returns a scope directly. The `try` never throws, and building
  a scope from text never fails.
- In-place mutation and aliasing of Swift values are not modelled beyond
  value semantics: every mutating method returns the updated value.
  Matching takes the context by value, so the caller's main scope is never
  altered.
- `isEmpty` on names and scopes is a predicate defined as "no components" or
  "no elements", with nothing further to prove.
- The parser functions' own contracts state only that they consume text and
  return selectors whose names are parsable. What they read is stated by the
  round-trip lemmas and the parser laws.
