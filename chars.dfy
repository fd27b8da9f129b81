/**
 * The character classes and the result shape of the parser-combinator library
 * the scope-selector grammar is written with.  Only what the grammar relies on
 * is modelled: `alphanumeric`, `whitespacesOrNewline`, and a parse result that
 * either fails or yields a value together with the unconsumed input.
 */
module Chars {

  /** `alphanumeric`, restricted to the ASCII letters and digits. */
  predicate IsAlphanumeric(c: char) {
    ('a' <= c <= 'z') || ('A' <= c <= 'Z') || ('0' <= c <= '9')
  }

  /** `whitespacesOrNewline` (and Swift's `Character.isWhitespace`), restricted to space, tab, newline and carriage return. */
  predicate IsWhitespace(c: char) {
    c == ' ' || c == '\t' || c == '\n' || c == '\r'
  }

  predicate IsDot(c: char) {
    c == '.'
  }

  /** The outcome of running one parser on a suffix of the input. */
  datatype Parsed<+T> = Failure | Success(value: T, rest: string)

  /** `zeroOrMore(whitespacesOrNewline)`: skips every leading whitespace character. */
  function DropWhitespace(s: string): (r: string)
    ensures |r| <= |s|
    ensures r == [] || !IsWhitespace(r[0])
  {
    if s != [] && IsWhitespace(s[0]) then DropWhitespace(s[1..]) else s
  }

  /** What `DropWhitespace` leaves is a suffix of its input, and everything before it is whitespace. */
  lemma {:induction false} DropWhitespaceSuffix(s: string)
    ensures var r := DropWhitespace(s);
      && r == s[|s| - |r|..]
      && forall i :: 0 <= i < |s| - |r| ==> IsWhitespace(s[i])
  {
    if s != [] && IsWhitespace(s[0]) {
      DropWhitespaceSuffix(s[1..]);
      var r := DropWhitespace(s);
      forall i | 0 <= i < |s| - |r| ensures IsWhitespace(s[i]) {
        if i > 0 { assert s[i] == s[1..][i - 1]; }
      }
    }
  }

  lemma {:induction false} DropWhitespaceIdempotent(s: string)
    ensures DropWhitespace(DropWhitespace(s)) == DropWhitespace(s)
  {
  }

  /** Leading whitespace in front of `s` is invisible to `DropWhitespace`. */
  lemma {:induction false} DropWhitespaceAppend(w: string, s: string)
    requires forall i :: 0 <= i < |w| ==> IsWhitespace(w[i])
    ensures DropWhitespace(w + s) == DropWhitespace(s)
  {
    if w != [] {
      var t := w + s;
      assert t[0] == w[0] && IsWhitespace(t[0]);
      assert t[1..] == w[1..] + s;
      assert DropWhitespace(t) == DropWhitespace(t[1..]);
      DropWhitespaceAppend(w[1..], s);
    } else {
      assert w + s == s;
    }
  }

  /** A string that starts with a non-whitespace character is left alone. */
  lemma DropWhitespaceNone(s: string)
    requires s != [] && !IsWhitespace(s[0])
    ensures DropWhitespace(s) == s
  {
  }

  /** The length of the longest prefix of `s` made of alphanumerics: `oneOrMore(alphanumeric)` takes exactly that run. */
  function AlphanumericRun(s: string): (n: nat)
    ensures n <= |s|
    ensures forall i :: 0 <= i < n ==> IsAlphanumeric(s[i])
    ensures n == |s| || !IsAlphanumeric(s[n])
  {
    if s != [] && IsAlphanumeric(s[0]) then 1 + AlphanumericRun(s[1..]) else 0
  }

  /** The run of alphanumerics in front of a non-alphanumeric tail is exactly that prefix. */
  lemma {:induction false} AlphanumericRunAppend(a: string, rest: string)
    requires forall i :: 0 <= i < |a| ==> IsAlphanumeric(a[i])
    requires rest == [] || !IsAlphanumeric(rest[0])
    ensures AlphanumericRun(a + rest) == |a|
  {
    if a != [] {
      assert (a + rest)[1..] == a[1..] + rest;
      AlphanumericRunAppend(a[1..], rest);
    }
  }
}
