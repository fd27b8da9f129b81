/**
 * Splitting and joining of strings as the standard library of the source
 * language does it: `split` drops empty pieces, `joined(separator:)` puts one
 * separator between neighbouring pieces.
 */
module Strings {

  /** No character of `p` is a separator. */
  predicate NoSeparator(p: string, isSeparator: char -> bool) {
    forall i :: 0 <= i < |p| ==> !isSeparator(p[i])
  }

  /** The length of the longest prefix of `s` that holds no separator. */
  function PieceLength(s: string, isSeparator: char -> bool): (n: nat)
    ensures n <= |s| && NoSeparator(s[..n], isSeparator)
    ensures n == |s| || isSeparator(s[n])
  {
    if s != [] && !isSeparator(s[0]) then
      var m := PieceLength(s[1..], isSeparator);
      assert s[..m + 1] == [s[0]] + s[1..][..m];
      1 + m
    else
      0
  }

  /** `split(whereSeparator:)` with `omittingEmptySubsequences` left at its default, `true`. */
  function Split(s: string, isSeparator: char -> bool): (pieces: seq<string>)
    ensures forall k :: 0 <= k < |pieces| ==> pieces[k] != [] && NoSeparator(pieces[k], isSeparator)
    decreases |s|
  {
    if s == [] then []
    else if isSeparator(s[0]) then Split(s[1..], isSeparator)
    else
      var n := PieceLength(s, isSeparator);
      [s[..n]] + Split(s[n..], isSeparator)
  }

  /** `joined(separator:)` with a one-character separator. */
  function Join(pieces: seq<string>, separator: char): string {
    if |pieces| == 0 then ""
    else if |pieces| == 1 then pieces[0]
    else pieces[0] + [separator] + Join(pieces[1..], separator)
  }

  /** A separator-free prefix followed by a separator (or nothing) is exactly one piece long. */
  lemma {:induction false} PieceLengthAppend(a: string, rest: string, isSeparator: char -> bool)
    requires NoSeparator(a, isSeparator)
    requires rest == [] || isSeparator(rest[0])
    ensures PieceLength(a + rest, isSeparator) == |a|
  {
    if a != [] {
      var t := a + rest;
      assert t[0] == a[0] && t[1..] == a[1..] + rest;
      assert NoSeparator(a[1..], isSeparator) by {
        forall i | 0 <= i < |a[1..]| ensures !isSeparator(a[1..][i]) {
          assert a[1..][i] == a[i + 1];
        }
      }
      PieceLengthAppend(a[1..], rest, isSeparator);
    } else {
      assert a + rest == rest;
    }
  }

  /** Splitting what was joined gives the pieces back, when no piece is empty or holds a separator. */
  lemma {:induction false} SplitJoin(pieces: seq<string>, separator: char, isSeparator: char -> bool)
    requires isSeparator(separator)
    requires forall k :: 0 <= k < |pieces| ==> pieces[k] != [] && NoSeparator(pieces[k], isSeparator)
    ensures Split(Join(pieces, separator), isSeparator) == pieces
  {
    if |pieces| == 1 {
      var p := pieces[0];
      PieceLengthAppend(p, [], isSeparator);
      assert p + [] == p;
      assert p[..|p|] == p && p[|p|..] == [];
    } else if |pieces| > 1 {
      var p, tail := pieces[0], Join(pieces[1..], separator);
      var s := p + [separator] + tail;
      assert Join(pieces, separator) == s;
      PieceLengthAppend(p, [separator] + tail, isSeparator);
      assert s == p + ([separator] + tail);
      assert s[0] == p[0];
      assert s[..|p|] == p && s[|p|..] == [separator] + tail;
      assert ([separator] + tail)[1..] == tail;
      SplitJoin(pieces[1..], separator, isSeparator);
      assert pieces == [p] + pieces[1..];
    }
  }

  /** `split` gives no pieces exactly when every character is a separator. */
  lemma {:induction false} SplitEmpty(s: string, isSeparator: char -> bool)
    ensures Split(s, isSeparator) == [] <==> forall i :: 0 <= i < |s| ==> isSeparator(s[i])
  {
    if s != [] && isSeparator(s[0]) {
      SplitEmpty(s[1..], isSeparator);
      assert forall i :: 1 <= i < |s| ==> s[i] == s[1..][i - 1];
    }
  }

  /** Joining two non-empty lists is joining each and putting one separator between them. */
  lemma {:induction false} JoinAppend(xs: seq<string>, ys: seq<string>, separator: char)
    requires xs != [] && ys != []
    ensures Join(xs + ys, separator) == Join(xs, separator) + [separator] + Join(ys, separator)
  {
    if |xs| > 1 {
      assert (xs + ys)[1..] == xs[1..] + ys;
      JoinAppend(xs[1..], ys, separator);
    } else {
      assert (xs + ys)[0] == xs[0] && (xs + ys)[1..] == ys;
    }
  }

  /** Joining separator-free pieces with a character that is not a separator gives a separator-free string. */
  lemma {:induction false} JoinNoSeparator(pieces: seq<string>, separator: char, isSeparator: char -> bool)
    requires !isSeparator(separator)
    requires forall k :: 0 <= k < |pieces| ==> NoSeparator(pieces[k], isSeparator)
    ensures NoSeparator(Join(pieces, separator), isSeparator)
  {
    if |pieces| > 1 {
      JoinNoSeparator(pieces[1..], separator, isSeparator);
      var a, b := pieces[0] + [separator], Join(pieces[1..], separator);
      assert NoSeparator(a, isSeparator) by {
        forall i | 0 <= i < |a| ensures !isSeparator(a[i]) {
          if i < |pieces[0]| { assert a[i] == pieces[0][i]; }
        }
      }
      forall i | 0 <= i < |a + b| ensures !isSeparator((a + b)[i]) {
        if i < |a| { assert (a + b)[i] == a[i]; } else { assert (a + b)[i] == b[i - |a|]; }
      }
    }
  }

  /** Joining pieces whose first is non-empty gives a non-empty string. */
  lemma JoinNonEmpty(pieces: seq<string>, separator: char)
    requires pieces != [] && pieces[0] != []
    ensures Join(pieces, separator) != []
  {
  }
  /** Every character of a piece is a character of the text that was split. */
  lemma {:induction false} SplitCharacters(s: string, isSeparator: char -> bool)
    ensures forall k, i :: 0 <= k < |Split(s, isSeparator)| && 0 <= i < |Split(s, isSeparator)[k]| ==>
      Split(s, isSeparator)[k][i] in s
    decreases |s|
  {
    if s != [] {
      if isSeparator(s[0]) {
        SplitCharacters(s[1..], isSeparator);
      } else {
        var n := PieceLength(s, isSeparator);
        SplitCharacters(s[n..], isSeparator);
        var pieces := Split(s, isSeparator);
        forall k, i | 0 <= k < |pieces| && 0 <= i < |pieces[k]| ensures pieces[k][i] in s {
          if k == 0 {
            assert pieces[0][i] == s[i];
          } else {
            assert pieces[k] == Split(s[n..], isSeparator)[k - 1];
          }
        }
      }
    }
  }
}
