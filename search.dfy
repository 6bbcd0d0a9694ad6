/**
 * The substring search that Kotlin's `String.replace` and `String.replaceFirst`
 * are built on: `indexOf(other, startIndex, ignoreCase)`, which tries each start
 * index in turn with `regionMatches`, comparing characters with
 * `Char.equals(other, ignoreCase)`.
 */
module Search {
  import opened Wrappers
  import opened Ascii

  /**
   * `Char.equals(other, ignoreCase)`: equal, or equal once both are upper-cased.
   * The library's second test, equal once the upper-cased forms are lower-cased
   * again, adds nothing for ASCII letters: upper-cased forms agree exactly when
   * lower-cased forms do.
   */
  predicate CharEquals(a: char, b: char, ignoreCase: bool)
    ensures CharEquals(a, b, ignoreCase) <==> a == b || (ignoreCase && ToLowerChar(a) == ToLowerChar(b))
    ensures !ignoreCase ==> (CharEquals(a, b, ignoreCase) <==> a == b)
  {
    a == b || (ignoreCase && ToUpperChar(a) == ToUpperChar(b))
  }

  /** Two strings of the same length whose characters are pairwise `CharEquals`. */
  predicate RegionEquals(a: string, b: string, ignoreCase: bool) {
    && |a| == |b|
    && forall k :: 0 <= k < |a| ==> CharEquals(a[k], b[k], ignoreCase)
  }

  /**
   * `pat` occurs in `s` at index `i` (`regionMatches` on `|pat|` characters).
   * A match needs room for the whole pattern, and the empty pattern matches at
   * every index up to and including the length.
   */
  predicate MatchesAt(s: string, pat: string, i: nat, ignoreCase: bool)
    ensures MatchesAt(s, pat, i, ignoreCase) ==> i + |pat| <= |s|
    ensures |pat| == 0 ==> (MatchesAt(s, pat, i, ignoreCase) <==> i <= |s|)
  {
    i + |pat| <= |s| && RegionEquals(s[i..i + |pat|], pat, ignoreCase)
  }

  /** A match compares the region with the pattern one character at a time. */
  lemma MatchesAtCharwise(s: string, pat: string, i: nat, ignoreCase: bool)
    ensures MatchesAt(s, pat, i, ignoreCase) <==>
      i + |pat| <= |s| && forall k :: 0 <= k < |pat| ==> CharEquals(s[i + k], pat[k], ignoreCase)
  {
    if i + |pat| <= |s| {
      var region := s[i..i + |pat|];
      assert forall k :: 0 <= k < |pat| ==> region[k] == s[i + k];
    }
  }

  predicate Occurs(s: string, pat: string, ignoreCase: bool) {
    exists i: nat :: i <= |s| && MatchesAt(s, pat, i, ignoreCase)
  }

  /** `i` is the leftmost occurrence of `pat` at or after `from`. */
  predicate FirstMatchFrom(s: string, pat: string, ignoreCase: bool, from: nat, i: nat) {
    && from <= i
    && MatchesAt(s, pat, i, ignoreCase)
    && forall k: nat :: from <= k < i ==> !MatchesAt(s, pat, k, ignoreCase)
  }

  /** `indexOf(pat, from, ignoreCase)`, with `None` for Kotlin's -1. */
  function IndexOf(s: string, pat: string, from: nat, ignoreCase: bool): (r: Option<nat>)
    ensures r.Some? ==> FirstMatchFrom(s, pat, ignoreCase, from, r.value)
    ensures r.None? ==> forall k: nat :: from <= k ==> !MatchesAt(s, pat, k, ignoreCase)
    decreases |s| - from
  {
    if from + |pat| > |s| then None
    else if MatchesAt(s, pat, from, ignoreCase) then Some(from)
    else IndexOf(s, pat, from + 1, ignoreCase)
  }

  /** The leftmost occurrence is exactly what `IndexOf` reports, and it finds one whenever there is one. */
  lemma IndexOfFindsFirst(s: string, pat: string, ignoreCase: bool, from: nat, i: nat)
    ensures IndexOf(s, pat, from, ignoreCase) == Some(i) <==> FirstMatchFrom(s, pat, ignoreCase, from, i)
  {
  }

  /** Without `ignoreCase`, a match is literal equality of the slice. */
  lemma MatchesAtCaseSensitive(s: string, pat: string, i: nat)
    requires i + |pat| <= |s|
    ensures MatchesAt(s, pat, i, false) <==> s[i..i + |pat|] == pat
  {
    if MatchesAt(s, pat, i, false) {
      assert forall k :: 0 <= k < |pat| ==> s[i..i + |pat|][k] == pat[k];
    }
  }

  /** A case-sensitive match is also a case-insensitive one. */
  lemma CaseSensitiveMatchIgnoresCase(s: string, pat: string, i: nat)
    requires MatchesAt(s, pat, i, false)
    ensures MatchesAt(s, pat, i, true)
  {
  }
}
