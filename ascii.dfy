/**
 * ASCII case mapping. Guava's `Ascii.toLowerCase`/`Ascii.toUpperCase` touch only
 * the letters 'A'..'Z' and 'a'..'z'; Kotlin's `lowercase()` is restricted to the
 * same letters in this model.
 */
module Ascii {

  predicate IsUpper(c: char) { 'A' <= c <= 'Z' }

  predicate IsLower(c: char) { 'a' <= c <= 'z' }

  /** Maps an upper-case ASCII letter to its lower-case form; every other character is kept. */
  function ToLowerChar(c: char): (r: char)
    ensures !IsUpper(r)
    ensures IsUpper(c) ==> IsLower(r)
    ensures r != c ==> IsUpper(c)
  {
    if IsUpper(c) then (c as int + 32) as char else c
  }

  /** Maps a lower-case ASCII letter to its upper-case form; every other character is kept. */
  function ToUpperChar(c: char): (r: char)
    ensures !IsLower(r)
    ensures IsLower(c) ==> IsUpper(r)
    ensures r != c ==> IsLower(c)
  {
    if IsLower(c) then (c as int - 32) as char else c
  }

  /** Lower-cases every character of `s`. */
  function ToLower(s: string): (r: string)
    ensures |r| == |s|
    ensures forall i :: 0 <= i < |s| ==> r[i] == ToLowerChar(s[i])
  {
    if s == [] then [] else [ToLowerChar(s[0])] + ToLower(s[1..])
  }

  lemma ToLowerCharIdempotent(c: char)
    ensures ToLowerChar(ToLowerChar(c)) == ToLowerChar(c)
  {
  }

  /** Lower-casing distributes over concatenation. */
  lemma ToLowerConcat(a: string, b: string)
    ensures ToLower(a + b) == ToLower(a) + ToLower(b)
  {
    assert forall i :: 0 <= i < |a + b| ==> ToLower(a + b)[i] == (ToLower(a) + ToLower(b))[i];
  }

  /** A string without upper-case letters is its own lower-case form. */
  lemma ToLowerKeepsLowerCase(s: string)
    requires forall i :: 0 <= i < |s| ==> !IsUpper(s[i])
    ensures ToLower(s) == s
  {
  }
}
