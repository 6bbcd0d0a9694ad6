/**
 * The string extension functions of the code generator (`_String.kt`):
 * `replaceToEmpty`, `replaceFirstToEmpty`, `firstCharLower`, `lowerCamel` and
 * the nullable fallback `or`. A Kotlin `String?` is an `Option<string>`.
 */
module StringExt {
  import opened Wrappers
  import opened Ascii
  import opened Search
  import CaseFormat

  // ---------------------------------------------------------------------------
  // replaceToEmpty: `replace(oldValue, "", ignoreCase)`
  // ---------------------------------------------------------------------------

  /**
   * Removes every occurrence of `oldValue`, as Kotlin's `replace` with an empty
   * replacement does: find the first occurrence; if there is none, return the
   * receiver itself; otherwise run the scan below.
   */
  function ReplaceToEmpty(s: string, oldValue: string, ignoreCase: bool): (r: string)
    ensures |r| <= |s|
  {
    match IndexOf(s, oldValue, 0, ignoreCase)
    case None => s
    case Some(first) => ScanFrom(s, oldValue, ignoreCase, 0, first)
  }

  /**
   * Where the library's scan looks next after the occurrence at `occ`: nowhere
   * once `occ` has reached the end, otherwise the first occurrence starting at
   * or after `occ + max(|oldValue|, 1)`. For a non-empty pattern that is the
   * first occurrence starting at or after the end of the current one, so an
   * overlapping occurrence (the one at 1 in "aaa" after "aa" at 0) is skipped.
   */
  function NextOccurrence(s: string, oldValue: string, ignoreCase: bool, occ: nat): (r: Option<nat>)
    ensures r.Some? ==> occ < r.value && occ + |oldValue| <= r.value && MatchesAt(s, oldValue, r.value, ignoreCase)
    ensures occ < |s| && |oldValue| > 0 && r.Some? ==> FirstMatchFrom(s, oldValue, ignoreCase, occ + |oldValue|, r.value)
    ensures occ < |s| && |oldValue| > 0 && r.None? ==>
      forall k: nat :: occ + |oldValue| <= k ==> !MatchesAt(s, oldValue, k, ignoreCase)
  {
    var step := if |oldValue| == 0 then 1 else |oldValue|;
    if occ >= |s| then None else IndexOf(s, oldValue, occ + step, ignoreCase)
  }

  /**
   * One round of the library's scan: `i` is where the text not yet copied
   * starts, `occ` the occurrence just found. Copy `s[i..occ]`, skip the
   * occurrence, and go on from the next occurrence if there is one.
   */
  function ScanFrom(s: string, oldValue: string, ignoreCase: bool, i: nat, occ: nat): (r: string)
    requires i <= occ
    requires MatchesAt(s, oldValue, occ, ignoreCase)
    ensures |r| <= |s| - i
    decreases |s| - occ
  {
    var next := occ + |oldValue|;
    match NextOccurrence(s, oldValue, ignoreCase, occ)
    case None => s[i..occ] + s[next..]
    case Some(j) => s[i..occ] + ScanFrom(s, oldValue, ignoreCase, next, j)
  }

  /**
   * Reference definition of removing a non-empty pattern from `s[i..]`:
   * walking left to right, drop each occurrence that starts where the walk
   * stands and keep every other character. Occurrences therefore never overlap.
   */
  function Removed(s: string, pat: string, ignoreCase: bool, i: nat): (r: string)
    requires |pat| > 0 && i <= |s|
    ensures |r| <= |s| - i
    decreases |s| - i
  {
    if MatchesAt(s, pat, i, ignoreCase) then Removed(s, pat, ignoreCase, i + |pat|)
    else if i == |s| then []
    else [s[i]] + Removed(s, pat, ignoreCase, i + 1)
  }

  /** How many occurrences `Removed` drops. */
  function RemovedCount(s: string, pat: string, ignoreCase: bool, i: nat): nat
    requires |pat| > 0 && i <= |s|
    decreases |s| - i
  {
    if MatchesAt(s, pat, i, ignoreCase) then 1 + RemovedCount(s, pat, ignoreCase, i + |pat|)
    else if i == |s| then 0
    else RemovedCount(s, pat, ignoreCase, i + 1)
  }

  lemma MultiplyByOneMore(a: int, c: int)
    ensures a * (1 + c) == a + a * c
  {
  }

  lemma {:induction false} RemovedLength(s: string, pat: string, ignoreCase: bool, i: nat)
    requires |pat| > 0 && i <= |s|
    ensures |Removed(s, pat, ignoreCase, i)| + |pat| * RemovedCount(s, pat, ignoreCase, i) == |s| - i
    decreases |s| - i
  {
    if MatchesAt(s, pat, i, ignoreCase) {
      RemovedLength(s, pat, ignoreCase, i + |pat|);
      MultiplyByOneMore(|pat|, RemovedCount(s, pat, ignoreCase, i + |pat|));
    } else if i < |s| {
      RemovedLength(s, pat, ignoreCase, i + 1);
    }
  }

  lemma {:induction false} RemovedWithoutMatch(s: string, pat: string, ignoreCase: bool, i: nat)
    requires |pat| > 0 && i <= |s|
    requires forall k: nat :: i <= k ==> !MatchesAt(s, pat, k, ignoreCase)
    ensures Removed(s, pat, ignoreCase, i) == s[i..]
    decreases |s| - i
  {
    if i < |s| {
      RemovedWithoutMatch(s, pat, ignoreCase, i + 1);
    }
  }

  /** Where no occurrence starts, `Removed` keeps the character and walks on. */
  lemma RemovedKeeps(s: string, pat: string, ignoreCase: bool, i: nat)
    requires |pat| > 0 && i < |s| && !MatchesAt(s, pat, i, ignoreCase)
    ensures Removed(s, pat, ignoreCase, i) == [s[i]] + Removed(s, pat, ignoreCase, i + 1)
  {
  }

  lemma {:induction false} RemovedUpToMatch(s: string, pat: string, ignoreCase: bool, i: nat, occ: nat)
    requires |pat| > 0
    requires FirstMatchFrom(s, pat, ignoreCase, i, occ)
    ensures Removed(s, pat, ignoreCase, i) == s[i..occ] + Removed(s, pat, ignoreCase, occ + |pat|)
    decreases occ - i
  {
    if i < occ {
      calc {
        Removed(s, pat, ignoreCase, i);
        { RemovedKeeps(s, pat, ignoreCase, i); }
        [s[i]] + Removed(s, pat, ignoreCase, i + 1);
        { RemovedUpToMatch(s, pat, ignoreCase, i + 1, occ); }
        [s[i]] + (s[i + 1..occ] + Removed(s, pat, ignoreCase, occ + |pat|));
        { assert s[i..occ] == [s[i]] + s[i + 1..occ]; }
        s[i..occ] + Removed(s, pat, ignoreCase, occ + |pat|);
      }
    }
  }

  lemma {:induction false} ScanIsRemoval(s: string, pat: string, ignoreCase: bool, i: nat, occ: nat)
    requires |pat| > 0
    requires FirstMatchFrom(s, pat, ignoreCase, i, occ)
    ensures ScanFrom(s, pat, ignoreCase, i, occ) == Removed(s, pat, ignoreCase, i)
    decreases |s| - occ
  {
    RemovedUpToMatch(s, pat, ignoreCase, i, occ);
    var next := occ + |pat|;
    assert occ < |s|;
    match NextOccurrence(s, pat, ignoreCase, occ)
    case None =>
      RemovedWithoutMatch(s, pat, ignoreCase, next);
    case Some(j) =>
      assert FirstMatchFrom(s, pat, ignoreCase, next, j);
      ScanIsRemoval(s, pat, ignoreCase, next, j);
  }

  lemma {:induction false} ScanEmptyPattern(s: string, pat: string, ignoreCase: bool, i: nat, occ: nat)
    requires |pat| == 0 && i <= occ <= |s|
    ensures ScanFrom(s, pat, ignoreCase, i, occ) == s[i..]
    decreases |s| - occ
  {
    if occ < |s| {
      ScanEmptyPattern(s, pat, ignoreCase, occ, occ + 1);
    }
  }

  /** For a non-empty `oldValue`, the library scan computes exactly the reference removal. */
  lemma ReplaceToEmptyIsRemoval(s: string, oldValue: string, ignoreCase: bool)
    requires |oldValue| > 0
    ensures ReplaceToEmpty(s, oldValue, ignoreCase) == Removed(s, oldValue, ignoreCase, 0)
  {
    match IndexOf(s, oldValue, 0, ignoreCase)
    case None =>
      RemovedWithoutMatch(s, oldValue, ignoreCase, 0);
    case Some(first) =>
      ScanIsRemoval(s, oldValue, ignoreCase, 0, first);
  }

  /** An empty `oldValue`, or one that does not occur, leaves the receiver unchanged. */
  lemma ReplaceToEmptyUnchanged(s: string, oldValue: string, ignoreCase: bool)
    requires |oldValue| == 0 || !Occurs(s, oldValue, ignoreCase)
    ensures ReplaceToEmpty(s, oldValue, ignoreCase) == s
  {
    if |oldValue| == 0 {
      ScanEmptyPattern(s, oldValue, ignoreCase, 0, 0);
    }
  }

  lemma {:induction false} RemovedCountPositive(s: string, pat: string, ignoreCase: bool, i: nat, k: nat)
    requires |pat| > 0 && i <= k && i <= |s|
    requires MatchesAt(s, pat, k, ignoreCase)
    ensures RemovedCount(s, pat, ignoreCase, i) > 0
    decreases |s| - i
  {
    if !MatchesAt(s, pat, i, ignoreCase) && i < |s| {
      RemovedCountPositive(s, pat, ignoreCase, i + 1, k);
    }
  }

  /**
   * The length drops by `|oldValue|` times the number of occurrences removed,
   * and it drops at all exactly when `oldValue` occurs.
   */
  lemma ReplaceToEmptyLength(s: string, oldValue: string, ignoreCase: bool)
    requires |oldValue| > 0
    ensures |s| - |ReplaceToEmpty(s, oldValue, ignoreCase)| == |oldValue| * RemovedCount(s, oldValue, ignoreCase, 0)
    ensures RemovedCount(s, oldValue, ignoreCase, 0) > 0 <==> Occurs(s, oldValue, ignoreCase)
    ensures ReplaceToEmpty(s, oldValue, ignoreCase) == s <==> !Occurs(s, oldValue, ignoreCase)
  {
    ReplaceToEmptyIsRemoval(s, oldValue, ignoreCase);
    RemovedLength(s, oldValue, ignoreCase, 0);
    if Occurs(s, oldValue, ignoreCase) {
      var k: nat :| k <= |s| && MatchesAt(s, oldValue, k, ignoreCase);
      RemovedCountPositive(s, oldValue, ignoreCase, 0, k);
    } else {
      ReplaceToEmptyUnchanged(s, oldValue, ignoreCase);
      RemovedWithoutMatch(s, oldValue, ignoreCase, 0);
    }
  }

  // ---------------------------------------------------------------------------
  // replaceFirstToEmpty: `replaceFirst(oldValue, "", ignoreCase)`
  // ---------------------------------------------------------------------------

  /** Cuts the leftmost occurrence of `oldValue` out of the receiver, if there is one. */
  function ReplaceFirstToEmpty(s: string, oldValue: string, ignoreCase: bool): (r: string)
    ensures !Occurs(s, oldValue, ignoreCase) ==> r == s
    ensures Occurs(s, oldValue, ignoreCase) ==>
      && |r| == |s| - |oldValue|
      && exists i: nat :: FirstMatchFrom(s, oldValue, ignoreCase, 0, i) && r == s[..i] + s[i + |oldValue|..]
  {
    match IndexOf(s, oldValue, 0, ignoreCase)
    case None => s
    case Some(i) => s[..i] + s[i + |oldValue|..]
  }

  /** Removing every occurrence starts by cutting the same leftmost occurrence that `replaceFirstToEmpty` cuts. */
  lemma ReplaceToEmptyAfterFirst(s: string, oldValue: string, ignoreCase: bool, i: nat)
    requires |oldValue| > 0
    requires FirstMatchFrom(s, oldValue, ignoreCase, 0, i)
    ensures ReplaceToEmpty(s, oldValue, ignoreCase) == s[..i] + Removed(s, oldValue, ignoreCase, i + |oldValue|)
  {
    calc {
      ReplaceToEmpty(s, oldValue, ignoreCase);
      { ReplaceToEmptyIsRemoval(s, oldValue, ignoreCase); }
      Removed(s, oldValue, ignoreCase, 0);
      { RemovedUpToMatch(s, oldValue, ignoreCase, 0, i); }
      s[0..i] + Removed(s, oldValue, ignoreCase, i + |oldValue|);
    }
  }

  /** When nothing occurs after the leftmost occurrence, the two helpers agree. */
  lemma ReplaceFirstAgreesOnSingleOccurrence(s: string, oldValue: string, ignoreCase: bool, i: nat)
    requires |oldValue| > 0
    requires FirstMatchFrom(s, oldValue, ignoreCase, 0, i)
    requires forall k: nat :: i + |oldValue| <= k ==> !MatchesAt(s, oldValue, k, ignoreCase)
    ensures ReplaceToEmpty(s, oldValue, ignoreCase) == ReplaceFirstToEmpty(s, oldValue, ignoreCase)
  {
    calc {
      ReplaceToEmpty(s, oldValue, ignoreCase);
      { ReplaceToEmptyAfterFirst(s, oldValue, ignoreCase, i); }
      s[..i] + Removed(s, oldValue, ignoreCase, i + |oldValue|);
      { RemovedWithoutMatch(s, oldValue, ignoreCase, i + |oldValue|); }
      s[..i] + s[i + |oldValue|..];
      { ReplaceFirstCutsAt(s, oldValue, ignoreCase, i); }
      ReplaceFirstToEmpty(s, oldValue, ignoreCase);
    }
  }

  /** `replaceFirstToEmpty` cuts out exactly the leftmost occurrence. */
  lemma ReplaceFirstCutsAt(s: string, oldValue: string, ignoreCase: bool, i: nat)
    requires FirstMatchFrom(s, oldValue, ignoreCase, 0, i)
    ensures ReplaceFirstToEmpty(s, oldValue, ignoreCase) == s[..i] + s[i + |oldValue|..]
  {
    IndexOfFindsFirst(s, oldValue, ignoreCase, 0, i);
  }

  // ---------------------------------------------------------------------------
  // firstCharLower
  // ---------------------------------------------------------------------------

  /**
   * Lower-cases the first character only: the empty string is returned as it
   * is, a one-character string is lower-cased whole, and a longer one has its
   * first character lower-cased and the rest appended unchanged.
   */
  function FirstCharLower(s: string): (r: string)
    ensures |s| == 0 ==> r == s
    ensures |r| == |s|
    ensures |s| > 0 ==> r[0] == ToLowerChar(s[0]) && !IsUpper(r[0])
    ensures forall i :: 1 <= i < |s| ==> r[i] == s[i]
  {
    if |s| == 0 then s
    else if |s| == 1 then ToLower(s)
    else ToLower(s[..1]) + s[1..]
  }

  /** The one-character branch gives what the general branch would. */
  lemma FirstCharLowerSingleBranch(s: string)
    requires |s| == 1
    ensures ToLower(s) == ToLower(s[..1]) + s[1..]
  {
    assert s[..1] == s;
  }

  lemma FirstCharLowerIdempotent(s: string)
    ensures FirstCharLower(FirstCharLower(s)) == FirstCharLower(s)
  {
    var r := FirstCharLower(s);
    if |s| > 0 {
      ToLowerCharIdempotent(s[0]);
      assert FirstCharLower(r)[0] == r[0];
      assert forall i :: 0 <= i < |s| ==> FirstCharLower(r)[i] == r[i];
    }
  }

  /** A string that does not start with an upper-case letter is left as it is. */
  lemma FirstCharLowerKeepsLowerStart(s: string)
    requires |s| > 0 ==> !IsUpper(s[0])
    ensures FirstCharLower(s) == s
  {
    if |s| > 0 {
      assert forall i :: 0 <= i < |s| ==> FirstCharLower(s)[i] == s[i];
    }
  }

  // ---------------------------------------------------------------------------
  // lowerCamel
  // ---------------------------------------------------------------------------

  /**
   * `CaseFormat.LOWER_UNDERSCORE.to(CaseFormat.LOWER_CAMEL, s)`: the output holds
   * no '_', and an input without '_' comes back lower-cased.
   */
  function LowerCamel(s: string): (r: string)
    ensures '_' !in r
    ensures '_' !in s ==> r == ToLower(s)
  {
    CaseFormat.CamelFromShape(s, false);
    CaseFormat.LowerUnderscoreToLowerCamel(s)
  }

  /** The output is shorter than the input by the number of '_' removed. */
  lemma LowerCamelLength(s: string)
    ensures |LowerCamel(s)| == |s| - multiset(s)['_']
  {
    CaseFormat.CamelFromShape(s, false);
  }

  /**
   * The output starts with a lower-case character whenever the input does not
   * start with '_'; it is then the lower-case form of the input's first character.
   */
  lemma LowerCamelFirstChar(s: string)
    requires |s| > 0 && s[0] != '_'
    ensures |LowerCamel(s)| > 0
    ensures LowerCamel(s)[0] == ToLowerChar(s[0]) && !IsUpper(LowerCamel(s)[0])
  {
  }

  /** A leading '_' makes an empty first word, so the next word is capitalised. */
  lemma LowerCamelLeadingUnderscore()
    ensures LowerCamel("_id") == "Id"
    ensures IsUpper(LowerCamel("_id")[0])
  {
    assert CaseFormat.CamelFrom("d", false) == "d" by { assert "d"[1..] == []; }
    assert CaseFormat.CamelFrom("id", true) == "Id" by { assert "id"[1..] == "d"; }
    assert CaseFormat.CamelFrom("_id", false) == "Id" by { assert "_id"[1..] == "id"; }
  }

  /** A doubled '_' makes an empty word in between, which stays empty. */
  lemma LowerCamelDoubledUnderscore()
    ensures LowerCamel("a__b") == "aB"
  {
    assert CaseFormat.CamelFrom("b", true) == "B" by { assert "b"[1..] == []; }
    assert CaseFormat.CamelFrom("_b", true) == "B" by { assert "_b"[1..] == "b"; }
    assert CaseFormat.CamelFrom("__b", false) == "B" by { assert "__b"[1..] == "_b"; }
    assert CaseFormat.CamelFrom("a__b", false) == "aB" by { assert "a__b"[1..] == "__b"; }
  }

  /** A trailing '_' makes an empty last word, so it simply disappears. */
  lemma LowerCamelTrailingUnderscore()
    ensures LowerCamel("id_") == "id"
  {
    assert CaseFormat.CamelFrom("_", false) == "" by { assert "_"[1..] == []; }
    assert CaseFormat.CamelFrom("d_", false) == "d" by { assert "d_"[1..] == "_"; }
    assert CaseFormat.CamelFrom("id_", false) == "id" by { assert "id_"[1..] == "d_"; }
  }

  /** Upper-case input is lower-cased first, so only the first character of a later word stays upper-case. */
  lemma LowerCamelUpperCaseInput()
    ensures LowerCamel("A_ID") == "aId"
  {
    assert CaseFormat.CamelFrom("D", false) == "d" by { assert "D"[1..] == []; }
    assert CaseFormat.CamelFrom("ID", true) == "Id" by { assert "ID"[1..] == "D"; }
    assert CaseFormat.CamelFrom("_ID", false) == "Id" by { assert "_ID"[1..] == "ID"; }
    assert CaseFormat.CamelFrom("A_ID", false) == "aId" by { assert "A_ID"[1..] == "_ID"; }
  }

  /** Two words joined by one '_' become the first word lower-cased followed by the second capitalised. */
  lemma LowerCamelTwoWords(w1: string, w2: string)
    requires '_' !in w1 && '_' !in w2
    ensures LowerCamel(w1 + "_" + w2) == ToLower(w1) + CaseFormat.Capitalize(w2)
  {
    var ws := [w1, w2];
    assert CaseFormat.JoinWords(ws[1..]) == w2;
    calc {
      LowerCamel(w1 + "_" + w2);
      { assert CaseFormat.JoinWords(ws) == w1 + "_" + w2; }
      CaseFormat.LowerUnderscoreToLowerCamel(CaseFormat.JoinWords(ws));
      { CaseFormat.WordsOfJoinWords(ws); }
      ToLower(ws[0]) + CaseFormat.CapitalizeAll(ws[1..]);
      { assert ws[1..] == [w2] && [w2][1..] == []; }
      ToLower(w1) + CaseFormat.Capitalize(w2);
    }
  }

  lemma LowerCamelExamples()
    ensures LowerCamel("user_id") == "userId"
    ensures LowerCamel("id") == "id"
    ensures LowerCamel("") == ""
  {
    LowerCamelUserId();
    ToLowerKeepsLowerCase("id");
  }

  /** The first of the examples above, as a step of its own. */
  lemma LowerCamelUserId()
    ensures LowerCamel("user_id") == "userId"
  {
    calc {
      LowerCamel("user_id");
      { assert "user_id" == "user" + "_" + "id"; }
      LowerCamel("user" + "_" + "id");
      { assert '_' !in "user" && '_' !in "id";
        assert forall i :: 0 <= i < |"user"| ==> !IsUpper("user"[i]);
        assert forall i :: 0 <= i < |"id"| ==> !IsUpper("id"[i]);
        LowerCamelOfLowerWords("user", "id"); }
      "user" + [ToUpperChar('i')] + "d";
      "userId";
    }
  }

  /** Two lower-case words joined by '_' come out with only the second word's first character changed. */
  lemma LowerCamelOfLowerWords(w1: string, w2: string)
    requires '_' !in w1 && '_' !in w2 && |w2| > 0
    requires forall i :: 0 <= i < |w1| ==> !IsUpper(w1[i])
    requires forall i :: 0 <= i < |w2| ==> !IsUpper(w2[i])
    ensures LowerCamel(w1 + "_" + w2) == w1 + [ToUpperChar(w2[0])] + w2[1..]
  {
    var rest := w2[1..];
    assert forall i :: 0 <= i < |rest| ==> !IsUpper(rest[i]) by {
      forall i | 0 <= i < |rest| ensures !IsUpper(rest[i]) {
        assert rest[i] == w2[i + 1];
      }
    }
    calc {
      LowerCamel(w1 + "_" + w2);
      { LowerCamelTwoWords(w1, w2); }
      ToLower(w1) + CaseFormat.Capitalize(w2);
      { ToLowerKeepsLowerCase(w1); ToLowerKeepsLowerCase(rest); }
      w1 + ([ToUpperChar(w2[0])] + rest);
    }
  }

  /** `firstCharLower` has nothing left to do on a `lowerCamel` result whose input does not start with '_'. */
  lemma FirstCharLowerOfLowerCamel(s: string)
    requires |s| > 0 ==> s[0] != '_'
    ensures FirstCharLower(LowerCamel(s)) == LowerCamel(s)
  {
    if |s| > 0 {
      LowerCamelFirstChar(s);
    } else {
      LowerCamelExamples();
    }
    FirstCharLowerKeepsLowerStart(LowerCamel(s));
  }

  // ---------------------------------------------------------------------------
  // or
  // ---------------------------------------------------------------------------

  /** `String?.or(fallback)`: the fallback for a null or empty receiver, the receiver otherwise. */
  function Or(s: Option<string>, fallback: string): (r: string)
    ensures s.None? || s.value == [] ==> r == fallback
    ensures s.Some? && s.value != [] ==> r == s.value
    ensures r == [] <==> (s.None? || s.value == []) && fallback == []
  {
    if s.None? || s.value == [] then fallback else s.value
  }

  lemma OrIdempotent(s: Option<string>, fallback: string)
    ensures Or(Some(Or(s, fallback)), fallback) == Or(s, fallback)
  {
  }
}
