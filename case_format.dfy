/**
 * Guava's `CaseFormat.LOWER_UNDERSCORE.to(CaseFormat.LOWER_CAMEL, s)`: the
 * input is cut into words at every '_'; the first word is lower-cased, every
 * later word has its first character upper-cased and the rest lower-cased (an
 * empty word stays empty), and the words are joined with no separator.
 */
module CaseFormat {
  import opened Ascii

  /** The words between the '_' separators; `n` separators give `n + 1` words. */
  function Words(s: string): (ws: seq<string>)
    ensures |ws| > 0
    decreases |s|
  {
    if s == [] then [[]]
    else
      var rest := Words(s[1..]);
      if s[0] == '_' then [[]] + rest
      else [[s[0]] + rest[0]] + rest[1..]
  }

  /** Puts the words back together with '_' between them. */
  function JoinWords(ws: seq<string>): string
    requires |ws| > 0
  {
    if |ws| == 1 then ws[0] else ws[0] + "_" + JoinWords(ws[1..])
  }

  /** `firstCharOnlyToUpper`: upper-case the first character, lower-case the rest. */
  function Capitalize(w: string): (r: string)
    ensures |r| == |w|
    ensures |w| > 0 ==> r[0] == ToUpperChar(w[0]) && r[1..] == ToLower(w[1..])
  {
    if w == [] then [] else [ToUpperChar(w[0])] + ToLower(w[1..])
  }

  /** The later words, each capitalised, concatenated. */
  function CapitalizeAll(ws: seq<string>): string
  {
    if ws == [] then [] else Capitalize(ws[0]) + CapitalizeAll(ws[1..])
  }

  /**
   * The conversion itself: the first word lower-cased, every later word
   * capitalised, joined with nothing between them. It agrees with the
   * character-wise reference `CamelFrom` on every input.
   */
  function LowerUnderscoreToLowerCamel(s: string): (r: string)
    ensures r == CamelFrom(s, false)
  {
    CamelFromWords(s, false);
    var ws := Words(s);
    ToLower(ws[0]) + CapitalizeAll(ws[1..])
  }

  /**
   * Reference definition, one character at a time: drop every '_', upper-case a
   * character that directly follows a '_', lower-case every other character.
   */
  function CamelFrom(s: string, afterUnderscore: bool): string
    decreases |s|
  {
    if s == [] then []
    else if s[0] == '_' then CamelFrom(s[1..], true)
    else [if afterUnderscore then ToUpperChar(s[0]) else ToLowerChar(s[0])] + CamelFrom(s[1..], false)
  }

  // ---------------------------------------------------------------------------
  // Splitting and joining
  // ---------------------------------------------------------------------------

  /** There is one word more than there are separators, and no word holds a separator. */
  lemma {:induction false} WordsShape(s: string)
    ensures |Words(s)| == multiset(s)['_'] + 1
    ensures forall w :: w in Words(s) ==> '_' !in w
    decreases |s|
  {
    if s != [] {
      var rest := Words(s[1..]);
      WordsShape(s[1..]);
      assert s == [s[0]] + s[1..];
      if s[0] == '_' {
        assert Words(s) == [[]] + rest;
      } else {
        assert Words(s) == [[s[0]] + rest[0]] + rest[1..];
        assert rest[0] in rest;
        forall w | w in Words(s) ensures '_' !in w {
          if w != [s[0]] + rest[0] {
            assert w in rest;
          }
        }
      }
    }
  }

  /** Joining the words restores the input. */
  lemma {:induction false} JoinWordsOfWords(s: string)
    ensures JoinWords(Words(s)) == s
    decreases |s|
  {
    if s != [] {
      var rest := Words(s[1..]);
      JoinWordsOfWords(s[1..]);
      if s[0] == '_' {
        assert Words(s) == [[]] + rest;
        assert Words(s)[1..] == rest;
      } else {
        assert Words(s) == [[s[0]] + rest[0]] + rest[1..];
        if |rest| > 1 {
          assert Words(s)[1..] == rest[1..];
        }
      }
    }
  }

  lemma {:induction false} WordsOfPrefixed(w: string, t: string)
    requires '_' !in w
    ensures Words(w + t) == [w + Words(t)[0]] + Words(t)[1..]
    decreases |w|
  {
    if w != [] {
      assert (w + t)[1..] == w[1..] + t;
      assert w[0] in w;
      WordsOfPrefixed(w[1..], t);
      assert [w[0]] + (w[1..] + Words(t)[0]) == w + Words(t)[0];
    } else {
      assert w + t == t && w + Words(t)[0] == Words(t)[0];
      assert Words(t) == [Words(t)[0]] + Words(t)[1..];
    }
  }

  /** A leading separator contributes an empty first word. */
  lemma WordsAfterSeparator(u: string)
    ensures Words("_" + u) == [[]] + Words(u)
  {
    assert ("_" + u)[1..] == u;
  }

  /** Splitting joined words gives back the words, provided none holds a '_'. */
  lemma {:induction false} WordsOfJoinWords(ws: seq<string>)
    requires |ws| > 0
    requires forall w :: w in ws ==> '_' !in w
    ensures Words(JoinWords(ws)) == ws
    decreases |ws|
  {
    assert ws[0] in ws;
    var empty: string := [];
    assert ws[0] + empty == ws[0];
    if |ws| == 1 {
      calc {
        Words(JoinWords(ws));
        Words(ws[0] + empty);
        { WordsOfPrefixed(ws[0], empty); }
        [ws[0] + empty];
        { assert ws == [ws[0]]; }
        ws;
      }
    } else {
      var tail := ws[1..];
      assert forall w :: w in tail ==> w in ws;
      calc {
        Words(JoinWords(ws));
        { assert JoinWords(ws) == ws[0] + ("_" + JoinWords(tail)); }
        Words(ws[0] + ("_" + JoinWords(tail)));
        { WordsOfPrefixed(ws[0], "_" + JoinWords(tail)); }
        [ws[0] + Words("_" + JoinWords(tail))[0]] + Words("_" + JoinWords(tail))[1..];
        { WordsAfterSeparator(JoinWords(tail)); WordsOfJoinWords(tail); }
        [ws[0] + empty] + tail;
        { assert ws == [ws[0]] + tail; }
        ws;
      }
    }
  }

  // ---------------------------------------------------------------------------
  // The conversion against its character-wise reference
  // ---------------------------------------------------------------------------

  lemma {:induction false} CamelFromWords(s: string, afterUnderscore: bool)
    ensures CamelFrom(s, afterUnderscore)
      == (if afterUnderscore then Capitalize(Words(s)[0]) else ToLower(Words(s)[0])) + CapitalizeAll(Words(s)[1..])
    decreases |s|
  {
    if s != [] {
      var rest := Words(s[1..]);
      CamelFromWords(s[1..], s[0] == '_');
      if s[0] == '_' {
        assert Words(s) == [[]] + rest;
        assert Words(s)[1..] == rest;
        assert CapitalizeAll(rest) == Capitalize(rest[0]) + CapitalizeAll(rest[1..]);
      } else {
        assert Words(s) == [[s[0]] + rest[0]] + rest[1..];
        assert Words(s)[1..] == rest[1..];
        var w := [s[0]] + rest[0];
        assert w[1..] == rest[0];
        ToLowerConcat([s[0]], rest[0]);
      }
    }
  }

  lemma {:induction false} CamelFromShape(s: string, afterUnderscore: bool)
    ensures '_' !in CamelFrom(s, afterUnderscore)
    ensures |CamelFrom(s, afterUnderscore)| + multiset(s)['_'] == |s|
    ensures '_' !in s && !afterUnderscore ==> CamelFrom(s, afterUnderscore) == ToLower(s)
    decreases |s|
  {
    if s != [] {
      assert s == [s[0]] + s[1..];
      CamelFromShape(s[1..], s[0] == '_');
      if s[0] != '_' {
        assert (if afterUnderscore then ToUpperChar(s[0]) else ToLowerChar(s[0])) != '_';
        if '_' !in s && !afterUnderscore {
          assert s[1..] == s[1..] && '_' !in s[1..] by {
            forall c | c in s[1..] ensures c != '_' { assert c in s; }
          }
        }
      }
    }
  }
}
