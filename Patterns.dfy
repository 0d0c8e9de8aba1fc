/**
 * The package's default patterns: three case-insensitive searches for
 * whole words (or whole phrases) out of a fixed list, each under a tag.
 */
module Patterns {
  import opened Ascii

  /** `\b` at index `i`: exactly one of the characters on either side is a word character. */
  predicate BoundaryAt(s: string, i: int)
    requires 0 <= i <= |s|
  {
    (i > 0 && IsWordChar(s[i - 1])) != (i < |s| && IsWordChar(s[i]))
  }

  /** `\b` + `w` + `\b` matches at index `i`, ignoring ASCII case. */
  predicate WordAt(s: string, w: string, i: int)
  {
    && 0 <= i && i + |w| <= |s|
    && Lower(s[i..i + |w|]) == w
    && BoundaryAt(s, i) && BoundaryAt(s, i + |w|)
  }

  /** The regex search from index `i` on, one start position after another. */
  function FindWord(s: string, w: string, i: nat): (found: bool)
    requires i <= |s|
    ensures found <==> exists j :: i <= j && WordAt(s, w, j)
    decreases |s| - i
  {
    if WordAt(s, w, i) then true
    else if i == |s| then false
    else FindWord(s, w, i + 1)
  }

  /** A search for the alternation of `words`: some alternative matches somewhere. */
  function SearchAny(s: string, words: seq<string>): (found: bool)
    ensures found <==> exists k, j :: 0 <= k < |words| && WordAt(s, words[k], j)
  {
    if |words| == 0 then false
    else if FindWord(s, words[0], 0) then true
    else
      TailAlternatives(s, words);
      SearchAny(s, words[1..])
  }

  lemma TailAlternatives(s: string, words: seq<string>)
    requires |words| > 0
    ensures (exists k, j :: 0 <= k < |words[1..]| && WordAt(s, words[1..][k], j))
      ==> exists k, j :: 0 <= k < |words| && WordAt(s, words[k], j)
  {
    if exists k, j :: 0 <= k < |words[1..]| && WordAt(s, words[1..][k], j) {
      var k, j :| 0 <= k < |words[1..]| && WordAt(s, words[1..][k], j);
      assert WordAt(s, words[k + 1], j);
    }
  }

  const ErrorWords: seq<string> := ["error", "failed", "failure", "critical", "panic"]
  const WarningWords: seq<string> := ["warn", "warning", "deprecated", "retry"]
  const AuthFailWords: seq<string> := ["failed password", "authentication failure", "invalid user"]

  predicate ErrorRule(s: string) { SearchAny(s, ErrorWords) }
  predicate WarningRule(s: string) { SearchAny(s, WarningWords) }
  predicate AuthFailRule(s: string) { SearchAny(s, AuthFailWords) }

  /** `DEFAULT_PATTERNS`, tag by tag in the order of the dictionary. */
  const DefaultPatterns: seq<(string, string -> bool)> :=
    [("ERROR", s => ErrorRule(s)), ("WARNING", s => WarningRule(s)), ("AUTH_FAIL", s => AuthFailRule(s))]

  /** The tags of the default patterns, in the order of the dictionary: three distinct tags. */
  lemma DefaultPatternTags()
    ensures |DefaultPatterns| == 3
    ensures DefaultPatterns[0].0 == "ERROR" && DefaultPatterns[1].0 == "WARNING" && DefaultPatterns[2].0 == "AUTH_FAIL"
    ensures forall a, b :: 0 <= a < b < |DefaultPatterns| ==> DefaultPatterns[a].0 != DefaultPatterns[b].0
  {
  }

  // ---------------------------------------------------------------------
  // Properties of the default patterns
  // ---------------------------------------------------------------------

  lemma LowerSlice(s: string, a: int, b: int)
    requires 0 <= a <= b <= |s|
    ensures Lower(s)[a..b] == Lower(s[a..b])
  {
  }

  /** A whole-word match depends only on the lower-cased line. */
  lemma WordAtLower(s: string, w: string, j: int)
    ensures WordAt(s, w, j) <==> WordAt(Lower(s), w, j)
  {
    if 0 <= j && j + |w| <= |s| {
      LowerSlice(s, j, j + |w|);
      LowerIdempotent(s[j..j + |w|]);
      if j < |s| {
        assert Lower(s)[j] == ToLower(s[j]);
      }
      if j > 0 {
        assert Lower(s)[j - 1] == ToLower(s[j - 1]);
      }
      if j + |w| < |s| {
        assert Lower(s)[j + |w|] == ToLower(s[j + |w|]);
      }
    }
  }

  lemma SearchIgnoresCase(s: string, t: string, words: seq<string>)
    requires Lower(s) == Lower(t)
    ensures SearchAny(s, words) == SearchAny(t, words)
  {
    forall k, j | 0 <= k < |words|
      ensures WordAt(s, words[k], j) == WordAt(t, words[k], j)
    {
      WordAtLower(s, words[k], j);
      WordAtLower(t, words[k], j);
    }
  }

  /** `re.IGNORECASE`: lines that differ only in ASCII case get the same tags. */
  lemma RulesIgnoreCase(s: string, t: string)
    requires Lower(s) == Lower(t)
    ensures ErrorRule(s) == ErrorRule(t)
    ensures WarningRule(s) == WarningRule(t)
    ensures AuthFailRule(s) == AuthFailRule(t)
  {
    SearchIgnoresCase(s, t, ErrorWords);
    SearchIgnoresCase(s, t, WarningWords);
    SearchIgnoresCase(s, t, AuthFailWords);
  }

  /** A whole phrase whose first word is `w`, followed by a space, starts with the whole word `w`. */
  lemma LeadingWord(s: string, phrase: string, w: string, j: int)
    requires WordAt(s, phrase, j)
    requires |w| > 0 && |w| < |phrase| && phrase[..|w|] == w && phrase[|w|] == ' '
    requires IsWordChar(w[|w| - 1])
    ensures WordAt(s, w, j)
  {
    LowerSlice(s, j, j + |phrase|);
    LowerSlice(s, j, j + |w|);
    assert Lower(s)[j..j + |w|] == Lower(s)[j..j + |phrase|][..|w|];
    assert Lower(s)[j + |w|] == ' ';
    assert Lower(s)[j + |w| - 1] == w[|w| - 1];
    assert IsWordChar(s[j + |w|]) == IsWordChar(ToLower(s[j + |w|]));
    assert IsWordChar(s[j + |w| - 1]) == IsWordChar(ToLower(s[j + |w| - 1]));
  }

  /** A whole phrase ending in `w`, after a space, ends with the whole word `w`. */
  lemma TrailingWord(s: string, phrase: string, w: string, j: int)
    requires WordAt(s, phrase, j)
    requires |w| > 0 && |w| < |phrase| && phrase[|phrase| - |w|..] == w && phrase[|phrase| - |w| - 1] == ' '
    requires IsWordChar(w[0])
    ensures WordAt(s, w, j + |phrase| - |w|)
  {
    var i := j + |phrase| - |w|;
    LowerSlice(s, j, j + |phrase|);
    LowerSlice(s, i, i + |w|);
    assert Lower(s)[i..i + |w|] == Lower(s)[j..j + |phrase|][|phrase| - |w|..];
    assert Lower(s)[i - 1] == ' ';
    assert Lower(s)[i] == w[0];
    assert IsWordChar(s[i - 1]) == IsWordChar(ToLower(s[i - 1]));
    assert IsWordChar(s[i]) == IsWordChar(ToLower(s[i]));
  }

  /**
   * Every line tagged AUTH_FAIL is also tagged ERROR, unless only the
   * phrase "invalid user" matched: "failed password" contains the whole
   * word "failed" and "authentication failure" the whole word "failure".
   */
  lemma AuthFailTagsError(s: string)
    ensures (exists j :: WordAt(s, "failed password", j) || WordAt(s, "authentication failure", j)) ==> ErrorRule(s)
    ensures AuthFailRule(s) ==> ErrorRule(s) || exists j :: WordAt(s, "invalid user", j)
  {
    if exists j :: WordAt(s, "failed password", j) || WordAt(s, "authentication failure", j) {
      var j :| WordAt(s, "failed password", j) || WordAt(s, "authentication failure", j);
      if WordAt(s, "failed password", j) {
        FailedPasswordIsError(s, j);
      } else {
        AuthFailureIsError(s, j);
      }
    }
    if AuthFailRule(s) {
      var k, j :| 0 <= k < |AuthFailWords| && WordAt(s, AuthFailWords[k], j);
      if k == 0 {
        FailedPasswordIsError(s, j);
      } else if k == 1 {
        AuthFailureIsError(s, j);
      } else {
        assert AuthFailWords[k] == "invalid user";
      }
    }
  }

  lemma FailedPasswordIsError(s: string, j: int)
    requires WordAt(s, "failed password", j)
    ensures ErrorRule(s)
  {
    LeadingWord(s, "failed password", "failed", j);
    assert WordAt(s, ErrorWords[1], j);
  }

  lemma AuthFailureIsError(s: string, j: int)
    requires WordAt(s, "authentication failure", j)
    ensures ErrorRule(s)
  {
    TrailingWord(s, "authentication failure", "failure", j);
    assert WordAt(s, ErrorWords[2], j + 15);
  }

  /** No whole-word match can start where the line's character differs from the word's first letter. */
  lemma HeadDiffers(s: string, w: string, j: int)
    requires |w| > 0
    requires 0 <= j < |s| ==> ToLower(s[j]) != w[0]
    ensures !WordAt(s, w, j)
  {
    if 0 <= j && j + |w| <= |s| {
      assert Lower(s[j..j + |w|])[0] == ToLower(s[j]);
    }
  }

  /** No character of `s` at an index in `[i, hi)` lower-cases to `c`. */
  predicate LacksBetween(s: string, c: char, i: nat, hi: int)
    requires hi <= |s|
    decreases hi - i
  {
    i >= hi || (ToLower(s[i]) != c && LacksBetween(s, c, i + 1, hi))
  }

  lemma {:induction false} LacksBetweenAt(s: string, c: char, i: nat, hi: int, j: int)
    requires hi <= |s| && LacksBetween(s, c, i, hi) && i <= j < hi
    ensures ToLower(s[j]) != c
    decreases hi - i
  {
    if i < j {
      LacksBetweenAt(s, c, i + 1, hi, j);
    }
  }

  lemma {:induction false} LacksJoin(s: string, c: char, i: nat, m: nat, hi: int)
    requires i <= m <= hi <= |s|
    requires LacksBetween(s, c, i, m) && LacksBetween(s, c, m, hi)
    ensures LacksBetween(s, c, i, hi)
    decreases m - i
  {
    if i < m {
      LacksJoin(s, c, i + 1, m, hi);
    }
  }

  /** A word can only be found where its first letter occurs: one candidate position `j0` ruled out, no other. */
  lemma OnlyCandidate(s: string, w: string, j0: int)
    requires |w| > 0 && !WordAt(s, w, j0) && -1 <= j0 < |s|
    requires LacksBetween(s, w[0], 0, j0) && LacksBetween(s, w[0], j0 + 1, |s|)
    ensures forall j :: !WordAt(s, w, j)
  {
    forall j | j != j0
      ensures !WordAt(s, w, j)
    {
      if 0 <= j < j0 {
        LacksBetweenAt(s, w[0], 0, j0, j);
      } else if j0 < j < |s| {
        LacksBetweenAt(s, w[0], j0 + 1, |s|, j);
      }
      HeadDiffers(s, w, j);
    }
  }
}
