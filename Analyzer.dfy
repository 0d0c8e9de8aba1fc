/**
 * The package's analyzer: every line is searched with every tagged
 * pattern, each hit is recorded as a match, and the matches are counted
 * per tag.
 */
module Analyzer {
  import opened Counter
  import opened Patterns

  /** One hit: the 1-based line number, the tag of the pattern, and the line without its trailing newlines. */
  datatype Match = Match(lineNo: int, tag: string, line: string)

  /** A tagged pattern: the tag and the search the compiled regular expression performs. */
  type Pattern = (string, string -> bool)

  /** `line.rstrip("\n")`: drops every trailing line feed and nothing else. */
  function RStripNewlines(s: string): (r: string)
    ensures |r| <= |s| && r == s[..|r|]
    ensures |r| == 0 || r[|r| - 1] != '\n'
    ensures forall i :: |r| <= i < |s| ==> s[i] == '\n'
  {
    if |s| > 0 && s[|s| - 1] == '\n' then RStripNewlines(s[..|s| - 1]) else s
  }

  /** The matches of one line, `lineNo`, in pattern order. */
  function LineMatches(lineNo: int, line: string, patterns: seq<Pattern>): seq<Match>
  {
    if |patterns| == 0 then []
    else
      var p := patterns[|patterns| - 1];
      LineMatches(lineNo, line, patterns[..|patterns| - 1])
        + (if p.1(line) then [Match(lineNo, p.0, RStripNewlines(line))] else [])
  }

  /** The matches of all lines, line by line. */
  function AllMatches(lines: seq<string>, patterns: seq<Pattern>): seq<Match>
  {
    if |lines| == 0 then []
    else AllMatches(lines[..|lines| - 1], patterns) + LineMatches(|lines|, lines[|lines| - 1], patterns)
  }

  lemma LineMatchesSnoc(lineNo: int, line: string, patterns: seq<Pattern>, j: int)
    requires 0 <= j < |patterns|
    ensures LineMatches(lineNo, line, patterns[..j + 1])
      == LineMatches(lineNo, line, patterns[..j])
         + (if patterns[j].1(line) then [Match(lineNo, patterns[j].0, RStripNewlines(line))] else [])
  {
    assert patterns[..j + 1][..j] == patterns[..j];
  }

  lemma AllMatchesSnoc(lines: seq<string>, patterns: seq<Pattern>, i: int)
    requires 0 <= i < |lines|
    ensures AllMatches(lines[..i + 1], patterns) == AllMatches(lines[..i], patterns) + LineMatches(i + 1, lines[i], patterns)
  {
    assert lines[..i + 1][..i] == lines[..i];
  }

  /**
   * `analyze_lines`: for each line, numbered from 1, and each pattern in
   * order, a match when the pattern finds the line.
   */
  method AnalyzeLines(lines: seq<string>, patterns: seq<Pattern>) returns (results: seq<Match>)
    ensures results == AllMatches(lines, patterns)
  {
    results := [];
    var i := 0;
    while i < |lines|
      invariant 0 <= i <= |lines|
      invariant results == AllMatches(lines[..i], patterns)
    {
      var line := lines[i];
      var j := 0;
      while j < |patterns|
        invariant 0 <= j <= |patterns|
        invariant results == AllMatches(lines[..i], patterns) + LineMatches(i + 1, line, patterns[..j])
      {
        var (tag, rx) := patterns[j];
        LineMatchesSnoc(i + 1, line, patterns, j);
        if rx(line) {
          results := results + [Match(i + 1, tag, RStripNewlines(line))];
        }
        j := j + 1;
      }
      assert patterns[..j] == patterns;
      AllMatchesSnoc(lines, patterns, i);
      i := i + 1;
    }
    assert lines[..i] == lines;
  }

  /** A match of one line: the line's number, a pattern that finds the line, the stripped line. */
  ghost predicate HitOf(m: Match, lineNo: int, line: string, patterns: seq<Pattern>)
  {
    exists k :: 0 <= k < |patterns| && patterns[k].1(line) && m == Match(lineNo, patterns[k].0, RStripNewlines(line))
  }

  lemma {:induction false} LineMatchesIff(lineNo: int, line: string, patterns: seq<Pattern>)
    ensures forall m :: m in LineMatches(lineNo, line, patterns) <==> HitOf(m, lineNo, line, patterns)
  {
    if |patterns| > 0 {
      var init := patterns[..|patterns| - 1];
      var p := patterns[|patterns| - 1];
      LineMatchesIff(lineNo, line, init);
      forall m | HitOf(m, lineNo, line, patterns)
        ensures m in LineMatches(lineNo, line, patterns)
      {
        var k :| 0 <= k < |patterns| && patterns[k].1(line) && m == Match(lineNo, patterns[k].0, RStripNewlines(line));
        if k < |patterns| - 1 {
          assert init[k] == patterns[k];
          assert HitOf(m, lineNo, line, init);
        }
      }
      forall m | m in LineMatches(lineNo, line, patterns)
        ensures HitOf(m, lineNo, line, patterns)
      {
        if m in LineMatches(lineNo, line, init) {
          var k :| 0 <= k < |init| && init[k].1(line) && m == Match(lineNo, init[k].0, RStripNewlines(line));
          assert patterns[k] == init[k];
        } else {
          assert patterns[|patterns| - 1] == p;
        }
      }
    }
  }

  /**
   * A match is in the result exactly when some pattern finds some line: it
   * then carries that line's 1-based number, the pattern's tag and the
   * line stripped of trailing newlines.
   */
  lemma AllMatchesIff(lines: seq<string>, patterns: seq<Pattern>)
    ensures forall m :: m in AllMatches(lines, patterns) <==>
      exists i :: 0 <= i < |lines| && HitOf(m, i + 1, lines[i], patterns)
  {
    forall m
      ensures m in AllMatches(lines, patterns) <==>
        exists i :: 0 <= i < |lines| && HitOf(m, i + 1, lines[i], patterns)
    {
      if m in AllMatches(lines, patterns) {
        AllMatchesSound(lines, patterns, m);
      }
      if exists i :: 0 <= i < |lines| && HitOf(m, i + 1, lines[i], patterns) {
        var i :| 0 <= i < |lines| && HitOf(m, i + 1, lines[i], patterns);
        AllMatchesComplete(lines, patterns, i, m);
      }
    }
  }

  lemma {:induction false} AllMatchesSound(lines: seq<string>, patterns: seq<Pattern>, m: Match)
    requires m in AllMatches(lines, patterns)
    ensures exists i :: 0 <= i < |lines| && HitOf(m, i + 1, lines[i], patterns)
  {
    var n := |lines|;
    var init := lines[..n - 1];
    if m in AllMatches(init, patterns) {
      AllMatchesSound(init, patterns, m);
      var i :| 0 <= i < |init| && HitOf(m, i + 1, init[i], patterns);
      assert lines[i] == init[i];
    } else {
      LineMatchesIff(n, lines[n - 1], patterns);
      assert HitOf(m, n, lines[n - 1], patterns);
    }
  }

  lemma {:induction false} AllMatchesComplete(lines: seq<string>, patterns: seq<Pattern>, i: int, m: Match)
    requires 0 <= i < |lines| && HitOf(m, i + 1, lines[i], patterns)
    ensures m in AllMatches(lines, patterns)
  {
    var n := |lines|;
    var init := lines[..n - 1];
    assert AllMatches(lines, patterns) == AllMatches(init, patterns) + LineMatches(n, lines[n - 1], patterns);
    if i < n - 1 {
      assert init[i] == lines[i];
      AllMatchesComplete(init, patterns, i, m);
    } else {
      LineMatchesIff(n, lines[n - 1], patterns);
      assert m in LineMatches(n, lines[n - 1], patterns);
    }
  }

  lemma {:induction false} LineMatchesLength(lineNo: int, line: string, patterns: seq<Pattern>)
    ensures |LineMatches(lineNo, line, patterns)| <= |patterns|
  {
    if |patterns| > 0 {
      LineMatchesLength(lineNo, line, patterns[..|patterns| - 1]);
    }
  }

  lemma MulStep(n: int, p: int)
    ensures n * p == (n - 1) * p + p
  {
  }

  /** At most one match per line and pattern. */
  lemma {:induction false} AllMatchesBound(lines: seq<string>, patterns: seq<Pattern>)
    ensures |AllMatches(lines, patterns)| <= |lines| * |patterns|
  {
    if |lines| > 0 {
      var n := |lines|;
      AllMatchesBound(lines[..n - 1], patterns);
      LineMatchesLength(n, lines[n - 1], patterns);
      assert |AllMatches(lines, patterns)|
        == |AllMatches(lines[..n - 1], patterns)| + |LineMatches(n, lines[n - 1], patterns)|;
      MulStep(n, |patterns|);
    }
  }

  lemma {:induction false} LineMatchesNumbered(lineNo: int, line: string, patterns: seq<Pattern>)
    ensures forall m :: m in LineMatches(lineNo, line, patterns) ==> m.lineNo == lineNo
  {
    if |patterns| > 0 {
      LineMatchesNumbered(lineNo, line, patterns[..|patterns| - 1]);
    }
  }

  /** The positions of the patterns that find `line`. */
  function HitIndices(line: string, patterns: seq<Pattern>): set<int>
  {
    set k | 0 <= k < |patterns| && patterns[k].1(line)
  }

  /** The number of pattern hits over all lines, line by line. */
  function HitTotal(lines: seq<string>, patterns: seq<Pattern>): nat
  {
    if |lines| == 0 then 0
    else HitTotal(lines[..|lines| - 1], patterns) + |HitIndices(lines[|lines| - 1], patterns)|
  }

  lemma HitIndicesSnoc(line: string, patterns: seq<Pattern>)
    requires |patterns| > 0
    ensures var n := |patterns|;
      |HitIndices(line, patterns)| == |HitIndices(line, patterns[..n - 1])| + (if patterns[n - 1].1(line) then 1 else 0)
  {
    var n := |patterns|;
    var init := patterns[..n - 1];
    var a := HitIndices(line, init);
    assert n - 1 !in a;
    if patterns[n - 1].1(line) {
      assert HitIndices(line, patterns) == a + {n - 1} by {
        forall k ensures k in HitIndices(line, patterns) <==> k in a + {n - 1} {
          if 0 <= k < n - 1 {
            assert init[k] == patterns[k];
          }
        }
      }
    } else {
      assert HitIndices(line, patterns) == a by {
        forall k ensures k in HitIndices(line, patterns) <==> k in a {
          if 0 <= k < n - 1 {
            assert init[k] == patterns[k];
          }
        }
      }
    }
  }

  /** A line gives exactly one match per pattern that finds it. */
  lemma {:induction false} LineMatchesCount(lineNo: int, line: string, patterns: seq<Pattern>)
    ensures |LineMatches(lineNo, line, patterns)| == |HitIndices(line, patterns)|
  {
    if |patterns| > 0 {
      LineMatchesCount(lineNo, line, patterns[..|patterns| - 1]);
      HitIndicesSnoc(line, patterns);
    }
  }

  /** `len(results)` is the number of (line, pattern) pairs where the pattern finds the line. */
  lemma {:induction false} AllMatchesCount(lines: seq<string>, patterns: seq<Pattern>)
    ensures |AllMatches(lines, patterns)| == HitTotal(lines, patterns)
  {
    if |lines| > 0 {
      var n := |lines|;
      AllMatchesCount(lines[..n - 1], patterns);
      LineMatchesCount(n, lines[n - 1], patterns);
    }
  }

  /** With distinct tags, as the keys of a dictionary are, no tag is reported twice for one line. */
  lemma {:induction false} LineTagsDistinct(lineNo: int, line: string, patterns: seq<Pattern>)
    requires forall a, b :: 0 <= a < b < |patterns| ==> patterns[a].0 != patterns[b].0
    ensures forall a, b :: 0 <= a < b < |LineMatches(lineNo, line, patterns)| ==>
      LineMatches(lineNo, line, patterns)[a].tag != LineMatches(lineNo, line, patterns)[b].tag
  {
    if |patterns| > 0 {
      var n := |patterns|;
      var init := patterns[..n - 1];
      LineTagsDistinct(lineNo, line, init);
      LineMatchesIff(lineNo, line, init);
      var lm := LineMatches(lineNo, line, init);
      var last := if patterns[n - 1].1(line) then [Match(lineNo, patterns[n - 1].0, RStripNewlines(line))] else [];
      var r := LineMatches(lineNo, line, patterns);
      assert r == lm + last;
      forall a, b | 0 <= a < b < |r|
        ensures r[a].tag != r[b].tag
      {
        assert r[a] == lm[a];
        if b < |lm| {
          assert r[b] == lm[b];
          assert lm[a].tag != lm[b].tag;
        } else {
          assert b == |lm| && r[b] == last[0];
          assert lm[a] in lm;
          var k :| 0 <= k < |init| && init[k].1(line) && lm[a] == Match(lineNo, init[k].0, RStripNewlines(line));
          assert init[k] == patterns[k];
          assert patterns[k].0 != patterns[n - 1].0;
        }
      }
    }
  }

  /** With the default patterns a line is reported at most once under each tag. */
  lemma DefaultTagsOncePerLine(lineNo: int, line: string)
    ensures forall a, b :: 0 <= a < b < |LineMatches(lineNo, line, DefaultPatterns)| ==>
      LineMatches(lineNo, line, DefaultPatterns)[a].tag != LineMatches(lineNo, line, DefaultPatterns)[b].tag
  {
    DefaultPatternTags();
    LineTagsDistinct(lineNo, line, DefaultPatterns);
  }

  /** Matches come line by line: line numbers never decrease and stay within 1..|lines|. */
  lemma {:induction false} AllMatchesOrdered(lines: seq<string>, patterns: seq<Pattern>)
    ensures forall a :: 0 <= a < |AllMatches(lines, patterns)| ==> 1 <= AllMatches(lines, patterns)[a].lineNo <= |lines|
    ensures forall a, b :: 0 <= a < b < |AllMatches(lines, patterns)| ==>
      AllMatches(lines, patterns)[a].lineNo <= AllMatches(lines, patterns)[b].lineNo
  {
    if |lines| > 0 {
      var n := |lines|;
      var pre := AllMatches(lines[..n - 1], patterns);
      var last := LineMatches(n, lines[n - 1], patterns);
      var r := pre + last;
      AllMatchesOrdered(lines[..n - 1], patterns);
      LineMatchesNumbered(n, lines[n - 1], patterns);
      forall a | 0 <= a < |r|
        ensures 1 <= r[a].lineNo <= n
      {
        if a >= |pre| {
          assert r[a] == last[a - |pre|];
        }
      }
      forall a, b | 0 <= a < b < |r|
        ensures r[a].lineNo <= r[b].lineNo
      {
        if b >= |pre| {
          assert r[b] == last[b - |pre|];
          if a >= |pre| {
            assert r[a] == last[a - |pre|];
          }
        }
      }
    }
  }

  /** With the default patterns every match is tagged ERROR, WARNING or AUTH_FAIL. */
  lemma DefaultTags(lines: seq<string>)
    ensures forall m :: m in AllMatches(lines, DefaultPatterns) ==> m.tag in ["ERROR", "WARNING", "AUTH_FAIL"]
  {
    var ps := DefaultPatterns;
    forall m | m in AllMatches(lines, ps)
      ensures m.tag in ["ERROR", "WARNING", "AUTH_FAIL"]
    {
      AllMatchesSound(lines, ps, m);
      var i :| 0 <= i < |lines| && HitOf(m, i + 1, lines[i], ps);
      var k :| 0 <= k < |ps| && m.tag == ps[k].0;
      DefaultPatternTags();
    }
  }

  /**
   * A line where "failed password" or "authentication failure" is found as a
   * whole phrase is reported twice, under AUTH_FAIL and under ERROR.
   */
  lemma AuthFailReportedAsError(lines: seq<string>, i: int)
    requires 0 <= i < |lines|
    requires (exists j :: WordAt(lines[i], "failed password", j)) || (exists j :: WordAt(lines[i], "authentication failure", j))
    ensures Match(i + 1, "AUTH_FAIL", RStripNewlines(lines[i])) in AllMatches(lines, DefaultPatterns)
    ensures Match(i + 1, "ERROR", RStripNewlines(lines[i])) in AllMatches(lines, DefaultPatterns)
  {
    var ps := DefaultPatterns;
    var line := lines[i];
    if exists j :: WordAt(line, "failed password", j) {
      var j :| WordAt(line, "failed password", j);
      FailedPasswordIsError(line, j);
      assert WordAt(line, AuthFailWords[0], j);
    } else {
      var j :| WordAt(line, "authentication failure", j);
      AuthFailureIsError(line, j);
      assert WordAt(line, AuthFailWords[1], j);
    }
    assert ps[0].0 == "ERROR" && ps[0].1(line) == ErrorRule(line);
    assert ps[2].0 == "AUTH_FAIL" && ps[2].1(line) == AuthFailRule(line);
    assert HitOf(Match(i + 1, "AUTH_FAIL", RStripNewlines(line)), i + 1, line, ps);
    assert HitOf(Match(i + 1, "ERROR", RStripNewlines(line)), i + 1, line, ps);
    AllMatchesComplete(lines, ps, i, Match(i + 1, "AUTH_FAIL", RStripNewlines(line)));
    AllMatchesComplete(lines, ps, i, Match(i + 1, "ERROR", RStripNewlines(line)));
  }

  // ---------------------------------------------------------------------
  // summary
  // ---------------------------------------------------------------------

  function Tags(matches: seq<Match>): seq<string>
  {
    seq(|matches|, i requires 0 <= i < |matches| => matches[i].tag)
  }

  /**
   * `summary`: the number of matches per tag, tags in order of first
   * appearance; the counts add up to the number of matches.
   */
  method Summary(matches: seq<Match>) returns (out: seq<Entry<string>>)
    ensures out == Tally(Tags(matches))
    ensures Total(out) == |matches|
    ensures DistinctKeys(out)
    ensures forall tag :: Get(out, tag) == Occurrences(Tags(matches), tag)
    ensures forall tag :: tag in Keys(out) <==> exists m :: m in matches && m.tag == tag
  {
    out := [];
    var i := 0;
    while i < |matches|
      invariant 0 <= i <= |matches|
      invariant out == Tally(Tags(matches[..i]))
    {
      assert Tags(matches[..i + 1]) == Tags(matches[..i]) + [matches[i].tag];
      TallySnoc(Tags(matches[..i]), matches[i].tag);
      out := Increment(out, matches[i].tag);
      i := i + 1;
    }
    assert matches[..i] == matches;
    var tags := Tags(matches);
    TallyTotal(tags);
    TallyKeys(tags);
    TallyCounts(tags);
    forall tag | tag in tags
      ensures exists m :: m in matches && m.tag == tag
    {
      var i :| 0 <= i < |tags| && tags[i] == tag;
      assert matches[i] in matches;
    }
    forall m | m in matches
      ensures m.tag in tags
    {
      var i :| 0 <= i < |matches| && matches[i] == m;
      assert tags[i] == m.tag;
    }
  }
}
