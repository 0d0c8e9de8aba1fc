/**
 * The single-file log analyzer: the line filter, the streaming pass that
 * counts lines and recurring error keys, and the ranking of those keys for
 * the summary.
 */
module LogAnalyzer {
  import opened Wrappers
  import opened Ascii
  import opened Normalize
  import opened Counter

  /** A filter string counts only when it is given and non-empty (Python truthiness). */
  predicate Present(filter: Option<string>)
  {
    filter.Some? && |filter.value| > 0
  }

  /** The lower-cased filter occurs somewhere in the lower-cased line. */
  ghost predicate Mentions(line: string, filter: string)
  {
    exists i :: OccursAt(Lower(line), Lower(filter), i)
  }

  /**
   * `match_line`: the keyword and the severity must each occur in the line,
   * ignoring case, when given; the compiled pattern (an abstract search,
   * already case-insensitive) must find the line when given.
   */
  function MatchLine(line: string, keyword: Option<string>, regex: Option<string -> bool>, severity: Option<string>): (b: bool)
    ensures b <==>
      && (Present(keyword) ==> Mentions(line, keyword.value))
      && (Present(severity) ==> Mentions(line, severity.value))
      && (regex.Some? ==> regex.value(line))
  {
    FilterSearch(line, keyword);
    FilterSearch(line, severity);
    if Present(keyword) && !Contains(Lower(line), Lower(keyword.value)) then false
    else if Present(severity) && !Contains(Lower(line), Lower(severity.value)) then false
    else if regex.Some? && !regex.value(line) then false
    else true
  }

  lemma FilterSearch(line: string, filter: Option<string>)
    ensures Present(filter) ==> (Contains(Lower(line), Lower(filter.value)) <==> Mentions(line, filter.value))
  {
    if Present(filter) {
      ContainsIffOccurs(Lower(line), Lower(filter.value));
    }
  }

  /** Keyword and severity are the same kind of test: exchanging them changes nothing. */
  lemma KeywordSeveritySymmetric(line: string, keyword: Option<string>, regex: Option<string -> bool>, severity: Option<string>)
    ensures MatchLine(line, keyword, regex, severity) == MatchLine(line, severity, regex, keyword)
  {
  }

  /** A filter that differs from another only in ASCII case selects the same lines. */
  lemma KeywordIgnoresCase(line: string, k1: string, k2: string, regex: Option<string -> bool>, severity: Option<string>)
    requires Lower(k1) == Lower(k2)
    ensures MatchLine(line, Some(k1), regex, severity) == MatchLine(line, Some(k2), regex, severity)
  {
    assert |k1| == |Lower(k1)| == |k2|;
  }

  // ---------------------------------------------------------------------
  // analyze_logs: the counting pass
  // ---------------------------------------------------------------------

  /** What the pass reports: lines read, lines that passed the filter, and the error counter. */
  datatype Report = Report(totalLines: nat, matchedLines: nat, errorCounter: seq<Entry<string>>)

  /** The lines that pass the filter, in order. */
  function Accepted(lines: seq<string>, keyword: Option<string>, regex: Option<string -> bool>, severity: Option<string>): seq<string>
  {
    if |lines| == 0 then []
    else
      var last := lines[|lines| - 1];
      Accepted(lines[..|lines| - 1], keyword, regex, severity)
        + (if MatchLine(last, keyword, regex, severity) then [last] else [])
  }

  /** The error keys of the lines that have one (`if normalized:`), in order. */
  function ErrorKeys(lines: seq<string>): seq<string>
  {
    if |lines| == 0 then []
    else
      var n := NormalizeError(lines[|lines| - 1]);
      ErrorKeys(lines[..|lines| - 1]) + (if n.Some? && |n.value| > 0 then [n.value] else [])
  }

  lemma AcceptedStep(lines: seq<string>, i: int, keyword: Option<string>, regex: Option<string -> bool>, severity: Option<string>)
    requires 0 <= i < |lines|
    ensures Accepted(lines[..i + 1], keyword, regex, severity)
      == Accepted(lines[..i], keyword, regex, severity) + (if MatchLine(lines[i], keyword, regex, severity) then [lines[i]] else [])
  {
    assert lines[..i + 1][..i] == lines[..i];
  }

  lemma ErrorKeysSnoc(ls: seq<string>, l: string)
    ensures var n := NormalizeError(l);
      ErrorKeys(ls + [l]) == ErrorKeys(ls) + (if n.Some? && |n.value| > 0 then [n.value] else [])
  {
    assert (ls + [l])[..|ls|] == ls;
  }

  /** How one more line changes the counts the pass keeps. */
  lemma PassStep(lines: seq<string>, i: int, keyword: Option<string>, regex: Option<string -> bool>, severity: Option<string>)
    requires 0 <= i < |lines|
    ensures var before := Accepted(lines[..i], keyword, regex, severity);
      var after := Accepted(lines[..i + 1], keyword, regex, severity);
      var n := NormalizeError(lines[i]);
      var counted := MatchLine(lines[i], keyword, regex, severity) && n.Some? && |n.value| > 0;
      && |after| == |before| + (if MatchLine(lines[i], keyword, regex, severity) then 1 else 0)
      && (counted ==> Tally(ErrorKeys(after)) == Increment(Tally(ErrorKeys(before)), n.value))
      && (!counted ==> Tally(ErrorKeys(after)) == Tally(ErrorKeys(before)))
  {
    var before := Accepted(lines[..i], keyword, regex, severity);
    AcceptedStep(lines, i, keyword, regex, severity);
    if MatchLine(lines[i], keyword, regex, severity) {
      ErrorKeysSnoc(before, lines[i]);
      var n := NormalizeError(lines[i]);
      if n.Some? && |n.value| > 0 {
        TallySnoc(ErrorKeys(before), n.value);
      } else {
        assert ErrorKeys(before) + [] == ErrorKeys(before);
      }
    } else {
      assert before + [] == before;
    }
  }

  /**
   * `analyze_logs` without its output: every line is counted, every line
   * that passes the filter is counted as matched, and the error key of each
   * matched line is counted in the error counter.
   */
  method AnalyzeLogs(lines: seq<string>, keyword: Option<string>, regex: Option<string -> bool>, severity: Option<string>)
    returns (report: Report)
    ensures report.totalLines == |lines|
    ensures report.matchedLines == |Accepted(lines, keyword, regex, severity)|
    ensures report.errorCounter == Tally(ErrorKeys(Accepted(lines, keyword, regex, severity)))
  {
    var totalLines := 0;
    var matchedLines := 0;
    var errorCounter: seq<Entry<string>> := [];
    var i := 0;
    while i < |lines|
      invariant 0 <= i <= |lines|
      invariant totalLines == i
      invariant matchedLines == |Accepted(lines[..i], keyword, regex, severity)|
      invariant errorCounter == Tally(ErrorKeys(Accepted(lines[..i], keyword, regex, severity)))
    {
      var line := lines[i];
      PassStep(lines, i, keyword, regex, severity);
      totalLines := totalLines + 1;
      if MatchLine(line, keyword, regex, severity) {
        matchedLines := matchedLines + 1;
        var normalized := NormalizeError(line);
        if normalized.Some? && |normalized.value| > 0 {
          errorCounter := Increment(errorCounter, normalized.value);
        }
      }
      i := i + 1;
    }
    assert lines[..i] == lines;
    report := Report(totalLines, matchedLines, errorCounter);
  }

  lemma {:induction false} AcceptedFacts(lines: seq<string>, keyword: Option<string>, regex: Option<string -> bool>, severity: Option<string>)
    ensures |Accepted(lines, keyword, regex, severity)| <= |lines|
    ensures forall l :: l in Accepted(lines, keyword, regex, severity) <==> l in lines && MatchLine(l, keyword, regex, severity)
  {
    if |lines| > 0 {
      AcceptedFacts(lines[..|lines| - 1], keyword, regex, severity);
      assert lines == lines[..|lines| - 1] + [lines[|lines| - 1]];
    }
  }

  /** Every error key comes from one of the lines, and no line gives more than one. */
  lemma {:induction false} ErrorKeysFacts(lines: seq<string>)
    ensures |ErrorKeys(lines)| <= |lines|
    ensures forall k :: k in ErrorKeys(lines) ==> exists l :: l in lines && NormalizeError(l) == Some(k)
  {
    if |lines| > 0 {
      var init := lines[..|lines| - 1];
      var last := lines[|lines| - 1];
      var n := NormalizeError(last);
      ErrorKeysFacts(init);
      forall k | k in ErrorKeys(lines)
        ensures exists l :: l in lines && NormalizeError(l) == Some(k)
      {
        if k in ErrorKeys(init) {
          var l :| l in init && NormalizeError(l) == Some(k);
          assert l in lines;
        } else {
          assert n == Some(k);
          assert last in lines;
        }
      }
    }
  }

  /**
   * What the counts in a report promise: no more matched lines than lines,
   * no more counted errors than matched lines, one counter entry per distinct
   * key, and each key counted as often as matched lines give that key.
   */
  lemma ReportCounts(lines: seq<string>, keyword: Option<string>, regex: Option<string -> bool>, severity: Option<string>)
    ensures var acc := Accepted(lines, keyword, regex, severity);
      var c := Tally(ErrorKeys(acc));
      && |acc| <= |lines|
      && Total(c) <= |acc|
      && DistinctKeys(c)
      && (forall k :: Get(c, k) == Occurrences(ErrorKeys(acc), k))
  {
    var acc := Accepted(lines, keyword, regex, severity);
    AcceptedFacts(lines, keyword, regex, severity);
    ErrorKeysFacts(acc);
    TallyTotal(ErrorKeys(acc));
    TallyKeys(ErrorKeys(acc));
    TallyCounts(ErrorKeys(acc));
  }

  /**
   * What the keys in a report promise: each was counted at least once and is
   * the non-empty, single-spaced, trimmed key of some line that passed the filter.
   */
  lemma ReportKeys(lines: seq<string>, keyword: Option<string>, regex: Option<string -> bool>, severity: Option<string>, e: Entry<string>)
    requires e in Tally(ErrorKeys(Accepted(lines, keyword, regex, severity)))
    ensures e.count >= 1 && |e.key| > 0 && Collapsed(e.key)
    ensures exists l :: l in lines && MatchLine(l, keyword, regex, severity) && NormalizeError(l) == Some(e.key)
  {
    var acc := Accepted(lines, keyword, regex, severity);
    var keys := ErrorKeys(acc);
    var c := Tally(keys);
    TallyKeys(keys);
    TallyCounts(keys);
    var i :| 0 <= i < |c| && c[i] == e;
    assert Keys(c)[i] == e.key;
    assert e.key in keys;
    ErrorKeysFacts(acc);
    var l :| l in acc && NormalizeError(l) == Some(e.key);
    AcceptedFacts(lines, keyword, regex, severity);
    assert l in lines && MatchLine(l, keyword, regex, severity);
  }

  // ---------------------------------------------------------------------
  // print_summary: the ranking of recurring issues
  // ---------------------------------------------------------------------

  /**
   * The issues `print_summary` lists: nothing (the "no recurring errors"
   * message) for an empty counter, otherwise `most_common(topN)`: entries of
   * the counter, by non-increasing count, at most `topN` of them.
   */
  function TopIssues(counter: seq<Entry<string>>, topN: int): (r: Option<seq<Entry<string>>>)
    ensures r.None? <==> |counter| == 0
    ensures r.Some? ==> |r.value| == (if topN <= 0 then 0 else Min(topN, |counter|))
    ensures r.Some? ==> NonIncreasing(r.value) && multiset(r.value) <= multiset(counter)
    ensures r.Some? ==> forall x, y :: x in r.value && y in multiset(counter) - multiset(r.value) ==> x.count >= y.count
  {
    if |counter| == 0 then None else Some(MostCommon(counter, topN))
  }
}
