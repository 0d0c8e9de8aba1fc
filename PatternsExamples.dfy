/**
 * The default patterns on a few lines: whole words only, any case.
 */
module PatternsExamples {
  import opened Ascii
  import opened Patterns

  /** An upper-case trigger word fires its tag. */
  lemma UpperCaseFires()
    ensures ErrorRule("Disk FAILURE on sda")
  {
    var s := "Disk FAILURE on sda";
    assert Lower(s[5..12]) == "failure";
    assert WordAt(s, ErrorWords[2], 5);
  }

  /** No word of `words` is found in `s` as a whole word. */
  lemma NoneFound(s: string, words: seq<string>)
    requires forall k, j :: 0 <= k < |words| ==> !WordAt(s, words[k], j)
    ensures !SearchAny(s, words)
  {
  }

  /** "errors" is not the whole word "error". */
  lemma PluralIsNotError()
    ensures !ErrorRule("errors")
  {
    assert !BoundaryAt("errors", 5);
    assert LacksBetween("errors", 'e', 1, 6);
    assert LacksBetween("errors", 'f', 0, 6) && LacksBetween("errors", 'c', 0, 6) && LacksBetween("errors", 'p', 0, 6);
    OnlyCandidate("errors", "error", 0);
    OnlyCandidate("errors", "failed", -1);
    OnlyCandidate("errors", "failure", -1);
    OnlyCandidate("errors", "critical", -1);
    OnlyCandidate("errors", "panic", -1);
    NoneFound("errors", ErrorWords);
  }

  /** "warnings" is neither the whole word "warn" nor "warning", and its "r" does not start "retry". */
  lemma PluralIsNotWarning()
    ensures !WarningRule("warnings")
  {
    assert !BoundaryAt("warnings", 4) && !BoundaryAt("warnings", 7);
    assert LacksBetween("warnings", 'w', 1, 8) && LacksBetween("warnings", 'd', 0, 8);
    assert LacksBetween("warnings", 'r', 0, 2) && LacksBetween("warnings", 'r', 3, 8);
    OnlyCandidate("warnings", "warn", 0);
    OnlyCandidate("warnings", "warning", 0);
    OnlyCandidate("warnings", "deprecated", -1);
    assert Lower("warnings"[2..7])[1] == 'n';
    OnlyCandidate("warnings", "retry", 2);
    NoneFound("warnings", WarningWords);
  }

  /** "invalid user" fires AUTH_FAIL without ERROR. */
  lemma InvalidUserIsNotError()
    ensures AuthFailRule("Invalid user admin")
    ensures !ErrorRule("Invalid user admin")
  {
    InvalidUserFires();
    InvalidUserNoErrorWord();
  }

  lemma InvalidUserFires()
    ensures AuthFailRule("Invalid user admin")
  {
    var s := "Invalid user admin";
    assert Lower(s[0..12]) == "invalid user";
    assert WordAt(s, AuthFailWords[2], 0);
  }

  /** The line lacks the letter `c` outside index 10, the "e" of "user". */
  lemma InvalidUserLacks(c: char)
    requires c in "fcp"
    ensures LacksBetween("Invalid user admin", c, 0, 18)
  {
    LacksJoin("Invalid user admin", c, 6, 12, 18);
    LacksJoin("Invalid user admin", c, 0, 6, 18);
  }

  lemma InvalidUserNoErrorWord()
    ensures !ErrorRule("Invalid user admin")
  {
    assert Lower("Invalid user admin"[10..15])[2] == ' ';
    LacksJoin("Invalid user admin", 'e', 11, 14, 18);
    OnlyCandidate("Invalid user admin", "error", 10);
    InvalidUserLacks('f');
    InvalidUserLacks('c');
    InvalidUserLacks('p');
    OnlyCandidate("Invalid user admin", "failed", -1);
    OnlyCandidate("Invalid user admin", "failure", -1);
    OnlyCandidate("Invalid user admin", "critical", -1);
    OnlyCandidate("Invalid user admin", "panic", -1);
    NoneFound("Invalid user admin", ErrorWords);
  }
}
