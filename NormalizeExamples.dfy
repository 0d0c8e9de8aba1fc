/** Concrete inputs that pin down the masking rules of `normalize_error`. */
module NormalizeExamples {
  import opened Wrappers
  import opened Ascii
  import opened Normalize

  /** Only a lower-case `x` opens a hex literal. */
  lemma HexNeedsLowerX()
    ensures MaskHex("0x1F") == "<HEX>"
    ensures MaskHex("0X1F") == "0X1F"
  {
    assert HexRun("1F") == 2;
    assert "0x1F"[4..] == "";
    assert !HexLitAt("0X1F", 0);
    assert "0X1F"[1..] == "X1F";
    assert MaskHex("F") == "F";
    assert MaskHex("1F") == "1F";
    assert MaskHex("X1F") == "X1F";
  }

  /** Digits glued to a letter or `_` are kept; a digit run standing alone is masked. */
  lemma NumNeedsBoundaries()
    ensures MaskNum("v2") == "v2"
    ensures MaskNum("id_7") == "id_7"
    ensures MaskNum("42") == "<NUM>"
  {
    assert MaskNumFrom("2", true) == "2";
    assert "v2"[1..] == "2";
    assert MaskNumFrom("7", true) == "7";
    assert "id_7"[1..] == "d_7" && "d_7"[1..] == "_7" && "_7"[1..] == "7";
    assert MaskNumFrom("_7", true) == "_7";
    assert MaskNumFrom("d_7", true) == "d_7";
    assert DigitRun("2") == 1;
    assert DigitRun("42") == 2;
    assert "42"[2..] == "";
  }

  lemma {:induction false} NoDigitsUnchanged(s: string, w: bool)
    requires forall k :: 0 <= k < |s| ==> !IsDigit(s[k])
    ensures MaskNumFrom(s, w) == s
    decreases |s|
  {
    if |s| > 0 {
      NoDigitsUnchanged(s[1..], IsWordChar(s[0]));
    }
  }

  /** Text without a `0` cannot open a hex literal and passes through the hex step unchanged. */
  lemma {:induction false} MaskHexNoZeros(a: string, x: string)
    requires '0' !in a
    ensures MaskHex(a + x) == a + MaskHex(x)
    decreases |a|
  {
    if |a| == 0 {
      assert a + x == x;
    } else {
      assert a[0] in a;
      assert (a + x)[1..] == a[1..] + x;
      assert !HexLitAt(a + x, 0);
      MaskHexHead(a + x);
      MaskHexNoZeros(a[1..], x);
      assert a == [a[0]] + a[1..];
    }
  }

  /** `0x` and a maximal run of hex digits become one `<HEX>`. */
  lemma MaskHexLiteral(d: string, y: string)
    requires |d| > 0 && forall k :: 0 <= k < |d| ==> IsHexDigit(d[k])
    requires |y| == 0 || !IsHexDigit(y[0])
    ensures MaskHex("0x" + d + y) == "<HEX>" + MaskHex(y)
  {
    var s := "0x" + d + y;
    assert s[2..] == d + y;
    assert HexLitAt(s, 0);
    HexRunExact(d, y);
    assert s[2 + |d|..] == y;
  }

  lemma HexRunExact(d: string, y: string)
    requires forall k :: 0 <= k < |d| ==> IsHexDigit(d[k])
    requires |y| == 0 || !IsHexDigit(y[0])
    ensures HexRun(d + y) == |d|
  {
    assert forall k :: 0 <= k < |d| ==> (d + y)[k] == d[k];
    assert |y| > 0 ==> (d + y)[|d|] == y[0];
  }

  /** The example line and its key, cut into the pieces the steps treat separately. */
  lemma ExamplePieces()
    ensures "Error 0x1F at line 42" == "Error " + ("0x" + "1F" + " at line 42")
    ensures "Error " + ("<HEX>" + " at line 42") == "Error <HEX> at line 42"
    ensures "Error <HEX> at line 42" == "Error " + ("<HEX>" + (" at line " + "42"))
    ensures "Error " + ("<HEX>" + (" at line " + "<NUM>")) == "Error <HEX> at line <NUM>"
  {
  }

  /** The hex step on the example line: only `0x1F` is replaced. */
  lemma ExampleHex(line: string)
    requires line == "Error 0x1F at line 42"
    ensures MaskHex(line) == "Error <HEX> at line 42"
  {
    ExamplePieces();
    MaskHexNoZeros("Error ", "0x" + "1F" + " at line 42");
    MaskHexLiteral("1F", " at line 42");
    ExampleHexSuffix(" at line 42");
  }

  /** The text after the hex literal has no `0`, so the hex step leaves it alone. */
  lemma ExampleHexSuffix(rest: string)
    requires rest == " at line 42"
    ensures MaskHex(rest) == rest
  {
    MaskHexNoZeros(rest, "");
    assert rest + "" == rest;
  }

  /** `Error <HEX>` has no digit and ends in a non-word character. */
  lemma ExampleNumPrefix(y: string)
    ensures MaskNumFrom("Error " + ("<HEX>" + y), false) == "Error " + ("<HEX>" + MaskNumFrom(y, false))
  {
    var p1, p2 := "Error ", "<HEX>";
    assert !IsDigit(p1[0]) && !IsDigit(p1[1]) && !IsDigit(p1[2]) && !IsDigit(p1[3]) && !IsDigit(p1[4]) && !IsDigit(p1[5]);
    MaskNumNoDigits(p1, p2 + y, false);
    assert !IsDigit(p2[0]) && !IsDigit(p2[1]) && !IsDigit(p2[2]) && !IsDigit(p2[3]) && !IsDigit(p2[4]);
    MaskNumNoDigits(p2, y, false);
  }

  /** ` at line 42`: the run `42` follows a space and ends the line, so it stands alone. */
  lemma ExampleNumSuffix()
    ensures MaskNumFrom(" at line " + "42", false) == " at line " + "<NUM>"
  {
    var p3 := " at line ";
    assert !IsDigit(p3[0]) && !IsDigit(p3[1]) && !IsDigit(p3[2]) && !IsDigit(p3[3]) && !IsDigit(p3[4]);
    assert !IsDigit(p3[5]) && !IsDigit(p3[6]) && !IsDigit(p3[7]) && !IsDigit(p3[8]);
    MaskNumNoDigits(p3, "42", false);
    NumNeedsBoundaries();
  }

  /** The number step on the example line: only the standalone `42` is replaced. */
  lemma ExampleNum(masked: string)
    requires masked == "Error <HEX> at line 42"
    ensures MaskNum(masked) == "Error <HEX> at line <NUM>"
  {
    ExamplePieces();
    ExampleNumPrefix(" at line " + "42");
    ExampleNumSuffix();
  }

  lemma ExampleCollapsed()
    ensures Collapsed("Error <HEX> at line <NUM>")
  {
    var key := "Error <HEX> at line <NUM>";
    forall i | 0 <= i < |key| && IsSpace(key[i])
      ensures key[i] == ' ' && (i + 1 == |key| || !IsSpace(key[i + 1]))
    {
      assert i in {5, 11, 14, 19};
    }
  }

  /**
   * The line `Error 0x1F at line 42`: the hex literal and the standalone
   * number are masked, and every other character, its case included, is kept.
   */
  lemma MaskingExample()
    ensures NormalizeError("Error 0x1F at line 42") == Some("Error <HEX> at line <NUM>")
  {
    var line := "Error 0x1F at line 42";
    assert Lower(line)[..5] == "error";
    assert StartsWith(Lower(line), "error");
    assert Triggered(line);
    ExampleHex(line);
    ExampleNum(MaskHex(line));
    ExampleCollapsed();
    CollapsedUnchanged("Error <HEX> at line <NUM>");
  }

  /**
   * A line that passes the gate and has nothing to mask or collapse is its
   * own key: letters, their case and all other characters are kept.
   */
  lemma CleanLineKept(line: string)
    requires Triggered(line) && HexFree(line) && MaskNum(line) == line && Collapsed(line)
    ensures NormalizeError(line) == Some(line)
  {
    HexFreeUnchanged(line);
    CollapsedUnchanged(line);
  }

  /** The disk line passes the gate on its leading `ERROR`, whatever follows. */
  lemma DiskTriggered(line: string, d: string)
    requires line == "ERROR disk failed " + d
    ensures Triggered(line)
  {
    var low := Lower(line);
    assert low[..5] == "error";
    assert StartsWith(low, "error");
  }

  /** The code of the disk line is a bare number. */
  lemma DiskCode(d: string)
    requires d == "404" || d == "500"
    ensures |d| > 0 && forall k :: 0 <= k < |d| ==> IsDigit(d[k])
  {
    assert |d| == 3 && IsDigit(d[0]) && IsDigit(d[1]) && IsDigit(d[2]);
  }

  /** Digits alone hold no `x`, so no hex literal. */
  lemma DigitsHexFree(d: string)
    requires forall k :: 0 <= k < |d| ==> IsDigit(d[k])
    ensures HexFree(d)
  {
    forall i
      ensures !HexLitAt(d, i)
    {
      if 0 <= i && i + 2 < |d| {
        assert IsDigit(d[i + 1]);
      }
    }
  }

  /** A word with no digit, ended by a space, passes through both masking steps
      and leaves the text after it to be masked as at the start of a line. */
  lemma PlainWord(a: string, x: string)
    requires |a| > 0 && a[|a| - 1] == ' ' && forall k :: 0 <= k < |a| ==> !IsDigit(a[k])
    ensures MaskHex(a + x) == a + MaskHex(x)
    ensures MaskNumFrom(a + x, false) == a + MaskNumFrom(x, false)
  {
    MaskHexNoZeros(a, x);
    MaskNumNoDigits(a, x, false);
  }

  /** The three words in front of the code of the disk line. */
  lemma DiskWord(a: string, x: string)
    requires a == "ERROR " || a == "disk " || a == "failed "
    ensures MaskHex(a + x) == a + MaskHex(x)
    ensures MaskNumFrom(a + x, false) == a + MaskNumFrom(x, false)
  {
    if a == "ERROR " {
      assert !IsDigit(a[0]) && !IsDigit(a[1]) && !IsDigit(a[2]) && !IsDigit(a[3]) && !IsDigit(a[4]) && !IsDigit(a[5]);
    } else if a == "disk " {
      assert !IsDigit(a[0]) && !IsDigit(a[1]) && !IsDigit(a[2]) && !IsDigit(a[3]) && !IsDigit(a[4]);
    } else {
      assert !IsDigit(a[0]) && !IsDigit(a[1]) && !IsDigit(a[2]) && !IsDigit(a[3]) && !IsDigit(a[4]) && !IsDigit(a[5]) && !IsDigit(a[6]);
    }
    PlainWord(a, x);
  }

  lemma DiskPieces(d: string)
    ensures "ERROR disk failed " + d == "ERROR " + ("disk " + ("failed " + d))
  {
  }

  /** The hex step leaves a disk line with a numeric code unchanged. */
  lemma DiskHex(d: string)
    requires forall k :: 0 <= k < |d| ==> IsDigit(d[k])
    ensures MaskHex("ERROR disk failed " + d) == "ERROR disk failed " + d
  {
    DiskPieces(d);
    DiskWord("ERROR ", "disk " + ("failed " + d));
    DiskWord("disk ", "failed " + d);
    DiskWord("failed ", d);
    DigitsHexFree(d);
    HexFreeUnchanged(d);
  }

  /** The number step replaces the code of a disk line, and nothing else. */
  lemma DiskNum(d: string)
    requires |d| > 0 && forall k :: 0 <= k < |d| ==> IsDigit(d[k])
    ensures MaskNum("ERROR disk failed " + d) == "ERROR disk failed " + "<NUM>"
  {
    DiskPieces(d);
    DiskPieces("<NUM>");
    DiskWord("ERROR ", "disk " + ("failed " + d));
    DiskWord("disk ", "failed " + d);
    DiskWord("failed ", d);
    StandaloneRun(d, "");
    assert d + "" == d;
  }

  lemma DiskKeyCollapsed(key: string)
    requires key == "ERROR disk failed " + "<NUM>"
    ensures Collapse(key) == key
  {
    assert key == "ERROR disk failed <NUM>";
    forall i | 0 <= i < |key| && IsSpace(key[i])
      ensures key[i] == ' ' && (i + 1 == |key| || !IsSpace(key[i + 1]))
    {
      assert i in {5, 10, 17};
    }
    CollapsedUnchanged(key);
  }

  /**
   * Disk failures that differ only in their status code are counted as the
   * same recurring error: whatever the digits, the key is `ERROR disk failed <NUM>`.
   */
  lemma DiskKeyForgetsCode(d: string)
    requires |d| > 0 && forall k :: 0 <= k < |d| ==> IsDigit(d[k])
    ensures NormalizeError("ERROR disk failed " + d) == Some("ERROR disk failed <NUM>")
  {
    DiskTriggered("ERROR disk failed " + d, d);
    DiskRewrite(d);
  }

  /** The three rewrites turn a disk line into its key. */
  lemma DiskRewrite(d: string)
    requires |d| > 0 && forall k :: 0 <= k < |d| ==> IsDigit(d[k])
    ensures Rewrite("ERROR disk failed " + d) == "ERROR disk failed <NUM>"
  {
    DiskHex(d);
    DiskNum(d);
    DiskKeyCollapsed("ERROR disk failed " + "<NUM>");
    assert "ERROR disk failed " + "<NUM>" == "ERROR disk failed <NUM>";
  }

  /** `ERROR disk failed 404` and `ERROR disk failed 500` share one key. */
  lemma KeyOfDiskLine(d: string)
    requires d == "404" || d == "500"
    ensures NormalizeError("ERROR disk failed " + d) == Some("ERROR disk failed <NUM>")
  {
    DiskCode(d);
    DiskKeyForgetsCode(d);
  }

  lemma TriggeredHexError()
    ensures Triggered("0xerror")
  {
    var line := "0xerror";
    assert Lower(line) == line;
    assert line[1..][1..] == "error";
    assert Contains(line[1..][1..], "error");
  }

  lemma MaskHexOfHexError()
    ensures MaskHex("0xerror") == "<HEX>rror"
  {
    var line := "0xerror";
    assert HexRun("error") == 1;
    assert line[3..] == "rror";
    assert HexFree("rror");
    HexFreeUnchanged("rror");
  }

  lemma KeyOfHexError()
    ensures Triggered("0xerror")
    ensures Rewrite("0xerror") == "<HEX>rror"
  {
    TriggeredHexError();
    MaskHexOfHexError();
    var key := "<HEX>rror";
    KeyFixed();
    assert Rewrite("0xerror") == Collapse(MaskNum(key));
  }

  lemma KeyFixed()
    ensures MaskNum("<HEX>rror") == "<HEX>rror"
    ensures Collapse("<HEX>rror") == "<HEX>rror"
  {
    var key := "<HEX>rror";
    forall k | 0 <= k < |key|
      ensures !IsDigit(key[k]) && !IsSpace(key[k])
    {
      assert key[k] in {'<', 'H', 'E', 'X', '>', 'r', 'o'};
    }
    NoDigitsUnchanged(key, false);
    assert Collapsed(key);
    CollapsedUnchanged(key);
  }

  /** A text shorter than `sub` cannot contain it. */
  lemma {:induction false} ShortNotContains(s: string, sub: string)
    requires |s| < |sub|
    ensures !Contains(s, sub)
    decreases |s|
  {
    if |s| > 0 {
      ShortNotContains(s[1..], sub);
    }
  }

  /**
   * One step of the search, read backwards: if the suffix from `k` holds no
   * `sub` and the suffix from `k - 1` does not start with the first two
   * characters of `sub`, the suffix from `k - 1` holds none either.
   */
  lemma StepBack(s: string, sub: string, k: int)
    requires |sub| >= 2 && 0 < k <= |s|
    requires s[k - 1] != sub[0] || (k < |s| && s[k] != sub[1])
    requires !Contains(s[k..], sub)
    ensures !Contains(s[k - 1..], sub)
  {
    assert s[k - 1..][1..] == s[k..];
  }

  /** `<hex>rror` holds none of the four trigger words: each check below walks
      back from the last suffix long enough to hold the word. */
  lemma AbsentTriggers(s: string)
    requires s == "<hex>rror"
    ensures !Contains(s, "error") && !Contains(s, "failed")
    ensures !Contains(s, "exception") && !Contains(s, "warning")
  {
    assert s[0..] == s;
    ShortNotContains(s[5..], "error");
    StepBack(s, "error", 5);
    StepBack(s, "error", 4);
    StepBack(s, "error", 3);
    StepBack(s, "error", 2);
    StepBack(s, "error", 1);
    ShortNotContains(s[4..], "failed");
    StepBack(s, "failed", 4);
    StepBack(s, "failed", 3);
    StepBack(s, "failed", 2);
    StepBack(s, "failed", 1);
    ShortNotContains(s[1..], "exception");
    StepBack(s, "exception", 1);
    ShortNotContains(s[3..], "warning");
    StepBack(s, "warning", 3);
    StepBack(s, "warning", 2);
    StepBack(s, "warning", 1);
  }

  lemma HexErrorKeyUntriggered()
    ensures !Triggered("<HEX>rror")
  {
    assert Lower("<HEX>rror") == "<hex>rror";
    AbsentTriggers(Lower("<HEX>rror"));
  }

  /**
   * Normalisation is not idempotent in general: the hex literal `0xe` swallows
   * the `e` of `error`, and the key left behind no longer passes the gate.
   */
  lemma NotIdempotent()
    ensures NormalizeError("0xerror") == Some("<HEX>rror")
    ensures NormalizeError("<HEX>rror") == None
  {
    KeyOfHexError();
    HexErrorKeyUntriggered();
  }
}
