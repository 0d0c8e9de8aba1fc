/**
 * `normalize_error` of log_analyzer.py: the key under which a recurring issue
 * is counted. A line that contains none of the trigger words has no key; any
 * other line is rewritten by three steps, in this order:
 *   1. every `0x` followed by hex digits becomes `<HEX>` (MaskHex),
 *   2. every digit run with a word boundary on both sides becomes `<NUM>` (MaskNum),
 *   3. whitespace runs become one space and the ends are trimmed (Collapse).
 * Letters keep their case.
 */
module Normalize {
  import opened Wrappers
  import opened Ascii

  // ---------------------------------------------------------------------
  // Step 1: hex literals, `re.sub(r"0x[0-9a-fA-F]+", "<HEX>", line)`
  // ---------------------------------------------------------------------

  /** A hex literal `0x` + hex digit starts at index `i` (only a lower-case `x` counts). */
  predicate HexLitAt(s: string, i: int)
  {
    0 <= i && i + 2 < |s| && s[i] == '0' && s[i + 1] == 'x' && IsHexDigit(s[i + 2])
  }

  /** No hex literal anywhere in `s`. */
  ghost predicate HexFree(s: string)
  {
    forall i :: !HexLitAt(s, i)
  }

  /** Length of the longest prefix of hex digits (the greedy `+`). */
  function HexRun(s: string): (n: nat)
    ensures n <= |s|
    ensures forall k :: 0 <= k < n ==> IsHexDigit(s[k])
    ensures n == |s| || !IsHexDigit(s[n])
  {
    if |s| > 0 && IsHexDigit(s[0]) then 1 + HexRun(s[1..]) else 0
  }

  /** Left to right, leftmost and longest match first, without overlaps. */
  function MaskHex(s: string): string
    decreases |s|
  {
    if |s| == 0 then ""
    else if HexLitAt(s, 0) then "<HEX>" + MaskHex(s[2 + HexRun(s[2..])..])
    else [s[0]] + MaskHex(s[1..])
  }

  lemma MaskHexHead(s: string)
    requires |s| > 0
    ensures |MaskHex(s)| > 0
    ensures MaskHex(s)[0] == if HexLitAt(s, 0) then '<' else s[0]
    ensures !HexLitAt(s, 0) ==> MaskHex(s) == [s[0]] + MaskHex(s[1..])
  {
  }

  lemma ConsHexFree(c: char, t: string)
    requires HexFree(t)
    requires !HexLitAt([c] + t, 0)
    ensures HexFree([c] + t)
  {
    forall i
      ensures !HexLitAt([c] + t, i)
    {
      if 0 < i {
        assert HexLitAt([c] + t, i) == HexLitAt(t, i - 1);
      }
    }
  }

  lemma PrefixHexFree(a: string, b: string)
    requires forall k :: 0 <= k < |a| ==> a[k] != '0'
    requires HexFree(b)
    ensures HexFree(a + b)
  {
    forall i
      ensures !HexLitAt(a + b, i)
    {
      if |a| <= i {
        assert HexLitAt(a + b, i) == HexLitAt(b, i - |a|);
      }
    }
  }

  lemma HexFreeSlice(s: string, lo: int, hi: int)
    requires HexFree(s)
    requires 0 <= lo <= hi <= |s|
    ensures HexFree(s[lo..hi])
    ensures hi == |s| ==> HexFree(s[lo..])
  {
    assert hi == |s| ==> s[lo..hi] == s[lo..];
    forall i
      ensures !HexLitAt(s[lo..hi], i)
    {
      if 0 <= i && i + 2 < hi - lo {
        assert HexLitAt(s[lo..hi], i) == HexLitAt(s, lo + i);
      }
    }
  }

  /** Masking leaves no hex literal behind: `0x0x1` becomes `<HEX>x1`, `00x1` becomes `0<HEX>`. */
  lemma {:induction false} MaskHexLeavesNoHex(s: string)
    ensures HexFree(MaskHex(s))
    decreases |s|
  {
    if |s| == 0 {
    } else if HexLitAt(s, 0) {
      var n := 2 + HexRun(s[2..]);
      MaskHexLeavesNoHex(s[n..]);
      PrefixHexFree("<HEX>", MaskHex(s[n..]));
    } else {
      MaskHexLeavesNoHex(s[1..]);
      var r := MaskHex(s[1..]);
      if s[0] == '0' && |r| >= 2 && r[0] == 'x' {
        MaskHexHead(s[1..]);
        assert s[1] == 'x' && !HexLitAt(s[1..], 0);
        assert |s| >= 3;
        MaskHexHead(s[2..]);
        assert s[1..][1..] == s[2..];
        assert r[1] == MaskHex(s[2..])[0];
        assert !IsHexDigit(r[1]);
      }
      ConsHexFree(s[0], r);
    }
  }

  /** Text without hex literals passes through unchanged. */
  lemma {:induction false} HexFreeUnchanged(s: string)
    requires HexFree(s)
    ensures MaskHex(s) == s
    decreases |s|
  {
    if |s| > 0 {
      assert !HexLitAt(s, 0);
      HexFreeSlice(s, 1, |s|);
      HexFreeUnchanged(s[1..]);
    }
  }

  lemma MaskHexIdempotent(s: string)
    ensures MaskHex(MaskHex(s)) == MaskHex(s)
  {
    MaskHexLeavesNoHex(s);
    HexFreeUnchanged(MaskHex(s));
  }

  // ---------------------------------------------------------------------
  // Step 2: decimal runs, `re.sub(r"\b\d+\b", "<NUM>", line)`
  // ---------------------------------------------------------------------

  /** Length of the longest prefix of decimal digits. */
  function DigitRun(s: string): (n: nat)
    ensures n <= |s|
    ensures forall k :: 0 <= k < n ==> IsDigit(s[k])
    ensures n == |s| || !IsDigit(s[n])
  {
    if |s| > 0 && IsDigit(s[0]) then 1 + DigitRun(s[1..]) else 0
  }

  /** `s` starts with a digit run that ends at the end of `s` or before a
      non-word character, so that `\d+\b` matches it. */
  predicate Standalone(s: string)
  {
    var n := DigitRun(s);
    n > 0 && (n == |s| || !IsWordChar(s[n]))
  }

  /**
   * The rewrite of `s`, where `prevWord` says whether the character before
   * `s` in the original line is a word character (the left `\b`). A digit run
   * glued to a word character on either side (`v2`, `id_7`, `42px`) is kept;
   * the regex cannot match inside it, so it is copied one character at a time.
   */
  function MaskNumFrom(s: string, prevWord: bool): string
    decreases |s|
  {
    if |s| == 0 then ""
    else if !prevWord && Standalone(s) then "<NUM>" + MaskNumFrom(s[DigitRun(s)..], true)
    else [s[0]] + MaskNumFrom(s[1..], IsWordChar(s[0]))
  }

  function MaskNum(s: string): string
  {
    MaskNumFrom(s, false)
  }

  lemma DigitRunCons(d: char, u: string)
    requires IsDigit(d)
    ensures DigitRun([d] + u) == 1 + DigitRun(u)
  {
    assert ([d] + u)[1..] == u;
  }

  lemma StandaloneCons(d: char, u: string)
    requires IsDigit(d) && |u| > 0 && IsDigit(u[0])
    ensures Standalone([d] + u) == Standalone(u)
  {
    DigitRunCons(d, u);
  }

  /** The state only matters for a digit at the front. */
  lemma StateIrrelevant(t: string)
    requires |t| == 0 || !IsDigit(t[0])
    ensures MaskNumFrom(t, true) == MaskNumFrom(t, false)
  {
  }

  lemma MaskNumNonDigit(c: char, x: string, w: bool)
    requires !IsDigit(c)
    ensures MaskNumFrom([c] + x, w) == [c] + MaskNumFrom(x, IsWordChar(c))
  {
    assert ([c] + x)[1..] == x;
  }

  /** A stretch without digits passes through the number step unchanged. */
  lemma {:induction false} MaskNumNoDigits(a: string, x: string, w: bool)
    requires |a| > 0 && forall k :: 0 <= k < |a| ==> !IsDigit(a[k])
    ensures MaskNumFrom(a + x, w) == a + MaskNumFrom(x, IsWordChar(a[|a| - 1]))
    decreases |a|
  {
    var rest := a[1..] + x;
    assert a + x == [a[0]] + rest;
    MaskNumNonDigit(a[0], rest, w);
    var last := IsWordChar(a[|a| - 1]);
    if |a| > 1 {
      assert forall k :: 0 <= k < |a[1..]| ==> !IsDigit(a[1..][k]) by {
        forall k | 0 <= k < |a[1..]| ensures !IsDigit(a[1..][k]) {
          assert a[1..][k] == a[k + 1];
        }
      }
      MaskNumNoDigits(a[1..], x, IsWordChar(a[0]));
      assert a[1..][|a[1..]| - 1] == a[|a| - 1];
      var m := MaskNumFrom(x, last);
      assert MaskNumFrom(rest, IsWordChar(a[0])) == a[1..] + m;
      assert [a[0]] + (a[1..] + m) == a + m;
    } else {
      assert rest == x && a == [a[0]];
    }
  }

  /** A digit run standing alone before a non-word character (or the end)
      becomes `<NUM>`, and the rest of the line is masked after a word character. */
  lemma StandaloneRun(d: string, b: string)
    requires |d| > 0 && forall k :: 0 <= k < |d| ==> IsDigit(d[k])
    requires |b| == 0 || !IsWordChar(b[0])
    ensures MaskNumFrom(d + b, false) == "<NUM>" + MaskNumFrom(b, true)
  {
    var s := d + b;
    assert forall k :: 0 <= k < |d| ==> s[k] == d[k];
    assert |b| > 0 ==> s[|d|] == b[0];
    assert DigitRun(s) == |d|;
    assert s[|d|..] == b;
  }

  /**
   * What the key is for: lines that differ only in a standalone number get
   * the same masked text, whatever the digits and however many there are.
   */
  lemma NumberPayloadIrrelevant(d1: string, d2: string, b: string)
    requires |d1| > 0 && forall k :: 0 <= k < |d1| ==> IsDigit(d1[k])
    requires |d2| > 0 && forall k :: 0 <= k < |d2| ==> IsDigit(d2[k])
    requires |b| == 0 || !IsWordChar(b[0])
    ensures MaskNumFrom(d1 + b, false) == MaskNumFrom(d2 + b, false) == "<NUM>" + MaskNumFrom(b, true)
  {
    StandaloneRun(d1, b);
    StandaloneRun(d2, b);
  }

  lemma MaskNumPlaceholder(x: string, w: bool)
    ensures MaskNumFrom("<NUM>" + x, w) == "<NUM>" + MaskNumFrom(x, false)
  {
    var a := "<NUM>";
    assert forall k :: 0 <= k < |a| ==> !IsDigit(a[k]);
    assert !IsWordChar(a[|a| - 1]);
    MaskNumNoDigits(a, x, w);
  }

  /** A digit run kept because it is glued to a word character stays glued in the output. */
  lemma {:induction false} GluedStaysGlued(s: string)
    requires |s| > 0 && !Standalone(s)
    ensures !Standalone([s[0]] + MaskNumFrom(s[1..], IsWordChar(s[0])))
    decreases |s|
  {
    var out := [s[0]] + MaskNumFrom(s[1..], IsWordChar(s[0]));
    if IsDigit(s[0]) {
      var t := s[1..];
      assert s == [s[0]] + t;
      DigitRunCons(s[0], t);
      if !IsDigit(t[0]) {
        assert MaskNumFrom(t, true) == [t[0]] + MaskNumFrom(t[1..], IsWordChar(t[0]));
        DigitRunCons(s[0], MaskNumFrom(t, true));
        assert out[1] == t[0];
      } else {
        StandaloneCons(s[0], t);
        GluedStaysGlued(t);
        assert MaskNumFrom(t, true) == [t[0]] + MaskNumFrom(t[1..], IsWordChar(t[0]));
        StandaloneCons(s[0], MaskNumFrom(t, true));
      }
    }
  }

  /** Masking numbers twice is masking them once. */
  lemma {:induction false} MaskNumIdempotent(s: string, w: bool)
    ensures MaskNumFrom(MaskNumFrom(s, w), w) == MaskNumFrom(s, w)
    decreases |s|
  {
    if |s| == 0 {
    } else if !w && Standalone(s) {
      var n := DigitRun(s);
      var r := MaskNumFrom(s[n..], true);
      MaskNumIdempotent(s[n..], true);
      if n < |s| {
        assert r == [s[n]] + MaskNumFrom(s[n + 1..], IsWordChar(s[n]));
      }
      StateIrrelevant(r);
      MaskNumPlaceholder(r, w);
    } else {
      var r := MaskNumFrom(s[1..], IsWordChar(s[0]));
      MaskNumIdempotent(s[1..], IsWordChar(s[0]));
      if !w {
        GluedStaysGlued(s);
      }
      assert ([s[0]] + r)[1..] == r;
    }
  }

  /** Number masking introduces no hex literal. */
  lemma {:induction false} MaskNumKeepsHexFree(s: string, w: bool)
    requires HexFree(s)
    ensures HexFree(MaskNumFrom(s, w))
    decreases |s|
  {
    if |s| == 0 {
    } else if !w && Standalone(s) {
      var n := DigitRun(s);
      HexFreeSlice(s, n, |s|);
      MaskNumKeepsHexFree(s[n..], true);
      PrefixHexFree("<NUM>", MaskNumFrom(s[n..], true));
    } else {
      HexFreeSlice(s, 1, |s|);
      MaskNumKeepsHexFree(s[1..], IsWordChar(s[0]));
      var r := MaskNumFrom(s[1..], IsWordChar(s[0]));
      assert !HexLitAt(s, 0);
      if s[0] == '0' && |r| >= 2 && r[0] == 'x' {
        assert r == [s[1]] + MaskNumFrom(s[2..], IsWordChar(s[1]));
        assert s[1..][1..] == s[2..];
        assert |s| >= 3;
        assert MaskNumFrom(s[2..], true) == [s[2]] + MaskNumFrom(s[3..], IsWordChar(s[2]));
        assert r[1] == s[2];
      }
      ConsHexFree(s[0], r);
    }
  }

  // ---------------------------------------------------------------------
  // Step 3: `re.sub(r"\s+", " ", line).strip()`
  // ---------------------------------------------------------------------

  /** Each maximal whitespace run becomes one space; `inRun` says whether the
      character before `s` was whitespace (already replaced). */
  function SquashFrom(s: string, inRun: bool): string
    decreases |s|
  {
    if |s| == 0 then ""
    else if IsSpace(s[0]) then
      (if inRun then SquashFrom(s[1..], true) else " " + SquashFrom(s[1..], true))
    else [s[0]] + SquashFrom(s[1..], false)
  }

  /** `str.lstrip()`: the longest suffix that does not start with whitespace. */
  function TrimStart(s: string): (r: string)
    ensures |r| <= |s| && r == s[|s| - |r|..]
    ensures |r| == 0 || !IsSpace(r[0])
    ensures forall i :: 0 <= i < |s| - |r| ==> IsSpace(s[i])
    decreases |s|
  {
    if |s| > 0 && IsSpace(s[0]) then TrimStart(s[1..]) else s
  }

  /** `str.rstrip()`: the longest prefix that does not end with whitespace. */
  function TrimEnd(s: string): (r: string)
    ensures |r| <= |s| && r == s[..|r|]
    ensures |r| == 0 || !IsSpace(r[|r| - 1])
    ensures forall i :: |r| <= i < |s| ==> IsSpace(s[i])
    decreases |s|
  {
    if |s| > 0 && IsSpace(s[|s| - 1]) then TrimEnd(s[..|s| - 1]) else s
  }

  function Strip(s: string): string
  {
    TrimEnd(TrimStart(s))
  }

  function Collapse(s: string): string
  {
    Strip(SquashFrom(s, false))
  }

  /** Every whitespace character is a plain space and none follows another. */
  predicate SingleSpaced(t: string)
  {
    forall i :: 0 <= i < |t| && IsSpace(t[i]) ==> t[i] == ' ' && (i + 1 == |t| || !IsSpace(t[i + 1]))
  }

  /** The shape of a collapsed line: single spaces, no whitespace at either end. */
  predicate Collapsed(t: string)
  {
    SingleSpaced(t) && (|t| == 0 || (!IsSpace(t[0]) && !IsSpace(t[|t| - 1])))
  }

  predicate HasNonSpace(s: string)
  {
    exists i :: 0 <= i < |s| && !IsSpace(s[i])
  }

  lemma SquashNonSpace(c: char, x: string, r: bool)
    requires !IsSpace(c)
    ensures SquashFrom([c] + x, r) == [c] + SquashFrom(x, false)
  {
    assert ([c] + x)[1..] == x;
  }

  lemma SquashSpace(c: char, x: string, r: bool)
    requires IsSpace(c)
    ensures SquashFrom([c] + x, r) == if r then SquashFrom(x, true) else " " + SquashFrom(x, true)
  {
    assert ([c] + x)[1..] == x;
  }

  lemma {:induction false} SquashShape(s: string, r: bool)
    ensures SingleSpaced(SquashFrom(s, r))
    ensures r ==> |SquashFrom(s, r)| == 0 || !IsSpace(SquashFrom(s, r)[0])
    decreases |s|
  {
    if |s| > 0 {
      if IsSpace(s[0]) {
        SquashShape(s[1..], true);
      } else {
        SquashShape(s[1..], false);
      }
    }
  }

  lemma SingleSpacedSlice(t: string, lo: int, hi: int)
    requires SingleSpaced(t)
    requires 0 <= lo <= hi <= |t|
    ensures SingleSpaced(t[lo..hi])
  {
    var u := t[lo..hi];
    forall i | 0 <= i < |u| && IsSpace(u[i])
      ensures u[i] == ' ' && (i + 1 == |u| || !IsSpace(u[i + 1]))
    {
      assert u[i] == t[lo + i];
      if i + 1 < |u| {
        assert u[i + 1] == t[lo + i + 1];
      }
    }
  }

  lemma TrimStartSingleSpaced(t: string)
    requires SingleSpaced(t)
    ensures SingleSpaced(TrimStart(t))
  {
    var a := TrimStart(t);
    assert t[|t| - |a|..|t|] == a;
    SingleSpacedSlice(t, |t| - |a|, |t|);
  }

  lemma TrimEndSingleSpaced(a: string)
    requires SingleSpaced(a)
    ensures SingleSpaced(TrimEnd(a))
    ensures |a| == 0 || !IsSpace(a[0]) ==> |TrimEnd(a)| == 0 || !IsSpace(TrimEnd(a)[0])
  {
    var b := TrimEnd(a);
    assert a[0..|b|] == b;
    SingleSpacedSlice(a, 0, |b|);
    if |b| > 0 {
      assert b[0] == a[0];
    }
  }

  /** Stripping a single-spaced line gives a collapsed one. */
  lemma StripCollapsed(t: string)
    requires SingleSpaced(t)
    ensures Collapsed(Strip(t))
  {
    TrimStartSingleSpaced(t);
    TrimEndSingleSpaced(TrimStart(t));
  }

  /** The result of Collapse is collapsed. */
  lemma CollapseShape(s: string)
    ensures Collapsed(Collapse(s))
  {
    SquashShape(s, false);
    StripCollapsed(SquashFrom(s, false));
  }

  lemma {:induction false} SquashUnchanged(t: string, r: bool)
    requires SingleSpaced(t)
    requires r ==> |t| == 0 || !IsSpace(t[0])
    ensures SquashFrom(t, r) == t
    decreases |t|
  {
    if |t| > 0 {
      SingleSpacedSlice(t, 1, |t|);
      assert t[1..|t|] == t[1..];
      SquashUnchanged(t[1..], IsSpace(t[0]));
    }
  }

  /** A collapsed line is a fixed point of Collapse. */
  lemma CollapsedUnchanged(t: string)
    requires Collapsed(t)
    ensures Collapse(t) == t
  {
    SquashUnchanged(t, false);
  }

  lemma CollapseIdempotent(s: string)
    ensures Collapse(Collapse(s)) == Collapse(s)
  {
    CollapseShape(s);
    CollapsedUnchanged(Collapse(s));
  }

  lemma {:induction false} SquashKeepsNonSpace(s: string, r: bool)
    requires HasNonSpace(s)
    ensures HasNonSpace(SquashFrom(s, r))
    decreases |s|
  {
    if IsSpace(s[0]) {
      var i :| 0 <= i < |s| && !IsSpace(s[i]);
      assert s[1..][i - 1] == s[i];
      SquashKeepsNonSpace(s[1..], true);
      var j :| 0 <= j < |SquashFrom(s[1..], true)| && !IsSpace(SquashFrom(s[1..], true)[j]);
      if !r {
        assert SquashFrom(s, r)[j + 1] == SquashFrom(s[1..], true)[j];
      }
    } else {
      assert SquashFrom(s, r)[0] == s[0];
    }
  }

  lemma StripKeepsNonSpace(t: string)
    requires HasNonSpace(t)
    ensures |Strip(t)| > 0
  {
    var i :| 0 <= i < |t| && !IsSpace(t[i]);
    TrimStartKeeps(t, i);
    TrimEndKeeps(TrimStart(t), i - (|t| - |TrimStart(t)|));
  }

  /** `lstrip` keeps every visible character, shifted by what it removed. */
  lemma TrimStartKeeps(t: string, i: int)
    requires 0 <= i < |t| && !IsSpace(t[i])
    ensures |t| - |TrimStart(t)| <= i && TrimStart(t)[i - (|t| - |TrimStart(t)|)] == t[i]
  {
  }

  /** `rstrip` keeps every visible character in place. */
  lemma TrimEndKeeps(a: string, j: int)
    requires 0 <= j < |a| && !IsSpace(a[j])
    ensures j < |TrimEnd(a)|
  {
  }

  /** A line with a visible character never collapses to the empty string. */
  lemma CollapseNonEmpty(s: string)
    requires HasNonSpace(s)
    ensures |Collapse(s)| > 0
  {
    SquashKeepsNonSpace(s, false);
    StripKeepsNonSpace(SquashFrom(s, false));
  }

  lemma {:induction false} MaskHexKeepsNonSpace(s: string)
    requires HasNonSpace(s)
    ensures HasNonSpace(MaskHex(s))
    decreases |s|
  {
    MaskHexHead(s);
    if !HexLitAt(s, 0) && IsSpace(s[0]) {
      var i :| 0 <= i < |s| && !IsSpace(s[i]);
      assert s[1..][i - 1] == s[i];
      MaskHexKeepsNonSpace(s[1..]);
      var j :| 0 <= j < |MaskHex(s[1..])| && !IsSpace(MaskHex(s[1..])[j]);
      assert MaskHex(s)[j + 1] == MaskHex(s[1..])[j];
    }
  }

  lemma {:induction false} MaskNumKeepsNonSpace(s: string, w: bool)
    requires HasNonSpace(s)
    ensures HasNonSpace(MaskNumFrom(s, w))
    decreases |s|
  {
    if IsSpace(s[0]) {
      assert !IsDigit(s[0]) && !IsWordChar(s[0]);
      assert DigitRun(s) == 0;
      MaskNumCopyStep(s, w);
      var i :| 0 <= i < |s| && !IsSpace(s[i]);
      assert s[1..][i - 1] == s[i];
      var r := MaskNumFrom(s[1..], false);
      MaskNumKeepsNonSpace(s[1..], false);
      var j :| 0 <= j < |r| && !IsSpace(r[j]);
      assert ([s[0]] + r)[j + 1] == r[j];
    } else {
      MaskNumHead(s, w);
      assert !IsSpace(MaskNumFrom(s, w)[0]);
    }
  }


  // ---------------------------------------------------------------------
  // How the steps interact
  // ---------------------------------------------------------------------

  /** Collapsing whitespace introduces no hex literal. */
  lemma {:induction false} SquashKeepsHexFree(s: string, r: bool)
    requires HexFree(s)
    ensures HexFree(SquashFrom(s, r))
    decreases |s|
  {
    if |s| > 0 {
      HexFreeSlice(s, 1, |s|);
      if IsSpace(s[0]) {
        SquashKeepsHexFree(s[1..], true);
        if !r {
          PrefixHexFree(" ", SquashFrom(s[1..], true));
        }
      } else {
        SquashKeepsHexFree(s[1..], false);
        var q := SquashFrom(s[1..], false);
        assert !HexLitAt(s, 0);
        if s[0] == '0' && |q| >= 2 && q[0] == 'x' {
          assert s[1..] == [s[1]] + s[2..];
          SquashNonSpace(s[1], s[2..], false);
          assert |s| >= 3;
          assert s[2..] == [s[2]] + s[3..];
          if IsSpace(s[2]) {
            SquashSpace(s[2], s[3..], false);
          } else {
            SquashNonSpace(s[2], s[3..], false);
          }
        }
        ConsHexFree(s[0], q);
      }
    }
  }

  lemma StripKeepsHexFree(t: string)
    requires HexFree(t)
    ensures HexFree(Strip(t))
  {
    var a := TrimStart(t);
    HexFreeSlice(t, |t| - |a|, |t|);
    HexFreeSlice(a, 0, |TrimEnd(a)|);
  }

  lemma {:induction false} SquashWordPrefix(a: string, x: string, r: bool)
    requires |a| > 0 && forall k :: 0 <= k < |a| ==> !IsSpace(a[k])
    ensures SquashFrom(a + x, r) == a + SquashFrom(x, false)
    decreases |a|
  {
    assert a + x == [a[0]] + (a[1..] + x);
    SquashNonSpace(a[0], a[1..] + x, r);
    if |a| > 1 {
      SquashWordPrefix(a[1..], x, false);
    }
    assert a == [a[0]] + a[1..];
  }

  /** `q` starts with the same digit run as `s`, standing alone exactly when it does, followed by `rest`. */
  predicate SameRun(s: string, q: string, rest: string)
  {
    var n := DigitRun(s);
    n <= |q| && DigitRun(q) == n && q[n..] == rest && (Standalone(q) <==> Standalone(s))
  }

  /** Collapsing whitespace neither splits nor joins a digit run, nor changes whether it stands alone. */
  lemma {:induction false} SquashDigitRun(s: string, r: bool)
    requires |s| > 0 && IsDigit(s[0])
    ensures SameRun(s, SquashFrom(s, r), SquashFrom(s[DigitRun(s)..], false))
    decreases |s|
  {
    var t := s[1..];
    assert s == [s[0]] + t;
    SquashNonSpace(s[0], t, r);
    if |t| == 0 || !IsDigit(t[0]) {
      SquashDigitLast(s[0], t);
    } else {
      SquashDigitRun(t, false);
      SquashDigitNext(s[0], t);
    }
  }

  lemma SquashDigitLast(d: char, t: string)
    requires IsDigit(d) && (|t| == 0 || !IsDigit(t[0]))
    ensures SameRun([d] + t, [d] + SquashFrom(t, false), SquashFrom(([d] + t)[1..], false))
  {
    var qt := SquashFrom(t, false);
    SquashHead(t);
    assert DigitRun(qt) == 0 && DigitRun(t) == 0;
    DigitRunCons(d, t);
    DigitRunCons(d, qt);
    assert ([d] + t)[1..] == t;
    assert ([d] + qt)[1..] == qt;
  }

  /** The first character after squashing is as much a word character as the first before. */
  lemma SquashHead(t: string)
    requires |t| == 0 || !IsDigit(t[0])
    ensures |SquashFrom(t, false)| == 0 <==> |t| == 0
    ensures |t| > 0 ==>
      !IsDigit(SquashFrom(t, false)[0]) && IsWordChar(SquashFrom(t, false)[0]) == IsWordChar(t[0])
  {
    if |t| > 0 {
      assert t == [t[0]] + t[1..];
      if IsSpace(t[0]) {
        SquashSpace(t[0], t[1..], false);
      } else {
        SquashNonSpace(t[0], t[1..], false);
      }
    }
  }

  lemma SquashDigitNext(d: char, t: string)
    requires IsDigit(d) && |t| > 0 && IsDigit(t[0])
    requires SameRun(t, SquashFrom(t, false), SquashFrom(t[DigitRun(t)..], false))
    ensures SameRun([d] + t, [d] + SquashFrom(t, false), SquashFrom(([d] + t)[DigitRun([d] + t)..], false))
  {
    var qt := SquashFrom(t, false);
    DigitRunCons(d, t);
    DigitRunCons(d, qt);
    StandaloneCons(d, t);
    StandaloneCons(d, qt);
    assert ([d] + qt)[1 + DigitRun(t)..] == qt[DigitRun(t)..];
    assert ([d] + t)[1 + DigitRun(t)..] == t[DigitRun(t)..];
  }

  lemma MaskNumHead(t: string, w: bool)
    requires |t| > 0
    ensures |MaskNumFrom(t, w)| > 0
    ensures MaskNumFrom(t, w)[0] == if !w && Standalone(t) then '<' else t[0]
  {
  }

  lemma MaskNumSquashSpace(s: string, w: bool, r: bool)
    requires |s| > 0 && IsSpace(s[0]) && (r ==> !w)
    requires MaskNumFrom(SquashFrom(s[1..], true), false) == SquashFrom(MaskNumFrom(s[1..], false), true)
    ensures MaskNumFrom(SquashFrom(s, r), w) == SquashFrom(MaskNumFrom(s, w), r)
  {
    var t := s[1..];
    var m := MaskNumFrom(t, false);
    var x := SquashFrom(t, true);
    assert s == [s[0]] + t;
    assert !IsWordChar(s[0]) && !IsDigit(s[0]);
    MaskNumNonDigit(s[0], t, w);
    assert MaskNumFrom(s, w) == [s[0]] + m;
    SquashSpace(s[0], m, r);
    SquashSpace(s[0], t, r);
    if r {
      assert SquashFrom(s, r) == x;
    } else {
      assert SquashFrom(s, r) == " " + x;
      MaskNumNonDigit(' ', x, w);
    }
  }

  lemma MaskNumSquashRun(s: string, w: bool, r: bool)
    requires |s| > 0 && !w && Standalone(s)
    requires var n := DigitRun(s);
      MaskNumFrom(SquashFrom(s[n..], false), true) == SquashFrom(MaskNumFrom(s[n..], true), false)
    ensures MaskNumFrom(SquashFrom(s, r), w) == SquashFrom(MaskNumFrom(s, w), r)
  {
    var n := DigitRun(s);
    SquashDigitRun(s, r);
    SquashWordPrefix("<NUM>", MaskNumFrom(s[n..], true), r);
  }

  lemma MaskNumSquashOther(s: string, w: bool, r: bool)
    requires |s| > 0 && !IsSpace(s[0]) && (w || !Standalone(s))
    requires MaskNumFrom(SquashFrom(s[1..], false), IsWordChar(s[0]))
      == SquashFrom(MaskNumFrom(s[1..], IsWordChar(s[0])), false)
    ensures MaskNumFrom(SquashFrom(s, r), w) == SquashFrom(MaskNumFrom(s, w), r)
  {
    var t := s[1..];
    assert s == [s[0]] + t;
    SquashNonSpace(s[0], t, r);
    if IsDigit(s[0]) {
      SquashDigitRun(s, r);
    } else {
      MaskNumNonDigit(s[0], SquashFrom(t, false), w);
    }
    var q := SquashFrom(s, r);
    assert q[1..] == SquashFrom(t, false);
    SquashNonSpace(s[0], MaskNumFrom(t, IsWordChar(s[0])), r);
  }

  /** Number masking and whitespace squashing commute. */
  lemma {:induction false} MaskNumSquash(s: string, w: bool, r: bool)
    requires r ==> !w
    ensures MaskNumFrom(SquashFrom(s, r), w) == SquashFrom(MaskNumFrom(s, w), r)
    decreases |s|
  {
    if |s| == 0 {
    } else if IsSpace(s[0]) {
      MaskNumSquash(s[1..], false, true);
      MaskNumSquashSpace(s, w, r);
    } else if !w && Standalone(s) {
      MaskNumSquash(s[DigitRun(s)..], true, false);
      MaskNumSquashRun(s, w, r);
    } else {
      MaskNumSquash(s[1..], IsWordChar(s[0]), false);
      MaskNumSquashOther(s, w, r);
    }
  }

  lemma TrimStartCons(c: char, x: string)
    ensures TrimStart([c] + x) == if IsSpace(c) then TrimStart(x) else [c] + x
  {
    assert ([c] + x)[1..] == x;
  }

  lemma MaskNumSpaceHead(t: string, w: bool)
    requires |t| > 0 && IsSpace(t[0])
    ensures MaskNumFrom(t, w) == [t[0]] + MaskNumFrom(t[1..], false)
  {
    assert !IsDigit(t[0]) && DigitRun(t) == 0;
    assert !IsWordChar(t[0]);
  }

  lemma MaskNumTrimStartSpace(t: string)
    requires |t| > 0 && IsSpace(t[0])
    requires MaskNumFrom(TrimStart(t[1..]), false) == TrimStart(MaskNumFrom(t[1..], false))
    ensures MaskNumFrom(TrimStart(t), false) == TrimStart(MaskNumFrom(t, false))
  {
    MaskNumSpaceHead(t, false);
    TrimStartCons(t[0], MaskNumFrom(t[1..], false));
  }

  lemma MaskNumTrimStartVisible(t: string)
    requires |t| > 0 && !IsSpace(t[0])
    ensures MaskNumFrom(TrimStart(t), false) == TrimStart(MaskNumFrom(t, false))
  {
    assert TrimStart(t) == t;
    MaskNumHead(t, false);
  }

  lemma {:induction false} MaskNumTrimStart(t: string)
    ensures MaskNumFrom(TrimStart(t), false) == TrimStart(MaskNumFrom(t, false))
    decreases |t|
  {
    if |t| > 0 {
      if IsSpace(t[0]) {
        MaskNumTrimStart(t[1..]);
        MaskNumTrimStartSpace(t);
      } else {
        MaskNumTrimStartVisible(t);
      }
    }
  }

  /** A non-word character appended after a line does not change its leading digit run. */
  lemma DigitRunSnoc(t: string, c: char)
    requires |t| > 0 && !IsWordChar(c)
    ensures DigitRun(t + [c]) == DigitRun(t) && Standalone(t + [c]) == Standalone(t)
  {
    var u := t + [c];
    var n := DigitRun(t);
    assert forall k :: 0 <= k < n ==> u[k] == t[k];
    assert n < |u| && !IsDigit(u[n]);
    DigitRunPrefix(u, n);
  }

  /** A digit prefix ending before a non-digit is the digit run. */
  lemma {:induction false} DigitRunPrefix(u: string, n: nat)
    requires n < |u| && !IsDigit(u[n]) && forall k :: 0 <= k < n ==> IsDigit(u[k])
    ensures DigitRun(u) == n
    decreases n
  {
    if n > 0 {
      DigitRunPrefix(u[1..], n - 1);
    }
  }

  /** A trailing non-word character never changes how the text before it is masked. */
  lemma {:induction false} MaskNumAppend(t: string, c: char, w: bool)
    requires !IsWordChar(c)
    ensures MaskNumFrom(t + [c], w) == MaskNumFrom(t, w) + [c]
    decreases |t|
  {
    var u := t + [c];
    if |t| == 0 {
      assert u == [c] + [];
      MaskNumNonDigit(c, [], w);
    } else {
      var n := DigitRun(t);
      DigitRunSnoc(t, c);
      if !w && Standalone(t) {
        assert u[n..] == t[n..] + [c];
        MaskNumAppend(t[n..], c, true);
        MaskNumAppendRun(t, c);
      } else {
        assert u[1..] == t[1..] + [c];
        MaskNumAppend(t[1..], c, IsWordChar(t[0]));
        MaskNumAppendCopy(t, c, w);
      }
    }
  }

  lemma MaskNumAppendRun(t: string, c: char)
    requires |t| > 0 && Standalone(t) && DigitRun(t + [c]) == DigitRun(t) && Standalone(t + [c])
    requires (t + [c])[DigitRun(t)..] == t[DigitRun(t)..] + [c]
    requires MaskNumFrom(t[DigitRun(t)..] + [c], true) == MaskNumFrom(t[DigitRun(t)..], true) + [c]
    ensures MaskNumFrom(t + [c], false) == MaskNumFrom(t, false) + [c]
  {
    var m := MaskNumFrom(t[DigitRun(t)..], true);
    MaskNumRunStep(t);
    MaskNumRunStep(t + [c]);
    assert "<NUM>" + (m + [c]) == ("<NUM>" + m) + [c];
  }

  /** One step of the number substitution at a standalone digit run. */
  lemma MaskNumRunStep(s: string)
    requires Standalone(s)
    ensures MaskNumFrom(s, false) == "<NUM>" + MaskNumFrom(s[DigitRun(s)..], true)
  {
  }

  /** One step of the number substitution where no match starts. */
  lemma MaskNumCopyStep(s: string, w: bool)
    requires |s| > 0 && (w || !Standalone(s))
    ensures MaskNumFrom(s, w) == [s[0]] + MaskNumFrom(s[1..], IsWordChar(s[0]))
  {
  }


  lemma MaskNumAppendCopy(t: string, c: char, w: bool)
    requires |t| > 0 && !(!w && Standalone(t)) && Standalone(t + [c]) == Standalone(t)
    requires (t + [c])[1..] == t[1..] + [c]
    requires MaskNumFrom(t[1..] + [c], IsWordChar(t[0])) == MaskNumFrom(t[1..], IsWordChar(t[0])) + [c]
    ensures MaskNumFrom(t + [c], w) == MaskNumFrom(t, w) + [c]
  {
    var m := MaskNumFrom(t[1..], IsWordChar(t[0]));
    MaskNumCopyStep(t, w);
    MaskNumCopyStep(t + [c], w);
    assert (t + [c])[0] == t[0];
    assert [t[0]] + (m + [c]) == ([t[0]] + m) + [c];
  }



  lemma {:induction false} MaskNumLast(t: string, w: bool)
    requires |t| > 0
    ensures |MaskNumFrom(t, w)| > 0
    ensures IsSpace(MaskNumFrom(t, w)[|MaskNumFrom(t, w)| - 1]) == IsSpace(t[|t| - 1])
    decreases |t|
  {
    var n := DigitRun(t);
    var last := t[|t| - 1];
    if !w && Standalone(t) {
      MaskNumRunStep(t);
      var r := MaskNumFrom(t[n..], true);
      var out := "<NUM>" + r;
      if n < |t| {
        MaskNumLast(t[n..], true);
        assert t[n..][|t[n..]| - 1] == last;
        assert out[|out| - 1] == r[|r| - 1];
      } else {
        assert IsDigit(last) && !IsSpace(last);
        assert r == "";
        assert out[|out| - 1] == '>';
      }
    } else {
      MaskNumCopyStep(t, w);
      var r := MaskNumFrom(t[1..], IsWordChar(t[0]));
      var out := [t[0]] + r;
      if |t| > 1 {
        MaskNumLast(t[1..], IsWordChar(t[0]));
        assert t[1..][|t[1..]| - 1] == last;
        assert out[|out| - 1] == r[|r| - 1];
      } else {
        assert r == "";
      }
    }
  }


  lemma {:induction false} MaskNumTrimEnd(t: string, w: bool)
    ensures MaskNumFrom(TrimEnd(t), w) == TrimEnd(MaskNumFrom(t, w))
    decreases |t|
  {
    if |t| > 0 && IsSpace(t[|t| - 1]) {
      var u := t[..|t| - 1];
      assert t == u + [t[|t| - 1]];
      MaskNumAppend(u, t[|t| - 1], w);
      var m := MaskNumFrom(u, w);
      assert (m + [t[|t| - 1]])[..|m|] == m;
      MaskNumTrimEnd(u, w);
    } else if |t| > 0 {
      MaskNumLast(t, w);
    }
  }

  /** Number masking commutes with the whole whitespace step. */
  lemma MaskNumCollapse(s: string)
    ensures MaskNum(Collapse(s)) == Collapse(MaskNum(s))
  {
    var q := SquashFrom(s, false);
    MaskNumTrimEnd(TrimStart(q), false);
    MaskNumTrimStart(q);
    MaskNumSquash(s, false, false);
  }

  // ---------------------------------------------------------------------
  // normalize_error
  // ---------------------------------------------------------------------

  /** The gate: one of the trigger words is a plain substring of the lower-cased line. */
  predicate Triggered(line: string)
  {
    var low := Lower(line);
    Contains(low, "error") || Contains(low, "failed") || Contains(low, "exception") || Contains(low, "warning")
  }

  /** The three rewriting steps, in the order the source applies them. */
  function Rewrite(line: string): string
  {
    Collapse(MaskNum(MaskHex(line)))
  }

  lemma TriggerWordVisible(line: string, word: string)
    requires |word| > 0 && !IsSpace(word[0])
    requires Contains(Lower(line), word)
    ensures HasNonSpace(line)
  {
    ContainsIffOccurs(Lower(line), word);
    var i :| OccursAt(Lower(line), word, i);
    assert Lower(line)[i] == word[0];
  }

  lemma TriggeredVisible(line: string)
    requires Triggered(line)
    ensures HasNonSpace(line)
  {
    var low := Lower(line);
    if Contains(low, "error") {
      TriggerWordVisible(line, "error");
    } else if Contains(low, "failed") {
      TriggerWordVisible(line, "failed");
    } else if Contains(low, "exception") {
      TriggerWordVisible(line, "exception");
    } else {
      TriggerWordVisible(line, "warning");
    }
  }

  /** Re-applying the three steps to a rewritten line changes nothing, step by step. */
  lemma RewriteStable(line: string)
    ensures var r := Rewrite(line);
      MaskHex(r) == r && MaskNum(r) == r && Collapse(r) == r
  {
    var h := MaskHex(line);
    var m := MaskNum(h);
    var r := Collapse(m);
    MaskHexLeavesNoHex(line);
    MaskNumKeepsHexFree(h, false);
    SquashKeepsHexFree(m, false);
    StripKeepsHexFree(SquashFrom(m, false));
    HexFreeUnchanged(r);
    MaskNumCollapse(m);
    MaskNumIdempotent(h, false);
    CollapseIdempotent(m);
  }

  lemma RewriteIdempotent(line: string)
    ensures Rewrite(Rewrite(line)) == Rewrite(line)
  {
    RewriteStable(line);
  }

  /**
   * `normalize_error(line)`: no key unless a trigger word occurs; otherwise the
   * rewritten line, which is non-empty, single-spaced, trimmed, and unchanged
   * by any of the three steps.
   */
  function NormalizeError(line: string): (r: Option<string>)
    ensures r.None? <==> !Triggered(line)
    ensures r.Some? ==> |r.value| > 0 && Collapsed(r.value)
    ensures r.Some? ==> MaskHex(r.value) == r.value && MaskNum(r.value) == r.value && Collapse(r.value) == r.value
  {
    if !Triggered(line) then None
    else
      TriggeredVisible(line);
      MaskHexKeepsNonSpace(line);
      MaskNumKeepsNonSpace(MaskHex(line), false);
      CollapseNonEmpty(MaskNum(MaskHex(line)));
      CollapseShape(MaskNum(MaskHex(line)));
      RewriteStable(line);
      Some(Rewrite(line))
  }

  /** Normalising a key again gives the same key, as long as the key still passes the gate. */
  lemma NormalizeIdempotent(line: string)
    requires NormalizeError(line).Some?
    requires Triggered(NormalizeError(line).value)
    ensures NormalizeError(NormalizeError(line).value) == NormalizeError(line)
  {
    RewriteIdempotent(line);
  }
}
