# log-analyzer, modelled in Dafny

This project models the core of the log-analyzer repository. The repository holds two small tools.

The single-file tool, `log_analyzer.py`:

- reads a log line by line;
- keeps the lines that pass a case-insensitive keyword, severity and regular-expression filter;
- counts how many lines it read and how many it kept;
- reduces every kept line that mentions an error to an *error key*, and counts the keys in a `Counter`. The key is the line with hexadecimal literals replaced by `<HEX>`, standalone numbers by `<NUM>`, and whitespace collapsed;
- ranks the keys with `most_common` for its summary.

The package, `src/log_analyzer`:

- tests every line against three tagged default patterns: ERROR, WARNING and AUTH_FAIL. Each is a case-insensitive whole-word search;
- records a `Match` (line number, tag, line) for every hit;
- counts the matches per tag.

The model has one module per concern:

| file | module | models |
|---|---|---|
| `Wrappers.dfy` | `Wrappers` | `Option`, for Python's `None` |
| `Ascii.dfy` | `Ascii` | `\w`, `\d`, `\s`, `str.lower` and the substring test `in`, over ASCII |
| `Normalize.dfy` | `Normalize` | `normalize_error`, as its three regular-expression rewrites and the trigger-word gate |
| `NormalizeExamples.dfy` | `NormalizeExamples` | concrete lines through `normalize_error` |
| `Counter.dfy` | `Counter` | `collections.Counter` and the counting `dict`, as an insertion-ordered list of (key, count) entries, and `most_common` |
| `LogAnalyzer.dfy` | `LogAnalyzer` | `match_line`, the counting pass of `analyze_logs`, and the ranking printed by `print_summary` |
| `Patterns.dfy` | `Patterns` | `DEFAULT_PATTERNS` |
| `PatternsExamples.dfy` | `PatternsExamples` | concrete lines through the default patterns |
| `Analyzer.dfy` | `Analyzer` | `Match`, `analyze_lines` (two nested loops) and `summary` (a counting loop) |

Pure code is written as functions and lemmas. The two loops of `analyze_lines`, the loop of `summary` and the streaming loop of `analyze_logs` are methods with `while` loops. Each method is proved equal to a fold over its input, and the lemmas state the properties of that fold.

Points where the code behaves differently from what one might expect (the model follows the code):

- `normalize_error` keeps the case of the line. Only the trigger-word test is case-insensitive.
- `most_common` breaks ties between equal counts by insertion order, the order in which keys were first counted. It does not sort ties alphabetically.
- Line numbers in `analyze_lines` results never decrease, but repeat when several patterns find the same line.
- `normalize_error` is not idempotent in general. `"0xerror"` becomes `"<HEX>rror"`, which no longer contains a trigger word, so normalising the key again gives no key (`NormalizeExamples.NotIdempotent`). Re-normalising a key that still passes the gate returns the key unchanged (`Normalize.NormalizeIdempotent`).

## Model

| member | source | states |
|---|---|---|
| `Ascii.IsDigit` | log_analyzer.py:112 | `\d`: the ten ASCII digits |
| `Ascii.IsWordChar` | src/log_analyzer/patterns.py:4-6 | `\w`, which decides where `\b` holds (also in log_analyzer.py:112): ASCII letters, digits and the underscore |
| `Ascii.IsSpace` | log_analyzer.py:115 | `\s` and the whitespace `strip()` removes: tab, line feed, vertical tab, form feed, carriage return, 0x1C-0x1F and the space |
| `Ascii.ToLower` | log_analyzer.py:107 | lower-casing one character keeps word characters word characters and spaces spaces; it leaves no upper-case letter, changes only upper-case letters, and turns each upper-case letter into the same letter in lower case |
| `Ascii.Lower` | log_analyzer.py:47-50 | `str.lower()`, character by character; `LowerIdempotent` states that lower-casing twice is the same as once |
| `Ascii.Contains` | log_analyzer.py:47-50 | the substring test `sub in s`, searching suffix after suffix; `ContainsIffOccurs` ties it to an occurrence at some index |
| `Ascii.ContainsIffOccurs` | log_analyzer.py:47 | the substring test `sub in s` holds exactly when `sub` occurs in `s` at some index |
| `Normalize.Triggered` | log_analyzer.py:107 | the gate: one of `error`, `failed`, `exception`, `warning` is a plain substring of the lower-cased line; `NormalizeError` returns a key exactly when it holds |
| `Normalize.HexRun` | log_analyzer.py:111 | the greedy `[0-9a-fA-F]+` run: every character in it is a hex digit, and it stops at the end or at a non-hex digit |
| `Normalize.MaskHex` | log_analyzer.py:111 | `re.sub(r"0x[0-9a-fA-F]+", "<HEX>", line)`, leftmost match first, each hex run taken whole; its properties are `MaskHexLeavesNoHex`, `HexFreeUnchanged` and `MaskHexIdempotent` |
| `Normalize.MaskHexLeavesNoHex` | log_analyzer.py:111 | after the `0x[0-9a-fA-F]+` substitution no `0x` followed by a hex digit remains |
| `Normalize.HexFreeUnchanged` | log_analyzer.py:111 | the hex substitution leaves a line without hex literals unchanged |
| `Normalize.MaskHexIdempotent` | log_analyzer.py:111 | applying the hex substitution twice is the same as once |
| `Normalize.DigitRun` | log_analyzer.py:112 | the greedy `\d+` run: digits up to the end or the first non-digit |
| `Normalize.MaskNumFrom` | log_analyzer.py:112 | `re.sub(r"\b\d+\b", "<NUM>", ...)` from a position, given whether the character before it is a word character: a digit run is replaced only with a boundary on both sides; its properties are `MaskNumPlaceholder`, `GluedStaysGlued` and `MaskNumIdempotent` |
| `Normalize.MaskNum` | log_analyzer.py:112 | the number substitution on a whole line, whose start is a boundary |
| `Normalize.MaskNumPlaceholder` | log_analyzer.py:112 | the `<NUM>` placeholder passes through the `\b\d+\b` substitution unchanged, and the character after its `>` starts at a word boundary |
| `Normalize.NumberPayloadIrrelevant` | log_analyzer.py:104-112 | two digit runs standing alone (followed by a non-word character or the end) become the same `<NUM>`, whatever their digits and lengths: the key forgets the numbers that vary between occurrences |
| `Normalize.GluedStaysGlued` | log_analyzer.py:112 | a digit run glued to a word character stays glued after the substitution, so it is still not replaced |
| `Normalize.MaskNumIdempotent` | log_analyzer.py:112 | applying the `\b\d+\b` substitution twice is the same as once |
| `Normalize.MaskNumKeepsHexFree` | log_analyzer.py:111-112 | the number substitution creates no hex literal |
| `Normalize.SquashFrom` | log_analyzer.py:115 | `re.sub(r"\s+", " ", ...)`: every maximal whitespace run becomes one space; its shape is stated by `SquashShape` |
| `Normalize.TrimStart` | log_analyzer.py:115 | `lstrip`: the result is a suffix, starts with a non-space, and only spaces were removed |
| `Normalize.TrimEnd` | log_analyzer.py:115 | `rstrip`: the result is a prefix, ends with a non-space, and only spaces were removed |
| `Normalize.Strip` | log_analyzer.py:115 | `strip()`, as `rstrip` after `lstrip`; its properties are those of `TrimStart` and `TrimEnd` |
| `Normalize.Collapse` | log_analyzer.py:115 | the whole whitespace step, squashing then stripping; its properties are `CollapseShape`, `CollapsedUnchanged`, `CollapseIdempotent` and `CollapseNonEmpty` |
| `Normalize.SquashShape` | log_analyzer.py:115 | after `re.sub(r"\s+", " ", ...)` every whitespace character is a single space with no whitespace next to it |
| `Normalize.CollapseShape` | log_analyzer.py:115 | after collapsing and `strip()` the line is single-spaced with no space at either end |
| `Normalize.CollapsedUnchanged` | log_analyzer.py:115 | collapsing leaves an already collapsed line unchanged |
| `Normalize.CollapseIdempotent` | log_analyzer.py:115 | collapsing twice is the same as once |
| `Normalize.CollapseNonEmpty` | log_analyzer.py:115 | collapsing a line with a visible character gives a non-empty line |
| `Normalize.MaskHexKeepsNonSpace` | log_analyzer.py:111 | the hex substitution keeps a visible character |
| `Normalize.MaskNumKeepsNonSpace` | log_analyzer.py:112 | the number substitution keeps a visible character |
| `Normalize.SquashKeepsHexFree` | log_analyzer.py:111-115 | collapsing whitespace creates no hex literal |
| `Normalize.MaskNumSquash` | log_analyzer.py:112-115 | the number substitution commutes with squashing whitespace runs |
| `Normalize.MaskNumTrimStart` | log_analyzer.py:112-115 | the number substitution commutes with `lstrip` |
| `Normalize.MaskNumTrimEnd` | log_analyzer.py:112-115 | the number substitution commutes with `rstrip` |
| `Normalize.MaskNumCollapse` | log_analyzer.py:112-115 | the number substitution commutes with the whole whitespace step |
| `Normalize.TriggeredVisible` | log_analyzer.py:107-108 | a line that passes the trigger-word gate has a visible character |
| `Normalize.Rewrite` | log_analyzer.py:110-115 | the three rewrites in the order the source applies them: hex, then numbers, then whitespace; its properties are `RewriteStable` and `RewriteIdempotent` |
| `Normalize.RewriteStable` | log_analyzer.py:110-117 | each of the three rewrites leaves a normalised key unchanged |
| `Normalize.RewriteIdempotent` | log_analyzer.py:110-117 | rewriting a rewritten line changes nothing |
| `Normalize.NormalizeError` | log_analyzer.py:101-117 | no key exactly when no trigger word occurs in the lower-cased line; otherwise a non-empty, single-spaced, trimmed key that each rewrite leaves unchanged |
| `Normalize.NormalizeIdempotent` | log_analyzer.py:101-117 | normalising a key that still passes the gate gives the same key |
| `NormalizeExamples.HexNeedsLowerX` | log_analyzer.py:111 | `0x1F` is masked but `0X1F` is not: the pattern is case-sensitive |
| `NormalizeExamples.NumNeedsBoundaries` | log_analyzer.py:112 | `42` becomes `<NUM>`; the digits of `v2` and `id_7` touch a word character and stay |
| `NormalizeExamples.MaskingExample` | log_analyzer.py:107-117 | `"Error 0x1F at line 42"` normalises to `"Error <HEX> at line <NUM>"`: the capital `E` is kept, the hex literal and the standalone number are masked |
| `NormalizeExamples.CleanLineKept` | log_analyzer.py:101-117 | a line that passes the gate and that none of the three rewrites changes (no hex literal, nothing for the number substitution, already collapsed) is its own key, in its original case |
| `NormalizeExamples.DiskKeyForgetsCode` | log_analyzer.py:101-117 | every line `ERROR disk failed ` followed by a number, whatever its digits, gets the one key `ERROR disk failed <NUM>`, so such lines are counted as one recurring error |
| `NormalizeExamples.KeyOfDiskLine` | log_analyzer.py:101-117 | `ERROR disk failed 404` and `ERROR disk failed 500` both normalise to `ERROR disk failed <NUM>` |
| `NormalizeExamples.HexErrorKeyUntriggered` | log_analyzer.py:107-111 | the key `<HEX>rror` contains no trigger word |
| `NormalizeExamples.NotIdempotent` | log_analyzer.py:101-117 | `"0xerror"` normalises to `"<HEX>rror"`, which normalises to no key |
| `Counter.Get` | log_analyzer.py:87 | `counter[k]` (and `out.get(tag, 0)` at src/log_analyzer/analyzer.py:23): the count of `k`, 0 for a key never counted; `IncrementGet` and `TallyCounts` state its values |
| `Counter.FirstIndex` | log_analyzer.py:87 | the first position of a key: the key is there and nowhere before it |
| `Counter.Increment` | log_analyzer.py:87 | `counter[k] += 1` on a counter kept in insertion order: a known key counts one more in place, a new key is appended with count 1; its properties are `IncrementGet`, `IncrementTotal` and `IncrementKeys` |
| `Counter.IncrementGet` | log_analyzer.py:87 | `counter[k] += 1` raises the count of `k` by one and no other count |
| `Counter.IncrementTotal` | log_analyzer.py:87 | an increment raises the sum of counts by one |
| `Counter.IncrementKeys` | log_analyzer.py:87 | an increment keeps the key order, appending a new key at the end |
| `Counter.Tally` | log_analyzer.py:73-87 | the counter after incrementing each key in turn, starting from `Counter()`; its properties are `TallyKeys`, `TallyCounts`, `TallyTotal` and `TallyOrder` |
| `Counter.TallySnoc` | log_analyzer.py:77-87 | counting one more key is one more increment |
| `Counter.TallyKeys` | log_analyzer.py:87 | after counting a sequence of keys, each key has one entry, and exactly the keys of the sequence have one |
| `Counter.TallyCounts` | log_analyzer.py:87 | each count is the number of occurrences of its key, at least one; unseen keys count zero |
| `Counter.TallyTotal` | log_analyzer.py:87 | the counts add up to the number of keys counted |
| `Counter.TallyOrder` | log_analyzer.py:87 | entries are in the order of each key's first occurrence |
| `Counter.SortByCount` | log_analyzer.py:129 | the ranking, a stable sort by non-increasing count; its properties are `InsertPerm`, `InsertSorted`, `InsertWithCount` and `SortFacts` |
| `Counter.InsertPerm` | log_analyzer.py:129 | inserting an entry into the ranking loses and adds nothing |
| `Counter.InsertSorted` | log_analyzer.py:129 | inserting an entry keeps the ranking in non-increasing count order |
| `Counter.InsertWithCount` | log_analyzer.py:129 | an inserted entry goes before the entries with the same count |
| `Counter.SortFacts` | log_analyzer.py:129 | the ranking is a permutation of the counter, by non-increasing count, stable among equal counts |
| `Counter.MostCommon` | log_analyzer.py:129 | `most_common(n)`: `min(n, size)` entries (none for `n <= 0`), drawn from the counter, by non-increasing count; no entry left out outranks one taken; ties keep insertion order; all entries when `n` covers the counter |
| `LogAnalyzer.Present` | log_analyzer.py:47-50 | the truthiness tests `if keyword` and `if severity`: the filter is given and not the empty string |
| `LogAnalyzer.MatchLine` | log_analyzer.py:39-56 | a line passes exactly when the keyword occurs in it ignoring case (if given and non-empty), so does the severity, and the pattern finds it (if given) |
| `LogAnalyzer.KeywordIgnoresCase` | log_analyzer.py:47-48 | keywords that differ only in case select the same lines |
| `LogAnalyzer.KeywordSeveritySymmetric` | log_analyzer.py:47-51 | exchanging keyword and severity selects the same lines |
| `LogAnalyzer.PassStep` | log_analyzer.py:77-87 | one more line adds one to the matched count when it passes the filter, and counts its key when it also has one |
| `LogAnalyzer.Accepted` | log_analyzer.py:77-82 | the lines that pass `match_line`, in order; its properties are `AcceptedFacts` |
| `LogAnalyzer.ErrorKeys` | log_analyzer.py:84-87 | the non-empty keys `normalize_error` gives those lines, in order (`if normalized:`); its properties are `ErrorKeysFacts` |
| `LogAnalyzer.AnalyzeLogs` | log_analyzer.py:71-87 | the `Report` of the pass: the total is the number of lines, the matched count the number of lines that pass the filter, and the counter is the count of the error keys of those lines, in order |
| `LogAnalyzer.AcceptedFacts` | log_analyzer.py:77-81 | the matched lines are exactly the input lines that pass the filter, no more of them than lines |
| `LogAnalyzer.ErrorKeysFacts` | log_analyzer.py:85-87 | every counted key is the normalisation of some line, at most one key per line |
| `LogAnalyzer.ReportCounts` | log_analyzer.py:71-87 | matched ≤ total; counted errors ≤ matched; one entry per key; each count equals the number of matched lines with that key |
| `LogAnalyzer.ReportKeys` | log_analyzer.py:71-87 | every key in the counter was counted at least once and is the non-empty, collapsed key of a line that passed the filter |
| `LogAnalyzer.TopIssues` | log_analyzer.py:120-130 | nothing to rank exactly when the counter is empty; otherwise at most `top_n` entries of the counter by non-increasing count, none outranked by an entry left out |
| `Patterns.BoundaryAt` | src/log_analyzer/patterns.py:4-6 | `\b`: exactly one of the characters on either side of the position is a word character, the ends of the line counting as non-word |
| `Patterns.WordAt` | src/log_analyzer/patterns.py:4-6 | `\bw\b` matches at a position, ignoring case; `FindWord` and `SearchAny` search for it, `WordAtLower` states that case does not matter |
| `Patterns.FindWord` | src/log_analyzer/patterns.py:4-6 | the search for `\bw\b` from a position on succeeds exactly when `w` occurs there or later, ignoring case, with word boundaries on both sides |
| `Patterns.SearchAny` | src/log_analyzer/patterns.py:4-6 | the search for an alternation of words succeeds exactly when one of the words occurs as a whole word |
| `Patterns.ErrorRule` | src/log_analyzer/patterns.py:4 | the ERROR search: one of `error`, `failed`, `failure`, `critical`, `panic` as a whole word |
| `Patterns.WarningRule` | src/log_analyzer/patterns.py:5 | the WARNING search: one of `warn`, `warning`, `deprecated`, `retry` as a whole word |
| `Patterns.AuthFailRule` | src/log_analyzer/patterns.py:6 | the AUTH_FAIL search: one of `failed password`, `authentication failure`, `invalid user` as a whole phrase |
| `Patterns.DefaultPatternTags` | src/log_analyzer/patterns.py:3-7 | `DEFAULT_PATTERNS` has three patterns, tagged ERROR, WARNING and AUTH_FAIL in the order of the dictionary, with distinct tags |
| `Patterns.WordAtLower` | src/log_analyzer/patterns.py:4-6 | a whole-word match depends only on the lower-cased line |
| `Patterns.RulesIgnoreCase` | src/log_analyzer/patterns.py:4-6 | lines that differ only in case get the same tags |
| `Patterns.LeadingWord` | src/log_analyzer/patterns.py:6 | a whole phrase starting with a word and a space contains that word as a whole word |
| `Patterns.TrailingWord` | src/log_analyzer/patterns.py:6 | a whole phrase ending with a space and a word contains that word as a whole word |
| `Patterns.AuthFailTagsError` | src/log_analyzer/patterns.py:4-6 | a line holding "failed password" or "authentication failure" as a whole phrase is an ERROR line; an AUTH_FAIL line is an ERROR line or holds "invalid user" as a whole phrase |
| `Patterns.HeadDiffers` | src/log_analyzer/patterns.py:4-6 | no whole-word match starts where the line's letter differs from the word's first letter |
| `PatternsExamples.UpperCaseFires` | src/log_analyzer/patterns.py:4 | "Disk FAILURE on sda" is an ERROR line |
| `PatternsExamples.PluralIsNotError` | src/log_analyzer/patterns.py:4 | "errors" is not an ERROR line |
| `PatternsExamples.PluralIsNotWarning` | src/log_analyzer/patterns.py:5 | "warnings" is not a WARNING line |
| `PatternsExamples.InvalidUserIsNotError` | src/log_analyzer/patterns.py:4-6 | "Invalid user admin" is an AUTH_FAIL line but not an ERROR line |
| `Analyzer.RStripNewlines` | src/log_analyzer/analyzer.py:17 | `rstrip("\n")`: a prefix of the line not ending in a line feed, with only line feeds removed |
| `Analyzer.LineMatches` | src/log_analyzer/analyzer.py:15-17 | the matches of one line, in pattern order; its properties are `LineMatchesIff`, `LineMatchesCount` and `LineTagsDistinct` |
| `Analyzer.AllMatches` | src/log_analyzer/analyzer.py:14-17 | the matches of all lines, line after line; its properties are `AllMatchesIff`, `AllMatchesCount`, `AllMatchesBound` and `AllMatchesOrdered` |
| `Analyzer.AnalyzeLines` | src/log_analyzer/analyzer.py:6-18 | the `Match` records (line number, tag, stripped line): the matches are those of each line in turn, numbered from 1, each line's in pattern order |
| `Analyzer.LineMatchesIff` | src/log_analyzer/analyzer.py:15-17 | a line's matches are exactly one per pattern that finds it, with that pattern's tag |
| `Analyzer.AllMatchesIff` | src/log_analyzer/analyzer.py:12-18 | a match is in the result exactly when some pattern finds some line; it carries the line's number, the tag and the stripped line |
| `Analyzer.LineMatchesLength` | src/log_analyzer/analyzer.py:15-17 | one line yields at most one match per pattern |
| `Analyzer.AllMatchesBound` | src/log_analyzer/analyzer.py:12-18 | at most one match per line and pattern |
| `Analyzer.LineMatchesCount` | src/log_analyzer/analyzer.py:15-17 | a line yields exactly as many matches as there are patterns whose search finds it |
| `Analyzer.AllMatchesCount` | src/log_analyzer/analyzer.py:14-17 | the number of matches is the sum, over the lines, of the number of patterns that find each line |
| `Analyzer.LineTagsDistinct` | src/log_analyzer/analyzer.py:15-17 | when the patterns have distinct tags, the matches of one line carry distinct tags |
| `Analyzer.DefaultTagsOncePerLine` | src/log_analyzer/analyzer.py:12-17 | with the default patterns no tag is reported twice for the same line |
| `Analyzer.AllMatchesOrdered` | src/log_analyzer/analyzer.py:14 | line numbers lie between 1 and the number of lines and never decrease |
| `Analyzer.DefaultTags` | src/log_analyzer/patterns.py:3-7 | with the default patterns every tag is ERROR, WARNING or AUTH_FAIL |
| `Analyzer.AuthFailReportedAsError` | src/log_analyzer/analyzer.py:15-17 | a line holding "failed password" or "authentication failure" as a whole phrase, in any case, is reported under both AUTH_FAIL and ERROR, even when it also holds "invalid user" |
| `Analyzer.Summary` | src/log_analyzer/analyzer.py:20-24 | `summary`: one entry per tag that occurs, in order of first appearance, each count the number of matches with that tag, counts summing to the number of matches |

## Left out

- Reading files (`read_log_lines`, `Path.open`, `errors="ignore"` decoding) is not modelled. `AnalyzeLogs` and `AnalyzeLines` take the lines as a sequence of strings. `AnalyzeLogs` takes the lines with their line feed already removed, as `read_log_lines` yields them.
- Printing is not modelled. This covers the matched lines, the totals, the summary lines of both tools and the "No recurring errors detected." message. `TopIssues` returns the ranked entries, or `None` for that message.
- The command-line front ends are not modelled: `build_arg_parser`, `main` and `src/log_analyzer/cli.py`. This includes the CLI's alphabetical tie-break when printing `summary`.
- `LogAnalyzer.MatchLine`: the user's regular expression (compiled with `re.IGNORECASE`) is an abstract `string -> bool` search. Python's regex engine is not modelled.
- Unicode is not modelled. `\w`, `\d`, `\s`, `str.lower`, `str.strip` and `re.IGNORECASE` are modelled over ASCII. Unicode letters, digits and spaces, and case pairs such as the Kelvin sign, are not.
- `Counter.MostCommon` models the result of `heapq.nlargest` as the stable descending sort cut to `n`. It does not model the heap.
- `Patterns`: the default patterns are modelled as explicit whole-word searches rather than compiled regular expressions.
- `Analyzer.AnalyzeLines`: `patterns` is an ordered sequence of (tag, `string -> bool`) pairs. In the source it is a dictionary of compiled regular expressions, iterated in insertion order. Only `DEFAULT_PATTERNS` is modelled concretely, as `Patterns.DefaultPatterns`; other regular expressions are abstract searches.
