# SPDX header checker: a verified model

This project models the rule engine of `scripts/check_spdx_headers.py`. The script is
a CI check. For every file that changed since a base revision (or every tracked file),
it looks for an SPDX copyright line and the license line below it, checks their format
and comment prefixes. For files added (`A`), modified (`M`) or copied (`C`) it also
checks that the year field follows the date rules; a renamed file gets none:
- a new file carries only the current year;
- a modified or copied file carries `creation-current` when it was created in an
  earlier year, and the current year alone when its known creation year is not earlier;
- when its creation year is unknown (none, or `0`), it carries the current year alone
  or any range `start-current` with `start` before the current year.
It reports violations and exits with 0 (clean), 1 (violations) or 2 (unknown base
revision).

The modules follow the script's structure:

- `Wrappers`: the `Option` type.
- `Text`: the Python string operations the script relies on, as functions on
  `seq<char>`:
  - `str.isspace`;
  - `strip` with and without a character set;
  - `split` on one character, with `join` as its inverse.
- `Years`: the year field (`\d{4}(-\d{4})?`), `parse_years`, and the formatting that
  reverses it.
- `Patterns`: `HEADER_REGEX` and `LICENSE_REGEX` written as explicit matchers.
  - Each matcher returns the whole decomposition of the line: prefix, whitespace runs,
    captured fields, and what `$` leaves.
  - Each is proved sound: the pieces render back to the line.
  - Each is proved complete: every well-formed line is matched. The license matcher
    gives back exactly the pieces the line was built from. The header matcher gives
    back the same prefix and year field, and exactly the same pieces when the holder
    does not start with whitespace; otherwise the greedy `\s+` takes the holder's
    leading whitespace.
  - Regular-expression semantics, stated in the module:
    - `re.match` is anchored at the start;
    - `\s` is `str.isspace`;
    - `\d` is an ASCII digit;
    - `.` is any character but `\n`;
    - `$` matches at the end of the text or before a final `\n`;
    - greedy backtracking of `\s+(?P<holder>.+)$` is a descending search.
- `Extract`: `extract_header_lines`.
  - It scans the first ten `readline` results, stops at end of file, skips blank lines,
    and stops at the first license line after the copyright line.
  - It is a method with a loop, proved equal to a specification function (`HeaderScan`).
- `Rules`: the violation kinds (one constructor per message, carrying the years the
  message quotes), the caller-owned violation list (a class that only grows), and the
  two validators.
  - The validators are methods that append to the list.
  - Each is proved to append exactly what a specification function says.
  - That function's meaning (when it is empty, which violation appears when) is proved
    beside it.
- `GitOutput`: `list_changed_files` and `list_all_files` on the lines git prints.
- `Pipeline`: the body of `main`.
  - Scope filters, format checks on the stripped lines, and dispatch on the change status.
  - The checked/skipped/passed counters and the exit code.
  - The file system, git, `fnmatch` and the clock are parameters gathered in `Env`.
- `Scenarios`: the cases of `tests/test_check_spdx_headers.py`, stated on the model.

Behaviour of the code that the model follows and states:

- A rename (status `R…`) is recorded as `R` and then gets the format checks only.
  Only `A`, `M` and `C` reach a date validator (`Pipeline.OtherStatusFormatOnly`).
- A creation year of `0` counts as unknown, because the code tests the creation year
  by truthiness (`Rules.Known`).
- The header line is matched again after `strip()`, so its holder can never be blank.
  The "missing copyright holder" branch of `main` cannot be taken
  (`Pipeline.StrippedHeaderHasHolder`, `Pipeline.FormatChecks`).
- A license line returned by the extractor still matches after `strip()`, so "license
  identifier line format is invalid" is never raised for it. The prefix-mismatch
  violation is raised exactly when both lines match and their prefixes differ
  (`Pipeline.ScannedLinesFormat`).
- "SPDX header format is invalid" can still be raised. The extractor matches the line
  with only the BOM and line ends removed, while `main` matches it after `strip()`. A
  holder made only of whitespace passes the first match and fails the second.
- Take a license line given directly to the format checks that is present but does not
  match. The license-format violation is raised. When the header also matched with a
  holder, so that its prefix is set, the prefix-mismatch violation is raised as well,
  because `license_ok` stays false (`Pipeline.JudgeMeaning`).
- A proposed header is built with `str()` of the years. A year below 1000 is written
  with fewer than four digits, so such a proposal is not a valid year field
  (`Years.ShortYearNotField`).
- The extractor does not remove leading whitespace before matching. An indented
  header line is not found.
- No holder filter exists.

## Model

| member | source | states |
|---|---|---|
| Text.StripBy | scripts/check_spdx_headers.py:112 | `strip(chars)`: the result is empty iff every character is stripped; otherwise it starts and ends with a kept character; when the first character is kept, the result is a prefix and everything after it is stripped |
| Text.Split | scripts/check_spdx_headers.py:72 | `split("\t")`: at least one part, no part holds the separator, and joining the parts gives the line back |
| Text.SplitJoin | scripts/check_spdx_headers.py:72 | splitting a join of separator-free parts gives exactly those parts |
| Text.StripBySlice | scripts/check_spdx_headers.py:112 | what `strip(chars)` keeps is one stretch of the line, and everything before and after it is stripped |
| Text.BlankIffAllSpace | scripts/check_spdx_headers.py:113 | `not line.strip()` holds iff every character is whitespace |
| Years.ParseYears | scripts/check_spdx_headers.py:148-154 | a field with a hyphen gives start and end years, one without gives a single year; both years are four-digit values |
| Years.FormatParse | scripts/check_spdx_headers.py:148-154 | formatting the parsed pair as `start` or `start-end` reconstructs the field |
| Years.ParseFormat | scripts/check_spdx_headers.py:148-154 | parsing a formatted pair gives the pair back |
| Years.Pad4Value | scripts/check_spdx_headers.py:153 | `int` of a year written with four digits is the year |
| Years.ValuePad4 | scripts/check_spdx_headers.py:153 | four digits are recovered from their value |
| Years.DecimalText | scripts/check_spdx_headers.py:173 | `str()` of an integer: a non-empty text that starts with a digit exactly when the integer is not negative |
| Years.DecimalIsPad4 | scripts/check_spdx_headers.py:173 | `str()` writes a year from 1000 to 9999 with exactly its four digits |
| Years.DecimalShortBelow1000 | scripts/check_spdx_headers.py:173 | `str()` writes a year below 1000 with fewer than four digits |
| Years.YearsTextIsField | scripts/check_spdx_headers.py:235 | a proposed `start` or `start-end` with four-digit years is a year field that parses back to the same years |
| Years.ShortYearNotField | scripts/check_spdx_headers.py:173 | a proposed year field starting with a year below 1000 is not a year field |
| Patterns.YearsLength | scripts/check_spdx_headers.py:27 | the text `\d{4}(?:-\d{4})?` takes at the start of the remaining line is a year token of length 4 or 9 |
| Patterns.TailFrom | scripts/check_spdx_headers.py:27-28 | the backtracking of `\s+(?P<holder>.+)$`: the longest whitespace run after which `.+$` matches, and no longer one |
| Patterns.MatchHeader | scripts/check_spdx_headers.py:25-29 | a match decomposes the line into prefix, whitespace, tag, year token, non-empty whitespace, newline-free holder and line end, which render back to the line |
| Patterns.MatchLicense | scripts/check_spdx_headers.py:30-32 | a match decomposes the line into prefix, whitespace, tag, a newline-free expression starting with a non-space, and line end, which render back to the line |
| Patterns.HeaderRoundTrip | scripts/check_spdx_headers.py:25-29 | every well-formed copyright line is matched with its own prefix and year field, and with exactly its own decomposition when the holder does not start with whitespace |
| Patterns.LicenseRoundTrip | scripts/check_spdx_headers.py:30-32 | every well-formed license line is matched, with exactly its own decomposition |
| Patterns.MatchedLineNotBlank | scripts/check_spdx_headers.py:113-118 | a line either pattern matches is not blank |
| Patterns.LicenseSurvivesStrip | scripts/check_spdx_headers.py:497 | a matched license line still matches after `strip()`, with the same prefix |
| Patterns.StrippedLicenseParts | scripts/check_spdx_headers.py:497 | the stripped license line is a license line with the same front and a shortened expression |
| Patterns.StrippedHolderNotBlank | scripts/check_spdx_headers.py:470-475 | a header matched on a stripped line has a holder that is not all whitespace |
| Extract.Clean | scripts/check_spdx_headers.py:112 | the cleaned line is one stretch of the raw line with only BOM and line-end characters removed around it; it is empty iff the raw line holds only those, and otherwise neither starts nor ends with one |
| Extract.ScanLimit | scripts/check_spdx_headers.py:101-111 | the scan window has at most ten lines, holds no end-of-file marker, and ends at one unless it reached ten lines or the last line |
| Extract.FirstMatching | scripts/check_spdx_headers.py:115-118 | the first index of a range whose line satisfies the test; none when none does |
| Extract.Locate | scripts/check_spdx_headers.py:107-121 | the header index is the first line of the window that passes the header test, and none is returned iff no line does; the license index is the first line after it within the window that passes the license test, and none is returned iff no such line exists |
| Extract.HeaderScan | scripts/check_spdx_headers.py:96-121 | a copyright line within the window is always found; a license line is returned only with a header line; a returned header line matches the copyright pattern and a returned license line the license pattern |
| Extract.ExtractHeaderLines | scripts/check_spdx_headers.py:96-121 | an unreadable file gives nothing; otherwise the loop returns exactly `HeaderScan` of the lines read |
| Extract.ScanLines | scripts/check_spdx_headers.py:107-121 | the loop, with its early exits, finds the first header line of the window and the first license line after it, both cleaned |
| Extract.NotMatchedWhenBlank | scripts/check_spdx_headers.py:113-118 | a blank line matches neither pattern, so skipping it changes nothing |
| Extract.ScanReadsOnlyWindow | scripts/check_spdx_headers.py:101-111 | cutting the lines at the end of the window changes nothing the scan finds |
| GitOutput.ParseDiffRow | scripts/check_spdx_headers.py:69-80 | a blank row gives nothing; a returned path holds no tab; a rename or copy keeps a one-letter status |
| GitOutput.ChangeRowParses | scripts/check_spdx_headers.py:79-80 | `status<TAB>path` gives `(status, path)` |
| GitOutput.RenameRowParses | scripts/check_spdx_headers.py:74-77 | `R…<TAB>source<TAB>dest` gives `(R, dest)` (likewise `C`) |
| GitOutput.RenameRowNeedsDestination | scripts/check_spdx_headers.py:74-78 | a rename or copy row with two columns is dropped |
| GitOutput.OneColumnRowDropped | scripts/check_spdx_headers.py:79-80 | a row without a tab is dropped |
| GitOutput.CollectSound | scripts/check_spdx_headers.py:69-81 | every collected entry is parsed from some line |
| GitOutput.CollectComplete | scripts/check_spdx_headers.py:69-81 | every line that parses contributes its entry |
| GitOutput.ChangedEntries | scripts/check_spdx_headers.py:64-81 | at most one entry per row, no path with a tab, and every entry comes from a row |
| GitOutput.ChangedEntriesComplete | scripts/check_spdx_headers.py:64-81 | every row that parses gives its entry |
| GitOutput.ListChangedFiles | scripts/check_spdx_headers.py:64-81 | the loop returns exactly `ChangedEntries` of the lines |
| GitOutput.TrackedRow | scripts/check_spdx_headers.py:90-92 | a non-blank line gives a path that is not empty and does not start with whitespace |
| GitOutput.TrackedEntries | scripts/check_spdx_headers.py:84-93 | every entry has status `M` and a path that is a stripped line of the output |
| GitOutput.TrackedEntriesComplete | scripts/check_spdx_headers.py:84-93 | every non-blank line gives `(M, stripped line)` |
| GitOutput.ListAllFiles | scripts/check_spdx_headers.py:84-93 | the loop returns exactly `TrackedEntries` of the lines |
| Rules.ViolationList.constructor | scripts/check_spdx_headers.py:430 | the list starts empty |
| Rules.ViolationList.Append | scripts/check_spdx_headers.py:174 | the list grows by exactly the violation appended |
| Rules.LicenseRule | scripts/check_spdx_headers.py:206-213 | a missing-license violation, and nothing else, exactly when `license_ok` is false |
| Rules.NewFileYearRules | scripts/check_spdx_headers.py:171-205 | none iff the field is the current year alone; a range gives exactly the new-file range violation, a wrong single year exactly the new-file year violation; the header each proposes is the current year alone |
| Rules.NewFileRules | scripts/check_spdx_headers.py:157-213 | nothing without a year field; nothing iff the license is fine and the year is right; the year violations come first and then exactly one missing-license violation iff `license_ok` is false; never two year violations |
| Rules.SingleYearRules | scripts/check_spdx_headers.py:232-286 | none iff the single year is compliant; a wrong year on a file created earlier gives the predates violation, on any other file the not-current violation; the current year on a file created earlier gives the earlier-creation violation; the proposed header is `creation-current` for a file created earlier and the current year otherwise, and it is compliant |
| Rules.RangeRules | scripts/check_spdx_headers.py:287-355 | no violation iff the range is compliant; all violations concern the file and are date violations |
| Rules.RangeChecksIndependent | scripts/check_spdx_headers.py:287-355 | each of the four range checks is reported iff its own condition holds, and the count is the number of conditions that hold |
| Rules.RangeStartNotCreationYears | scripts/check_spdx_headers.py:322-338 | with a known creation year, the start-not-creation violation carrying that year and the range's end is reported iff the start differs from it; with an unknown one, no such violation |
| Rules.RangeChecksInOrder | scripts/check_spdx_headers.py:287-355 | the range violations come in the order the checks run (reversed, stale end, start not creation, identical), each at most once |
| Rules.ModifiedYearRules | scripts/check_spdx_headers.py:231-355 | no date violation iff the year field is compliant for a modified file |
| Rules.ModifiedFileRules | scripts/check_spdx_headers.py:216-363 | nothing without a year field; nothing iff the license is fine and the years are compliant; the date violations come first and then exactly one missing-license violation iff `license_ok` is false |
| Rules.ValidateNewFile | scripts/check_spdx_headers.py:157-213 | appends exactly `NewFileRules` to the caller's list |
| Rules.ValidateModifiedFile | scripts/check_spdx_headers.py:216-363 | appends exactly `ModifiedFileRules` to the caller's list |
| Rules.CheckSingleYear | scripts/check_spdx_headers.py:232-286 | appends exactly `SingleYearRules` |
| Rules.CheckRange | scripts/check_spdx_headers.py:287-355 | the four independent checks append exactly `RangeRules` |
| Pipeline.AnyMatches | scripts/check_spdx_headers.py:438 | true iff some pattern matches the path |
| Pipeline.PathInScope | scripts/check_spdx_headers.py:436-452 | true iff the path passes the include filter and the exclude filter and is not a directory |
| Pipeline.Upper | scripts/check_spdx_headers.py:521 | `upper()` on ASCII: same length, no lower-case letter left, every lower-case letter raised by 32 and every other character unchanged |
| Pipeline.LicenseSeenOf | scripts/check_spdx_headers.py:496-510 | absent iff no license line or an empty one; matched iff present and the stripped line matches the license pattern, with that match's comment prefix |
| Pipeline.Judge | scripts/check_spdx_headers.py:468-494 | the year field is passed on iff the header matched, and it is the match's year field |
| Pipeline.JudgeMeaning | scripts/check_spdx_headers.py:469-519 | each format violation iff its condition, and the number of violations is the number of conditions that hold; `license_ok` iff the license matched and the prefixes agree or the header prefix is unset; no format violation iff the header matched with a holder and the license is absent or fine |
| Pipeline.JudgeInOrder | scripts/check_spdx_headers.py:469-519 | the format violations come in the order `main` checks them (header, license format, prefix agreement), each at most once |
| Pipeline.StrippedHeaderHasHolder | scripts/check_spdx_headers.py:470-483 | the missing-holder branch is never taken |
| Pipeline.FormatChecks | scripts/check_spdx_headers.py:469-519 | never a missing-holder violation; only format violations about this file |
| Pipeline.DateRules | scripts/check_spdx_headers.py:521-530 | after `upper()`, `A` gets no violation iff there is no year field or the license is fine and the field is the current year alone; `M` and `C` get none iff there is no year field or the license is fine and the field is compliant for a modified file; under these three a missing-license violation iff a year field exists and the license is not fine; any other status gets no date rule |
| Pipeline.FileOutcome | scripts/check_spdx_headers.py:435-530 | skipped iff the file is out of scope or the scan finds no header line; a checked file's violations are its format violations followed by its date violations, all about that file |
| Pipeline.CheckFile | scripts/check_spdx_headers.py:435-530 | a skipped file adds nothing; a checked file appends exactly its `FileOutcome` violations |
| Pipeline.CheckHeaderLines | scripts/check_spdx_headers.py:463-530 | appends the format violations, then the date violations for the status |
| Pipeline.CheckFormat | scripts/check_spdx_headers.py:469-519 | returns `FormatChecks` and appends exactly its violations |
| Pipeline.ReportFormat | scripts/check_spdx_headers.py:469-519 | the imperative format checks append exactly what `Judge` finds |
| Pipeline.TallyOf | scripts/check_spdx_headers.py:430-540 | checked plus skipped is the number of entries; passed is at most checked; no violation iff every checked file passed; every violation names an entry |
| Pipeline.CheckFiles | scripts/check_spdx_headers.py:430-540 | the loop's list and counters equal `TallyOf` of the entries |
| Pipeline.Run | scripts/check_spdx_headers.py:406-553 | exit 2 iff the base revision does not resolve; otherwise 0 iff no violation and 1 iff some |
| Pipeline.OtherStatusFormatOnly | scripts/check_spdx_headers.py:521-530 | a renamed file gets neither date violations nor a missing-license violation |
| Pipeline.ScannedLinesFormat | scripts/check_spdx_headers.py:496-519 | on extracted lines, no license-format violation, and a prefix mismatch iff both lines match with different prefixes |
| Pipeline.SuggestedHeaderMatches | scripts/check_spdx_headers.py:173-180 | a proposed header line with four-digit years matches the copyright pattern with exactly the pieces it was built from, and carries the proposed years |
| Pipeline.NewFileSuggestionClears | scripts/check_spdx_headers.py:171-205 | the header a new-file date violation proposes clears the new-file date rules |
| Pipeline.SingleYearSuggestionClears | scripts/check_spdx_headers.py:232-286 | the header a single-year violation proposes clears the modified-file date rules |
| Scenarios.ParseSingleAndRange | tests/test_check_spdx_headers.py:91-101 | `2026` parses as a single year and `2023-2026` as a range |
| Scenarios.EmptyFile | tests/test_check_spdx_headers.py:134-141 | an empty file yields neither line |
| Scenarios.NewFileCases | tests/test_check_spdx_headers.py:151-184 | the new-file cases: no field gives nothing, a wrong year or a range gives one violation, the current year gives none |
| Scenarios.ModifiedWithoutYears | tests/test_check_spdx_headers.py:194-200 | no year field gives nothing |
| Scenarios.ModifiedCreatedThisYear | tests/test_check_spdx_headers.py:202-207 | a file created this year with the current year passes |
| Scenarios.ModifiedOlderSingleYear | tests/test_check_spdx_headers.py:209-217 | an older file with a single year gets one range violation |
| Scenarios.ModifiedCorrectRange | tests/test_check_spdx_headers.py:219-224 | `2023-2026` with creation 2023 passes: the cumulative range checks all hold |
| Scenarios.ModifiedStaleRangeEnd | tests/test_check_spdx_headers.py:226-234 | `2023-2025` gets exactly the stale-end violation |
| Scenarios.ModifiedIdenticalRange | tests/test_check_spdx_headers.py:236-244 | `2026-2026` gets exactly the identical-range violation |

## Left out

- Running git (`run_git`, `rev-parse`, `diff`, `ls-files`, `log`): foreign process I/O. The model takes the printed lines, and a flag saying whether the base resolves.
- `splitlines()` on git output: the model takes the output already split into lines.
- `get_creation_year`: a git history query. Its result is the parameter `Env.creationYear`. A non-numeric output, on which `int()` raises, is not modelled.
- Opening and decoding files, and `FileNotFoundError`/`UnicodeDecodeError`: the ten `readline` results are the parameter `Env.readLines`, which is `None` when the file is missing or not UTF-8. Any other error opening or reading it (a permission error, a directory, another `OSError`) ends the script with a traceback; the model does not capture that path, and `Pipeline.Run` promises nothing about it.
- `fnmatch` and `Path.is_dir`: library and file-system calls, kept as the parameters `Env.glob` and `Env.isDir`.
- Command-line parsing, the environment default for `--base`, `datetime.now` and `--debug` printing: the current year is a parameter.
- The English and Chinese message texts and `Violation.__str__`: each message is a `Kind` constructor carrying the years it quotes. The corrected year field it proposes is `Rules.Suggestion`. The holder and header line are used only in message text and are not carried.
- The "no applicable file changes" early exit is modelled only through its exit code 0, which equals the exit code of an empty run.
- Unicode decimal digits for `\d` and non-ASCII case mapping in `upper()`: only ASCII digits and ASCII letters are modelled.
- Years.FormatYears: writes every year with four digits, as a matched year field stands in a header. The proposed header uses `Years.YearsText`, which is `str()`; the two agree for years 1000 to 9999 (`Years.YearsTextIsField`).
- Pipeline.SuggestedHeaderMatches: promises nothing for years below 1000. There `str()` gives fewer than four digits, so the proposed line does not carry a year field (`Years.ShortYearNotField`).
- Pipeline.NewFileSuggestionClears: covers only a current year from 1000 to 9999, for the same reason.
- Pipeline.SingleYearSuggestionClears: covers only a current year and a known creation year from 1000 to 9999, for the same reason.
- Pipeline.SuggestedHeader: models the proposed line with a single space between fields and the file's own comment prefix. The message itself always shows `//` and mentions `#` in prose.
