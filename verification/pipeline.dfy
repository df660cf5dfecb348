/**
 * The body of `main`: which files are checked, the format checks on the two
 * extracted lines, the dispatch to the date validators by change status,
 * the counters, and the exit code.  The file system, git, the clock and
 * `fnmatch` are parameters gathered in `Env`.
 */
module Pipeline {
  import opened Wrappers
  import opened Text
  import opened Years
  import opened Patterns
  import opened Extract
  import opened Rules
  import opened GitOutput

  /** What the checker learns from outside: command-line patterns, the
      file system, git history and the current year. */
  datatype Env = Env(
    includes: seq<string>,
    excludes: seq<string>,
    glob: (string, string) -> bool,              // fnmatch on the POSIX form of a path
    isDir: string -> bool,
    readLines: string -> Option<seq<string>>,    // ten `readline` results; None if missing or not UTF-8
    creationYear: string -> Option<int>,         // get_creation_year
    currentYear: int)

  /** `any(fnmatch(path, pattern) for pattern in patterns)` */
  predicate AnyMatch(path: string, patterns: seq<string>, glob: (string, string) -> bool) {
    exists k :: 0 <= k < |patterns| && glob(path, patterns[k])
  }

  method AnyMatches(path: string, patterns: seq<string>, glob: (string, string) -> bool) returns (b: bool)
    ensures b <==> AnyMatch(path, patterns, glob)
  {
    b := false;
    var k := 0;
    while k < |patterns|
      invariant k <= |patterns|
      invariant !b ==> forall j :: 0 <= j < k ==> !glob(path, patterns[j])
      invariant b ==> AnyMatch(path, patterns, glob)
    {
      if glob(path, patterns[k]) {
        b := true;
        break;
      }
      k := k + 1;
    }
  }

  /** A path survives the include filter, the exclude filter and the
      directory test. */
  predicate InScope(path: string, env: Env) {
    (|env.includes| == 0 || AnyMatch(path, env.includes, env.glob)) &&
    !(|env.excludes| > 0 && AnyMatch(path, env.excludes, env.glob)) &&
    !env.isDir(path)
  }

  function UpperChar(c: char): char {
    if 'a' <= c <= 'z' then (c as int - 32) as char else c
  }

  /** `str.upper()` on a git status code. */
  function Upper(s: string): (r: string)
    ensures |r| == |s|
    ensures forall i :: 0 <= i < |r| ==> !('a' <= r[i] <= 'z')
    ensures forall i :: 0 <= i < |s| && !('a' <= s[i] <= 'z') ==> r[i] == s[i]
    ensures forall i :: 0 <= i < |s| && 'a' <= s[i] <= 'z' ==> r[i] as int == s[i] as int - 32
  {
    seq(|s|, i requires 0 <= i < |s| => UpperChar(s[i]))
  }

  /** The outcome of the format checks: the violations they raise, the year
      field handed to the validators and whether the license line counts. */
  datatype FormatCheck = FormatCheck(found: seq<Violation>, yearsField: Option<string>, licenseOk: bool)

  /** A header match whose holder is blank once stripped. */
  predicate HolderBlank(m: Option<HeaderParts>) {
    m.Some? && Strip(m.value.holder) == []
  }

  /** The comment prefix the header imposes on the license line, if any. */
  function HeaderPrefix(m: Option<HeaderParts>): Option<string> {
    if m.Some? && !HolderBlank(m) then Some(m.value.prefix) else None
  }

  /** The header is matched on the stripped line, so its holder is never
      blank: the missing-holder branch of `main` cannot be taken. */
  lemma StrippedHeaderHasHolder(headerLine: string)
    ensures !HolderBlank(MatchHeader(Strip(headerLine)))
  {
    var hm := MatchHeader(Strip(headerLine));
    if hm.Some? {
      StrippedHolderNotBlank(hm.value, headerLine);
      BlankIffAllSpace(hm.value.holder);
    }
  }

  /** What became of the license line: none was found (or it is empty), it
      does not match the license pattern once stripped, or it matches with
      this comment prefix. */
  datatype LicenseSeen = Absent | Malformed | Matched(prefix: string)

  function LicenseSeenOf(licenseLine: Option<string>): (r: LicenseSeen)
    ensures r.Absent? <==> licenseLine.None? || licenseLine.value == ""
    ensures r.Matched? <==> !r.Absent? && MatchLicense(Strip(licenseLine.value)).Some?
    ensures r.Matched? ==> r.prefix == MatchLicense(Strip(licenseLine.value)).value.prefix
    ensures r.Matched? ==> IsCommentPrefix(r.prefix)
  {
    if licenseLine.None? || licenseLine.value == "" then Absent
    else
      match MatchLicense(Strip(licenseLine.value))
      case None => Malformed
      case Some(m) => Matched(m.prefix)
  }

  /** The format checks of `main`, given what the two patterns made of the
      stripped header line and of the license line. */
  function Judge(path: string, hm: Option<HeaderParts>, seen: LicenseSeen): (r: FormatCheck)
    requires hm.Some? ==> hm.value.WellFormed()
    ensures r.yearsField.Some? <==> hm.Some?
    ensures hm.Some? ==> r.yearsField == Some(hm.value.years)
    ensures r.yearsField.Some? ==> IsYearToken(r.yearsField.value)
  {
    var headerFound := if hm.None? then [Violation(path, HeaderFormatInvalid)]
                       else if HolderBlank(hm) then [Violation(path, MissingHolder)]
                       else [];
    var prefix := HeaderPrefix(hm);
    var licenseOk := seen.Matched? && (prefix.None? || seen.prefix == prefix.value);
    var licenseFound := if seen.Malformed? then [Violation(path, LicenseFormatInvalid)] else [];
    var mismatch := if prefix.Some? && prefix.value != "" && !seen.Absent? && !licenseOk
                    then [Violation(path, PrefixMismatch)] else [];
    FormatCheck(headerFound + licenseFound + mismatch,
                if hm.Some? then Some(hm.value.years) else None,
                licenseOk)
  }

  /** Each format violation is raised exactly when its condition holds, and
      the file passes the format checks exactly when the header matched with
      a holder and the license line is absent or matched with the same
      comment prefix. */
  lemma JudgeMeaning(path: string, hm: Option<HeaderParts>, seen: LicenseSeen)
    requires hm.Some? ==> hm.value.WellFormed()
    ensures var r := Judge(path, hm, seen);
      && (r.yearsField.Some? <==> hm.Some?)
      && (r.licenseOk <==> seen.Matched? && (HeaderPrefix(hm).None? || HeaderPrefix(hm).value == seen.prefix))
      && (Violation(path, HeaderFormatInvalid) in r.found <==> hm.None?)
      && (Violation(path, MissingHolder) in r.found <==> HolderBlank(hm))
      && (Violation(path, LicenseFormatInvalid) in r.found <==> seen.Malformed?)
      && (Violation(path, PrefixMismatch) in r.found <==> HeaderPrefix(hm).Some? && !seen.Absent? && !r.licenseOk)
      && (r.found == [] <==> hm.Some? && !HolderBlank(hm) && (seen.Absent? || r.licenseOk))
      && (forall v :: v in r.found ==> v.path == path && !v.kind.IsYearKind() && !v.kind.MissingLicense?)
      && |r.found| == (if hm.None? then 1 else 0) + (if HolderBlank(hm) then 1 else 0) +
                      (if seen.Malformed? then 1 else 0) +
                      (if HeaderPrefix(hm).Some? && !seen.Absent? && !r.licenseOk then 1 else 0)
  {
  }

  /** The format violations come in the order `main` checks them: the
      header, the license format, then the prefix agreement; so each is
      reported at most once. */
  lemma JudgeInOrder(path: string, hm: Option<HeaderParts>, seen: LicenseSeen)
    requires hm.Some? ==> hm.value.WellFormed()
    ensures InOrder(Judge(path, hm, seen).found, FormatRank)
  {
    var prefix := HeaderPrefix(hm);
    var licenseOk := seen.Matched? && (prefix.None? || seen.prefix == prefix.value);
    var headerFound := if hm.None? then [Violation(path, HeaderFormatInvalid)]
                       else if HolderBlank(hm) then [Violation(path, MissingHolder)]
                       else [];
    var licenseFound := if seen.Malformed? then [Violation(path, LicenseFormatInvalid)] else [];
    var mismatch := if prefix.Some? && prefix.value != "" && !seen.Absent? && !licenseOk
                    then [Violation(path, PrefixMismatch)] else [];
    assert Judge(path, hm, seen).found == headerFound + licenseFound + mismatch + [];
    FourInOrder(headerFound, licenseFound, mismatch, [], FormatRank);
  }

  /** The format checks of `main` on an extracted header line and license
      line; a missing holder is never reported. */
  function FormatChecks(path: string, headerLine: string, licenseLine: Option<string>): (r: FormatCheck)
    ensures r.yearsField.Some? ==> IsYearToken(r.yearsField.value)
    ensures Violation(path, MissingHolder) !in r.found
    ensures forall v :: v in r.found ==> v.path == path && !v.kind.IsYearKind() && !v.kind.MissingLicense?
  {
    StrippedHeaderHasHolder(headerLine);
    JudgeMeaning(path, MatchHeader(Strip(headerLine)), LicenseSeenOf(licenseLine));
    Judge(path, MatchHeader(Strip(headerLine)), LicenseSeenOf(licenseLine))
  }

  /** The date rules `main` applies by change status: `A` as a new file,
      `M` and `C` as modified files, any other status none. */
  function DateRules(status: string, path: string, fc: FormatCheck, env: Env): (r: seq<Violation>)
    requires fc.yearsField.Some? ==> IsYearToken(fc.yearsField.value)
    ensures forall v :: v in r ==> v.path == path
    ensures Upper(status) != "A" && Upper(status) != "M" && Upper(status) != "C" ==> r == []
    ensures Upper(status) == "A" ==>
              (r == [] <==> fc.yearsField.None? ||
                            (fc.licenseOk && NewFileCompliant(ParseYears(fc.yearsField.value), env.currentYear)))
    ensures Upper(status) == "M" || Upper(status) == "C" ==>
              (r == [] <==> fc.yearsField.None? ||
                            (fc.licenseOk && ModifiedCompliant(ParseYears(fc.yearsField.value),
                                                               env.creationYear(path), env.currentYear)))
    ensures Upper(status) in {"A", "M", "C"} ==>
              (Violation(path, MissingLicense) in r <==> fc.yearsField.Some? && !fc.licenseOk)
  {
    var st := Upper(status);
    if st == "A" then NewFileRules(path, fc.yearsField, fc.licenseOk, env.currentYear)
    else if st == "M" || st == "C" then
      ModifiedFileRules(path, fc.yearsField, fc.licenseOk, env.creationYear(path), env.currentYear)
    else []
  }

  /** What the scan finds in a file; nothing when the file cannot be read. */
  function ScanFile(path: string, env: Env): HeaderLines {
    match env.readLines(path)
    case None => HeaderLines(None, None)
    case Some(lines) => HeaderScan(lines)
  }

  datatype FileResult = Skipped | Checked(found: seq<Violation>)

  /** The result of one iteration of `main`'s loop for one entry. */
  function FileOutcome(entry: ChangeEntry, env: Env): (r: FileResult)
    ensures r.Skipped? <==> !InScope(entry.path, env) || ScanFile(entry.path, env).header.None?
    ensures r.Checked? ==>
              var scan := ScanFile(entry.path, env);
              var fc := FormatChecks(entry.path, scan.header.value, scan.license);
              r.found == fc.found + DateRules(entry.status, entry.path, fc, env)
    ensures r.Checked? ==> forall v :: v in r.found ==> v.path == entry.path
  {
    var path := entry.path;
    if !InScope(path, env) then Skipped
    else
      var scan := ScanFile(path, env);
      if scan.header.None? then Skipped
      else
        MatchedLineNotBlank(scan.header.value);
        if scan.header.value == "" then Skipped
        else
          var fc := FormatChecks(path, scan.header.value, scan.license);
          Checked(fc.found + DateRules(entry.status, path, fc, env))
  }

  /** The three guards at the top of `main`'s loop: the include patterns,
      the exclude patterns and the directory test. */
  method PathInScope(path: string, env: Env) returns (b: bool)
    ensures b <==> InScope(path, env)
  {
    if |env.includes| > 0 {
      var included := AnyMatches(path, env.includes, env.glob);
      if !included {
        return false;
      }
    }
    if |env.excludes| > 0 {
      var excluded := AnyMatches(path, env.excludes, env.glob);
      if excluded {
        return false;
      }
    }
    if env.isDir(path) {
      return false;
    }
    return true;
  }

  /** One iteration of `main`'s loop: returns whether the file was checked
      and appends what it found to the shared list. */
  method CheckFile(entry: ChangeEntry, env: Env, violations: ViolationList) returns (checked: bool)
    modifies violations
    ensures FileOutcome(entry, env).Skipped? ==> !checked && violations.items == old(violations.items)
    ensures FileOutcome(entry, env).Checked? ==>
              checked && violations.items == old(violations.items) + FileOutcome(entry, env).found
  {
    var path := entry.path;
    var inScope := PathInScope(path, env);
    if !inScope {
      return false;
    }
    var headerLine, licenseLine := ExtractHeaderLines(env.readLines(path));
    if headerLine.None? || headerLine.value == "" {
      return false;
    }
    checked := true;
    CheckHeaderLines(entry, headerLine.value, licenseLine, env, violations);
  }

  /** The checks `main` runs on a file whose header line was found. */
  method CheckHeaderLines(entry: ChangeEntry, headerLine: string, licenseLine: Option<string>, env: Env,
                          violations: ViolationList)
    modifies violations
    ensures var fc := FormatChecks(entry.path, headerLine, licenseLine);
            violations.items == old(violations.items) + (fc.found + DateRules(entry.status, entry.path, fc, env))
  {
    var path := entry.path;
    ghost var before := violations.items;
    var fc := CheckFormat(path, headerLine, licenseLine, violations);
    ghost var middle := violations.items;
    var status := Upper(entry.status);
    if status == "A" {
      ValidateNewFile(path, fc.yearsField, fc.licenseOk, env.currentYear, violations);
    } else if status == "M" {
      var creationYear := env.creationYear(path);
      ValidateModifiedFile(path, fc.yearsField, fc.licenseOk, creationYear, env.currentYear, violations);
    } else if status == "C" {
      var creationYear := env.creationYear(path);
      ValidateModifiedFile(path, fc.yearsField, fc.licenseOk, creationYear, env.currentYear, violations);
    }
    ghost var dates := DateRules(entry.status, path, fc, env);
    assert violations.items == middle + dates;
    Concat3(before, fc.found, dates);
  }

  lemma Concat3<T>(a: seq<T>, b: seq<T>, c: seq<T>)
    ensures a + b + c == a + (b + c)
  {
  }

  /** The format checks of `main`, appending to the shared list; returns
      what the date validators need. */
  method CheckFormat(path: string, headerLine: string, licenseLine: Option<string>, violations: ViolationList)
    returns (fc: FormatCheck)
    modifies violations
    ensures fc == FormatChecks(path, headerLine, licenseLine)
    ensures violations.items == old(violations.items) + fc.found
  {
    var headerMatch := MatchHeader(Strip(headerLine));
    StrippedHeaderHasHolder(headerLine);
    var seen := LicenseSeenOf(licenseLine);
    fc := ReportFormat(path, headerMatch, seen, violations);
  }

  /** The appends of `main`'s format checks, once the two patterns have been
      applied. */
  method ReportFormat(path: string, headerMatch: Option<HeaderParts>, seen: LicenseSeen, violations: ViolationList)
    returns (fc: FormatCheck)
    requires headerMatch.Some? ==> headerMatch.value.WellFormed()
    modifies violations
    ensures fc == Judge(path, headerMatch, seen)
    ensures violations.items == old(violations.items) + fc.found
  {
    var yearsField: Option<string> := None;
    var headerPrefix: Option<string> := None;
    var licenseOk := false;
    var found: seq<Violation> := [];
    if headerMatch.Some? {
      yearsField := Some(headerMatch.value.years);
      headerPrefix := Some(headerMatch.value.prefix);
      var holder := headerMatch.value.holder;
      if holder == "" || Strip(holder) == [] {
        violations.Append(Violation(path, MissingHolder));
        found := found + [Violation(path, MissingHolder)];
        headerPrefix := None;
      }
    } else {
      violations.Append(Violation(path, HeaderFormatInvalid));
      found := found + [Violation(path, HeaderFormatInvalid)];
    }
    if !seen.Absent? {
      if seen.Matched? {
        licenseOk := headerPrefix.None? || seen.prefix == headerPrefix.value;
      } else {
        violations.Append(Violation(path, LicenseFormatInvalid));
        found := found + [Violation(path, LicenseFormatInvalid)];
      }
    }
    if headerPrefix.Some? && headerPrefix.value != "" && !seen.Absent? && !licenseOk {
      violations.Append(Violation(path, PrefixMismatch));
      found := found + [Violation(path, PrefixMismatch)];
    }
    fc := FormatCheck(found, yearsField, licenseOk);
  }

  /** The violations and the counters `main` accumulates over its entries. */
  datatype Tally = Tally(violations: seq<Violation>, checked: nat, skipped: nat, passed: nat)

  /** The tally after the given entries: every entry is either skipped or
      checked, a checked file passes when it adds no violation, and the run
      is clean exactly when every checked file passed. */
  function TallyOf(entries: seq<ChangeEntry>, env: Env): (t: Tally)
    ensures t.checked + t.skipped == |entries|
    ensures t.passed <= t.checked
    ensures t.violations == [] <==> t.passed == t.checked
    ensures forall v :: v in t.violations ==> exists k :: 0 <= k < |entries| && v.path == entries[k].path
  {
    if entries == [] then Tally([], 0, 0, 0)
    else
      var init := entries[..|entries| - 1];
      var last := entries[|entries| - 1];
      var t := TallyOf(init, env);
      assert forall k :: 0 <= k < |init| ==> init[k] == entries[k];
      AddOutcome(t, FileOutcome(last, env))
  }

  /** The tally after one more file: a skipped file counts as skipped; a
      checked file counts as checked, adds its violations, and passes when it
      adds none. */
  function AddOutcome(t: Tally, r: FileResult): Tally {
    match r
    case Skipped => Tally(t.violations, t.checked, t.skipped + 1, t.passed)
    case Checked(found) =>
      Tally(t.violations + found, t.checked + 1, t.skipped, if found == [] then t.passed + 1 else t.passed)
  }

  lemma TallyStep(entries: seq<ChangeEntry>, i: nat, env: Env)
    requires i < |entries|
    ensures TallyOf(entries[..i + 1], env) == AddOutcome(TallyOf(entries[..i], env), FileOutcome(entries[i], env))
  {
    assert entries[..i + 1][..i] == entries[..i] && entries[..i + 1][i] == entries[i];
  }

  /** `main`'s loop over the entries, with its shared list and counters. */
  method CheckFiles(entries: seq<ChangeEntry>, env: Env)
    returns (violations: seq<Violation>, checked: nat, skipped: nat, passed: nat)
    ensures Tally(violations, checked, skipped, passed) == TallyOf(entries, env)
  {
    var list := new ViolationList();
    checked, skipped, passed := 0, 0, 0;
    for i := 0 to |entries|
      invariant Tally(list.items, checked, skipped, passed) == TallyOf(entries[..i], env)
    {
      TallyStep(entries, i, env);
      var before := |list.items|;
      var wasChecked := CheckFile(entries[i], env, list);
      if !wasChecked {
        skipped := skipped + 1;
        continue;
      }
      checked := checked + 1;
      if |list.items| <= before {
        passed := passed + 1;
      }
    }
    assert entries[..|entries|] == entries;
    violations := list.items;
  }

  /** How the run was asked for: every tracked file (with the lines of
      `git ls-files`), or the changes since a base revision (whether
      `git rev-parse` accepts it, and the lines of `git diff --name-status`). */
  datatype Mode = AllFiles(trackedLines: seq<string>) | SinceBase(baseResolves: bool, diffLines: seq<string>)

  function EntriesOf(mode: Mode): seq<ChangeEntry> {
    match mode
    case AllFiles(lines) => TrackedEntries(lines)
    case SinceBase(_, lines) => ChangedEntries(lines)
  }

  /** `main` after argument parsing: its exit status. */
  method Run(mode: Mode, env: Env) returns (exitCode: int)
    ensures exitCode == 2 <==> mode.SinceBase? && !mode.baseResolves
    ensures exitCode != 2 ==> (exitCode == 0 <==> TallyOf(EntriesOf(mode), env).violations == [])
    ensures exitCode != 2 ==> (exitCode == 1 <==> TallyOf(EntriesOf(mode), env).violations != [])
  {
    var changed: seq<ChangeEntry>;
    if mode.AllFiles? {
      changed := ListAllFiles(mode.trackedLines);
    } else {
      if !mode.baseResolves {
        return 2;
      }
      changed := ListChangedFiles(mode.diffLines);
    }
    if changed == [] {
      return 0;
    }
    var violations, checked, skipped, passed := CheckFiles(changed, env);
    if violations != [] {
      return 1;
    }
    return 0;
  }

  /** A renamed file (status `R`) or any status other than `A`, `M` and `C`
      gets the format checks only: no date rule and no missing-license
      violation. */
  lemma OtherStatusFormatOnly(entry: ChangeEntry, env: Env)
    requires Upper(entry.status) != "A" && Upper(entry.status) != "M" && Upper(entry.status) != "C"
    requires FileOutcome(entry, env).Checked?
    ensures forall v :: v in FileOutcome(entry, env).found ==> !v.kind.IsYearKind() && !v.kind.MissingLicense?
  {
    var scan := ScanFile(entry.path, env);
    var fc := FormatChecks(entry.path, scan.header.value, scan.license);
    assert FileOutcome(entry, env).found == fc.found + [];
  }

  /** On the lines the scan found, a license line is never reported as
      malformed (it matched before stripping, so it still matches after),
      and a prefix mismatch is reported exactly when both lines match and
      their comment prefixes differ. */
  lemma ScannedLinesFormat(path: string, lines: seq<string>)
    requires HeaderScan(lines).header.Some?
    ensures var scan := HeaderScan(lines);
            var found := FormatChecks(path, scan.header.value, scan.license).found;
            Violation(path, LicenseFormatInvalid) !in found &&
            (Violation(path, PrefixMismatch) in found <==>
               MatchHeader(Strip(scan.header.value)).Some? && scan.license.Some? &&
               MatchLicense(scan.license.value).value.prefix != MatchHeader(Strip(scan.header.value)).value.prefix)
  {
    var scan := HeaderScan(lines);
    var seen := LicenseSeenOf(scan.license);
    if scan.license.Some? {
      MatchedLineNotBlank(scan.license.value);
      LicenseSurvivesStrip(scan.license.value);
      assert scan.license.value != "";
      assert seen == Matched(MatchLicense(scan.license.value).value.prefix);
    } else {
      assert seen.Absent?;
    }
    var hm := MatchHeader(Strip(scan.header.value));
    StrippedHeaderHasHolder(scan.header.value);
    JudgeMeaning(path, hm, seen);
  }

  /** The copyright line a date violation's message proposes, with the
      comment prefix and holder of the file's header. */
  function SuggestedHeader(prefix: string, y: YearField, holder: string): string {
    prefix + " " + CopyrightTag + " " + YearsText(y) + " " + holder
  }

  /** A proposed copyright line is itself a valid header carrying the
      proposed years. */
  lemma SuggestedHeaderMatches(prefix: string, y: YearField, holder: string)
    requires IsCommentPrefix(prefix) && FourDigitYears(y)
    requires holder != [] && !IsSpace(holder[0]) && NoNewline(holder)
    ensures MatchHeader(SuggestedHeader(prefix, y, holder)) ==
            Some(HeaderParts(prefix, " ", " ", FormatYears(y), " ", holder, ""))
    ensures ParseYears(MatchHeader(SuggestedHeader(prefix, y, holder)).value.years) == y
  {
    var p := HeaderParts(prefix, " ", " ", FormatYears(y), " ", holder, "");
    YearsTextIsField(y);
    assert p.Render() == SuggestedHeader(prefix, y, holder);
    HeaderRoundTrip(p);
  }

  /** Following the advice of a new-file date violation clears it. */
  lemma NewFileSuggestionClears(path: string, y: YearField, current: int, v: Violation,
                                prefix: string, holder: string)
    requires 1000 <= current < 10000 && v in NewFileYearRules(path, y, current)
    requires IsCommentPrefix(prefix) && holder != [] && !IsSpace(holder[0]) && NoNewline(holder)
    ensures MatchHeader(SuggestedHeader(prefix, Suggestion(v.kind).value, holder)).Some?
    ensures NewFileYearRules(path, ParseYears(
              MatchHeader(SuggestedHeader(prefix, Suggestion(v.kind).value, holder)).value.years), current) == []
  {
    var fix := Suggestion(v.kind).value;
    assert NewFileCompliant(fix, current);
    SuggestedHeaderMatches(prefix, fix, holder);
    var years := MatchHeader(SuggestedHeader(prefix, fix, holder)).value.years;
    assert ParseYears(years) == fix;
  }

  /** Following the advice of a single-year violation on a modified file
      clears it. */
  lemma SingleYearSuggestionClears(path: string, year: int, creation: Option<int>, current: int, v: Violation,
                                   prefix: string, holder: string)
    requires 1000 <= current < 10000 && (Known(creation) ==> 1000 <= creation.value)
    requires v in SingleYearRules(path, year, creation, current)
    requires IsCommentPrefix(prefix) && holder != [] && !IsSpace(holder[0]) && NoNewline(holder)
    ensures MatchHeader(SuggestedHeader(prefix, Suggestion(v.kind).value, holder)).Some?
    ensures ModifiedYearRules(path, ParseYears(
              MatchHeader(SuggestedHeader(prefix, Suggestion(v.kind).value, holder)).value.years), creation, current) == []
  {
    var fix := Suggestion(v.kind).value;
    assert ModifiedCompliant(fix, creation, current);
    assert InRange(fix);
    SuggestedHeaderMatches(prefix, fix, holder);
    var years := MatchHeader(SuggestedHeader(prefix, fix, holder)).value.years;
    assert ParseYears(years) == fix;
  }
}
