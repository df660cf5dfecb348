/**
 * Turning the text git prints into the list of `(status, path)` entries the
 * checker walks: `list_changed_files` reads `git diff --name-status`,
 * `list_all_files` reads `git ls-files`.  Running git and splitting its
 * output into lines are not modelled; both methods take the lines.
 */
module GitOutput {
  import opened Wrappers
  import opened Text

  datatype ChangeEntry = ChangeEntry(status: string, path: string)

  /** `status.startswith("R") or status.startswith("C")` */
  predicate IsRenameOrCopy(status: string) {
    |status| > 0 && (status[0] == 'R' || status[0] == 'C')
  }

  /** The entry one `--name-status` row yields, if any: renames and copies
      keep the first letter of their status and their destination path. */
  function ParseDiffRow(line: string): (r: Option<ChangeEntry>)
    ensures Strip(line) == [] ==> r.None?
    ensures r.Some? ==> '\t' !in r.value.path
    ensures r.Some? && IsRenameOrCopy(r.value.status) ==> |r.value.status| == 1
  {
    if Strip(line) == [] then None
    else
      var parts := Split(line, '\t');
      var status := parts[0];
      if IsRenameOrCopy(status) then
        if |parts| >= 3 then Some(ChangeEntry(status[..1], parts[2])) else None
      else if |parts| >= 2 then Some(ChangeEntry(status, parts[1]))
      else None
  }

  /** A row `status<TAB>path` yields exactly that entry. */
  lemma ChangeRowParses(status: string, path: string)
    requires status != [] && !IsSpace(status[0]) && !IsRenameOrCopy(status)
    requires '\t' !in status && '\t' !in path
    ensures ParseDiffRow(status + "\t" + path) == Some(ChangeEntry(status, path))
  {
    var line := status + "\t" + path;
    assert line == Join([status, path], '\t');
    SplitJoin([status, path], '\t');
    assert line[0] == status[0];
  }

  /** A row `R<score><TAB>source<TAB>destination` (or `C…`) yields the
      one-letter status and the destination. */
  lemma RenameRowParses(status: string, source: string, dest: string)
    requires IsRenameOrCopy(status)
    requires '\t' !in status && '\t' !in source && '\t' !in dest
    ensures ParseDiffRow(status + "\t" + source + "\t" + dest) == Some(ChangeEntry(status[..1], dest))
  {
    var line := status + "\t" + source + "\t" + dest;
    assert [status, source, dest][1..] == [source, dest];
    assert Join([source, dest], '\t') == source + "\t" + dest;
    assert line == Join([status, source, dest], '\t');
    SplitJoin([status, source, dest], '\t');
    assert line[0] == status[0];
  }

  /** A rename or copy row without its destination column is dropped. */
  lemma RenameRowNeedsDestination(status: string, source: string)
    requires IsRenameOrCopy(status)
    requires '\t' !in status && '\t' !in source
    ensures ParseDiffRow(status + "\t" + source) == None
  {
    var line := status + "\t" + source;
    assert line == Join([status, source], '\t');
    SplitJoin([status, source], '\t');
  }

  /** A row without any tab has a single column and is dropped. */
  lemma OneColumnRowDropped(line: string)
    requires '\t' !in line
    ensures ParseDiffRow(line) == None
  {
    assert line == Join([line], '\t');
    SplitJoin([line], '\t');
  }

  /** The values `parse` gives the lines, in order, skipping the lines it
      rejects. */
  function Collect<T>(lines: seq<string>, parse: string -> Option<T>): (r: seq<T>)
    ensures |r| <= |lines|
  {
    if lines == [] then []
    else
      var last := parse(lines[|lines| - 1]);
      Collect(lines[..|lines| - 1], parse) + (if last.Some? then [last.value] else [])
  }

  /** Every collected value is what some line parses to. */
  lemma {:induction false} CollectSound<T>(lines: seq<string>, parse: string -> Option<T>)
    ensures forall x :: x in Collect(lines, parse) ==> exists k :: 0 <= k < |lines| && parse(lines[k]) == Some(x)
  {
    if lines != [] {
      var n := |lines| - 1;
      var init := lines[..n];
      CollectSound(init, parse);
      forall x | x in Collect(lines, parse)
        ensures exists k :: 0 <= k < |lines| && parse(lines[k]) == Some(x)
      {
        if x in Collect(init, parse) {
          var k :| 0 <= k < |init| && parse(init[k]) == Some(x);
          assert init[k] == lines[k];
        } else {
          assert parse(lines[n]) == Some(x);
        }
      }
    }
  }

  /** Every line `parse` accepts gives its value. */
  lemma {:induction false} CollectComplete<T>(lines: seq<string>, parse: string -> Option<T>, k: nat)
    requires k < |lines| && parse(lines[k]).Some?
    ensures parse(lines[k]).value in Collect(lines, parse)
  {
    var n := |lines| - 1;
    if k < n {
      var init := lines[..n];
      assert init[k] == lines[k];
      CollectComplete(init, parse, k);
    }
  }

  /** The entries of the whole `--name-status` output, in order: every entry
      is parsed from a row, every row that parses gives its entry. */
  function ChangedEntries(lines: seq<string>): (r: seq<ChangeEntry>)
    ensures |r| <= |lines|
    ensures forall e :: e in r ==> '\t' !in e.path
    ensures forall e :: e in r ==> exists k :: 0 <= k < |lines| && ParseDiffRow(lines[k]) == Some(e)
  {
    CollectSound(lines, ParseDiffRow);
    Collect(lines, ParseDiffRow)
  }

  /** Every row that parses gives its entry. */
  lemma ChangedEntriesComplete(lines: seq<string>, k: nat)
    requires k < |lines| && ParseDiffRow(lines[k]).Some?
    ensures ParseDiffRow(lines[k]).value in ChangedEntries(lines)
  {
    CollectComplete(lines, ParseDiffRow, k);
  }

  /** `list_changed_files` on the lines of `git diff --name-status`. */
  method ListChangedFiles(lines: seq<string>) returns (entries: seq<ChangeEntry>)
    ensures entries == ChangedEntries(lines)
  {
    entries := [];
    for i := 0 to |lines|
      invariant entries == Collect(lines[..i], ParseDiffRow)
    {
      assert lines[..i + 1][..i] == lines[..i];
      var line := lines[i];
      if Strip(line) == [] {
        continue;
      }
      var parts := Split(line, '\t');
      var status := parts[0];
      if IsRenameOrCopy(status) {
        if |parts| >= 3 {
          entries := entries + [ChangeEntry(status[..1], parts[2])];
        }
        continue;
      }
      if |parts| >= 2 {
        entries := entries + [ChangeEntry(status, parts[1])];
      }
    }
    assert lines[..|lines|] == lines;
  }

  /** The entry one `ls-files` line yields: its stripped path, marked as
      modified, unless the line is blank. */
  function TrackedRow(line: string): (r: Option<ChangeEntry>)
    ensures r.Some? ==> r.value.path != [] && !IsSpace(r.value.path[0])
  {
    if Strip(line) != [] then Some(ChangeEntry("M", Strip(line))) else None
  }

  /** The entries of the whole `ls-files` output: every entry is a modified
      file whose path is a stripped line. */
  function TrackedEntries(lines: seq<string>): (r: seq<ChangeEntry>)
    ensures |r| <= |lines|
    ensures forall e :: e in r ==> e.status == "M" && e.path != [] && !IsSpace(e.path[0])
    ensures forall e :: e in r ==> exists k :: 0 <= k < |lines| && e.path == Strip(lines[k])
  {
    CollectSound(lines, TrackedRow);
    Collect(lines, TrackedRow)
  }

  /** Every non-blank line of the output gives an entry. */
  lemma TrackedEntriesComplete(lines: seq<string>, k: nat)
    requires k < |lines| && Strip(lines[k]) != []
    ensures ChangeEntry("M", Strip(lines[k])) in TrackedEntries(lines)
  {
    CollectComplete(lines, TrackedRow, k);
  }

  /** `list_all_files` on the lines of `git ls-files`. */
  method ListAllFiles(lines: seq<string>) returns (entries: seq<ChangeEntry>)
    ensures entries == TrackedEntries(lines)
  {
    entries := [];
    for i := 0 to |lines|
      invariant entries == Collect(lines[..i], TrackedRow)
    {
      assert lines[..i + 1][..i] == lines[..i];
      var line := lines[i];
      if Strip(line) != [] {
        entries := entries + [ChangeEntry("M", Strip(line))];
      }
    }
    assert lines[..|lines|] == lines;
  }
}
