/**
 * The behaviour the repository's unit tests describe, stated on the model.
 */
module Scenarios {
  import opened Wrappers
  import opened Years
  import opened Extract
  import opened Rules

  lemma ParseSingleAndRange()
    ensures ParseYears("2026") == YearField(2026, None)
    ensures ParseYears("2023-2026") == YearField(2023, Some(2026))
  {
  }

  lemma EmptyFile()
    ensures HeaderScan(["", "", "", "", "", "", "", "", "", ""]) == HeaderLines(None, None)
  {
  }

  lemma NewFileCases()
    ensures NewFileRules("test.py", None, false, 2026) == []
    ensures NewFileRules("test.py", Some("2025"), true, 2026) == [Violation("test.py", NewFileYear(2026))]
    ensures NewFileRules("test.py", Some("2023-2026"), true, 2026) == [Violation("test.py", NewFileRange(2026))]
    ensures NewFileRules("test.py", Some("2026"), true, 2026) == []
  {
    assert ParseYears("2025") == YearField(2025, None);
    assert ParseYears("2023-2026") == YearField(2023, Some(2026));
    assert ParseYears("2026") == YearField(2026, None);
  }

  lemma ModifiedWithoutYears()
    ensures ModifiedFileRules("test.py", None, false, Some(2023), 2026) == []
  {
  }

  lemma ModifiedCreatedThisYear()
    ensures ModifiedFileRules("test.py", Some("2026"), true, Some(2026), 2026) == []
  {
    assert ParseYears("2026") == YearField(2026, None);
  }

  lemma ModifiedOlderSingleYear()
    ensures ModifiedFileRules("test.py", Some("2023"), true, Some(2023), 2026) ==
            [Violation("test.py", PredatesCurrent(2023, 2026))]
  {
    assert ParseYears("2023") == YearField(2023, None);
  }

  lemma ModifiedCorrectRange()
    ensures ModifiedFileRules("test.py", Some("2023-2026"), true, Some(2023), 2026) == []
  {
    assert ParseYears("2023-2026") == YearField(2023, Some(2026));
  }

  lemma ModifiedStaleRangeEnd()
    ensures ModifiedFileRules("test.py", Some("2023-2025"), true, Some(2023), 2026) ==
            [Violation("test.py", RangeEndStale(2023, 2026))]
  {
    assert ParseYears("2023-2025") == YearField(2023, Some(2025));
  }

  lemma ModifiedIdenticalRange()
    ensures ModifiedFileRules("test.py", Some("2026-2026"), true, Some(2026), 2026) ==
            [Violation("test.py", RangeIdentical(2026))]
  {
    assert ParseYears("2026-2026") == YearField(2026, Some(2026));
  }
}
