/**
 * The compliance rules: the kinds of violation the checker reports, the
 * caller-owned violation list, and the two date validators
 * (`validate_new_file`, `validate_modified_file`).  Each validator is a method
 * that only appends to the list; what it appends is given by a
 * specification function whose properties are stated beside it.
 */
module Rules {
  import opened Wrappers
  import opened Years

  /** What a violation reports; the years carried are the ones its message
      quotes (its corrected header is `Suggestion`). */
  datatype Kind =
    | HeaderFormatInvalid
    | MissingHolder
    | LicenseFormatInvalid
    | PrefixMismatch
    | MissingLicense
    | NewFileRange(current: int)
    | NewFileYear(current: int)
    | PredatesCurrent(creation: int, current: int)
    | YearNotCurrent(current: int)
    | EarlierCreation(creation: int, current: int)
    | RangeReversed(start: int, end: int)
    | RangeEndStale(start: int, current: int)
    | RangeStartNotCreation(creation: int, end: int)
    | RangeIdentical(year: int)
  {
    /** Position of a range check in the order the range branch of
        `validate_modified_file` runs them; 4 for every other kind. */
    function RangeOrder(): nat {
      if RangeReversed? then 0
      else if RangeEndStale? then 1
      else if RangeStartNotCreation? then 2
      else if RangeIdentical? then 3
      else 4
    }

    /** Position of a format check in the order `main` runs them; the two
        header checks exclude each other. 3 for every other kind. */
    function FormatOrder(): nat {
      if HeaderFormatInvalid? || MissingHolder? then 0
      else if LicenseFormatInvalid? then 1
      else if PrefixMismatch? then 2
      else 3
    }

    /** The kinds raised by the date rules. */
    predicate IsYearKind() {
      !(HeaderFormatInvalid? || MissingHolder? || LicenseFormatInvalid? || PrefixMismatch? || MissingLicense?)
    }
  }

  datatype Violation = Violation(path: string, kind: Kind)

  /** The year field of the corrected header line a date violation proposes
      (the `Expected:` part of its message). */
  function Suggestion(k: Kind): Option<YearField> {
    match k
    case NewFileRange(cur) => Some(YearField(cur, None))
    case NewFileYear(cur) => Some(YearField(cur, None))
    case PredatesCurrent(c, cur) => Some(YearField(c, Some(cur)))
    case YearNotCurrent(cur) => Some(YearField(cur, None))
    case EarlierCreation(c, cur) => Some(YearField(c, Some(cur)))
    case RangeReversed(s, e) => Some(YearField(e, Some(s)))
    case RangeEndStale(s, cur) => Some(YearField(s, Some(cur)))
    case RangeStartNotCreation(c, e) => Some(YearField(c, Some(e)))
    case RangeIdentical(y) => Some(YearField(y, None))
    case _ => None
  }

  /** The list of violations the caller owns; the validators only extend it. */
  class ViolationList {
    var items: seq<Violation>

    constructor ()
      ensures items == []
    {
      items := [];
    }

    method Append(v: Violation)
      modifies this
      ensures items == old(items) + [v]
    {
      items := items + [v];
    }
  }

  /** Python truthiness of the creation year: `None` and `0` count as unknown. */
  predicate Known(creation: Option<int>) {
    creation.Some? && creation.value != 0
  }

  /** The license rule both validators end with. */
  function LicenseRule(path: string, licenseOk: bool): (r: seq<Violation>)
    ensures r == [] <==> licenseOk
    ensures forall v :: v in r ==> v == Violation(path, MissingLicense)
  {
    if licenseOk then [] else [Violation(path, MissingLicense)]
  }

  /** The only year field a new file may carry. */
  predicate NewFileCompliant(y: YearField, current: int) {
    y == YearField(current, None)
  }

  /** Date rules of a new file: a range and a wrong single year exclude each
      other. */
  function NewFileYearRules(path: string, y: YearField, current: int): (r: seq<Violation>)
    ensures |r| <= 1
    ensures r == [] <==> NewFileCompliant(y, current)
    ensures forall v :: v in r ==> v.path == path && v.kind.IsYearKind()
    ensures forall v :: v in r ==> Suggestion(v.kind).Some? && NewFileCompliant(Suggestion(v.kind).value, current)
    ensures y.end.Some? ==> r == [Violation(path, NewFileRange(current))]
    ensures y.end.None? && y.start != current ==> r == [Violation(path, NewFileYear(current))]
  {
    if y.end.Some? then [Violation(path, NewFileRange(current))]
    else if y.start != current then [Violation(path, NewFileYear(current))]
    else []
  }

  /** What `validate_new_file` appends. */
  function NewFileRules(path: string, yearsField: Option<string>, licenseOk: bool, current: int): (r: seq<Violation>)
    requires yearsField.Some? ==> IsYearToken(yearsField.value)
    ensures yearsField.None? ==> r == []
    ensures r == [] <==> yearsField.None? || (licenseOk && NewFileCompliant(ParseYears(yearsField.value), current))
    ensures yearsField.Some? ==> (Violation(path, MissingLicense) in r <==> !licenseOk)
    ensures yearsField.Some? ==> multiset(r)[Violation(path, MissingLicense)] == (if licenseOk then 0 else 1)
    ensures forall i, j :: 0 <= i < j < |r| ==> !(r[i].kind.IsYearKind() && r[j].kind.IsYearKind())
    ensures forall v :: v in r ==> v.path == path
    ensures yearsField.Some? ==>
              var years := NewFileYearRules(path, ParseYears(yearsField.value), current);
              |r| == |years| + (if licenseOk then 0 else 1) && r[..|years|] == years
  {
    match yearsField
    case None => []
    case Some(f) => NewFileYearRules(path, ParseYears(f), current) + LicenseRule(path, licenseOk)
  }

  /** The year fields a modified file may carry: the range from its creation
      year to the current year when it was created earlier; otherwise the
      current year alone, or, when the creation year is unknown, any range
      that ends in the current year. */
  predicate ModifiedCompliant(y: YearField, creation: Option<int>, current: int) {
    if Known(creation) && creation.value < current then y == YearField(creation.value, Some(current))
    else if Known(creation) then y == YearField(current, None)
    else y == YearField(current, None) || (y.end == Some(current) && y.start < current)
  }

  /** Date rules of a modified file with a single year. */
  function SingleYearRules(path: string, year: int, creation: Option<int>, current: int): (r: seq<Violation>)
    ensures |r| <= 1
    ensures r == [] <==> ModifiedCompliant(YearField(year, None), creation, current)
    ensures forall v :: v in r ==> v.path == path && v.kind.IsYearKind()
    ensures forall v :: v in r ==> Suggestion(v.kind).Some? && ModifiedCompliant(Suggestion(v.kind).value, creation, current)
    ensures forall v :: v in r ==>
              (Suggestion(v.kind) ==
               Some(if Known(creation) && creation.value < current then YearField(creation.value, Some(current))
                    else YearField(current, None)))
    ensures year != current && Known(creation) && creation.value < current ==>
              r == [Violation(path, PredatesCurrent(creation.value, current))]
    ensures year != current && !(Known(creation) && creation.value < current) ==>
              r == [Violation(path, YearNotCurrent(current))]
    ensures year == current && Known(creation) && creation.value < current ==>
              r == [Violation(path, EarlierCreation(creation.value, current))]
  {
    if year != current then
      if Known(creation) && creation.value < current then [Violation(path, PredatesCurrent(creation.value, current))]
      else [Violation(path, YearNotCurrent(current))]
    else if Known(creation) && creation.value < current then [Violation(path, EarlierCreation(creation.value, current))]
    else []
  }

  function When(b: bool, v: Violation): seq<Violation> {
    if b then [v] else []
  }

  /** Date rules of a modified file with a range: four independent checks,
      each adding its own violation. */
  function RangeRules(path: string, start: int, end: int, creation: Option<int>, current: int): (r: seq<Violation>)
    ensures r == [] <==> ModifiedCompliant(YearField(start, Some(end)), creation, current)
    ensures forall v :: v in r ==> v.path == path && v.kind.IsYearKind()
  {
    When(start > end, Violation(path, RangeReversed(start, end))) +
    When(end != current, Violation(path, RangeEndStale(start, current))) +
    (if Known(creation) && start != creation.value
     then [Violation(path, RangeStartNotCreation(creation.value, end))] else []) +
    When(start == end, Violation(path, RangeIdentical(start)))
  }

  /** The four range checks are independent and cumulative: each violation is
      reported exactly when its own condition holds, whatever the others do. */
  lemma RangeChecksIndependent(path: string, start: int, end: int, creation: Option<int>, current: int)
    ensures Violation(path, RangeReversed(start, end)) in RangeRules(path, start, end, creation, current) <==> start > end
    ensures Violation(path, RangeEndStale(start, current)) in RangeRules(path, start, end, creation, current) <==> end != current
    ensures (exists v :: v in RangeRules(path, start, end, creation, current) && v.kind.RangeStartNotCreation?)
            <==> Known(creation) && start != creation.value
    ensures Violation(path, RangeIdentical(start)) in RangeRules(path, start, end, creation, current) <==> start == end
    ensures |RangeRules(path, start, end, creation, current)| ==
            (if start > end then 1 else 0) + (if end != current then 1 else 0) +
            (if Known(creation) && start != creation.value then 1 else 0) + (if start == end then 1 else 0)
  {
    var r := RangeRules(path, start, end, creation, current);
    var a := When(start > end, Violation(path, RangeReversed(start, end)));
    var b := When(end != current, Violation(path, RangeEndStale(start, current)));
    var c := if Known(creation) && start != creation.value
             then [Violation(path, RangeStartNotCreation(creation.value, end))] else [];
    var d := When(start == end, Violation(path, RangeIdentical(start)));
    assert r == a + b + c + d;
    ConcatFour(a, b, c, d);
  }

  /** The start-not-creation violation carries the creation year and the
      range's end year, the range its message proposes. */
  lemma RangeStartNotCreationYears(path: string, start: int, end: int, creation: Option<int>, current: int)
    ensures Known(creation) ==>
              (Violation(path, RangeStartNotCreation(creation.value, end)) in RangeRules(path, start, end, creation, current)
               <==> start != creation.value)
    ensures forall v :: v in RangeRules(path, start, end, creation, current) && v.kind.RangeStartNotCreation? ==>
              Known(creation) && v.kind == RangeStartNotCreation(creation.value, end)
  {
    var a := When(start > end, Violation(path, RangeReversed(start, end)));
    var b := When(end != current, Violation(path, RangeEndStale(start, current)));
    var c := if Known(creation) && start != creation.value
             then [Violation(path, RangeStartNotCreation(creation.value, end))] else [];
    var d := When(start == end, Violation(path, RangeIdentical(start)));
    assert RangeRules(path, start, end, creation, current) == a + b + c + d;
    ConcatFour(a, b, c, d);
  }

  /** The violations of a list come in strictly increasing `rank`, so no
      rank is reported twice. */
  predicate InOrder(r: seq<Violation>, rank: Kind -> nat) {
    forall i, j :: 0 <= i < j < |r| ==> rank(r[i].kind) < rank(r[j].kind)
  }

  function RangeRank(k: Kind): nat {
    k.RangeOrder()
  }

  function FormatRank(k: Kind): nat {
    k.FormatOrder()
  }

  /** The range checks report in the order the code runs them: reversed,
      stale end, start not the creation year, identical. */
  lemma RangeChecksInOrder(path: string, start: int, end: int, creation: Option<int>, current: int)
    ensures InOrder(RangeRules(path, start, end, creation, current), RangeRank)
  {
    var a := When(start > end, Violation(path, RangeReversed(start, end)));
    var b := When(end != current, Violation(path, RangeEndStale(start, current)));
    var c := if Known(creation) && start != creation.value
             then [Violation(path, RangeStartNotCreation(creation.value, end))] else [];
    var d := When(start == end, Violation(path, RangeIdentical(start)));
    assert RangeRules(path, start, end, creation, current) == a + b + c + d;
    FourInOrder(a, b, c, d, RangeRank);
  }

  /** Four lists of at most one violation each, of ranks 0 to 3 in turn,
      concatenate to a list in order. */
  lemma FourInOrder(a: seq<Violation>, b: seq<Violation>, c: seq<Violation>, d: seq<Violation>, rank: Kind -> nat)
    requires |a| <= 1 && |b| <= 1 && |c| <= 1 && |d| <= 1
    requires forall v :: v in a ==> rank(v.kind) == 0
    requires forall v :: v in b ==> rank(v.kind) == 1
    requires forall v :: v in c ==> rank(v.kind) == 2
    requires forall v :: v in d ==> rank(v.kind) == 3
    ensures InOrder(a + b + c + d, rank)
  {
    InOrderAppend([], a, 0, rank);
    assert [] + a == a;
    InOrderAppend(a, b, 1, rank);
    InOrderAppend(a + b, c, 2, rank);
    InOrderAppend(a + b + c, d, 3, rank);
  }

  /** Appending at most one violation of a rank above all of `a`'s keeps the
      order. */
  lemma InOrderAppend(a: seq<Violation>, b: seq<Violation>, k: nat, rank: Kind -> nat)
    requires InOrder(a, rank) && |b| <= 1
    requires forall v :: v in a ==> rank(v.kind) < k
    requires forall v :: v in b ==> rank(v.kind) == k
    ensures InOrder(a + b, rank)
    ensures forall v :: v in a + b ==> rank(v.kind) <= k
  {
    forall i, j | 0 <= i < j < |a + b|
      ensures rank((a + b)[i].kind) < rank((a + b)[j].kind)
    {
      if j < |a| {
        assert (a + b)[i] == a[i] && (a + b)[j] == a[j];
      } else {
        assert (a + b)[i] == a[i] && (a + b)[j] == b[j - |a|];
        assert a[i] in a && b[j - |a|] in b;
      }
    }
  }

  lemma ConcatFour<T>(a: seq<T>, b: seq<T>, c: seq<T>, d: seq<T>)
    ensures forall v :: v in a + b + c + d <==> v in a || v in b || v in c || v in d
    ensures |a + b + c + d| == |a| + |b| + |c| + |d|
  {
  }

  function ModifiedYearRules(path: string, y: YearField, creation: Option<int>, current: int): (r: seq<Violation>)
    ensures r == [] <==> ModifiedCompliant(y, creation, current)
    ensures forall v :: v in r ==> v.path == path && v.kind.IsYearKind()
  {
    match y.end
    case None => SingleYearRules(path, y.start, creation, current)
    case Some(e) => RangeRules(path, y.start, e, creation, current)
  }

  /** What `validate_modified_file` appends. */
  function ModifiedFileRules(path: string, yearsField: Option<string>, licenseOk: bool,
                             creation: Option<int>, current: int): (r: seq<Violation>)
    requires yearsField.Some? ==> IsYearToken(yearsField.value)
    ensures yearsField.None? ==> r == []
    ensures r == [] <==> yearsField.None? || (licenseOk && ModifiedCompliant(ParseYears(yearsField.value), creation, current))
    ensures yearsField.Some? ==> (Violation(path, MissingLicense) in r <==> !licenseOk)
    ensures yearsField.Some? ==> multiset(r)[Violation(path, MissingLicense)] == (if licenseOk then 0 else 1)
    ensures forall v :: v in r ==> v.path == path
    ensures yearsField.Some? ==>
              var years := ModifiedYearRules(path, ParseYears(yearsField.value), creation, current);
              |r| == |years| + (if licenseOk then 0 else 1) && r[..|years|] == years
  {
    match yearsField
    case None => []
    case Some(f) => ModifiedYearRules(path, ParseYears(f), creation, current) + LicenseRule(path, licenseOk)
  }

  /** `validate_new_file`: appends the new-file violations to the caller's list. */
  method ValidateNewFile(path: string, yearsField: Option<string>, licenseOk: bool, currentYear: int,
                         violations: ViolationList)
    requires yearsField.Some? ==> IsYearToken(yearsField.value)
    modifies violations
    ensures violations.items == old(violations.items) + NewFileRules(path, yearsField, licenseOk, currentYear)
  {
    if yearsField.None? {
      return;
    }
    var years := ParseYears(yearsField.value);
    ghost var before := violations.items;
    if years.end.Some? {
      violations.Append(Violation(path, NewFileRange(currentYear)));
    } else if years.start != currentYear {
      violations.Append(Violation(path, NewFileYear(currentYear)));
    }
    assert violations.items == before + NewFileYearRules(path, years, currentYear);
    if !licenseOk {
      violations.Append(Violation(path, MissingLicense));
    }
    assert violations.items == before + (NewFileYearRules(path, years, currentYear) + LicenseRule(path, licenseOk));
  }

  /** `validate_modified_file`: appends the modified-file violations to the
      caller's list. */
  method ValidateModifiedFile(path: string, yearsField: Option<string>, licenseOk: bool,
                              creationYear: Option<int>, currentYear: int, violations: ViolationList)
    requires yearsField.Some? ==> IsYearToken(yearsField.value)
    modifies violations
    ensures violations.items == old(violations.items) +
                                ModifiedFileRules(path, yearsField, licenseOk, creationYear, currentYear)
  {
    if yearsField.None? {
      return;
    }
    var years := ParseYears(yearsField.value);
    ghost var before := violations.items;
    if years.end.None? {
      CheckSingleYear(path, years.start, creationYear, currentYear, violations);
    } else {
      CheckRange(path, years.start, years.end.value, creationYear, currentYear, violations);
    }
    assert violations.items == before + ModifiedYearRules(path, years, creationYear, currentYear);
    if !licenseOk {
      violations.Append(Violation(path, MissingLicense));
    }
    assert violations.items == before + (ModifiedYearRules(path, years, creationYear, currentYear) +
                                         LicenseRule(path, licenseOk));
  }

  /** The single-year branch of `validate_modified_file`. */
  method CheckSingleYear(path: string, start: int, creationYear: Option<int>, currentYear: int,
                         violations: ViolationList)
    modifies violations
    ensures violations.items == old(violations.items) + SingleYearRules(path, start, creationYear, currentYear)
  {
    var known := creationYear.Some? && creationYear.value != 0;
    if start != currentYear {
      if known && creationYear.value < currentYear {
        violations.Append(Violation(path, PredatesCurrent(creationYear.value, currentYear)));
      } else {
        violations.Append(Violation(path, YearNotCurrent(currentYear)));
      }
    } else if known && creationYear.value < currentYear {
      violations.Append(Violation(path, EarlierCreation(creationYear.value, currentYear)));
    }
  }

  /** The range branch of `validate_modified_file`. */
  method CheckRange(path: string, start: int, end: int, creationYear: Option<int>, currentYear: int,
                    violations: ViolationList)
    modifies violations
    ensures violations.items == old(violations.items) + RangeRules(path, start, end, creationYear, currentYear)
  {
    var known := creationYear.Some? && creationYear.value != 0;
    ghost var before := violations.items;
    if start > end {
      violations.Append(Violation(path, RangeReversed(start, end)));
    }
    ghost var reversed := When(start > end, Violation(path, RangeReversed(start, end)));
    assert violations.items == before + reversed;
    if end != currentYear {
      violations.Append(Violation(path, RangeEndStale(start, currentYear)));
    }
    ghost var stale := When(end != currentYear, Violation(path, RangeEndStale(start, currentYear)));
    assert violations.items == before + reversed + stale;
    if known && start != creationYear.value {
      violations.Append(Violation(path, RangeStartNotCreation(creationYear.value, end)));
    }
    ghost var notCreation := if known && start != creationYear.value
                             then [Violation(path, RangeStartNotCreation(creationYear.value, end))] else [];
    assert violations.items == before + reversed + stale + notCreation;
    if start == end {
      violations.Append(Violation(path, RangeIdentical(start)));
    }
    ghost var identical := When(start == end, Violation(path, RangeIdentical(start)));
    assert violations.items == before + reversed + stale + notCreation + identical;
    assert RangeRules(path, start, end, creationYear, currentYear) == reversed + stale + notCreation + identical;
    Assoc4(before, reversed, stale, notCreation, identical);
  }

  lemma Assoc4<T>(s: seq<T>, a: seq<T>, b: seq<T>, c: seq<T>, d: seq<T>)
    ensures s + a + b + c + d == s + (a + b + c + d)
  {
  }
}
