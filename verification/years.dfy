/**
 * The year field of a copyright line: a four-digit year `YYYY` or a range
 * `YYYY-YYYY`, split into integers by `parse_years`.
 */
module Years {
  import opened Wrappers

  /** `\d`, read as an ASCII decimal digit. */
  predicate IsDigit(c: char) {
    '0' <= c <= '9'
  }

  predicate IsDigits4(s: string) {
    |s| == 4 && IsDigit(s[0]) && IsDigit(s[1]) && IsDigit(s[2]) && IsDigit(s[3])
  }

  /** The text the `years` group of the copyright pattern accepts: `\d{4}(?:-\d{4})?`. */
  predicate IsYearToken(s: string) {
    IsDigits4(s) || (|s| == 9 && IsDigits4(s[..4]) && s[4] == '-' && IsDigits4(s[5..]))
  }

  /** A parsed year field: the start year, and the end year of a range. */
  datatype YearField = YearField(start: int, end: Option<int>)

  function DigitValue(c: char): int
    requires IsDigit(c)
  {
    c as int - '0' as int
  }

  /** `int(s)` for four ASCII digits. */
  function Value4(s: string): (n: int)
    requires IsDigits4(s)
    ensures 0 <= n < 10000
  {
    1000 * DigitValue(s[0]) + 100 * DigitValue(s[1]) + 10 * DigitValue(s[2]) + DigitValue(s[3])
  }

  /** `parse_years`: a field holding a hyphen is cut at it into start and end
      years, any other field is a single year. */
  function ParseYears(field: string): (y: YearField)
    requires IsYearToken(field)
    ensures 0 <= y.start < 10000
    ensures y.end.Some? <==> '-' in field
    ensures y.end.Some? ==> 0 <= y.end.value < 10000
  {
    if '-' in field then YearField(Value4(field[..4]), Some(Value4(field[5..])))
    else YearField(Value4(field), None)
  }

  function DigitChar(d: int): (c: char)
    requires 0 <= d < 10
    ensures IsDigit(c) && DigitValue(c) == d
  {
    ('0' as int + d) as char
  }

  /** A year written with four digits, as it stands in a year field. */
  function Pad4(n: int): (s: string)
    requires 0 <= n < 10000
    ensures IsDigits4(s)
  {
    [DigitChar(n / 1000), DigitChar(n / 100 % 10), DigitChar(n / 10 % 10), DigitChar(n % 10)]
  }

  predicate InRange(y: YearField) {
    0 <= y.start < 10000 && (y.end.Some? ==> 0 <= y.end.value < 10000)
  }

  /** The year field a header should carry: `start` or `start-end`. */
  function FormatYears(y: YearField): (s: string)
    requires InRange(y)
    ensures IsYearToken(s)
  {
    match y.end
    case None => Pad4(y.start)
    case Some(e) => Pad4(y.start) + "-" + Pad4(e)
  }

  lemma Pad4Value(n: int)
    requires 0 <= n < 10000
    ensures Value4(Pad4(n)) == n
  {
    var q1 := n / 10;
    var q2 := q1 / 10;
    var q3 := q2 / 10;
    var b, c, d := q2 % 10, q1 % 10, n % 10;
    assert n == 10 * q1 + d;
    assert q1 == 10 * q2 + c;
    assert q2 == 10 * q3 + b;
    assert n == 100 * q2 + (10 * c + d);
    assert n / 100 == q2;
    assert n == 1000 * q3 + (100 * b + 10 * c + d);
    assert n / 1000 == q3;
  }

  lemma ValuePad4(s: string)
    requires IsDigits4(s)
    ensures Pad4(Value4(s)) == s
  {
    var n := Value4(s);
    var a, b, c, d := DigitValue(s[0]), DigitValue(s[1]), DigitValue(s[2]), DigitValue(s[3]);
    assert n == 1000 * a + (100 * b + 10 * c + d);
    assert n / 1000 == a;
    assert n == 100 * (10 * a + b) + (10 * c + d);
    assert n / 100 == 10 * a + b;
    assert (10 * a + b) % 10 == b;
    assert n == 10 * (100 * a + 10 * b + c) + d;
    assert n / 10 == 100 * a + 10 * b + c;
    assert (100 * a + 10 * b + c) % 10 == c;
    assert n % 10 == d;
    assert DigitChar(a) == s[0] && DigitChar(b) == s[1] && DigitChar(c) == s[2] && DigitChar(d) == s[3];
  }

  /** Formatting a parsed pair back gives the parsed field's text again. */
  lemma FormatParse(field: string)
    requires IsYearToken(field)
    ensures InRange(ParseYears(field)) && FormatYears(ParseYears(field)) == field
  {
    if '-' in field {
      if IsDigits4(field) {
        assert forall i :: 0 <= i < 4 ==> field[i] != '-';
        assert false;
      }
      ValuePad4(field[..4]);
      ValuePad4(field[5..]);
      assert field == field[..4] + "-" + field[5..];
    } else {
      ValuePad4(field);
    }
  }

  /** Parsing a formatted pair gives the pair again. */
  lemma ParseFormat(y: YearField)
    requires InRange(y)
    ensures ParseYears(FormatYears(y)) == y
  {
    var s := FormatYears(y);
    Pad4Value(y.start);
    match y.end
    case None =>
      assert '-' !in s by {
        forall i | 0 <= i < 4 ensures s[i] != '-' { }
      }
    case Some(e) =>
      Pad4Value(e);
      assert s[4] == '-';
      assert s[..4] == Pad4(y.start);
      assert s[5..] == Pad4(e);
  }

  /** `str(n)` for an integer: its decimal digits without leading zeros,
      after a minus sign when it is negative. */
  function DecimalText(n: int): (s: string)
    ensures s != []
    ensures n >= 0 <==> IsDigit(s[0])
    decreases if n < 0 then 1 - n else n
  {
    if n < 0 then "-" + DecimalText(-n)
    else if n < 10 then [DigitChar(n)]
    else DecimalText(n / 10) + [DigitChar(n % 10)]
  }

  /** A year from 1000 to 9999 is written by `str` with exactly four digits. */
  lemma {:induction false} DecimalIsPad4(n: int)
    requires 1000 <= n < 10000
    ensures DecimalText(n) == Pad4(n)
  {
    var q1 := n / 10;
    var q2 := q1 / 10;
    var q3 := q2 / 10;
    assert n == 100 * q2 + (10 * (q1 % 10) + n % 10);
    assert n / 100 == q2;
    assert n == 1000 * q3 + (100 * (q2 % 10) + 10 * (q1 % 10) + n % 10);
    assert n / 1000 == q3;
    assert 1 <= q3 < 10 && 10 <= q2 && 100 <= q1;
    assert DecimalText(q2) == [DigitChar(q3), DigitChar(q2 % 10)];
  }

  /** A year below 1000 is written by `str` with fewer than four digits. */
  lemma {:induction false} DecimalShortBelow1000(n: int)
    requires 0 <= n < 1000
    ensures |DecimalText(n)| < 4
  {
    if n >= 10 {
      DecimalShortBelow100(n / 10);
    }
  }

  lemma {:induction false} DecimalShortBelow100(n: int)
    requires 0 <= n < 100
    ensures |DecimalText(n)| < 3
  {
    if n >= 10 {
      assert n / 10 < 10;
    }
  }

  /** Both ends of the field lie in 1000..9999, where `str` writes four digits. */
  predicate FourDigitYears(y: YearField) {
    1000 <= y.start < 10000 && (y.end.Some? ==> 1000 <= y.end.value < 10000)
  }

  /** The year text a proposed header is built from: `f"{start}"` or
      `f"{start}-{end}"`. */
  function YearsText(y: YearField): string {
    match y.end
    case None => DecimalText(y.start)
    case Some(e) => DecimalText(y.start) + "-" + DecimalText(e)
  }

  /** Where every year has four digits, the proposed text is the field the
      pattern accepts, and it parses back to the same years. */
  lemma YearsTextIsField(y: YearField)
    requires FourDigitYears(y)
    ensures YearsText(y) == FormatYears(y)
    ensures IsYearToken(YearsText(y)) && ParseYears(YearsText(y)) == y
  {
    DecimalIsPad4(y.start);
    if y.end.Some? {
      DecimalIsPad4(y.end.value);
    }
    ParseFormat(y);
  }

  /** A proposed year below 1000 is written too short to be a year field. */
  lemma ShortYearNotField(y: YearField)
    requires 0 <= y.start < 1000
    ensures !IsYearToken(YearsText(y))
  {
    var t := DecimalText(y.start);
    DecimalShortBelow1000(y.start);
    match y.end
    case None =>
    case Some(e) =>
      var s := YearsText(y);
      if |s| == 9 {
        assert s[|t|] == '-';
        assert s[..4][|t|] == '-';
      }
  }
}
