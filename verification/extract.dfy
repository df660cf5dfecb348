/**
 * `extract_header_lines`: find the copyright line and the license line
 * among the first ten lines of a file.
 */
module Extract {
  import opened Wrappers
  import opened Text
  import opened Patterns

  /** At most this many lines are read from the top of a file. */
  const MaxLines: nat := 10

  /** The characters stripped from both ends of each line read: the
      byte-order mark and the line-end characters. */
  predicate IsBomOrEol(c: char) {
    c == '\U{FEFF}' || c == '\n' || c == '\r'
  }

  /** A line as read, with a byte-order mark and line-end characters removed
      from both ends. */
  function Clean(raw: string): (line: string)
    ensures |line| <= |raw|
    ensures line == [] <==> forall i :: 0 <= i < |raw| ==> IsBomOrEol(raw[i])
    ensures line != [] ==> !IsBomOrEol(line[0]) && !IsBomOrEol(line[|line| - 1])
    ensures exists a, b :: 0 <= a <= b <= |raw| && line == raw[a..b] &&
              (forall i :: 0 <= i < a ==> IsBomOrEol(raw[i])) && (forall i :: b <= i < |raw| ==> IsBomOrEol(raw[i]))
  {
    StripBySlice(raw, IsBomOrEol);
    StripBy(raw, IsBomOrEol)
  }

  /** `not line.strip()` for the cleaned line. */
  predicate IsBlankLine(raw: string) {
    Strip(Clean(raw)) == []
  }

  predicate IsHeaderLine(raw: string) {
    MatchHeader(Clean(raw)).Some?
  }

  predicate IsLicenseLine(raw: string) {
    MatchLicense(Clean(raw)).Some?
  }

  /** Number of lines the scan looks at: the first ten at most, and none from
      the end of the file (the empty string `readline` returns there) on. */
  function ScanLimit(lines: seq<string>): (n: nat)
    ensures n <= |lines| && n <= MaxLines
    ensures forall k :: 0 <= k < n ==> lines[k] != ""
    ensures n < |lines| && n < MaxLines ==> lines[n] == ""
  {
    ScanFrom(lines, 0)
  }

  function ScanFrom(lines: seq<string>, i: nat): (n: nat)
    requires i <= |lines| && i <= MaxLines
    requires forall k :: 0 <= k < i ==> lines[k] != ""
    ensures i <= n <= |lines| && n <= MaxLines
    ensures forall k :: 0 <= k < n ==> lines[k] != ""
    ensures n < |lines| && n < MaxLines ==> lines[n] == ""
    decreases MaxLines - i
  {
    if i < |lines| && i < MaxLines && lines[i] != "" then ScanFrom(lines, i + 1) else i
  }

  /** The first index in `[lo, hi)` whose line satisfies `p`. */
  function FirstMatching(lines: seq<string>, lo: nat, hi: nat, p: string -> bool): (r: Option<nat>)
    requires lo <= hi <= |lines|
    decreases hi - lo
    ensures r.Some? ==> lo <= r.value < hi && p(lines[r.value])
    ensures r.Some? ==> (forall k :: lo <= k < r.value ==> !p(lines[k]))
    ensures r.None? ==> (forall k :: lo <= k < hi ==> !p(lines[k]))
  {
    if lo == hi then None
    else if p(lines[lo]) then Some(lo)
    else FirstMatching(lines, lo + 1, hi, p)
  }

  datatype HeaderLines = HeaderLines(header: Option<string>, license: Option<string>)

  /** Indices of the copyright line and of the license line the scan picks. */
  datatype Found = Found(header: Option<nat>, license: Option<nat>)

  /** The first line of the window `[0, n)` that `isHeader` accepts, and the
      first line after it within the window that `isLicense` accepts. */
  function Locate(lines: seq<string>, n: nat, isHeader: string -> bool, isLicense: string -> bool): (f: Found)
    requires n <= |lines|
    ensures f.license.Some? ==> f.header.Some? && f.header.value < f.license.value < n
    ensures f.header.Some? ==> f.header.value < n && isHeader(lines[f.header.value])
    ensures f.license.Some? ==> isLicense(lines[f.license.value])
    ensures f.header.None? ==> forall k :: 0 <= k < n ==> !isHeader(lines[k])
    ensures f.header.Some? ==> forall k :: 0 <= k < f.header.value ==> !isHeader(lines[k])
    ensures f.header.Some? && f.license.None? ==> forall k :: f.header.value < k < n ==> !isLicense(lines[k])
    ensures f.license.Some? ==> forall k :: f.header.value < k < f.license.value ==> !isLicense(lines[k])
  {
    match FirstMatching(lines, 0, n, isHeader)
    case None => Found(None, None)
    case Some(h) => Found(Some(h), FirstMatching(lines, h + 1, n, isLicense))
  }

  /** What the scan finds: the first copyright line of the window, and the
      first license line after it within the window, both cleaned. */
  function HeaderScan(lines: seq<string>): (r: HeaderLines)
    ensures r.license.Some? ==> r.header.Some?
    ensures r.header.Some? ==> MatchHeader(r.header.value).Some?
    ensures r.license.Some? ==> MatchLicense(r.license.value).Some?
    ensures forall k :: 0 <= k < ScanLimit(lines) && IsHeaderLine(lines[k]) ==> r.header.Some?
  {
    var f := Locate(lines, ScanLimit(lines), IsHeaderLine, IsLicenseLine);
    HeaderLines(if f.header.Some? then Some(Clean(lines[f.header.value])) else None,
                if f.license.Some? then Some(Clean(lines[f.license.value])) else None)
  }

  /** `extract_header_lines`; `content` is what ten `readline` calls return,
      or `None` when the file is missing or not UTF-8. */
  method ExtractHeaderLines(content: Option<seq<string>>) returns (header: Option<string>, license: Option<string>)
    ensures content.None? ==> header.None? && license.None?
    ensures content.Some? ==> HeaderLines(header, license) == HeaderScan(content.value)
  {
    if content.None? {
      return None, None;
    }
    forall raw | IsBlankLine(raw)
      ensures !IsHeaderLine(raw) && !IsLicenseLine(raw)
    {
      NotMatchedWhenBlank(Clean(raw));
    }
    forall raw | IsHeaderLine(raw)
      ensures Clean(raw) != ""
    {
      MatchedLineNotBlank(Clean(raw));
    }
    header, license := ScanLines(content.value, Clean, IsBlankLine, IsHeaderLine, IsLicenseLine);
  }

  /** The loop of `extract_header_lines`, with the line cleaning, the
      blank-line test and the two line patterns (each applied to the cleaned
      line) as parameters. */
  method ScanLines(lines: seq<string>, clean: string -> string, isBlank: string -> bool,
                   isHeader: string -> bool, isLicense: string -> bool)
    returns (header: Option<string>, license: Option<string>)
    requires forall raw :: isBlank(raw) ==> !isHeader(raw) && !isLicense(raw)
    requires forall raw :: isHeader(raw) ==> clean(raw) != ""
    ensures var f := Locate(lines, ScanLimit(lines), isHeader, isLicense);
            header == (if f.header.Some? then Some(clean(lines[f.header.value])) else None) &&
            license == (if f.license.Some? then Some(clean(lines[f.license.value])) else None)
  {
    header := None;
    license := None;
    ghost var n := ScanLimit(lines);
    ghost var h: nat := 0;
    ghost var l: nat := 0;
    var i := 0;
    while i < |lines| && i < MaxLines
      invariant i <= n
      invariant license.None?
      invariant header.None? ==> forall k :: 0 <= k < i ==> !isHeader(lines[k])
      invariant header.Some? ==> h < i && isHeader(lines[h]) && header.value == clean(lines[h])
      invariant header.Some? ==> forall k :: 0 <= k < h ==> !isHeader(lines[k])
      invariant header.Some? ==> forall k :: h < k < i ==> !isLicense(lines[k])
    {
      var rawLine := lines[i];
      if rawLine == "" {
        break;
      }
      if isBlank(rawLine) {
        i := i + 1;
        continue;
      }
      if header.None? && isHeader(rawLine) {
        header := Some(clean(rawLine));
        h := i;
        i := i + 1;
        continue;
      }
      if header.Some? && header.value != "" && license.None? && isLicense(rawLine) {
        license := Some(clean(rawLine));
        l := i;
        break;
      }
      i := i + 1;
    }
    if license.Some? {
      LocateBoth(lines, n, isHeader, isLicense, h, l);
    } else {
      assert i == n;
      if header.Some? {
        LocateHeaderOnly(lines, n, isHeader, isLicense, h);
      } else {
        LocateNothing(lines, n, isHeader, isLicense);
      }
    }
  }

  lemma NotMatchedWhenBlank(line: string)
    requires Strip(line) == []
    ensures MatchHeader(line).None? && MatchLicense(line).None?
  {
    BlankIffAllSpace(line);
    if MatchHeader(line).Some? || MatchLicense(line).Some? {
      MatchedLineNotBlank(line);
    }
  }

  /** `FirstMatching` finds exactly the first satisfying index. */
  lemma FirstMatchingIs(lines: seq<string>, lo: nat, hi: nat, p: string -> bool, j: nat)
    requires lo <= j < hi <= |lines| && p(lines[j])
    requires forall k :: lo <= k < j ==> !p(lines[k])
    ensures FirstMatching(lines, lo, hi, p) == Some(j)
  {
  }

  lemma LocateNothing(lines: seq<string>, n: nat, isHeader: string -> bool, isLicense: string -> bool)
    requires n <= |lines|
    requires forall k :: 0 <= k < n ==> !isHeader(lines[k])
    ensures Locate(lines, n, isHeader, isLicense) == Found(None, None)
  {
  }

  lemma LocateHeaderOnly(lines: seq<string>, n: nat, isHeader: string -> bool, isLicense: string -> bool, h: nat)
    requires h < n <= |lines| && isHeader(lines[h])
    requires forall k :: 0 <= k < h ==> !isHeader(lines[k])
    requires forall k :: h < k < n ==> !isLicense(lines[k])
    ensures Locate(lines, n, isHeader, isLicense) == Found(Some(h), None)
  {
    FirstMatchingIs(lines, 0, n, isHeader, h);
  }

  lemma LocateBoth(lines: seq<string>, n: nat, isHeader: string -> bool, isLicense: string -> bool, h: nat, l: nat)
    requires h < l < n <= |lines| && isHeader(lines[h]) && isLicense(lines[l])
    requires forall k :: 0 <= k < h ==> !isHeader(lines[k])
    requires forall k :: h < k < l ==> !isLicense(lines[k])
    ensures Locate(lines, n, isHeader, isLicense) == Found(Some(h), Some(l))
  {
    FirstMatchingIs(lines, 0, n, isHeader, h);
    FirstMatchingIs(lines, h + 1, n, isLicense, l);
  }

  /** The scan reads no line past its window: cutting the file there changes
      nothing it finds. */
  lemma {:induction false} ScanReadsOnlyWindow(lines: seq<string>)
    ensures HeaderScan(lines) == HeaderScan(lines[..ScanLimit(lines)])
  {
    var n := ScanLimit(lines);
    var w := lines[..n];
    ScanFromPrefix(lines, w, 0, n);
    assert ScanLimit(w) == n;
    var f := Locate(lines, n, IsHeaderLine, IsLicenseLine);
    LocatePrefix(lines, w, n, IsHeaderLine, IsLicenseLine);
    assert f == Locate(w, ScanLimit(w), IsHeaderLine, IsLicenseLine);
    if f.header.Some? {
      assert w[f.header.value] == lines[f.header.value];
    }
    if f.license.Some? {
      assert w[f.license.value] == lines[f.license.value];
    }
  }

  /** `Locate` looks at no line past its window. */
  lemma LocatePrefix(lines: seq<string>, w: seq<string>, n: nat, isHeader: string -> bool, isLicense: string -> bool)
    requires n <= |lines| && w == lines[..n]
    ensures Locate(lines, n, isHeader, isLicense) == Locate(w, n, isHeader, isLicense)
  {
    FirstMatchingPrefix(lines, w, 0, n, isHeader);
    match FirstMatching(lines, 0, n, isHeader)
    case None =>
    case Some(h) =>
      FirstMatchingPrefix(lines, w, h + 1, n, isLicense);
  }

  lemma {:induction false} ScanFromPrefix(lines: seq<string>, w: seq<string>, i: nat, n: nat)
    requires n == ScanLimit(lines) && w == lines[..n] && i <= n
    requires forall k :: 0 <= k < i ==> w[k] != ""
    ensures ScanFrom(w, i) == n
    decreases n - i
  {
    if i < n {
      ScanFromPrefix(lines, w, i + 1, n);
    }
  }

  lemma {:induction false} FirstMatchingPrefix(lines: seq<string>, w: seq<string>, lo: nat, hi: nat, p: string -> bool)
    requires lo <= hi <= |w| <= |lines| && w == lines[..|w|]
    decreases hi - lo
    ensures FirstMatching(lines, lo, hi, p) == FirstMatching(w, lo, hi, p)
  {
    if lo < hi {
      FirstMatchingPrefix(lines, w, lo + 1, hi, p);
    }
  }
}
