/**
 * The two line shapes of an SPDX header, `HEADER_REGEX` and `LICENSE_REGEX`,
 * written as explicit matchers.  Each matcher returns the whole
 * decomposition of the line (comment prefix, the whitespace runs, the
 * captured fields, the line end), so that its result can be rendered back.
 *
 * Regular-expression semantics modelled: matching is anchored at the start
 * (`re.match`), `\s` is `Text.IsSpace`, `\d` an ASCII digit, `.` any
 * character but a newline, and `$` matches at the end of the text or just
 * before a final newline.  Quantifiers are greedy and backtrack.
 */
module Patterns {
  import opened Wrappers
  import opened Text
  import opened Years

  const CopyrightTag := "SPDX-FileCopyrightText:"
  const LicenseTag := "SPDX-License-Identifier:"

  predicate IsCommentPrefix(p: string) {
    p == "//" || p == "#"
  }

  predicate IsEol(e: string) {
    e == "" || e == "\n"
  }

  /** A copyright line cut into the pieces `HEADER_REGEX` sees:
      prefix, `\s*`, the tag, `\s*`, years, `\s+`, holder, and what `$` leaves. */
  datatype HeaderParts = HeaderParts(
    prefix: string, gap1: string, gap2: string, years: string,
    gap3: string, holder: string, eol: string)
  {
    predicate WellFormed() {
      IsCommentPrefix(prefix) && AllSpace(gap1) && AllSpace(gap2) && IsYearToken(years) &&
      |gap3| >= 1 && AllSpace(gap3) && |holder| >= 1 && NoNewline(holder) && IsEol(eol)
    }

    function Render(): string {
      prefix + gap1 + CopyrightTag + gap2 + years + gap3 + holder + eol
    }
  }

  /** A license line cut into the pieces `LICENSE_REGEX` sees:
      prefix, `\s*`, the tag, `\s*`, the license expression, and the line end. */
  datatype LicenseParts = LicenseParts(
    prefix: string, gap1: string, gap2: string, license: string, eol: string)
  {
    predicate WellFormed() {
      IsCommentPrefix(prefix) && AllSpace(gap1) && AllSpace(gap2) &&
      |license| >= 1 && !IsSpace(license[0]) && NoNewline(license) && IsEol(eol)
    }

    function Render(): string {
      prefix + gap1 + LicenseTag + gap2 + license + eol
    }
  }

  /** `(?P<prefix>//|#)` at the start of the text. */
  function MatchPrefix(s: string): (r: Option<string>)
    ensures r.Some? ==> IsCommentPrefix(r.value) && r.value <= s
  {
    if |s| >= 2 && s[..2] == "//" then Some("//")
    else if |s| >= 1 && s[0] == '#' then Some("#")
    else None
  }

  function SpaceRun(s: string): (n: nat)
    ensures n <= |s| && AllSpace(s[..n])
    ensures n < |s| ==> !IsSpace(s[n])
  {
    LeadRun(s, IsSpace)
  }

  /** Length of the longest run of non-newline characters at the start. */
  function LineRun(s: string): (n: nat)
    ensures n <= |s| && NoNewline(s[..n])
    ensures n < |s| ==> s[n] == '\n'
  {
    LeadRun(s, NotNewline)
  }

  predicate NotNewline(c: char) {
    c != '\n'
  }

  /** `.{min,}$` at the start of `u`: the length of the text `.` consumes,
      which must leave nothing or a final newline. */
  function DotsToEnd(u: string, min: nat): (r: Option<nat>)
    ensures r.Some? ==> min <= r.value <= |u| && NoNewline(u[..r.value]) && IsEol(u[r.value..])
  {
    var m := LineRun(u);
    if min <= m && IsEol(u[m..]) then Some(m) else None
  }

  /** Backtracking of `\s+(?P<holder>.+)$`: the longest whitespace run, of
      length at most `j`, after which the rest of the line is a holder. */
  function TailFrom(t: string, j: nat): (r: Option<nat>)
    requires j <= |t|
    ensures r.Some? ==> 1 <= r.value <= j && DotsToEnd(t[r.value..], 1).Some?
    ensures r.Some? ==> forall k :: r.value < k <= j ==> DotsToEnd(t[k..], 1).None?
    ensures r.None? ==> forall k :: 1 <= k <= j ==> DotsToEnd(t[k..], 1).None?
    decreases j
  {
    if j == 0 then None
    else if DotsToEnd(t[j..], 1).Some? then Some(j)
    else TailFrom(t, j - 1)
  }

  /** The length `\d{4}(?:-\d{4})?` takes at the start of `t` (0: no match).
      The optional range is tried first; when it is taken the character after
      the first four digits is `-`, which is not whitespace, so falling back
      to four digits can never let `\s+` match: no other choice is needed. */
  function YearsLength(t: string): (n: nat)
    ensures n <= |t| && (n == 0 || n == 4 || n == 9)
    ensures n > 0 ==> IsYearToken(t[..n])
  {
    if |t| >= 4 && IsDigits4(t[..4]) then
      if |t| >= 9 && t[4] == '-' && IsDigits4(t[5..9]) then
        assert t[..9][..4] == t[..4] && t[..9][5..] == t[5..9];
        9
      else 4
    else 0
  }

  /** What the two patterns share: `^(?P<prefix>//|#)\s*<tag>\s*`, with the
      text that follows. */
  datatype Lead = Lead(prefix: string, gap1: string, gap2: string, rest: string)

  function MatchLead(s: string, tag: string): (r: Option<Lead>)
    requires |tag| > 0 && !IsSpace(tag[0])
    ensures r.Some? ==> IsCommentPrefix(r.value.prefix) && AllSpace(r.value.gap1) && AllSpace(r.value.gap2)
    ensures r.Some? ==> s == r.value.prefix + r.value.gap1 + tag + r.value.gap2 + r.value.rest
    ensures r.Some? ==> r.value.rest == [] || !IsSpace(r.value.rest[0])
  {
    match MatchPrefix(s)
    case None => None
    case Some(p) =>
      assert s == p + s[|p|..];
      MatchGaps(p, s[|p|..], tag)
  }

  /** `\s*<tag>\s*` after the comment prefix `p`. */
  function MatchGaps(p: string, t1: string, tag: string): (r: Option<Lead>)
    requires IsCommentPrefix(p)
    ensures r.Some? ==> r.value.prefix == p && AllSpace(r.value.gap1) && AllSpace(r.value.gap2)
    ensures r.Some? ==> p + t1 == p + r.value.gap1 + tag + r.value.gap2 + r.value.rest
    ensures r.Some? ==> r.value.rest == [] || !IsSpace(r.value.rest[0])
  {
    var g1 := SpaceRun(t1);
    var t2 := t1[g1..];
    if !(tag <= t2) then None
    else
      var t3 := t2[|tag|..];
      var g2 := SpaceRun(t3);
      LeadParts(p, t1, g1, t2, tag, t3, g2);
      Some(Lead(p, t1[..g1], t3[..g2], t3[g2..]))
  }

  lemma LeadParts(p: string, t1: string, g1: nat, t2: string, tag: string, t3: string, g2: nat)
    requires g1 <= |t1| && t2 == t1[g1..]
    requires tag <= t2 && t3 == t2[|tag|..] && g2 <= |t3|
    ensures p + t1 == p + t1[..g1] + tag + t3[..g2] + t3[g2..]
  {
    assert t3 == t3[..g2] + t3[g2..];
    assert t2 == tag + t3;
    assert t1 == t1[..g1] + t2;
    Append4(p, t1[..g1], tag, t3[..g2], t3[g2..]);
  }

  /** `HEADER_REGEX.match(s)`, with the whole decomposition of the match. */
  function MatchHeader(s: string): (r: Option<HeaderParts>)
    ensures r.Some? ==> r.value.WellFormed() && r.value.Render() == s
  {
    match MatchLead(s, CopyrightTag)
    case None => None
    case Some(lead) =>
      var n := YearsLength(lead.rest);
      if n == 0 then None
      else
        var t5 := lead.rest[n..];
        match TailFrom(t5, SpaceRun(t5))
        case None => None
        case Some(g3) =>
          var h := DotsToEnd(t5[g3..], 1).value;
          HeaderFromLead(s, lead, n, g3, h);
          Some(HeaderParts(lead.prefix, lead.gap1, lead.gap2, lead.rest[..n],
                           t5[..g3], t5[g3..][..h], t5[g3..][h..]))
  }

  lemma HeaderFromLead(s: string, lead: Lead, n: nat, g3: nat, h: nat)
    requires IsCommentPrefix(lead.prefix) && AllSpace(lead.gap1) && AllSpace(lead.gap2)
    requires s == lead.prefix + lead.gap1 + CopyrightTag + lead.gap2 + lead.rest
    requires 0 < n <= |lead.rest| && IsYearToken(lead.rest[..n])
    requires 1 <= g3 <= SpaceRun(lead.rest[n..])
    requires h <= |lead.rest[n..][g3..]| && h >= 1
    requires NoNewline(lead.rest[n..][g3..][..h]) && IsEol(lead.rest[n..][g3..][h..])
    ensures var t5 := lead.rest[n..];
            var parts := HeaderParts(lead.prefix, lead.gap1, lead.gap2, lead.rest[..n],
                                     t5[..g3], t5[g3..][..h], t5[g3..][h..]);
            parts.WellFormed() && parts.Render() == s
  {
    var t4 := lead.rest;
    var t5 := t4[n..];
    var u := t5[g3..];
    SpacePrefix(t5, g3);
    SplitRest(t4, n, g3, h);
    Append4(lead.prefix + lead.gap1 + CopyrightTag + lead.gap2, t4[..n], t5[..g3], u[..h], u[h..]);
  }

  lemma SpacePrefix(t: string, g: nat)
    requires g <= SpaceRun(t)
    ensures AllSpace(t[..g])
  {
    assert t[..g] == t[..SpaceRun(t)][..g];
  }

  lemma SplitRest(t4: string, n: nat, g3: nat, h: nat)
    requires n <= |t4| && g3 <= |t4[n..]| && h <= |t4[n..][g3..]|
    ensures var t5 := t4[n..];
            var u := t5[g3..];
            t4 == t4[..n] + (t5[..g3] + (u[..h] + u[h..]))
  {
    var t5 := t4[n..];
    var u := t5[g3..];
    assert u == u[..h] + u[h..];
    assert t5 == t5[..g3] + u;
    assert t4 == t4[..n] + t5;
  }

  lemma Append4(a: string, b: string, c: string, d: string, e: string)
    ensures a + (b + (c + (d + e))) == a + b + c + d + e
  {
  }

  /** `LICENSE_REGEX.match(s)`, with the whole decomposition of the match.
      `\S.*$` after the greedy `\s*` is `.+$` on a text whose first character
      is not whitespace. */
  function MatchLicense(s: string): (r: Option<LicenseParts>)
    ensures r.Some? ==> r.value.WellFormed() && r.value.Render() == s
  {
    match MatchLead(s, LicenseTag)
    case None => None
    case Some(lead) =>
      match DotsToEnd(lead.rest, 1)
      case None => None
      case Some(m) =>
        LicenseFromLead(s, lead, m);
        Some(LicenseParts(lead.prefix, lead.gap1, lead.gap2, lead.rest[..m], lead.rest[m..]))
  }

  lemma LicenseFromLead(s: string, lead: Lead, m: nat)
    requires IsCommentPrefix(lead.prefix) && AllSpace(lead.gap1) && AllSpace(lead.gap2)
    requires s == lead.prefix + lead.gap1 + LicenseTag + lead.gap2 + lead.rest
    requires lead.rest == [] || !IsSpace(lead.rest[0])
    requires 1 <= m <= |lead.rest| && NoNewline(lead.rest[..m]) && IsEol(lead.rest[m..])
    ensures var parts := LicenseParts(lead.prefix, lead.gap1, lead.gap2, lead.rest[..m], lead.rest[m..]);
            parts.WellFormed() && parts.Render() == s
  {
    var rest := lead.rest;
    assert rest == rest[..m] + rest[m..];
    assert rest[..m][0] == rest[0];
  }

  /** Every text of the shape `LICENSE_REGEX` describes is matched, and the
      match gives back exactly the pieces it was built from. */
  lemma LicenseRoundTrip(p: LicenseParts)
    requires p.WellFormed()
    ensures MatchLicense(p.Render()) == Some(p)
  {
    var rest := p.license + p.eol;
    assert p.Render() == p.prefix + p.gap1 + LicenseTag + p.gap2 + rest;
    LeadOf(p.prefix, p.gap1, LicenseTag, p.gap2, rest);
    DotsOf(p.license, p.eol);
    LicenseOfLead(p.Render(), Lead(p.prefix, p.gap1, p.gap2, rest), |p.license|);
  }

  lemma LicenseOfLead(s: string, lead: Lead, m: nat)
    requires MatchLead(s, LicenseTag) == Some(lead)
    requires DotsToEnd(lead.rest, 1) == Some(m)
    ensures MatchLicense(s) == Some(LicenseParts(lead.prefix, lead.gap1, lead.gap2, lead.rest[..m], lead.rest[m..]))
  {
  }

  /** `.+$` takes a newline-free body and leaves its line end. */
  lemma DotsOf(body: string, eol: string)
    requires |body| >= 1 && NoNewline(body) && IsEol(eol)
    ensures DotsToEnd(body + eol, 1) == Some(|body|)
    ensures (body + eol)[..|body|] == body && (body + eol)[|body|..] == eol
  {
    LeadRunAppend(body, eol, NotNewline);
  }

  /** The year token is taken whole when whitespace follows it. */
  lemma YearsOf(years: string, more: string)
    requires IsYearToken(years) && |more| > 0 && IsSpace(more[0])
    ensures YearsLength(years + more) == |years|
    ensures (years + more)[..|years|] == years && (years + more)[|years|..] == more
  {
    var t := years + more;
    if |years| == 4 {
      assert t[..4] == years;
      assert t[4] == more[0];
    } else {
      assert t[..4] == years[..4];
      assert t[5..9] == years[5..];
    }
  }

  /** Every text of the shape `HEADER_REGEX` describes is matched with the
      same comment prefix and year field; when the holder does not start with
      whitespace the greedy `\s+` stops exactly where it began, and the match
      gives back exactly the pieces the text was built from. */
  lemma HeaderRoundTrip(p: HeaderParts)
    requires p.WellFormed()
    ensures MatchHeader(p.Render()).Some?
    ensures MatchHeader(p.Render()).value.prefix == p.prefix
    ensures MatchHeader(p.Render()).value.years == p.years
    ensures !IsSpace(p.holder[0]) ==> MatchHeader(p.Render()) == Some(p)
  {
    var body := p.holder + p.eol;
    var t5 := p.gap3 + body;
    var rest := p.years + t5;
    assert p.Render() == p.prefix + p.gap1 + CopyrightTag + p.gap2 + rest;
    LeadOf(p.prefix, p.gap1, CopyrightTag, p.gap2, rest);
    YearsOf(p.years, t5);
    DotsOf(p.holder, p.eol);
    TailOf(p.gap3, body);
    var g3 := TailFrom(t5, SpaceRun(t5)).value;
    HeaderOfLead(p.Render(), Lead(p.prefix, p.gap1, p.gap2, rest), |p.years|, g3);
    if !IsSpace(p.holder[0]) {
      assert g3 == |p.gap3|;
    }
  }

  lemma HeaderOfLead(s: string, lead: Lead, n: nat, g3: nat)
    requires MatchLead(s, CopyrightTag) == Some(lead)
    requires YearsLength(lead.rest) == n > 0
    requires TailFrom(lead.rest[n..], SpaceRun(lead.rest[n..])) == Some(g3)
    ensures var t5 := lead.rest[n..];
            var h := DotsToEnd(t5[g3..], 1).value;
            MatchHeader(s) == Some(HeaderParts(lead.prefix, lead.gap1, lead.gap2, lead.rest[..n],
                                               t5[..g3], t5[g3..][..h], t5[g3..][h..]))
  {
  }

  /** The backtracking `\s+(.+)$` succeeds on a whitespace run followed by a
      holder; it keeps the run exactly when the holder starts with a
      character that is not whitespace. */
  lemma TailOf(gap: string, body: string)
    requires |gap| >= 1 && AllSpace(gap) && DotsToEnd(body, 1).Some?
    ensures TailFrom(gap + body, SpaceRun(gap + body)).Some?
    ensures TailFrom(gap + body, SpaceRun(gap + body)).value >= |gap|
    ensures !IsSpace(body[0]) ==> TailFrom(gap + body, SpaceRun(gap + body)) == Some(|gap|)
    ensures (gap + body)[..|gap|] == gap && (gap + body)[|gap|..] == body
  {
    var t := gap + body;
    LeadRunAppend(gap, body, IsSpace);
    assert t[|gap|..] == body;
  }

  /** The shared front of both patterns is found wherever it was put. */
  lemma LeadOf(prefix: string, gap1: string, tag: string, gap2: string, rest: string)
    requires IsCommentPrefix(prefix) && AllSpace(gap1) && AllSpace(gap2)
    requires |tag| > 0 && !IsSpace(tag[0])
    requires |rest| > 0 && !IsSpace(rest[0])
    ensures MatchLead(prefix + gap1 + tag + gap2 + rest, tag) == Some(Lead(prefix, gap1, gap2, rest))
  {
    var t1 := gap1 + tag + gap2 + rest;
    var s := prefix + gap1 + tag + gap2 + rest;
    assert s == prefix + t1;
    PrefixOf(prefix, t1);
    assert s[|prefix|..] == t1;
    GapsOf(prefix, gap1, tag, gap2, rest);
  }

  lemma PrefixOf(prefix: string, t: string)
    requires IsCommentPrefix(prefix)
    ensures MatchPrefix(prefix + t) == Some(prefix)
  {
    if prefix == "#" {
      assert (prefix + t)[0] == '#';
    } else {
      assert (prefix + t)[..2] == prefix;
    }
  }

  lemma GapsOf(p: string, gap1: string, tag: string, gap2: string, rest: string)
    requires IsCommentPrefix(p) && AllSpace(gap1) && AllSpace(gap2)
    requires |tag| > 0 && !IsSpace(tag[0])
    requires |rest| > 0 && !IsSpace(rest[0])
    ensures MatchGaps(p, gap1 + tag + gap2 + rest, tag) == Some(Lead(p, gap1, gap2, rest))
  {
    var t1 := gap1 + tag + gap2 + rest;
    assert t1 == gap1 + (tag + gap2 + rest);
    GapRun(gap1, tag + gap2 + rest);
    var t2 := t1[|gap1|..];
    assert t2 == tag + (gap2 + rest);
    var t3 := t2[|tag|..];
    assert t3 == gap2 + rest;
    GapRun(gap2, rest);
  }

  /** A whitespace run followed by a non-space character is exactly what
      `\s*` takes. */
  lemma GapRun(gap: string, rest: string)
    requires AllSpace(gap) && |rest| > 0 && !IsSpace(rest[0])
    ensures SpaceRun(gap + rest) == |gap|
    ensures (gap + rest)[..|gap|] == gap && (gap + rest)[|gap|..] == rest
  {
    LeadRunAppend(gap, rest, IsSpace);
  }

  /** A line either pattern matches starts with its comment prefix, so it is
      never blank. */
  lemma MatchedLineNotBlank(s: string)
    requires MatchHeader(s).Some? || MatchLicense(s).Some?
    ensures !AllSpace(s)
  {
    if MatchHeader(s).Some? {
      var p := MatchHeader(s).value;
      assert s[0] == p.prefix[0];
    } else {
      var p := MatchLicense(s).value;
      assert s[0] == p.prefix[0];
    }
  }

  lemma AppendAssoc(x: string, y: string, z: string)
    ensures (x + y) + z == x + (y + z)
  {
  }

  lemma TakeAppend(x: string, y: string, n: nat)
    requires n <= |y|
    ensures (x + y)[..|x| + n] == x + y[..n]
  {
  }

  lemma TakeLeft(x: string, y: string, n: nat)
    requires n <= |x|
    ensures (x + y)[..n] == x[..n]
  {
  }

  /** Stripping whitespace from a matched license line keeps it matched, with
      the same comment prefix: only trailing whitespace of the expression and
      the line end go. */
  lemma LicenseSurvivesStrip(l: string)
    requires MatchLicense(l).Some?
    ensures MatchLicense(Strip(l)).Some?
    ensures MatchLicense(Strip(l)).value.prefix == MatchLicense(l).value.prefix
  {
    var p := MatchLicense(l).value;
    var q := StrippedLicenseParts(p);
    LicenseRoundTrip(q);
  }

  /** The pieces of a stripped license line: the same front, the expression
      cut where the trailing whitespace began, and no line end. */
  lemma StrippedLicenseParts(p: LicenseParts) returns (q: LicenseParts)
    requires p.WellFormed()
    ensures q.WellFormed() && q.Render() == Strip(p.Render()) && q.prefix == p.prefix
  {
    var l := p.Render();
    assert l[0] == p.prefix[0];
    q := CutLicense(p, Strip(l));
  }

  /** A front part of a license line that drops only whitespace and ends in a
      non-space character is a license line with a shorter expression. */
  lemma CutLicense(p: LicenseParts, t: string) returns (q: LicenseParts)
    requires p.WellFormed()
    requires t <= p.Render() && forall i :: |t| <= i < |p.Render()| ==> IsSpace(p.Render()[i])
    requires t != [] ==> !IsSpace(t[|t| - 1])
    ensures q.WellFormed() && q.Render() == t && q.prefix == p.prefix
  {
    var l := p.Render();
    var head := p.prefix + p.gap1 + LicenseTag + p.gap2;
    var tail := p.license + p.eol;
    AppendAssoc(head, p.license, p.eol);
    assert l == head + tail;
    assert l[|head|] == p.license[0];
    var k := |t|;
    assert k > |head|;
    var m := k - |head|;
    assert m <= |p.license| by {
      assert t[k - 1] == l[k - 1] == tail[m - 1];
    }
    TakeAppend(head, tail, m);
    TakeLeft(p.license, p.eol, m);
    q := LicenseParts(p.prefix, p.gap1, p.gap2, p.license[..m], "");
    assert t == l[..k];
    assert q.license[0] == p.license[0];
    assert q.Render() == head + p.license[..m] + "";
    assert head + p.license[..m] + "" == head + p.license[..m];
  }

  /** A header whose rendering is a stripped line has a holder that ends in
      the last character of that line, which is not whitespace: a header
      matched on a stripped line never has a blank holder. */
  lemma StrippedHolderNotBlank(p: HeaderParts, s: string)
    requires p.WellFormed() && p.Render() == Strip(s)
    ensures !AllSpace(p.holder)
  {
    HolderEndsLine(p, Strip(s));
  }

  lemma HolderEndsLine(p: HeaderParts, t: string)
    requires p.WellFormed() && p.Render() == t
    requires t != [] ==> !IsSpace(t[|t| - 1])
    ensures !AllSpace(p.holder)
  {
    var front := p.prefix + p.gap1 + CopyrightTag + p.gap2 + p.years + p.gap3;
    assert t == front + p.holder + p.eol;
    assert t[0] == p.prefix[0];
    assert t[|t| - 1] == p.holder[|p.holder| - 1];
  }
}
