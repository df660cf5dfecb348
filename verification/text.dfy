/**
 * The pieces of Python's `str` behaviour the checker relies on: the
 * whitespace class shared by `str.strip()` and the regular-expression
 * class `\s`, stripping, and `str.split` on one separator character.
 */
module Text {

  /** Python's `str.isspace()` for one character; `\s` in a `str` pattern and
      `str.strip()` without arguments use the same class. */
  predicate IsSpace(c: char) {
    ('\t' <= c <= '\r') || ('\U{1C}' <= c <= ' ') || c == '\U{85}' || c == '\U{A0}' ||
    c == '\U{1680}' || ('\U{2000}' <= c <= '\U{200A}') || c == '\U{2028}' || c == '\U{2029}' ||
    c == '\U{202F}' || c == '\U{205F}' || c == '\U{3000}'
  }

  predicate AllSpace(s: string) {
    forall i :: 0 <= i < |s| ==> IsSpace(s[i])
  }

  predicate NoNewline(s: string) {
    forall i :: 0 <= i < |s| ==> s[i] != '\n'
  }

  /** Number of leading characters of `s` that `drop` accepts. */
  function LeadRun(s: string, drop: char -> bool): (n: nat)
    ensures n <= |s|
    ensures forall i :: 0 <= i < n ==> drop(s[i])
    ensures n < |s| ==> !drop(s[n])
  {
    if |s| > 0 && drop(s[0]) then 1 + LeadRun(s[1..], drop) else 0
  }

  /** A run of dropped characters in front adds its length to the run. */
  lemma {:induction false} LeadRunAppend(a: string, b: string, drop: char -> bool)
    requires forall i :: 0 <= i < |a| ==> drop(a[i])
    ensures LeadRun(a + b, drop) == |a| + LeadRun(b, drop)
  {
    if a == [] {
      assert a + b == b;
    } else {
      assert (a + b)[0] == a[0];
      assert (a + b)[1..] == a[1..] + b;
      LeadRunAppend(a[1..], b, drop);
    }
  }

  /** Number of trailing characters of `s` that `drop` accepts. */
  function TrailRun(s: string, drop: char -> bool): (n: nat)
    ensures n <= |s|
    ensures forall i :: |s| - n <= i < |s| ==> drop(s[i])
    ensures n < |s| ==> !drop(s[|s| - 1 - n])
  {
    if |s| > 0 && drop(s[|s| - 1]) then 1 + TrailRun(s[..|s| - 1], drop) else 0
  }

  /** `s.strip(chars)`, where `drop` tells which characters are in `chars`. */
  function StripBy(s: string, drop: char -> bool): (r: string)
    ensures |r| <= |s|
    ensures r == [] <==> forall i :: 0 <= i < |s| ==> drop(s[i])
    ensures r != [] ==> !drop(r[0]) && !drop(r[|r| - 1])
    ensures |s| > 0 && !drop(s[0]) ==>
              r == s[..|r|] && forall i :: |r| <= i < |s| ==> drop(s[i])
  {
    var a := LeadRun(s, drop);
    if a == |s| then [] else s[a..|s| - TrailRun(s, drop)]
  }

  /** What `strip` keeps is one stretch of `s`: everything before and after
      it is dropped. */
  lemma StripBySlice(s: string, drop: char -> bool)
    ensures var r := StripBy(s, drop);
      exists a, b :: 0 <= a <= b <= |s| && r == s[a..b] &&
        (forall i :: 0 <= i < a ==> drop(s[i])) && (forall i :: b <= i < |s| ==> drop(s[i]))
  {
    var r := StripBy(s, drop);
    var a := LeadRun(s, drop);
    if a == |s| {
      assert r == s[a..a];
    } else {
      var b := |s| - TrailRun(s, drop);
      assert !drop(s[a]);
      assert a < b;
      assert r == s[a..b];
    }
  }

  /** `s.strip()` */
  function Strip(s: string): string {
    StripBy(s, IsSpace)
  }

  /** `not s.strip()`: the line holds whitespace only. */
  lemma BlankIffAllSpace(s: string)
    ensures Strip(s) == [] <==> AllSpace(s)
  {
  }

  /** Python's `sep.join(parts)` for a one-character separator. */
  function Join(parts: seq<string>, sep: char): string
    requires |parts| >= 1
  {
    if |parts| == 1 then parts[0] else parts[0] + [sep] + Join(parts[1..], sep)
  }

  /** `s.split(sep)` for a one-character separator. */
  function Split(s: string, sep: char): (parts: seq<string>)
    ensures |parts| >= 1
    ensures forall k :: 0 <= k < |parts| ==> sep !in parts[k]
    ensures Join(parts, sep) == s
  {
    if s == [] then [[]]
    else
      var rest := Split(s[1..], sep);
      if s[0] == sep then [[]] + rest
      else [[s[0]] + rest[0]] + rest[1..]
  }

  /** Splitting undoes joining: `Split` is the only way to cut a string at
      every separator, so it inverts `Join` on separator-free parts. */
  lemma {:induction false} SplitJoin(parts: seq<string>, sep: char)
    requires |parts| >= 1
    requires forall k :: 0 <= k < |parts| ==> sep !in parts[k]
    ensures Split(Join(parts, sep), sep) == parts
    decreases |parts|, |parts[0]|
  {
    var s := Join(parts, sep);
    if |parts| == 1 {
      if parts[0] != [] {
        assert s[1..] == parts[0][1..];
        SplitJoin([parts[0][1..]], sep);
        assert parts[0] == [parts[0][0]] + parts[0][1..];
      }
    } else if parts[0] == [] {
      assert s == [sep] + Join(parts[1..], sep);
      assert s[1..] == Join(parts[1..], sep);
      SplitJoin(parts[1..], sep);
      assert parts == [[]] + parts[1..];
    } else {
      var shorter := [parts[0][1..]] + parts[1..];
      assert shorter[1..] == parts[1..];
      assert Join(shorter, sep) == parts[0][1..] + [sep] + Join(parts[1..], sep);
      assert s[1..] == Join(shorter, sep);
      assert s[0] == parts[0][0];
      assert sep !in parts[0][1..];
      SplitJoin(shorter, sep);
      assert parts[0] == [parts[0][0]] + parts[0][1..];
      assert parts == [parts[0]] + shorter[1..];
    }
  }
}
