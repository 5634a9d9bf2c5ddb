/**
 * The parts of Python's `str` that the extractor relies on: the `in`
 * substring test, `str.splitlines()`, and the greedy runs of character
 * classes that its regular expressions consume.
 */
module PyStrings {

  predicate IsDigit(c: char) { '0' <= c <= '9' }

  predicate IsAsciiLower(c: char) { 'a' <= c <= 'z' }

  /** Python's `\w`, restricted to ASCII. */
  predicate IsWordChar(c: char) {
    IsDigit(c) || IsAsciiLower(c) || ('A' <= c <= 'Z') || c == '_'
  }

  predicate AllDigits(s: string) {
    forall k :: 0 <= k < |s| ==> IsDigit(s[k])
  }

  predicate StartsWith(s: string, prefix: string) {
    |prefix| <= |s| && s[..|prefix|] == prefix
  }

  predicate EndsWith(s: string, suffix: string) {
    |suffix| <= |s| && s[|s| - |suffix|..] == suffix
  }

  /**
   * Length of the longest prefix of s whose characters all satisfy p:
   * what a greedy `X+` or `X*` consumes before it has to stop.
   */
  function Span(s: string, p: char -> bool): (n: nat)
    ensures n <= |s|
    ensures forall k :: 0 <= k < n ==> p(s[k])
    ensures n < |s| ==> !p(s[n])
  {
    if |s| > 0 && p(s[0]) then 1 + Span(s[1..], p) else 0
  }

  /** A prefix made of p-characters followed by a non-p character (or nothing) is exactly the span. */
  lemma SpanExact(s: string, p: char -> bool, n: nat)
    requires n <= |s|
    requires forall k :: 0 <= k < n ==> p(s[k])
    requires n < |s| ==> !p(s[n])
    ensures Span(s, p) == n
  {
  }

  /** The maximal run of digits at the start of s is a digit string. */
  lemma SpanDigits(s: string)
    ensures AllDigits(s[..Span(s, IsDigit)])
  {
    var n := Span(s, IsDigit);
    assert forall k :: 0 <= k < n ==> s[..n][k] == s[k];
  }

  /** A slice of a slice is a slice of the original. */
  lemma SliceOfSlice(s: string, i: nat, j: nat, a: nat, b: nat)
    requires i <= j <= |s| && a <= b <= j - i
    ensures s[i..j][a..b] == s[i + a..i + b]
  {
    var inner, outer := s[i..j][a..b], s[i + a..i + b];
    forall t | 0 <= t < b - a ensures inner[t] == outer[t] {
      assert s[i..j][a + t] == s[i + a + t];
    }
  }

  lemma EndsWithTrans(s: string, t: string, u: string)
    requires EndsWith(s, t) && EndsWith(t, u)
    ensures EndsWith(s, u)
  {
    var a, b := s[|s| - |u|..], u;
    forall i | 0 <= i < |u| ensures a[i] == b[i] {
      assert s[|s| - |t|..][|t| - |u| + i] == t[|t| - |u| + i];
      assert t[|t| - |u|..][i] == u[i];
    }
  }

  // ---------------------------------------------------------------- `in`

  /** w occurs in s at position p. */
  ghost predicate OccursAt(s: string, w: string, p: int) {
    0 <= p && p + |w| <= |s| && s[p..p + |w|] == w
  }

  /** Python's `w in s` for strings. */
  function Contains(s: string, w: string): bool
    decreases |s|
  {
    if |w| > |s| then false
    else if s[..|w|] == w then true
    else Contains(s[1..], w)
  }

  lemma {:induction false} ContainsIff(s: string, w: string)
    ensures Contains(s, w) <==> exists p :: OccursAt(s, w, p)
    decreases |s|
  {
    if |w| > |s| {
    } else if s[..|w|] == w {
      assert OccursAt(s, w, 0);
    } else {
      ContainsIff(s[1..], w);
      if Contains(s[1..], w) {
        var p :| OccursAt(s[1..], w, p);
        assert s[1..][p..p + |w|] == s[p + 1..p + 1 + |w|];
        assert OccursAt(s, w, p + 1);
      }
      if exists p :: OccursAt(s, w, p) {
        var p :| OccursAt(s, w, p);
        assert p != 0;
        assert s[1..][p - 1..p - 1 + |w|] == s[p..p + |w|];
        assert OccursAt(s[1..], w, p - 1);
      }
    }
  }

  /** An occurrence inside the slice s[i..j] is an occurrence in s. */
  lemma ContainsInSlice(s: string, i: nat, j: nat, w: string)
    requires i <= j <= |s|
    requires Contains(s[i..j], w)
    ensures Contains(s, w)
  {
    ContainsIff(s[i..j], w);
    var p :| OccursAt(s[i..j], w, p);
    SliceOfSlice(s, i, j, p, p + |w|);
    assert OccursAt(s, w, i + p);
    ContainsIff(s, w);
  }

  /** An occurrence in the suffix s[i..] is an occurrence in s. */
  lemma ContainsInSuffix(s: string, i: nat, w: string)
    requires i <= |s|
    requires Contains(s[i..], w)
    ensures Contains(s, w)
  {
    assert s[i..] == s[i..|s|];
    ContainsInSlice(s, i, |s|, w);
  }

  // ---------------------------------------------------------- splitlines

  /** The line boundaries of Python's `str.splitlines()`. */
  predicate IsLineBoundary(c: char) {
    c == '\n' || c == '\r' || c == '\U{B}' || c == '\U{C}'
    || c == '\U{1C}' || c == '\U{1D}' || c == '\U{1E}'
    || c == '\U{85}' || c == '\U{2028}' || c == '\U{2029}'
  }

  predicate NoLineBoundary(s: string) {
    forall k :: 0 <= k < |s| ==> !IsLineBoundary(s[k])
  }

  /** Index of the first line boundary at or after i, or |s| when there is none. */
  function NextBoundary(s: string, i: nat): (j: nat)
    requires i <= |s|
    ensures i <= j <= |s|
    ensures j < |s| ==> IsLineBoundary(s[j])
    ensures forall k :: i <= k < j ==> !IsLineBoundary(s[k])
    decreases |s| - i
  {
    if i == |s| || IsLineBoundary(s[i]) then i else NextBoundary(s, i + 1)
  }

  /**
   * Python's `s.splitlines()`: the text between boundaries, where "\r\n"
   * counts as one boundary and a final boundary opens no empty last line.
   */
  function SplitLines(s: string): seq<string>
    decreases |s|
  {
    if s == [] then []
    else
      var i := NextBoundary(s, 0);
      if i == |s| then [s]
      else
        var j := if s[i] == '\r' && i + 1 < |s| && s[i + 1] == '\n' then i + 2 else i + 1;
        [s[..i]] + SplitLines(s[j..])
  }

  /**
   * The lines hold no boundary characters, there are no more lines than
   * characters, and only the empty text has no lines.
   */
  lemma {:induction false} SplitLinesSpec(s: string)
    ensures forall k :: 0 <= k < |SplitLines(s)| ==> NoLineBoundary(SplitLines(s)[k])
    ensures |SplitLines(s)| <= |s|
    ensures SplitLines(s) == [] <==> s == []
    decreases |s|
  {
    if s != [] {
      var i := NextBoundary(s, 0);
      if i < |s| {
        var j := if s[i] == '\r' && i + 1 < |s| && s[i + 1] == '\n' then i + 2 else i + 1;
        SplitLinesSpec(s[j..]);
      }
    }
  }

  /** Every line splitlines yields is a slice of the text. */
  lemma {:induction false} SplitLinesSlice(s: string, k: nat)
    requires k < |SplitLines(s)|
    ensures exists i, j :: 0 <= i <= j <= |s| && SplitLines(s)[k] == s[i..j]
    decreases |s|
  {
    var i := NextBoundary(s, 0);
    if i == |s| {
      assert SplitLines(s)[k] == s[0..|s|];
    } else {
      var j := if s[i] == '\r' && i + 1 < |s| && s[i + 1] == '\n' then i + 2 else i + 1;
      if k == 0 {
        assert SplitLines(s)[k] == s[0..i];
      } else {
        assert SplitLines(s)[k] == SplitLines(s[j..])[k - 1];
        SplitLinesSlice(s[j..], k - 1);
        SliceInSuffix(s, j, SplitLines(s)[k]);
      }
    }
  }

  lemma SliceInSuffix(s: string, j: nat, line: string)
    requires j <= |s|
    requires exists a, b :: 0 <= a <= b <= |s[j..]| && line == s[j..][a..b]
    ensures exists i, k :: 0 <= i <= k <= |s| && line == s[i..k]
  {
    var a, b :| 0 <= a <= b <= |s[j..]| && line == s[j..][a..b];
    assert s[j..] == s[j..|s|];
    SliceOfSlice(s, j, |s|, a, b);
  }

  /** What a line of splitlines contains, the text contains. */
  lemma SplitLinesContains(s: string, w: string, k: nat)
    requires k < |SplitLines(s)|
    requires Contains(SplitLines(s)[k], w)
    ensures Contains(s, w)
  {
    SplitLinesSlice(s, k);
    var i, j :| 0 <= i <= j <= |s| && SplitLines(s)[k] == s[i..j];
    ContainsInSlice(s, i, j, w);
  }

  /** The text ffmpeg prints: every line followed by "\n". */
  function Terminated(lines: seq<string>): string
  {
    if lines == [] then [] else lines[0] + "\n" + Terminated(lines[1..])
  }

  /** splitlines recovers the lines of a newline-terminated text. */
  lemma {:induction false} SplitTerminated(lines: seq<string>)
    requires forall k :: 0 <= k < |lines| ==> NoLineBoundary(lines[k])
    ensures SplitLines(Terminated(lines)) == lines
  {
    if lines != [] {
      var s := Terminated(lines);
      var l := lines[0];
      assert s == l + "\n" + Terminated(lines[1..]);
      assert s[|l|] == '\n';
      NextBoundaryExact(s, |l|);
      assert s[..|l|] == l;
      assert s[|l| + 1..] == Terminated(lines[1..]);
      SplitTerminated(lines[1..]);
      assert SplitLines(s) == [l] + lines[1..];
    }
  }

  lemma NextBoundaryExact(s: string, n: nat)
    requires n < |s| && IsLineBoundary(s[n])
    requires forall k :: 0 <= k < n ==> !IsLineBoundary(s[k])
    ensures NextBoundary(s, 0) == n
  {
  }
}
