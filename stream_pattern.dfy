/**
 * The two regular expressions `_parse_streams` applies to a line, written
 * out as character-level matchers:
 *
 *   re.search(r'Stream #(\d+):(\d+)(\(\w+\))?: Subtitle: ([^,]+)(.*)', line)
 *   re.search(r'lang:([a-z]{2})', line)
 *
 * Each pattern is an anchored matcher (a function from the text at one
 * start position to its captured group), next to a reference predicate
 * that says in plain sequence terms which texts match; a lemma ties the
 * two. `re.search` itself is the leftmost start position whose anchored
 * match succeeds.
 */
module StreamPattern {
  import opened Wrappers
  import opened PyStrings

  const StreamPrefix := "Stream #"
  const SubtitleMarker := ": Subtitle: "
  const LangKey := "lang:"

  // ------------------------------------------------------------ re.search

  /** `re.search` from position p on: the anchored match at the leftmost start position where it succeeds. */
  function SearchFrom<T>(line: string, p: nat, m: string -> Option<T>): Option<T>
    requires p <= |line|
    decreases |line| - p
  {
    if m(line[p..]).Some? then m(line[p..])
    else if p == |line| then None
    else SearchFrom(line, p + 1, m)
  }

  /**
   * A successful search returns the match at some start position q, and the
   * matcher fails at every earlier position; the search fails exactly when
   * the matcher fails at every position.
   */
  lemma {:induction false} SearchFromSpec<T>(line: string, p: nat, m: string -> Option<T>)
    requires p <= |line|
    ensures SearchFrom(line, p, m).Some? ==>
      exists q :: p <= q <= |line| && m(line[q..]) == SearchFrom(line, p, m) &&
                  forall k :: p <= k < q ==> m(line[k..]).None?
    ensures SearchFrom(line, p, m).None? <==> forall q :: p <= q <= |line| ==> m(line[q..]).None?
    decreases |line| - p
  {
    if m(line[p..]).None? && p < |line| {
      SearchFromSpec(line, p + 1, m);
    }
  }

  function Search<T>(line: string, m: string -> Option<T>): Option<T>
  {
    SearchFrom(line, 0, m)
  }

  /** The search succeeds exactly when the matcher succeeds at some start position. */
  lemma SearchSomeIff<T>(line: string, m: string -> Option<T>)
    ensures Search(line, m).Some? <==> exists p :: 0 <= p <= |line| && m(line[p..]).Some?
  {
    SearchFromSpec(line, 0, m);
  }

  /** A successful search returns the match at the leftmost start position where the matcher succeeds. */
  lemma SearchFound<T>(line: string, m: string -> Option<T>)
    requires Search(line, m).Some?
    ensures exists q :: 0 <= q <= |line| && m(line[q..]) == Search(line, m) &&
                        forall k :: 0 <= k < q ==> m(line[k..]).None?
  {
    SearchFromSpec(line, 0, m);
  }

  /** When the matcher succeeds at p and fails everywhere before, the search returns the match at p. */
  lemma SearchFirst<T>(line: string, p: nat, m: string -> Option<T>)
    requires p <= |line| && m(line[p..]).Some?
    requires forall q :: 0 <= q < p ==> m(line[q..]).None?
    ensures Search(line, m) == m(line[p..])
  {
    SearchFromFirst(line, 0, p, m);
  }

  lemma {:induction false} SearchFromFirst<T>(line: string, i: nat, p: nat, m: string -> Option<T>)
    requires i <= p <= |line| && m(line[p..]).Some?
    requires forall q :: i <= q < p ==> m(line[q..]).None?
    ensures SearchFrom(line, i, m) == m(line[p..])
    decreases p - i
  {
    if i < p {
      SearchFromFirst(line, i + 1, p, m);
    }
  }

  // ------------------------------------------------- the stream pattern

  /**
   * How much the optional group `(\(\w+\))?` consumes at the start of s:
   * a '(', a maximal run of word characters, and a ')'; 0 when that fails.
   * A shorter word run can never be followed by ')', so the greedy choice is
   * the only one.
   */
  function TagLength(s: string): (t: nat)
    ensures t <= |s|
  {
    if |s| > 0 && s[0] == '(' then
      var w := Span(s[1..], IsWordChar);
      if w > 0 && 1 + w < |s| && s[1 + w] == ')' then w + 2 else 0
    else 0
  }

  /** `(\(\w+\))?: Subtitle: ([^,]+)(.*)` matches at the start of s (`(.*)` always matches). */
  predicate MatchTail(s: string)
  {
    var r := s[TagLength(s)..];
    StartsWith(r, SubtitleMarker) && |r| > |SubtitleMarker| && r[|SubtitleMarker|] != ','
  }

  /** `(\d+)` then the tail, at the start of s: the digits on success. */
  function MatchSecond(s: string): Option<string>
  {
    var b := Span(s, IsDigit);
    if b > 0 && MatchTail(s[b..]) then Some(s[..b]) else None
  }

  /**
   * `(\d+):` then the rest, at the start of s. Backtracking into a digit run
   * cannot succeed, since a digit is neither ':' nor '(', so the runs are the
   * maximal ones.
   */
  function MatchFirst(s: string): Option<string>
  {
    var a := Span(s, IsDigit);
    if a > 0 && a < |s| && s[a] == ':' then MatchSecond(s[a + 1..]) else None
  }

  /** The stream pattern anchored at the start of s; on success, its group 2. */
  function MatchStream(s: string): Option<string>
  {
    if StartsWith(s, StreamPrefix) then MatchFirst(s[|StreamPrefix|..]) else None
  }

  /** The text an optional `(\(\w+\))?` group may stand for. */
  ghost predicate IsTag(tag: string) {
    tag == [] ||
    (|tag| >= 3 && tag[0] == '(' && tag[|tag| - 1] == ')' &&
     forall k :: 1 <= k < |tag| - 1 ==> IsWordChar(tag[k]))
  }

  ghost predicate TailShape(s: string, tag: string, codec: char, rest: string) {
    IsTag(tag) && codec != ',' && s == tag + SubtitleMarker + [codec] + rest
  }

  /**
   * s reads "Stream #" a ":" b tag ": Subtitle: " codec rest, with a and b
   * non-empty digit strings, tag empty or a parenthesised word, and codec
   * the first character of `[^,]+`.
   */
  ghost predicate StreamLine(s: string, a: string, b: string, tag: string, codec: char, rest: string) {
    |a| > 0 && AllDigits(a) && |b| > 0 && AllDigits(b) && IsTag(tag) && codec != ',' &&
    s == StreamPrefix + a + ":" + b + (tag + SubtitleMarker + [codec] + rest)
  }

  lemma TailSound(s: string)
    requires MatchTail(s)
    ensures exists tag, codec, rest :: TailShape(s, tag, codec, rest)
  {
    var t := TagLength(s);
    var r := s[t..];
    var m := |SubtitleMarker|;
    assert s == s[..t] + r;
    assert r == SubtitleMarker + [r[m]] + r[m + 1..];
    if t > 0 {
      forall k | 1 <= k < t - 1 ensures IsWordChar(s[..t][k]) {
        assert s[..t][k] == s[1..][k - 1];
      }
    }
    assert TailShape(s, s[..t], r[m], r[m + 1..]);
  }

  lemma TailComplete(s: string, tag: string, codec: char, rest: string)
    requires TailShape(s, tag, codec, rest)
    ensures TagLength(s) == |tag|
    ensures MatchTail(s)
  {
    if tag == [] {
      assert s[0] == ':';
    } else {
      var w := |tag| - 2;
      assert s[1..][w] == ')';
      SpanExact(s[1..], IsWordChar, w);
    }
    assert s[|tag|..] == SubtitleMarker + [codec] + rest;
  }

  /** The matcher accepts s with group 2 equal to b exactly when s has the shape StreamLine describes. */
  lemma MatchStreamSpec(s: string, b: string)
    ensures MatchStream(s) == Some(b) <==>
            exists a, tag, codec, rest :: StreamLine(s, a, b, tag, codec, rest)
  {
    if MatchStream(s) == Some(b) {
      MatchStreamSound(s, b);
    }
    if exists a, tag, codec, rest :: StreamLine(s, a, b, tag, codec, rest) {
      var a, tag, codec, rest :| StreamLine(s, a, b, tag, codec, rest);
      MatchStreamComplete(s, a, b, tag, codec, rest);
    }
  }

  lemma MatchStreamSound(s: string, b: string)
    requires MatchStream(s) == Some(b)
    ensures exists a, tag, codec, rest :: StreamLine(s, a, b, tag, codec, rest)
  {
    var r1 := s[|StreamPrefix|..];
    var a := Span(r1, IsDigit);
    var r2 := r1[a + 1..];
    var n := Span(r2, IsDigit);
    var r3 := r2[n..];
    SpanDigits(r1);
    SpanDigits(r2);
    TailSound(r3);
    var tag, codec, rest :| TailShape(r3, tag, codec, rest);
    Reassemble(s, r1, r1[..a], r2, b, r3, tag, codec, rest);
    assert StreamLine(s, r1[..a], b, tag, codec, rest);
  }

  lemma Reassemble(s: string, r1: string, a: string, r2: string, b: string, r3: string,
                   tag: string, codec: char, rest: string)
    requires StartsWith(s, StreamPrefix) && r1 == s[|StreamPrefix|..]
    requires |a| < |r1| && a == r1[..|a|] && r1[|a|] == ':' && r2 == r1[|a| + 1..]
    requires |b| <= |r2| && b == r2[..|b|] && r3 == r2[|b|..]
    requires r3 == tag + SubtitleMarker + [codec] + rest
    ensures s == StreamPrefix + a + ":" + b + (tag + SubtitleMarker + [codec] + rest)
  {
    assert s == StreamPrefix + r1;
    assert r1 == a + ":" + r2;
    assert r2 == b + r3;
  }

  lemma MatchStreamComplete(s: string, a: string, b: string, tag: string, codec: char, rest: string)
    requires StreamLine(s, a, b, tag, codec, rest)
    ensures MatchStream(s) == Some(b)
  {
    var r3 := tag + SubtitleMarker + [codec] + rest;
    var r2 := b + r3;
    var r1 := a + ":" + r2;
    assert s == StreamPrefix + r1;
    PrefixStep(s, r1);
    TailComplete(r3, tag, codec, rest);
    assert r3[0] == if tag == [] then ':' else '(';
    SecondStep(r2, b, r3);
    FirstStep(r1, a, r2);
  }

  lemma PrefixStep(s: string, r1: string)
    requires s == StreamPrefix + r1
    ensures MatchStream(s) == MatchFirst(r1)
  {
    assert s[..|StreamPrefix|] == StreamPrefix;
    assert s[|StreamPrefix|..] == r1;
  }

  lemma FirstStep(r1: string, a: string, r2: string)
    requires |a| > 0 && AllDigits(a) && r1 == a + ":" + r2
    ensures MatchFirst(r1) == MatchSecond(r2)
  {
    SpanExact(r1, IsDigit, |a|);
    assert r1[|a| + 1..] == r2;
  }

  lemma SecondStep(r2: string, b: string, r3: string)
    requires |b| > 0 && AllDigits(b) && r2 == b + r3
    requires MatchTail(r3) && r3 != [] && !IsDigit(r3[0])
    ensures MatchSecond(r2) == Some(b)
  {
    SpanExact(r2, IsDigit, |b|);
    assert r2[..|b|] == b;
    assert r2[|b|..] == r3;
  }

  /** Group 2 of `re.search(stream pattern, line)`, if the search finds a match. */
  function SearchStream(line: string): Option<string>
  {
    Search(line, MatchStream)
  }

  // --------------------------------------------------- the lang: pattern

  /** `lang:([a-z]{2})` anchored at the start of s; on success, the two letters. */
  function MatchLang(s: string): Option<string>
  {
    var n := |LangKey|;
    if StartsWith(s, LangKey) && |s| >= n + 2 && IsAsciiLower(s[n]) && IsAsciiLower(s[n + 1])
    then Some(s[n..n + 2])
    else None
  }

  /** A language code as the pattern captures it: exactly two lower-case ASCII letters. */
  predicate IsLangCode(c: string) {
    |c| == 2 && IsAsciiLower(c[0]) && IsAsciiLower(c[1])
  }

  /** The lang matcher captures c exactly when s starts with "lang:" followed by the code c. */
  lemma MatchLangSpec(s: string, c: string)
    ensures MatchLang(s) == Some(c) <==> IsLangCode(c) && StartsWith(s, LangKey + c)
  {
    if IsLangCode(c) && StartsWith(s, LangKey + c) {
      assert s[..|LangKey|] == (LangKey + c)[..|LangKey|];
      assert s[|LangKey|..|LangKey| + 2] == c;
    }
    if MatchLang(s) == Some(c) {
      assert s[..|LangKey| + 2] == LangKey + c;
    }
  }

  /** Group 1 of `re.search(r'lang:([a-z]{2})', line)`, if the search finds a match. */
  function FindLang(line: string): Option<string>
  {
    Search(line, MatchLang)
  }
}
