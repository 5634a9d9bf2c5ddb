/**
 * The POSIX flavour of Python's `os.path` as the extractor uses it:
 * `dirname`, `basename`, `splitext` and two-argument `join`, with '/' as
 * the only separator and '.' as the extension separator.
 */
module PosixPath {
  import opened PyStrings

  const Sep := '/'
  const ExtSep := '.'

  predicate NoSep(s: string) {
    forall k :: 0 <= k < |s| ==> s[k] != Sep
  }

  predicate AllSep(s: string) {
    forall k :: 0 <= k < |s| ==> s[k] == Sep
  }

  /** Python's `s.rfind(c)` for one character: the last index holding c, or -1. */
  function RFind(s: string, c: char): (i: int)
    ensures -1 <= i < |s|
    ensures i >= 0 ==> s[i] == c
    ensures forall k :: i < k < |s| ==> s[k] != c
  {
    if s == [] then -1
    else if s[|s| - 1] == c then |s| - 1
    else RFind(s[..|s| - 1], c)
  }

  /** Python's `s.rstrip('/')`. */
  function RStripSep(s: string): (r: string)
    ensures StartsWith(s, r)
    ensures AllSep(s[|r|..])
    ensures r == [] || r[|r| - 1] != Sep
  {
    if s != [] && s[|s| - 1] == Sep then
      var r := RStripSep(s[..|s| - 1]);
      assert s[..|s| - 1][|r|..] + [Sep] == s[|r|..];
      r
    else s
  }

  /** `os.path.basename(p)`: everything after the last '/'. */
  function BaseName(p: string): (b: string)
    ensures NoSep(b)
    ensures EndsWith(p, b)
    ensures |b| == |p| || p[|p| - |b| - 1] == Sep
  {
    p[RFind(p, Sep) + 1..]
  }

  /**
   * `os.path.dirname(p)`: everything up to the last '/', with the trailing
   * run of '/' removed unless the head is made of separators only.
   */
  function DirName(p: string): string
  {
    var head := p[..RFind(p, Sep) + 1];
    if head != [] && !AllSep(head) then RStripSep(head) else head
  }

  /**
   * `os.path.splitext(p)`: (root, ext), where ext starts at the last '.'
   * after the last '/', unless only dots precede that '.' in the last
   * component (a leading-dot name such as ".profile" has no extension).
   */
  function SplitExt(p: string): (string, string)
  {
    var sepIndex := RFind(p, Sep);
    var dotIndex := RFind(p, ExtSep);
    if dotIndex > sepIndex && exists k :: sepIndex < k < dotIndex && p[k] != ExtSep then
      (p[..dotIndex], p[dotIndex..])
    else
      (p, [])
  }

  /** `os.path.join(a, b)`. */
  function Join(a: string, b: string): string
  {
    if b != [] && b[0] == Sep then b
    else if a == [] || a[|a| - 1] == Sep then a + b
    else a + [Sep] + b
  }

  /** The last component of p has an extension in the sense of splitext. */
  ghost predicate HasExtension(p: string) {
    exists d :: RFind(p, Sep) < d < |p| && p[d] == ExtSep && !OnlyDotsBefore(p, d)
  }

  /** Within the last component of p, every character before index d is a '.'. */
  ghost predicate OnlyDotsBefore(p: string, d: int)
    requires d <= |p|
  {
    forall k :: RFind(p, Sep) < k < d ==> p[k] == ExtSep
  }

  /**
   * p splits into dirname, a run of separators, and basename; the dirname
   * is empty exactly when p has no '/', and does not end in '/' unless it
   * consists of separators only.
   */
  lemma DirNameSpec(p: string)
    ensures StartsWith(p, DirName(p))
    ensures |DirName(p)| + |BaseName(p)| <= |p|
    ensures forall k :: |DirName(p)| <= k < |p| - |BaseName(p)| ==> p[k] == Sep
    ensures DirName(p) == [] <==> NoSep(p)
    ensures DirName(p) != [] && !AllSep(DirName(p)) ==> DirName(p)[|DirName(p)| - 1] != Sep
    ensures AllSep(DirName(p)) ==> |DirName(p)| + |BaseName(p)| == |p|
  {
    var i := RFind(p, Sep) + 1;
    var head := p[..i];
    assert |BaseName(p)| == |p| - i;
    if i > 0 {
      assert p[i - 1] == Sep;
      assert !NoSep(p);
    } else {
      assert NoSep(p);
    }
    if head != [] && !AllSep(head) {
      var d := RStripSep(head);
      assert head[..|d|] == p[..|d|];
      forall k | |d| <= k < i ensures p[k] == Sep {
        assert head[|d|..][k - |d|] == p[k];
      }
    }
  }

  /**
   * splitext loses nothing (root + ext == p); ext is empty exactly when the
   * last component has no extension, and otherwise it is that component's
   * final '.'-suffix, holding no other '.' and no '/'.
   */
  lemma SplitExtSpec(p: string)
    ensures SplitExt(p).0 + SplitExt(p).1 == p
    ensures SplitExt(p).1 == [] <==> !HasExtension(p)
    ensures SplitExt(p).1 != [] ==>
      SplitExt(p).1[0] == ExtSep &&
      forall k :: 0 < k < |SplitExt(p).1| ==> SplitExt(p).1[k] != ExtSep && SplitExt(p).1[k] != Sep
  {
    var sepIndex := RFind(p, Sep);
    var dotIndex := RFind(p, ExtSep);
    var (root, ext) := SplitExt(p);
    if ext == [] {
      assert root == p;
    } else {
      var k :| sepIndex < k < dotIndex && p[k] != ExtSep;
      assert !OnlyDotsBefore(p, dotIndex);
      assert HasExtension(p);
      forall m | 0 < m < |ext| ensures ext[m] != ExtSep && ext[m] != Sep {
        assert ext[m] == p[dotIndex + m];
      }
    }
  }

  /** Joining a relative name onto a directory keeps the directory as prefix and the name as basename. */
  lemma JoinSpec(a: string, b: string)
    requires NoSep(b)
    ensures StartsWith(Join(a, b), a)
    ensures EndsWith(Join(a, b), b)
    ensures BaseName(Join(a, b)) == b
    ensures |Join(a, b)| - |a| - |b| == (if a == [] || a[|a| - 1] == Sep then 0 else 1)
  {
    var j := Join(a, b);
    var n := |j| - |b|;
    assert b == [] || b[0] != Sep;
    assert j[..|a|] == a;
    assert j[n..] == b;
    assert n == 0 || j[n - 1] == Sep;
    RFindAt(j, n);
  }

  /** When s[n..] has no '/' and s[n - 1] is one (or n is 0), the last '/' of s is just before n. */
  lemma RFindAt(s: string, n: nat)
    requires n <= |s| && NoSep(s[n..])
    requires n == 0 || s[n - 1] == Sep
    ensures RFind(s, Sep) + 1 == n
  {
    assert forall k :: n <= k < |s| ==> s[k] == s[n..][k - n];
    var r := RFind(s, Sep);
    assert r < n;
  }
}
