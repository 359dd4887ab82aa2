/** String helpers used by the upload handler: ASCII lower-casing of column
    headers and item names, prefix tests, and the POSIX `os.path.splitext`
    rule that derives the output file name. */
module Text {

  /** ASCII lower-casing of one character; every other character is kept. */
  function LowerChar(c: char): char {
    if 'A' <= c <= 'Z' then (c as int + 32) as char else c
  }

  /** `str.lower()` restricted to ASCII letters. */
  function Lower(s: string): (r: string)
    ensures |r| == |s|
    ensures forall i :: 0 <= i < |s| ==> r[i] == LowerChar(s[i])
  {
    seq(|s|, i requires 0 <= i < |s| => LowerChar(s[i]))
  }

  /** Lower-casing once is enough: the result has no upper-case ASCII letter
      and lower-casing it again changes nothing. */
  lemma LowerIdempotent(s: string)
    ensures forall i :: 0 <= i < |Lower(s)| ==> !('A' <= Lower(s)[i] <= 'Z')
    ensures Lower(Lower(s)) == Lower(s)
  {
  }

  predicate StartsWith(s: string, prefix: string) {
    |prefix| <= |s| && s[..|prefix|] == prefix
  }

  /** Position of the last occurrence of `c` in `s`, or -1 when there is none
      (Python's `str.rfind`). */
  function LastIndex(s: string, c: char): (r: int)
    ensures -1 <= r < |s|
    ensures 0 <= r ==> s[r] == c
    ensures forall k :: r < k < |s| ==> s[k] != c
  {
    if |s| == 0 then -1
    else if s[|s| - 1] == c then |s| - 1
    else LastIndex(s[..|s| - 1], c)
  }

  /** True when some character of `p[lo..hi]` is not a dot. */
  predicate HasNonDot(p: string, lo: int, hi: int)
    requires 0 <= lo && hi <= |p|
  {
    exists k :: lo <= k < hi && p[k] != '.'
  }

  /** POSIX `os.path.splitext`: the extension starts at the last dot of the
      last path component, unless every character of that component before
      the dot is itself a dot (".bashrc", "..", "...x" have no extension). */
  function SplitExt(p: string): (r: (string, string))
    ensures r.0 + r.1 == p
    ensures r.1 != [] ==> r.1[0] == '.' && forall k :: 1 <= k < |r.1| ==> r.1[k] != '.' && r.1[k] != '/'
    ensures r.1 != [] ==> HasNonDot(p, LastIndex(p, '/') + 1, |r.0|)
    ensures r.1 == [] ==>
      forall d :: LastIndex(p, '/') < d < |p| && p[d] == '.' ==> !HasNonDot(p, LastIndex(p, '/') + 1, d)
  {
    var sep := LastIndex(p, '/');
    var dot := LastIndex(p, '.');
    if dot > sep && HasNonDot(p, sep + 1, dot) then
      assert p[..dot] + p[dot..] == p;
      (p[..dot], p[dot..])
    else
      assert forall d :: sep < d < |p| && p[d] == '.' ==> d <= dot;
      (p, "")
  }

  /** "report.xlsx" loses ".xlsx", "a.b.xlsx" only its last extension: for a
      name with no directory part, a stem holding some non-dot character and
      an extension without dots, the root is the stem. */
  lemma SplitExtStem(stem: string, ext: string)
    requires '/' !in stem && '/' !in ext && '.' !in ext
    requires exists k :: 0 <= k < |stem| && stem[k] != '.'
    ensures SplitExt(stem + "." + ext).0 == stem
  {
    var p := stem + "." + ext;
    var sep := LastIndex(p, '/');
    var dot := LastIndex(p, '.');
    assert sep == -1;
    assert p[|stem|] == '.';
    assert dot == |stem|;
    var k :| 0 <= k < |stem| && stem[k] != '.';
    assert p[k] == stem[k];
    assert HasNonDot(p, sep + 1, dot);
    assert p[..dot] == stem;
  }
}
