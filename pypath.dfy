/**
  Python's `os.path.splitext` for POSIX paths (`posixpath`: separator '/',
  no alternative separator, extension separator '.').
 */
module PyPath {
  import opened PyText

  /** `s.rfind(c)`: the index of the last `c` in `s`, or -1. */
  function LastIndex(s: string, c: char): (k: int)
    ensures -1 <= k < |s|
    ensures k >= 0 ==> s[k] == c
    ensures forall j :: k < j < |s| ==> s[j] != c
  {
    LastIndexBelow(s, c, |s|)
  }

  /** The index of the last `c` in `s[..n]`, or -1. */
  function LastIndexBelow(s: string, c: char, n: nat): (k: int)
    requires n <= |s|
    ensures -1 <= k < n
    ensures k >= 0 ==> s[k] == c
    ensures forall j :: k < j < n ==> s[j] != c
  {
    if n == 0 then -1
    else if s[n - 1] == c then n - 1
    else LastIndexBelow(s, c, n - 1)
  }

  /** The last occurrence is determined by the two facts `LastIndex` ensures. */
  lemma LastIndexIs(s: string, c: char, k: int)
    requires -1 <= k < |s|
    requires k >= 0 ==> s[k] == c
    requires forall j :: k < j < |s| ==> s[j] != c
    ensures LastIndex(s, c) == k
  {
  }

  /** Every character is a dot (vacuously true of ""). */
  predicate AllDots(s: string) {
    forall i :: 0 <= i < |s| ==> s[i] == '.'
  }

  /** No character is a dot. */
  predicate NoDot(s: string) {
    forall i :: 0 <= i < |s| ==> s[i] != '.'
  }

  /** No character is a path separator. */
  predicate NoSlash(s: string) {
    forall i :: 0 <= i < |s| ==> s[i] != '/'
  }

  /** The last path component of `p` has a character other than '.' before
      index `d`. */
  ghost predicate HasStem(p: string, d: int) {
    exists j {:trigger NoSlash(p[j..])} :: 0 <= j < d <= |p| && p[j] != '.' && NoSlash(p[j..])
  }

  /** `e` is the extension of `p` as Python documents it: a suffix of `p`
      that starts with '.', holds no other '.', and is preceded in the last
      path component by some character other than '.'. (It then holds no
      '/' either.) */
  ghost predicate IsExtOf(p: string, e: string) {
    0 < |e| <= |p| && p[|p| - |e|..] == e && e[0] == '.' && NoDot(e[1..])
    && HasStem(p, |p| - |e|)
  }

  /** `os.path.splitext(p)`: the extension starts at the last '.' after the
      last '/', unless everything between that '/' and that '.' is a dot
      (a leading-dot name such as ".pdf" or "..pdf" has no extension). */
  function SplitExt(p: string): (parts: (string, string))
    ensures parts.0 + parts.1 == p
    ensures parts.1 == [] || IsExtOf(p, parts.1)
  {
    var sepIndex := LastIndex(p, '/');
    var dotIndex := LastIndex(p, '.');
    if dotIndex > sepIndex && !AllDots(p[sepIndex + 1 .. dotIndex]) then
      SplitExtFound(p, sepIndex, dotIndex);
      assert p[..dotIndex] + p[dotIndex..] == p;
      (p[..dotIndex], p[dotIndex..])
    else
      assert p + [] == p;
      (p, [])
  }

  /** The split `SplitExt` makes is one `IsExtOf` describes. */
  lemma SplitExtFound(p: string, sepIndex: int, dotIndex: int)
    requires -1 <= sepIndex < dotIndex < |p| && p[dotIndex] == '.'
    requires forall m :: sepIndex < m < |p| ==> p[m] != '/'
    requires forall m :: dotIndex < m < |p| ==> p[m] != '.'
    requires !AllDots(p[sepIndex + 1 .. dotIndex])
    ensures IsExtOf(p, p[dotIndex..])
  {
    var stem := p[sepIndex + 1 .. dotIndex];
    var i :| 0 <= i < |stem| && stem[i] != '.';
    var j := sepIndex + 1 + i;
    assert p[j] == stem[i];
    assert NoSlash(p[j..]) by {
      forall m | 0 <= m < |p| - j ensures p[j..][m] != '/' {
        assert p[j..][m] == p[j + m];
      }
    }
    var e := p[dotIndex..];
    assert NoDot(e[1..]) by {
      forall m | 0 <= m < |e| - 1 ensures e[1..][m] != '.' {
        assert e[1..][m] == p[dotIndex + 1 + m];
      }
    }
  }

  /** A stem before `d` lies after the last '/', so the text between that
      '/' and `d` is not all dots. */
  lemma StemAfterLastSlash(p: string, j: nat, d: int)
    requires j < d <= |p| && p[j] != '.' && NoSlash(p[j..])
    ensures LastIndex(p, '/') < d
    ensures !AllDots(p[LastIndex(p, '/') + 1 .. d])
  {
    SlashBefore(p, j);
    var sepIndex := LastIndex(p, '/');
    var stem := p[sepIndex + 1 .. d];
    assert stem[j - sepIndex - 1] == p[j];
  }

  /** The last '/' comes before any suffix free of '/'. */
  lemma SlashBefore(p: string, j: nat)
    requires j <= |p| && NoSlash(p[j..])
    ensures LastIndex(p, '/') < j
  {
    forall m | j <= m < |p| ensures p[m] != '/' {
      assert p[m] == p[j..][m - j];
    }
  }

  /** `SplitExt` finds every extension `IsExtOf` describes, so together with
      its own ensures the two agree on every path. */
  lemma ExtUnique(p: string, e: string)
    requires IsExtOf(p, e)
    ensures SplitExt(p).1 == e
  {
    var d := |p| - |e|;
    forall m | d < m < |p| ensures p[m] != '.' {
      assert p[m] == e[1..][m - d - 1];
    }
    assert p[d] == e[0];
    LastIndexIs(p, '.', d);
    var j :| 0 <= j < d && p[j] != '.' && NoSlash(p[j..]);
    StemAfterLastSlash(p, j, d);
  }

  /** Paths without a '.' have the empty extension. */
  lemma NoDotNoExt(p: string)
    requires forall i :: 0 <= i < |p| ==> p[i] != '.'
    ensures SplitExt(p).1 == []
  {
    LastIndexIs(p, '.', -1);
  }

  /** Lower-casing keeps the positions of '.' and '/'. */
  lemma LowerKeepsLastIndex(p: string, c: char)
    requires c == '.' || c == '/'
    ensures LastIndex(LowerAscii(p), c) == LastIndex(p, c)
  {
    var q := LowerAscii(p);
    var k := LastIndex(p, c);
    assert forall j :: k < j < |q| ==> q[j] == LowerChar(p[j]);
    LastIndexIs(q, c, k);
  }

  /** Lower-casing keeps a run of dots a run of dots, and only that. */
  lemma LowerKeepsAllDots(s: string)
    ensures AllDots(LowerAscii(s)) <==> AllDots(s)
  {
    var q := LowerAscii(s);
    assert forall i :: 0 <= i < |s| ==> q[i] == LowerChar(s[i]);
  }

  /** Lower-casing the path and taking the extension commute: lower-casing
      never creates or removes a '.' or a '/'. */
  lemma {:induction false} ExtLowerCommutes(p: string)
    ensures SplitExt(LowerAscii(p)).1 == LowerAscii(SplitExt(p).1)
  {
    var q := LowerAscii(p);
    var sepIndex := LastIndex(p, '/');
    var dotIndex := LastIndex(p, '.');
    LowerKeepsLastIndex(p, '/');
    LowerKeepsLastIndex(p, '.');
    if dotIndex > sepIndex {
      var a, b := sepIndex + 1, dotIndex;
      assert q[a..b] == LowerAscii(p[a..b]);
      LowerKeepsAllDots(p[a..b]);
      assert q[b..] == LowerAscii(p[b..]);
    }
  }
}
