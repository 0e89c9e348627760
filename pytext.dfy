/**
  Python string semantics used by the extractor: `str.isspace` on one
  character, `str.strip()` with no argument, and `str.lower()` restricted to
  ASCII letters.
 */
module PyText {

  /** Python's `str.isspace` for a single character: the code points whose
      bidirectional class is WS, B or S, or whose category is Zs. */
  predicate IsSpace(c: char) {
    ('\t' <= c <= '\r') || ('\U{1C}' <= c <= '\U{1F}') || c == ' '
    || c == '\U{85}' || c == '\U{A0}' || c == '\U{1680}'
    || ('\U{2000}' <= c <= '\U{200A}')
    || c == '\U{2028}' || c == '\U{2029}' || c == '\U{202F}'
    || c == '\U{205F}' || c == '\U{3000}'
  }

  /** On ASCII, `isspace` holds for the six C whitespace characters and the
      four information separators, and for nothing else. */
  lemma AsciiSpaces(c: char)
    requires c < '\U{80}'
    ensures IsSpace(c) <==> c in {'\t', '\n', '\U{0B}', '\U{0C}', '\r', '\U{1C}', '\U{1D}', '\U{1E}', '\U{1F}', ' '}
  {
  }

  /** Empty or whitespace only: the strings whose `strip()` is falsy. */
  predicate IsBlank(s: string) {
    forall i :: 0 <= i < |s| ==> IsSpace(s[i])
  }

  /** No whitespace at either end. */
  predicate IsTrimmed(s: string) {
    s == [] || (!IsSpace(s[0]) && !IsSpace(s[|s| - 1]))
  }

  /** Length of the longest all-whitespace prefix. */
  function LeadingBlanks(s: string): (k: nat)
    ensures k <= |s|
    ensures forall i :: 0 <= i < k ==> IsSpace(s[i])
    ensures k < |s| ==> !IsSpace(s[k])
  {
    if s == [] || !IsSpace(s[0]) then 0 else 1 + LeadingBlanks(s[1..])
  }

  /** Length of the longest all-whitespace suffix. */
  function TrailingBlanks(s: string): (k: nat)
    ensures k <= |s|
    ensures forall i :: |s| - k <= i < |s| ==> IsSpace(s[i])
    ensures k < |s| ==> !IsSpace(s[|s| - k - 1])
  {
    if s == [] || !IsSpace(s[|s| - 1]) then 0 else 1 + TrailingBlanks(s[..|s| - 1])
  }

  /** `r` is a trimmed slice `s[i..j]` of `s` with only whitespace before
      `i` and after `j`: an independent description of what `strip()`
      returns. */
  ghost predicate StripsTo(s: string, r: string) {
    IsTrimmed(r) &&
    exists i, j :: 0 <= i <= j <= |s| && r == s[i..j] && IsBlank(s[..i]) && IsBlank(s[j..])
  }

  /** Python's `s.strip()`: skip leading whitespace, then cut trailing
      whitespace from what remains. */
  function Strip(s: string): (r: string)
    ensures |r| <= |s|
    ensures IsTrimmed(r)
  {
    var i := LeadingBlanks(s);
    s[i..|s| - TrailingBlanks(s[i..])]
  }

  /** What `Strip` returns is the slice `StripsTo` describes. */
  lemma StripSlice(s: string)
    ensures StripsTo(s, Strip(s))
  {
    var i := LeadingBlanks(s);
    var j := |s| - TrailingBlanks(s[i..]);
    assert IsBlank(s[..i]) && IsBlank(s[j..]);
  }

  /** Any decomposition `pre + t + post` with blank ends and a trimmed middle
      is the one `strip()` finds. */
  lemma StripUnique(pre: string, t: string, post: string)
    requires IsBlank(pre) && IsBlank(post) && IsTrimmed(t)
    ensures Strip(pre + t + post) == t
  {
    var s := pre + t + post;
    var i := LeadingBlanks(s);
    if t == [] {
      assert IsBlank(s) by {
        forall k | 0 <= k < |s| ensures IsSpace(s[k]) {
          if k < |pre| { assert s[k] == pre[k]; } else { assert s[k] == post[k - |pre|]; }
        }
      }
      assert i == |s|;
      assert Strip(s) == s[|s|..|s|];
    } else {
      assert s[|pre|] == t[0];
      assert forall k :: 0 <= k < |pre| ==> s[k] == pre[k];
      assert i == |pre|;
      var u := s[i..];
      assert u == t + post;
      var n := TrailingBlanks(u);
      assert u[|t| - 1] == t[|t| - 1];
      assert forall k :: |t| <= k < |u| ==> u[k] == post[k - |t|];
      assert n == |post|;
      assert s[i..|s| - n] == t;
    }
  }

  /** The two descriptions of `strip()` agree on every input. */
  lemma StripCharacterization(s: string, r: string)
    ensures StripsTo(s, r) <==> r == Strip(s)
  {
    StripSlice(s);
    if StripsTo(s, r) {
      var i, j :| 0 <= i <= j <= |s| && r == s[i..j] && IsBlank(s[..i]) && IsBlank(s[j..]);
      SliceSplit(s, i, j);
      StripUnique(s[..i], s[i..j], s[j..]);
    }
  }

  lemma SliceSplit(s: string, i: nat, j: nat)
    requires i <= j <= |s|
    ensures s[..i] + s[i..j] + s[j..] == s
  {
  }

  /** Stripping twice is stripping once. */
  lemma StripIdempotent(s: string)
    ensures Strip(Strip(s)) == Strip(s)
  {
    var t := Strip(s);
    assert [] + t + [] == t;
    StripUnique([], t, []);
  }

  /** A trimmed string is its own `strip()`. */
  lemma StripTrimmed(t: string)
    requires IsTrimmed(t)
    ensures Strip(t) == t
  {
    assert [] + t + [] == t;
    StripUnique([], t, []);
  }

  /** `not s.strip()` holds exactly for the blank strings. */
  lemma StripEmptyIffBlank(s: string)
    ensures Strip(s) == [] <==> IsBlank(s)
  {
    if IsBlank(s) {
      assert s + [] + [] == s;
      StripUnique(s, [], []);
    } else {
      var m :| 0 <= m < |s| && !IsSpace(s[m]);
      var i := LeadingBlanks(s);
      assert i <= m;
      var u := s[i..];
      assert u[0] == s[i];
      var k := TrailingBlanks(u);
      assert k < |u|;
      assert |Strip(s)| == |u| - k;
    }
  }

  /** `str.lower()` on one character, ASCII letters only. */
  function LowerChar(c: char): (r: char)
    ensures !('A' <= r <= 'Z')
    ensures 'A' <= c <= 'Z' ==> r as int == c as int + 32
    ensures !('A' <= c <= 'Z') ==> r == c
  {
    if 'A' <= c <= 'Z' then (c as int + 32) as char else c
  }

  /** `str.lower()` character by character, ASCII letters only. */
  function LowerAscii(s: string): string {
    seq(|s|, i requires 0 <= i < |s| => LowerChar(s[i]))
  }

  /** Lower-casing keeps the length, leaves no ASCII capital, moves each
      capital 32 code points down and keeps every other character. */
  lemma LowerAsciiSpec(s: string)
    ensures |LowerAscii(s)| == |s|
    ensures forall i :: 0 <= i < |s| ==> !('A' <= LowerAscii(s)[i] <= 'Z')
    ensures forall i :: 0 <= i < |s| && !('A' <= s[i] <= 'Z') ==> LowerAscii(s)[i] == s[i]
    ensures forall i :: 0 <= i < |s| && 'A' <= s[i] <= 'Z' ==> LowerAscii(s)[i] as int == s[i] as int + 32
  {
  }

  /** Lower-casing twice is lower-casing once. */
  lemma LowerIdempotent(s: string)
    ensures LowerAscii(LowerAscii(s)) == LowerAscii(s)
  {
  }
}
