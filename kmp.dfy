/**
 * Knuth–Morris–Pratt search: the LPS (prefix-function) array and the matcher
 * that falls back along it.
 */
module Kmp {
  import opened Occurrence
  import opened Wrappers

  /** k is the length of a proper prefix of s that is also a suffix of s. */
  predicate IsBorder(s: string, k: int)
  {
    0 <= k < |s| && s[..k] == s[|s| - k..]
  }

  /** The longest border of s among the lengths 0..k. */
  function LongestBorderUpTo(s: string, k: nat): (b: nat)
    requires k < |s|
    ensures b <= k && IsBorder(s, b)
    ensures forall b' :: b < b' <= k ==> !IsBorder(s, b')
  {
    if k == 0 then
      assert s[..0] == s[|s|..];
      0
    else if IsBorder(s, k) then k
    else LongestBorderUpTo(s, k - 1)
  }

  /** Length of the longest proper prefix of s that is also a suffix of s. */
  function LongestBorder(s: string): (b: nat)
    requires |s| > 0
    ensures b < |s| && IsBorder(s, b)
    ensures forall b' :: IsBorder(s, b') ==> b' <= b
  {
    LongestBorderUpTo(s, |s| - 1)
  }

  /** A border of p[..i] followed by a matching character is a border of p[..i + 1]. */
  lemma BorderExtend(p: string, i: nat, k: nat)
    requires k < i < |p| && IsBorder(p[..i], k) && p[k] == p[i]
    ensures IsBorder(p[..i + 1], k + 1)
  {
    assert p[..i][..k] == p[..k];
    assert p[..i][i - k..] == p[i - k..i];
    assert p[..i + 1][..k + 1] == p[..k] + [p[k]];
    assert p[..i + 1][i - k..] == p[i - k..i] + [p[i]];
  }

  /** A non-empty border of p[..i + 1] is a border of p[..i] extended by p[i]. */
  lemma BorderShrink(p: string, i: nat, b: nat)
    requires i < |p| && 0 < b && IsBorder(p[..i + 1], b)
    ensures IsBorder(p[..i], b - 1) && p[b - 1] == p[i]
  {
    var s := p[..i + 1];
    assert s[..b][b - 1] == s[i + 1 - b..][b - 1];
    assert p[..i][..b - 1] == s[..b][..b - 1];
    assert p[..i][i - (b - 1)..] == s[i + 1 - b..][..b - 1];
  }

  /** A shorter border of s is a border of s's longer border. */
  lemma BorderOfBorder(s: string, l: nat, b: nat)
    requires IsBorder(s, l) && IsBorder(s, b) && b < l
    ensures IsBorder(s[..l], b)
  {
    var t := s[..l];
    assert t[..b] == s[..b];
    assert t[l - b..] == s[|s| - l..][l - b..];
    assert s[|s| - l..][l - b..] == s[|s| - b..];
  }

  /** Every non-empty border of p[..n] comes from a border of p[..n - 1] extended by p[n - 1]. */
  lemma BordersOfExtension(p: string, n: nat)
    requires 0 < n <= |p|
    ensures forall b :: 0 < b && IsBorder(p[..n], b) ==> IsBorder(p[..n - 1], b - 1) && p[b - 1] == p[n - 1]
  {
    forall b | 0 < b && IsBorder(p[..n], b)
      ensures IsBorder(p[..n - 1], b - 1) && p[b - 1] == p[n - 1]
    {
      BorderShrink(p, n - 1, b);
    }
  }

  /** Every border of s shorter than the border l is a border of s[..l]. */
  lemma BordersOfBorder(s: string, l: nat)
    requires IsBorder(s, l)
    ensures forall b :: b < l && IsBorder(s, b) ==> IsBorder(s[..l], b)
  {
    forall b | b < l && IsBorder(s, b)
      ensures IsBorder(s[..l], b)
    {
      BorderOfBorder(s, l, b);
    }
  }

  /** A border of a border of s is a border of s. */
  lemma BorderTrans(s: string, l: nat, b: nat)
    requires IsBorder(s, l) && IsBorder(s[..l], b)
    ensures IsBorder(s, b)
  {
    assert s[..l][..b] == s[..b];
    assert s[..l][l - b..] == s[|s| - l..][l - b..];
    assert s[|s| - l..][l - b..] == s[|s| - b..];
  }

  /** The matching step of the construction: the candidate grows by one and is the longest border. */
  lemma ExtendStep(p: string, i: nat, length: nat)
    requires length < i < |p|
    requires IsBorder(p[..i], length) && p[i] == p[length]
    requires forall b :: length < b < i && IsBorder(p[..i], b) ==> p[b] != p[i]
    ensures LongestBorder(p[..i + 1]) == length + 1
  {
    BorderExtend(p, i, length);
    BordersOfExtension(p, i + 1);
  }

  /** The reset step: with no candidate left and p[i] != p[0], p[..i + 1] has only the empty border. */
  lemma ResetStep(p: string, i: nat)
    requires 0 < i < |p| && p[i] != p[0]
    requires forall b :: 0 < b < i && IsBorder(p[..i], b) ==> p[b] != p[i]
    ensures LongestBorder(p[..i + 1]) == 0
  {
    BordersOfExtension(p, i + 1);
  }

  /**
   * The fall-back step: after a mismatch, the longest border of the candidate
   * prefix is the next candidate, and no border in between could extend.
   */
  lemma FallBackStep(p: string, i: nat, length: nat)
    requires 0 < length < i < |p|
    requires IsBorder(p[..i], length) && p[i] != p[length]
    requires forall b :: length < b < i && IsBorder(p[..i], b) ==> p[b] != p[i]
    ensures var shorter := LongestBorder(p[..length]);
      IsBorder(p[..i], shorter) &&
      forall b :: shorter < b < i && IsBorder(p[..i], b) ==> p[b] != p[i]
  {
    var shorter := LongestBorder(p[..length]);
    assert p[..i][..length] == p[..length];
    BorderTrans(p[..i], length, shorter);
    BordersOfBorder(p[..i], length);
  }

  /**
   * The LPS array: entry k is the length of the longest proper prefix of
   * pattern[..k + 1] that is also its suffix.
   */
  method ComputeLps(pattern: string) returns (lps: seq<nat>)
    ensures |lps| == |pattern|
    ensures forall k :: 0 <= k < |pattern| ==> lps[k] == LongestBorder(pattern[..k + 1])
    ensures forall k :: 0 <= k < |pattern| ==> lps[k] <= k
    ensures |pattern| > 0 ==> lps[0] == 0
  {
    var m := |pattern|;
    var a := new nat[m](_ => 0);
    var length := 0;
    var i := 1;
    while i < m
      invariant 1 <= i && (i <= m || m == 0)
      invariant 0 <= length < i
      invariant forall k :: 0 <= k < i && k < m ==> a[k] == LongestBorder(pattern[..k + 1])
      invariant i < m ==> IsBorder(pattern[..i], length)
      invariant i < m ==> forall b :: length < b < i && IsBorder(pattern[..i], b) ==> pattern[b] != pattern[i]
      decreases m - i, length
    {
      if pattern[i] == pattern[length] {
        ExtendStep(pattern, i, length);
        length := length + 1;
        a[i] := length;
        i := i + 1;
      } else if length != 0 {
        FallBackStep(pattern, i, length);
        length := a[length - 1];
      } else {
        ResetStep(pattern, i);
        a[i] := 0;
        i := i + 1;
      }
    }
    lps := a[..];
  }

  /** The only error of the matcher: reading pattern[0] of an empty pattern. */
  datatype SearchError = PatternIndexOutOfRange

  /**
   * After a mismatch at pattern position j, falling back to the longest border
   * of pattern[..j] keeps the matched window and skips no occurrence.
   */
  lemma FallBackSkipsNoOccurrence(text: string, pattern: string, i: nat, j: nat)
    requires 0 < j < |pattern| && j <= i < |text|
    requires text[i - j..i] == pattern[..j]
    requires text[i] != pattern[j]
    ensures var b := LongestBorder(pattern[..j]);
      text[i - b..i] == pattern[..b] &&
      forall q :: i - j <= q < i - b ==> !MatchesAt(text, pattern, q)
  {
    var b := LongestBorder(pattern[..j]);
    assert text[i - b..i] == text[i - j..i][j - b..];
    assert pattern[..j][..b] == pattern[..b];
    WindowOccurrenceIsBorder(text, pattern, i, j);
  }

  /**
   * An occurrence starting inside the matched window text[i - j..i] makes its
   * overlap with the window a border of pattern[..j].
   */
  lemma WindowOccurrenceIsBorder(text: string, pattern: string, i: nat, j: nat)
    requires j < |pattern| && j <= i <= |text|
    requires text[i - j..i] == pattern[..j]
    ensures forall q :: i - j < q < i && MatchesAt(text, pattern, q) ==> IsBorder(pattern[..j], i - q)
  {
    forall q | i - j < q < i && MatchesAt(text, pattern, q)
      ensures IsBorder(pattern[..j], i - q)
    {
      var d := i - q;
      assert pattern[..d] == text[q..q + |pattern|][..d] == text[q..i];
      assert text[q..i] == text[i - j..i][j - d..];
      assert pattern[..j][..d] == pattern[..d];
    }
  }

  /**
   * First occurrence of the pattern in the text, or -1. An empty pattern with
   * a non-empty text fails, because the first comparison reads pattern[0].
   */
  method KmpSearch(text: string, pattern: string) returns (r: Result<int, SearchError>)
    ensures r.Failure? <==> |pattern| == 0 && |text| > 0
    ensures r.Success? ==> r.value == (if |pattern| == 0 then -1 else FirstOccurrence(text, pattern))
  {
    var m := |pattern|;
    var n := |text|;
    var lps := ComputeLps(pattern);
    var i := 0;
    var j := 0;
    while i < n
      invariant 0 <= j <= i <= n
      invariant j < m || j == 0
      invariant text[i - j..i] == pattern[..j]
      invariant forall q :: 0 <= q < i - j ==> !MatchesAt(text, pattern, q)
      decreases n - i, j
    {
      if j >= m {
        return Failure(PatternIndexOutOfRange);
      }
      if pattern[j] == text[i] {
        assert text[i - j..i + 1] == text[i - j..i] + [text[i]];
        assert pattern[..j + 1] == pattern[..j] + [pattern[j]];
        i := i + 1;
        j := j + 1;
      } else if j != 0 {
        FallBackSkipsNoOccurrence(text, pattern, i, j);
        j := lps[j - 1];
      } else {
        assert !MatchesAt(text, pattern, i) by {
          if i + m <= n {
            assert text[i..i + m][0] == text[i];
          }
        }
        i := i + 1;
      }
      if j == m {
        FirstOccurrenceAt(text, pattern, i - j);
        return Success(i - j);
      }
    }
    NotFoundIff(text, pattern);
    return Success(-1);
  }
}
