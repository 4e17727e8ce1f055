/**
 * The brute-force reference every matcher is proved against:
 * the least index at which the pattern occurs in the text, or -1.
 */
module Occurrence {

  /** The pattern occurs in the text starting at index r. */
  predicate MatchesAt(text: string, pattern: string, r: int)
  {
    0 <= r && r + |pattern| <= |text| && text[r..r + |pattern|] == pattern
  }

  /** Least index r >= k at which the pattern occurs, or -1 when there is none. */
  function FirstFrom(text: string, pattern: string, k: nat): (r: int)
    ensures r == -1 || (k <= r && MatchesAt(text, pattern, r))
    ensures forall q :: k <= q && (r == -1 || q < r) ==> !MatchesAt(text, pattern, q)
    decreases |text| - k
  {
    if k + |pattern| > |text| then -1
    else if MatchesAt(text, pattern, k) then k
    else FirstFrom(text, pattern, k + 1)
  }

  /** Least index r with text[r..r + |pattern|] == pattern, or -1 when the pattern does not occur. */
  function FirstOccurrence(text: string, pattern: string): (r: int)
    ensures r == -1 || MatchesAt(text, pattern, r)
    ensures forall q :: 0 <= q && (r == -1 || q < r) ==> !MatchesAt(text, pattern, q)
  {
    FirstFrom(text, pattern, 0)
  }

  /** An occurrence with no earlier occurrence is the first one. */
  lemma FirstOccurrenceAt(text: string, pattern: string, r: nat)
    requires MatchesAt(text, pattern, r)
    requires forall q :: 0 <= q < r ==> !MatchesAt(text, pattern, q)
    ensures FirstOccurrence(text, pattern) == r
  {
  }

  /** One differing character rules out an occurrence. */
  lemma MismatchAt(text: string, pattern: string, q: nat, k: nat)
    requires k < |pattern| && q + k < |text| && text[q + k] != pattern[k]
    ensures !MatchesAt(text, pattern, q)
  {
    if q + |pattern| <= |text| {
      assert text[q..q + |pattern|][k] == text[q + k];
    }
  }

  /** Agreement at every pattern position is an occurrence. */
  lemma MatchAt(text: string, pattern: string, q: nat)
    requires q + |pattern| <= |text|
    requires forall k :: 0 <= k < |pattern| ==> text[q + k] == pattern[k]
    ensures MatchesAt(text, pattern, q)
  {
    assert text[q..q + |pattern|] == pattern;
  }

  /** The reference answers -1 exactly when the pattern occurs nowhere. */
  lemma NotFoundIff(text: string, pattern: string)
    ensures FirstOccurrence(text, pattern) == -1 <==> forall q :: !MatchesAt(text, pattern, q)
  {
  }

  /** A pattern longer than the text occurs nowhere; in particular not in an empty text. */
  lemma LongerPatternNotFound(text: string, pattern: string)
    requires |pattern| > |text|
    ensures FirstOccurrence(text, pattern) == -1
  {
  }

  /** The empty pattern occurs at index 0 of every text (the matchers deviate here). */
  lemma EmptyPatternAtZero(text: string)
    ensures FirstOccurrence(text, "") == 0
  {
    assert MatchesAt(text, "", 0);
  }
}
