/**
 * Boyer–Moore search with the bad-character table, in the Horspool form of
 * the source: after a mismatch the shift is looked up for the text character
 * aligned with the pattern's LAST position, whatever position mismatched.
 */
module BoyerMoore {
  import opened Occurrence

  /** Index of the last occurrence of c in s, or -1 when c does not occur. */
  function LastIndex(s: string, c: char): (r: int)
    ensures -1 <= r < |s|
    ensures r == -1 <==> c !in s
    ensures r >= 0 ==> s[r] == c && forall k :: r < k < |s| ==> s[k] != c
  {
    if |s| == 0 then -1
    else if s[|s| - 1] == c then |s| - 1
    else LastIndex(s[..|s| - 1], c)
  }

  /**
   * The intended bad-character shift for text character c: the distance from
   * the last occurrence of c among all but the final pattern position to the
   * pattern's end, or the whole pattern length when c does not occur there.
   */
  function ShiftOf(pattern: string, c: char): (s: int)
    requires |pattern| > 0
    ensures 1 <= s <= |pattern|
    ensures c in pattern[..|pattern| - 1] ==> s < |pattern| && pattern[|pattern| - 1 - s] == c
  {
    var m := |pattern|;
    var last := LastIndex(pattern[..m - 1], c);
    if last == -1 then m else m - 1 - last
  }

  /** Dictionary lookup with the default value supplied by the caller. */
  function Lookup(table: map<char, int>, c: char, default: int): int
  {
    if c in table then table[c] else default
  }

  /**
   * Fill the table: every character but the last is mapped to its distance to
   * the pattern's end (later positions overwrite earlier ones), then the last
   * character is mapped to the pattern length only when it is not yet a key.
   */
  method BuildShiftTable(pattern: string) returns (table: map<char, int>)
    requires |pattern| > 0
    ensures forall c :: c in table <==> c in pattern
    ensures forall c :: Lookup(table, c, |pattern|) == ShiftOf(pattern, c)
  {
    var m := |pattern|;
    table := map[];
    var i := 0;
    while i < m - 1
      invariant 0 <= i <= m - 1
      invariant forall c :: c in table <==> c in pattern[..i]
      invariant forall c :: c in table ==> table[c] == m - 1 - LastIndex(pattern[..i], c)
    {
      assert pattern[..i + 1][..i] == pattern[..i];
      assert pattern[..i + 1] == pattern[..i] + [pattern[i]];
      table := table[pattern[i] := m - i - 1];
      i := i + 1;
    }
    assert pattern == pattern[..m - 1] + [pattern[m - 1]];
    if pattern[m - 1] !in table {
      table := table[pattern[m - 1] := m];
    }
  }

  /**
   * What a table with those two properties holds: each key maps to its
   * intended shift, in [1, m]; a character of pattern[..m-1] maps to the
   * distance from its last occurrence there to the end; the last character
   * maps to m only when it does not occur earlier.
   */
  lemma ShiftTableValues(pattern: string, table: map<char, int>)
    requires |pattern| > 0
    requires forall c :: c in table <==> c in pattern
    requires forall c :: Lookup(table, c, |pattern|) == ShiftOf(pattern, c)
    ensures forall c :: c in table ==> table[c] == ShiftOf(pattern, c) && 1 <= table[c] <= |pattern|
    ensures forall c :: c in pattern[..|pattern| - 1] ==> table[c] == |pattern| - 1 - LastIndex(pattern[..|pattern| - 1], c)
    ensures pattern[|pattern| - 1] in table
    ensures table[pattern[|pattern| - 1]] == |pattern| <==> pattern[|pattern| - 1] !in pattern[..|pattern| - 1]
  {
    var m := |pattern|;
    assert pattern == pattern[..m - 1] + [pattern[m - 1]];
    assert forall c :: c in table ==> table[c] == Lookup(table, c, m);
  }

  /** Shift safety: sliding by the table's shift never skips an occurrence. */
  lemma ShiftSkipsNoOccurrence(text: string, pattern: string, i: nat)
    requires |pattern| > 0 && i + |pattern| <= |text|
    ensures forall q :: i < q < i + ShiftOf(pattern, text[i + |pattern| - 1]) ==> !MatchesAt(text, pattern, q)
  {
  }

  /** One round of the search: no occurrence before i, none at i, so none before i + shift. */
  lemma ShiftStep(text: string, pattern: string, i: nat)
    requires |pattern| > 0 && i + |pattern| <= |text|
    requires forall q :: 0 <= q < i ==> !MatchesAt(text, pattern, q)
    requires !MatchesAt(text, pattern, i)
    ensures forall q :: 0 <= q < i + ShiftOf(pattern, text[i + |pattern| - 1]) ==> !MatchesAt(text, pattern, q)
  {
    ShiftSkipsNoOccurrence(text, pattern, i);
  }

  /**
   * Compares the pattern with the window at i from right to left; -1 when the
   * whole window agrees, otherwise the rightmost position that differs.
   */
  method CompareFromEnd(text: string, pattern: string, i: nat) returns (j: int)
    requires i + |pattern| <= |text|
    ensures -1 <= j < |pattern|
    ensures j == -1 <==> MatchesAt(text, pattern, i)
    ensures j >= 0 ==> text[i + j] != pattern[j] && forall k :: j < k < |pattern| ==> text[i + k] == pattern[k]
  {
    var m := |pattern|;
    j := m - 1;
    while j >= 0 && text[i + j] == pattern[j]
      invariant -1 <= j < m
      invariant forall k :: j < k < m ==> text[i + k] == pattern[k]
    {
      j := j - 1;
    }
    if j < 0 {
      MatchAt(text, pattern, i);
    } else {
      MismatchAt(text, pattern, i, j);
    }
  }

  /**
   * First occurrence of the pattern in the text, or -1; -1 also for an empty
   * pattern or an empty text.
   */
  method BoyerMooreSearch(text: string, pattern: string) returns (r: int)
    ensures r == (if |pattern| == 0 then -1 else FirstOccurrence(text, pattern))
    ensures |pattern| == 0 || |text| == 0 || |pattern| > |text| ==> r == -1
  {
    if |pattern| == 0 || |text| == 0 {
      return -1;
    }
    var table := BuildShiftTable(pattern);
    var i := 0;
    var m := |pattern|;
    var n := |text|;
    while i <= n - m
      invariant 0 <= i
      invariant forall q :: 0 <= q < i ==> !MatchesAt(text, pattern, q)
      decreases n - i
    {
      var j := CompareFromEnd(text, pattern, i);
      if j < 0 {
        FirstOccurrenceAt(text, pattern, i);
        return i;
      }
      ShiftStep(text, pattern, i);
      i := i + Lookup(table, text[i + m - 1], m);
    }
    NotFoundIff(text, pattern);
    return -1;
  }
}
