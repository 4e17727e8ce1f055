/**
 * What the benchmark relies on: the three matchers agree on every input, and
 * the reference answers the documented scenarios.
 */
module Agreement {
  import opened Occurrence
  import opened Wrappers
  import BoyerMoore
  import Kmp
  import RabinKarp

  /**
   * Runs the three matchers on one (text, pattern) pair, as the benchmark
   * does: they agree on every non-empty pattern; on the empty pattern
   * Boyer–Moore and Rabin–Karp give -1 and KMP fails unless the text is empty.
   */
  method SearchAll(text: string, pattern: string) returns (bm: int, kmp: Result<int, Kmp.SearchError>, rk: int)
    ensures |pattern| > 0 ==> kmp == Success(bm) && rk == bm
    ensures |pattern| > 0 ==> bm == FirstOccurrence(text, pattern)
    ensures |pattern| == 0 ==> bm == -1 && rk == -1
    ensures |pattern| == 0 ==> (kmp.Failure? <==> |text| > 0) && (kmp.Success? ==> kmp.value == -1)
  {
    bm := BoyerMoore.BoyerMooreSearch(text, pattern);
    kmp := Kmp.KmpSearch(text, pattern);
    rk := RabinKarp.RabinKarpSearch(text, pattern);
  }

  lemma KmpScenario()
    ensures FirstOccurrence("ABABDABACDABABCABAB", "ABABCABAB") == 10
  {
    var t, p := "ABABDABACDABABCABAB", "ABABCABAB";
    assert MatchesAt(t, p, 10);
    MismatchAt(t, p, 0, 4);
    MismatchAt(t, p, 2, 2);
    MismatchAt(t, p, 5, 3);
    MismatchAt(t, p, 7, 1);
    forall q | q in {1, 3, 4, 6, 8, 9}
      ensures !MatchesAt(t, p, q)
    {
      MismatchAt(t, p, q, 0);
    }
    FirstOccurrenceAt(t, p, 10);
  }

  lemma BoyerMooreScenario()
    ensures FirstOccurrence("HERE IS A SIMPLE EXAMPLE", "EXAMPLE") == 17
  {
    var t, p := "HERE IS A SIMPLE EXAMPLE", "EXAMPLE";
    assert MatchesAt(t, p, 17);
    forall q | 0 <= q < 17
      ensures !MatchesAt(t, p, q)
    {
      if t[q] != 'E' {
        MismatchAt(t, p, q, 0);
      } else {
        MismatchAt(t, p, q, 1);
      }
    }
    FirstOccurrenceAt(t, p, 17);
  }

  lemma RabinKarpScenario()
    ensures FirstOccurrence("GEEKS FOR GEEKS", "GEEK") == 0
    ensures FirstOccurrence("aaaaa", "aaa") == 0
  {
    assert MatchesAt("GEEKS FOR GEEKS", "GEEK", 0);
    FirstOccurrenceAt("GEEKS FOR GEEKS", "GEEK", 0);
    assert MatchesAt("aaaaa", "aaa", 0);
    FirstOccurrenceAt("aaaaa", "aaa", 0);
  }
}
