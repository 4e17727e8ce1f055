# Substring search and lower-bound binary search, verified in Dafny

This project models the substring-search engine of the repository
(`task_03/task_03.py`) and its small lower-bound binary search (`task_02.py`).

The search engine has three first-occurrence matchers. Each one is a method
with the source's loops, proved equal to one brute-force reference,
`Occurrence.FirstOccurrence`. That reference is the least index `r` with
`text[r..r + |pattern|] == pattern`, or -1 when there is none.

- **Boyer–Moore** (`BoyerMoore`). The bad-character table is a `map<char, int>`
  filled in a loop. It equals `ShiftOf`, the distance from the last occurrence
  of a character in `pattern[..m-1]` to the pattern's end, or `m` when the
  character is not there. The matcher always takes the shift of the text
  character under the pattern's last position, as in Horspool's variant.
  `ShiftSkipsNoOccurrence` proves that this shift never skips an occurrence.
- **Knuth–Morris–Pratt** (`Kmp`). `ComputeLps` fills an array in place and is
  proved to return, at each position, the length of the longest proper prefix
  that is also a suffix (`LongestBorder`). The border lemmas carry the classic
  fall-back argument. `FallBackSkipsNoOccurrence` is the matcher's invariant
  step: the matched window is kept and no occurrence is skipped.
- **Rabin–Karp** (`RabinKarp`). `PolynomialHash` is the source's loop, proved
  equal to `Hash`: the sum of `ord(s[k]) * base^(n-1-k)`, reduced modulo the
  modulus. `RollingHashStep` proves that the update with base 256 and modulus
  101 gives the hash recomputed from scratch on the next window. So the
  hash kept by the matcher is always in `[0, 101)`, and the source's
  renormalisation (`if current_slice_hash < 0`) never fires.
- **Agreement** (`Agreement`). `SearchAll` runs the three matchers, as the
  benchmark does. They agree on every non-empty pattern. The scenario lemmas
  fix the reference's answer on the documented inputs.

`BinarySearch.FloatBinarySearch` is the `while` loop of `float_binary_search`
over a sorted sequence. It is proved to return the smallest element `>= x`, or
`None` exactly when every element is below `x`. It also returns its iteration
count: 0 for an empty array, and otherwise between 1 and `BitLength(n)`.
`BitLength(n)` is `floor(log2 n) + 1`.

Python `str` values are sequences of code points, so texts and patterns are
`string` (`seq<char>`) and `ord(c)` is `c as int`. Python's `%` with a positive
modulus is Dafny's Euclidean `%`. Python integers are unbounded, like Dafny's.

Empty patterns differ between the matchers, and the model follows the code:

- Boyer–Moore and Rabin–Karp return -1 for an empty pattern. The reference
  puts the empty pattern at index 0 (`EmptyPatternAtZero`).
- `kmp_search` has no such guard. With an empty pattern and a non-empty text,
  its first comparison reads `pattern[0]` and raises `IndexError`.
  `KmpSearch` returns `Failure(PatternIndexOutOfRange)` in that case, and -1
  when the text is empty too.

An example sometimes quoted for this code expects
`kmp_search("ABABDABACDABABCABAB", "ABABCABAB")` to be 15. The code returns
10, the first occurrence (`KmpScenario`).

## Model

| member | source | states |
|---|---|---|
| `Occurrence.FirstFrom` | task_03/task_03.py:127-130 | the least start at or after k where the window equals the pattern (the direct comparison of line 129), or -1, with no occurrence before it |
| `Occurrence.FirstOccurrence` | task_03/task_03.py:127-142 | the reference first-occurrence index: an occurrence with no earlier one, or -1 when none exists |
| `Occurrence.FirstOccurrenceAt` | task_03/task_03.py:37-38 | an occurrence with no earlier occurrence is the first occurrence |
| `Occurrence.MismatchAt` | task_03/task_03.py:34 | one differing character rules out an occurrence at that start |
| `Occurrence.MatchAt` | task_03/task_03.py:34-38 | agreement at every position of the window makes it an occurrence |
| `Occurrence.NotFoundIff` | task_03/task_03.py:90 | the answer is -1 exactly when the pattern occurs at no index |
| `Occurrence.LongerPatternNotFound` | task_03/task_03.py:112-117 | a pattern longer than the text (so any non-empty pattern in an empty text) has no occurrence |
| `Occurrence.EmptyPatternAtZero` | task_03/task_03.py:23-24 | the empty pattern occurs at 0, so the matchers' -1 for it is a deliberate guard |
| `BoyerMoore.LastIndex` | task_03/task_03.py:13-14 | the last index of c in s (later writes overwrite earlier ones), -1 iff c is absent |
| `BoyerMoore.ShiftOf` | task_03/task_03.py:13-15 | the intended shift lies in [1, m]; for a character of pattern[..m-1] it points at that character's last occurrence |
| `BoyerMoore.BuildShiftTable` | task_03/task_03.py:6-16 | the keys are exactly the pattern's characters, and the lookup with default m (line 39) gives ShiftOf for every character |
| `BoyerMoore.ShiftTableValues` | task_03/task_03.py:13-15 | each entry lies in [1, m]; a character of pattern[:-1] maps to m - 1 - its last index there; the last character is a key and maps to m exactly when it does not occur earlier (setdefault) |
| `BoyerMoore.ShiftSkipsNoOccurrence` | task_03/task_03.py:39 | no start strictly between i and i + shift of text[i + m - 1] is an occurrence |
| `BoyerMoore.ShiftStep` | task_03/task_03.py:37-39 | after a failed comparison at i, no occurrence starts before the next i, so the shift keeps the loop invariant |
| `BoyerMoore.CompareFromEnd` | task_03/task_03.py:32-37 | the right-to-left comparison ends at -1 exactly when the window at i equals the pattern; otherwise text[i+j] != pattern[j] and every later position matched |
| `BoyerMoore.BoyerMooreSearch` | task_03/task_03.py:19-40 | returns the first occurrence for a non-empty pattern, -1 for an empty pattern, empty text or longer pattern; every index read is in bounds and the loop terminates |
| `Kmp.LongestBorder` | task_03/task_03.py:47-63 | the length of the longest proper prefix of s that is also its suffix: a border, and no border is longer |
| `Kmp.BorderExtend` | task_03/task_03.py:52-54 | a border of p[..i] followed by a matching character gives a border of p[..i+1] one longer |
| `Kmp.BorderShrink` | task_03/task_03.py:52-54 | every non-empty border of p[..i+1] is a border of p[..i] followed by p[i] |
| `Kmp.BorderOfBorder` | task_03/task_03.py:57-58 | a shorter border of s is a border of s's longer border, so falling back to lps[length-1] loses no candidate |
| `Kmp.BorderTrans` | task_03/task_03.py:57-58 | a border of a border is a border, so the fall-back length is still a border |
| `Kmp.BordersOfExtension` | task_03/task_03.py:52-54 | every non-empty border of p[..n] is a border of p[..n-1] followed by p[n-1], for all borders at once |
| `Kmp.BordersOfBorder` | task_03/task_03.py:57-58 | every border of s shorter than the border l is a border of s[..l] |
| `Kmp.ExtendStep` | task_03/task_03.py:52-55 | when p[i] matches p[length], lps[i] = length + 1 is the longest border of p[..i+1] |
| `Kmp.FallBackStep` | task_03/task_03.py:57-58 | length := lps[length-1] is again a border of p[..i] and no longer border of p[..i] can be extended by p[i] |
| `Kmp.ResetStep` | task_03/task_03.py:59-61 | with length 0 and p[i] != p[0], lps[i] = 0 is the longest border of p[..i+1] |
| `Kmp.ComputeLps` | task_03/task_03.py:43-63 | the result has the pattern's length, lps[k] is the longest proper border of pattern[..k+1], lps[k] <= k and lps[0] == 0; the empty pattern gives [] |
| `Kmp.FallBackSkipsNoOccurrence` | task_03/task_03.py:82-83 | after a mismatch at j > 0, j := lps[j-1] keeps text[i-j..i] == pattern[..j] and skips no occurrence |
| `Kmp.WindowOccurrenceIsBorder` | task_03/task_03.py:75-88 | an occurrence starting inside the matched window text[i-j..i] == pattern[..j] makes its overlap a border of pattern[..j] |
| `Kmp.KmpSearch` | task_03/task_03.py:66-90 | returns the first occurrence for a non-empty pattern; fails exactly for an empty pattern with a non-empty text (pattern[0] at line 79), else -1 |
| `RabinKarp.Hash` | task_03/task_03.py:93-102 | the polynomial hash lies in [0, modulus) |
| `RabinKarp.HashEmpty` | task_03/task_03.py:97-102 | the empty string hashes to 0 |
| `RabinKarp.HashSingle` | task_03/task_03.py:99-101 | a one-character string hashes to its code point mod 101; "a" hashes to 97 |
| `RabinKarp.ModAddTerm` | task_03/task_03.py:100-101 | reducing the power and the running sum before adding does not change the result mod modulus |
| `RabinKarp.PolynomialHash` | task_03/task_03.py:93-102 | the loop computes the sum of ord(s[k]) * base^(n-1-k), reduced modulo the modulus |
| `RabinKarp.PolyValueAppend` | task_03/task_03.py:136-138 | appending a character multiplies the polynomial by the base and adds the character |
| `RabinKarp.RollingHashStep` | task_03/task_03.py:132-140 | the rolling update of the window hash equals the hash recomputed from scratch on the next window |
| `RabinKarp.RollArithmetic` | task_03/task_03.py:133-138 | removing the reduced leading term and shifting in the next character agrees modulo 101 with doing so on the unreduced polynomial |
| `RabinKarp.ModShiftIn` | task_03/task_03.py:136-138 | multiplying by 256 and adding a character respects congruence modulo 101 |
| `RabinKarp.RabinKarpSearch` | task_03/task_03.py:105-142 | returns -1 for an empty pattern, empty text or longer pattern, else the first occurrence; the window hash always equals the fresh hash |
| `Agreement.SearchAll` | task_03/task_03.py:164-168 | the three matchers return the same first occurrence on every non-empty pattern; on the empty pattern they differ as described above |
| `Agreement.KmpScenario` | task_03/task_03.py:66-90 | "ABABCABAB" first occurs in "ABABDABACDABABCABAB" at 10 |
| `Agreement.BoyerMooreScenario` | task_03/task_03.py:19-40 | "EXAMPLE" first occurs in "HERE IS A SIMPLE EXAMPLE" at 17 |
| `Agreement.RabinKarpScenario` | task_03/task_03.py:105-142 | "GEEK" occurs in "GEEKS FOR GEEKS" at 0, and "aaa" occurs in "aaaaa" at 0 |
| `BinarySearch.BitLengthIsLog2` | task_02.py:10-12 | BitLength(n) - 1 is floor(log2 n), the bound on the iteration count |
| `BinarySearch.BitLengthMonotone` | task_02.py:10-18 | a smaller range never needs more binary digits |
| `BinarySearch.MidpointHalves` | task_02.py:12-18 | mid lies in [low, high] and either half left after an iteration has at least one binary digit fewer, which bounds the iteration count |
| `BinarySearch.FloatBinarySearch` | task_02.py:1-20 | on a sorted array: None iff every element is below x, else the smallest element >= x; 0 iterations on an empty array, else between 1 and floor(log2 n) + 1 |

## Left out

- `load_articles` (task_03/task_03.py:145-156): reading files and UTF-8 decoding. The model takes texts as plain strings.
- `analyze_search_algorithms` (task_03/task_03.py:159-194): wall-clock timing, float averages and printing. `Agreement.SearchAll` models only its call of each matcher on one pair.
- `display_search_results` and the `__main__` block (task_03/task_03.py:197-224): plotting and hard-wired I/O.
- BoyerMoore.BuildShiftTable: requires a non-empty pattern. On an empty one, `pattern[-1]` raises `IndexError`, and the only caller guards against it.
- RabinKarp.PolynomialHash: requires a positive modulus. Python's `%` agrees with Dafny's there; a zero modulus raises, and a negative one has Python's floor semantics. The source only uses 101.
- BinarySearch.FloatBinarySearch: elements are reals, so IEEE-754 behaviour (NaN, signed zero, infinities) is not modelled. It requires a sorted array, as the docstring does. The array is a `seq`, which the method cannot modify.
- The iteration count is bounded above and below, but not given exactly.
