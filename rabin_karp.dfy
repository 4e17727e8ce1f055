/**
 * Rabin–Karp search with a polynomial rolling hash (base 256, modulus 101);
 * every hash hit is confirmed by comparing the window with the pattern.
 */
module RabinKarp {
  import opened Occurrence

  const Base: int := 256
  const Modulus: int := 101

  /** b raised to the power e, as Python's pow on integers. */
  function Pow(b: int, e: nat): int
  {
    if e == 0 then 1 else b * Pow(b, e - 1)
  }

  /** The unreduced polynomial: the sum of ord(s[k]) * base^(|s| - 1 - k) over all k. */
  function PolyValue(s: string, base: int): int
  {
    if |s| == 0 then 0 else (s[0] as int) * Pow(base, |s| - 1) + PolyValue(s[1..], base)
  }

  /** The polynomial hash of s: PolyValue reduced modulo the modulus. */
  function Hash(s: string, base: int, modulus: int): (h: int)
    requires modulus > 0
    ensures 0 <= h < modulus
  {
    PolyValue(s, base) % modulus
  }

  /** The hash of the empty string is 0, whatever the base and modulus. */
  lemma HashEmpty(base: int, modulus: int)
    requires modulus > 0
    ensures Hash("", base, modulus) == 0
  {
  }

  /** A one-character string hashes to its code point modulo the modulus: "a" gives 97. */
  lemma HashSingle(c: char)
    ensures Hash([c], Base, Modulus) == (c as int) % Modulus
    ensures Hash("a", Base, Modulus) == 97
  {
    assert [c][1..] == [];
    assert PolyValue([c], Base) == (c as int) * Pow(Base, 0) + PolyValue([], Base);
    assert "a"[1..] == [];
  }

  /** Adding a multiple of the modulus does not change the remainder. */
  lemma ModAddMultiple(x: int, t: int, m: int)
    requires m > 0
    ensures (x + m * t) % m == x % m
  {
    var q := x / m;
    assert x + m * t == m * (q + t) + x % m;
    ModUnique(x + m * t, q + t, x % m, m);
  }

  /** The Euclidean remainder is the only r in [0, m) with y == m * q + r. */
  lemma ModUnique(y: int, q: int, r: int, m: int)
    requires m > 0 && 0 <= r < m && y == m * q + r
    ensures y % m == r
  {
    var d := q - y / m;
    assert m * d == y % m - r;
    assert d == 0;
  }

  /** One step of the source's hash loop: reducing a term before adding it changes nothing. */
  lemma ModAddTerm(a: int, c: int, p: int, m: int)
    requires m > 0
    ensures (a % m + c * (p % m)) % m == (a + c * p) % m
  {
    var qa, qp, rp := a / m, p / m, p % m;
    MulSplit(c, m, qp, rp, p);
    assert a % m + c * rp == (a + c * p) + m * (-qa - c * qp);
    ModAddMultiple(a + c * p, -qa - c * qp, m);
  }

  /** With p == m * q + r, c * p splits the same way. */
  lemma MulSplit(c: int, m: int, q: int, r: int, p: int)
    requires p == m * q + r
    ensures c * p == m * (c * q) + c * r
  {
  }

  /** Shifting in a character respects congruence modulo the modulus. */
  lemma ModShiftIn(x: int, y: int, c: int)
    requires x % Modulus == y % Modulus
    ensures (x * Base + c) % Modulus == (y * Base + c) % Modulus
  {
    var qx, qy := x / Modulus, y / Modulus;
    assert x * Base + c == (y * Base + c) + Modulus * (Base * (qx - qy));
    ModAddMultiple(y * Base + c, Base * (qx - qy), Modulus);
  }

  /**
   * The source's loop: the term for position i is ord(s[i]) times
   * base^(n - i - 1) reduced, added to the running hash and reduced again.
   */
  method PolynomialHash(s: string, base: int, modulus: int) returns (h: int)
    requires modulus > 0
    ensures h == Hash(s, base, modulus)
  {
    var n := |s|;
    h := 0;
    for i := 0 to n
      invariant h == (PolyValue(s, base) - PolyValue(s[i..], base)) % modulus
    {
      assert s[i..][1..] == s[i + 1..];
      var powerOfBase := Pow(base, n - i - 1) % modulus;
      ModAddTerm(PolyValue(s, base) - PolyValue(s[i..], base), s[i] as int, Pow(base, n - i - 1), modulus);
      h := (h + (s[i] as int) * powerOfBase) % modulus;
    }
    assert s[n..] == [];
  }

  /** Appending a character multiplies the polynomial by the base and adds the character (Horner's rule). */
  lemma {:induction false} PolyValueAppend(s: string, c: char, base: int)
    ensures PolyValue(s + [c], base) == PolyValue(s, base) * base + (c as int)
  {
    if |s| > 0 {
      var t := s + [c];
      assert t[0] == s[0];
      assert t[1..] == s[1..] + [c];
      PolyValueAppend(s[1..], c, base);
      var x, p, rest := s[0] as int, Pow(base, |s| - 1), PolyValue(s[1..], base);
      assert Pow(base, |t| - 1) == base * p;
      assert PolyValue(t, base) == x * (base * p) + (rest * base + (c as int));
      MulRegroup(x, p, rest, base);
    }
  }

  /** Regrouping one Horner step: x * (b * p) + rest * b == (x * p + rest) * b. */
  lemma MulRegroup(x: int, p: int, rest: int, b: int)
    ensures x * (b * p) + rest * b == (x * p + rest) * b
  {
  }

  /**
   * The rolling update: dropping the window's first character and appending
   * the next one yields the hash recomputed from scratch on the new window.
   */
  lemma RollingHashStep(text: string, i: nat, m: nat, h: int, hm: int)
    requires 0 < m && i + m < |text|
    requires h == Hash(text[i..i + m], Base, Modulus)
    requires hm == Pow(Base, m - 1) % Modulus
    ensures ((h - (text[i] as int) * hm) % Modulus * Base + (text[i + m] as int)) % Modulus
            == Hash(text[i + 1..i + m + 1], Base, Modulus)
  {
    var w := text[i..i + m];
    var c := text[i + m];
    var o := text[i] as int;
    var p := Pow(Base, m - 1);
    assert w[0] == text[i];
    assert w[1..] + [c] == text[i + 1..i + m + 1];
    PolyValueAppend(w[1..], c, Base);
    var v := PolyValue(w, Base);
    assert PolyValue(w[1..], Base) == v - o * p;
    RollArithmetic(v, o, p, h, hm, c as int);
  }

  /** The arithmetic of the rolling update, on reduced and unreduced values. */
  lemma RollArithmetic(v: int, o: int, p: int, h: int, hm: int, c: int)
    requires h == v % Modulus && hm == p % Modulus
    ensures ((h - o * hm) % Modulus * Base + c) % Modulus == ((v - o * p) * Base + c) % Modulus
  {
    assert h - o * hm == v % Modulus + (-o) * (p % Modulus);
    ModAddTerm(v, -o, p, Modulus);
    assert v + (-o) * p == v - o * p;
    var x := (h - o * hm) % Modulus;
    ModShiftIn(x, v - o * p, c);
  }

  /**
   * First occurrence of the pattern in the text, or -1; -1 also for an empty
   * pattern, an empty text or a pattern longer than the text.
   */
  method RabinKarpSearch(text: string, pattern: string) returns (r: int)
    ensures r == (if |pattern| == 0 then -1 else FirstOccurrence(text, pattern))
    ensures |pattern| == 0 || |text| == 0 || |pattern| > |text| ==> r == -1
  {
    var m := |pattern|;
    var n := |text|;
    if m == 0 || n == 0 || m > n {
      if m > n {
        LongerPatternNotFound(text, pattern);
      }
      return -1;
    }
    var patternHash := PolynomialHash(pattern, Base, Modulus);
    var sliceHash := PolynomialHash(text[..m], Base, Modulus);
    var multiplier := Pow(Base, m - 1) % Modulus;
    for i := 0 to n - m + 1
      invariant i <= n - m ==> sliceHash == Hash(text[i..i + m], Base, Modulus)
      invariant forall q :: 0 <= q < i ==> !MatchesAt(text, pattern, q)
    {
      if patternHash == sliceHash {
        if text[i..i + m] == pattern {
          FirstOccurrenceAt(text, pattern, i);
          return i;
        }
      }
      if i < n - m {
        RollingHashStep(text, i, m, sliceHash, multiplier);
        sliceHash := (sliceHash - (text[i] as int) * multiplier) % Modulus;
        sliceHash := (sliceHash * Base + (text[i + m] as int)) % Modulus;
        if sliceHash < 0 {
          sliceHash := sliceHash + Modulus;
        }
      }
    }
    NotFoundIff(text, pattern);
    return -1;
  }
}
