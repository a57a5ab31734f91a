/**
 * The practical string tasks of lab 11: the smallest period of a string
 * that divides its length, read off the prefix function, and the test
 * whether one string is a cyclic shift of another, by searching for it in
 * the first string written twice.
 */
module StringTasks {
  import opened Common
  import opened PrefixFunction
  import opened Occurrences
  import KmpSearch
  import ZFunction
  import RabinKarp

  /** p is a period of s: every character equals the one p places further on. */
  predicate IsPeriod(s: string, p: int) {
    0 < p <= |s| && forall t :: 0 <= t < |s| - p ==> s[t] == s[t + p]
  }

  /** d is a positive divisor of n. */
  predicate Divides(d: int, n: int) {
    d > 0 && n % d == 0
  }

  /** A multiple of d leaves no remainder. */
  lemma ModZero(a: int, d: int, k: int)
    requires d > 0 && a == d * k
    ensures a % d == 0
  {
    PyModUnique(a, d, k, 0);
  }

  /** A proper divisor of n is at most half of n. */
  lemma HalfAtMost(d: int, n: int)
    requires Divides(d, n) && 0 < d < n
    ensures 2 * d <= n
  {
    var k := n / d;
    assert n == d * k;
    assert k >= 2;
    MulAtLeast(d, k - 1);
    assert n == d + d * (k - 1);
  }

  /** Divisibility is transitive. */
  lemma DividesTrans(p: int, q: int, n: int)
    requires Divides(p, q) && Divides(q, n)
    ensures Divides(p, n)
  {
    var a, b := q / p, n / q;
    assert q == p * a && n == q * b;
    assert n == p * (a * b);
    ModZero(n, p, a * b);
  }

  /** Adding the divisor keeps divisibility. */
  lemma DividesAdd(p: int, a: int)
    requires Divides(p, a)
    ensures Divides(p, a + p)
  {
    var k := a / p;
    assert a == p * k;
    ModZero(a + p, p, k + 1);
  }

  /** k is a proper border of s exactly when |s| - k is a period of s. */
  lemma BorderPeriod(s: string, k: int)
    requires 0 <= k < |s|
    ensures Border(s, |s|, k) <==> IsPeriod(s, |s| - k)
  {
    var n := |s|;
    if Border(s, n, k) {
      forall t | 0 <= t < n - (n - k)
        ensures s[t] == s[t + (n - k)]
      {
        assert s[t] == s[n - k + t];
      }
    }
    if IsPeriod(s, n - k) {
      forall t | 0 <= t < k
        ensures s[t] == s[n - k + t]
      {
        assert s[t] == s[t + (n - k)];
      }
    }
  }

  /** The length minus the longest proper border is the smallest period. */
  lemma SmallestPeriod(s: string)
    requires |s| >= 1
    ensures IsPeriod(s, |s| - LongestBorder(s, |s|))
    ensures forall q :: IsPeriod(s, q) ==> q >= |s| - LongestBorder(s, |s|)
  {
    var n := |s|;
    BorderPeriod(s, LongestBorder(s, n));
    forall q | IsPeriod(s, q)
      ensures q >= n - LongestBorder(s, n)
    {
      BorderPeriod(s, n - q);
    }
  }

  /** Two periods p < q with p + q <= |s| give the period q - p (the step of Fine and Wilf's argument). */
  lemma PeriodDifference(s: string, p: int, q: int)
    requires IsPeriod(s, p) && IsPeriod(s, q) && p < q && p + q <= |s|
    ensures IsPeriod(s, q - p)
  {
    forall t | 0 <= t < |s| - (q - p)
      ensures s[t] == s[t + (q - p)]
    {
      if t >= p {
        assert s[t - p] == s[t - p + p];
        assert s[t - p] == s[t - p + q];
      } else {
        assert s[t] == s[t + q];
        assert s[t + q - p] == s[t + q - p + p];
      }
    }
  }

  /** The smallest period divides every period q with p + q <= |s|. */
  lemma {:induction false} MinimalDivides(s: string, p: int, q: int)
    requires IsPeriod(s, p) && forall c :: IsPeriod(s, c) ==> c >= p
    requires IsPeriod(s, q) && p + q <= |s|
    ensures Divides(p, q)
    decreases q
  {
    if q == p {
      ModZero(q, p, 1);
    } else {
      PeriodDifference(s, p, q);
      MinimalDivides(s, p, q - p);
      DividesAdd(p, q - p);
    }
  }

  /**
   * When the smallest period does not divide the length, no period below the
   * length divides it either.
   */
  lemma DivisorPeriod(s: string, q: int)
    requires |s| >= 1 && IsPeriod(s, q) && Divides(q, |s|) && q < |s|
    ensures Divides(|s| - LongestBorder(s, |s|), |s|)
  {
    var n, p := |s|, |s| - LongestBorder(s, |s|);
    SmallestPeriod(s);
    HalfAtMost(q, n);
    MinimalDivides(s, p, q);
    DividesTrans(p, q, n);
  }

  /**
   * `find_string_period`: the smallest period of s that divides |s|, so
   * that s is that many characters repeated; |s| when no shorter one does.
   * An empty string raises IndexError (the prefix function is empty).
   */
  method FindStringPeriod(s: string) returns (r: Result<nat>)
    ensures r.Err? <==> |s| == 0
    ensures r.Err? ==> r.error == IndexError
    ensures r.Ok? ==> Divides(r.value, |s|) && IsPeriod(s, r.value)
    ensures r.Ok? ==> forall q :: 0 < q < r.value && Divides(q, |s|) ==> !IsPeriod(s, q)
  {
    var n := |s|;
    if n == 0 {
      return Err(IndexError);
    }
    var pi := ComputePrefixFunction(s);
    var period := n - pi[n - 1];
    SmallestPeriod(s);
    if n % period == 0 {
      r := Ok(period);
    } else {
      forall q | 0 < q < n && Divides(q, n)
        ensures !IsPeriod(s, q)
      {
        if IsPeriod(s, q) {
          DivisorPeriod(s, q);
        }
      }
      ModZero(n, n, 1);
      r := Ok(n);
    }
  }

  /** Position k of s1 + s1 starts s2 exactly when s2 is s1 rotated left by k. */
  lemma ShiftMatch(s1: string, s2: string, k: int)
    requires |s1| == |s2| && 0 <= k <= |s1|
    ensures MatchAt(s1 + s1, s2, k) <==> s2 == s1[k..] + s1[..k]
  {
    var n, c, w := |s1|, s1 + s1, s1[k..] + s1[..k];
    forall t | 0 <= t < n
      ensures c[k + t] == w[t]
    {
      if k + t < n {
        assert w[t] == s1[k..][t];
      } else {
        assert w[t] == s1[..k][t - (n - k)];
      }
    }
    if MatchAt(c, s2, k) {
      assert forall t :: 0 <= t < n ==> w[t] == s2[t];
    }
  }

  /**
   * `are_cyclic_shifts`: strings of different lengths are not; otherwise
   * s2 is searched for in s1 + s1. The answer is true exactly when s2 is s1
   * rotated by some k < |s1|; two empty strings give false, because the
   * search reports nothing for an empty pattern.
   */
  method AreCyclicShifts(s1: string, s2: string) returns (r: bool)
    ensures r <==> |s1| == |s2| && |s1| > 0 && exists k :: 0 <= k < |s1| && s2 == s1[k..] + s1[..k]
  {
    if |s1| != |s2| {
      return false;
    }
    var combined := s1 + s1;
    var found := KmpSearch.Search(combined, s2);
    r := |found| > 0;
    if r {
      var p := found[0];
      assert p in found;
      ShiftMatch(s1, s2, p);
      if p == |s1| {
        assert s1[p..] + s1[..p] == s1[0..] + s1[..0];
        ShiftMatch(s1, s2, 0);
      }
    }
    if exists k :: 0 <= k < |s1| && s2 == s1[k..] + s1[..k] {
      var k :| 0 <= k < |s1| && s2 == s1[k..] + s1[..k];
      ShiftMatch(s1, s2, k);
      assert k in found;
    }
  }

  /**
   * The three searchers of `find_all_occurrences`, run on the same input:
   * for a non-empty pattern in a text without '$' they return the same
   * list; for an empty pattern KMP and the Z-function search give [] while
   * Rabin-Karp reports position 0.
   */
  method SearchesAgree(text: string, pattern: string) returns (kmp: seq<int>, z: seq<int>, rk: seq<int>)
    ensures |pattern| > 0 && '$' !in text ==> kmp == z == rk
    ensures |pattern| == 0 ==> kmp == [] && z == [] && rk != []
  {
    kmp := KmpSearch.Search(text, pattern);
    z := ZFunction.ZSearch(text, pattern);
    rk := RabinKarp.RabinKarpSearch(text, pattern);
    if |pattern| == 0 {
      IncreasingUnique(z, []);
    }
  }
}
