/**
 * The Z-function of lab 11 and the search built on it: z[i] is the length
 * of the longest common prefix of s and s[i..], computed left to right
 * with the rightmost window [l, r] that is known to repeat a prefix.
 */
module ZFunction {
  import opened Occurrences

  /** v is the length of the longest common prefix of s and s[i..]. */
  predicate Lcp(s: string, i: int, v: int) {
    0 <= i <= |s| && 0 <= v <= |s| - i &&
    (forall t :: 0 <= t < v ==> s[t] == s[i + t]) &&
    (i + v == |s| || s[v] != s[i + v])
  }

  /** The longest common prefix is unique. */
  lemma LcpUnique(s: string, i: int, v: int, w: int)
    requires Lcp(s, i, v) && Lcp(s, i, w)
    ensures v == w
  {
  }

  function Min(a: int, b: int): int { if a <= b then a else b }

  /**
   * Inside the window [l, r] that repeats s[..r - l + 1], position i starts
   * at least min(r - i + 1, z[i - l]) characters that agree with the start of s.
   */
  lemma Window(s: string, l: int, zl: int, i: int, zk: int)
    requires 1 <= l < i <= l + zl - 1 && Lcp(s, l, zl) && Lcp(s, i - l, zk)
    ensures i + Min(l + zl - i, zk) <= |s|
    ensures forall t :: 0 <= t < Min(l + zl - i, zk) ==> s[t] == s[i + t]
  {
    forall t | 0 <= t < Min(l + zl - i, zk)
      ensures s[t] == s[i + t]
    {
      assert s[i - l + t] == s[l + (i - l + t)];
      assert s[t] == s[i - l + t];
    }
  }

  /** The loop state after iteration i - 1: z is right below i and zero from i on, and [l, r] is z[l]'s window. */
  predicate ZState(s: string, z: seq<int>, l: int, r: int, i: int) {
    |z| == |s| && 1 <= i && (|s| == 0 || i <= |s|) &&
    (|s| > 0 ==> z[0] == 0) &&
    (forall t :: 1 <= t < i && t < |s| ==> Lcp(s, t, z[t])) &&
    (forall t :: i <= t < |s| ==> z[t] == 0) &&
    ((l == 0 && r == 0) || (1 <= l < i && l < |s| && r == l + z[l] - 1))
  }

  /** The extending loop of one iteration, started from the known common prefix. */
  method Extend(s: string, i: int, start: int) returns (v: int)
    requires 1 <= i < |s| && 0 <= start && i + start <= |s|
    requires forall t :: 0 <= t < start ==> s[t] == s[i + t]
    ensures Lcp(s, i, v)
  {
    v := start;
    while i + v < |s| && s[v] == s[i + v]
      invariant start <= v && i + v <= |s|
      invariant forall t :: 0 <= t < v ==> s[t] == s[i + t]
      decreases |s| - i - v
    {
      v := v + 1;
    }
  }

  /**
   * `z_function`: z[0] is 0 by convention and, for i >= 1, z[i] is the
   * length of the longest common prefix of s and s[i..].
   */
  method ComputeZFunction(s: string) returns (z: seq<int>)
    ensures |z| == |s| && (|s| > 0 ==> z[0] == 0)
    ensures forall i :: 1 <= i < |s| ==> Lcp(s, i, z[i])
  {
    var n := |s|;
    z := seq(n, _ => 0);
    var l, r := 0, 0;
    var i := 1;
    while i < n
      invariant ZState(s, z, l, r, i)
    {
      var start := z[i];
      if i <= r {
        Window(s, l, z[l], i, z[i - l]);
        start := Min(r - i + 1, z[i - l]);
      }
      var v := Extend(s, i, start);
      z := z[i := v];
      if i + z[i] - 1 > r {
        l, r := i, i + z[i] - 1;
      }
      i := i + 1;
    }
  }

  /**
   * What z_search reports at p: an occurrence of the pattern that the
   * text does not continue with '$' (a '$' there extends the common prefix
   * past the separator).
   */
  predicate Reported(text: string, pattern: string, p: int) {
    MatchAt(text, pattern, p) && (p + |pattern| == |text| || text[p + |pattern|] != '$')
  }

  /** Where the characters of pattern + '$' + text come from. */
  lemma Combined(text: string, pattern: string)
    ensures var c := pattern + ['$'] + text;
      |c| == |pattern| + 1 + |text| && c[|pattern|] == '$' &&
      (forall t :: 0 <= t < |pattern| ==> c[t] == pattern[t]) &&
      (forall t :: 0 <= t < |text| ==> c[|pattern| + 1 + t] == text[t])
  {
  }

  /** A common prefix of exactly |pattern| at |pattern| + 1 + p is a reported occurrence at p. */
  lemma HitReported(text: string, pattern: string, i: int)
    requires 0 < |pattern| + 1 <= i < |pattern| + 1 + |text|
    requires Lcp(pattern + ['$'] + text, i, |pattern|)
    ensures Reported(text, pattern, i - |pattern| - 1)
  {
    var c := pattern + ['$'] + text;
    var m, p := |pattern|, i - |pattern| - 1;
    Combined(text, pattern);
    forall t | 0 <= t < m
      ensures text[p + t] == pattern[t]
    {
      assert c[t] == c[i + t];
    }
    if p + m < |text| {
      assert c[i + m] == text[p + m] && c[m] != c[i + m];
    }
  }

  /** A reported occurrence at p gives a common prefix of exactly |pattern| at |pattern| + 1 + p. */
  lemma ReportedHit(text: string, pattern: string, i: int)
    requires 0 < |pattern| + 1 <= i < |pattern| + 1 + |text|
    requires Reported(text, pattern, i - |pattern| - 1)
    ensures Lcp(pattern + ['$'] + text, i, |pattern|)
  {
    var c := pattern + ['$'] + text;
    var m, p := |pattern|, i - |pattern| - 1;
    Combined(text, pattern);
    forall t | 0 <= t < m
      ensures c[t] == c[i + t]
    {
      assert text[p + t] == pattern[t];
    }
    if p + m < |text| {
      assert c[i + m] == text[p + m];
    }
  }

  /** z(pattern + '$' + text) at |pattern| + 1 + p equals |pattern| exactly when p is reported. */
  lemma Hit(text: string, pattern: string, i: int, v: int)
    requires 0 < |pattern| + 1 <= i < |pattern| + 1 + |text|
    requires Lcp(pattern + ['$'] + text, i, v)
    ensures v == |pattern| <==> Reported(text, pattern, i - |pattern| - 1)
  {
    if v == |pattern| {
      HitReported(text, pattern, i);
    }
    if Reported(text, pattern, i - |pattern| - 1) {
      ReportedHit(text, pattern, i);
      LcpUnique(pattern + ['$'] + text, i, v, |pattern|);
    }
  }

  /** Without '$' in the text, every occurrence is reported. */
  lemma ReportedAll(text: string, pattern: string)
    requires '$' !in text
    ensures forall p :: Reported(text, pattern, p) <==> MatchAt(text, pattern, p)
  {
    forall p | MatchAt(text, pattern, p) && p + |pattern| < |text|
      ensures text[p + |pattern|] != '$'
    {
      assert text[p + |pattern|] in text;
    }
  }

  /**
   * `z_search`: the positions p >= 0 with z[|pattern| + 1 + p] == |pattern|
   * in z(pattern + '$' + text), ascending; none for an empty pattern. These
   * are the reported occurrences, and all occurrences when the text has no '$'.
   */
  method ZSearch(text: string, pattern: string) returns (result: seq<int>)
    ensures Increasing(result)
    ensures forall p :: p in result <==> |pattern| > 0 && Reported(text, pattern, p)
    ensures '$' !in text ==> result == Matches(text, pattern)
  {
    if |pattern| == 0 {
      return [];
    }
    var combined := pattern + ['$'] + text;
    var z := ComputeZFunction(combined);
    result := [];
    var m := |pattern|;
    for i := m + 1 to |combined|
      invariant Increasing(result) && forall k :: 0 <= k < |result| ==> result[k] < i - m - 1
      invariant forall p :: p in result <==> 0 <= p < i - m - 1 && Reported(text, pattern, p)
    {
      Hit(text, pattern, i, z[i]);
      if z[i] == m {
        result := result + [i - m - 1];
      }
    }
    if '$' !in text {
      ReportedAll(text, pattern);
      IncreasingUnique(result, Matches(text, pattern));
    }
  }
}
