/**
 * Knuth-Morris-Pratt search (lab 11): one pass over the text, keeping j,
 * the length of the longest prefix of the pattern that ends at the
 * current position, and falling back along the prefix function on a
 * mismatch.
 */
module KmpSearch {
  import opened PrefixFunction
  import opened Occurrences

  /** pattern[..j] is a suffix of text[..i]. */
  predicate Suffix(text: string, i: int, pattern: string, j: int) {
    0 <= j <= i <= |text| && j <= |pattern| && forall t :: 0 <= t < j ==> pattern[t] == text[i - j + t]
  }

  /** j is the longest prefix of the pattern, at most `bound` long, that ends text[..i]. */
  predicate Longest(text: string, i: int, pattern: string, j: int, bound: int) {
    Suffix(text, i, pattern, j) && j <= bound && forall k :: j < k <= bound ==> !Suffix(text, i, pattern, k)
  }

  /** Every prefix above j ending text[..i] fails to extend by text[i]. */
  predicate Excluded(text: string, i: int, pattern: string, j: int)
    requires 0 <= i < |text|
  {
    forall k :: j < k < |pattern| && Suffix(text, i, pattern, k) ==> pattern[k] != text[i]
  }

  /** Two pattern prefixes ending at the same place: the shorter is a border of the longer. */
  lemma SuffixBorder(text: string, i: int, pattern: string, j: int, c: int)
    requires Suffix(text, i, pattern, j) && Suffix(text, i, pattern, c) && c < j
    ensures Border(pattern, j, c)
  {
    forall t | 0 <= t < c
      ensures pattern[t] == pattern[j - c + t]
    {
      assert pattern[t] == text[i - c + t];
      assert pattern[j - c + t] == text[i - j + (j - c + t)];
    }
  }

  /** A border of a pattern prefix that ends text[..i] also ends text[..i]. */
  lemma SuffixTrans(text: string, i: int, pattern: string, j: int, c: int)
    requires Suffix(text, i, pattern, j) && Border(pattern, j, c)
    ensures Suffix(text, i, pattern, c)
  {
    forall t | 0 <= t < c
      ensures pattern[t] == text[i - c + t]
    {
      assert pattern[t] == pattern[j - c + t];
      assert pattern[j - c + t] == text[i - j + (j - c + t)];
    }
  }

  /** pattern[..k + 1] ends text[..i + 1] exactly when pattern[..k] ends text[..i] and the next characters agree. */
  lemma SuffixExtend(text: string, i: int, pattern: string, k: int)
    requires 0 <= k < |pattern| && 0 <= i < |text|
    ensures Suffix(text, i + 1, pattern, k + 1) <==> Suffix(text, i, pattern, k) && pattern[k] == text[i]
  {
    if Suffix(text, i + 1, pattern, k + 1) {
      assert pattern[k] == text[i + 1 - (k + 1) + k];
      forall t | 0 <= t < k
        ensures pattern[t] == text[i - k + t]
      {
        assert pattern[t] == text[i + 1 - (k + 1) + t];
      }
    }
  }

  /** The whole pattern ends text[..i] exactly when it occurs at i - |pattern|. */
  lemma SuffixMatch(text: string, i: int, pattern: string)
    requires |pattern| <= i <= |text|
    ensures Suffix(text, i, pattern, |pattern|) <==> MatchAt(text, pattern, i - |pattern|)
  {
  }

  /** One step of the inner loop: from the failed prefix j to its longest border. */
  lemma FallBack(text: string, i: int, pattern: string, j: int)
    requires 0 < j < |pattern| && 0 <= i < |text| && Suffix(text, i, pattern, j)
    requires pattern[j] != text[i] && Excluded(text, i, pattern, j)
    ensures Suffix(text, i, pattern, LongestBorder(pattern, j)) && Excluded(text, i, pattern, LongestBorder(pattern, j))
  {
    var b := LongestBorder(pattern, j);
    SuffixTrans(text, i, pattern, j, b);
    forall k | b < k < |pattern| && Suffix(text, i, pattern, k)
      ensures pattern[k] != text[i]
    {
      if k < j {
        SuffixBorder(text, i, pattern, j, k);
      }
    }
  }

  /** After the inner loop, j extended by text[i] where it extends is the longest prefix ending text[..i + 1]. */
  lemma Extended(text: string, i: int, pattern: string, j: int)
    requires 0 <= j < |pattern| && 0 <= i < |text| && Suffix(text, i, pattern, j) && Excluded(text, i, pattern, j)
    requires j == 0 || pattern[j] == text[i]
    ensures Longest(text, i + 1, pattern, if pattern[j] == text[i] then j + 1 else j, |pattern|)
  {
    var b := if pattern[j] == text[i] then j + 1 else j;
    SuffixExtend(text, i, pattern, j);
    var next := i + 1;
    forall k | b < k <= |pattern|
      ensures !Suffix(text, next, pattern, k)
    {
      SuffixExtend(text, i, pattern, k - 1);
    }
  }

  /** After a full match the longest proper border of the pattern is the longest shorter prefix ending here. */
  lemma Reset(text: string, i: int, pattern: string)
    requires |pattern| > 0 && Suffix(text, i, pattern, |pattern|)
    ensures Longest(text, i, pattern, LongestBorder(pattern, |pattern|), |pattern| - 1)
  {
    var m := |pattern|;
    var b := LongestBorder(pattern, m);
    SuffixTrans(text, i, pattern, m, b);
    forall k | b < k <= m - 1
      ensures !Suffix(text, i, pattern, k)
    {
      if Suffix(text, i, pattern, k) {
        SuffixBorder(text, i, pattern, m, k);
      }
    }
  }

  /** The occurrence list grows by the occurrence ending at the character just read, if there is one. */
  lemma NextMatches(text: string, pattern: string, i: int, j: int)
    requires 0 < |pattern| && 0 <= i < |text| && Longest(text, i + 1, pattern, j, |pattern|)
    ensures MatchesBelow(text, pattern, i - |pattern| + 2) ==
      MatchesBelow(text, pattern, i - |pattern| + 1) + (if j == |pattern| then [i - |pattern| + 1] else [])
  {
    var m := |pattern|;
    if i + 1 >= m {
      SuffixMatch(text, i + 1, pattern);
    }
  }

  /**
   * Reading text[i]: fall back along the prefix function until the next
   * character extends the matched prefix or nothing is matched, then extend.
   */
  method Advance(text: string, pattern: string, pi: seq<nat>, i: int, j: int) returns (next: int)
    requires |pi| == |pattern| && forall t :: 0 <= t < |pattern| ==> pi[t] == LongestBorder(pattern, t + 1)
    requires 0 <= i < |text| && Longest(text, i, pattern, j, |pattern| - 1)
    ensures Longest(text, i + 1, pattern, next, |pattern|)
  {
    next := j;
    while next > 0 && text[i] != pattern[next]
      invariant 0 <= next < |pattern| && Suffix(text, i, pattern, next) && Excluded(text, i, pattern, next)
      decreases next
    {
      FallBack(text, i, pattern, next);
      next := pi[next - 1];
    }
    Extended(text, i, pattern, next);
    if text[i] == pattern[next] {
      next := next + 1;
    }
  }

  /** Where the next pass starts: j itself below a full match, the longest proper border after one. */
  lemma Restart(text: string, pattern: string, i: int, j: int)
    requires 0 < |pattern| && 0 <= i < |text| && Longest(text, i + 1, pattern, j, |pattern|)
    ensures j < |pattern| ==> Longest(text, i + 1, pattern, j, |pattern| - 1)
    ensures j == |pattern| ==> Longest(text, i + 1, pattern, LongestBorder(pattern, |pattern|), |pattern| - 1)
  {
    if j == |pattern| {
      Reset(text, i + 1, pattern);
    }
  }

  /** One iteration of the main loop: read text[i], and record the occurrence that ends there, if any. */
  method Step(text: string, pattern: string, pi: seq<nat>, i: int, j: int, result: seq<int>) returns (next: int, found: seq<int>)
    requires |pi| == |pattern| && forall t :: 0 <= t < |pattern| ==> pi[t] == LongestBorder(pattern, t + 1)
    requires 0 < |pattern| && 0 <= i < |text| && Longest(text, i, pattern, j, |pattern| - 1)
    requires result == MatchesBelow(text, pattern, i - |pattern| + 1)
    ensures Longest(text, i + 1, pattern, next, |pattern| - 1)
    ensures found == MatchesBelow(text, pattern, i + 1 - |pattern| + 1)
  {
    var m := |pattern|;
    next := Advance(text, pattern, pi, i, j);
    NextMatches(text, pattern, i, next);
    Restart(text, pattern, i, next);
    found := result;
    if next == m {
      found := found + [i - m + 1];
      next := pi[m - 1];
    }
  }

  /** The main loop over the text, for a non-empty pattern and its prefix function. */
  method Scan(text: string, pattern: string, pi: seq<nat>) returns (result: seq<int>)
    requires |pi| == |pattern| && forall t :: 0 <= t < |pattern| ==> pi[t] == LongestBorder(pattern, t + 1)
    requires 0 < |pattern|
    ensures result == MatchesBelow(text, pattern, |text| - |pattern| + 1)
  {
    result := [];
    var j := 0;
    for i := 0 to |text|
      invariant Longest(text, i, pattern, j, |pattern| - 1)
      invariant result == MatchesBelow(text, pattern, i - |pattern| + 1)
    {
      j, result := Step(text, pattern, pi, i, j, result);
    }
  }

  /**
   * `kmp_search`: the start of every occurrence of the pattern in the text,
   * in ascending order, overlapping ones included; none for an empty
   * pattern.
   */
  method Search(text: string, pattern: string) returns (result: seq<int>)
    ensures result == Matches(text, pattern)
  {
    if |pattern| == 0 {
      return [];
    }
    var pi := ComputePrefixFunction(pattern);
    result := Scan(text, pattern, pi);
  }
}
