/**
 * The prefix function of lab 11: for every position i of a string s, the
 * length of the longest proper prefix of s[..i + 1] that is also a suffix
 * of it. Borders are stated on positions of s, never on slices.
 */
module PrefixFunction {

  /** k is the length of a proper border of s[..i]: its first k characters are also its last k. */
  predicate Border(s: string, i: int, k: int) {
    0 <= k < i <= |s| && forall t :: 0 <= t < k ==> s[t] == s[i - k + t]
  }

  /** The longest proper border of s[..i] that is at most k long, found by trying k, k - 1, ..., 0. */
  function BorderAtMost(s: string, i: int, k: int): (b: nat)
    requires 0 <= k < i <= |s|
    ensures b <= k && Border(s, i, b)
    ensures forall c :: b < c <= k ==> !Border(s, i, c)
    decreases k
  {
    if k == 0 || Border(s, i, k) then k else BorderAtMost(s, i, k - 1)
  }

  /** The value the prefix function has at position i - 1: the longest proper border of s[..i]. */
  function LongestBorder(s: string, i: int): (b: nat)
    requires 1 <= i <= |s|
    ensures b < i && Border(s, i, b)
    ensures forall c :: b < c < i ==> !Border(s, i, c)
  {
    BorderAtMost(s, i, i - 1)
  }

  /** A border with no longer border above it is the longest one. */
  lemma LongestUnique(s: string, i: int, b: int)
    requires Border(s, i, b) && forall c :: b < c < i ==> !Border(s, i, c)
    ensures b == LongestBorder(s, i)
  {
    var l := LongestBorder(s, i);
    if l > b {
      assert Border(s, i, l);
    }
  }

  /** A shorter border of s[..i] is a border of its longer border s[..b]. */
  lemma BorderOfBorder(s: string, i: int, b: int, c: int)
    requires Border(s, i, b) && Border(s, i, c) && c < b
    ensures Border(s, b, c)
  {
    forall t | 0 <= t < c
      ensures s[t] == s[b - c + t]
    {
      assert s[t] == s[i - c + t];
      assert s[b - c + t] == s[i - b + (b - c + t)];
    }
  }

  /** A border of a border of s[..i] is a border of s[..i]. */
  lemma BorderTrans(s: string, i: int, b: int, c: int)
    requires Border(s, i, b) && Border(s, b, c)
    ensures Border(s, i, c)
  {
    forall t | 0 <= t < c
      ensures s[t] == s[i - c + t]
    {
      assert s[t] == s[b - c + t];
      assert s[b - c + t] == s[i - b + (b - c + t)];
    }
  }

  /** k + 1 is a border of s[..i + 1] exactly when k is a border of s[..i] that the next character extends. */
  lemma BorderExtend(s: string, i: int, k: int)
    requires 0 <= k < i < |s|
    ensures Border(s, i + 1, k + 1) <==> Border(s, i, k) && s[k] == s[i]
  {
    if Border(s, i, k) && s[k] == s[i] {
      forall t | 0 <= t < k + 1
        ensures s[t] == s[i + 1 - (k + 1) + t]
      {
        if t < k {
          assert s[t] == s[i - k + t];
        }
      }
    }
    if Border(s, i + 1, k + 1) {
      assert s[k] == s[i + 1 - (k + 1) + k];
      forall t | 0 <= t < k
        ensures s[t] == s[i - k + t]
      {
        assert s[t] == s[i + 1 - (k + 1) + t];
      }
    }
  }

  /** Every border of s[..i] above j fails to extend by s[i]. */
  predicate Excluded(s: string, i: int, j: int)
    requires 0 <= i < |s|
  {
    forall k :: j < k < i && Border(s, i, k) ==> s[k] != s[i]
  }

  /** One step of the inner loop: from the failed border j to the longest border of s[..j]. */
  lemma FallBack(s: string, i: int, j: int)
    requires 0 < j < i < |s| && Border(s, i, j) && s[j] != s[i] && Excluded(s, i, j)
    ensures Border(s, i, LongestBorder(s, j)) && Excluded(s, i, LongestBorder(s, j))
  {
    var b := LongestBorder(s, j);
    BorderTrans(s, i, j, b);
    forall k | b < k < i && Border(s, i, k)
      ensures s[k] != s[i]
    {
      if k < j {
        BorderOfBorder(s, i, j, k);
      }
    }
  }

  /** After the inner loop: the candidate j extended by s[i], if it extends, is the next prefix-function value. */
  lemma Extended(s: string, i: int, j: int)
    requires 0 <= j < i < |s| && Border(s, i, j) && Excluded(s, i, j)
    requires j == 0 || s[i] == s[j]
    ensures LongestBorder(s, i + 1) == if s[i] == s[j] then j + 1 else j
  {
    var b := if s[i] == s[j] then j + 1 else j;
    if s[i] == s[j] {
      BorderExtend(s, i, j);
    }
    var next := i + 1;
    forall c | b < c < next
      ensures !Border(s, next, c)
    {
      BorderExtend(s, i, c - 1);
    }
    LongestUnique(s, next, b);
  }

  /**
   * `prefix_function`: pi[i] is the longest proper border of s[..i + 1].
   * The inner loop walks down the borders of s[..i] from pi[i - 1] and
   * stops at the first that the character s[i] extends.
   */
  method ComputePrefixFunction(s: string) returns (pi: seq<nat>)
    ensures |pi| == |s|
    ensures forall i :: 0 <= i < |s| ==> pi[i] == LongestBorder(s, i + 1)
  {
    var n := |s|;
    pi := seq(n, _ => 0);
    var i := 1;
    while i < n
      invariant |pi| == n && 1 <= i && (n == 0 || i <= n)
      invariant forall t :: 0 <= t < i && t < n ==> pi[t] == LongestBorder(s, t + 1)
    {
      var j := NextBorder(s, pi, i);
      pi := pi[i := j];
      i := i + 1;
    }
  }

  /** One step of the outer loop: fall back along pi from pi[i - 1], then extend by s[i] if it matches. */
  method NextBorder(s: string, pi: seq<nat>, i: nat) returns (j: nat)
    requires 1 <= i < |s| && i <= |pi|
    requires forall t :: 0 <= t < i ==> pi[t] == LongestBorder(s, t + 1)
    ensures j == LongestBorder(s, i + 1)
  {
    j := pi[i - 1];
    while j > 0 && s[i] != s[j]
      invariant 0 <= j < i && Border(s, i, j) && Excluded(s, i, j)
      decreases j
    {
      FallBack(s, i, j);
      j := pi[j - 1];
    }
    Extended(s, i, j);
    if s[i] == s[j] {
      j := j + 1;
    }
  }

  /** The prefix function grows by at most one from one position to the next. */
  lemma PrefixStep(s: string, i: int)
    requires 1 <= i < |s|
    ensures LongestBorder(s, i + 1) <= LongestBorder(s, i) + 1
  {
    var b := LongestBorder(s, i + 1);
    if b > 0 {
      BorderExtend(s, i, b - 1);
    }
  }
}
