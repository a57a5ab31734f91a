/** Longest strictly increasing subsequence from lab09: the quadratic `lis`. */
module Lis {
  import opened Common

  /**
   * dp[i]: the longest strictly increasing subsequence that ends at
   * position i, built by scanning every earlier position j.
   */
  function EndAt(s: seq<int>, i: nat): (r: nat)
    requires i < |s|
    ensures 1 <= r <= i + 1
    decreases i, 1
  {
    Scan(s, i, i)
  }

  /** dp[i] after the inner loop has looked at positions 0 .. j - 1. */
  function Scan(s: seq<int>, i: nat, j: nat): (r: nat)
    requires j <= i < |s|
    ensures 1 <= r <= j + 1
    decreases j, 0
  {
    if j == 0 then 1
    else if s[i] > s[j - 1] then Max(Scan(s, i, j - 1), EndAt(s, j - 1) + 1)
    else Scan(s, i, j - 1)
  }

  /** `max(dp)`: the largest entry of a non-empty list. */
  function SeqMax(s: seq<int>): (r: int)
    requires |s| > 0
    ensures (forall k :: 0 <= k < |s| ==> s[k] <= r) && (exists k :: 0 <= k < |s| && s[k] == r)
  {
    if |s| == 1 then s[0]
    else
      var m := SeqMax(s[..|s| - 1]);
      assert forall k :: 0 <= k < |s| - 1 ==> s[..|s| - 1][k] == s[k];
      Max(m, s[|s| - 1])
  }

  /** The positions idx pick, in increasing order, carry strictly increasing values of s. */
  predicate Increasing(s: seq<int>, idx: seq<int>) {
    (forall a :: 0 <= a < |idx| ==> 0 <= idx[a] < |s|) &&
    (forall a, b :: 0 <= a < b < |idx| ==> idx[a] < idx[b] && s[idx[a]] < s[idx[b]])
  }

  /** `lis`: 0 for an empty list, else the longest increasing subsequence ending anywhere. */
  function LisSpec(s: seq<int>): (r: nat)
    ensures s == [] ==> r == 0
    ensures s != [] ==> 1 <= r <= |s|
  {
    if s == [] then 0
    else
      var ends := seq(|s|, i requires 0 <= i < |s| => EndAt(s, i));
      var m := SeqMax(ends);
      assert ends[0] >= 1 && forall k :: 0 <= k < |s| ==> ends[k] <= |s|;
      m
  }

  /** Any earlier smaller value offers its own dp entry plus one. */
  lemma {:induction false} ScanAtLeast(s: seq<int>, i: nat, j: nat, t: nat)
    requires t < j <= i < |s| && s[t] < s[i]
    ensures Scan(s, i, j) >= EndAt(s, t) + 1
    decreases j
  {
    if t < j - 1 {
      ScanAtLeast(s, i, j - 1, t);
    }
  }

  /** No increasing subsequence ending at position i is longer than dp[i]. */
  lemma {:induction false} EndUpper(s: seq<int>, idx: seq<int>)
    requires Increasing(s, idx) && |idx| > 0
    ensures |idx| <= EndAt(s, idx[|idx| - 1])
    decreases |idx|
  {
    if |idx| > 1 {
      var idx' := idx[..|idx| - 1];
      assert Increasing(s, idx');
      var t, i := idx[|idx| - 2], idx[|idx| - 1];
      EndUpper(s, idx');
      ScanAtLeast(s, i, i, t);
    }
  }

  /** The earlier position that gives dp[i] its value after scanning 0 .. j - 1, or -1 if none beats 1. */
  function ArgScan(s: seq<int>, i: nat, j: nat): (r: int)
    requires j <= i < |s|
    ensures r == -1 ==> Scan(s, i, j) == 1
    ensures r != -1 ==> 0 <= r < j && s[r] < s[i] && Scan(s, i, j) == EndAt(s, r) + 1
  {
    if j == 0 then -1
    else if s[i] > s[j - 1] && EndAt(s, j - 1) + 1 > Scan(s, i, j - 1) then j - 1
    else ArgScan(s, i, j - 1)
  }

  lemma AppendIncreasing(s: seq<int>, w: seq<int>, i: nat)
    requires Increasing(s, w) && |w| > 0 && i < |s|
    requires w[|w| - 1] < i && s[w[|w| - 1]] < s[i]
    ensures Increasing(s, w + [i])
  {
    var last := |w| - 1;
    assert forall a :: 0 <= a < last ==> w[a] < w[last] && s[w[a]] < s[w[last]];
  }

  /** An increasing subsequence ending at position i of length dp[i]. */
  function EndWitness(s: seq<int>, i: nat): (r: seq<int>)
    requires i < |s|
    ensures |r| == EndAt(s, i) && r[|r| - 1] == i && Increasing(s, r)
    decreases i
  {
    var t := ArgScan(s, i, i);
    if t == -1 then [i]
    else
      var w := EndWitness(s, t);
      AppendIncreasing(s, w, i);
      w + [i]
  }

  /** lis(s) is the length of a longest strictly increasing subsequence: none is longer, and one has that length. */
  lemma LisIsLongest(s: seq<int>, idx: seq<int>)
    requires Increasing(s, idx)
    ensures |idx| <= LisSpec(s)
    ensures s != [] ==> exists w :: Increasing(s, w) && |w| == LisSpec(s)
  {
    var ends := seq(|s|, i requires 0 <= i < |s| => EndAt(s, i));
    if idx != [] {
      EndUpper(s, idx);
      assert ends[idx[|idx| - 1]] <= LisSpec(s);
    }
    if s != [] {
      var k :| 0 <= k < |s| && ends[k] == LisSpec(s);
      var w := EndWitness(s, k);
      assert Increasing(s, w) && |w| == LisSpec(s);
    }
  }

  /** `lis`: dp[i] starts at 1 and takes dp[j] + 1 from every earlier smaller value; the answer is max(dp). */
  method LongestIncreasing(sequence: seq<int>) returns (r: int)
    ensures r == LisSpec(sequence)
  {
    if |sequence| == 0 {
      return 0;
    }
    var n := |sequence|;
    var dp := new int[n](_ => 1);
    for i := 1 to n
      invariant forall t {:trigger dp[t]} :: 0 <= t < i ==> dp[t] == EndAt(sequence, t)
      invariant forall t {:trigger dp[t]} :: i <= t < n ==> dp[t] == 1
    {
      for j := 0 to i
        invariant forall t {:trigger dp[t]} :: 0 <= t < i ==> dp[t] == EndAt(sequence, t)
        invariant dp[i] == Scan(sequence, i, j)
        invariant forall t {:trigger dp[t]} :: i < t < n ==> dp[t] == 1
      {
        if sequence[i] > sequence[j] {
          dp[i] := Max(dp[i], dp[j] + 1);
        }
      }
    }
    assert dp[..] == seq(n, i requires 0 <= i < n => EndAt(sequence, i));
    r := SeqMax(dp[..]);
  }
}
