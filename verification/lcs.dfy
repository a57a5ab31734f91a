/**
 * Longest common subsequence from lab09: the table of `lcs` and the walk
 * back through it in `lcs_with_reconstruction`.
 */
module Lcs {
  import opened Common

  /** x can be read off y left to right, skipping letters of y (matched from the back). */
  predicate IsSubsequence(x: string, y: string)
    decreases |y|
  {
    if x == [] then true
    else if y == [] then false
    else if x[|x| - 1] == y[|y| - 1] then IsSubsequence(x[..|x| - 1], y[..|y| - 1])
    else IsSubsequence(x, y[..|y| - 1])
  }

  /** A letter added to y keeps every subsequence of y. */
  lemma {:induction false} SubsequenceExtend(x: string, y: string, c: char)
    requires IsSubsequence(x, y)
    ensures IsSubsequence(x, y + [c])
    decreases |y|, 1
  {
    assert (y + [c])[..|y|] == y;
    if x != [] && x[|x| - 1] == c {
      SubsequenceDropLast(x, y);
    }
  }

  /** Dropping the last letter of a subsequence leaves a subsequence. */
  lemma {:induction false} SubsequenceDropLast(x: string, y: string)
    requires x != [] && IsSubsequence(x, y)
    ensures IsSubsequence(x[..|x| - 1], y)
    decreases |y|, 0
  {
    var y' := y[..|y| - 1];
    assert y' + [y[|y| - 1]] == y;
    if x[|x| - 1] == y[|y| - 1] {
      SubsequenceExtend(x[..|x| - 1], y', y[|y| - 1]);
    } else {
      SubsequenceDropLast(x, y');
      SubsequenceExtend(x[..|x| - 1], y', y[|y| - 1]);
    }
  }

  lemma {:induction false} SubsequenceSelf(s: string)
    ensures IsSubsequence(s, s)
    decreases |s|
  {
    if s != [] {
      SubsequenceSelf(s[..|s| - 1]);
    }
  }

  /** dp[i][j]: the table entry for the prefixes a[..i] and b[..j]. */
  function L(a: string, b: string, i: nat, j: nat): (r: nat)
    requires i <= |a| && j <= |b|
    ensures r <= i && r <= j
  {
    if i == 0 || j == 0 then 0
    else if a[i - 1] == b[j - 1] then L(a, b, i - 1, j - 1) + 1
    else Max(L(a, b, i - 1, j), L(a, b, i, j - 1))
  }

  /** No common subsequence of a[..i] and b[..j] is longer than dp[i][j]. */
  lemma {:induction false} LcsUpper(a: string, b: string, i: nat, j: nat, c: string)
    requires i <= |a| && j <= |b|
    requires IsSubsequence(c, a[..i]) && IsSubsequence(c, b[..j])
    ensures |c| <= L(a, b, i, j)
    decreases i + j
  {
    if c != [] {
      var x := c[|c| - 1];
      assert a[..i][..i - 1] == a[..i - 1] && b[..j][..j - 1] == b[..j - 1];
      if a[i - 1] == b[j - 1] {
        if x == a[i - 1] {
          LcsUpper(a, b, i - 1, j - 1, c[..|c| - 1]);
        } else {
          LcsUpper(a, b, i - 1, j - 1, c);
        }
      } else if x != a[i - 1] {
        LcsUpper(a, b, i - 1, j, c);
      } else {
        LcsUpper(a, b, i, j - 1, c);
      }
    }
  }

  /**
   * The string the reconstruction walk collects from cell (i, j): a match
   * is taken, otherwise it moves up when dp[i - 1][j] > dp[i][j - 1] and
   * left otherwise. Its length is dp[i][j].
   */
  function Recon(a: string, b: string, i: nat, j: nat): (r: string)
    requires i <= |a| && j <= |b|
    ensures |r| == L(a, b, i, j)
  {
    if i == 0 || j == 0 then ""
    else if a[i - 1] == b[j - 1] then Recon(a, b, i - 1, j - 1) + [a[i - 1]]
    else if L(a, b, i - 1, j) > L(a, b, i, j - 1) then Recon(a, b, i - 1, j)
    else Recon(a, b, i, j - 1)
  }

  /** One step of the walk back, with the letters already collected after it. */
  lemma ReconStep(a: string, b: string, i: nat, j: nat, rest: string)
    requires 0 < i <= |a| && 0 < j <= |b|
    ensures a[i - 1] == b[j - 1] ==> Recon(a, b, i, j) + rest == Recon(a, b, i - 1, j - 1) + ([a[i - 1]] + rest)
    ensures a[i - 1] != b[j - 1] && L(a, b, i - 1, j) > L(a, b, i, j - 1) ==> Recon(a, b, i, j) + rest == Recon(a, b, i - 1, j) + rest
    ensures a[i - 1] != b[j - 1] && L(a, b, i - 1, j) <= L(a, b, i, j - 1) ==> Recon(a, b, i, j) + rest == Recon(a, b, i, j - 1) + rest
  {
    if a[i - 1] == b[j - 1] {
      AppendAssoc(Recon(a, b, i - 1, j - 1), [a[i - 1]], rest);
    }
  }

  /** The reconstructed string is a common subsequence of the two prefixes. */
  lemma {:induction false} ReconCommon(a: string, b: string, i: nat, j: nat)
    requires i <= |a| && j <= |b|
    ensures IsSubsequence(Recon(a, b, i, j), a[..i]) && IsSubsequence(Recon(a, b, i, j), b[..j])
    decreases i + j
  {
    if i > 0 && j > 0 {
      assert a[..i] == a[..i - 1] + [a[i - 1]] && b[..j] == b[..j - 1] + [b[j - 1]];
      if a[i - 1] == b[j - 1] {
        ReconCommon(a, b, i - 1, j - 1);
        var r := Recon(a, b, i, j);
        assert r[..|r| - 1] == Recon(a, b, i - 1, j - 1);
      } else if L(a, b, i - 1, j) > L(a, b, i, j - 1) {
        ReconCommon(a, b, i - 1, j);
        SubsequenceExtend(Recon(a, b, i - 1, j), a[..i - 1], a[i - 1]);
      } else {
        ReconCommon(a, b, i, j - 1);
        SubsequenceExtend(Recon(a, b, i, j - 1), b[..j - 1], b[j - 1]);
      }
    }
  }

  /** The whole string as a prefix of itself. */
  lemma SubsequenceWhole(x: string, y: string)
    ensures IsSubsequence(x, y[..|y|]) <==> IsSubsequence(x, y)
  {
    assert y[..|y|] == y;
  }

  /** dp[m][n] is the length of a longest common subsequence: one reaches it and none exceeds it. */
  lemma LcsIsLongest(a: string, b: string)
    ensures IsSubsequence(Recon(a, b, |a|, |b|), a) && IsSubsequence(Recon(a, b, |a|, |b|), b)
    ensures forall c :: IsSubsequence(c, a) && IsSubsequence(c, b) ==> |c| <= L(a, b, |a|, |b|)
  {
    var r := Recon(a, b, |a|, |b|);
    ReconCommon(a, b, |a|, |b|);
    SubsequenceWhole(r, a);
    SubsequenceWhole(r, b);
    forall c | IsSubsequence(c, a) && IsSubsequence(c, b)
      ensures |c| <= L(a, b, |a|, |b|)
    {
      SubsequenceWhole(c, a);
      SubsequenceWhole(c, b);
      LcsUpper(a, b, |a|, |b|, c);
    }
  }

  /** lcs(s, s) == len(s), and in general lcs(a, b) <= min(len(a), len(b)). */
  lemma LcsBounds(a: string, b: string, s: string)
    ensures L(a, b, |a|, |b|) <= |a| && L(a, b, |a|, |b|) <= |b|
    ensures L(s, s, |s|, |s|) == |s|
  {
    SubsequenceSelf(s);
    assert s[..|s|] == s;
    LcsUpper(s, s, |s|, |s|, s);
  }

  /** The two nested loops that fill dp (shared by lcs and lcs_with_reconstruction). */
  method FillTable(a: string, b: string) returns (dp: array2<int>)
    ensures fresh(dp) && dp.Length0 == |a| + 1 && dp.Length1 == |b| + 1
    ensures forall i, j :: 0 <= i <= |a| && 0 <= j <= |b| ==> dp[i, j] == L(a, b, i, j)
  {
    var m, n := |a|, |b|;
    dp := new int[m + 1, n + 1]((_, _) => 0);
    for i := 1 to m + 1
      invariant forall x, y {:trigger dp[x, y]} :: 0 <= x < i && 0 <= y <= n ==> dp[x, y] == L(a, b, x, y)
      invariant forall x, y {:trigger dp[x, y]} :: i <= x <= m && 0 <= y <= n ==> dp[x, y] == 0
    {
      for j := 1 to n + 1
        invariant forall x, y {:trigger dp[x, y]} :: 0 <= x < i && 0 <= y <= n ==> dp[x, y] == L(a, b, x, y)
        invariant forall y {:trigger dp[i, y]} :: 0 <= y < j ==> dp[i, y] == L(a, b, i, y)
        invariant forall x, y {:trigger dp[x, y]} :: i < x <= m && 0 <= y <= n ==> dp[x, y] == 0
      {
        if a[i - 1] == b[j - 1] {
          dp[i, j] := dp[i - 1, j - 1] + 1;
        } else {
          dp[i, j] := Max(dp[i - 1, j], dp[i, j - 1]);
        }
      }
    }
  }

  /** `lcs`: the last cell of the table. */
  method LcsLength(a: string, b: string) returns (r: int)
    ensures r == L(a, b, |a|, |b|)
  {
    var dp := FillTable(a, b);
    r := dp[|a|, |b|];
  }

  /** One step of the walk back from cell (i, j): take a match, otherwise move towards the larger neighbour. */
  method StepBack(dp: array2<int>, a: string, b: string, i: int, j: int, collected: string) returns (i': int, j': int, collected': string)
    requires dp.Length0 == |a| + 1 && dp.Length1 == |b| + 1
    requires forall x, y {:trigger dp[x, y]} :: 0 <= x <= |a| && 0 <= y <= |b| ==> dp[x, y] == L(a, b, x, y)
    requires 0 < i <= |a| && 0 < j <= |b|
    ensures 0 <= i' <= i && 0 <= j' <= j && i' + j' < i + j
    ensures Recon(a, b, i', j') + collected' == Recon(a, b, i, j) + collected
  {
    ReconStep(a, b, i, j, collected);
    if a[i - 1] == b[j - 1] {
      collected' := [a[i - 1]] + collected;
      i', j' := i - 1, j - 1;
    } else if dp[i - 1, j] > dp[i, j - 1] {
      i', j', collected' := i - 1, j, collected;
    } else {
      i', j', collected' := i, j - 1, collected;
    }
  }

  /** The while loop of lcs_with_reconstruction: walk back from (m, n) until a row or column 0 is reached. */
  method WalkBack(dp: array2<int>, a: string, b: string) returns (collected: string)
    requires dp.Length0 == |a| + 1 && dp.Length1 == |b| + 1
    requires forall x, y {:trigger dp[x, y]} :: 0 <= x <= |a| && 0 <= y <= |b| ==> dp[x, y] == L(a, b, x, y)
    ensures collected == Recon(a, b, |a|, |b|)
  {
    collected := "";
    var i, j := |a|, |b|;
    assert Recon(a, b, i, j) + collected == Recon(a, b, |a|, |b|);
    while i > 0 && j > 0
      invariant 0 <= i <= |a| && 0 <= j <= |b|
      invariant Recon(a, b, i, j) + collected == Recon(a, b, |a|, |b|)
      decreases i + j
    {
      i, j, collected := StepBack(dp, a, b, i, j, collected);
    }
    assert Recon(a, b, i, j) == "";
    assert Recon(a, b, i, j) + collected == collected;
  }

  /**
   * `lcs_with_reconstruction`: the length of lcs(a, b) and a common
   * subsequence of exactly that length, collected back to front.
   */
  method LcsWithReconstruction(a: string, b: string) returns (length: int, lcsStr: string)
    ensures length == L(a, b, |a|, |b|) && lcsStr == Recon(a, b, |a|, |b|)
    ensures |lcsStr| == length && IsSubsequence(lcsStr, a) && IsSubsequence(lcsStr, b)
  {
    var dp := FillTable(a, b);
    lcsStr := WalkBack(dp, a, b);
    length := dp[|a|, |b|];
    LcsIsLongest(a, b);
  }
}
