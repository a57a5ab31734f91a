/** Edit distance from lab09: the table of `levenshtein_distance`. */
module Levenshtein {
  import opened Common

  /** Python's min of three values. */
  function Min3(x: int, y: int, z: int): (r: int)
    ensures r <= x && r <= y && r <= z && (r == x || r == y || r == z)
  {
    if x <= y && x <= z then x else if y <= z then y else z
  }

  /**
   * dp[i][j]: the edit distance of a[..i] and b[..j]. Row 0 and column 0
   * count insertions and deletions; a match costs nothing, otherwise one
   * deletion, insertion or substitution is added. Never more than the
   * longer prefix, never less than the difference of the lengths.
   */
  function Lev(a: string, b: string, i: nat, j: nat): (r: nat)
    requires i <= |a| && j <= |b|
  {
    if i == 0 then j
    else if j == 0 then i
    else if a[i - 1] == b[j - 1] then Lev(a, b, i - 1, j - 1)
    else 1 + Min3(Lev(a, b, i - 1, j), Lev(a, b, i, j - 1), Lev(a, b, i - 1, j - 1))
  }

  /** An entry is at least the difference of the prefix lengths. */
  lemma {:induction false} LevLower(a: string, b: string, i: nat, j: nat)
    requires i <= |a| && j <= |b|
    ensures i - j <= Lev(a, b, i, j) && j - i <= Lev(a, b, i, j)
    decreases i + j
  {
    if i > 0 && j > 0 {
      LevLower(a, b, i - 1, j - 1);
      if a[i - 1] != b[j - 1] {
        LevLower(a, b, i - 1, j);
        LevLower(a, b, i, j - 1);
      }
    }
  }

  /** An entry is at most the longer prefix length. */
  lemma {:induction false} LevUpper(a: string, b: string, i: nat, j: nat)
    requires i <= |a| && j <= |b|
    ensures Lev(a, b, i, j) <= if i >= j then i else j
    decreases i + j
  {
    if i > 0 && j > 0 {
      LevUpper(a, b, i - 1, j - 1);
    }
  }

  /** The distance is 0 exactly when the two prefixes are equal. */
  lemma {:induction false} LevZero(a: string, b: string, i: nat, j: nat)
    requires i <= |a| && j <= |b|
    ensures Lev(a, b, i, j) == 0 <==> a[..i] == b[..j]
    decreases i
  {
    if i > 0 && j > 0 {
      LevZero(a, b, i - 1, j - 1);
      assert a[..i] == a[..i - 1] + [a[i - 1]] && b[..j] == b[..j - 1] + [b[j - 1]];
      if a[..i] == b[..j] {
        assert a[..i][i - 1] == b[..j][j - 1] && a[..i][..i - 1] == b[..j][..j - 1];
      }
    }
  }

  /** levenshtein_distance(s, t) == 0 iff s == t, and it is at most max(len(s), len(t)). */
  lemma LevenshteinFacts(a: string, b: string)
    ensures Lev(a, b, |a|, |b|) == 0 <==> a == b
    ensures Lev(a, b, |a|, |b|) <= if |a| >= |b| then |a| else |b|
  {
    LevZero(a, b, |a|, |b|);
    LevUpper(a, b, |a|, |b|);
    assert a[..|a|] == a && b[..|b|] == b;
  }

  /** The first two loops of levenshtein_distance: dp[i][0] = i and dp[0][j] = j. */
  method Borders(m: nat, n: nat) returns (dp: array2<int>)
    ensures fresh(dp) && dp.Length0 == m + 1 && dp.Length1 == n + 1
    ensures forall x :: 0 <= x <= m ==> dp[x, 0] == x
    ensures forall y :: 0 <= y <= n ==> dp[0, y] == y
  {
    dp := new int[m + 1, n + 1]((_, _) => 0);
    for i := 0 to m + 1
      invariant forall x {:trigger dp[x, 0]} :: 0 <= x < i ==> dp[x, 0] == x
    {
      dp[i, 0] := i;
    }
    for j := 0 to n + 1
      invariant forall x {:trigger dp[x, 0]} :: 1 <= x <= m ==> dp[x, 0] == x
      invariant forall y {:trigger dp[0, y]} :: 0 <= y < j ==> dp[0, y] == y
    {
      dp[0, j] := j;
    }
  }

  /** `levenshtein_distance`: the border rows, then the table row by row. */
  method LevenshteinDistance(a: string, b: string) returns (r: int)
    ensures r == Lev(a, b, |a|, |b|)
  {
    var m, n := |a|, |b|;
    var dp := Borders(m, n);
    for i := 1 to m + 1
      invariant forall x, y {:trigger dp[x, y]} :: 0 <= x < i && 0 <= y <= n ==> dp[x, y] == Lev(a, b, x, y)
      invariant forall x {:trigger dp[x, 0]} :: i <= x <= m ==> dp[x, 0] == x
    {
      for j := 1 to n + 1
        invariant forall x, y {:trigger dp[x, y]} :: 0 <= x < i && 0 <= y <= n ==> dp[x, y] == Lev(a, b, x, y)
        invariant forall y {:trigger dp[i, y]} :: 0 <= y < j ==> dp[i, y] == Lev(a, b, i, y)
        invariant forall x {:trigger dp[x, 0]} :: i < x <= m ==> dp[x, 0] == x
      {
        if a[i - 1] == b[j - 1] {
          dp[i, j] := dp[i - 1, j - 1];
        } else {
          dp[i, j] := 1 + Min3(dp[i - 1, j], dp[i, j - 1], dp[i - 1, j - 1]);
        }
      }
    }
    r := dp[m, n];
  }
}
