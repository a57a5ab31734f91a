/**
 * The three Fibonacci functions of lab09: plain recursion, recursion with a
 * memo dictionary threaded through the calls, and a bottom-up table.
 */
module Fibonacci {
  import opened Common

  /** `fibonacci_naive`: n itself for n <= 1 (negative n included), else the sum of the two before. */
  function Fib(n: int): (f: int)
    decreases n
  {
    if n <= 1 then n else Fib(n - 1) + Fib(n - 2)
  }

  /** The sequence is never negative from 0 on and grows: F(n) >= n - 1. */
  lemma {:induction false} FibGrowth(n: int)
    requires n >= 0
    ensures Fib(n) >= 0 && Fib(n) >= n - 1
    decreases n
  {
    if n >= 2 {
      FibGrowth(n - 1);
      FibGrowth(n - 2);
    }
  }

  /** A memo whose every entry is the Fibonacci number of its key. */
  ghost predicate MemoValid(memo: map<int, int>) {
    forall k :: k in memo ==> memo[k] == Fib(k)
  }

  /**
   * `fibonacci_memo` once the memo exists: a hit is returned as stored;
   * otherwise n <= 1 gives n and larger n store F(n - 1) + F(n - 2) under n.
   */
  method FibMemo(n: int, memo: map<int, int>) returns (r: int, memo': map<int, int>)
    requires MemoValid(memo)
    ensures r == Fib(n)
    ensures MemoValid(memo') && memo.Keys <= memo'.Keys
    ensures n >= 2 ==> n in memo'
    decreases n
  {
    if n in memo {
      return memo[n], memo;
    }
    if n <= 1 {
      return n, memo;
    }
    var a, m1 := FibMemo(n - 1, memo);
    var b, m2 := FibMemo(n - 2, m1);
    memo' := m2[n := a + b];
    r := memo'[n];
  }

  /** `fibonacci_memo(n)` with no memo given starts from an empty dictionary. */
  method FibonacciMemo(n: int, memo: Option<map<int, int>>) returns (r: int)
    requires memo.Some? ==> MemoValid(memo.value)
    ensures r == Fib(n)
  {
    var start := if memo.None? then map[] else memo.value;
    var m;
    r, m := FibMemo(n, start);
  }

  /** `fibonacci_tabular`: dp[i] = dp[i - 1] + dp[i - 2] from dp[0] = 0, dp[1] = 1. */
  method FibTabular(n: int) returns (r: int)
    ensures r == Fib(n)
  {
    if n <= 1 {
      return n;
    }
    var dp := new int[n + 1](_ => 0);
    dp[1] := 1;
    for i := 2 to n + 1
      invariant forall k {:trigger dp[k]} :: 0 <= k < i ==> dp[k] == Fib(k)
    {
      dp[i] := dp[i - 1] + dp[i - 2];
    }
    r := dp[n];
  }
}
