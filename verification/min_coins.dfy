/** The dynamic-programming coin change of lab09: the fewest coins that pay an amount exactly. */
module MinCoins {
  import opened Common

  /** A table entry: `float('inf')` or a coin count. */
  datatype Cost = Inf | Fin(n: nat)

  /** Python's min on two entries, with inf above every count. */
  function MinCost(x: Cost, y: Cost): (r: Cost)
    ensures r == x || r == y
    ensures r.Fin? <==> x.Fin? || y.Fin?
    ensures r.Fin? ==> (x.Fin? ==> r.n <= x.n) && (y.Fin? ==> r.n <= y.n)
  {
    if x.Inf? then y else if y.Inf? then x else if y.n < x.n then y else x
  }

  /** An entry plus one coin; inf stays inf. */
  function Plus1(x: Cost): Cost {
    if x.Inf? then Inf else Fin(x.n + 1)
  }

  predicate Positive(coins: seq<int>) {
    forall k :: 0 <= k < |coins| ==> coins[k] > 0
  }

  /**
   * dp[i] once the first k coins have been processed. The update is in
   * place, so entry i - coin already counts the current coin as well.
   */
  function C(coins: seq<int>, k: nat, i: nat): Cost
    requires k <= |coins| && Positive(coins)
    decreases k, i
  {
    if k == 0 then (if i == 0 then Fin(0) else Inf)
    else if i >= coins[k - 1] then MinCost(C(coins, k - 1, i), Plus1(C(coins, k, i - coins[k - 1])))
    else C(coins, k - 1, i)
  }

  /** A way to pay amount exactly with coins drawn, any number of times each, from coins[..k]. */
  predicate Pays(coins: seq<int>, k: nat, p: seq<int>, amount: int)
    requires k <= |coins|
  {
    (forall x :: 0 <= x < |p| ==> p[x] in coins[..k]) && Sum(p) == amount
  }

  lemma {:induction false} SumPositive(coins: seq<int>, k: nat, p: seq<int>)
    requires k <= |coins| && Positive(coins)
    requires forall x :: 0 <= x < |p| ==> p[x] in coins[..k]
    ensures Sum(p) >= 0
    decreases |p|
  {
    if p != [] {
      SumPositive(coins, k, p[..|p| - 1]);
    }
  }

  lemma SumRemove(p: seq<int>, m: nat)
    requires m < |p|
    ensures Sum(p) == Sum(p[..m] + p[m + 1..]) + p[m]
  {
    var a, x, b := p[..m], p[m], p[m + 1..];
    assert Sum([x]) == x by {
      assert [x][..0] == [];
    }
    var xb := [x] + b;
    assert p == a + xb;
    SumAppend(a, xb);
    SumAppend([x], b);
    SumAppend(a, b);
  }

  /** No payment of i from the first k coins uses fewer coins than dp[i]; in particular dp[i] is not inf. */
  lemma {:induction false} PaymentBound(coins: seq<int>, k: nat, i: nat, p: seq<int>)
    requires k <= |coins| && Positive(coins) && Pays(coins, k, p, i)
    ensures C(coins, k, i).Fin? && C(coins, k, i).n <= |p|
    decreases k, |p|
  {
    if k > 0 {
      var c := coins[k - 1];
      assert coins[..k] == coins[..k - 1] + [c];
      if m :| 0 <= m < |p| && p[m] == c {
        var p' := p[..m] + p[m + 1..];
        SumRemove(p, m);
        assert forall x :: 0 <= x < |p'| ==> p'[x] in coins[..k] by {
          forall x | 0 <= x < |p'| ensures p'[x] in coins[..k] {
            assert p'[x] == if x < m then p[x] else p[x + 1];
          }
        }
        SumPositive(coins, k, p');
        PaymentBound(coins, k, i - c, p');
      } else {
        assert forall x :: 0 <= x < |p| ==> p[x] in coins[..k - 1];
        PaymentBound(coins, k - 1, i, p);
      }
    }
  }

  /** A payment of i with exactly dp[i] coins, whenever dp[i] is not inf. */
  function Payment(coins: seq<int>, k: nat, i: nat): (r: seq<int>)
    requires k <= |coins| && Positive(coins) && C(coins, k, i).Fin?
    ensures |r| == C(coins, k, i).n && Pays(coins, k, r, i)
    decreases k, i
  {
    if k == 0 then []
    else
      var c := coins[k - 1];
      assert coins[..k] == coins[..k - 1] + [c];
      if i >= c && C(coins, k, i) == Plus1(C(coins, k, i - c)) then
        var p := Payment(coins, k, i - c);
        assert (p + [c])[..|p|] == p;
        p + [c]
      else
        Payment(coins, k - 1, i)
  }

  /**
   * The table's answer is the fewest coins over all exact payments:
   * every payment uses at least that many, and Payment reaches it; an
   * amount no payment reaches is left at inf, and amount 0 costs 0.
   */
  lemma CoinChangeOptimal(coins: seq<int>, amount: nat)
    requires Positive(coins)
    ensures forall p :: Pays(coins, |coins|, p, amount) ==> C(coins, |coins|, amount).Fin? && C(coins, |coins|, amount).n <= |p|
    ensures C(coins, |coins|, amount).Fin? ==> Pays(coins, |coins|, Payment(coins, |coins|, amount), amount)
    ensures amount == 0 ==> C(coins, |coins|, amount) == Fin(0)
  {
    forall p | Pays(coins, |coins|, p, amount)
      ensures C(coins, |coins|, amount).Fin? && C(coins, |coins|, amount).n <= |p|
    {
      PaymentBound(coins, |coins|, amount, p);
    }
    if amount == 0 {
      PaymentBound(coins, |coins|, 0, []);
    }
  }

  /**
   * `coin_change` (dynamic programming): dp[0] = 0 and inf elsewhere, then
   * for each coin in turn dp[i] = min(dp[i], dp[i - coin] + 1) for i from
   * coin up to amount; the answer is dp[amount], or -1 if it is still inf.
   */
  method CoinChangeDp(coins: seq<int>, amount: int) returns (r: int)
    requires Positive(coins) && amount >= 0
    ensures r == if C(coins, |coins|, amount).Fin? then C(coins, |coins|, amount).n else -1
    ensures amount == 0 ==> r == 0
  {
    var dp := new Cost[amount + 1](_ => Inf);
    dp[0] := Fin(0);
    for k := 0 to |coins|
      invariant forall t {:trigger dp[t]} :: 0 <= t <= amount ==> dp[t] == C(coins, k, t)
    {
      var coin := coins[k];
      var i := coin;
      while i <= amount
        invariant coin <= i
        invariant forall t {:trigger dp[t]} :: 0 <= t <= amount && t < i ==> dp[t] == C(coins, k + 1, t)
        invariant forall t {:trigger dp[t]} :: i <= t <= amount ==> dp[t] == C(coins, k, t)
        decreases amount + 1 - i
      {
        dp[i] := MinCost(dp[i], Plus1(dp[i - coin]));
        i := i + 1;
      }
    }
    r := if dp[amount].Fin? then dp[amount].n else -1;
    CoinChangeOptimal(coins, amount);
  }
}
