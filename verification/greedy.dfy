/**
 * Two of the lab08 greedy algorithms: activity selection by earliest end,
 * and change-making by largest coin first. Both sort the caller's list in
 * place before their greedy pass, so both take an array they modify.
 */
module Greedy {
  import opened Common

  /** (start, end). */
  type Interval = (int, int)

  function End(iv: Interval): int { iv.1 }

  /** Consecutive chosen intervals do not overlap: each starts no earlier than the previous one ends. */
  predicate Compatible(c: seq<Interval>) {
    forall k :: 0 < k < |c| ==> c[k - 1].1 <= c[k].0
  }

  /** Every interval of c ends no later than any later one starts. */
  predicate Chain(c: seq<Interval>) {
    forall i, j :: 0 <= i < j < |c| ==> c[i].1 <= c[j].0
  }

  /**
   * The selection after the loop has looked at s[..i]: the first interval,
   * then each later one that starts at or after the end of the last one kept.
   */
  function Greedy(s: seq<Interval>, i: int): (r: seq<Interval>)
    requires 0 < i <= |s|
    ensures r != [] && |r| <= i
  {
    if i == 1 then [s[0]]
    else
      var g := Greedy(s, i - 1);
      if s[i - 1].0 >= g[|g| - 1].1 then g + [s[i - 1]] else g
  }

  /** What the scheduler selects from intervals already sorted by end. */
  function Schedule(s: seq<Interval>): (r: seq<Interval>)
    ensures s == [] <==> r == []
  {
    if s == [] then [] else Greedy(s, |s|)
  }

  /** Sorts the caller's list by end, keeps the first interval and every later one starting at or after the last kept end. */
  method IntervalScheduling(intervals: array<Interval>) returns (selected: seq<Interval>)
    modifies intervals
    ensures intervals[..] == SortByKey(old(intervals[..]), End)
    ensures selected == Schedule(intervals[..])
  {
    if intervals.Length == 0 {
      return [];
    }
    var sorted := SortByKey(intervals[..], End);
    Overwrite(intervals, sorted);
    selected := [sorted[0]];
    for i := 1 to |sorted|
      modifies {}
      invariant selected == Greedy(sorted, i)
    {
      var interval := sorted[i];
      if interval.0 >= selected[|selected| - 1].1 {
        selected := selected + [interval];
      }
    }
  }

  /** In a list sorted by end, whatever lies in s[..i + 1] is s[i] or lies in s[..i], and ends no later than s[i]. */
  lemma PrefixMember(s: seq<Interval>, i: int, x: Interval)
    requires SortedBy(s, End) && 0 <= i < |s| && x in s[..i + 1]
    ensures x == s[i] || x in s[..i]
    ensures End(x) <= End(s[i])
  {
    var k :| 0 <= k < i + 1 && s[k] == x;
    if k < i {
      assert x == s[..i][k];
    }
  }

  /**
   * The selection from s[..i] is non-overlapping, ordered by end, drawn from
   * s[..i], and ends no later than s[i - 1].
   */
  lemma {:induction false} GreedyShape(s: seq<Interval>, i: int)
    requires SortedBy(s, End) && 0 < i <= |s|
    ensures Compatible(Greedy(s, i)) && SortedBy(Greedy(s, i), End)
    ensures forall x :: x in Greedy(s, i) ==> x in s[..i]
    ensures forall k :: 0 <= k < |Greedy(s, i)| ==> End(Greedy(s, i)[k]) <= End(s[i - 1])
  {
    if i > 1 {
      GreedyShape(s, i - 1);
      forall x | x in Greedy(s, i - 1) ensures x in s[..i] {
        var k :| 0 <= k < i - 1 && s[k] == x;
        assert x == s[..i][k];
      }
      assert End(s[i - 2]) <= End(s[i - 1]);
    }
  }

  /** In a chain of proper intervals the ends strictly increase. */
  lemma ChainEnds(c: seq<Interval>)
    requires Chain(c) && Proper(c)
    ensures forall i, j :: 0 <= i < j < |c| ==> c[i].1 < c[j].1
  {
    forall i, j | 0 <= i < j < |c| ensures c[i].1 < c[j].1 {
      assert c[j] in c;
    }
  }

  /** Every interval has positive length. */
  predicate Proper(s: seq<Interval>) {
    forall x :: x in s ==> x.0 < x.1
  }

  /** When the last interval of a chain lies in s[..m], so does the whole chain. */
  lemma AllEarlier(s: seq<Interval>, m: int, c: seq<Interval>)
    requires SortedBy(s, End) && 0 <= m < |s| && Chain(c) && Proper(c) && c != []
    requires (forall x :: x in c ==> x in s[..m + 1]) && c[|c| - 1] in s[..m]
    ensures forall x :: x in c ==> x in s[..m]
  {
    ChainEnds(c);
    var y := c[|c| - 1];
    var j :| 0 <= j < m && s[j] == y;
    forall x | x in c ensures x in s[..m] {
      var k :| 0 <= k < |c| && c[k] == x;
      PrefixMember(s, m, x);
      if k < |c| - 1 {
        assert End(x) < End(y) <= End(s[m]);
      }
    }
  }

  /** When a chain ends with s[m], the rest of it lies in s[..m]. */
  lemma InitEarlier(s: seq<Interval>, m: int, c: seq<Interval>)
    requires SortedBy(s, End) && 0 <= m < |s| && Chain(c) && Proper(c) && c != []
    requires (forall x :: x in c ==> x in s[..m + 1]) && c[|c| - 1] == s[m]
    ensures Chain(c[..|c| - 1]) && forall x :: x in c[..|c| - 1] ==> x in s[..m]
  {
    ChainEnds(c);
    forall x | x in c[..|c| - 1] ensures x in s[..m] {
      var k :| 0 <= k < |c| - 1 && c[k] == x;
      assert x in c;
      PrefixMember(s, m, x);
    }
  }

  /**
   * The chain c is no longer than the selection from s[..i], and when it is
   * as long, the selection ends no later.
   */
  ghost predicate Ahead(s: seq<Interval>, i: int, c: seq<Interval>)
    requires 0 < i <= |s|
  {
    var g := Greedy(s, i);
    |c| <= |g| && (c != [] && |c| == |g| ==> End(g[|g| - 1]) <= End(c[|c| - 1]))
  }

  /**
   * Greedy stays ahead: every chain of proper intervals drawn from s[..i] is
   * Ahead of the selection from s[..i].
   */
  lemma {:induction false} GreedyAhead(s: seq<Interval>, i: int, c: seq<Interval>)
    requires SortedBy(s, End) && Proper(s) && 0 < i <= |s| && Chain(c)
    requires forall x :: x in c ==> x in s[..i]
    ensures Ahead(s, i, c)
  {
    if c == [] {
      return;
    }
    var y := c[|c| - 1];
    assert y in c;
    ProperFrom(s, i, c);
    PrefixMember(s, i - 1, y);
    if i == 1 {
      AheadBase(s, c);
    } else if y in s[..i - 1] {
      AllEarlier(s, i - 1, c);
      GreedyAhead(s, i - 1, c);
      AheadSkip(s, i, c);
    } else {
      InitEarlier(s, i - 1, c);
      GreedyAhead(s, i - 1, c[..|c| - 1]);
      AheadStep(s, i, c);
    }
  }

  /** A chain of proper intervals all drawn from s[..1] has at most one interval. */
  lemma AheadBase(s: seq<Interval>, c: seq<Interval>)
    requires SortedBy(s, End) && 0 < |s| && Chain(c) && Proper(c) && c != []
    requires forall x :: x in c ==> x in s[..1]
    ensures Ahead(s, 1, c)
  {
    ChainEnds(c);
    assert c[0] in c && c[|c| - 1] in c;
    PrefixMember(s, 0, c[0]);
    PrefixMember(s, 0, c[|c| - 1]);
    if |c| >= 2 {
      assert false;
    }
  }

  /** A chain that was Ahead at i - 1 stays Ahead at i. */
  lemma AheadSkip(s: seq<Interval>, i: int, c: seq<Interval>)
    requires 1 < i <= |s| && Ahead(s, i - 1, c)
    ensures Ahead(s, i, c)
  {
  }

  /** The intervals of a chain drawn from proper intervals are proper. */
  lemma ProperFrom(s: seq<Interval>, i: int, c: seq<Interval>)
    requires Proper(s) && 0 <= i <= |s| && forall x :: x in c ==> x in s[..i]
    ensures Proper(c)
  {
    forall x | x in c ensures x.0 < x.1 {
      var k :| 0 <= k < i && s[k] == x;
      assert s[k] in s;
    }
  }

  /** The step of GreedyAhead where the chain ends with s[i - 1]. */
  lemma AheadStep(s: seq<Interval>, i: int, c: seq<Interval>)
    requires SortedBy(s, End) && 1 < i <= |s| && Chain(c) && c != [] && c[|c| - 1] == s[i - 1]
    requires Ahead(s, i - 1, c[..|c| - 1])
    ensures Ahead(s, i, c)
  {
    var g := Greedy(s, i - 1);
    GreedyShape(s, i - 1);
    assert End(s[i - 2]) <= End(s[i - 1]);
    assert g[|g| - 1] in g;
    if |c| - 1 == |g| {
      assert c[|c| - 2].1 <= c[|c| - 1].0;
    }
  }

  /** The schedule is ordered by end, non-overlapping, and drawn from its input. */
  lemma ScheduleShape(s: seq<Interval>)
    requires SortedBy(s, End)
    ensures Compatible(Schedule(s)) && SortedBy(Schedule(s), End)
    ensures forall x :: x in Schedule(s) ==> x in s
  {
    if s != [] {
      GreedyShape(s, |s|);
      assert s[..|s|] == s;
    }
  }

  /**
   * The schedule is a maximum set of non-overlapping intervals: no chain of
   * proper intervals drawn from the sorted input is longer.
   */
  lemma ScheduleOptimal(s: seq<Interval>, c: seq<Interval>)
    requires SortedBy(s, End) && Proper(s) && Chain(c)
    requires forall x :: x in c ==> x in s
    ensures |c| <= |Schedule(s)|
  {
    if s != [] {
      assert s[..|s|] == s;
      GreedyAhead(s, |s|, c);
    } else if c != [] {
      assert c[0] in c;
    }
  }

  /** What interval_scheduling promises of its caller's list, whatever its order. */
  lemma SchedulingFacts(intervals: seq<Interval>, c: seq<Interval>)
    requires Proper(intervals) && Chain(c) && forall x :: x in c ==> x in intervals
    ensures Compatible(Schedule(SortByKey(intervals, End))) && SortedBy(Schedule(SortByKey(intervals, End)), End)
    ensures forall x :: x in Schedule(SortByKey(intervals, End)) ==> x in intervals
    ensures |c| <= |Schedule(SortByKey(intervals, End))|
  {
    var s := SortByKey(intervals, End);
    SortByKeySorted(intervals, End);
    forall x ensures x in s <==> x in intervals {
      assert x in s <==> x in multiset(s);
      assert x in intervals <==> x in multiset(intervals);
    }
    ScheduleShape(s);
    ScheduleOptimal(s, c);
  }

  // ------------------------------------------------------------ coin change

  /** Non-increasing. */
  predicate Descending(s: seq<int>) {
    forall i, j :: 0 <= i < j < |s| ==> s[i] >= s[j]
  }

  /**
   * The state of the change-making loops: the coins paid so far and the
   * remaining amount add up to the amount, the coins come in non-increasing
   * order and all are denominations.
   */
  ghost predicate Paid(result: seq<int>, remaining: int, amount: int, coins: seq<int>) {
    && Sum(result) + remaining == amount
    && (0 <= amount ==> 0 <= remaining)
    && Descending(result)
    && forall k :: 0 <= k < |result| ==> result[k] in coins
  }

  /** Paying one more coin, no larger than the last one paid and no larger than what remains. */
  lemma PayCoin(result: seq<int>, remaining: int, amount: int, coins: seq<int>, coin: int)
    requires Paid(result, remaining, amount, coins) && coin in coins && coin <= remaining
    requires result != [] ==> coin <= result[|result| - 1]
    ensures Paid(result + [coin], remaining - coin, amount, coins)
  {
    assert (result + [coin])[..|result|] == result;
  }

  /** How often a coin c fits into what is left: left / c times, and never into a negative remainder. */
  function Times(left: int, c: int): (n: nat)
    requires c > 0
    ensures left >= 0 ==> n * c <= left < (n + 1) * c
  {
    if left >= 0 then left / c else 0
  }

  /** n copies of coin c. */
  function Copies(c: int, n: nat): (r: seq<int>)
    ensures |r| == n && forall k :: 0 <= k < n ==> r[k] == c
  {
    seq(n, _ => c)
  }

  /**
   * The greedy payment over coins in descending order: the first coin as
   * often as it fits into what is left, then the others on what remains.
   */
  function GreedyChange(left: int, sorted: seq<int>): (r: seq<int>)
    requires forall k :: 0 <= k < |sorted| ==> sorted[k] > 0
  {
    if sorted == [] then []
    else
      var n := Times(left, sorted[0]);
      Copies(sorted[0], n) + GreedyChange(left - n * sorted[0], sorted[1..])
  }

  /**
   * Sorts the caller's coins in descending order, then takes each coin as
   * often as it still fits into what remains of the amount.
   */
  method CoinChange(amount: int, coins: array<int>) returns (result: seq<int>)
    requires forall k :: 0 <= k < coins.Length ==> coins[k] > 0
    modifies coins
    ensures coins[..] == SortIntsDescending(old(coins[..]))
    ensures forall k :: 0 <= k < coins.Length ==> coins[k] > 0
    ensures result == GreedyChange(amount, coins[..])
    ensures Descending(result) && forall c :: c in result ==> c in coins[..]
    ensures 0 <= amount ==> Sum(result) <= amount
    ensures forall c :: c in coins[..] ==> amount - Sum(result) < c
    ensures 0 <= amount && 1 in coins[..] ==> Sum(result) == amount
  {
    var sorted := SortIntsDescending(coins[..]);
    PositivePerm(coins[..], sorted);
    Overwrite(coins, sorted);
    result := PayLargestFirst(amount, sorted);
  }

  /** The two loops of coin_change over the coins in descending order. */
  method PayLargestFirst(amount: int, sorted: seq<int>) returns (result: seq<int>)
    requires Descending(sorted) && forall k :: 0 <= k < |sorted| ==> sorted[k] > 0
    ensures result == GreedyChange(amount, sorted)
    ensures Descending(result) && forall c :: c in result ==> c in sorted
    ensures 0 <= amount ==> Sum(result) <= amount
    ensures forall c :: c in sorted ==> amount - Sum(result) < c
  {
    result := [];
    var remaining := amount;
    assert sorted[0..] == sorted;
    for i := 0 to |sorted|
      invariant Paid(result, remaining, amount, sorted)
      invariant result != [] && i < |sorted| ==> sorted[i] <= result[|result| - 1]
      invariant 0 < i ==> remaining < sorted[i - 1]
      invariant result + GreedyChange(remaining, sorted[i..]) == GreedyChange(amount, sorted)
    {
      result, remaining := PayCoinKind(result, remaining, amount, sorted, i);
    }
    assert sorted[|sorted|..] == [];
    BelowAll(remaining, sorted);
  }

  /** What is below the last, smallest coin is below every coin. */
  lemma BelowAll(left: int, sorted: seq<int>)
    requires Descending(sorted) && (sorted != [] ==> left < sorted[|sorted| - 1])
    ensures forall c :: c in sorted ==> left < c
  {
  }

  /** The greedy payment pays its first coin as often as it fits, then goes on with the rest. */
  lemma GreedyUnfold(left: int, s: seq<int>)
    requires s != [] && forall k :: 0 <= k < |s| ==> s[k] > 0
    ensures var n := Times(left, s[0]);
      GreedyChange(left, s) == Copies(s[0], n) + GreedyChange(left - n * s[0], s[1..])
  {
  }

  /** Paying coin i greedily carries the greedy payment of the whole list over to coin i + 1. */
  lemma GreedyStep(paid: seq<int>, left: int, amount: int, sorted: seq<int>, i: int, paid': seq<int>, left': int)
    requires 0 <= i < |sorted| && forall k :: 0 <= k < |sorted| ==> sorted[k] > 0
    requires paid + GreedyChange(left, sorted[i..]) == GreedyChange(amount, sorted)
    requires paid' == paid + Copies(sorted[i], Times(left, sorted[i]))
    requires left' == left - Times(left, sorted[i]) * sorted[i]
    ensures paid' + GreedyChange(left', sorted[i + 1..]) == GreedyChange(amount, sorted)
  {
    var n := Times(left, sorted[i]);
    assert sorted[i..][1..] == sorted[i + 1..];
    GreedyUnfold(left, sorted[i..]);
    AppendAssoc(paid, Copies(sorted[i], n), GreedyChange(left', sorted[i + 1..]));
  }

  /** One round of the outer loop: pays coin i as often as it fits. */
  method PayCoinKind(result0: seq<int>, remaining0: int, ghost amount: int, sorted: seq<int>, i: int)
    returns (result: seq<int>, remaining: int)
    requires 0 <= i < |sorted| && Descending(sorted) && forall k :: 0 <= k < |sorted| ==> sorted[k] > 0
    requires Paid(result0, remaining0, amount, sorted)
    requires result0 != [] ==> sorted[i] <= result0[|result0| - 1]
    requires result0 + GreedyChange(remaining0, sorted[i..]) == GreedyChange(amount, sorted)
    ensures Paid(result, remaining, amount, sorted) && remaining < sorted[i]
    ensures result != [] && i + 1 < |sorted| ==> sorted[i + 1] <= result[|result| - 1]
    ensures result + GreedyChange(remaining, sorted[i + 1..]) == GreedyChange(amount, sorted)
  {
    result, remaining := PayWhileFits(result0, remaining0, amount, sorted, sorted[i]);
    GreedyStep(result0, remaining0, amount, sorted, i, result, remaining);
    assert i + 1 < |sorted| ==> sorted[i + 1] <= sorted[i];
  }

  /** The inner loop: pays `coin` as long as it fits into what remains. */
  method PayWhileFits(result0: seq<int>, remaining0: int, ghost amount: int, sorted: seq<int>, coin: int)
    returns (result: seq<int>, remaining: int)
    requires coin > 0 && coin in sorted
    requires Paid(result0, remaining0, amount, sorted)
    requires result0 != [] ==> coin <= result0[|result0| - 1]
    ensures Paid(result, remaining, amount, sorted) && remaining < coin && remaining <= remaining0
    ensures result != [] ==> coin <= result[|result| - 1]
    ensures result == result0 + Copies(coin, Times(remaining0, coin))
    ensures remaining == remaining0 - Times(remaining0, coin) * coin
  {
    result, remaining := result0, remaining0;
    ghost var k: nat := 0;
    while remaining >= coin
      invariant Paid(result, remaining, amount, sorted)
      invariant result != [] ==> coin <= result[|result| - 1]
      invariant result == result0 + Copies(coin, k)
      invariant remaining == remaining0 - k * coin
      invariant k > 0 ==> remaining >= 0
      decreases remaining
    {
      PayCoin(result, remaining, amount, sorted, coin);
      CopiesSnoc(result0, coin, k);
      result := result + [coin];
      remaining := remaining - coin;
      assert remaining == remaining0 - (k + 1) * coin;
      k := k + 1;
    }
    CopiesCount(remaining0, coin, k);
  }

  /** Paying one more copy appends one coin. */
  lemma CopiesSnoc(r0: seq<int>, c: int, k: nat)
    ensures r0 + Copies(c, k + 1) == r0 + Copies(c, k) + [c]
  {
    assert Copies(c, k + 1) == Copies(c, k) + [c];
  }

  /** The loop that pays coin c k times until less than c remains pays it Times(r0, c) times. */
  lemma CopiesCount(r0: int, c: int, k: nat)
    requires c > 0 && r0 - k * c < c && (k > 0 ==> r0 - k * c >= 0)
    ensures k == Times(r0, c)
  {
    var n := Times(r0, c);
    if k > 0 {
      if k < n {
        MulMono(k + 1, n, c);
      } else if k > n {
        MulMono(n + 1, k, c);
      }
    }
  }

  lemma MulMono(a: int, b: int, c: int)
    requires a <= b && c > 0
    ensures a * c <= b * c
  {
  }

  /** Rearranging positive coins keeps them positive, and keeps their number. */
  lemma PositivePerm(s: seq<int>, t: seq<int>)
    requires multiset(s) == multiset(t) && forall k :: 0 <= k < |s| ==> s[k] > 0
    ensures |t| == |s| && forall k :: 0 <= k < |t| ==> t[k] > 0
  {
    assert |t| == |multiset(t)|;
    forall k | 0 <= k < |t| ensures t[k] > 0 {
      assert t[k] in multiset(s);
    }
  }
}
