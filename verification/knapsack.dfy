/**
 * The 0/1 knapsack of lab08 and lab09: the dynamic-programming table of
 * `knapsack_01`, the same table walked backwards by
 * `knapsack_with_reconstruction`, and the brute force `exact_knapsack_01`
 * over all item combinations.
 */
module Knapsack {
  import opened Common

  // ------------------------------------------------------------ the dp table

  /** What the table code needs to stay within the table: a non-negative capacity and, unless it is 0, non-negative weights. */
  predicate Fits(weights: seq<int>, values: seq<int>, capacity: int) {
    capacity >= 0 && |weights| <= |values| &&
    (capacity == 0 || forall k :: 0 <= k < |weights| ==> weights[k] >= 0)
  }

  /**
   * Item k makes the table loops raise IndexError: with a positive capacity
   * a negative weight indexes past the last column, and an item without a
   * value is read as soon as its weight fits some column.
   */
  predicate BadItem(weights: seq<int>, values: seq<int>, capacity: int, k: int)
    requires 0 <= k < |weights|
  {
    capacity > 0 && (weights[k] < 0 || (|values| <= k && weights[k] <= capacity))
  }

  /** The inputs on which knapsack_01 and knapsack_with_reconstruction raise IndexError. */
  predicate Raises(weights: seq<int>, values: seq<int>, capacity: int) {
    capacity < 0 || exists k :: 0 <= k < |weights| && BadItem(weights, values, capacity, k)
  }

  /**
   * The values with 0 for every item past the end of the list: the table code
   * reads no such value unless it raises, so any stand-in would do.
   */
  function Padded(values: seq<int>, n: nat): (r: seq<int>)
    ensures |r| == if |values| >= n then |values| else n
    ensures r[..|values|] == values
    ensures forall k :: |values| <= k < |r| ==> r[k] == 0
  {
    if |values| >= n then values else values + seq(n - |values|, _ => 0)
  }

  /** Without an error the padded values fit the table, and a full values list is its own padding. */
  lemma PaddedFits(weights: seq<int>, values: seq<int>, capacity: int)
    requires !Raises(weights, values, capacity)
    ensures Fits(weights, Padded(values, |weights|), capacity)
    ensures |values| >= |weights| ==> Padded(values, |weights|) == values
  {
    if capacity > 0 {
      forall k | 0 <= k < |weights| ensures weights[k] >= 0 {
        assert !BadItem(weights, values, capacity, k);
      }
    }
  }

  /**
   * dp[i][w]: the best value from the first i items within capacity w.
   * knapsack_01 never fills column 0, so it stays 0 (`filled` false); with
   * `filled` true column 0 is computed like the others.
   */
  function Best(weights: seq<int>, values: seq<int>, i: nat, w: int, filled: bool): (r: int)
    requires i <= |weights| <= |values|
    ensures r >= 0
  {
    if i == 0 || w < 0 || (w == 0 && !filled) then 0
    else if weights[i - 1] <= w then Max(Best(weights, values, i - 1, w, filled), values[i - 1] + Best(weights, values, i - 1, w - weights[i - 1], filled))
    else Best(weights, values, i - 1, w, filled)
  }

  /** The table never decreases when an item or a unit of capacity is added. */
  lemma {:induction false} BestMonotone(weights: seq<int>, values: seq<int>, i: nat, w: int, filled: bool)
    requires i < |weights| <= |values|
    ensures Best(weights, values, i, w, filled) <= Best(weights, values, i + 1, w, filled)
    ensures Best(weights, values, i, w, filled) <= Best(weights, values, i, w + 1, filled)
    decreases i
  {
    if i > 0 && w >= 0 {
      BestMonotone(weights, values, i - 1, w, filled);
      if weights[i - 1] <= w {
        BestMonotone(weights, values, i - 1, w - weights[i - 1], filled);
      }
    }
  }

  /**
   * The two nested loops that fill dp row by row (shared by knapsack_01 and
   * knapsack_with_reconstruction). They raise IndexError at the first cell
   * that reads a missing value or a column past the last; a negative capacity
   * gives rows of length 0 and no iteration.
   */
  method FillTable(weights: seq<int>, values: seq<int>, capacity: int) returns (r: Result<array2<int>>)
    ensures r.Err? <==> exists k :: 0 <= k < |weights| && BadItem(weights, values, capacity, k)
    ensures r.Err? ==> r.error == IndexError
    ensures r.Ok? ==> fresh(r.value) && r.value.Length0 == |weights| + 1 && r.value.Length1 == Max(capacity + 1, 0)
    ensures r.Ok? ==> forall i, w :: 0 <= i <= |weights| && 0 <= w <= capacity ==>
      r.value[i, w] == Best(weights, Padded(values, |weights|), i, w, false)
  {
    var n := |weights|;
    ghost var pv := Padded(values, n);
    var dp := new int[n + 1, Max(capacity + 1, 0)]((_, _) => 0);
    for i := 1 to n + 1
      invariant forall a, b {:trigger dp[a, b]} :: 0 <= a < i && 0 <= b <= capacity ==> dp[a, b] == Best(weights, pv, a, b, false)
      invariant forall a, b {:trigger dp[a, b]} :: i <= a <= n && 0 <= b <= capacity ==> dp[a, b] == 0
      invariant forall k :: 0 <= k < i - 1 ==> !BadItem(weights, values, capacity, k)
    {
      for w := 1 to Max(capacity + 1, 1)
        invariant forall a, b {:trigger dp[a, b]} :: 0 <= a < i && 0 <= b <= capacity ==> dp[a, b] == Best(weights, pv, a, b, false)
        invariant forall b {:trigger dp[i, b]} :: 0 <= b < w && b <= capacity ==> dp[i, b] == Best(weights, pv, i, b, false)
        invariant forall a, b {:trigger dp[a, b]} :: i < a <= n && 0 <= b <= capacity ==> dp[a, b] == 0
        invariant w == 1 || w - 1 < weights[i - 1] || (i - 1 < |values| && w - 1 - weights[i - 1] <= capacity)
      {
        if weights[i - 1] <= w {
          if i - 1 >= |values| || w - weights[i - 1] > capacity {
            assert BadItem(weights, values, capacity, i - 1);
            return Err(IndexError);
          }
          assert pv[i - 1] == values[i - 1];
          dp[i, w] := Max(dp[i - 1, w], values[i - 1] + dp[i - 1, w - weights[i - 1]]);
        } else {
          dp[i, w] := dp[i - 1, w];
        }
      }
      assert capacity > 0 ==> !BadItem(weights, values, capacity, i - 1);
    }
    r := Ok(dp);
  }

  /** `knapsack_01`: the last cell of the table; IndexError when the loops raise or the rows are empty. */
  method Knapsack01(weights: seq<int>, values: seq<int>, capacity: int) returns (r: Result<int>)
    ensures r.Err? <==> Raises(weights, values, capacity)
    ensures r.Err? ==> r.error == IndexError
    ensures r.Ok? ==> r.value == Best(weights, Padded(values, |weights|), |weights|, capacity, false)
  {
    var t := FillTable(weights, values, capacity);
    if t.Err? || capacity < 0 {
      return Err(IndexError);
    }
    r := Ok(t.value[|weights|, capacity]);
  }

  // ------------------------------------------------------ subsets of the items

  /** An item (weight, value). */
  type Item = (int, int)

  function TotalWeight(c: seq<Item>): int {
    if c == [] then 0 else TotalWeight(c[..|c| - 1]) + c[|c| - 1].0
  }

  function TotalValue(c: seq<Item>): int {
    if c == [] then 0 else TotalValue(c[..|c| - 1]) + c[|c| - 1].1
  }

  lemma {:induction false} TotalsAppend(a: seq<Item>, b: seq<Item>)
    ensures TotalWeight(a + b) == TotalWeight(a) + TotalWeight(b)
    ensures TotalValue(a + b) == TotalValue(a) + TotalValue(b)
    decreases |b|
  {
    if b == [] {
      assert a + b == a;
    } else {
      assert (a + b)[..|a + b| - 1] == a + b[..|b| - 1];
      TotalsAppend(a, b[..|b| - 1]);
    }
  }

  /** How many positions pick marks. */
  function Count(pick: seq<bool>): (r: nat)
    ensures r <= |pick|
  {
    if pick == [] then 0 else (if pick[0] then 1 else 0) + Count(pick[1..])
  }

  /** The items at the positions pick marks, in their order. */
  function Chosen(s: seq<Item>, pick: seq<bool>): (r: seq<Item>)
    requires |pick| == |s|
    ensures |r| == Count(pick)
  {
    if s == [] then [] else (if pick[0] then [s[0]] else []) + Chosen(s[1..], pick[1..])
  }

  /** Chosen can equally be peeled from the back. */
  lemma {:induction false} ChosenLast(s: seq<Item>, pick: seq<bool>)
    requires |pick| == |s| > 0
    ensures Chosen(s, pick) == Chosen(s[..|s| - 1], pick[..|s| - 1]) + (if pick[|s| - 1] then [s[|s| - 1]] else [])
    decreases |s|
  {
    var m := |s| - 1;
    if m > 0 {
      ChosenLast(s[1..], pick[1..]);
      assert s[1..][..m - 1] == s[..m][1..] && pick[1..][..m - 1] == pick[..m][1..];
      assert s[1..][m - 1] == s[m] && pick[1..][m - 1] == pick[m];
      var head := if pick[0] then [s[0]] else [];
      AppendAssoc(head, Chosen(s[..m][1..], pick[..m][1..]), if pick[m] then [s[m]] else []);
    }
  }

  /** Items with non-negative weights: any choice weighs at least 0. */
  lemma {:induction false} ChosenWeightNonneg(s: seq<Item>, pick: seq<bool>)
    requires |pick| == |s| && forall k :: 0 <= k < |s| ==> s[k].0 >= 0
    ensures TotalWeight(Chosen(s, pick)) >= 0
    decreases |s|
  {
    if s != [] {
      var m := |s| - 1;
      ChosenLast(s, pick);
      ChosenWeightNonneg(s[..m], pick[..m]);
      TotalsAppend(Chosen(s[..m], pick[..m]), if pick[m] then [s[m]] else []);
    }
  }

  /** The item list the table code reads from weights and values. */
  predicate Pairs(items: seq<Item>, weights: seq<int>, values: seq<int>) {
    |items| <= |weights| <= |values| && forall k :: 0 <= k < |items| ==> items[k] == (weights[k], values[k])
  }

  /** A prefix of the item list still pairs up with the weights and values. */
  lemma PairsPrefix(items: seq<Item>, weights: seq<int>, values: seq<int>, m: nat)
    requires Pairs(items, weights, values) && m <= |items|
    ensures Pairs(items[..m], weights, values)
  {
  }

  /**
   * The weights the table is right for: positive ones, and also 0 once
   * column 0 is filled.
   */
  predicate Admits(filled: bool, weight: int) {
    weight > 0 || (filled && weight == 0)
  }

  /** With admitted weights, no choice among the first i items within capacity w beats dp[i][w]. */
  lemma {:induction false} BestUpper(weights: seq<int>, values: seq<int>, items: seq<Item>, pick: seq<bool>, w: int, filled: bool)
    requires Pairs(items, weights, values) && |pick| == |items|
    requires forall k :: 0 <= k < |items| ==> Admits(filled, weights[k])
    requires TotalWeight(Chosen(items, pick)) <= w
    ensures TotalValue(Chosen(items, pick)) <= Best(weights, values, |items|, w, filled)
    decreases |items|, 1
  {
    if items != [] {
      UpperLast(weights, values, items, pick, w, filled);
    }
  }

  /** The induction step of BestUpper: split off the last position of the choice. */
  lemma {:induction false} UpperLast(weights: seq<int>, values: seq<int>, items: seq<Item>, pick: seq<bool>, w: int, filled: bool)
    requires Pairs(items, weights, values) && |pick| == |items| > 0
    requires forall k :: 0 <= k < |items| ==> Admits(filled, weights[k])
    requires TotalWeight(Chosen(items, pick)) <= w
    ensures TotalValue(Chosen(items, pick)) <= Best(weights, values, |items|, w, filled)
    decreases |items|, 0
  {
    var i := |items|;
    var rest, restPick := items[..i - 1], pick[..i - 1];
    var front, last := Chosen(rest, restPick), if pick[i - 1] then [items[i - 1]] else [];
    ChosenLast(items, pick);
    TotalsAppend(front, last);
    ChosenWeightNonneg(rest, restPick);
    if pick[i - 1] {
      assert TotalWeight(last) == weights[i - 1] && TotalValue(last) == values[i - 1];
      BestUpper(weights, values, rest, restPick, w - weights[i - 1], filled);
    } else {
      assert TotalWeight(last) == 0 && TotalValue(last) == 0;
      BestUpper(weights, values, rest, restPick, w, filled);
      BestMonotone(weights, values, i - 1, w, filled);
    }
  }

  /**
   * The choice the table encodes: walking up from row i, item i - 1 is
   * taken exactly where dp[i][w] differs from dp[i - 1][w].
   */
  function BestPick(weights: seq<int>, values: seq<int>, i: nat, w: int, filled: bool): (r: seq<bool>)
    requires i <= |weights| <= |values|
    ensures |r| == i
  {
    if i == 0 then []
    else if Best(weights, values, i, w, filled) != Best(weights, values, i - 1, w, filled) then BestPick(weights, values, i - 1, w - weights[i - 1], filled) + [true]
    else BestPick(weights, values, i - 1, w, filled) + [false]
  }

  /** The last entry of BestPick says whether item i - 1 is taken; the entries before it are the choice for the rest. */
  lemma BestPickLast(weights: seq<int>, values: seq<int>, i: nat, w: int, filled: bool)
    requires 0 < i <= |weights| <= |values|
    ensures Best(weights, values, i, w, filled) != Best(weights, values, i - 1, w, filled) ==>
      BestPick(weights, values, i, w, filled)[i - 1] && BestPick(weights, values, i, w, filled)[..i - 1] == BestPick(weights, values, i - 1, w - weights[i - 1], filled)
    ensures Best(weights, values, i, w, filled) == Best(weights, values, i - 1, w, filled) ==>
      !BestPick(weights, values, i, w, filled)[i - 1] && BestPick(weights, values, i, w, filled)[..i - 1] == BestPick(weights, values, i - 1, w, filled)
  {
    var take := Best(weights, values, i, w, filled) != Best(weights, values, i - 1, w, filled);
    var front := BestPick(weights, values, i - 1, if take then w - weights[i - 1] else w, filled);
    assert BestPick(weights, values, i, w, filled) == front + [take];
    assert (front + [take])[..i - 1] == front;
  }

  /** Where the row above differs, the item was taken: it fits and its value accounts for the step. */
  lemma TakeStep(weights: seq<int>, values: seq<int>, i: nat, w: int, filled: bool)
    requires 0 < i <= |weights| <= |values|
    requires Best(weights, values, i, w, filled) != Best(weights, values, i - 1, w, filled)
    ensures 0 <= w && (filled || 0 < w) && weights[i - 1] <= w
    ensures Best(weights, values, i, w, filled) == values[i - 1] + Best(weights, values, i - 1, w - weights[i - 1], filled)
  {
  }

  /** dp[i][w] is reached: the choice BestPick encodes weighs at most w and is worth dp[i][w]. */
  lemma {:induction false} BestAttained(weights: seq<int>, values: seq<int>, items: seq<Item>, w: int, filled: bool)
    requires Pairs(items, weights, values) && w >= 0
    ensures TotalWeight(Chosen(items, BestPick(weights, values, |items|, w, filled))) <= w
    ensures TotalValue(Chosen(items, BestPick(weights, values, |items|, w, filled))) == Best(weights, values, |items|, w, filled)
    decreases |items|, 1
  {
    var i := |items|;
    if i > 0 {
      if Best(weights, values, i, w, filled) != Best(weights, values, i - 1, w, filled) {
        AttainedTake(weights, values, items, w, filled);
      } else {
        AttainedSkip(weights, values, items, w, filled);
      }
    }
  }

  /** The last item taken: the choice for the rest within w - weights[i - 1], plus item i - 1. */
  lemma {:induction false} AttainedTake(weights: seq<int>, values: seq<int>, items: seq<Item>, w: int, filled: bool)
    requires Pairs(items, weights, values) && w >= 0 && |items| > 0
    requires Best(weights, values, |items|, w, filled) != Best(weights, values, |items| - 1, w, filled)
    ensures TotalWeight(Chosen(items, BestPick(weights, values, |items|, w, filled))) <= w
    ensures TotalValue(Chosen(items, BestPick(weights, values, |items|, w, filled))) == Best(weights, values, |items|, w, filled)
    decreases |items|, 0
  {
    var i := |items|;
    var pick := BestPick(weights, values, i, w, filled);
    TakeStep(weights, values, i, w, filled);
    var rest := items[..i - 1];
    PairsPrefix(items, weights, values, i - 1);
    BestAttained(weights, values, rest, w - weights[i - 1], filled);
    var front := BestPick(weights, values, i - 1, w - weights[i - 1], filled);
    BestPickLast(weights, values, i, w, filled);
    ChosenLast(items, pick);
    assert Chosen(items, pick) == Chosen(rest, front) + [items[i - 1]];
    TotalsAppend(Chosen(rest, front), [items[i - 1]]);
    assert TotalWeight([items[i - 1]]) == weights[i - 1] && TotalValue([items[i - 1]]) == values[i - 1];
  }

  /** The last item left out: the choice for the rest within w. */
  lemma {:induction false} AttainedSkip(weights: seq<int>, values: seq<int>, items: seq<Item>, w: int, filled: bool)
    requires Pairs(items, weights, values) && w >= 0 && |items| > 0
    requires Best(weights, values, |items|, w, filled) == Best(weights, values, |items| - 1, w, filled)
    ensures TotalWeight(Chosen(items, BestPick(weights, values, |items|, w, filled))) <= w
    ensures TotalValue(Chosen(items, BestPick(weights, values, |items|, w, filled))) == Best(weights, values, |items|, w, filled)
    decreases |items|, 0
  {
    var i := |items|;
    var pick := BestPick(weights, values, i, w, filled);
    var rest := items[..i - 1];
    PairsPrefix(items, weights, values, i - 1);
    BestAttained(weights, values, rest, w, filled);
    var front := BestPick(weights, values, i - 1, w, filled);
    BestPickLast(weights, values, i, w, filled);
    assert pick[..i - 1] == front && !pick[i - 1];
    ChosenLast(items, pick);
    assert Chosen(items, pick) == Chosen(rest, front) + [];
    assert Chosen(rest, front) + [] == Chosen(rest, front);
    assert TotalWeight(Chosen(rest, front)) <= w;
  }

  /**
   * With positive weights, dp[n][capacity] is the best value over all
   * choices of items that fit: none does better and one reaches it.
   */
  lemma Knapsack01Optimal(weights: seq<int>, values: seq<int>, items: seq<Item>, capacity: int, filled: bool)
    requires Pairs(items, weights, values) && |items| == |weights| && capacity >= 0
    requires forall k :: 0 <= k < |weights| ==> Admits(filled, weights[k])
    ensures forall pick :: |pick| == |items| && TotalWeight(Chosen(items, pick)) <= capacity ==>
      TotalValue(Chosen(items, pick)) <= Best(weights, values, |weights|, capacity, filled)
    ensures exists pick :: (|pick| == |items| && TotalWeight(Chosen(items, pick)) <= capacity &&
                            TotalValue(Chosen(items, pick)) == Best(weights, values, |weights|, capacity, filled))
  {
    forall pick | |pick| == |items| && TotalWeight(Chosen(items, pick)) <= capacity
      ensures TotalValue(Chosen(items, pick)) <= Best(weights, values, |weights|, capacity, filled)
    {
      BestUpper(weights, values, items, pick, capacity, filled);
    }
    BestAttained(weights, values, items, capacity, filled);
    var pick := BestPick(weights, values, |items|, capacity, filled);
    assert |pick| == |items| && TotalWeight(Chosen(items, pick)) <= capacity;
  }

  /**
   * knapsack_01 leaves column 0 at 0, so a zero-weight item is lost once the
   * other items use up the whole capacity: weights [0, 2], values [5, 3] and
   * capacity 2 give 5, although both items fit together and are worth 8.
   * The table with column 0 filled gives 8.
   */
  lemma ZeroWeightMissed()
    ensures Best([0, 2], [5, 3], 2, 2, false) == 5
    ensures var both := Chosen([(0, 5), (2, 3)], [true, true]);
      TotalWeight(both) == 2 && TotalValue(both) == 8
    ensures Best([0, 2], [5, 3], 2, 2, true) == 8
  {
    assert Best([0, 2], [5, 3], 1, 0, false) == 0;
    assert Best([0, 2], [5, 3], 1, 0, true) == 5;
    var both := Chosen([(0, 5), (2, 3)], [true, true]);
    assert both == [(0, 5), (2, 3)];
    assert both[..1] == [(0, 5)];
  }

  // ---------------------------------------------------------- reconstruction

  /** The sum of xs over the listed positions. */
  function SumAt(xs: seq<int>, idx: seq<int>): int
    requires forall a :: 0 <= a < |idx| ==> 0 <= idx[a] < |xs|
  {
    if idx == [] then 0 else SumAt(xs, idx[..|idx| - 1]) + xs[idx[|idx| - 1]]
  }

  lemma SumAtSnoc(xs: seq<int>, idx: seq<int>, x: int)
    requires forall a :: 0 <= a < |idx| ==> 0 <= idx[a] < |xs|
    requires 0 <= x < |xs|
    ensures SumAt(xs, idx + [x]) == SumAt(xs, idx) + xs[x]
  {
    assert (idx + [x])[..|idx|] == idx;
  }

  /**
   * The state of the walk up the table at row i with capacity w left: the
   * indices selected so far are at least i, decreasing, and account for the
   * capacity used and for the value dp[n][capacity] - dp[i][w].
   */
  ghost predicate Walked(weights: seq<int>, values: seq<int>, capacity: int, i: int, w: int, selected: seq<int>) {
    0 <= i <= |weights| <= |values| && 0 <= w <= capacity &&
    (forall a :: 0 <= a < |selected| ==> i <= selected[a] < |weights|) &&
    (forall a, b :: 0 <= a < b < |selected| ==> selected[a] > selected[b]) &&
    SumAt(values, selected) + Best(weights, values, i, w, false) == Best(weights, values, |weights|, capacity, false) &&
    SumAt(weights, selected) + w == capacity
  }

  /** One row up where dp[i][w] differs from dp[i - 1][w]: item i - 1 is selected and the walk state is kept. */
  lemma WalkTake(weights: seq<int>, values: seq<int>, capacity: int, i: int, w: int, selected: seq<int>)
    requires Fits(weights, values, capacity) && 0 < i && Walked(weights, values, capacity, i, w, selected)
    requires Best(weights, values, i, w, false) != Best(weights, values, i - 1, w, false)
    ensures Walked(weights, values, capacity, i - 1, w - weights[i - 1], selected + [i - 1])
  {
    TakeStep(weights, values, i, w, false);
    SumAtSnoc(values, selected, i - 1);
    SumAtSnoc(weights, selected, i - 1);
    var s := selected + [i - 1];
    assert forall a :: 0 <= a < |s| ==> i - 1 <= s[a] < |weights|;
  }

  /** One row up where dp[i][w] equals dp[i - 1][w]: nothing is selected and the walk state is kept. */
  lemma WalkSkip(weights: seq<int>, values: seq<int>, capacity: int, i: int, w: int, selected: seq<int>)
    requires 0 < i && Walked(weights, values, capacity, i, w, selected)
    requires Best(weights, values, i, w, false) == Best(weights, values, i - 1, w, false)
    ensures Walked(weights, values, capacity, i - 1, w, selected)
  {
  }

  /** One iteration of the walk: compare dp[i][w] with dp[i - 1][w] and select item i - 1 where they differ. */
  method WalkRow(dp: array2<int>, weights: seq<int>, ghost values: seq<int>, capacity: int, i: int, w: int, selected: seq<int>)
    returns (w': int, selected': seq<int>)
    requires Fits(weights, values, capacity) && dp.Length0 == |weights| + 1 && dp.Length1 == capacity + 1
    requires forall a, b {:trigger dp[a, b]} :: 0 <= a <= |weights| && 0 <= b <= capacity ==> dp[a, b] == Best(weights, values, a, b, false)
    requires 0 < i && Walked(weights, values, capacity, i, w, selected)
    ensures Walked(weights, values, capacity, i - 1, w', selected')
  {
    if dp[i, w] != dp[i - 1, w] {
      WalkTake(weights, values, capacity, i, w, selected);
      selected' := selected + [i - 1];
      w' := w - weights[i - 1];
    } else {
      WalkSkip(weights, values, capacity, i, w, selected);
      selected', w' := selected, w;
    }
  }

  /**
   * `knapsack_with_reconstruction`: the best value and, walking the rows
   * upwards, the indices of the items taken, highest first; together they
   * fit the capacity and make up the best value. It raises IndexError where
   * the table loops do, and for a negative capacity, whose empty rows the
   * walk or the final lookup index.
   */
  method KnapsackWithReconstruction(weights: seq<int>, values: seq<int>, capacity: int) returns (r: Result<(int, seq<int>)>)
    ensures r.Err? <==> Raises(weights, values, capacity)
    ensures r.Err? ==> r.error == IndexError
    ensures r.Ok? ==> r.value.0 == Best(weights, Padded(values, |weights|), |weights|, capacity, false)
    ensures r.Ok? ==> forall a, b :: 0 <= a < b < |r.value.1| ==> r.value.1[a] > r.value.1[b]
    ensures r.Ok? ==> forall a :: 0 <= a < |r.value.1| ==> 0 <= r.value.1[a] < |weights|
    ensures r.Ok? ==> SumAt(weights, r.value.1) <= capacity && SumAt(Padded(values, |weights|), r.value.1) == r.value.0
  {
    var n := |weights|;
    var t := FillTable(weights, values, capacity);
    if t.Err? || capacity < 0 {
      return Err(IndexError);
    }
    var dp := t.value;
    ghost var pv := Padded(values, n);
    PaddedFits(weights, values, capacity);
    var selected := [];
    var w := capacity;
    var i := n;
    while i > 0
      invariant forall a, b {:trigger dp[a, b]} :: 0 <= a <= n && 0 <= b <= capacity ==> dp[a, b] == Best(weights, pv, a, b, false)
      invariant Walked(weights, pv, capacity, i, w, selected)
    {
      w, selected := WalkRow(dp, weights, pv, capacity, i, w, selected);
      i := i - 1;
    }
    r := Ok((dp[n, capacity], selected));
  }

  // ------------------------------------------------------------- brute force

  /** `itertools.combinations(s, k)`: the k-element subsequences of s, in lexicographic order of positions. */
  function Combinations<T>(s: seq<T>, k: nat): (r: seq<seq<T>>)
    decreases |s|
  {
    if k == 0 then [[]]
    else if |s| < k then []
    else Prepend(s[0], Combinations(s[1..], k - 1)) + Combinations(s[1..], k)
  }

  function Prepend<T>(x: T, cs: seq<seq<T>>): (r: seq<seq<T>>)
    ensures |r| == |cs| && forall i :: 0 <= i < |cs| ==> r[i] == [x] + cs[i]
  {
    seq(|cs|, i requires 0 <= i < |cs| => [x] + cs[i])
  }

  /** The positions the j-th combination of size k takes from s. */
  function CombinationPick<T>(s: seq<T>, k: nat, j: nat): (r: seq<bool>)
    requires j < |Combinations(s, k)|
    ensures |r| == |s| && Count(r) == k
    decreases |s|
  {
    if s == [] then []
    else if k == 0 then [false] + CombinationPick(s[1..], 0, 0)
    else if j < |Combinations(s[1..], k - 1)| then [true] + CombinationPick(s[1..], k - 1, j)
    else [false] + CombinationPick(s[1..], k, j - |Combinations(s[1..], k - 1)|)
  }

  /** Every combination is a choice of positions of s. */
  lemma {:induction false} CombinationIsChoice(s: seq<Item>, k: nat, j: nat)
    requires j < |Combinations(s, k)|
    ensures Chosen(s, CombinationPick(s, k, j)) == Combinations(s, k)[j]
    decreases |s|, 1
  {
    if s == [] {
    } else if k == 0 {
      ChoiceEmpty(s, j);
    } else if j < |Combinations(s[1..], k - 1)| {
      ChoiceTaken(s, k, j);
    } else {
      ChoiceSkipped(s, k, j);
    }
  }

  /** The only combination of size 0 is empty, and it picks nothing. */
  lemma {:induction false} ChoiceEmpty(s: seq<Item>, j: nat)
    requires s != [] && j < |Combinations(s, 0)|
    ensures Chosen(s, CombinationPick(s, 0, j)) == Combinations(s, 0)[j]
    decreases |s|, 0
  {
    var pick := CombinationPick(s, 0, j);
    CombinationIsChoice(s[1..], 0, 0);
    assert pick[1..] == CombinationPick(s[1..], 0, 0);
  }

  /** A combination among the first |Combinations(s[1..], k - 1)| takes s[0]. */
  lemma {:induction false} ChoiceTaken(s: seq<Item>, k: nat, j: nat)
    requires s != [] && k > 0 && j < |Combinations(s[1..], k - 1)| && j < |Combinations(s, k)|
    ensures Chosen(s, CombinationPick(s, k, j)) == Combinations(s, k)[j]
    decreases |s|, 0
  {
    var pick := CombinationPick(s, k, j);
    CombinationIsChoice(s[1..], k - 1, j);
    assert pick[1..] == CombinationPick(s[1..], k - 1, j);
  }

  /** A combination past the first |Combinations(s[1..], k - 1)| leaves s[0] out. */
  lemma {:induction false} ChoiceSkipped(s: seq<Item>, k: nat, j: nat)
    requires s != [] && k > 0 && |Combinations(s[1..], k - 1)| <= j < |Combinations(s, k)|
    ensures Chosen(s, CombinationPick(s, k, j)) == Combinations(s, k)[j]
    decreases |s|, 0
  {
    var pick := CombinationPick(s, k, j);
    var j' := j - |Combinations(s[1..], k - 1)|;
    CombinationIsChoice(s[1..], k, j');
    assert pick[1..] == CombinationPick(s[1..], k, j');
  }

  /** Where the choice given by pick stands among the combinations of its size. */
  function CombinationIndex<T>(s: seq<T>, pick: seq<bool>): (r: nat)
    requires |pick| == |s|
    ensures r < |Combinations(s, Count(pick))|
    decreases |s|
  {
    if s == [] then 0
    else if pick[0] then CombinationIndex(s[1..], pick[1..])
    else if Count(pick) == 0 then 0
    else |Combinations(s[1..], Count(pick) - 1)| + CombinationIndex(s[1..], pick[1..])
  }

  /** Every choice of positions is one of the combinations of its size. */
  lemma {:induction false} ChoiceIsCombination(s: seq<Item>, pick: seq<bool>)
    requires |pick| == |s|
    ensures Combinations(s, Count(pick))[CombinationIndex(s, pick)] == Chosen(s, pick)
    decreases |s|
  {
    if s != [] {
      ChoiceIsCombination(s[1..], pick[1..]);
      IndexStep(s, pick);
    }
  }

  /** One step of CombinationIndex: a taken first position heads the combination, a skipped one is not in it. */
  lemma IndexStep<T>(s: seq<T>, pick: seq<bool>)
    requires |pick| == |s| > 0
    ensures Combinations(s, Count(pick))[CombinationIndex(s, pick)] ==
      (if pick[0] then [s[0]] else []) + Combinations(s[1..], Count(pick[1..]))[CombinationIndex(s[1..], pick[1..])]
  {
    if pick[0] {
      IndexTaken(s, pick);
    } else if Count(pick) > 0 {
      IndexSkipped(s, pick);
    } else {
      assert Combinations(s, Count(pick)) == [[]];
      assert Combinations(s[1..], Count(pick[1..])) == [[]];
    }
  }

  /** A taken first position: the combination is s[0] followed by the one the rest picks among size k - 1. */
  lemma IndexTaken<T>(s: seq<T>, pick: seq<bool>)
    requires |pick| == |s| > 0 && pick[0]
    ensures Combinations(s, Count(pick))[CombinationIndex(s, pick)] ==
      [s[0]] + Combinations(s[1..], Count(pick[1..]))[CombinationIndex(s[1..], pick[1..])]
  {
    assert Count(pick) == Count(pick[1..]) + 1;
    assert CombinationIndex(s, pick) == CombinationIndex(s[1..], pick[1..]);
    TakenAt(s, s[1..], Count(pick), Count(pick[1..]), CombinationIndex(s[1..], pick[1..]));
  }

  /** The j-th combination of size k that takes s[0] is s[0] followed by the rest's j-th of size k - 1. */
  lemma TakenAt<T>(s: seq<T>, t: seq<T>, k: nat, k1: nat, j: nat)
    requires k == k1 + 1 <= |s| && t == s[1..] && j < |Combinations(t, k1)|
    ensures Combinations(s, k)[j] == [s[0]] + Combinations(t, k1)[j]
  {
    CombinationsSplit(s, k);
    PrependFirst(Combinations(s, k), Combinations(t, k1), Combinations(t, k), s[0], j);
  }

  /** A skipped first position: the combination is the one the rest picks among size k, after those that take s[0]. */
  lemma IndexSkipped<T>(s: seq<T>, pick: seq<bool>)
    requires |pick| == |s| > 0 && !pick[0] && Count(pick) > 0
    ensures Combinations(s, Count(pick))[CombinationIndex(s, pick)] ==
      Combinations(s[1..], Count(pick[1..]))[CombinationIndex(s[1..], pick[1..])]
  {
    var rest := pick[1..];
    var k, j := Count(pick), CombinationIndex(s[1..], rest);
    assert k == Count(rest);
    assert CombinationIndex(s, pick) == |Combinations(s[1..], k - 1)| + j;
    CombinationsSplit(s, k);
    PrependSecond(Combinations(s, k), Combinations(s[1..], k - 1), Combinations(s[1..], k), s[0], j);
  }

  /** Indexing into Prepend(x, c) + d below |c|. */
  lemma PrependFirst<T>(a: seq<seq<T>>, c: seq<seq<T>>, d: seq<seq<T>>, x: T, j: int)
    requires a == Prepend(x, c) + d && 0 <= j < |c|
    ensures a[j] == [x] + c[j]
  {
  }

  /** Indexing into Prepend(x, c) + d past |c|. */
  lemma PrependSecond<T>(a: seq<seq<T>>, c: seq<seq<T>>, d: seq<seq<T>>, x: T, j: int)
    requires a == Prepend(x, c) + d && 0 <= j < |d|
    ensures a[|c| + j] == d[j]
  {
  }

  /** For k >= 1 the combinations that take s[0] come first, then those that skip it. */
  lemma CombinationsSplit<T>(s: seq<T>, k: nat)
    requires 0 < k <= |s|
    ensures Combinations(s, k) == Prepend(s[0], Combinations(s[1..], k - 1)) + Combinations(s[1..], k)
  {
  }

  /**
   * What exact_knapsack_01 returns: at least 0 and at least the value of
   * every combination of 1 to n items that fits, and the value of one of
   * them unless it is 0.
   */
  ghost predicate ExactResult(capacity: int, items: seq<Item>, r: int) {
    r >= 0 &&
    (forall k, j :: 1 <= k <= |items| && 0 <= j < |Combinations(items, k)| && TotalWeight(Combinations(items, k)[j]) <= capacity ==>
      TotalValue(Combinations(items, k)[j]) <= r) &&
    (r == 0 || exists k, j :: (1 <= k <= |items| && 0 <= j < |Combinations(items, k)| &&
                               TotalWeight(Combinations(items, k)[j]) <= capacity && TotalValue(Combinations(items, k)[j]) == r))
  }

  /** The value the brute force holds after weighing the combinations of sizes below i, and the first j of size i. */
  ghost predicate Scanned(capacity: int, items: seq<Item>, i: nat, j: nat, r: int, found: Option<(nat, nat)>) {
    r >= 0 &&
    (forall k, t :: 1 <= k < i && 0 <= t < |Combinations(items, k)| && TotalWeight(Combinations(items, k)[t]) <= capacity ==>
      TotalValue(Combinations(items, k)[t]) <= r) &&
    (forall t :: 0 <= t < j && t < |Combinations(items, i)| && TotalWeight(Combinations(items, i)[t]) <= capacity ==>
      TotalValue(Combinations(items, i)[t]) <= r) &&
    (found.None? ==> r == 0) &&
    (found.Some? ==> (1 <= found.value.0 <= |items| && found.value.1 < |Combinations(items, found.value.0)| &&
                      TotalWeight(Combinations(items, found.value.0)[found.value.1]) <= capacity &&
                      TotalValue(Combinations(items, found.value.0)[found.value.1]) == r))
  }

  /** Weighing combination j of size i when it fits and beats the best so far: its value is taken. */
  lemma ScanTake(capacity: int, items: seq<Item>, i: nat, j: nat, r: int, found: Option<(nat, nat)>)
    requires 1 <= i <= |items| && j < |Combinations(items, i)| && Scanned(capacity, items, i, j, r, found)
    requires TotalWeight(Combinations(items, i)[j]) <= capacity && TotalValue(Combinations(items, i)[j]) > r
    ensures Scanned(capacity, items, i, j + 1, TotalValue(Combinations(items, i)[j]), Some((i, j)))
  {
    var c := Combinations(items, i);
    var v := TotalValue(c[j]);
    forall t | 0 <= t < j + 1 && t < |c| && TotalWeight(c[t]) <= capacity
      ensures TotalValue(c[t]) <= v
    {
      if t < j {
        assert TotalValue(c[t]) <= r;
      }
    }
  }

  /** Weighing combination j of size i when it does not fit or does not beat the best so far: the scan state is kept. */
  lemma ScanKeep(capacity: int, items: seq<Item>, i: nat, j: nat, r: int, found: Option<(nat, nat)>)
    requires 1 <= i <= |items| && j < |Combinations(items, i)| && Scanned(capacity, items, i, j, r, found)
    requires !(TotalWeight(Combinations(items, i)[j]) <= capacity && TotalValue(Combinations(items, i)[j]) > r)
    ensures Scanned(capacity, items, i, j + 1, r, found)
  {
  }

  /** Once every combination of size i is weighed, the scan moves to size i + 1. */
  lemma ScanNextSize(capacity: int, items: seq<Item>, i: nat, r: int, found: Option<(nat, nat)>)
    requires Scanned(capacity, items, i, |Combinations(items, i)|, r, found)
    ensures Scanned(capacity, items, i + 1, 0, r, found)
  {
  }

  /** A scan over every size from 1 to n is the brute force's result. */
  lemma ScanDone(capacity: int, items: seq<Item>, r: int, found: Option<(nat, nat)>)
    requires Scanned(capacity, items, |items| + 1, 0, r, found)
    ensures ExactResult(capacity, items, r)
  {
    if found.Some? {
      var k, j := found.value.0, found.value.1;
      assert 1 <= k <= |items| && 0 <= j < |Combinations(items, k)|;
    }
  }

  /** `exact_knapsack_01`: every combination of every size from 1 to n is weighed, keeping the best fitting value. */
  method ExactKnapsack(capacity: int, items: seq<Item>) returns (maxValue: int)
    ensures ExactResult(capacity, items, maxValue)
  {
    var n := |items|;
    maxValue := 0;
    ghost var found: Option<(nat, nat)> := None;
    for i := 1 to n + 1
      invariant Scanned(capacity, items, i, 0, maxValue, found)
    {
      var combos := Combinations(items, i);
      for j := 0 to |combos|
        invariant Scanned(capacity, items, i, j, maxValue, found)
      {
        var combination := combos[j];
        var totalWeight := TotalWeight(combination);
        var totalValue := TotalValue(combination);
        if totalWeight <= capacity && totalValue > maxValue {
          ScanTake(capacity, items, i, j, maxValue, found);
          maxValue := totalValue;
          found := Some((i, j));
        } else {
          ScanKeep(capacity, items, i, j, maxValue, found);
        }
      }
      ScanNextSize(capacity, items, i, maxValue, found);
    }
    ScanDone(capacity, items, maxValue, found);
  }

  /** With positive weights, the table's value is the value of a combination that fits, so the brute force reaches it. */
  lemma BestWithinExact(weights: seq<int>, values: seq<int>, items: seq<Item>, capacity: int, r: int, filled: bool)
    requires Pairs(items, weights, values) && |items| == |weights| && capacity >= 0
    requires ExactResult(capacity, items, r)
    ensures Best(weights, values, |weights|, capacity, filled) <= r
  {
    var p := BestPick(weights, values, |items|, capacity, filled);
    BestAttained(weights, values, items, capacity, filled);
    if Count(p) >= 1 {
      ChoiceIsCombination(items, p);
      var j := CombinationIndex(items, p);
      assert TotalWeight(Combinations(items, Count(p))[j]) <= capacity;
    } else {
      assert Chosen(items, p) == [];
    }
  }

  /** With positive weights, the combination the brute force reports is a choice of items the table bounds. */
  lemma ExactWithinBest(weights: seq<int>, values: seq<int>, items: seq<Item>, capacity: int, r: int, filled: bool)
    requires Pairs(items, weights, values) && |items| == |weights|
    requires forall k :: 0 <= k < |weights| ==> Admits(filled, weights[k])
    requires ExactResult(capacity, items, r)
    ensures r <= Best(weights, values, |weights|, capacity, filled)
  {
    if r != 0 {
      var k, j :| 1 <= k <= |items| && 0 <= j < |Combinations(items, k)| &&
        TotalWeight(Combinations(items, k)[j]) <= capacity && TotalValue(Combinations(items, k)[j]) == r;
      CombinationIsChoice(items, k, j);
      BestUpper(weights, values, items, CombinationPick(items, k, j), capacity, filled);
    }
  }

  /**
   * With positive weights the brute force and the table agree:
   * exact_knapsack_01(capacity, zip(weights, values)) == knapsack_01(weights, values, capacity).
   */
  lemma ExactIsBest(weights: seq<int>, values: seq<int>, items: seq<Item>, capacity: int, r: int, filled: bool)
    requires Pairs(items, weights, values) && |items| == |weights| == |values| && capacity >= 0
    requires forall k :: 0 <= k < |weights| ==> Admits(filled, weights[k])
    requires ExactResult(capacity, items, r)
    ensures r == Best(weights, values, |weights|, capacity, filled)
  {
    BestWithinExact(weights, values, items, capacity, r, filled);
    ExactWithinBest(weights, values, items, capacity, r, filled);
  }
}
