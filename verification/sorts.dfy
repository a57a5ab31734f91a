/**
 * The five sorts of lab04. Bubble, selection and insertion sort rearrange the
 * list in place (the Python functions also return the same list object, which
 * here is the array itself); merge sort and quick sort build new lists.
 * Every one of them yields the same list as Python's `sorted`.
 */
module Sorts {
  import opened Common

  /** The first element of a sorted list is its least. */
  lemma HeadIsLeast(s: seq<int>, x: int)
    requires Sorted(s) && x in s
    ensures s[0] <= x
  {
    var i :| 0 <= i < |s| && s[i] == x;
  }

  lemma SortedTail(s: seq<int>)
    requires Sorted(s) && s != []
    ensures Sorted(s[1..])
  {
    forall i, j | 0 <= i < j < |s| - 1 ensures s[1..][i] <= s[1..][j] {
      assert s[1..][i] == s[i + 1] && s[1..][j] == s[j + 1];
    }
  }

  /** Two sorted lists with the same elements are equal: a sort has only one possible answer. */
  lemma {:induction false} SortedUnique(s: seq<int>, t: seq<int>)
    requires Sorted(s) && Sorted(t) && multiset(s) == multiset(t)
    ensures s == t
  {
    assert |s| == |t| by {
      assert |s| == |multiset(s)| == |multiset(t)| == |t|;
    }
    if s != [] {
      assert s[0] == t[0] by {
        assert s[0] in multiset(t) && t[0] in multiset(s);
        HeadIsLeast(t, s[0]);
        HeadIsLeast(s, t[0]);
      }
      assert multiset(s[1..]) == multiset(t[1..]) by {
        assert s == [s[0]] + s[1..] && t == [t[0]] + t[1..];
        assert multiset(s[1..]) == multiset(s) - multiset{s[0]};
        assert multiset(t[1..]) == multiset(t) - multiset{t[0]};
      }
      SortedTail(s);
      SortedTail(t);
      SortedUnique(s[1..], t[1..]);
      assert s == [s[0]] + s[1..] && t == [t[0]] + t[1..];
    }
  }

  /** A sorted permutation of `s` is Python's `sorted(s)`. */
  lemma IsSortInts(r: seq<int>, s: seq<int>)
    requires Sorted(r) && multiset(r) == multiset(s)
    ensures r == SortInts(s)
  {
    SortedUnique(r, SortInts(s));
  }

  // -------------------------------------------------------- in-place sorts

  /** s[lo..] is sorted. */
  ghost predicate SortedFrom(s: seq<int>, lo: int)
    requires 0 <= lo <= |s|
  {
    forall k, m :: lo <= k < m < |s| ==> s[k] <= s[m]
  }

  /** s[..hi] is sorted. */
  ghost predicate SortedTo(s: seq<int>, hi: int)
    requires 0 <= hi <= |s|
  {
    forall k, m :: 0 <= k < m < hi ==> s[k] <= s[m]
  }

  /** Nothing before position `mid` exceeds anything from `mid` on. */
  ghost predicate Partitioned(s: seq<int>, mid: int)
    requires 0 <= mid <= |s|
  {
    forall k, m :: 0 <= k < mid <= m < |s| ==> s[k] <= s[m]
  }

  /** s[j] is a largest element of s[..j + 1]. */
  ghost predicate LargestAt(s: seq<int>, j: int)
    requires 0 <= j < |s|
  {
    forall k :: 0 <= k < j ==> s[k] <= s[j]
  }

  function Swap(s: seq<int>, i: int, j: int): (r: seq<int>)
    requires 0 <= i < |s| && 0 <= j < |s|
    ensures |r| == |s| && r[i] == s[j] && r[j] == s[i]
    ensures forall k :: 0 <= k < |s| && k != i && k != j ==> r[k] == s[k]
    ensures multiset(r) == multiset(s)
  {
    s[i := s[j]][j := s[i]]
  }

  /** A bubble step keeps the sorted tail and moves the larger of s[j], s[j + 1] up. */
  lemma BubbleStep(s: seq<int>, j: int, lo: int)
    requires 0 <= j && j + 1 < lo <= |s|
    requires SortedFrom(s, lo) && Partitioned(s, lo) && LargestAt(s, j)
    ensures var r := if s[j] > s[j + 1] then Swap(s, j, j + 1) else s;
      SortedFrom(r, lo) && Partitioned(r, lo) && LargestAt(r, j + 1) && multiset(r) == multiset(s)
  {
  }

  /** Once s[lo - 1] is the largest of s[..lo], the sorted tail grows by one. */
  lemma BubbleSettles(s: seq<int>, lo: int)
    requires 1 <= lo <= |s|
    requires SortedFrom(s, lo) && Partitioned(s, lo) && LargestAt(s, lo - 1)
    ensures SortedFrom(s, lo - 1) && Partitioned(s, lo - 1)
  {
  }

  /** Pass i bubbles the largest of a[..n-i] up to position n-i-1. */
  method BubbleSort(a: array<int>)
    modifies a
    ensures a[..] == SortInts(old(a[..]))
  {
    var n := a.Length;
    for i := 0 to n
      invariant SortedFrom(a[..], n - i) && Partitioned(a[..], n - i)
      invariant multiset(a[..]) == multiset(old(a[..]))
    {
      BubblePass(a, n - i);
    }
    IsSortInts(a[..], old(a[..]));
  }

  /** The inner loop of one pass, over a[..lo]: the sorted tail grows by one. */
  method BubblePass(a: array<int>, lo: int)
    requires 1 <= lo <= a.Length
    requires SortedFrom(a[..], lo) && Partitioned(a[..], lo)
    modifies a
    ensures SortedFrom(a[..], lo - 1) && Partitioned(a[..], lo - 1)
    ensures multiset(a[..]) == multiset(old(a[..]))
  {
    for j := 0 to lo - 1
      invariant SortedFrom(a[..], lo) && Partitioned(a[..], lo) && LargestAt(a[..], j)
      invariant multiset(a[..]) == multiset(old(a[..]))
    {
      ghost var s := a[..];
      BubbleStep(s, j, lo);
      if a[j] > a[j + 1] {
        a[j], a[j + 1] := a[j + 1], a[j];
        assert a[..] == Swap(s, j, j + 1);
      }
    }
    BubbleSettles(a[..], lo);
  }

  /** Swapping the least of s[i..] into position i extends the sorted prefix. */
  lemma SelectStep(s: seq<int>, i: int, minIdx: int)
    requires 0 <= i <= minIdx < |s|
    requires SortedTo(s, i) && Partitioned(s, i)
    requires forall k :: i <= k < |s| ==> s[minIdx] <= s[k]
    ensures SortedTo(Swap(s, i, minIdx), i + 1) && Partitioned(Swap(s, i, minIdx), i + 1)
  {
  }

  /** Pass i swaps the smallest of a[i..] into position i. */
  method SelectionSort(a: array<int>)
    modifies a
    ensures a[..] == SortInts(old(a[..]))
  {
    var n := a.Length;
    for i := 0 to n
      invariant SortedTo(a[..], i) && Partitioned(a[..], i)
      invariant multiset(a[..]) == multiset(old(a[..]))
    {
      var minIdx := i;
      for j := i + 1 to n
        invariant i <= minIdx < j
        invariant forall k :: i <= k < j ==> a[minIdx] <= a[k]
      {
        if a[j] < a[minIdx] {
          minIdx := j;
        }
      }
      ghost var s := a[..];
      SelectStep(s, i, minIdx);
      a[i], a[minIdx] := a[minIdx], a[i];
      assert a[..] == Swap(s, i, minIdx);
    }
    IsSortInts(a[..], old(a[..]));
  }

  /** Putting `key` between a sorted run of elements at most `key` and one of elements above it. */
  lemma InsertKeepsSorted(p: seq<int>, key: int, q: seq<int>)
    requires Sorted(p) && Sorted(q)
    requires forall k :: 0 <= k < |p| ==> p[k] <= key
    requires forall k :: 0 <= k < |q| ==> key < q[k]
    ensures Sorted(p + [key] + q)
  {
  }

  /** Shifts the elements greater than a[i] one place right and drops a[i] into the gap. */
  method InsertionSort(a: array<int>)
    modifies a
    ensures a[..] == SortInts(old(a[..]))
  {
    var n := a.Length;
    if n == 0 {
      IsSortInts(a[..], old(a[..]));
      return;
    }
    for i := 1 to n
      invariant Sorted(a[..i])
      invariant multiset(a[..]) == multiset(old(a[..]))
    {
      InsertAt(a, i);
    }
    IsSortInts(a[..], old(a[..]));
  }

  /** One round of the outer loop: a[i] moves left past the larger elements of the sorted a[..i]. */
  method InsertAt(a: array<int>, i: int)
    requires 1 <= i < a.Length && Sorted(a[..i])
    modifies a
    ensures Sorted(a[..i + 1]) && multiset(a[..]) == multiset(old(a[..]))
  {
    ghost var before := a[..];
    var key := a[i];
    var j := i - 1;
    while j >= 0 && key < a[j]
      invariant -1 <= j <= i - 1
      invariant forall k :: 0 <= k <= j ==> a[k] == before[k]
      invariant forall k :: j + 2 <= k <= i ==> a[k] == before[k - 1]
      invariant forall k :: i < k < a.Length ==> a[k] == before[k]
      invariant forall k :: j + 1 <= k < i ==> key < before[k]
    {
      a[j + 1] := a[j];
      j := j - 1;
    }
    a[j + 1] := key;
    InsertionStep(a[..], before, j, i);
  }

  /**
   * After the shift, the array is the old one with a[i] moved to position
   * j + 1, between the elements not above it and those above it.
   */
  lemma InsertionStep(a: seq<int>, before: seq<int>, j: int, i: int)
    requires -1 <= j < i < |a| == |before|
    requires forall k :: 0 <= k <= j ==> a[k] == before[k]
    requires a[j + 1] == before[i]
    requires forall k :: j + 2 <= k <= i ==> a[k] == before[k - 1]
    requires forall k :: i < k < |a| ==> a[k] == before[k]
    requires Sorted(before[..i])
    requires forall k :: j + 1 <= k < i ==> before[i] < before[k]
    requires j < 0 || before[j] <= before[i]
    ensures Sorted(a[..i + 1]) && multiset(a) == multiset(before)
  {
    var p, key, q := before[..j + 1], before[i], before[j + 1..i];
    Shifted(a, before, j, i);
    assert p == before[..i][..j + 1] && q == before[..i][j + 1..];
    InsertKeepsSorted(p, key, q);
  }

  lemma Shifted(a: seq<int>, before: seq<int>, j: int, i: int)
    requires -1 <= j < i < |a| == |before|
    requires forall k :: 0 <= k <= j ==> a[k] == before[k]
    requires a[j + 1] == before[i]
    requires forall k :: j + 2 <= k <= i ==> a[k] == before[k - 1]
    requires forall k :: i < k < |a| ==> a[k] == before[k]
    ensures a[..i + 1] == before[..j + 1] + [before[i]] + before[j + 1..i]
    ensures multiset(a) == multiset(before)
  {
    SliceShift(a, before, 0, j + 1, 0);
    SliceShift(a, before, j + 2, i + 1, -1);
    SliceShift(a, before, i + 1, |a|, 0);
    Moved(a, before, j, i);
  }

  /** The same rearrangement, stated on slices. */
  lemma Moved(a: seq<int>, before: seq<int>, j: int, i: int)
    requires -1 <= j < i < |a| == |before|
    requires a[0..j + 1] == before[0..j + 1]
    requires a[j + 1] == before[i]
    requires a[j + 2..i + 1] == before[j + 1..i]
    requires a[i + 1..|a|] == before[i + 1..|a|]
    ensures a[..i + 1] == before[..j + 1] + [before[i]] + before[j + 1..i]
    ensures multiset(a) == multiset(before)
  {
    var p, key, q, rest := before[..j + 1], before[i], before[j + 1..i], before[i + 1..];
    assert a[..i + 1] == p + [key] + q by {
      assert a[..i + 1] == a[0..j + 1] + [a[j + 1]] + a[j + 2..i + 1];
    }
    MultisetSplit(a, i + 1);
    assert a[i + 1..] == rest;
    MultisetSplit(before, i);
    MultisetSplit(before[..i], j + 1);
    assert before[..i][..j + 1] == p && before[..i][j + 1..] == q;
    assert before[i..] == [key] + rest;
  }

  lemma MultisetSplit(s: seq<int>, k: int)
    requires 0 <= k <= |s|
    ensures multiset(s) == multiset(s[..k]) + multiset(s[k..])
  {
    assert s == s[..k] + s[k..];
  }

  /** Equal elements at a fixed offset make equal slices. */
  lemma SliceShift(a: seq<int>, b: seq<int>, lo: int, hi: int, off: int)
    requires 0 <= lo <= hi <= |a| && 0 <= lo + off && hi + off <= |b|
    requires forall k :: lo <= k < hi ==> a[k] == b[k + off]
    ensures a[lo..hi] == b[lo + off..hi + off]
  {
  }

  // ------------------------------------------------------------ merge sort

  /**
   * The merge of two lists: repeatedly take the smaller head, the left one
   * on ties; once one list is used up, the rest of the other.
   */
  function MergeSpec(left: seq<int>, right: seq<int>): (r: seq<int>)
    ensures multiset(r) == multiset(left) + multiset(right)
    decreases |left| + |right|
  {
    if left == [] then right
    else if right == [] then left
    else if left[0] <= right[0] then
      assert left == [left[0]] + left[1..];
      [left[0]] + MergeSpec(left[1..], right)
    else
      assert right == [right[0]] + right[1..];
      [right[0]] + MergeSpec(left, right[1..])
  }

  /** Merging two sorted lists gives a sorted list. */
  lemma {:induction false} MergeSorted(left: seq<int>, right: seq<int>)
    requires Sorted(left) && Sorted(right)
    ensures Sorted(MergeSpec(left, right))
    decreases |left| + |right|
  {
    if left != [] && right != [] {
      if left[0] <= right[0] {
        MergeSorted(left[1..], right);
        LeastHead(left[0], MergeSpec(left[1..], right), left[1..], right);
      } else {
        MergeSorted(left, right[1..]);
        LeastHead(right[0], MergeSpec(left, right[1..]), left, right[1..]);
      }
    }
  }

  /** A value no larger than anything in two sorted lists heads their merge. */
  lemma LeastHead(x: int, rest: seq<int>, l: seq<int>, r: seq<int>)
    requires multiset(rest) == multiset(l) + multiset(r) && Sorted(rest)
    requires forall k :: 0 <= k < |l| ==> x <= l[k]
    requires forall k :: 0 <= k < |r| ==> x <= r[k]
    ensures Sorted([x] + rest)
  {
    forall k | 0 <= k < |rest| ensures x <= rest[k] {
      assert rest[k] in multiset(rest);
      if rest[k] in l {
        var e :| 0 <= e < |l| && l[e] == rest[k];
      } else {
        assert rest[k] in r;
        var e :| 0 <= e < |r| && r[e] == rest[k];
      }
    }
  }

  /** One step of the merge: the smaller head (the left one on ties) comes first. */
  lemma MergeStep(left: seq<int>, right: seq<int>, i: int, j: int)
    requires 0 <= i < |left| && 0 <= j < |right|
    ensures MergeSpec(left[i..], right[j..])
            == if left[i] <= right[j] then [left[i]] + MergeSpec(left[i + 1..], right[j..])
               else [right[j]] + MergeSpec(left[i..], right[j + 1..])
  {
    assert left[i..][1..] == left[i + 1..];
    assert right[j..][1..] == right[j + 1..];
  }

  /** Once one list is used up, the merge is the rest of the other. */
  lemma MergeTail(left: seq<int>, right: seq<int>, i: int, j: int)
    requires 0 <= i <= |left| && 0 <= j <= |right| && (i == |left| || j == |right|)
    ensures MergeSpec(left[i..], right[j..]) == left[i..] + right[j..]
  {
    if i == |left| {
      assert left[i..] == [];
    } else {
      assert right[j..] == [];
    }
  }

  /** The merge loop: append the smaller head, then both leftovers. */
  method Merge(left: seq<int>, right: seq<int>) returns (result: seq<int>)
    ensures result == MergeSpec(left, right)
  {
    result := [];
    var i, j := 0, 0;
    assert left[0..] == left && right[0..] == right;
    while i < |left| && j < |right|
      invariant 0 <= i <= |left| && 0 <= j <= |right|
      invariant result + MergeSpec(left[i..], right[j..]) == MergeSpec(left, right)
      decreases |left| - i + |right| - j
    {
      MergeStep(left, right, i, j);
      if left[i] <= right[j] {
        AppendAssoc(result, [left[i]], MergeSpec(left[i + 1..], right[j..]));
        result := result + [left[i]];
        i := i + 1;
      } else {
        AppendAssoc(result, [right[j]], MergeSpec(left[i..], right[j + 1..]));
        result := result + [right[j]];
        j := j + 1;
      }
    }
    MergeTail(left, right, i, j);
    AppendAssoc(result, left[i..], right[j..]);
    result := result + left[i..];
    result := result + right[j..];
  }

  /** Merging the sorted halves gives the sorted list. */
  lemma MergeHalves(arr: seq<int>, mid: int, left: seq<int>, right: seq<int>)
    requires 0 <= mid <= |arr|
    requires Sorted(left) && multiset(left) == multiset(arr[..mid])
    requires Sorted(right) && multiset(right) == multiset(arr[mid..])
    ensures MergeSpec(left, right) == SortInts(arr)
  {
    var r := MergeSpec(left, right);
    MergeSorted(left, right);
    MultisetSplit(arr, mid);
    IsSortInts(r, arr);
  }

  /** Sorts both halves, then merges them. */
  method MergeSort(arr: seq<int>) returns (r: seq<int>)
    ensures r == SortInts(arr)
    decreases |arr|
  {
    if |arr| <= 1 {
      r := arr;
      IsSortInts(r, arr);
      return;
    }
    var mid := |arr| / 2;
    var left := MergeSort(arr[..mid]);
    var right := MergeSort(arr[mid..]);
    r := Merge(left, right);
    MergeHalves(arr, mid, left, right);
  }

  // ------------------------------------------------------------ quick sort

  /** Which of the three comprehensions of quick sort: x < pivot, x == pivot or x > pivot. */
  datatype Side = Below | Equal | Above

  predicate OnSide(x: int, side: Side, pivot: int) {
    match side
    case Below => x < pivot
    case Equal => x == pivot
    case Above => x > pivot
  }

  /** Python's `[x for x in s if x < pivot]` and its two siblings. */
  function Filter(s: seq<int>, side: Side, pivot: int): (r: seq<int>)
    ensures forall k :: 0 <= k < |r| ==> OnSide(r[k], side, pivot)
    ensures |r| <= |s|
  {
    if s == [] then []
    else
      (if OnSide(s[0], side, pivot) then [s[0]] else []) + Filter(s[1..], side, pivot)
  }

  lemma FilterStep(arr: seq<int>, side: Side, pivot: int)
    requires arr != []
    ensures Filter(arr, side, pivot)
            == (if OnSide(arr[0], side, pivot) then [arr[0]] else []) + Filter(arr[1..], side, pivot)
  {
  }

  /** Every element of `arr` lands in exactly one of the three comprehensions. */
  lemma {:induction false} ThreeWay(arr: seq<int>, pivot: int)
    ensures multiset(Filter(arr, Below, pivot)) + multiset(Filter(arr, Equal, pivot))
            + multiset(Filter(arr, Above, pivot)) == multiset(arr)
  {
    if arr != [] {
      ThreeWay(arr[1..], pivot);
      FilterStep(arr, Below, pivot);
      FilterStep(arr, Equal, pivot);
      FilterStep(arr, Above, pivot);
      var b, e, a := Filter(arr[1..], Below, pivot), Filter(arr[1..], Equal, pivot), Filter(arr[1..], Above, pivot);
      OneSide(arr[0], pivot, b, e, a);
      assert multiset(arr) == multiset{arr[0]} + multiset(arr[1..]) by {
        assert arr == [arr[0]] + arr[1..];
      }
    }
  }

  /** Placing x on its one side adds it to exactly one of the three parts. */
  lemma OneSide(x: int, pivot: int, b: seq<int>, e: seq<int>, a: seq<int>)
    ensures multiset((if OnSide(x, Below, pivot) then [x] else []) + b)
          + multiset((if OnSide(x, Equal, pivot) then [x] else []) + e)
          + multiset((if OnSide(x, Above, pivot) then [x] else []) + a)
         == multiset{x} + (multiset(b) + multiset(e) + multiset(a))
  {
  }

  /** The three comprehensions together are as long as `arr`. */
  lemma {:induction false} ThreeWayLength(arr: seq<int>, pivot: int)
    ensures |Filter(arr, Below, pivot)| + |Filter(arr, Equal, pivot)| + |Filter(arr, Above, pivot)| == |arr|
  {
    if arr != [] {
      ThreeWayLength(arr[1..], pivot);
      FilterStep(arr, Below, pivot);
      FilterStep(arr, Equal, pivot);
      FilterStep(arr, Above, pivot);
    }
  }

  /** A pivot drawn from `arr` appears in the middle comprehension. */
  lemma {:induction false} PivotKept(arr: seq<int>, pivot: int)
    requires pivot in arr
    ensures Filter(arr, Equal, pivot) != []
  {
    FilterStep(arr, Equal, pivot);
    if arr[0] != pivot {
      assert pivot in arr[1..];
      PivotKept(arr[1..], pivot);
    }
  }

  /** The outer two comprehensions are shorter than `arr`, because the pivot is in neither. */
  lemma OuterShorter(arr: seq<int>, pivot: int)
    requires pivot in arr
    ensures |Filter(arr, Below, pivot)| < |arr| && |Filter(arr, Above, pivot)| < |arr|
  {
    ThreeWayLength(arr, pivot);
    PivotKept(arr, pivot);
  }

  /**
   * Three-way split around the middle element, then the two outer parts
   * sorted recursively. The result is the sorted list.
   */
  function QuickSort(arr: seq<int>): (r: seq<int>)
    ensures r == SortInts(arr)
    decreases |arr|
  {
    if |arr| <= 1 then
      IsSortInts(arr, arr);
      arr
    else
      var pivot := arr[|arr| / 2];
      var left, middle, right := Filter(arr, Below, pivot), Filter(arr, Equal, pivot), Filter(arr, Above, pivot);
      OuterShorter(arr, pivot);
      var l, rr := QuickSort(left), QuickSort(right);
      QuickSortStep(arr, pivot, l, rr);
      l + middle + rr
  }

  /** The sorted outer parts around the middle part form the sorted list. */
  lemma QuickSortStep(arr: seq<int>, pivot: int, l: seq<int>, rr: seq<int>)
    requires Sorted(l) && multiset(l) == multiset(Filter(arr, Below, pivot))
    requires Sorted(rr) && multiset(rr) == multiset(Filter(arr, Above, pivot))
    ensures l + Filter(arr, Equal, pivot) + rr == SortInts(arr)
  {
    var left, middle, right := Filter(arr, Below, pivot), Filter(arr, Equal, pivot), Filter(arr, Above, pivot);
    PermKeepsSide(left, l, Below, pivot);
    PermKeepsSide(right, rr, Above, pivot);
    AroundPivot(l, middle, rr, pivot);
    ThreeWay(arr, pivot);
    assert multiset(l + middle + rr) == multiset(l) + multiset(middle) + multiset(rr);
    IsSortInts(l + middle + rr, arr);
  }

  /** Rearranging a list keeps every element on the same side of the pivot. */
  lemma PermKeepsSide(s: seq<int>, t: seq<int>, side: Side, pivot: int)
    requires multiset(t) == multiset(s)
    requires forall k :: 0 <= k < |s| ==> OnSide(s[k], side, pivot)
    ensures forall k :: 0 <= k < |t| ==> OnSide(t[k], side, pivot)
  {
    forall k | 0 <= k < |t| ensures OnSide(t[k], side, pivot) {
      assert t[k] in multiset(s);
      var e :| 0 <= e < |s| && s[e] == t[k];
    }
  }

  /** A sorted run below the pivot, a run of pivots and a sorted run above it form a sorted list. */
  lemma AroundPivot(l: seq<int>, m: seq<int>, r: seq<int>, pivot: int)
    requires Sorted(l) && Sorted(r)
    requires forall k :: 0 <= k < |l| ==> l[k] < pivot
    requires forall k :: 0 <= k < |m| ==> m[k] == pivot
    requires forall k :: 0 <= k < |r| ==> r[k] > pivot
    ensures Sorted(l + m + r)
  {
    var s := l + m + r;
    forall i, j | 0 <= i < j < |s| ensures s[i] <= s[j] {
      if j < |l| {
        assert s[i] == l[i] && s[j] == l[j];
      } else if i >= |l| + |m| {
        assert s[i] == r[i - |l| - |m|] && s[j] == r[j - |l| - |m|];
      } else if i < |l| {
        assert s[i] == l[i];
      } else {
        assert s[i] == m[i - |l|];
      }
    }
  }
}
