/**
 * The two lab07 heapsorts: one drains a min-heap built from a copy of the
 * input into a new list, the other builds a max-heap inside the array and
 * repeatedly swaps its root behind the shrinking heap.
 */
module Heapsort {
  import opened Common
  import opened Heaps
  import Sorts

  /** Builds a min-heap from the items and appends extract_min until the heap is empty. */
  method Heapsort(items: seq<int>) returns (r: seq<int>)
    ensures r == SortInts(items)
  {
    IntOrders();
    var heap := new Heap(IntLess);
    heap.BuildHeap(items);
    r := [];
    while heap.Len() > 0
      invariant heap.Valid() && heap.lt == IntLess
      invariant multiset(r) + multiset(heap.heap) == multiset(items)
      invariant Sorted(r) && Below(r, heap.heap)
      decreases |heap.heap|
    {
      ghost var before := heap.heap;
      var v := heap.Extract();
      DrainStep(r, before, v.value, heap.heap);
      r := r + [v.value];
    }
    Sorts.IsSortInts(r, items);
  }

  /** Every element of p is at most every element of q. */
  ghost predicate Below(p: seq<int>, q: seq<int>) {
    forall x, y :: x in p && y in q ==> x <= y
  }

  /** Appending the minimum of what is left keeps the output sorted and below the rest. */
  lemma DrainStep(r: seq<int>, before: seq<int>, v: int, after: seq<int>)
    requires Sorted(r) && Below(r, before) && v in before
    requires forall x :: x in before ==> !IntLess(x, v)
    requires multiset(after) == multiset(before) - multiset{v}
    ensures Sorted(r + [v]) && Below(r + [v], after)
  {
    forall y | y in after ensures y in before && v <= y {
      assert y in multiset(after);
    }
    forall x | x in r ensures x <= v { }
    forall a, b | 0 <= a < b < |r + [v]| ensures (r + [v])[a] <= (r + [v])[b] {
      assert (r + [v])[a] in r;
    }
  }

  /**
   * `_sift_down_max`: the element at i sinks towards the leaves of the
   * max-heap arr[..n]; only indices below n move.
   */
  method SiftDownMax(arr: array<int>, n: int, i: int, ghost k: int)
    requires 0 <= k <= i < n <= arr.Length && DownInv(arr[..], IntGreater, k, n, i)
    modifies arr
    ensures Ordered(arr[..], IntGreater, k, n)
    ensures multiset(arr[..n]) == old(multiset(arr[..n])) && arr[n..] == old(arr[n..])
    decreases n - i
  {
    IntOrders();
    var largest := FirstOfFamily(arr[..], IntGreater, n, i);
    if largest != i {
      DownStep(arr[..], IntGreater, k, n, i, largest);
      ghost var before := arr[..];
      arr[i], arr[largest] := arr[largest], arr[i];
      assert arr[..] == Swap(before, i, largest);
      assert arr[..n] == Swap(before[..n], i, largest);
      SwapMultiset(before[..n], i, largest);
      SiftDownMax(arr, n, largest, k);
    } else {
      DownDone(arr[..], IntGreater, k, n, i);
    }
  }

  /** Where heapsort_inplace stands after the extraction step for i: arr[..i+1] is a max-heap below a sorted tail. */
  ghost predicate Extracted(s: seq<int>, i: int)
    requires -1 <= i < |s|
  {
    Ordered(s, IntGreater, 0, i + 1) && Sorted(s[i + 1..]) && Below(s[..i + 1], s[i + 1..])
  }

  /** Swapping the root behind the heap prefix leaves a prefix to re-sift and a longer sorted tail. */
  lemma SwapRootBack(s: seq<int>, i: int)
    requires 0 < i < |s| && Extracted(s, i)
    ensures DownInv(Swap(s, 0, i), IntGreater, 0, i, 0)
    ensures Sorted(Swap(s, 0, i)[i..]) && Below(Swap(s, 0, i)[..i], Swap(s, 0, i)[i..])
    ensures multiset(Swap(s, 0, i)) == multiset(s)
  {
    IntOrders();
    RootFirst(s, IntGreater, i + 1);
    SwapMultiset(s, 0, i);
    var t := Swap(s, 0, i);
    assert t[i..] == [s[0]] + s[i + 1..];
    forall k | i < k < |s| ensures s[0] <= s[k] {
      assert s[0] in s[..i + 1] && s[k] in s[i + 1..];
    }
    forall x, y | x in t[..i] && y in t[i..] ensures x <= y {
      var a :| 0 <= a < i && t[a] == x;
      if y != s[0] {
        assert y in s[i + 1..];
        assert x in s[..i + 1] by {
          if a == 0 { assert x == s[i]; } else { assert x == s[a]; }
        }
      }
    }
    assert Below(t[..i], t[i..]);
    SortedCons(s[0], s[i + 1..]);
  }

  lemma SortedCons(v: int, q: seq<int>)
    requires Sorted(q) && forall k :: 0 <= k < |q| ==> v <= q[k]
    ensures Sorted([v] + q)
  {
    forall a, b | 0 <= a < b < |[v] + q| ensures ([v] + q)[a] <= ([v] + q)[b] {
      if a > 0 {
        assert ([v] + q)[a] == q[a - 1];
      }
      assert ([v] + q)[b] == q[b - 1];
    }
  }

  /** Re-sifting the prefix of a swapped state gives the state for the next smaller index. */
  lemma AfterSift(t: seq<int>, u: seq<int>, i: int)
    requires 0 < i < |t| == |u| && u[i..] == t[i..] && multiset(u[..i]) == multiset(t[..i])
    requires Sorted(t[i..]) && Below(t[..i], t[i..]) && Ordered(u, IntGreater, 0, i)
    ensures Extracted(u, i - 1) && multiset(u) == multiset(t)
  {
    BelowPerm(t[..i], u[..i], t[i..]);
    Sorts.MultisetSplit(u, i);
    Sorts.MultisetSplit(t, i);
  }

  /** Below depends only on the multiset of its left side. */
  lemma BelowPerm(p: seq<int>, p': seq<int>, q: seq<int>)
    requires Below(p, q) && multiset(p') == multiset(p)
    ensures Below(p', q)
  {
    forall x | x in p' ensures x in p {
      assert x in multiset(p');
    }
  }

  /** A sorted left part below a sorted right part makes a sorted whole. */
  lemma SortedJoin(p: seq<int>, q: seq<int>)
    requires Sorted(p) && Sorted(q) && Below(p, q)
    ensures Sorted(p + q)
  {
    forall a, b | 0 <= a < b < |p + q| ensures (p + q)[a] <= (p + q)[b] {
      if a < |p| && b >= |p| {
        assert (p + q)[a] in p && (p + q)[b] in q;
      }
    }
  }

  /** The build phase of heapsort_inplace: sift down every inner node, last one first. */
  method BuildMaxHeap(arr: array<int>)
    modifies arr
    ensures Ordered(arr[..], IntGreater, 0, arr.Length)
    ensures multiset(arr[..]) == multiset(old(arr[..]))
  {
    var n := arr.Length;
    var i := n / 2 - 1;
    while i >= 0
      invariant -1 <= i < n / 2 && Ordered(arr[..], IntGreater, i + 1, n)
      invariant multiset(arr[..]) == multiset(old(arr[..]))
    {
      assert arr[..] == arr[..n];
      SiftDownMax(arr, n, i, i);
      assert arr[..] == arr[..n];
      i := i - 1;
    }
  }

  /** Once the heap is down to its root, the whole array is sorted. */
  lemma ExtractedAll(s: seq<int>, i: int)
    requires -1 <= i <= 0 && i < |s| && Extracted(s, i)
    ensures Sorted(s)
  {
    if i == 0 {
      assert Sorted(s[..1]);
      SortedJoin(s[..1], s[1..]);
      assert s == s[..1] + s[1..];
    }
  }

  /** In-place heapsort: build a max-heap, then swap its root behind it and sift, n - 1 times. */
  method HeapsortInplace(arr: array<int>)
    modifies arr
    ensures arr[..] == SortInts(old(arr[..]))
  {
    var n := arr.Length;
    BuildMaxHeap(arr);
    var i := n - 1;
    assert arr[i + 1..] == [];
    while i > 0
      invariant -1 <= i < n && Extracted(arr[..], i)
      invariant multiset(arr[..]) == multiset(old(arr[..]))
    {
      ghost var s := arr[..];
      SwapRootBack(s, i);
      arr[0], arr[i] := arr[i], arr[0];
      assert arr[..] == Swap(s, 0, i);
      ghost var t := arr[..];
      SiftDownMax(arr, i, 0, 0);
      AfterSift(t, arr[..], i);
      i := i - 1;
    }
    ExtractedAll(arr[..], i);
    Sorts.IsSortInts(arr[..], old(arr[..]));
  }
}
