/**
 * The lab07 array-backed binary heaps. `MinHeap` and `MaxHeap` are the same
 * code with `<` and `>` swapped, so both are one class `Heap` whose strict
 * order `lt` is fixed at construction: `lt(a, b)` says a must come out
 * before b. The heap list is a sequence field that the methods reassign;
 * the parent of index i is (i - 1) // 2.
 */
module Heaps {
  import opened Common

  function Parent(i: int): int { (i - 1) / 2 }

  /** A strict weak order: irreflexive, transitive, and "not before" is transitive too. */
  ghost predicate WeakOrder<T(!new)>(lt: (T, T) -> bool) {
    && (forall a :: !lt(a, a))
    && (forall a, b, c :: lt(a, b) && lt(b, c) ==> lt(a, c))
    && (forall a, b, c :: !lt(a, b) && !lt(b, c) ==> !lt(a, c))
  }

  function IntLess(a: int, b: int): bool { a < b }
  function IntGreater(a: int, b: int): bool { a > b }

  lemma IntOrders()
    ensures WeakOrder(IntLess) && WeakOrder(IntGreater)
  {
  }

  /**
   * Heap order within h[..n] for every index whose parent is at least k:
   * no element comes before its parent.
   */
  ghost predicate Ordered<T>(h: seq<T>, lt: (T, T) -> bool, k: int, n: int)
    requires n <= |h|
  {
    forall j :: 0 < j < n && k <= Parent(j) ==> !lt(h[j], h[Parent(j)])
  }

  /**
   * Sift-down state: heap order holds below k except between the element at
   * idx and its children; once idx has moved below k, those children do not
   * come before idx's parent.
   */
  ghost predicate DownInv<T>(h: seq<T>, lt: (T, T) -> bool, k: int, n: int, idx: int)
    requires n <= |h|
  {
    && (forall j :: 0 < j < n && k <= Parent(j) && Parent(j) != idx ==> !lt(h[j], h[Parent(j)]))
    && (0 <= k < idx < n ==> forall j :: 0 < j < n && Parent(j) == idx ==> !lt(h[j], h[Parent(idx)]))
  }

  /** Sift-up state: heap order everywhere except at idx, whose children do not come before its parent. */
  ghost predicate UpInv<T>(h: seq<T>, lt: (T, T) -> bool, idx: int) {
    && (forall j :: 0 < j < |h| && j != idx ==> !lt(h[j], h[Parent(j)]))
    && (0 < idx < |h| ==> forall j :: 0 < j < |h| && Parent(j) == idx ==> !lt(h[j], h[Parent(idx)]))
  }

  function Swap<T>(h: seq<T>, i: int, j: int): (r: seq<T>)
    requires 0 <= i < |h| && 0 <= j < |h|
    ensures |r| == |h| && r[i] == h[j] && r[j] == h[i]
    ensures forall m :: 0 <= m < |h| && m != i && m != j ==> r[m] == h[m]
  {
    h[i := h[j]][j := h[i]]
  }

  lemma SwapMultiset<T>(h: seq<T>, i: int, j: int)
    requires 0 <= i < |h| && 0 <= j < |h|
    ensures multiset(Swap(h, i, j)) == multiset(h)
  {
  }

  /** In a heap-ordered list no element comes before the first. */
  lemma RootLeast<T(!new)>(h: seq<T>, lt: (T, T) -> bool)
    requires WeakOrder(lt) && h != [] && Ordered(h, lt, 0, |h|)
    ensures forall x :: x in h ==> !lt(x, h[0])
  {
    RootFirst(h, lt, |h|);
  }

  /**
   * Moving the last element of a heap-ordered list to the root keeps the
   * order below the root and removes one copy of the old root.
   */
  lemma LastToRoot<T>(h: seq<T>, lt: (T, T) -> bool)
    requires |h| >= 2 && Ordered(h, lt, 0, |h|)
    ensures var g := h[..|h| - 1][0 := h[|h| - 1]];
      Ordered(g, lt, 1, |g|) && multiset(g) == multiset(h) - multiset{h[0]}
  {
    var g := h[..|h| - 1][0 := h[|h| - 1]];
    assert h == [h[0]] + h[1..|h| - 1] + [h[|h| - 1]];
    assert g == [h[|h| - 1]] + h[1..|h| - 1];
  }

  /** In an ordered prefix nothing comes before the root. */
  lemma RootFirst<T(!new)>(h: seq<T>, lt: (T, T) -> bool, n: int)
    requires WeakOrder(lt) && 0 < n <= |h| && Ordered(h, lt, 0, n)
    ensures forall j :: 0 <= j < n ==> !lt(h[j], h[0])
  {
    forall j | 0 <= j < n ensures !lt(h[j], h[0]) {
      RootFirstAt(h, lt, n, j);
    }
  }

  lemma {:induction false} RootFirstAt<T(!new)>(h: seq<T>, lt: (T, T) -> bool, n: int, j: int)
    requires WeakOrder(lt) && 0 <= j < n <= |h| && Ordered(h, lt, 0, n)
    ensures !lt(h[j], h[0])
    decreases j
  {
    if j > 0 {
      RootFirstAt(h, lt, n, Parent(j));
    }
  }

  /**
   * Swapping idx with its child s, which comes before idx and is not preceded
   * by idx's other child, moves the sift-down state one level down.
   */
  lemma DownStep<T(!new)>(h: seq<T>, lt: (T, T) -> bool, k: int, n: int, idx: int, s: int)
    requires WeakOrder(lt) && 0 <= k <= idx && n <= |h| && 0 < s < n && Parent(s) == idx
    requires DownInv(h, lt, k, n, idx) && lt(h[s], h[idx])
    requires forall c :: 0 < c < n && Parent(c) == idx ==> !lt(h[c], h[s])
    ensures DownInv(Swap(h, idx, s), lt, k, n, s)
  {
    var h' := Swap(h, idx, s);
    forall j | 0 < j < n && k <= Parent(j) && Parent(j) != s ensures !lt(h'[j], h'[Parent(j)]) {
      if j == s {
        assert h'[j] == h[idx] && h'[Parent(j)] == h[s];
      } else if Parent(j) == idx {
        assert h'[j] == h[j] && h'[Parent(j)] == h[s];
      } else if j == idx {
        assert h'[j] == h[s] && h'[Parent(j)] == h[Parent(idx)];
        assert k < idx;
        assert !lt(h[s], h[Parent(idx)]);
      } else {
        assert h'[j] == h[j] && h'[Parent(j)] == h[Parent(j)];
      }
    }
    forall j | 0 < j < n && Parent(j) == s ensures !lt(h'[j], h'[Parent(s)]) {
      assert h'[j] == h[j] && h'[Parent(s)] == h[s];
      assert k <= Parent(j) && Parent(j) != idx;
    }
  }

  /**
   * The index sift-down moves to: idx itself, or its left child if that comes
   * before it, or its right child if that comes before the better of the two.
   */
  function FirstOfFamily<T(!new)>(h: seq<T>, lt: (T, T) -> bool, n: int, idx: int): (r: int)
    requires WeakOrder(lt) && 0 <= idx < n <= |h|
    ensures r == idx || (0 < r < n && Parent(r) == idx && lt(h[r], h[idx]))
    ensures forall c :: 0 < c < n && Parent(c) == idx ==> !lt(h[c], h[r])
  {
    var left, right := 2 * idx + 1, 2 * idx + 2;
    var first := if left < n && lt(h[left], h[idx]) then left else idx;
    if right < n && lt(h[right], h[first]) then right else first
  }

  /** When no child of idx comes before it, the sift-down state is heap order. */
  lemma DownDone<T>(h: seq<T>, lt: (T, T) -> bool, k: int, n: int, idx: int)
    requires 0 <= k <= idx < n <= |h| && DownInv(h, lt, k, n, idx)
    requires forall c :: 0 < c < n && Parent(c) == idx ==> !lt(h[c], h[idx])
    ensures Ordered(h, lt, k, n)
  {
  }

  /** Swapping idx with its parent p, when idx comes before p, moves the sift-up state up to p. */
  lemma UpStep<T(!new)>(h: seq<T>, lt: (T, T) -> bool, idx: int)
    requires WeakOrder(lt) && 0 < idx < |h| && UpInv(h, lt, idx) && lt(h[idx], h[Parent(idx)])
    ensures UpInv(Swap(h, idx, Parent(idx)), lt, Parent(idx))
  {
    var p := Parent(idx);
    var h' := Swap(h, idx, p);
    forall j | 0 < j < |h| && j != p ensures !lt(h'[j], h'[Parent(j)]) {
      if j == idx {
        assert h'[j] == h[p] && h'[Parent(j)] == h[idx];
      } else if Parent(j) == idx {
        assert h'[j] == h[j] && h'[Parent(j)] == h[p];
      } else if Parent(j) == p {
        assert h'[j] == h[j] && h'[Parent(j)] == h[idx];
        assert !lt(h[j], h[p]);
      } else {
        assert h'[j] == h[j];
      }
    }
    if 0 < p {
      forall j | 0 < j < |h| && Parent(j) == p ensures !lt(h'[j], h'[Parent(p)]) {
        assert h'[Parent(p)] == h[Parent(p)];
        assert !lt(h[p], h[Parent(p)]);
        if j == idx {
          assert h'[j] == h[p];
        } else {
          assert h'[j] == h[j] && !lt(h[j], h[p]);
        }
      }
    }
  }

  class Heap<T(==,!new)> {
    /** lt(a, b): a leaves the heap before b; `<` for MinHeap, `>` for MaxHeap. */
    const lt: (T, T) -> bool
    var heap: seq<T>

    ghost predicate Valid()
      reads this
    {
      WeakOrder(lt) && Ordered(heap, lt, 0, |heap|)
    }

    constructor(lt: (T, T) -> bool)
      requires WeakOrder(lt)
      ensures Valid() && heap == [] && this.lt == lt
    {
      this.lt := lt;
      heap := [];
    }

    /** `__len__`. */
    function Len(): nat
      reads this
    {
      |heap|
    }

    /** Appends the value and sifts it up. */
    method Insert(value: T)
      requires Valid()
      modifies this
      ensures Valid() && multiset(heap) == old(multiset(heap)) + multiset{value}
      ensures |heap| == |old(heap)| + 1
    {
      heap := heap + [value];
      SiftUp(|heap| - 1);
    }

    /**
     * Raises IndexError on an empty heap; otherwise takes the root, moves the
     * last element to the root and sifts it down.
     */
    method Extract() returns (r: Result<T>)
      requires Valid()
      modifies this
      ensures Valid()
      ensures r.Err? <==> old(heap) == []
      ensures r.Err? ==> r.error == IndexError && heap == old(heap)
      ensures r.Ok? ==> r.value == old(heap)[0] && (forall x :: x in old(heap) ==> !lt(x, r.value))
      ensures r.Ok? ==> multiset(heap) == old(multiset(heap)) - multiset{r.value}
      ensures r.Ok? ==> |heap| == |old(heap)| - 1
    {
      if heap == [] {
        return Err(IndexError);
      }
      var top := RemoveRoot();
      return Ok(top);
    }

    /** The root of a non-empty heap, removed by moving the last element up and sifting it down. */
    method RemoveRoot() returns (top: T)
      requires Valid() && heap != []
      modifies this
      ensures Valid()
      ensures top == old(heap)[0] && forall x :: x in old(heap) ==> !lt(x, top)
      ensures multiset(heap) == old(multiset(heap)) - multiset{top}
      ensures |heap| == |old(heap)| - 1
    {
      RootLeast(heap, lt);
      top := heap[0];
      if |heap| == 1 {
        heap := [];
      } else {
        LastToRoot(heap, lt);
        heap := heap[..|heap| - 1][0 := heap[|heap| - 1]];
        SiftDown(0);
      }
    }

    /** The root, without changing anything; IndexError on an empty heap. */
    method Peek() returns (r: Result<T>)
      requires Valid()
      ensures r.Err? <==> heap == []
      ensures r.Err? ==> r.error == IndexError
      ensures r.Ok? ==> r.value == heap[0] && forall x :: x in heap ==> !lt(x, r.value)
    {
      if heap == [] {
        return Err(IndexError);
      }
      RootFirst(heap, lt, |heap|);
      return Ok(heap[0]);
    }

    /** Copies the list, then sifts down every inner node from the last one to the root. */
    method BuildHeap(items: seq<T>)
      requires WeakOrder(lt)
      modifies this
      ensures Valid() && multiset(heap) == multiset(items)
    {
      heap := items;
      var i := |heap| / 2 - 1;
      while i >= 0
        invariant -1 <= i < |heap| && |heap| == |items|
        invariant Ordered(heap, lt, i + 1, |heap|) && multiset(heap) == multiset(items)
      {
        SiftDown(i);
        i := i - 1;
      }
    }

    /** Swaps the element at index with its parent while it comes before the parent. */
    method SiftUp(index: int)
      requires WeakOrder(lt) && 0 <= index < |heap| && UpInv(heap, lt, index)
      modifies this
      ensures Valid() && multiset(heap) == old(multiset(heap)) && |heap| == old(|heap|)
    {
      var idx := index;
      var parent := Parent(idx);
      while idx > 0 && lt(heap[idx], heap[parent])
        invariant 0 <= idx < |heap| && parent == Parent(idx) && UpInv(heap, lt, idx)
        invariant multiset(heap) == old(multiset(heap)) && |heap| == old(|heap|)
      {
        UpStep(heap, lt, idx);
        SwapMultiset(heap, idx, parent);
        heap := Swap(heap, idx, parent);
        idx := parent;
        parent := Parent(idx);
      }
    }

    /** Swaps the element at index with its first child among the smaller two, while one comes before it. */
    method SiftDown(index: int)
      requires WeakOrder(lt) && 0 <= index < |heap| && Ordered(heap, lt, index + 1, |heap|)
      modifies this
      ensures Ordered(heap, lt, index, |heap|)
      ensures multiset(heap) == old(multiset(heap)) && |heap| == old(|heap|)
    {
      var n := |heap|;
      var idx := index;
      while true
        invariant index <= idx < n == |heap| && DownInv(heap, lt, index, n, idx)
        invariant multiset(heap) == old(multiset(heap))
        decreases n - idx
      {
        var smallest := FirstOfFamily(heap, lt, n, idx);
        if smallest == idx {
          DownDone(heap, lt, index, n, idx);
          break;
        }
        DownStep(heap, lt, index, n, idx, smallest);
        SwapMultiset(heap, idx, smallest);
        heap := Swap(heap, idx, smallest);
        idx := smallest;
      }
    }
  }
}
