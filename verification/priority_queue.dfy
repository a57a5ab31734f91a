/**
 * The lab07 priority queue: a min-heap of (priority, item) pairs, compared
 * lexicographically as Python compares tuples, so equal priorities come out
 * in item order. Items are of any type with an order of their own (strings
 * in the tests); priorities are integers.
 */
module PriorityQueues {
  import opened Common
  import opened Heaps

  /** Python's tuple `<` on (priority, item), with `itemLess` as `<` on the items. */
  function PairLess<T>(itemLess: (T, T) -> bool, a: (int, T), b: (int, T)): bool {
    a.0 < b.0 || (a.0 == b.0 && itemLess(a.1, b.1))
  }

  /** The tuple order as the comparison the heap is built with. */
  function Lexicographic<T(!new)>(itemLess: (T, T) -> bool): (lt: ((int, T), (int, T)) -> bool)
    ensures forall a, b :: lt(a, b) == PairLess(itemLess, a, b)
  {
    (a, b) => PairLess(itemLess, a, b)
  }

  /** Ordering pairs by priority, then by item, is a strict weak order when the item order is one. */
  lemma PairOrder<T(!new)>(itemLess: (T, T) -> bool)
    requires WeakOrder(itemLess)
    ensures WeakOrder(Lexicographic(itemLess))
  {
  }

  /** No pair in the heap comes before p. */
  ghost predicate Least<T>(itemLess: (T, T) -> bool, p: (int, T), pairs: seq<(int, T)>) {
    forall x :: x in pairs ==> !PairLess(itemLess, x, p)
  }

  class PriorityQueue<T(==,!new)> {
    /** Python's `<` on the items, used when two priorities are equal. */
    const itemLess: (T, T) -> bool
    const heap: Heap<(int, T)>

    ghost predicate Valid()
      reads this, heap
    {
      heap.Valid() && heap.lt == Lexicographic(itemLess)
    }

    constructor(itemLess: (T, T) -> bool)
      requires WeakOrder(itemLess)
      ensures Valid() && heap.heap == [] && fresh(heap) && this.itemLess == itemLess
    {
      PairOrder(itemLess);
      this.itemLess := itemLess;
      heap := new Heap(Lexicographic(itemLess));
    }

    /** Inserts the pair (priority, item). */
    method Enqueue(item: T, priority: int)
      requires Valid()
      modifies heap
      ensures Valid() && multiset(heap.heap) == old(multiset(heap.heap)) + multiset{(priority, item)}
      ensures Len() == old(Len()) + 1
    {
      heap.Insert((priority, item));
    }

    /** The item of the least pair, removed; IndexError on an empty queue. */
    method Dequeue() returns (r: Result<T>)
      requires Valid()
      modifies heap
      ensures Valid()
      ensures r.Err? <==> old(heap.heap) == []
      ensures r.Err? ==> r.error == IndexError && heap.heap == old(heap.heap)
      ensures r.Ok? ==> r.value == old(heap.heap)[0].1 && Least(itemLess, old(heap.heap)[0], old(heap.heap))
      ensures r.Ok? ==> multiset(heap.heap) == old(multiset(heap.heap)) - multiset{old(heap.heap)[0]}
      ensures r.Ok? ==> Len() == old(Len()) - 1
    {
      if heap.Len() == 0 {
        return Err(IndexError);
      }
      var pair := heap.Extract();
      return Ok(pair.value.1);
    }

    /** The item dequeue would return, leaving the queue as it is; IndexError on an empty queue. */
    method Peek() returns (r: Result<T>)
      requires Valid()
      ensures r.Err? <==> heap.heap == []
      ensures r.Err? ==> r.error == IndexError
      ensures r.Ok? ==> r.value == heap.heap[0].1 && Least(itemLess, heap.heap[0], heap.heap)
    {
      if heap.Len() == 0 {
        return Err(IndexError);
      }
      var pair := heap.Peek();
      return Ok(pair.value.1);
    }

    /** `__len__`: the number of queued pairs. */
    function Len(): nat
      reads this, heap
    {
      heap.Len()
    }
  }
}
