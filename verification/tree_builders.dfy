/**
 * The two tree generators of the lab06 analysis script: a balanced tree built
 * by recursive halving of the sorted elements, and a degenerate tree built by
 * inserting the sorted elements one by one with the iterative BST insertion.
 */
module TreeBuilders {
  import opened Common
  import opened BinaryTree
  import opened BinarySearchTree

  // ---------------------------------------------------------- balanced tree

  /** The node of arr[mid], mid = (start + end) // 2, over the two halves beside it. */
  function BuildBalanced(arr: seq<int>, start: int, end: int): (r: Tree)
    requires 0 <= start <= end + 1 <= |arr|
    decreases end - start + 1
  {
    if start > end then Nil
    else
      var mid := (start + end) / 2;
      Node(BuildBalanced(arr, start, mid - 1), arr[mid], BuildBalanced(arr, mid + 1, end))
  }

  /** The in-order traversal of the built tree is the slice arr[start..end]. */
  lemma {:induction false} BuildBalancedInorder(arr: seq<int>, start: int, end: int)
    requires 0 <= start <= end + 1 <= |arr|
    ensures Inorder(BuildBalanced(arr, start, end)) == arr[start..end + 1]
    decreases end - start + 1
  {
    if start <= end {
      var mid := (start + end) / 2;
      var left, right := BuildBalanced(arr, start, mid - 1), BuildBalanced(arr, mid + 1, end);
      BuildBalancedInorder(arr, start, mid - 1);
      BuildBalancedInorder(arr, mid + 1, end);
      assert BuildBalanced(arr, start, end) == Node(left, arr[mid], right);
      assert Inorder(Node(left, arr[mid], right)) == Inorder(left) + [arr[mid]] + Inorder(right);
      SliceAround(arr, start, mid, end + 1);
    }
  }

  /** A slice is its part before b, the element at b, and its part after b. */
  lemma SliceAround(arr: seq<int>, a: int, b: int, c: int)
    requires 0 <= a <= b < c <= |arr|
    ensures arr[a..c] == arr[a..b] + [arr[b]] + arr[b + 1..c]
  {
  }

  /** At every node the two subtrees differ in size by at most one. */
  ghost predicate SizeBalanced(t: Tree) {
    t.Nil? || (-1 <= Count(t.left) - Count(t.right) <= 1 && SizeBalanced(t.left) && SizeBalanced(t.right))
  }

  lemma {:induction false} BuildBalancedShape(arr: seq<int>, start: int, end: int)
    requires 0 <= start <= end + 1 <= |arr|
    ensures Count(BuildBalanced(arr, start, end)) == end - start + 1
    ensures SizeBalanced(BuildBalanced(arr, start, end))
    decreases end - start + 1
  {
    if start <= end {
      var mid := (start + end) / 2;
      assert start <= mid <= end && 0 <= (end - mid) - (mid - start) <= 1;
      BuildBalancedShape(arr, start, mid - 1);
      BuildBalancedShape(arr, mid + 1, end);
      assert BuildBalanced(arr, start, end) == Node(BuildBalanced(arr, start, mid - 1), arr[mid], BuildBalanced(arr, mid + 1, end));
    }
  }

  /** Strictly ascending. */
  predicate Increasing(s: seq<int>) {
    forall i, j :: 0 <= i < j < |s| ==> s[i] < s[j]
  }

  /** Over strictly ascending values within the bounds, the built tree is a valid BST. */
  lemma {:induction false} BuildBalancedValid(arr: seq<int>, start: int, end: int, lo: Option<int>, hi: Option<int>)
    requires 0 <= start <= end + 1 <= |arr| && Increasing(arr)
    requires forall k :: start <= k <= end ==> InBounds(arr[k], lo, hi)
    ensures ValidBst(BuildBalanced(arr, start, end), lo, hi)
    decreases end - start + 1
  {
    if start <= end {
      var mid := (start + end) / 2;
      BuildBalancedValid(arr, start, mid - 1, lo, Some(arr[mid]));
      BuildBalancedValid(arr, mid + 1, end, Some(arr[mid]), hi);
    }
  }

  /** Sorts the elements, then builds over the whole sorted list; no elements give no tree. */
  function GenerateBalancedTree(elements: seq<int>): (r: Tree)
    ensures elements == [] <==> r.Nil?
  {
    var sortedElements := SortInts(elements);
    BuildBalancedShape(sortedElements, 0, |sortedElements| - 1);
    BuildBalanced(sortedElements, 0, |sortedElements| - 1)
  }

  /** Its in-order traversal is sorted(elements), and it is balanced by size. */
  lemma BalancedTreeFacts(elements: seq<int>)
    ensures Inorder(GenerateBalancedTree(elements)) == SortInts(elements)
    ensures SizeBalanced(GenerateBalancedTree(elements))
    ensures Count(GenerateBalancedTree(elements)) == |elements|
  {
    BuildWhole(SortInts(elements));
  }

  /** Built over a whole list, the tree lists it in order and is balanced by size. */
  lemma BuildWhole(s: seq<int>)
    ensures Inorder(BuildBalanced(s, 0, |s| - 1)) == s
    ensures SizeBalanced(BuildBalanced(s, 0, |s| - 1)) && Count(BuildBalanced(s, 0, |s| - 1)) == |s|
  {
    BuildBalancedInorder(s, 0, |s| - 1);
    BuildBalancedShape(s, 0, |s| - 1);
    assert s[0..|s|] == s;
  }

  /** With distinct elements the balanced tree passes the strict BST check. */
  lemma BalancedTreeValid(elements: seq<int>)
    requires Distinct(elements)
    ensures ValidBst(GenerateBalancedTree(elements), None, None)
  {
    var s := SortInts(elements);
    DistinctPerm(elements, s);
    assert Increasing(s) by {
      forall i, j | 0 <= i < j < |s| ensures s[i] < s[j] {
        assert s[i] <= s[j] && s[i] != s[j];
      }
    }
    BuildBalancedValid(s, 0, |s| - 1, None, None);
  }

  // -------------------------------------------------------- degenerate tree

  /** The chain of right children holding s from the top down; no node has a left child. */
  function RightSpine(s: seq<int>): (r: Tree)
    ensures Count(r) == |s|
  {
    if s == [] then Nil else Node(Nil, s[0], RightSpine(s[1..]))
  }

  /** A value at least every spine value goes to the bottom of the spine. */
  lemma {:induction false} InsertBelowSpine(s: seq<int>, v: int)
    requires forall k :: 0 <= k < |s| ==> s[k] <= v
    ensures BstInsert(RightSpine(s), v) == RightSpine(s + [v])
  {
    if s != [] {
      assert (s + [v])[1..] == s[1..] + [v];
      InsertBelowSpine(s[1..], v);
    }
  }

  /** Sorts the elements and inserts them one at a time into an initially empty tree. */
  method GenerateDegenerateTree(elements: seq<int>) returns (r: Tree)
    ensures r == RightSpine(SortInts(elements))
  {
    var sortedElements := SortInts(elements);
    r := Nil;
    for i := 0 to |sortedElements|
      invariant r == RightSpine(sortedElements[..i])
    {
      InsertBelowSpine(sortedElements[..i], sortedElements[i]);
      assert sortedElements[..i + 1] == sortedElements[..i] + [sortedElements[i]];
      r := InsertIterative(r, sortedElements[i]);
    }
    assert sortedElements[..|sortedElements|] == sortedElements;
  }

  predicate NoLeftChild(t: Tree) {
    t.Nil? || (t.left.Nil? && NoLeftChild(t.right))
  }

  /** A spine has no left children, its height is its length and it lists s in order. */
  lemma {:induction false} SpineShape(s: seq<int>)
    ensures NoLeftChild(RightSpine(s)) && Height(RightSpine(s)) == |s| && Inorder(RightSpine(s)) == s
  {
    if s != [] {
      SpineShape(s[1..]);
      assert Inorder(RightSpine(s)) == [] + [s[0]] + s[1..];
    }
  }
}
