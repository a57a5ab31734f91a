/**
 * The lab06 binary search tree operations, iterative as in the Python class:
 * insertion walks down from the root keeping the parent, search walks down
 * comparing, and height and validity drain an explicit stack. Trees are
 * values of `BinaryTree.Tree`; a position in a tree is a path of directions.
 * Insertion sends values below a node's value left and all others right.
 */
module BinarySearchTree {
  import opened Common
  import opened BinaryTree

  /** `t` with the subtree at `path` replaced by `n`; unchanged if the path leaves the tree. */
  function Graft(t: Tree, path: seq<Dir>, n: Tree): Tree {
    if path == [] then n
    else if t.Nil? then t
    else if path[0] == L then Node(Graft(t.left, path[1..], n), t.value, t.right)
    else Node(t.left, t.value, Graft(t.right, path[1..], n))
  }

  lemma {:induction false} GraftAppend(t: Tree, path: seq<Dir>, d: Dir, n: Tree)
    requires Subtree(t, path).Node?
    ensures Graft(t, path + [d], n) == Graft(t, path, Graft(Subtree(t, path), [d], n))
  {
    if path != [] {
      assert (path + [d])[1..] == path[1..] + [d];
      GraftAppend(if path[0] == L then t.left else t.right, path[1..], d, n);
    }
  }

  lemma {:induction false} GraftSame(t: Tree, path: seq<Dir>)
    ensures Graft(t, path, Subtree(t, path)) == t
  {
    if path != [] && t.Node? {
      GraftSame(if path[0] == L then t.left else t.right, path[1..]);
    }
  }

  // --------------------------------------------------------------- insertion

  /** The recursive insertion the loop follows: below goes left, all else right. */
  function BstInsert(t: Tree, v: int): (r: Tree)
    ensures r.Node?
    ensures Count(r) == Count(t) + 1
  {
    if t.Nil? then Node(Nil, v, Nil)
    else if v < t.value then Node(BstInsert(t.left, v), t.value, t.right)
    else Node(t.left, t.value, BstInsert(t.right, v))
  }

  /** Insertion adds exactly the one value. */
  lemma {:induction false} InsertValues(t: Tree, v: int)
    ensures Values(BstInsert(t, v)) == Values(t) + multiset{v}
  {
    if t.Node? {
      if v < t.value {
        InsertValues(t.left, v);
      } else {
        InsertValues(t.right, v);
      }
    }
  }

  /**
   * Walks down from the root, remembering the parent, and hangs a new leaf
   * on the parent's left when the value is below the parent's, else on its
   * right; an empty tree becomes the leaf itself.
   */
  method InsertIterative(root: Tree, value: int) returns (r: Tree)
    ensures r == BstInsert(root, value)
  {
    var newNode := Node(Nil, value, Nil);
    if root.Nil? {
      return newNode;
    }
    var current := root;
    var parent := Nil;
    var parentPath: seq<Dir> := [];
    var path: seq<Dir> := [];
    while current.Node?
      invariant current == Subtree(root, path)
      invariant BstInsert(root, value) == Graft(root, path, BstInsert(current, value))
      invariant path == [] ==> current == root
      invariant path != [] ==> parent.Node? && parent == Subtree(root, parentPath)
                               && path == parentPath + [if value < parent.value then L else R]
      decreases Count(current)
    {
      parent, parentPath := current, path;
      var d := if value < current.value then L else R;
      SubtreeAppend(root, path, d);
      GraftAppend(root, path, d, BstInsert(if d == L then current.left else current.right, value));
      if value < current.value {
        current := current.left;
      } else {
        current := current.right;
      }
      path := path + [d];
    }
    var d := if value < parent.value then L else R;
    GraftAppend(root, parentPath, d, newNode);
    if value < parent.value {
      r := Graft(root, parentPath, Node(newNode, parent.value, parent.right));
    } else {
      r := Graft(root, parentPath, Node(parent.left, parent.value, newNode));
    }
  }

  /** `a + [x] + b` is sorted when both parts are and x lies between them. */
  lemma SortedJoin(a: seq<int>, x: int, b: seq<int>)
    requires Sorted(a) && Sorted(b) && (forall y :: y in a ==> y <= x) && (forall y :: y in b ==> x <= y)
    ensures Sorted(a + [x] + b)
  {
    var s := a + [x] + b;
    forall i, j | 0 <= i < j < |s| ensures s[i] <= s[j] {
      if j < |a| {
        assert s[i] == a[i] && s[j] == a[j];
      } else if i < |a| {
        assert s[i] == a[i] && a[i] in a;
        if j > |a| {
          assert s[j] == b[j - |a| - 1] && b[j - |a| - 1] in b;
        }
      } else if i == |a| {
        assert s[j] == b[j - |a| - 1] && b[j - |a| - 1] in b;
      } else {
        assert s[i] == b[i - |a| - 1] && s[j] == b[j - |a| - 1];
      }
    }
  }

  /** The parts of a sorted `a + [x] + b` are sorted and x lies between them. */
  lemma SortedSplit(a: seq<int>, x: int, b: seq<int>)
    requires Sorted(a + [x] + b)
    ensures Sorted(a) && Sorted(b) && (forall y :: y in a ==> y <= x) && (forall y :: y in b ==> x <= y)
  {
    var s := a + [x] + b;
    assert forall i :: 0 <= i < |a| ==> s[i] == a[i];
    assert forall i :: 0 <= i < |b| ==> s[|a| + 1 + i] == b[i];
    assert s[|a|] == x;
  }

  lemma InorderMembers(t: Tree)
    ensures forall y :: y in Inorder(t) <==> y in Values(t)
  {
    InorderValues(t);
    assert forall y :: y in Inorder(t) <==> y in multiset(Inorder(t));
  }

  /** Insertion keeps the in-order traversal sorted. */
  lemma {:induction false} InsertKeepsSorted(t: Tree, v: int)
    requires Sorted(Inorder(t))
    ensures Sorted(Inorder(BstInsert(t, v)))
  {
    if t.Node? {
      SortedSplit(Inorder(t.left), t.value, Inorder(t.right));
      if v < t.value {
        InsertKeepsSorted(t.left, v);
        InsertLeftSorted(t, v);
      } else {
        InsertKeepsSorted(t.right, v);
        InsertRightSorted(t, v);
      }
    }
  }

  /** Inserting into the left subtree keeps the whole traversal sorted once that subtree's is. */
  lemma InsertLeftSorted(t: Tree, v: int)
    requires t.Node? && v < t.value && Sorted(Inorder(t)) && Sorted(Inorder(BstInsert(t.left, v)))
    ensures Sorted(Inorder(BstInsert(t, v)))
  {
    var a, b := Inorder(t.left), Inorder(t.right);
    var a' := Inorder(BstInsert(t.left, v));
    SortedSplit(a, t.value, b);
    assert forall y :: y in a' ==> y <= t.value by {
      InsertValues(t.left, v);
      InorderMembers(t.left);
      InorderMembers(BstInsert(t.left, v));
    }
    assert Inorder(BstInsert(t, v)) == a' + [t.value] + b;
    SortedJoin(a', t.value, b);
  }

  /** Inserting into the right subtree keeps the whole traversal sorted once that subtree's is. */
  lemma InsertRightSorted(t: Tree, v: int)
    requires t.Node? && v >= t.value && Sorted(Inorder(t)) && Sorted(Inorder(BstInsert(t.right, v)))
    ensures Sorted(Inorder(BstInsert(t, v)))
  {
    var a, b := Inorder(t.left), Inorder(t.right);
    var b' := Inorder(BstInsert(t.right, v));
    SortedSplit(a, t.value, b);
    assert forall y :: y in b' ==> t.value <= y by {
      InsertValues(t.right, v);
      InorderMembers(t.right);
      InorderMembers(BstInsert(t.right, v));
    }
    assert Inorder(BstInsert(t, v)) == a + [t.value] + b';
    SortedJoin(a, t.value, b');
  }

  // -------------------------------------------------------------- validity

  /** Strictly between the optional bounds; a missing bound is infinite. */
  predicate InBounds(x: int, lo: Option<int>, hi: Option<int>) {
    (lo.None? || lo.value < x) && (hi.None? || x < hi.value)
  }

  /** Every node lies strictly between the bounds its ancestors impose. */
  predicate ValidBst(t: Tree, lo: Option<int>, hi: Option<int>) {
    t.Nil? || (InBounds(t.value, lo, hi) && ValidBst(t.left, lo, Some(t.value)) && ValidBst(t.right, Some(t.value), hi))
  }

  lemma {:induction false} ValidBounds(t: Tree, lo: Option<int>, hi: Option<int>)
    requires ValidBst(t, lo, hi)
    ensures forall x :: x in Values(t) ==> InBounds(x, lo, hi)
  {
    if t.Node? {
      ValidBounds(t.left, lo, Some(t.value));
      ValidBounds(t.right, Some(t.value), hi);
    }
  }

  /** Inserting a value that is new and within the bounds keeps the tree valid. */
  lemma {:induction false} InsertKeepsValid(t: Tree, v: int, lo: Option<int>, hi: Option<int>)
    requires ValidBst(t, lo, hi) && InBounds(v, lo, hi) && v !in Values(t)
    ensures ValidBst(BstInsert(t, v), lo, hi)
  {
    if t.Node? {
      assert v !in Values(t.left) && v !in Values(t.right) && v != t.value;
      if v < t.value {
        InsertKeepsValid(t.left, v, lo, Some(t.value));
        assert BstInsert(t, v) == Node(BstInsert(t.left, v), t.value, t.right);
      } else {
        InsertKeepsValid(t.right, v, Some(t.value), hi);
        assert BstInsert(t, v) == Node(t.left, t.value, BstInsert(t.right, v));
      }
    } else {
      assert ValidBst(Nil, lo, Some(v)) && ValidBst(Nil, Some(v), hi);
      assert ValidBst(Node(Nil, v, Nil), lo, hi);
      assert BstInsert(t, v) == Node(Nil, v, Nil);
    }
  }

  /** A value outside the bounds makes the tree invalid wherever insertion puts it. */
  lemma {:induction false} InsertOutOfBounds(t: Tree, v: int, lo: Option<int>, hi: Option<int>)
    requires !InBounds(v, lo, hi)
    ensures !ValidBst(BstInsert(t, v), lo, hi)
  {
    if t.Node? && InBounds(t.value, lo, hi) {
      if v < t.value {
        InsertOutOfBounds(t.left, v, lo, Some(t.value));
      } else {
        InsertOutOfBounds(t.right, v, Some(t.value), hi);
      }
    }
  }

  /** Inserting a value that is already present (it goes right) breaks validity. */
  lemma {:induction false} DuplicateBreaksValid(t: Tree, v: int, lo: Option<int>, hi: Option<int>)
    requires ValidBst(t, lo, hi) && v in Values(t)
    ensures !ValidBst(BstInsert(t, v), lo, hi)
  {
    if v == t.value {
      InsertOutOfBounds(t.right, v, Some(t.value), hi);
    } else if v < t.value {
      ValidBounds(t.right, Some(t.value), hi);
      DuplicateBreaksValid(t.left, v, lo, Some(t.value));
    } else {
      ValidBounds(t.left, lo, Some(t.value));
      DuplicateBreaksValid(t.right, v, Some(t.value), hi);
    }
  }

  /** The sum of the node counts of the stacked trees. */
  function StackCount<B>(stack: seq<(Tree, B)>): nat {
    if stack == [] then 0 else StackCount(stack[..|stack| - 1]) + Count(stack[|stack| - 1].0)
  }

  /** Every stacked entry holds a node: children are pushed only when present. */
  predicate NodesOnly<B>(stack: seq<(Tree, B)>) {
    forall i :: 0 <= i < |stack| ==> stack[i].0.Node?
  }

  /** `if child: stack.append(entry)`. */
  function PushIfNode<B>(stack: seq<(Tree, B)>, x: (Tree, B)): seq<(Tree, B)> {
    if x.0.Node? then stack + [x] else stack
  }

  lemma PushIfNodeFacts<B>(stack: seq<(Tree, B)>, x: (Tree, B))
    ensures StackCount(PushIfNode(stack, x)) == StackCount(stack) + Count(x.0)
    ensures NodesOnly(stack) ==> NodesOnly(PushIfNode(stack, x))
  {
    if x.0.Node? {
      assert (stack + [x])[..|stack|] == stack;
      assert forall i :: 0 <= i < |stack| ==> (stack + [x])[i] == stack[i];
    }
  }

  /** Popping a node and pushing those of its children that exist shrinks the stack's node count. */
  lemma PopPushFacts<B>(stack: seq<(Tree, B)>, a: B, b: B)
    requires stack != [] && NodesOnly(stack)
    ensures var node := stack[|stack| - 1].0;
      var next := PushIfNode(PushIfNode(stack[..|stack| - 1], (node.left, a)), (node.right, b));
      node.Node? && StackCount(next) < StackCount(stack) && NodesOnly(next)
  {
    var node := stack[|stack| - 1].0;
    var rest := stack[..|stack| - 1];
    assert NodesOnly(rest) by {
      assert forall i :: 0 <= i < |rest| ==> rest[i] == stack[i];
    }
    PushIfNodeFacts(rest, (node.left, a));
    PushIfNodeFacts(PushIfNode(rest, (node.left, a)), (node.right, b));
  }

  /** A stack entry for the validity check: a subtree and its bounds. */
  type Frame = (Tree, (Option<int>, Option<int>))

  predicate AllValid(stack: seq<Frame>) {
    forall i :: 0 <= i < |stack| ==> ValidBst(stack[i].0, stack[i].1.0, stack[i].1.1)
  }

  lemma AllValidPushIf(stack: seq<Frame>, x: Frame)
    ensures AllValid(PushIfNode(stack, x)) <==> AllValid(stack) && ValidBst(x.0, x.1.0, x.1.1)
  {
    if x.0.Node? {
      var s := stack + [x];
      assert forall i :: 0 <= i < |stack| ==> s[i] == stack[i];
      assert s[|stack|] == x;
    }
  }

  /** The stack is valid exactly when the popped node is in bounds and the rest plus its children are. */
  lemma ValidityStep(stack: seq<Frame>)
    requires stack != [] && stack[|stack| - 1].0.Node?
    ensures var (node, (minVal, maxVal)) := stack[|stack| - 1];
      var next := PushIfNode(PushIfNode(stack[..|stack| - 1], (node.left, (minVal, Some(node.value)))),
                             (node.right, (Some(node.value), maxVal)));
      AllValid(stack) <==> InBounds(node.value, minVal, maxVal) && AllValid(next)
  {
    var (node, (minVal, maxVal)) := stack[|stack| - 1];
    var rest := stack[..|stack| - 1];
    var mid := PushIfNode(rest, (node.left, (minVal, Some(node.value))));
    AllValidPushIf(rest, (node.left, (minVal, Some(node.value))));
    AllValidPushIf(mid, (node.right, (Some(node.value), maxVal)));
    assert AllValid(stack) <==> AllValid(rest) && ValidBst(node, minVal, maxVal) by {
      assert stack == rest + [stack[|stack| - 1]];
      assert forall i :: 0 <= i < |rest| ==> stack[i] == rest[i];
    }
  }

  /**
   * Pops a node and its bounds, fails if the value is not strictly inside,
   * and pushes the children with the node's value as the new upper or lower
   * bound. An empty tree is valid.
   */
  method IsValidBstIterative(root: Tree) returns (r: bool)
    ensures r == ValidBst(root, None, None)
  {
    if root.Nil? {
      return true;
    }
    var stack: seq<Frame> := [(root, (None, None))];
    while stack != []
      invariant ValidBst(root, None, None) <==> AllValid(stack)
      invariant NodesOnly(stack)
      decreases StackCount(stack)
    {
      var top := stack[|stack| - 1];
      var node, minVal, maxVal := top.0, top.1.0, top.1.1;
      PopPushFacts(stack, (minVal, Some(node.value)), (Some(node.value), maxVal));
      ValidityStep(stack);
      stack := stack[..|stack| - 1];
      if !InBounds(node.value, minVal, maxVal) {
        return false;
      }
      stack := PushIfNode(stack, (node.left, (minVal, Some(node.value))));
      stack := PushIfNode(stack, (node.right, (Some(node.value), maxVal)));
    }
    return true;
  }

  // -------------------------------------------------------- search, min, max

  /** The recursive search the loop follows: the subtree whose root holds `v`, or `Nil`. */
  function SearchRec(t: Tree, v: int): (r: Tree)
    ensures r.Node? ==> r.value == v
  {
    if t.Nil? then Nil
    else if v == t.value then t
    else if v < t.value then SearchRec(t.left, v)
    else SearchRec(t.right, v)
  }

  method SearchIterative(root: Tree, value: int) returns (r: Tree)
    ensures r == SearchRec(root, value)
  {
    var current := root;
    while current.Node?
      invariant SearchRec(current, value) == SearchRec(root, value)
      decreases Count(current)
    {
      if value == current.value {
        return current;
      } else if value < current.value {
        current := current.left;
      } else {
        current := current.right;
      }
    }
    return Nil;
  }

  /** In a valid tree, search finds a node exactly when the value is present. */
  lemma {:induction false} SearchFindsIffPresent(t: Tree, v: int, lo: Option<int>, hi: Option<int>)
    requires ValidBst(t, lo, hi)
    ensures SearchRec(t, v).Node? <==> v in Values(t)
  {
    if t.Node? {
      ValidBounds(t.left, lo, Some(t.value));
      ValidBounds(t.right, Some(t.value), hi);
      if v < t.value {
        SearchFindsIffPresent(t.left, v, lo, Some(t.value));
      } else if v > t.value {
        SearchFindsIffPresent(t.right, v, Some(t.value), hi);
      }
    }
  }

  /** The node reached by following left children from the root. */
  function Leftmost(t: Tree): (r: Tree)
    requires t.Node?
    ensures r.Node? && r.left.Nil? && r.value in Values(t)
    ensures Inorder(t)[0] == r.value
  {
    if t.left.Nil? then t else Leftmost(t.left)
  }

  /** The node reached by following right children from the root. */
  function Rightmost(t: Tree): (r: Tree)
    requires t.Node?
    ensures r.Node? && r.right.Nil? && r.value in Values(t)
    ensures Inorder(t)[|Inorder(t)| - 1] == r.value
  {
    if t.right.Nil? then t else Rightmost(t.right)
  }

  method FindMinIterative(root: Tree) returns (r: Tree)
    requires root.Node?
    ensures r == Leftmost(root)
  {
    var current := root;
    while current.left.Node?
      invariant current.Node? && Leftmost(current) == Leftmost(root)
      decreases Count(current)
    {
      current := current.left;
    }
    return current;
  }

  method FindMaxIterative(root: Tree) returns (r: Tree)
    requires root.Node?
    ensures r == Rightmost(root)
  {
    var current := root;
    while current.right.Node?
      invariant current.Node? && Rightmost(current) == Rightmost(root)
      decreases Count(current)
    {
      current := current.right;
    }
    return current;
  }

  /** In a valid tree the leftmost value is the minimum and the rightmost the maximum. */
  lemma {:induction false} ExtremesOfValid(t: Tree, lo: Option<int>, hi: Option<int>)
    requires t.Node? && ValidBst(t, lo, hi)
    ensures forall x :: x in Values(t) ==> Leftmost(t).value <= x <= Rightmost(t).value
  {
    ValidBounds(t.left, lo, Some(t.value));
    ValidBounds(t.right, Some(t.value), hi);
    if t.left.Node? {
      ExtremesOfValid(t.left, lo, Some(t.value));
    }
    if t.right.Node? {
      ExtremesOfValid(t.right, Some(t.value), hi);
    }
  }

  // ------------------------------------------------------------------ height

  /** The greatest depth reachable below the stacked (subtree, depth) entries. */
  function StackHeight(stack: seq<(Tree, int)>): int {
    if stack == [] then 0
    else Max(StackHeight(stack[..|stack| - 1]), stack[|stack| - 1].1 - 1 + Height(stack[|stack| - 1].0))
  }

  lemma StackHeightPushIf(stack: seq<(Tree, int)>, x: (Tree, int))
    ensures StackHeight(PushIfNode(stack, x)) == if x.0.Node? then Max(StackHeight(stack), x.1 - 1 + Height(x.0)) else StackHeight(stack)
  {
    if x.0.Node? {
      assert (stack + [x])[..|stack|] == stack;
    }
  }

  /** Popping (node, h) and pushing its children one level deeper keeps the greatest depth. */
  lemma HeightStep(stack: seq<(Tree, int)>, m: int, node: Tree, h: int, next: seq<(Tree, int)>, m': int)
    requires stack != [] && stack[|stack| - 1] == (node, h) && node.Node?
    requires next == PushIfNode(PushIfNode(stack[..|stack| - 1], (node.left, h + 1)), (node.right, h + 1))
    requires m' == if h > m then h else m
    ensures Max(m', StackHeight(next)) == Max(m, StackHeight(stack))
  {
    var rest := stack[..|stack| - 1];
    var r, hl, hr := StackHeight(rest), Height(node.left), Height(node.right);
    StackHeightPushIf(rest, (node.left, h + 1));
    StackHeightPushIf(PushIfNode(rest, (node.left, h + 1)), (node.right, h + 1));
    assert Max(m', StackHeight(next)) == Max(m', Max(Max(r, h + hl), h + hr));
    assert StackHeight(stack) == Max(r, h + Max(hl, hr));
    MaxRegroup(m, h, r, hl, hr, m');
  }

  /** The arithmetic of HeightStep on plain integers. */
  lemma MaxRegroup(m: int, h: int, r: int, hl: nat, hr: nat, m': int)
    requires m' == if h > m then h else m
    ensures Max(m', Max(Max(r, h + hl), h + hr)) == Max(m, Max(r, h + Max(hl, hr)))
  {
  }

  /** The loop state of the iterative height: the deepest level seen or still reachable is the height. */
  predicate HeightLoop(root: Tree, maxHeight: int, stack: seq<(Tree, int)>) {
    Max(maxHeight, StackHeight(stack)) == Height(root) && NodesOnly(stack) && 0 <= maxHeight
  }

  lemma HeightLoopStep(root: Tree, m: int, stack: seq<(Tree, int)>, node: Tree, h: int, next: seq<(Tree, int)>, m': int)
    requires HeightLoop(root, m, stack) && stack != [] && stack[|stack| - 1] == (node, h)
    requires next == PushIfNode(PushIfNode(stack[..|stack| - 1], (node.left, h + 1)), (node.right, h + 1))
    requires m' == if h > m then h else m
    ensures HeightLoop(root, m', next) && StackCount(next) < StackCount(stack)
  {
    PopPushFacts(stack, h + 1, h + 1);
    HeightStep(stack, m, node, h, next, m');
  }

  /**
   * Pops (node, depth), records the depth, and pushes the children one
   * level deeper; the largest depth seen is the height.
   */
  method HeightIterative(root: Tree) returns (r: int)
    ensures r == Height(root)
  {
    if root.Nil? {
      return 0;
    }
    var stack: seq<(Tree, int)> := [(root, 1)];
    var maxHeight := 0;
    while stack != []
      invariant HeightLoop(root, maxHeight, stack)
      decreases StackCount(stack)
    {
      var top := stack[|stack| - 1];
      var node, height := top.0, top.1;
      ghost var next := PushIfNode(PushIfNode(stack[..|stack| - 1], (node.left, height + 1)), (node.right, height + 1));
      HeightLoopStep(root, maxHeight, stack, node, height, next, if height > maxHeight then height else maxHeight);
      stack := stack[..|stack| - 1];
      if height > maxHeight {
        maxHeight := height;
      }
      stack := PushIfNode(stack, (node.left, height + 1));
      stack := PushIfNode(stack, (node.right, height + 1));
    }
    return maxHeight;
  }
}
