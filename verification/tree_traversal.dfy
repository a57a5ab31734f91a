/**
 * The lab06 traversals: the recursive ones append to a shared result list
 * from a nested helper; the iterative ones drive an explicit stack, and the
 * iterative post-order keeps a set of visited nodes. Each iterative version
 * returns exactly the list of its recursive counterpart.
 */
module TreeTraversal {
  import opened BinaryTree

  // --------------------------------------------------------------- recursive

  /** The nested helper of the recursive in-order traversal. */
  method TraverseInorder(node: Tree, result: seq<int>) returns (out: seq<int>)
    ensures out == result + Inorder(node)
  {
    out := result;
    if node.Node? {
      out := TraverseInorder(node.left, out);
      out := out + [node.value];
      out := TraverseInorder(node.right, out);
    }
  }

  method RecursiveInorder(root: Tree) returns (result: seq<int>)
    ensures result == Inorder(root)
  {
    result := TraverseInorder(root, []);
  }

  /** The nested helper of the recursive pre-order traversal. */
  method TraversePreorder(node: Tree, result: seq<int>) returns (out: seq<int>)
    ensures out == result + Preorder(node)
  {
    out := result;
    if node.Node? {
      out := out + [node.value];
      out := TraversePreorder(node.left, out);
      out := TraversePreorder(node.right, out);
    }
  }

  method RecursivePreorder(root: Tree) returns (result: seq<int>)
    ensures result == Preorder(root)
  {
    result := TraversePreorder(root, []);
  }

  /** The nested helper of the recursive post-order traversal. */
  method TraversePostorder(node: Tree, result: seq<int>) returns (out: seq<int>)
    ensures out == result + Postorder(node)
  {
    out := result;
    if node.Node? {
      out := TraversePostorder(node.left, out);
      out := TraversePostorder(node.right, out);
      out := out + [node.value];
      AppendThree(result, Postorder(node.left), Postorder(node.right), [node.value]);
    }
  }

  /** Appending three lists one by one is appending their concatenation. */
  lemma AppendThree<T>(r: seq<T>, a: seq<T>, b: seq<T>, c: seq<T>)
    ensures r + a + b + c == r + (a + b + c)
  {
  }

  method RecursivePostorder(root: Tree) returns (result: seq<int>)
    ensures result == Postorder(root)
  {
    result := TraversePostorder(root, []);
  }

  // ---------------------------------------------------------------- in-order

  /** Regrouping a concatenation, stated on plain variables so that it stays cheap. */
  lemma Regroup<T>(r: seq<T>, a: seq<T>, b: seq<T>, c: seq<T>, d: seq<T>)
    ensures r + a + (b + c + d) == r + (a + b + c) + d
  {
  }

  lemma EmptyAppend<T>(s: seq<T>)
    ensures [] + s == s
  {
  }

  lemma Regroup3<T>(r: seq<T>, a: seq<T>, b: seq<T>, d: seq<T>)
    ensures r + a + (b + d) == r + (a + b) + d
  {
  }

  /** What the stacked nodes still contribute: each its value, then its right subtree, top first. */
  function PendingInorder(stack: seq<Tree>): seq<int> {
    if stack == [] then []
    else
      var n := stack[|stack| - 1];
      (if n.Nil? then [] else [n.value] + Inorder(n.right)) + PendingInorder(stack[..|stack| - 1])
  }

  lemma InorderPush(root: Tree, result: seq<int>, current: Tree, stack: seq<Tree>)
    requires current.Node?
    requires result + Inorder(current) + PendingInorder(stack) == Inorder(root)
    ensures result + Inorder(current.left) + PendingInorder(stack + [current]) == Inorder(root)
  {
    assert PendingInorder(stack + [current]) == [current.value] + Inorder(current.right) + PendingInorder(stack) by {
      assert (stack + [current])[..|stack|] == stack;
    }
    Regroup(result, Inorder(current.left), [current.value], Inorder(current.right), PendingInorder(stack));
  }

  lemma InorderPop(root: Tree, result: seq<int>, stack: seq<Tree>)
    requires stack != [] && stack[|stack| - 1].Node?
    requires result + PendingInorder(stack) == Inorder(root)
    ensures var n := stack[|stack| - 1];
      result + [n.value] + Inorder(n.right) + PendingInorder(stack[..|stack| - 1]) == Inorder(root)
  {
    var n, rest := stack[|stack| - 1], stack[..|stack| - 1];
    Assoc(result, [n.value] + Inorder(n.right), PendingInorder(rest));
    Assoc(result, [n.value], Inorder(n.right));
  }

  /** Every stacked entry is a node: only existing children are pushed. */
  predicate AllNodes(stack: seq<Tree>) {
    forall i :: 0 <= i < |stack| ==> stack[i].Node?
  }

  /** The inner loop of the iterative in-order: walks down the left spine, stacking every node passed. */
  method PushLeftSpine(ghost root: Tree, ghost result: seq<int>, current: Tree, stack: seq<Tree>) returns (stack': seq<Tree>)
    requires result + Inorder(current) + PendingInorder(stack) == Inorder(root)
    requires AllNodes(stack)
    ensures result + PendingInorder(stack') == Inorder(root)
    ensures AllNodes(stack') && (current.Node? || stack != [] ==> stack' != [])
  {
    stack' := stack;
    var node := current;
    while node.Node?
      invariant result + Inorder(node) + PendingInorder(stack') == Inorder(root)
      invariant AllNodes(stack')
      invariant current.Node? || stack != [] ==> node.Node? || stack' != []
      decreases Count(node)
    {
      InorderPush(root, result, node, stack');
      assert AllNodes(stack' + [node]) by {
        assert forall i :: 0 <= i < |stack'| ==> (stack' + [node])[i] == stack'[i];
      }
      stack' := stack' + [node];
      node := node.left;
    }
    assert result + Inorder(node) == result;
  }

  /**
   * Stacks the left spine of `current`, pops a node, emits it and continues
   * with its right child.
   */
  method IterativeInorder(root: Tree) returns (result: seq<int>)
    ensures result == Inorder(root)
  {
    result := [];
    var stack: seq<Tree> := [];
    var current := root;
    while current.Node? || stack != []
      invariant result + Inorder(current) + PendingInorder(stack) == Inorder(root)
      invariant AllNodes(stack)
      decreases |Inorder(root)| - |result|
    {
      stack := PushLeftSpine(root, result, current, stack);
      InorderPop(root, result, stack);
      current := stack[|stack| - 1];
      stack := stack[..|stack| - 1];
      result := result + [current.value];
      current := current.right;
    }
  }

  // --------------------------------------------------------------- pre-order

  /** What the stacked subtrees still contribute, top first. */
  function PendingPreorder(stack: seq<Tree>): seq<int> {
    if stack == [] then [] else Preorder(stack[|stack| - 1]) + PendingPreorder(stack[..|stack| - 1])
  }

  lemma PendingPreorderPush(stack: seq<Tree>, t: Tree)
    ensures PendingPreorder(stack + [t]) == Preorder(t) + PendingPreorder(stack)
  {
    assert (stack + [t])[..|stack|] == stack;
  }

  /** Pushing a child only when it exists. */
  lemma PushIfNode(stack: seq<Tree>, t: Tree)
    ensures var s := if t.Node? then stack + [t] else stack;
      && PendingPreorder(s) == Preorder(t) + PendingPreorder(stack)
      && (AllNodes(stack) ==> AllNodes(s))
  {
    if t.Node? {
      PendingPreorderPush(stack, t);
      assert forall i :: 0 <= i < |stack| ==> (stack + [t])[i] == stack[i];
    }
  }

  /** Pushing the children that exist, right first, leaves them to be listed left first. */
  lemma PreorderChildren(rest: seq<Tree>, n: Tree)
    requires n.Node?
    ensures var s1 := if n.right.Node? then rest + [n.right] else rest;
      var s2 := if n.left.Node? then s1 + [n.left] else s1;
      && PendingPreorder(s2) == Preorder(n.left) + Preorder(n.right) + PendingPreorder(rest)
      && (AllNodes(rest) ==> AllNodes(s2))
  {
    var s1 := if n.right.Node? then rest + [n.right] else rest;
    PushIfNode(rest, n.right);
    PushIfNode(s1, n.left);
    Assoc(Preorder(n.left), Preorder(n.right), PendingPreorder(rest));
  }

  lemma PreorderPop(root: Tree, result: seq<int>, stack: seq<Tree>)
    requires stack != [] && stack[|stack| - 1].Node?
    requires result + PendingPreorder(stack) == Preorder(root)
    ensures var n := stack[|stack| - 1];
      result + [n.value] + (Preorder(n.left) + Preorder(n.right) + PendingPreorder(stack[..|stack| - 1])) == Preorder(root)
  {
    var n, rest := stack[|stack| - 1], stack[..|stack| - 1];
    Assoc(result, Preorder(n), PendingPreorder(rest));
    Regroup(result, [n.value], Preorder(n.left), Preorder(n.right), PendingPreorder(rest));
  }

  /** Pops a node, emits it, and pushes its right child and then its left child. */
  method IterativePreorder(root: Tree) returns (result: seq<int>)
    ensures result == Preorder(root)
  {
    if root.Nil? {
      return [];
    }
    result := [];
    var stack := [root];
    assert PendingPreorder(stack) == Preorder(root) by {
      PendingPreorderPush([], root);
    }
    while stack != []
      invariant result + PendingPreorder(stack) == Preorder(root)
      invariant AllNodes(stack)
      decreases |Preorder(root)| - |result|
    {
      var current := stack[|stack| - 1];
      var rest := stack[..|stack| - 1];
      PreorderPop(root, result, stack);
      PreorderChildren(rest, current);
      result := result + [current.value];
      var afterRight := if current.right.Node? then rest + [current.right] else rest;
      stack := if current.left.Node? then afterRight + [current.left] else afterRight;
    }
  }

  // -------------------------------------------------------------- post-order

  /** Regrouping a concatenation, on plain variables. */
  lemma Assoc<T>(x: seq<T>, b: seq<T>, d: seq<T>)
    ensures x + (b + d) == x + b + d
  {
  }

  predicate IsPrefix(q: seq<Dir>, x: seq<Dir>) {
    |q| <= |x| && x[..|q|] == q
  }

  /** No visited position lies at or below q. */
  ghost predicate Fresh(visited: set<seq<Dir>>, q: seq<Dir>) {
    forall x {:trigger x in visited} :: x in visited ==> !IsPrefix(q, x)
  }

  lemma FreshExtend(visited: set<seq<Dir>>, q: seq<Dir>, d: Dir)
    requires Fresh(visited, q)
    ensures Fresh(visited, q + [d]) && q !in visited
  {
    assert IsPrefix(q, q);
  }

  /** The positions of the root-to-top path: the stack of the iterative post-order. */
  function Prefixes(p: seq<Dir>): (r: seq<seq<Dir>>)
    ensures |r| == |p| + 1 && r[|p|] == p
  {
    seq(|p| + 1, i requires 0 <= i <= |p| => p[..i])
  }

  lemma PrefixesPush(p: seq<Dir>, d: Dir)
    ensures Prefixes(p + [d]) == Prefixes(p) + [p + [d]]
  {
    assert forall i :: 0 <= i <= |p| ==> (p + [d])[..i] == p[..i];
  }

  lemma PrefixesPop(p: seq<Dir>)
    requires p != []
    ensures Prefixes(p[..|p| - 1]) == Prefixes(p)[..|p|]
  {
    assert forall i :: 0 <= i < |p| ==> p[..|p| - 1][..i] == p[..i];
  }

  /** Whether the left, resp. right, child of the node at p is missing or already visited. */
  predicate LeftDone(n: Tree, p: seq<Dir>, visited: set<seq<Dir>>) {
    n.Nil? || n.left.Nil? || p + [L] in visited
  }

  predicate RightDone(n: Tree, p: seq<Dir>, visited: set<seq<Dir>>) {
    n.Nil? || n.right.Nil? || p + [R] in visited
  }

  /** What an ancestor on the stack still emits once its child in direction d is done. */
  function FrameRest(n: Tree, d: Dir): seq<int> {
    if n.Nil? then [] else if d == L then Postorder(n.right) + [n.value] else [n.value]
  }

  /** What all the ancestors of the position p still emit, nearest first. */
  function FramesRest(root: Tree, p: seq<Dir>): seq<int> {
    if p == [] then [] else FrameRest(Subtree(root, p[..|p| - 1]), p[|p| - 1]) + FramesRest(root, p[..|p| - 1])
  }

  lemma FramesPush(root: Tree, p: seq<Dir>, d: Dir)
    requires Subtree(root, p).Node?
    ensures FramesRest(root, p + [d]) == FrameRest(Subtree(root, p), d) + FramesRest(root, p)
    ensures Subtree(root, p + [d]) == if d == L then Subtree(root, p).left else Subtree(root, p).right
  {
    assert (p + [d])[..|p|] == p;
    SubtreeAppend(root, p, d);
  }

  /** What the node on top of the stack still emits, given which children were visited. */
  function TopRest(n: Tree, p: seq<Dir>, visited: set<seq<Dir>>): seq<int> {
    if n.Nil? then []
    else if !LeftDone(n, p, visited) then Postorder(n.left) + Postorder(n.right) + [n.value]
    else if !RightDone(n, p, visited) then Postorder(n.right) + [n.value]
    else [n.value]
  }

  /** An unvisited child about to be entered has nothing visited below it. */
  ghost predicate TopFresh(n: Tree, p: seq<Dir>, visited: set<seq<Dir>>) {
    && (!LeftDone(n, p, visited) ==> Fresh(visited, p + [L]) && Fresh(visited, p + [R]))
    && (LeftDone(n, p, visited) && !RightDone(n, p, visited) ==> Fresh(visited, p + [R]))
  }

  /** Every position on the stack holds a node. */
  ghost predicate PathNodes(root: Tree, path: seq<Dir>) {
    forall i :: 0 <= i <= |path| ==> Subtree(root, path[..i]).Node?
  }

  /** An ancestor left through its left child has an untouched right subtree. */
  ghost predicate LeftPending(path: seq<Dir>, visited: set<seq<Dir>>) {
    forall i :: 0 <= i < |path| && path[i] == L ==> Fresh(visited, path[..i] + [R])
  }

  /** An ancestor left through its right child is done with its left subtree. */
  ghost predicate RightReady(root: Tree, path: seq<Dir>, visited: set<seq<Dir>>) {
    forall i :: 0 <= i < |path| && path[i] == R ==> LeftDone(Subtree(root, path[..i]), path[..i], visited)
  }

  /** The values emitted plus those still owed make up the whole post-order. */
  ghost predicate Accounts(root: Tree, path: seq<Dir>, visited: set<seq<Dir>>, result: seq<int>) {
    result + TopRest(Subtree(root, path), path, visited) + FramesRest(root, path) == Postorder(root)
  }

  /** The state of the post-order loop with the stack holding the prefixes of `path`. */
  ghost predicate PostInv(root: Tree, path: seq<Dir>, visited: set<seq<Dir>>, result: seq<int>) {
    && Subtree(root, path).Node?
    && PathNodes(root, path)
    && LeftPending(path, visited)
    && RightReady(root, path, visited)
    && TopFresh(Subtree(root, path), path, visited)
    && Accounts(root, path, visited, result)
  }

  lemma PathNodesPush(root: Tree, path: seq<Dir>, d: Dir)
    requires PathNodes(root, path) && Subtree(root, path + [d]).Node?
    ensures PathNodes(root, path + [d])
  {
    var p := path + [d];
    forall i | 0 <= i <= |p| ensures Subtree(root, p[..i]).Node? {
      if i <= |path| {
        assert p[..i] == path[..i];
      } else {
        assert p[..i] == p;
      }
    }
  }

  lemma PathNodesPop(root: Tree, path: seq<Dir>)
    requires PathNodes(root, path) && path != []
    ensures PathNodes(root, path[..|path| - 1]) && Subtree(root, path[..|path| - 1]).Node?
  {
    var q := path[..|path| - 1];
    forall i | 0 <= i <= |q| ensures Subtree(root, q[..i]).Node? {
      assert q[..i] == path[..i];
    }
    assert q[..|q|] == q;
  }

  lemma LeftPendingPush(path: seq<Dir>, visited: set<seq<Dir>>, d: Dir)
    requires LeftPending(path, visited)
    requires d == L ==> Fresh(visited, path + [R])
    ensures LeftPending(path + [d], visited)
  {
    var p := path + [d];
    forall i | 0 <= i < |p| && p[i] == L ensures Fresh(visited, p[..i] + [R]) {
      if i < |path| {
        assert p[..i] == path[..i];
      } else {
        assert p[..i] == path;
      }
    }
  }

  lemma LeftPendingPop(path: seq<Dir>, visited: set<seq<Dir>>)
    requires LeftPending(path, visited) && path != []
    ensures LeftPending(path[..|path| - 1], visited + {path})
  {
    var q := path[..|path| - 1];
    forall i | 0 <= i < |q| && q[i] == L ensures Fresh(visited + {path}, q[..i] + [R]) {
      assert q[..i] == path[..i];
      assert path[..i + 1] == path[..i] + [L];
      assert Fresh(visited, path[..i] + [R]);
    }
  }

  lemma RightReadyPush(root: Tree, path: seq<Dir>, visited: set<seq<Dir>>, d: Dir)
    requires RightReady(root, path, visited)
    requires d == R ==> LeftDone(Subtree(root, path), path, visited)
    ensures RightReady(root, path + [d], visited)
  {
    var p := path + [d];
    forall i | 0 <= i < |p| && p[i] == R ensures LeftDone(Subtree(root, p[..i]), p[..i], visited) {
      if i < |path| {
        assert p[..i] == path[..i];
      } else {
        assert p[..i] == path;
      }
    }
  }

  lemma RightReadyPop(root: Tree, path: seq<Dir>, visited: set<seq<Dir>>)
    requires RightReady(root, path, visited) && path != []
    ensures RightReady(root, path[..|path| - 1], visited + {path})
  {
    var q := path[..|path| - 1];
    forall i | 0 <= i < |q| && q[i] == R ensures LeftDone(Subtree(root, q[..i]), q[..i], visited + {path}) {
      assert q[..i] == path[..i];
    }
  }

  /** A fresh subtree still emits its whole post-order. */
  lemma TopRestFresh(n: Tree, p: seq<Dir>, visited: set<seq<Dir>>)
    requires n.Node? && Fresh(visited, p)
    ensures TopRest(n, p, visited) == Postorder(n) && TopFresh(n, p, visited)
  {
    FreshExtend(visited, p, L);
    FreshExtend(visited, p, R);
    if n.left.Nil? {
      EmptyAppend(Postorder(n.right));
    }
  }

  lemma {:induction false} FramesLength(root: Tree, p: seq<Dir>)
    requires PathNodes(root, p)
    ensures |FramesRest(root, p)| >= |p|
  {
    if p != [] {
      PathNodesPop(root, p);
      FramesLength(root, p[..|p| - 1]);
    }
  }

  /** The stack never holds more positions than values remain to be emitted. */
  lemma PostBound(root: Tree, path: seq<Dir>, visited: set<seq<Dir>>, result: seq<int>)
    requires PostInv(root, path, visited, result)
    ensures |path| + 1 <= |Postorder(root)| - |result|
  {
    FramesLength(root, path);
  }

  lemma PostStart(root: Tree)
    requires root.Node?
    ensures PostInv(root, [], {}, [])
  {
    var empty: seq<Dir> := [];
    assert forall i :: 0 <= i <= 0 ==> empty[..i] == [];
    TopRestFresh(root, [], {});
  }

  lemma PushLeft(root: Tree, path: seq<Dir>, visited: set<seq<Dir>>, result: seq<int>)
    requires PostInv(root, path, visited, result)
    requires !LeftDone(Subtree(root, path), path, visited)
    ensures PostInv(root, path + [L], visited, result)
  {
    var n := Subtree(root, path);
    var p := path + [L];
    FramesPush(root, path, L);
    PathNodesPush(root, path, L);
    LeftPendingPush(path, visited, L);
    RightReadyPush(root, path, visited, L);
    TopRestFresh(n.left, p, visited);
    Regroup(result, Postorder(n.left), Postorder(n.right), [n.value], FramesRest(root, path));
  }

  lemma PushRight(root: Tree, path: seq<Dir>, visited: set<seq<Dir>>, result: seq<int>)
    requires PostInv(root, path, visited, result)
    requires LeftDone(Subtree(root, path), path, visited) && !RightDone(Subtree(root, path), path, visited)
    ensures PostInv(root, path + [R], visited, result)
  {
    var n := Subtree(root, path);
    var p := path + [R];
    FramesPush(root, path, R);
    PathNodesPush(root, path, R);
    LeftPendingPush(path, visited, R);
    RightReadyPush(root, path, visited, R);
    TopRestFresh(n.right, p, visited);
    Regroup3(result, Postorder(n.right), [n.value], FramesRest(root, path));
  }

  /** Once its child in direction d is emitted, the parent's remaining work is that frame's. */
  lemma EmitTop(m: Tree, q: seq<Dir>, d: Dir, visited: set<seq<Dir>>)
    requires m.Node?
    requires d == L ==> Fresh(visited, q + [R])
    requires d == R ==> LeftDone(m, q, visited)
    ensures TopFresh(m, q, visited + {q + [d]})
    ensures TopRest(m, q, visited + {q + [d]}) == FrameRest(m, d)
  {
    var visited' := visited + {q + [d]};
    if d == L {
      FreshExtend(visited, q + [R], L);
      assert !IsPrefix(q + [R], q + [L]) by {
        assert (q + [L])[|q|] == L && (q + [R])[|q|] == R;
      }
      assert Fresh(visited', q + [R]);
    }
  }

  /** After the top is emitted, its parent is the new top, with the frame it was waiting on. */
  lemma EmitParent(root: Tree, path: seq<Dir>, visited: set<seq<Dir>>)
    requires path != [] && PathNodes(root, path)
    requires LeftPending(path, visited) && RightReady(root, path, visited)
    ensures var q := path[..|path| - 1];
      && Subtree(root, q).Node?
      && TopFresh(Subtree(root, q), q, visited + {path})
      && TopRest(Subtree(root, q), q, visited + {path}) == FrameRest(Subtree(root, q), path[|path| - 1])
  {
    var q, d := path[..|path| - 1], path[|path| - 1];
    PathNodesPop(root, path);
    assert path == q + [d];
    assert path[|q|] == d && path[..|q|] == q;
    EmitTop(Subtree(root, q), q, d, visited);
  }

  lemma EmitAccounts(root: Tree, path: seq<Dir>, visited: set<seq<Dir>>, result: seq<int>)
    requires path != [] && Subtree(root, path[..|path| - 1]).Node?
    requires var n := Subtree(root, path);
      n.Node? && LeftDone(n, path, visited) && RightDone(n, path, visited)
    requires Accounts(root, path, visited, result)
    requires var q := path[..|path| - 1];
      TopRest(Subtree(root, q), q, visited + {path}) == FrameRest(Subtree(root, q), path[|path| - 1])
    ensures Accounts(root, path[..|path| - 1], visited + {path}, result + [Subtree(root, path).value])
  {
    var q, d := path[..|path| - 1], path[|path| - 1];
    assert path == q + [d];
    FramesPush(root, q, d);
    Assoc(result + [Subtree(root, path).value], FrameRest(Subtree(root, q), d), FramesRest(root, q));
  }

  lemma Emit(root: Tree, path: seq<Dir>, visited: set<seq<Dir>>, result: seq<int>)
    requires PostInv(root, path, visited, result) && path != []
    requires LeftDone(Subtree(root, path), path, visited) && RightDone(Subtree(root, path), path, visited)
    ensures PostInv(root, path[..|path| - 1], visited + {path}, result + [Subtree(root, path).value])
  {
    PathNodesPop(root, path);
    LeftPendingPop(path, visited);
    RightReadyPop(root, path, visited);
    EmitParent(root, path, visited);
    EmitAccounts(root, path, visited, result);
  }

  lemma EmitRoot(root: Tree, visited: set<seq<Dir>>, result: seq<int>)
    requires PostInv(root, [], visited, result)
    requires LeftDone(root, [], visited) && RightDone(root, [], visited)
    ensures result + [root.value] == Postorder(root)
  {
  }

  /** The position one step up; the root has none and stays put. */
  function Parent(p: seq<Dir>): seq<Dir> {
    if p == [] then [] else p[..|p| - 1]
  }

  /** The loop state: the stack is the root-to-top path, which PostInv describes; once empty, all is emitted. */
  ghost predicate PostLoop(root: Tree, stack: seq<seq<Dir>>, path: seq<Dir>, visited: set<seq<Dir>>, result: seq<int>) {
    && |stack| <= |Postorder(root)| - |result|
    && (stack == [] ==> result == Postorder(root))
    && (stack != [] ==> stack == Prefixes(path) && PostInv(root, path, visited, result))
  }

  lemma PostLoopLeft(root: Tree, stack: seq<seq<Dir>>, path: seq<Dir>, visited: set<seq<Dir>>, result: seq<int>)
    requires PostLoop(root, stack, path, visited, result) && stack != []
    requires var top := stack[|stack| - 1]; Subtree(root, top).left.Node? && top + [L] !in visited
    ensures PostLoop(root, stack + [stack[|stack| - 1] + [L]], path + [L], visited, result)
  {
    PushLeft(root, path, visited, result);
    PrefixesPush(path, L);
    PostBound(root, path + [L], visited, result);
  }

  lemma PostLoopRight(root: Tree, stack: seq<seq<Dir>>, path: seq<Dir>, visited: set<seq<Dir>>, result: seq<int>)
    requires PostLoop(root, stack, path, visited, result) && stack != []
    requires var top := stack[|stack| - 1];
      !(Subtree(root, top).left.Node? && top + [L] !in visited) && Subtree(root, top).right.Node? && top + [R] !in visited
    ensures PostLoop(root, stack + [stack[|stack| - 1] + [R]], path + [R], visited, result)
  {
    PushRight(root, path, visited, result);
    PrefixesPush(path, R);
    PostBound(root, path + [R], visited, result);
  }

  lemma PostLoopEmit(root: Tree, stack: seq<seq<Dir>>, path: seq<Dir>, visited: set<seq<Dir>>, result: seq<int>)
    requires PostLoop(root, stack, path, visited, result) && stack != []
    requires var top := stack[|stack| - 1];
      && !(Subtree(root, top).left.Node? && top + [L] !in visited)
      && !(Subtree(root, top).right.Node? && top + [R] !in visited)
    ensures var top := stack[|stack| - 1];
      PostLoop(root, stack[..|stack| - 1], Parent(path), visited + {top}, result + [Subtree(root, top).value])
  {
    if |stack| > 1 {
      Emit(root, path, visited, result);
      PrefixesPop(path);
      PostBound(root, path[..|path| - 1], visited + {path}, result + [Subtree(root, path).value]);
    } else {
      EmitRoot(root, visited, result);
    }
  }

  /**
   * Looks at the top of the stack: enters an unvisited left child, else an
   * unvisited right child, else emits the node, marks it visited and pops it.
   * Stack entries and visited marks are positions, standing for node identity.
   */
  method IterativePostorder(root: Tree) returns (result: seq<int>)
    ensures result == Postorder(root)
  {
    if root.Nil? {
      return [];
    }
    result := [];
    var stack: seq<seq<Dir>> := [[]];
    var visited: set<seq<Dir>> := {};
    ghost var path: seq<Dir> := [];
    PostStart(root);
    PostBound(root, path, visited, result);
    while stack != []
      invariant PostLoop(root, stack, path, visited, result)
      decreases 2 * (|Postorder(root)| - |result|) - |stack|
    {
      var current := stack[|stack| - 1];
      var node := Subtree(root, current);
      if node.left.Node? && current + [L] !in visited {
        PostLoopLeft(root, stack, path, visited, result);
        stack := stack + [current + [L]];
        path := path + [L];
      } else if node.right.Node? && current + [R] !in visited {
        PostLoopRight(root, stack, path, visited, result);
        stack := stack + [current + [R]];
        path := path + [R];
      } else {
        PostLoopEmit(root, stack, path, visited, result);
        result := result + [node.value];
        visited := visited + {current};
        stack := stack[..|stack| - 1];
        path := Parent(path);
      }
    }
  }
}
