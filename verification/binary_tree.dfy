/**
 * The binary tree of `TreeNode` objects used by lab03 and lab06, as a value,
 * with the recursive traversals and folds over it.
 */
module BinaryTree {
  import opened Common

  /** `Nil` is Python's `None`; a node has a value and two children. */
  datatype Tree = Nil | Node(left: Tree, value: int, right: Tree)

  /** Which child to follow from a node. */
  datatype Dir = L | R

  /** The subtree at the end of `path`; `Nil` once the path leaves the tree. */
  function Subtree(t: Tree, path: seq<Dir>): Tree {
    if path == [] then t
    else if t.Nil? then Nil
    else Subtree(if path[0] == L then t.left else t.right, path[1..])
  }

  lemma {:induction false} SubtreeAppend(t: Tree, path: seq<Dir>, d: Dir)
    requires Subtree(t, path).Node?
    ensures Subtree(t, path + [d]) == if d == L then Subtree(t, path).left else Subtree(t, path).right
  {
    if path != [] {
      assert (path + [d])[1..] == path[1..] + [d];
      SubtreeAppend(if path[0] == L then t.left else t.right, path[1..], d);
    }
  }

  function Count(t: Tree): (n: nat) {
    if t.Nil? then 0 else 1 + Count(t.left) + Count(t.right)
  }

  /** Root, then left subtree, then right subtree. */
  function Preorder(t: Tree): (r: seq<int>)
    ensures |r| == Count(t)
  {
    if t.Nil? then [] else [t.value] + Preorder(t.left) + Preorder(t.right)
  }

  /** Left subtree, then root, then right subtree. */
  function Inorder(t: Tree): (r: seq<int>)
    ensures |r| == Count(t)
  {
    if t.Nil? then [] else Inorder(t.left) + [t.value] + Inorder(t.right)
  }

  /** Left subtree, then right subtree, then root. */
  function Postorder(t: Tree): (r: seq<int>)
    ensures |r| == Count(t)
  {
    if t.Nil? then [] else Postorder(t.left) + Postorder(t.right) + [t.value]
  }

  /** Pre-order lists the root first, post-order last, in-order between the two subtrees. */
  lemma RootPositions(t: Tree)
    requires t.Node?
    ensures Preorder(t)[0] == t.value
    ensures Postorder(t)[|Postorder(t)| - 1] == t.value
    ensures Inorder(t)[Count(t.left)] == t.value
  {
  }

  /** The multiset of values held by the tree. */
  function Values(t: Tree): multiset<int> {
    if t.Nil? then multiset{} else Values(t.left) + multiset{t.value} + Values(t.right)
  }

  /** count_nodes counts one per node, so as many as the tree holds values. */
  lemma {:induction false} CountValues(t: Tree)
    ensures Count(t) == |Values(t)|
  {
    if t.Node? {
      CountValues(t.left);
      CountValues(t.right);
    }
  }

  /** 0 for the empty tree, otherwise one more than the taller child. */
  function Height(t: Tree): (r: nat)
    ensures r == 0 <==> t.Nil?
  {
    if t.Nil? then 0 else 1 + Max(Height(t.left), Height(t.right))
  }

  /** A tree of height h has between h and 2^h - 1 nodes. */
  lemma {:induction false} HeightBounds(t: Tree)
    ensures Height(t) <= Count(t) < Pow2(Height(t))
  {
    if t.Node? {
      HeightBounds(t.left);
      HeightBounds(t.right);
      var h := Max(Height(t.left), Height(t.right));
      Pow2Monotone(Height(t.left), h);
      Pow2Monotone(Height(t.right), h);
    }
  }

  /** Each traversal lists every value exactly as often as the tree holds it. */
  lemma {:induction false} PreorderValues(t: Tree)
    ensures multiset(Preorder(t)) == Values(t)
  {
    if t.Node? {
      PreorderValues(t.left);
      PreorderValues(t.right);
      assert Preorder(t) == [t.value] + Preorder(t.left) + Preorder(t.right);
    }
  }

  lemma {:induction false} InorderValues(t: Tree)
    ensures multiset(Inorder(t)) == Values(t)
  {
    if t.Node? {
      InorderValues(t.left);
      InorderValues(t.right);
      assert Inorder(t) == Inorder(t.left) + [t.value] + Inorder(t.right);
    }
  }

  lemma {:induction false} PostorderValues(t: Tree)
    ensures multiset(Postorder(t)) == Values(t)
  {
    if t.Node? {
      PostorderValues(t.left);
      PostorderValues(t.right);
      assert Postorder(t) == Postorder(t.left) + Postorder(t.right) + [t.value];
    }
  }

  /** The sum of all values, i.e. of any traversal. */
  function SumValues(t: Tree): (r: int)
    ensures r == Sum(Inorder(t))
  {
    if t.Nil? then 0
    else
      SumAppend(Inorder(t.left) + [t.value], Inorder(t.right));
      SumAppend(Inorder(t.left), [t.value]);
      assert Sum([t.value]) == t.value by {
        assert [t.value][..0] == [];
      }
      t.value + SumValues(t.left) + SumValues(t.right)
  }
}
