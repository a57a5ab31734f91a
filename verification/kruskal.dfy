/**
 * Kruskal's minimum spanning tree from lab08: the edges are sorted by weight
 * in place and accepted in that order whenever the union-find structure over
 * the `parent` list says their ends lie in different components.
 */
module Kruskal {
  import opened Common

  /** An edge (u, v, weight). */
  type Edge = (int, int, int)

  function Weight(e: Edge): int { e.2 }

  /** Both ends of every edge are vertices 0 .. n - 1. */
  predicate InRange(n: int, es: seq<Edge>) {
    forall k :: 0 <= k < |es| ==> 0 <= es[k].0 < n && 0 <= es[k].1 < n
  }

  // ------------------------------------------------------- reference partition

  /** The labels l with every label `from` replaced by `to`. */
  function Relabel(l: seq<int>, from: int, to: int): (r: seq<int>)
    ensures |r| == |l|
    ensures forall z :: 0 <= z < |l| ==> r[z] == (if l[z] == from then to else l[z])
  {
    seq(|l|, z requires 0 <= z < |l| => if l[z] == from then to else l[z])
  }

  /**
   * The component label of every vertex after the edges es are merged in
   * order: an edge whose ends carry different labels gives the class of its
   * second end the label of its first.
   */
  function Labels(n: nat, es: seq<Edge>): (r: seq<int>)
    requires InRange(n, es)
    ensures |r| == n && forall z :: 0 <= z < n ==> 0 <= r[z] < n
  {
    if es == [] then seq(n, z requires 0 <= z < n => z)
    else
      var l := Labels(n, es[..|es| - 1]);
      var e := es[|es| - 1];
      if l[e.0] != l[e.1] then Relabel(l, l[e.1], l[e.0]) else l
  }

  /** Every edge joins two components of the edges before it: the edges form no cycle. */
  ghost predicate Forest(n: nat, es: seq<Edge>)
    requires InRange(n, es)
  {
    forall i :: 0 <= i < |es| ==> Labels(n, es[..i])[es[i].0] != Labels(n, es[..i])[es[i].1]
  }

  /** Appending an edge between two components keeps a forest and merges their labels. */
  lemma ForestSnoc(n: nat, es: seq<Edge>, e: Edge)
    requires InRange(n, es) && Forest(n, es) && 0 <= e.0 < n && 0 <= e.1 < n
    requires Labels(n, es)[e.0] != Labels(n, es)[e.1]
    ensures InRange(n, es + [e]) && Forest(n, es + [e])
    ensures Labels(n, es + [e]) == Relabel(Labels(n, es), Labels(n, es)[e.1], Labels(n, es)[e.0])
  {
    var es' := es + [e];
    assert es'[..|es|] == es;
    forall i | 0 <= i < |es'|
      ensures Labels(n, es'[..i])[es'[i].0] != Labels(n, es'[..i])[es'[i].1]
    {
      if i < |es| {
        assert es'[..i] == es[..i];
      }
    }
  }

  /** The labels in use: one per component. */
  function Classes(l: seq<int>): (c: set<int>)
    ensures forall z :: 0 <= z < |l| ==> l[z] in c
    ensures forall x :: x in c ==> exists z :: 0 <= z < |l| && l[z] == x
  {
    set z | 0 <= z < |l| :: l[z]
  }

  /** One more vertex adds its label to the labels in use. */
  lemma ClassesSnoc(l: seq<int>, x: int)
    ensures Classes(l + [x]) == Classes(l) + {x}
  {
    var l' := l + [x];
    assert l'[|l|] == x;
    forall y | y in Classes(l) ensures y in Classes(l') {
      var z :| 0 <= z < |l| && l[z] == y;
      assert l'[z] == y;
    }
  }

  /** Before any edge, each of the n vertices is a component of its own. */
  lemma {:induction false} ClassesInit(n: nat)
    ensures |Classes(seq(n, z requires 0 <= z < n => z))| == n
  {
    if n > 0 {
      var l := seq(n - 1, z requires 0 <= z < n - 1 => z);
      ClassesInit(n - 1);
      assert seq(n, z requires 0 <= z < n => z) == l + [n - 1];
      ClassesSnoc(l, n - 1);
      assert n - 1 !in Classes(l);
    }
  }

  /** Relabelling one class with the label of another removes one label. */
  lemma ClassesRelabel(l: seq<int>, from: int, to: int)
    requires from in Classes(l) && to in Classes(l) && from != to
    ensures Classes(Relabel(l, from, to)) == Classes(l) - {from}
  {
    var l' := Relabel(l, from, to);
    forall y | y in Classes(l) - {from} ensures y in Classes(l') {
      var z :| 0 <= z < |l| && l[z] == y;
      if y == to {
        assert l'[z] == to;
      } else {
        assert l'[z] == y;
      }
    }
  }

  /** A forest of k edges over n vertices leaves n - k components. */
  lemma {:induction false} ForestClasses(n: nat, es: seq<Edge>)
    requires InRange(n, es) && Forest(n, es)
    ensures |Classes(Labels(n, es))| == n - |es|
  {
    if es == [] {
      ClassesInit(n);
    } else {
      var m := |es| - 1;
      var front, e := es[..m], es[m];
      assert forall i :: 0 <= i < m ==> front[..i] == es[..i];
      ForestClasses(n, front);
      var l := Labels(n, front);
      ClassesRelabel(l, l[e.1], l[e.0]);
    }
  }

  /** With a single component left, every two vertices share a label. */
  lemma OneClass(l: seq<int>, a: int, b: int)
    requires |Classes(l)| == 1 && 0 <= a < |l| && 0 <= b < |l|
    ensures l[a] == l[b]
  {
    if l[a] != l[b] {
      SubsetCard({l[a], l[b]}, Classes(l));
    }
  }

  // ------------------------------------------------------------ parent forest

  /**
   * The parent list is a forest whose roots are named by `root`: every
   * parent step stays in the same tree and strictly lowers `rank`, so
   * following parents ends at the root.
   */
  ghost predicate ValidForest(p: seq<int>, root: seq<int>, rank: seq<nat>) {
    |root| == |p| && |rank| == |p| &&
    forall x :: 0 <= x < |p| ==> ValidAt(p, root, rank, x)
  }

  /** The forest conditions at vertex x. */
  ghost predicate ValidAt(p: seq<int>, root: seq<int>, rank: seq<nat>, x: int)
    requires |root| == |p| && |rank| == |p| && 0 <= x < |p|
  {
    0 <= p[x] < |p| && 0 <= root[x] < |p| &&
    root[root[x]] == root[x] && p[root[x]] == root[x] && root[p[x]] == root[x] &&
    (p[x] == x ==> root[x] == x) &&
    (p[x] != x ==> rank[p[x]] < rank[x]) &&
    (root[x] != x ==> rank[root[x]] < rank[x])
  }

  /** Pointing x straight at its root keeps the forest and every root. */
  lemma CompressValid(p: seq<int>, root: seq<int>, rank: seq<nat>, x: int)
    requires ValidForest(p, root, rank) && 0 <= x < |p|
    ensures ValidForest(p[x := root[x]], root, rank)
  {
    var p' := p[x := root[x]];
    forall y | 0 <= y < |p| ensures ValidAt(p', root, rank, y) {
      assert ValidAt(p, root, rank, y) && ValidAt(p, root, rank, x);
    }
  }

  /** The ranks with the whole tree of ry raised by d. */
  function Raise(root: seq<int>, rank: seq<nat>, ry: int, d: nat): (r: seq<nat>)
    requires |root| == |rank|
    ensures |r| == |rank|
    ensures forall z :: 0 <= z < |rank| ==> r[z] == (if root[z] == ry then rank[z] + d else rank[z])
  {
    seq(|rank|, z requires 0 <= z < |rank| => if root[z] == ry then rank[z] + d else rank[z])
  }

  /** Hanging root ry below root rx keeps a forest in which ry's tree now has root rx. */
  lemma LinkValid(p: seq<int>, root: seq<int>, rank: seq<nat>, rx: int, ry: int)
    requires ValidForest(p, root, rank) && 0 <= rx < |p| && 0 <= ry < |p|
    requires root[rx] == rx && root[ry] == ry && rx != ry
    ensures ValidForest(p[ry := rx], Relabel(root, ry, rx), Raise(root, rank, ry, rank[rx] + 1))
  {
    var p', root', rank' := p[ry := rx], Relabel(root, ry, rx), Raise(root, rank, ry, rank[rx] + 1);
    forall x | 0 <= x < |p|
      ensures ValidAt(p', root', rank', x)
    {
      assert ValidAt(p, root, rank, x) && ValidAt(p, root, rank, rx) && ValidAt(p, root, rank, ry);
      assert ValidAt(p, root, rank, p[x]) && ValidAt(p, root, rank, root[x]);
      if root[x] == ry {
        assert root'[x] == rx && root'[rx] == rx && p'[rx] == rx;
        if x != ry {
          assert p'[x] == p[x] && root[p[x]] == ry;
        }
      } else {
        assert root[root[x]] != ry && root[p[x]] != ry;
        assert x != ry;
      }
    }
  }

  /** The `parent` list together with find and union, which close over it. */
  class DisjointSet {
    const parent: array<int>
    /** The root every vertex leads to, and a measure that parent steps lower. */
    ghost var root: seq<int>
    ghost var rank: seq<nat>

    ghost predicate Valid()
      reads this, parent
    {
      ValidForest(parent[..], root, rank)
    }

    /** `parent = list(range(vertices))`: every vertex alone. */
    constructor (vertices: nat)
      ensures Valid() && fresh(parent) && parent.Length == vertices
      ensures root == seq(vertices, z requires 0 <= z < vertices => z)
    {
      parent := new int[vertices](z => z);
      root := seq(vertices, z requires 0 <= z < vertices => z);
      rank := seq(vertices, z requires 0 <= z < vertices => 0);
    }

    /** `find` with path compression: the root of x, which afterwards is x's parent. */
    method Find(x: int) returns (r: int)
      requires Valid() && 0 <= x < parent.Length
      modifies parent
      ensures Valid() && r == root[x]
      ensures parent[x] == root[x]
      decreases rank[x]
    {
      assert ValidAt(parent[..], root, rank, x);
      if parent[x] != x {
        var px := parent[x];
        var top := Find(px);
        ghost var before := parent[..];
        CompressValid(before, root, rank, x);
        parent[x] := top;
        assert parent[..] == before[x := root[x]];
      }
      r := parent[x];
    }

    /** `union`: true, after hanging y's root below x's, exactly when the roots differed. */
    method Union(x: int, y: int) returns (merged: bool)
      requires Valid() && 0 <= x < parent.Length && 0 <= y < parent.Length
      modifies this, parent
      ensures Valid()
      ensures merged <==> old(root[x] != root[y])
      ensures root == if merged then Relabel(old(root), old(root[y]), old(root[x])) else old(root)
    {
      var rootX := Find(x);
      var rootY := Find(y);
      assert ValidAt(parent[..], root, rank, x) && ValidAt(parent[..], root, rank, y);
      if rootX != rootY {
        ghost var before := parent[..];
        LinkValid(before, root, rank, rootX, rootY);
        parent[rootY] := rootX;
        assert parent[..] == before[rootY := rootX];
        root, rank := Relabel(root, rootY, rootX), Raise(root, rank, rootY, rank[rootX] + 1);
        return true;
      }
      return false;
    }
  }

  // ------------------------------------------------------------------ kruskal

  /**
   * `kruskal_mst`: sorts the caller's edge list by weight, then accepts each
   * edge whose union succeeds, stopping once vertices - 1 edges are accepted.
   */
  method KruskalMst(vertices: nat, edges: array<Edge>) returns (mst: seq<Edge>)
    requires InRange(vertices, edges[..])
    modifies edges
    ensures edges[..] == SortByKey(old(edges[..]), Weight)
    ensures Accepted(edges[..], |edges[..]|, mst)
    ensures |mst| <= if vertices == 0 then 0 else vertices - 1
    ensures InRange(vertices, mst) && Forest(vertices, mst)
    ensures InRange(vertices, edges[..]) && Spanning(vertices, edges[..], edges.Length, mst)
  {
    var sorted := SortByKey(edges[..], Weight);
    RangePerm(vertices, edges[..], sorted);
    SortByKeySorted(edges[..], Weight);
    Overwrite(edges, sorted);
    mst := AcceptInOrder(vertices, sorted);
  }

  /** The union-find roots are the labels of the accepted edges, which form a forest. */
  ghost predicate Merged(n: nat, mst: seq<Edge>, root: seq<int>) {
    InRange(n, mst) && Forest(n, mst) && root == Labels(n, mst)
  }

  lemma MergeStep(n: nat, mst: seq<Edge>, root: seq<int>, e: Edge)
    requires Merged(n, mst, root) && 0 <= e.0 < n && 0 <= e.1 < n && root[e.0] != root[e.1]
    ensures Merged(n, mst + [e], Relabel(root, root[e.1], root[e.0]))
  {
    ForestSnoc(n, mst, e);
  }

  /** The accepted edges come from sorted, in order of weight, none heavier than sorted[i]. */
  ghost predicate Accepted(sorted: seq<Edge>, i: int, mst: seq<Edge>) {
    (forall e :: e in mst ==> e in sorted) && SortedBy(mst, Weight) &&
    (mst != [] && 0 <= i < |sorted| ==> Weight(mst[|mst| - 1]) <= Weight(sorted[i]))
  }

  /** Accepting sorted[i], or skipping it, keeps Accepted for the next position. */
  lemma AcceptStep(sorted: seq<Edge>, i: int, mst: seq<Edge>, take: bool)
    requires SortedBy(sorted, Weight) && 0 <= i < |sorted| && Accepted(sorted, i, mst)
    ensures Accepted(sorted, i + 1, if take then mst + [sorted[i]] else mst)
  {
    if take {
      var m := mst + [sorted[i]];
      forall a, b | 0 <= a < b < |m| ensures Weight(m[a]) <= Weight(m[b]) {
        if b == |mst| && a < |mst| {
          assert Weight(m[a]) <= Weight(mst[|mst| - 1]);
        }
      }
    }
  }

  /** One pass of the loop: union's answer on sorted[i] decides whether the edge is accepted. */
  lemma TryStep(n: nat, sorted: seq<Edge>, i: int, mst: seq<Edge>, before: seq<int>, after: seq<int>, merged: bool)
    requires InRange(n, sorted) && SortedBy(sorted, Weight) && 0 <= i < |sorted|
    requires Accepted(sorted, i, mst) && Merged(n, mst, before)
    requires merged <==> before[sorted[i].0] != before[sorted[i].1]
    requires after == if merged then Relabel(before, before[sorted[i].1], before[sorted[i].0]) else before
    ensures Accepted(sorted, i + 1, if merged then mst + [sorted[i]] else mst)
    ensures Merged(n, if merged then mst + [sorted[i]] else mst, after)
  {
    AcceptStep(sorted, i, mst, merged);
    if merged {
      MergeStep(n, mst, before, sorted[i]);
    }
  }

  /** The loop of kruskal_mst over edges already sorted by weight. */
  method AcceptInOrder(vertices: nat, sorted: seq<Edge>) returns (mst: seq<Edge>)
    requires InRange(vertices, sorted) && SortedBy(sorted, Weight)
    ensures Accepted(sorted, |sorted|, mst) && InRange(vertices, mst) && Forest(vertices, mst)
    ensures |mst| <= if vertices == 0 then 0 else vertices - 1
    ensures Spanning(vertices, sorted, |sorted|, mst)
  {
    var ds := new DisjointSet(vertices);
    mst := [];
    for i := 0 to |sorted|
      invariant ds.Valid() && ds.parent.Length == vertices
      invariant Accepted(sorted, i, mst) && Merged(vertices, mst, ds.root)
      invariant vertices <= 1 ==> mst == []
      invariant vertices >= 2 ==> |mst| < vertices - 1
      invariant Spanning(vertices, sorted, i, mst)
    {
      ghost var before := ds.root;
      var merged := ds.Union(sorted[i].0, sorted[i].1);
      TryStep(vertices, sorted, i, mst, before, ds.root, merged);
      SpanStep(vertices, sorted, i, mst, before, ds.root, merged);
      if merged {
        mst := mst + [sorted[i]];
      }
      if |mst| == vertices - 1 {
        Complete(vertices, sorted, mst);
        break;
      }
    }
  }

  /** Union leaves sorted[i] inside one component, and merging never splits the components of earlier edges. */
  lemma SpanStep(n: nat, sorted: seq<Edge>, i: int, mst: seq<Edge>, before: seq<int>, after: seq<int>, merged: bool)
    requires InRange(n, sorted) && 0 <= i < |sorted| && InRange(n, mst) && before == Labels(n, mst)
    requires merged <==> before[sorted[i].0] != before[sorted[i].1]
    requires after == if merged then Relabel(before, before[sorted[i].1], before[sorted[i].0]) else before
    requires merged ==> after == Labels(n, mst + [sorted[i]]) && InRange(n, mst + [sorted[i]])
    requires Spanning(n, sorted, i, mst)
    ensures InRange(n, if merged then mst + [sorted[i]] else mst)
    ensures Spanning(n, sorted, i + 1, if merged then mst + [sorted[i]] else mst)
  {
    var m := if merged then mst + [sorted[i]] else mst;
    forall k | 0 <= k < i + 1 && k < |sorted| ensures Labels(n, m)[sorted[k].0] == Labels(n, m)[sorted[k].1] {
      assert before[sorted[k].0] == before[sorted[k].1] ==> after[sorted[k].0] == after[sorted[k].1];
    }
  }

  /** Every one of the first i edges ends up inside one component of mst. */
  ghost predicate Spanning(n: nat, sorted: seq<Edge>, i: int, mst: seq<Edge>)
    requires InRange(n, sorted) && InRange(n, mst)
  {
    forall k :: 0 <= k < i && k < |sorted| ==> Labels(n, mst)[sorted[k].0] == Labels(n, mst)[sorted[k].1]
  }

  /** A forest of n - 1 edges leaves one component, which holds every edge. */
  lemma Complete(n: nat, sorted: seq<Edge>, mst: seq<Edge>)
    requires InRange(n, sorted) && InRange(n, mst) && Forest(n, mst) && |mst| == n - 1
    ensures Spanning(n, sorted, |sorted|, mst)
  {
    ForestClasses(n, mst);
    forall k | 0 <= k < |sorted| ensures Labels(n, mst)[sorted[k].0] == Labels(n, mst)[sorted[k].1] {
      OneClass(Labels(n, mst), sorted[k].0, sorted[k].1);
    }
  }

  /** Reordering the edges keeps them in range. */
  lemma RangePerm(n: int, s: seq<Edge>, t: seq<Edge>)
    requires InRange(n, s) && multiset(t) == multiset(s)
    ensures InRange(n, t)
  {
    forall k | 0 <= k < |t| ensures 0 <= t[k].0 < n && 0 <= t[k].1 < n {
      assert t[k] in multiset(s);
      var j :| 0 <= j < |s| && s[j] == t[k];
    }
  }
}
