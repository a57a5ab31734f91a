/**
 * `topological_sort` of lab10 (Kahn's algorithm). In general the result is
 * [] or an order of all vertices in which every edge goes forward; on the
 * undirected graphs an AdjacencyList holds, that pins it down completely:
 * 0 .. V - 1 when there is no edge at all, [] as soon as there is one.
 */
module TopoSort {
  import opened Common
  import opened GraphRepresentation
  import opened GraphTraversal
  import opened Components

  /** `list(range(n))`. */
  function Range(n: nat): (r: seq<int>)
    ensures |r| == n && forall i :: 0 <= i < n ==> r[i] == i
  {
    seq(n, i => i)
  }

  /** The vertices below n. */
  ghost function Lower(n: nat): (L: set<int>)
    ensures forall u :: u in L <==> 0 <= u < n
  {
    if n == 0 then {} else Lower(n - 1) + {n - 1}
  }

  /** The vertices of U with an edge into v. */
  ghost function Into(G: Graph, v: int, U: set<int>): set<int> {
    set u | u in U && 0 <= u < |G| && v in G[u]
  }

  /** The vertices not yet output. */
  ghost function Pending(G: Graph, r: seq<int>): set<int> {
    set v | 0 <= v < |G| && v !in r
  }

  ghost predicate NoEdges(G: Graph) {
    forall u, v :: 0 <= u < |G| ==> v !in G[u]
  }

  /** Every edge u -> v ends at a vertex listed after u. */
  ghost predicate EdgesForward(G: Graph, r: seq<int>) {
    forall i, u :: 0 <= i < |r| && 0 <= u < |G| && r[i] in G[u] ==> u in r[..i]
  }

  /** Every vertex exactly once, every edge forward. */
  ghost predicate TopologicalOrder(G: Graph, r: seq<int>) {
    |r| == |G| && Distinct(r) && (forall v :: v in r <==> 0 <= v < |G|) && EdgesForward(G, r)
  }

  /** What topological_sort returns: [] or a topological order, and 0 .. V - 1 on a graph without edges. */
  ghost predicate TopoResult(G: Graph, r: seq<int>) {
    (r == [] || TopologicalOrder(G, r)) && (NoEdges(G) ==> r == Range(|G|))
  }

  /** The indices below n whose in-degree is 0, ascending. */
  function ZeroBelow(d: seq<int>, n: nat): (r: seq<int>)
    requires n <= |d|
    ensures forall t :: 0 <= t < |r| ==> 0 <= r[t] < n && d[r[t]] == 0
    ensures forall i :: 0 <= i < n && d[i] == 0 ==> i in r
    ensures forall s, t :: 0 <= s < t < |r| ==> r[s] < r[t]
  {
    if n == 0 then []
    else
      var r := ZeroBelow(d, n - 1);
      var last := if d[n - 1] == 0 then [n - 1] else [];
      assert forall t :: 0 <= t < |r| ==> (r + last)[t] == r[t];
      assert forall t :: |r| <= t < |r + last| ==> (r + last)[t] == n - 1;
      r + last
  }

  /** `[i for i in range(len(d)) if d[i] == 0]`. */
  function ZeroIn(d: seq<int>): (r: seq<int>)
    ensures forall t :: 0 <= t < |r| ==> 0 <= r[t] < |d| && d[r[t]] == 0
    ensures forall i :: 0 <= i < |d| && d[i] == 0 ==> i in r
    ensures forall s, t :: 0 <= s < t < |r| ==> r[s] < r[t]
  {
    ZeroBelow(d, |d|)
  }

  /** Where every in-degree below n is 0, the indices found are 0 .. n - 1. */
  lemma {:induction false} ZeroBelowAll(d: seq<int>, n: nat)
    requires n <= |d| && forall i :: 0 <= i < n ==> d[i] == 0
    ensures ZeroBelow(d, n) == Range(n)
    decreases n
  {
    if n != 0 {
      ZeroBelowAll(d, n - 1);
      assert Range(n) == Range(n - 1) + [n - 1];
    }
  }

  /** Where every in-degree is 0 the queue starts as 0 .. n - 1. */
  lemma ZeroInAll(d: seq<int>)
    requires forall i :: 0 <= i < |d| ==> d[i] == 0
    ensures ZeroIn(d) == Range(|d|)
  {
    ZeroBelowAll(d, |d|);
  }

  // ---------------------------------------------------------------- counting

  lemma IntoAdd(G: Graph, v: int, U: set<int>, x: int)
    requires x !in U && 0 <= x < |G|
    ensures |Into(G, v, U + {x})| == |Into(G, v, U)| + (if v in G[x] then 1 else 0)
  {
    if v in G[x] {
      assert Into(G, v, U + {x}) == Into(G, v, U) + {x};
    } else {
      assert Into(G, v, U + {x}) == Into(G, v, U);
    }
  }

  /** in_degree once the vertices below i and the first k neighbours of vertex i have been counted. */
  ghost predicate Counting(G: Graph, d: seq<int>, i: int, ns: seq<int>, k: int) {
    WellFormed(G) && |d| == |G| && 0 <= i <= |G| && 0 <= k <= |ns| &&
    forall v :: 0 <= v < |G| ==> d[v] == |Into(G, v, Lower(i))| + (if v in ns[..k] then 1 else 0)
  }

  lemma CountInit(G: Graph, d: seq<int>)
    requires WellFormed(G) && |d| == |G| && forall v :: 0 <= v < |G| ==> d[v] == 0
    ensures Counting(G, d, 0, [], 0)
  {
    forall v | 0 <= v < |G| ensures Into(G, v, Lower(0)) == {} {
    }
  }

  lemma CountStart(G: Graph, d: seq<int>, i: int, ns: seq<int>)
    requires Counting(G, d, i, [], 0)
    ensures Counting(G, d, i, ns, 0)
  {
  }

  lemma CountStep(G: Graph, d: seq<int>, i: int, ns: seq<int>, k: int, y: int, d': seq<int>)
    requires Counting(G, d, i, ns, k) && Distinct(ns) && k < |ns| && y == ns[k] && 0 <= y < |G|
    requires d' == d[y := d[y] + 1]
    ensures Counting(G, d', i, ns, k + 1)
  {
    assert ns[..k + 1] == ns[..k] + [y];
    assert y !in ns[..k];
  }

  /** With all of vertex i's neighbours counted, in_degree counts the edges out of the vertices below i + 1. */
  lemma CountNext(G: Graph, d: seq<int>, i: int, ns: seq<int>)
    requires Counting(G, d, i, ns, |ns|) && Lists(G, i, ns)
    ensures Counting(G, d, i + 1, [], 0)
  {
    assert Lower(i + 1) == Lower(i) + {i};
    assert ns[..|ns|] == ns;
    forall v | 0 <= v < |G| ensures d[v] == |Into(G, v, Lower(i + 1))| {
      IntoAdd(G, v, Lower(i), i);
    }
  }

  // ---------------------------------------------------------------- the queue

  /** Between two dequeues: in_degree counts the edges from pending vertices, and the queue holds the pending vertices at 0. */
  ghost predicate Kahn(G: Graph, d: seq<int>, Q: seq<int>, R: seq<int>) {
    WellFormed(G) && |d| == |G| &&
    Distinct(R + Q) && (forall x :: x in R + Q ==> 0 <= x < |G|) &&
    (forall v :: 0 <= v < |G| ==> d[v] == |Into(G, v, Pending(G, R))|) &&
    (forall v :: 0 <= v < |G| && v !in R ==> (v in Q <==> d[v] == 0)) &&
    EdgesForward(G, R) &&
    (NoEdges(G) ==> R + Q == Range(|G|))
  }

  /** The neighbour loop of x, just output: the edges from x to the first k neighbours are no longer counted. */
  ghost predicate Releasing(G: Graph, d: seq<int>, Q: seq<int>, R: seq<int>, x: int, ns: seq<int>, k: int) {
    WellFormed(G) && |d| == |G| && R != [] && R[|R| - 1] == x && Lists(G, x, ns) && Distinct(ns) && 0 <= k <= |ns| &&
    Distinct(R + Q) && (forall y :: y in R + Q ==> 0 <= y < |G|) &&
    (forall v :: 0 <= v < |G| ==> d[v] == |Into(G, v, Pending(G, R))| + (if v in G[x] && v !in ns[..k] then 1 else 0)) &&
    (forall v :: 0 <= v < |G| && v !in R ==> (v in Q <==> d[v] == 0)) &&
    EdgesForward(G, R) &&
    (NoEdges(G) ==> R + Q == Range(|G|))
  }

  /** The queue starts as the vertices nobody points to. */
  lemma KahnInit(G: Graph, d: seq<int>)
    requires Counting(G, d, |G|, [], 0)
    ensures Kahn(G, d, ZeroIn(d), [])
  {
    assert Pending(G, []) == Lower(|G|);
    var Q := ZeroIn(d);
    assert [] + Q == Q;
    if NoEdges(G) {
      forall v | 0 <= v < |G| ensures d[v] == 0 {
        assert Into(G, v, Lower(|G|)) == {};
      }
      ZeroInAll(d);
    }
  }

  /** Dequeueing x and outputting it: all its predecessors are already output. */
  lemma KahnPop(G: Graph, d: seq<int>, Q: seq<int>, R: seq<int>, ns: seq<int>)
    requires Kahn(G, d, Q, R) && Q != [] && Lists(G, Q[0], ns) && Distinct(ns)
    ensures Releasing(G, d, Q[1..], R + [Q[0]], Q[0], ns, 0)
    ensures |Pending(G, R + [Q[0]])| < |Pending(G, R)|
  {
    var x := Q[0];
    var R' := R + [x];
    DistinctSplit(R, Q);
    assert R' + Q[1..] == R + Q;
    assert Pending(G, R) == Pending(G, R') + {x};
    forall v | 0 <= v < |G| ensures d[v] == |Into(G, v, Pending(G, R'))| + (if v in G[x] then 1 else 0) {
      IntoAdd(G, v, Pending(G, R'), x);
    }
    assert d[x] == 0;
    forall i, u | 0 <= i < |R'| && 0 <= u < |G| && R'[i] in G[u] ensures u in R'[..i] {
      if i < |R| {
        assert R'[..i] == R[..i];
      } else {
        assert u !in Into(G, x, Pending(G, R));
        assert R'[..i] == R;
      }
    }
  }

  /** In a list without repeats, the last entry occurs in no proper prefix. */
  lemma LastNotBefore(R: seq<int>)
    requires Distinct(R) && R != []
    ensures forall i :: 0 <= i < |R| ==> R[|R| - 1] !in R[..i]
  {
  }

  /** One neighbour y of x: its count drops by the edge x -> y, and at 0 it is enqueued. */
  lemma KahnRelease(G: Graph, d: seq<int>, Q: seq<int>, R: seq<int>, x: int, ns: seq<int>, k: int, y: int, d': seq<int>, Q': seq<int>)
    requires Releasing(G, d, Q, R, x, ns, k) && k < |ns| && y == ns[k]
    requires d' == d[y := d[y] - 1] && Q' == (if d'[y] == 0 then Q + [y] else Q)
    ensures Releasing(G, d', Q', R, x, ns, k + 1)
  {
    assert ns[..k + 1] == ns[..k] + [y];
    assert y !in ns[..k];
    DistinctSplit(R, Q);
    LastNotBefore(R);
    assert forall i :: 0 <= i < |R| ==> R[i] !in G[x];
    assert y !in R && y !in Q;
    if d'[y] == 0 {
      DistinctSnoc(R + Q, y);
      assert R + Q' == (R + Q) + [y];
    }
  }

  lemma ReleaseDone(G: Graph, d: seq<int>, Q: seq<int>, R: seq<int>, x: int, ns: seq<int>)
    requires Releasing(G, d, Q, R, x, ns, |ns|)
    ensures Kahn(G, d, Q, R)
  {
    assert ns[..|ns|] == ns;
  }

  /** n distinct vertices below n are all of them. */
  lemma DistinctCovers(r: seq<int>, n: nat)
    requires Distinct(r) && |r| == n && forall i :: 0 <= i < |r| ==> 0 <= r[i] < n
    ensures forall v :: 0 <= v < n ==> v in r
  {
    var A := set x | x in r;
    var B := Lower(n);
    DistinctCard(r);
    LowerCard(n);
    assert A <= B;
    assert B == A + (B - A) && A * (B - A) == {};
    assert |B - A| == 0;
    forall v | 0 <= v < n ensures v in r {
      assert v in B && v !in B - A;
    }
  }

  lemma {:induction false} DistinctCard(r: seq<int>)
    requires Distinct(r)
    ensures |set x | x in r| == |r|
    decreases |r|
  {
    if r != [] {
      var r' := r[..|r| - 1];
      DistinctSplit(r', [r[|r| - 1]]);
      assert r == r' + [r[|r| - 1]];
      DistinctCard(r');
      assert (set x | x in r) == (set x | x in r') + {r[|r| - 1]};
    }
  }

  lemma {:induction false} LowerCard(n: nat)
    ensures |Lower(n)| == n
    decreases n
  {
    if n > 0 {
      LowerCard(n - 1);
      var L := Lower(n - 1);
      assert n - 1 !in L;
      assert |L + {n - 1}| == |L| + 1;
    }
  }

  /** An empty queue ends the loop: the output is an order of the vertices it holds, and a full one is a topological order. */
  lemma KahnDone(G: Graph, d: seq<int>, R: seq<int>)
    requires Kahn(G, d, [], R)
    ensures |R| == |G| ==> TopologicalOrder(G, R)
    ensures NoEdges(G) ==> R == Range(|G|)
  {
    assert R + [] == R;
    assert forall i :: 0 <= i < |R| ==> R[i] in R;
    if |R| == |G| {
      DistinctCovers(R, |G|);
    }
  }

  // ---------------------------------------------------------------- undirected graphs

  function IndexOf(r: seq<int>, x: int): (i: int)
    requires x in r
    ensures 0 <= i < |r| && r[i] == x
  {
    if r[0] == x then 0 else 1 + IndexOf(r[1..], x)
  }

  /** In a topological order the tail of an edge comes before its head. */
  lemma OrderSeparates(G: Graph, r: seq<int>, u: int, v: int)
    requires WellFormed(G) && TopologicalOrder(G, r) && 0 <= u < |G| && v in G[u]
    ensures IndexOf(r, u) < IndexOf(r, v)
  {
    var j := IndexOf(r, v);
    assert u in r[..j];
    var i :| 0 <= i < j && r[i] == u;
    assert i == IndexOf(r, u);
  }

  /**
   * On an undirected graph every edge is a cycle of length two, so a
   * topological order exists only without edges: the result is 0 .. V - 1
   * when the graph has no edge and [] otherwise.
   */
  lemma TopoUndirected(G: Graph, r: seq<int>)
    requires WellFormed(G) && Undirected(G) && TopoResult(G, r)
    ensures r == if NoEdges(G) then Range(|G|) else []
  {
    if !NoEdges(G) {
      var u, v :| 0 <= u < |G| && v in G[u];
      if r != [] {
        OrderSeparates(G, r, u, v);
        OrderSeparates(G, r, v, u);
        assert false;
      }
    }
  }

  // ---------------------------------------------------------------- methods

  /** The inner counting loop: every neighbour's in-degree grows by one. */
  method CountNeighbors(inDegree: array<int>, vertex: int, neighbors: seq<int>, ghost G: Graph)
    requires Counting(G, inDegree[..], vertex, neighbors, 0) && Lists(G, vertex, neighbors) && Distinct(neighbors)
    modifies inDegree
    ensures Counting(G, inDegree[..], vertex, neighbors, |neighbors|)
  {
    for k := 0 to |neighbors|
      invariant Counting(G, inDegree[..], vertex, neighbors, k)
    {
      var neighbor := neighbors[k];
      ghost var d := inDegree[..];
      inDegree[neighbor] := inDegree[neighbor] + 1;
      assert inDegree[..] == d[neighbor := d[neighbor] + 1];
      CountStep(G, d, vertex, neighbors, k, neighbor, inDegree[..]);
    }
  }

  /** The neighbour loop after a dequeue: each in-degree drops by one, and a neighbour reaching 0 is enqueued. */
  method Release(inDegree: array<int>, vertex: int, neighbors: seq<int>, queue: seq<int>, ghost G: Graph, ghost result: seq<int>)
    returns (queue': seq<int>)
    requires Releasing(G, inDegree[..], queue, result, vertex, neighbors, 0)
    modifies inDegree
    ensures Releasing(G, inDegree[..], queue', result, vertex, neighbors, |neighbors|)
  {
    queue' := queue;
    for k := 0 to |neighbors|
      invariant Releasing(G, inDegree[..], queue', result, vertex, neighbors, k)
    {
      var neighbor := neighbors[k];
      ghost var d := inDegree[..];
      ghost var q := queue';
      inDegree[neighbor] := inDegree[neighbor] - 1;
      assert inDegree[..] == d[neighbor := d[neighbor] - 1];
      if inDegree[neighbor] == 0 {
        queue' := queue' + [neighbor];
      }
      KahnRelease(G, d, q, result, vertex, neighbors, k, neighbor, inDegree[..], queue');
    }
  }

  /**
   * `topological_sort`: count in-degrees, queue the vertices at 0, output
   * the front of the queue and release its edges; the output is returned
   * only when it holds every vertex.
   */
  method TopologicalSort(graph: AdjacencyList) returns (order: seq<int>)
    requires graph.Valid()
    ensures TopoResult(ListGraph(graph.adjList), order)
    ensures order == if NoEdges(ListGraph(graph.adjList)) then Range(Size(graph.vertices)) else []
  {
    ghost var G := ListGraph(graph.adjList);
    ListGraphWellFormed(graph.adjList);
    ListGraphUndirected(graph.adjList);
    var n := Size(graph.vertices);
    var inDegree := new int[n](_ => 0);
    CountInit(G, inDegree[..]);
    for vertex := 0 to n
      invariant Counting(G, inDegree[..], vertex, [], 0)
    {
      var neighbors := graph.GetNeighbors(vertex);
      NeighborsListed(graph, G, vertex);
      CountStart(G, inDegree[..], vertex, neighbors);
      CountNeighbors(inDegree, vertex, neighbors, G);
      CountNext(G, inDegree[..], vertex, neighbors);
    }
    var queue := ZeroIn(inDegree[..]);
    var result := [];
    KahnInit(G, inDegree[..]);
    while queue != []
      invariant Kahn(G, inDegree[..], queue, result)
      decreases |Pending(G, result)|
    {
      var vertex := queue[0];
      var neighbors := graph.GetNeighbors(vertex);
      assert vertex in result + queue;
      NeighborsListed(graph, G, vertex);
      KahnPop(G, inDegree[..], queue, result, neighbors);
      queue := queue[1..];
      result := result + [vertex];
      queue := Release(inDegree, vertex, neighbors, queue, G, result);
      ReleaseDone(G, inDegree[..], queue, result, vertex, neighbors);
    }
    KahnDone(G, inDegree[..], result);
    order := if |result| == n then result else [];
    TopoUndirected(G, order);
  }
}
