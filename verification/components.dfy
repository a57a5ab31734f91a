/**
 * `connected_components` of lab10: a breadth-first search from every vertex
 * that no earlier search reached, taken in vertex order. The result is
 * proved to split the vertices into the classes of the reachability
 * relation, each listed from its smallest vertex.
 */
module Components {
  import opened Common
  import opened GraphRepresentation
  import opened GraphTraversal

  /** Edges go both ways. */
  ghost predicate Undirected(G: Graph) {
    forall u, v :: 0 <= u < |G| && 0 <= v < |G| ==> (v in G[u] <==> u in G[v])
  }

  /** Every graph an AdjacencyList stands for is undirected. */
  lemma ListGraphUndirected(a: seq<Dict>)
    requires Symmetric(a)
    ensures Undirected(ListGraph(a))
  {
    var G := ListGraph(a);
    forall u, v | 0 <= u < |G| && 0 <= v < |G| ensures v in G[u] <==> u in G[v] {
      assert Get(a[u], v) == Get(a[v], u);
    }
  }

  /** The components one after another. */
  function Flatten(c: seq<seq<int>>): (r: seq<int>)
    ensures forall j, x :: 0 <= j < |c| && x in c[j] ==> x in r
  {
    if c == [] then []
    else
      var r := Flatten(c[..|c| - 1]);
      assert forall j :: 0 <= j < |c| - 1 ==> c[..|c| - 1][j] == c[j];
      r + c[|c| - 1]
  }

  /** Every listed vertex belongs to some component. */
  lemma {:induction false} FlattenMember(c: seq<seq<int>>, x: int)
    requires x in Flatten(c)
    ensures exists j :: 0 <= j < |c| && x in c[j]
    decreases |c|
  {
    if x !in c[|c| - 1] {
      FlattenMember(c[..|c| - 1], x);
      var j :| 0 <= j < |c| - 1 && x in c[..|c| - 1][j];
      assert c[..|c| - 1][j] == c[j];
    }
  }

  /** One component: it starts at its smallest vertex and holds exactly the vertices reachable from there. */
  ghost predicate Component(G: Graph, c: seq<int>) {
    |c| > 0 && (forall x :: x in c <==> Reachable(G, c[0], x)) && (forall t :: 0 < t < |c| ==> c[0] < c[t])
  }

  /**
   * What connected_components returns: every vertex exactly once, grouped
   * into components, the components ordered by their first vertex.
   */
  ghost predicate ComponentsResult(G: Graph, comps: seq<seq<int>>) {
    Distinct(Flatten(comps)) &&
    (forall v :: v in Flatten(comps) <==> 0 <= v < |G|) &&
    (forall j :: 0 <= j < |comps| ==> Component(G, comps[j])) &&
    (forall j, k :: 0 <= j < k < |comps| ==> comps[j][0] < comps[k][0])
  }

  // ---------------------------------------------------------------- reachability

  /** A walk of j edges followed by one of k edges is a walk of j + k edges. */
  lemma {:induction false} WithinCompose(G: Graph, s: int, u: int, v: int, j: nat, k: nat, n: nat)
    requires n == j + k && u in Within(G, s, j) && v in Within(G, u, k)
    ensures v in Within(G, s, n)
    decreases k
  {
    if k > 0 {
      if v in Within(G, u, k - 1) {
        WithinCompose(G, s, u, v, j, k - 1, n - 1);
        WithinGrows(G, s, n - 1, n);
        assert v in Within(G, s, n);
      } else {
        var w := WithinPredecessor(G, u, k - 1, v);
        WithinCompose(G, s, u, w, j, k - 1, n - 1);
        WithinStep(G, s, n - 1, w, v, n);
        assert v in Within(G, s, n);
      }
    } else {
      assert v == u;
      assert v in Within(G, s, n);
    }
  }

  /** In an undirected graph a walk can be taken backwards. */
  lemma {:induction false} WithinBack(G: Graph, s: int, v: int, k: nat)
    requires WellFormed(G) && Undirected(G) && 0 <= s < |G| && v in Within(G, s, k)
    ensures s in Within(G, v, k)
    decreases k
  {
    if k > 0 {
      if v in Within(G, s, k - 1) {
        WithinBack(G, s, v, k - 1);
        WithinKept(G, v, s, k - 1, k);
      } else {
        var w := WithinPredecessor(G, s, k - 1, v);
        WithinBack(G, s, w, k - 1);
        BackStep(G, s, v, w, k);
      }
    }
  }

  /** One edge w-v taken backwards in front of a walk from w back to s. */
  lemma BackStep(G: Graph, s: int, v: int, w: int, k: nat)
    requires WellFormed(G) && Undirected(G) && k > 0
    requires 0 <= w < |G| && v in G[w] && s in Within(G, w, k - 1)
    ensures s in Within(G, v, k)
  {
    assert 0 <= v < |G|;
    assert w in G[v];
    WithinStep(G, v, 0, v, w, 1);
    WithinCompose(G, v, w, s, 1, k - 1, k);
  }

  lemma ReachableTrans(G: Graph, s: int, u: int, v: int)
    requires Reachable(G, s, u) && Reachable(G, u, v)
    ensures Reachable(G, s, v)
  {
    var j: nat :| u in Within(G, s, j);
    var k: nat :| v in Within(G, u, k);
    WithinCompose(G, s, u, v, j, k, j + k);
  }

  lemma ReachableBack(G: Graph, s: int, v: int)
    requires WellFormed(G) && Undirected(G) && 0 <= s < |G| && Reachable(G, s, v)
    ensures Reachable(G, v, s)
  {
    var k: nat :| v in Within(G, s, k);
    WithinBack(G, s, v, k);
  }

  /**
   * The components are the classes of connectivity: for u in a component,
   * v is in the same component exactly when a path joins u and v.
   */
  lemma SameComponent(G: Graph, comps: seq<seq<int>>, j: int, u: int, v: int)
    requires WellFormed(G) && Undirected(G) && ComponentsResult(G, comps) && 0 <= j < |comps| && u in comps[j]
    ensures v in comps[j] <==> Reachable(G, u, v)
  {
    var c := comps[j];
    assert c[0] in c;
    assert c[0] in Flatten(comps);
    ReachableBack(G, c[0], u);
    if v in c {
      ReachableTrans(G, u, c[0], v);
    }
    if Reachable(G, u, v) {
      ReachableTrans(G, c[0], u, v);
    }
  }

  // ---------------------------------------------------------------- loop states

  /** The finished components, all starting below bound; together they are closed under edges. */
  ghost predicate Finished(G: Graph, comps: seq<seq<int>>, bound: int) {
    WellFormed(G) && Undirected(G) &&
    (forall u, v :: u in Flatten(comps) && 0 <= u < |G| && v in G[u] ==> v in Flatten(comps)) &&
    (forall j :: 0 <= j < |comps| ==> Component(G, comps[j]) && comps[j][0] < bound) &&
    (forall j, k :: 0 <= j < k < |comps| ==> comps[j][0] < comps[k][0])
  }

  /** The visited flags mark exactly the vertices of S, which has no repeats. */
  ghost predicate Marked(G: Graph, vis: seq<bool>, S: seq<int>) {
    |vis| == |G| && Distinct(S) && forall v :: v in S <==> 0 <= v < |G| && vis[v]
  }

  /** Between two searches: every vertex below i is visited and belongs to a finished component. */
  ghost predicate Outer(G: Graph, vis: seq<bool>, comps: seq<seq<int>>, i: int) {
    0 <= i <= |G| && Finished(G, comps, i) && Marked(G, vis, Flatten(comps)) &&
    forall v :: 0 <= v < i ==> vis[v]
  }

  /** The search from root so far: C has been dequeued, Q waits, and every visited vertex is in one of the three lists. */
  ghost predicate Searched(G: Graph, vis: seq<bool>, comps: seq<seq<int>>, root: int, C: seq<int>, Q: seq<int>) {
    0 <= root < |G| && Finished(G, comps, root) && Marked(G, vis, Flatten(comps) + C + Q) &&
    (forall v :: 0 <= v < root ==> vis[v]) &&
    (C == [] ==> Q == [root]) && (C != [] ==> C[0] == root) &&
    (forall x :: x in C + Q ==> Reachable(G, root, x) && root <= x)
  }

  /** The search from root between two dequeues: every neighbour of a dequeued vertex is in C or Q. */
  ghost predicate Growing(G: Graph, vis: seq<bool>, comps: seq<seq<int>>, root: int, C: seq<int>, Q: seq<int>) {
    Searched(G, vis, comps, root, C, Q) &&
    forall u, v :: u in C && 0 <= u < |G| && v in G[u] ==> v in C + Q
  }

  /** ns lists the neighbours of u. */
  ghost predicate Lists(G: Graph, u: int, ns: seq<int>) {
    0 <= u < |G| &&
    (forall t :: 0 <= t < |ns| ==> 0 <= ns[t] < |G| && ns[t] in G[u]) &&
    (forall v :: v in G[u] ==> v in ns)
  }

  /** The neighbour loop of cur: the first k neighbours are in C or Q. */
  ghost predicate Scanning(G: Graph, vis: seq<bool>, comps: seq<seq<int>>, root: int, C: seq<int>, Q: seq<int>,
                           cur: int, ns: seq<int>, k: int) {
    Searched(G, vis, comps, root, C, Q) && cur in C && Lists(G, cur, ns) && 0 <= k <= |ns| &&
    (forall u, v :: u in C && u != cur && 0 <= u < |G| && v in G[u] ==> v in C + Q) &&
    (forall t :: 0 <= t < k ==> ns[t] in C + Q)
  }

  lemma NeighborsListed(graph: AdjacencyList, G: Graph, u: int)
    requires graph.Valid() && G == ListGraph(graph.adjList) && 0 <= u < |G|
    ensures Lists(G, u, graph.GetNeighbors(u))
  {
  }

  lemma ReachableSelf(G: Graph, s: int)
    ensures Reachable(G, s, s)
  {
    assert s in Within(G, s, 0);
  }

  lemma OuterInit(G: Graph, vis: seq<bool>)
    requires WellFormed(G) && Undirected(G) && |vis| == |G| && forall v :: 0 <= v < |G| ==> !vis[v]
    ensures Outer(G, vis, [], 0)
  {
  }

  /** A vertex some earlier search already reached is skipped. */
  lemma OuterSkip(G: Graph, vis: seq<bool>, comps: seq<seq<int>>, i: int)
    requires Outer(G, vis, comps, i) && i < |G| && vis[i]
    ensures Outer(G, vis, comps, i + 1)
  {
  }

  /** Marking root and enqueueing it starts a search. */
  lemma GrowStart(G: Graph, vis: seq<bool>, comps: seq<seq<int>>, root: int, vis': seq<bool>)
    requires Outer(G, vis, comps, root) && root < |G| && !vis[root] && vis' == vis[root := true]
    ensures Growing(G, vis', comps, root, [], [root])
  {
    DistinctSnoc(Flatten(comps), root);
    assert Flatten(comps) + [] + [root] == Flatten(comps) + [root];
    ReachableSelf(G, root);
  }

  /** Dequeueing the front vertex into the component. */
  lemma GrowPop(G: Graph, vis: seq<bool>, comps: seq<seq<int>>, root: int, C: seq<int>, Q: seq<int>, ns: seq<int>)
    requires Growing(G, vis, comps, root, C, Q) && Q != [] && Lists(G, Q[0], ns)
    ensures Scanning(G, vis, comps, root, C + [Q[0]], Q[1..], Q[0], ns, 0)
  {
    assert Flatten(comps) + C + Q == Flatten(comps) + (C + [Q[0]]) + Q[1..];
    assert C + Q == (C + [Q[0]]) + Q[1..];
  }

  /** An unvisited neighbour is marked and enqueued. */
  lemma ScanVisit(G: Graph, vis: seq<bool>, comps: seq<seq<int>>, root: int, C: seq<int>, Q: seq<int>,
                  cur: int, ns: seq<int>, k: int, y: int, vis': seq<bool>, Q': seq<int>)
    requires Scanning(G, vis, comps, root, C, Q, cur, ns, k) && k < |ns| && y == ns[k] && !vis[y]
    requires vis' == vis[y := true] && Q' == Q + [y]
    ensures Scanning(G, vis', comps, root, C, Q', cur, ns, k + 1)
  {
    var S := Flatten(comps) + C + Q;
    DistinctSnoc(S, y);
    assert Flatten(comps) + C + Q' == S + [y];
    assert C + Q' == (C + Q) + [y];
    ReachableStep(G, root, cur, y);
  }

  /** A visited neighbour of cur is already in this search: an earlier component would have held cur too. */
  lemma ScanSkip(G: Graph, vis: seq<bool>, comps: seq<seq<int>>, root: int, C: seq<int>, Q: seq<int>,
                 cur: int, ns: seq<int>, k: int, y: int)
    requires Scanning(G, vis, comps, root, C, Q, cur, ns, k) && k < |ns| && y == ns[k] && vis[y]
    ensures Scanning(G, vis, comps, root, C, Q, cur, ns, k + 1)
  {
    var F := Flatten(comps);
    assert F + C + Q == F + (C + Q);
    DistinctSplit(F, C + Q);
    assert cur !in F && cur in G[y];
  }

  /** Once every neighbour of cur has been looked at, the component's frontier is in the queue. */
  lemma ScanDone(G: Graph, vis: seq<bool>, comps: seq<seq<int>>, root: int, C: seq<int>, Q: seq<int>, cur: int, ns: seq<int>)
    requires Scanning(G, vis, comps, root, C, Q, cur, ns, |ns|)
    ensures Growing(G, vis, comps, root, C, Q)
  {
  }

  /** An empty queue ends the search: C is a whole component, started at root. */
  lemma GrowDone(G: Graph, vis: seq<bool>, comps: seq<seq<int>>, root: int, C: seq<int>)
    requires Growing(G, vis, comps, root, C, [])
    ensures Outer(G, vis, comps + [C], root + 1)
  {
    var F := Flatten(comps);
    var comps' := comps + [C];
    assert comps'[..|comps|] == comps;
    assert Flatten(comps') == F + C;
    assert F + C + [] == F + C;
    DistinctSplit(F, C);
    assert C + [] == C;
    var S := set x | x in C;
    forall x | Reachable(G, root, x) ensures x in C {
      var k: nat :| x in Within(G, root, k);
      ClosedHoldsWithin(G, root, S, k);
    }
    forall t | 0 < t < |C| ensures C[0] < C[t] {
      assert C[t] in C + [] && C[0] != C[t];
    }
    assert Component(G, C);
    forall j | 0 <= j < |comps'| ensures Component(G, comps'[j]) && comps'[j][0] < root + 1 {
      if j < |comps| {
        assert comps'[j] == comps[j];
      }
    }
    forall j, k | 0 <= j < k < |comps'| ensures comps'[j][0] < comps'[k][0] {
      assert comps'[j] == comps[j];
    }
  }

  /** After the last vertex every vertex is in exactly one component. */
  lemma OuterDone(G: Graph, vis: seq<bool>, comps: seq<seq<int>>)
    requires Outer(G, vis, comps, |G|)
    ensures ComponentsResult(G, comps)
  {
  }

  // ---------------------------------------------------------------- methods

  /** The neighbour loop: each unvisited neighbour is marked and enqueued. */
  method ScanNeighbors(visited: array<bool>, current: int, neighbors: seq<int>, queue: seq<int>,
                       ghost G: Graph, ghost comps: seq<seq<int>>, ghost root: int, ghost component: seq<int>)
    returns (queue': seq<int>)
    requires Scanning(G, visited[..], comps, root, component, queue, current, neighbors, 0)
    modifies visited
    ensures Scanning(G, visited[..], comps, root, component, queue', current, neighbors, |neighbors|)
    ensures |Unvisited(visited[..])| + |queue'| == |Unvisited(old(visited[..]))| + |queue|
    ensures |Unvisited(visited[..])| <= |Unvisited(old(visited[..]))|
  {
    queue' := queue;
    ghost var U0 := |Unvisited(visited[..])|;
    for k := 0 to |neighbors|
      invariant Scanning(G, visited[..], comps, root, component, queue', current, neighbors, k)
      invariant |Unvisited(visited[..])| + |queue'| == U0 + |queue| && |Unvisited(visited[..])| <= U0
    {
      var neighbor := neighbors[k];
      if !visited[neighbor] {
        ghost var vis := visited[..];
        UnvisitedMark(vis, neighbor);
        visited[neighbor] := true;
        assert visited[..] == vis[neighbor := true];
        ScanVisit(G, vis, comps, root, component, queue', current, neighbors, k, neighbor, visited[..], queue' + [neighbor]);
        queue' := queue' + [neighbor];
      } else {
        ScanSkip(G, visited[..], comps, root, component, queue', current, neighbors, k, neighbor);
      }
    }
  }

  /** The search from an unvisited vertex: dequeue, record, enqueue the unvisited neighbours. */
  method Explore(graph: AdjacencyList, visited: array<bool>, root: int, ghost G: Graph, ghost comps: seq<seq<int>>)
    returns (component: seq<int>)
    requires graph.Valid() && G == ListGraph(graph.adjList)
    requires Outer(G, visited[..], comps, root) && root < |G| && !visited[root]
    modifies visited
    ensures Outer(G, visited[..], comps + [component], root + 1)
  {
    component := [];
    var queue := [root];
    ghost var vis := visited[..];
    visited[root] := true;
    assert visited[..] == vis[root := true];
    GrowStart(G, vis, comps, root, visited[..]);
    while queue != []
      invariant Growing(G, visited[..], comps, root, component, queue)
      decreases |Unvisited(visited[..])|, |queue|
    {
      var current := queue[0];
      assert current in Flatten(comps) + component + queue;
      var neighbors := graph.GetNeighbors(current);
      NeighborsListed(graph, G, current);
      GrowPop(G, visited[..], comps, root, component, queue, neighbors);
      queue := queue[1..];
      component := component + [current];
      queue := ScanNeighbors(visited, current, neighbors, queue, G, comps, root, component);
      ScanDone(G, visited[..], comps, root, component, queue, current, neighbors);
    }
    GrowDone(G, visited[..], comps, root, component);
  }

  /**
   * `connected_components`: the vertices taken in order, each one not yet
   * visited starting a new breadth-first search whose dequeue order is
   * the component's list.
   */
  method ConnectedComponents(graph: AdjacencyList) returns (components: seq<seq<int>>)
    requires graph.Valid()
    ensures ComponentsResult(ListGraph(graph.adjList), components)
  {
    ghost var G := ListGraph(graph.adjList);
    ListGraphWellFormed(graph.adjList);
    ListGraphUndirected(graph.adjList);
    var n := Size(graph.vertices);
    var visited := new bool[n](_ => false);
    components := [];
    OuterInit(G, visited[..]);
    for vertex := 0 to n
      invariant Outer(G, visited[..], components, vertex)
    {
      if !visited[vertex] {
        var component := Explore(graph, visited, vertex, G, components);
        components := components + [component];
      } else {
        OuterSkip(G, visited[..], components, vertex);
      }
    }
    OuterDone(G, visited[..], components);
  }
}
