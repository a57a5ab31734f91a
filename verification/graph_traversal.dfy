/**
 * Breadth-first and depth-first traversals of lab10, proved against one
 * level-by-level description of the vertices reachable from the start.
 */
module GraphTraversal {
  import opened Common
  import opened GraphRepresentation

  /** A graph as the set of neighbours of each vertex 0 .. |G| - 1. */
  type Graph = seq<set<int>>

  /** Every neighbour is a vertex. */
  ghost predicate WellFormed(G: Graph) {
    forall u, v :: 0 <= u < |G| && v in G[u] ==> 0 <= v < |G|
  }

  /** The neighbours of the vertices in W. */
  ghost function Step(G: Graph, W: set<int>): set<int> {
    set u, v | u in W && 0 <= u < |G| && v in G[u] :: v
  }

  /** The vertices at most k edges away from s. */
  ghost function Within(G: Graph, s: int, k: nat): set<int> {
    if k == 0 then {s} else Within(G, s, k - 1) + Step(G, Within(G, s, k - 1))
  }

  ghost predicate Reachable(G: Graph, s: int, v: int) {
    exists k: nat :: v in Within(G, s, k)
  }

  /** The graph an AdjacencyList stands for: u's neighbours are the keys of its dict. */
  ghost function ListGraph(a: seq<Dict>): (G: Graph)
    ensures |G| == |a| && forall u :: 0 <= u < |a| ==> forall v :: v in G[u] <==> v in Keys(a[u])
  {
    seq(|a|, u requires 0 <= u < |a| => set v | v in Keys(a[u]))
  }

  lemma ListGraphWellFormed(a: seq<Dict>)
    requires Symmetric(a)
    ensures WellFormed(ListGraph(a))
  {
    var G := ListGraph(a);
    forall u, v | 0 <= u < |G| && v in G[u] ensures 0 <= v < |G| {
      assert Get(a[u], v).Some?;
    }
  }

  /** The graph an AdjacencyMatrix stands for: the non-zero cells of u's row. */
  ghost function MatrixGraph(m: array2<int>, n: nat): (G: Graph)
    reads m
    requires m.Length0 == n && m.Length1 == n
    ensures |G| == n && forall u :: 0 <= u < n ==> forall v :: v in G[u] <==> 0 <= v < n && m[u, v] != 0
  {
    seq(n, u requires 0 <= u < n reads m => set v | 0 <= v < n && m[u, v] != 0)
  }

  // ---------------------------------------------------------------- levels

  lemma {:induction false} WithinGrows(G: Graph, s: int, j: nat, k: nat)
    requires j <= k
    ensures Within(G, s, j) <= Within(G, s, k)
    decreases k
  {
    if j < k {
      WithinGrows(G, s, j, k - 1);
    }
  }

  /** A vertex within j edges is within any k >= j edges. */
  lemma WithinKept(G: Graph, s: int, x: int, j: nat, k: nat)
    requires j <= k && x in Within(G, s, j)
    ensures x in Within(G, s, k)
  {
    WithinGrows(G, s, j, k);
  }

  lemma {:induction false} WithinRange(G: Graph, s: int, k: nat)
    requires WellFormed(G) && 0 <= s < |G|
    ensures forall v :: v in Within(G, s, k) ==> 0 <= v < |G|
    decreases k
  {
    if k > 0 {
      WithinRange(G, s, k - 1);
    }
  }

  /** A neighbour of a vertex at most k edges away is at most k + 1 edges away. */
  lemma WithinStep(G: Graph, s: int, k: nat, w: int, v: int, next: nat)
    requires next == k + 1 && w in Within(G, s, k) && 0 <= w < |G| && v in G[w]
    ensures v in Within(G, s, next)
  {
    assert v in Step(G, Within(G, s, k));
  }

  /** A vertex k + 1 edges away that is not k away has a neighbour-predecessor exactly k away. */
  lemma WithinNext(G: Graph, s: int, k: nat, v: int)
    requires v in Within(G, s, k + 1) && v !in Within(G, s, k)
    ensures exists u :: u in Within(G, s, k) && 0 <= u < |G| && v in G[u]
  {
  }

  /** Names the neighbour-predecessor that WithinNext shows to exist. */
  lemma WithinPredecessor(G: Graph, s: int, k: nat, v: int) returns (u: int)
    requires v in Within(G, s, k + 1) && v !in Within(G, s, k)
    ensures u in Within(G, s, k) && 0 <= u < |G| && v in G[u]
  {
    WithinNext(G, s, k, v);
    u :| u in Within(G, s, k) && 0 <= u < |G| && v in G[u];
  }

  /** A set holding s and every neighbour of its members holds everything reachable from s. */
  lemma {:induction false} ClosedHoldsWithin(G: Graph, s: int, S: set<int>, k: nat)
    requires s in S && forall u, v :: u in S && 0 <= u < |G| && v in G[u] ==> v in S
    ensures Within(G, s, k) <= S
    decreases k
  {
    if k > 0 {
      ClosedHoldsWithin(G, s, S, k - 1);
    }
  }

  lemma ReachableStep(G: Graph, s: int, u: int, v: int)
    requires Reachable(G, s, u) && 0 <= u < |G| && v in G[u]
    ensures Reachable(G, s, v)
  {
    var k: nat :| u in Within(G, s, k);
    assert v in Within(G, s, k + 1);
  }

  // ---------------------------------------------------------------- BFS

  /**
   * What bfs returns: -1 for a vertex no path reaches, otherwise a level
   * d with the vertex d edges away and not d - 1 edges away.
   */
  ghost predicate BfsResult(G: Graph, s: int, d: seq<int>) {
    |d| == |G| &&
    forall v :: 0 <= v < |G| ==>
      (d[v] == -1 <==> forall k: nat :: v !in Within(G, s, k)) &&
      (d[v] != -1 ==> d[v] >= 0 && v in Within(G, s, d[v]) && (d[v] == 0 || v !in Within(G, s, d[v] - 1)))
  }

  /** A returned level is the fewest edges on any path: v is k edges away exactly when k >= d[v]. */
  lemma BfsShortest(G: Graph, s: int, d: seq<int>, v: int, k: nat)
    requires BfsResult(G, s, d) && 0 <= v < |G| && d[v] != -1
    ensures v in Within(G, s, k) <==> k >= d[v]
  {
    if k >= d[v] {
      WithinGrows(G, s, d[v], k);
    } else if v in Within(G, s, k) {
      WithinGrows(G, s, k, d[v] - 1);
    }
  }

  /** The levels are determined by the graph, so two traversals of the same edges agree. */
  lemma BfsResultUnique(G: Graph, s: int, d1: seq<int>, d2: seq<int>)
    requires BfsResult(G, s, d1) && BfsResult(G, s, d2)
    ensures d1 == d2
  {
    forall v | 0 <= v < |G| ensures d1[v] == d2[v] {
      if d1[v] != -1 && d2[v] != -1 {
        BfsShortest(G, s, d1, v, d2[v]);
        BfsShortest(G, s, d2, v, d1[v]);
      }
    }
  }

  ghost function Unvisited(vis: seq<bool>): set<int> {
    set v | 0 <= v < |vis| && !vis[v]
  }

  lemma UnvisitedMark(vis: seq<bool>, v: int)
    requires 0 <= v < |vis| && !vis[v]
    ensures v in Unvisited(vis) && Unvisited(vis[v := true]) == Unvisited(vis) - {v}
    ensures |Unvisited(vis[v := true])| == |Unvisited(vis)| - 1
  {
    assert Unvisited(vis[v := true]) == Unvisited(vis) - {v};
  }

  ghost predicate Frame(G: Graph, s: int, vis: seq<bool>, dist: seq<int>, parent: seq<int>) {
    WellFormed(G) && 0 <= s < |G| && |vis| == |G| && |dist| == |G| && |parent| == |G|
  }

  /**
   * visited[v] iff distances[v] != -1; the start has level 0 and every
   * other visited vertex was found from a visited parent one level lower.
   */
  ghost predicate Labelled(G: Graph, s: int, vis: seq<bool>, dist: seq<int>, parent: seq<int>)
    requires Frame(G, s, vis, dist, parent)
  {
    vis[s] && dist[s] == 0 &&
    forall v :: 0 <= v < |G| ==>
      (vis[v] <==> dist[v] != -1) && (vis[v] ==> dist[v] >= 0) &&
      (vis[v] && v != s ==> 0 <= parent[v] < |G| && vis[parent[v]] && dist[parent[v]] == dist[v] - 1 && v in G[parent[v]])
  }

  /** The queue holds visited vertices of level `level` followed by ones of level + 1. */
  ghost predicate Queued(G: Graph, vis: seq<bool>, dist: seq<int>, q: seq<int>, level: nat)
    requires |vis| == |G| && |dist| == |G|
  {
    (forall i :: 0 <= i < |q| ==> 0 <= q[i] < |G| && vis[q[i]] && level <= dist[q[i]] <= level + 1) &&
    (forall i, j :: 0 <= i < j < |q| ==> dist[q[i]] <= dist[q[j]])
  }

  /** Every neighbour of a dequeued vertex is visited, at most one level further. */
  ghost predicate Closed(G: Graph, P: set<int>, vis: seq<bool>, dist: seq<int>)
    requires |vis| == |G| && |dist| == |G|
  {
    forall u, v :: u in P && 0 <= u < |G| && v in G[u] && 0 <= v < |G| ==> vis[v] && dist[v] <= dist[u] + 1
  }

  /** The state between two dequeues: P holds the dequeued vertices, every visited vertex is dequeued or queued. */
  ghost predicate Bfs(G: Graph, s: int, vis: seq<bool>, dist: seq<int>, parent: seq<int>, q: seq<int>, P: set<int>, level: nat) {
    Frame(G, s, vis, dist, parent) && Labelled(G, s, vis, dist, parent) && Queued(G, vis, dist, q, level) &&
    (forall v :: v in P ==> 0 <= v < |G| && vis[v] && dist[v] <= level) &&
    (forall v :: 0 <= v < |G| && vis[v] ==> v in P || v in q) &&
    Closed(G, P, vis, dist)
  }

  /** The state while the neighbours of u, of level `level`, are examined; those in H are done. */
  ghost predicate Expanding(G: Graph, s: int, vis: seq<bool>, dist: seq<int>, parent: seq<int>, q: seq<int>, P: set<int>, level: nat, u: int, H: set<int>) {
    Frame(G, s, vis, dist, parent) && Labelled(G, s, vis, dist, parent) && Queued(G, vis, dist, q, level) &&
    (forall v :: v in P ==> 0 <= v < |G| && vis[v] && dist[v] <= level) &&
    (forall v :: 0 <= v < |G| && vis[v] ==> v in P || v in q || v == u) &&
    0 <= u < |G| && vis[u] && dist[u] == level &&
    (forall v :: v in G[u] && v in H ==> vis[v] && dist[v] <= level + 1) &&
    Closed(G, P, vis, dist)
  }

  lemma BfsInit(G: Graph, s: int, vis: seq<bool>, dist: seq<int>, parent: seq<int>)
    requires WellFormed(G) && 0 <= s < |G| && |vis| == |G| && |dist| == |G| && |parent| == |G|
    requires forall v :: 0 <= v < |G| ==> vis[v] == (v == s) && dist[v] == if v == s then 0 else -1
    ensures Bfs(G, s, vis, dist, parent, [s], {}, 0)
  {
  }

  /** Dequeuing the head; its level is `level` or, once that level is used up, the next one. */
  lemma BfsPop(G: Graph, s: int, vis: seq<bool>, dist: seq<int>, parent: seq<int>, q: seq<int>, P: set<int>, level: nat)
    requires Bfs(G, s, vis, dist, parent, q, P, level) && q != []
    ensures dist[q[0]] >= level
    ensures Expanding(G, s, vis, dist, parent, q[1..], P, dist[q[0]], q[0], {})
  {
    var u := q[0];
    var q' := q[1..];
    assert forall i :: 0 <= i < |q'| ==> q'[i] == q[i + 1];
    assert forall i :: 0 <= i < |q'| ==> dist[u] <= dist[q'[i]];
  }

  lemma BfsVisit(G: Graph, s: int, vis: seq<bool>, dist: seq<int>, parent: seq<int>, q: seq<int>, P: set<int>, level: nat, u: int, H: set<int>, v: int,
                 vis': seq<bool>, dist': seq<int>, parent': seq<int>, q': seq<int>)
    requires Expanding(G, s, vis, dist, parent, q, P, level, u, H) && v in G[u] && !vis[v]
    requires vis' == vis[v := true] && dist' == dist[v := level + 1] && parent' == parent[v := u] && q' == q + [v]
    ensures Expanding(G, s, vis', dist', parent', q', P, level, u, H + {v})
  {
    assert Labelled(G, s, vis', dist', parent');
    assert Queued(G, vis', dist', q', level);
  }

  lemma BfsSkip(G: Graph, s: int, vis: seq<bool>, dist: seq<int>, parent: seq<int>, q: seq<int>, P: set<int>, level: nat, u: int, H: set<int>, v: int)
    requires Expanding(G, s, vis, dist, parent, q, P, level, u, H) && (v !in G[u] || vis[v])
    ensures Expanding(G, s, vis, dist, parent, q, P, level, u, H + {v})
  {
    if v in G[u] && v !in P && v != u {
      var i :| 0 <= i < |q| && q[i] == v;
    }
  }

  lemma BfsFinish(G: Graph, s: int, vis: seq<bool>, dist: seq<int>, parent: seq<int>, q: seq<int>, P: set<int>, level: nat, u: int, H: set<int>)
    requires Expanding(G, s, vis, dist, parent, q, P, level, u, H) && G[u] <= H
    ensures Bfs(G, s, vis, dist, parent, q, P + {u}, level)
  {
  }

  /** Every vertex k edges away has been visited at level at most k. */
  lemma {:induction false} LevelAtMost(G: Graph, s: int, vis: seq<bool>, dist: seq<int>, parent: seq<int>, P: set<int>, k: nat)
    requires Frame(G, s, vis, dist, parent) && Labelled(G, s, vis, dist, parent) && Closed(G, P, vis, dist)
    requires forall v :: 0 <= v < |G| && vis[v] ==> v in P
    ensures forall v :: v in Within(G, s, k) ==> 0 <= v < |G| && vis[v] && dist[v] <= k
    decreases k
  {
    if k > 0 {
      LevelAtMost(G, s, vis, dist, parent, P, k - 1);
      forall v | v in Within(G, s, k) ensures 0 <= v < |G| && vis[v] && dist[v] <= k {
        if v !in Within(G, s, k - 1) {
          WithinNext(G, s, k - 1, v);
        }
      }
    }
  }

  /** Following parents shows a visited vertex is as many edges away as its level. */
  lemma {:induction false} LevelReached(G: Graph, s: int, vis: seq<bool>, dist: seq<int>, parent: seq<int>, v: int)
    requires Frame(G, s, vis, dist, parent) && Labelled(G, s, vis, dist, parent)
    requires 0 <= v < |G| && vis[v]
    ensures v in Within(G, s, dist[v])
    decreases dist[v]
  {
    if v != s {
      var u := parent[v];
      LevelReached(G, s, vis, dist, parent, u);
      assert dist[v] == dist[u] + 1;
    }
  }

  /** An empty queue: every visited vertex is dequeued, so the levels are the BFS levels. */
  lemma BfsDone(G: Graph, s: int, vis: seq<bool>, dist: seq<int>, parent: seq<int>, P: set<int>, level: nat)
    requires Bfs(G, s, vis, dist, parent, [], P, level)
    ensures BfsResult(G, s, dist)
  {
    forall v | 0 <= v < |G|
      ensures (dist[v] == -1 <==> forall k: nat :: v !in Within(G, s, k))
      ensures dist[v] != -1 ==> dist[v] >= 0 && v in Within(G, s, dist[v]) && (dist[v] == 0 || v !in Within(G, s, dist[v] - 1))
    {
      forall k: nat ensures v in Within(G, s, k) ==> vis[v] && dist[v] <= k {
        LevelAtMost(G, s, vis, dist, parent, P, k);
      }
      if vis[v] {
        LevelReached(G, s, vis, dist, parent, v);
      }
    }
  }

  /** visited[v] = True and distances[v] = d, the two stores made when v is discovered. */
  method Mark(visited: array<bool>, dist: array<int>, v: int, d: int)
    requires 0 <= v < visited.Length && v < dist.Length
    modifies visited, dist
    ensures visited[..] == old(visited[..])[v := true] && dist[..] == old(dist[..])[v := d]
  {
    visited[v] := true;
    dist[v] := d;
  }

  /**
   * One neighbour candidate of the dequeued vertex: when it is an edge
   * to an unvisited vertex, that vertex gets the next level and joins the queue.
   */
  method Discover(visited: array<bool>, dist: array<int>, queue: seq<int>, vertex: int, neighbor: int, isEdge: bool,
                  ghost G: Graph, ghost start: int, ghost parent: seq<int>, ghost P: set<int>, ghost level: nat, ghost H: set<int>)
    returns (queue': seq<int>, ghost parent': seq<int>)
    requires Expanding(G, start, visited[..], dist[..], parent, queue, P, level, vertex, H)
    requires 0 <= neighbor < visited.Length && (isEdge <==> neighbor in G[vertex])
    modifies visited, dist
    ensures Expanding(G, start, visited[..], dist[..], parent', queue', P, level, vertex, H + {neighbor})
    ensures |Unvisited(visited[..])| + |queue'| == |Unvisited(old(visited[..]))| + |queue|
    ensures |Unvisited(visited[..])| <= |Unvisited(old(visited[..]))|
  {
    queue', parent' := queue, parent;
    if isEdge && !visited[neighbor] {
      ghost var vis0, dist0 := visited[..], dist[..];
      UnvisitedMark(vis0, neighbor);
      Mark(visited, dist, neighbor, dist[vertex] + 1);
      queue' := queue + [neighbor];
      parent' := parent[neighbor := vertex];
      BfsVisit(G, start, vis0, dist0, parent, queue, P, level, vertex, H, neighbor, visited[..], dist[..], parent', queue');
    } else {
      BfsSkip(G, start, visited[..], dist[..], parent, queue, P, level, vertex, H, neighbor);
    }
  }

  /** The inner loop of `bfs_adjacency_list`: every unvisited neighbour of vertex is labelled and queued. */
  method ExpandList(graph: AdjacencyList, visited: array<bool>, dist: array<int>, queue: seq<int>, vertex: int,
                    ghost G: Graph, ghost start: int, ghost parent: seq<int>, ghost P: set<int>, ghost level: nat)
    returns (queue': seq<int>, ghost parent': seq<int>)
    requires graph.Valid() && G == ListGraph(graph.adjList)
    requires Expanding(G, start, visited[..], dist[..], parent, queue, P, level, vertex, {})
    modifies visited, dist
    ensures Bfs(G, start, visited[..], dist[..], parent', queue', P + {vertex}, level)
    ensures |Unvisited(visited[..])| + |queue'| == |Unvisited(old(visited[..]))| + |queue|
    ensures |Unvisited(visited[..])| <= |Unvisited(old(visited[..]))|
  {
    ghost var U0 := |Unvisited(visited[..])|;
    queue', parent' := queue, parent;
    var neighbors := graph.GetNeighbors(vertex);
    ghost var H: set<int> := {};
    for j := 0 to |neighbors|
      invariant Expanding(G, start, visited[..], dist[..], parent', queue', P, level, vertex, H)
      invariant forall t :: 0 <= t < j ==> neighbors[t] in H
      invariant |Unvisited(visited[..])| + |queue'| == U0 + |queue| && |Unvisited(visited[..])| <= U0
    {
      var neighbor := neighbors[j];
      queue', parent' := Discover(visited, dist, queue', vertex, neighbor, true, G, start, parent', P, level, H);
      H := H + {neighbor};
    }
    BfsFinish(G, start, visited[..], dist[..], parent', queue', P, level, vertex, H);
  }

  /**
   * `bfs_adjacency_list`. Python counts a start in -V..-1 from the end of
   * `visited` and `distances`, but `get_neighbors` has no neighbours for it,
   * so only its own slot start + V becomes 0; any other start outside
   * 0..V-1 raises IndexError at `visited[start]`.
   */
  method BfsAdjacencyList(graph: AdjacencyList, start: int) returns (r: Result<seq<int>>)
    requires graph.Valid()
    ensures 0 <= start < graph.vertices ==> r.Ok? && BfsResult(ListGraph(graph.adjList), start, r.value)
    ensures -graph.vertices <= start < 0 ==>
      r.Ok? && |r.value| == graph.vertices && forall v :: 0 <= v < graph.vertices ==> r.value[v] == if v == start + graph.vertices then 0 else -1
    ensures r.Err? <==> !(-graph.vertices <= start < graph.vertices)
    ensures r.Err? ==> r.error == IndexError
  {
    if !(-graph.vertices <= start < graph.vertices) {
      return Err(IndexError);
    } else if start < 0 {
      assert graph.GetNeighbors(start) == [];
      return Ok(seq(graph.vertices, v => if v == start + graph.vertices then 0 else -1));
    }
    var distances := BfsListFrom(graph, start);
    return Ok(distances);
  }

  /**
   * `bfs_adjacency_list` from a start in 0..V-1: the level of every vertex
   * from start, -1 where no path leads. Neighbours are taken in dict order.
   */
  method BfsListFrom(graph: AdjacencyList, start: int) returns (distances: seq<int>)
    requires graph.Valid() && 0 <= start < graph.vertices
    ensures BfsResult(ListGraph(graph.adjList), start, distances)
  {
    ghost var G := ListGraph(graph.adjList);
    ListGraphWellFormed(graph.adjList);
    var n := graph.vertices;
    var visited := new bool[n](_ => false);
    var dist := new int[n](_ => -1);
    var queue := [start];
    visited[start] := true;
    dist[start] := 0;
    ghost var parent := seq(n, _ => -1);
    ghost var P: set<int> := {};
    ghost var level: nat := 0;
    BfsInit(G, start, visited[..], dist[..], parent);
    while queue != []
      invariant Bfs(G, start, visited[..], dist[..], parent, queue, P, level)
      decreases |Unvisited(visited[..])|, |queue|
    {
      var vertex := queue[0];
      BfsPop(G, start, visited[..], dist[..], parent, queue, P, level);
      level := dist[vertex];
      queue, parent := ExpandList(graph, visited, dist, queue[1..], vertex, G, start, parent, P, level);
      P := P + {vertex};
    }
    BfsDone(G, start, visited[..], dist[..], parent, P, level);
    distances := dist[..];
  }

  /** The inner loop of `bfs_adjacency_matrix`: the row of vertex is scanned for non-zero, unvisited cells. */
  method ExpandMatrix(graph: AdjacencyMatrix, visited: array<bool>, dist: array<int>, queue: seq<int>, vertex: int,
                      ghost G: Graph, ghost start: int, ghost parent: seq<int>, ghost P: set<int>, ghost level: nat)
    returns (queue': seq<int>, ghost parent': seq<int>)
    requires graph.Valid() && G == MatrixGraph(graph.matrix, Size(graph.vertices))
    requires Expanding(G, start, visited[..], dist[..], parent, queue, P, level, vertex, {})
    modifies visited, dist
    ensures Bfs(G, start, visited[..], dist[..], parent', queue', P + {vertex}, level)
    ensures |Unvisited(visited[..])| + |queue'| == |Unvisited(old(visited[..]))| + |queue|
    ensures |Unvisited(visited[..])| <= |Unvisited(old(visited[..]))|
  {
    ghost var U0 := |Unvisited(visited[..])|;
    queue', parent' := queue, parent;
    ghost var H: set<int> := {};
    for neighbor := 0 to graph.vertices
      invariant Expanding(G, start, visited[..], dist[..], parent', queue', P, level, vertex, H)
      invariant forall t :: 0 <= t < neighbor ==> t in H
      invariant |Unvisited(visited[..])| + |queue'| == U0 + |queue| && |Unvisited(visited[..])| <= U0
    {
      queue', parent' := Discover(visited, dist, queue', vertex, neighbor, graph.matrix[vertex, neighbor] != 0,
                                  G, start, parent', P, level, H);
      H := H + {neighbor};
    }
    BfsFinish(G, start, visited[..], dist[..], parent', queue', P, level, vertex, H);
  }

  /**
   * `bfs_adjacency_matrix`. Python counts a start in -V..-1 from the end of
   * `visited`, `distances` and the matrix rows alike, so the run is the one
   * from start + V; any other start outside 0..V-1 raises IndexError.
   */
  method BfsAdjacencyMatrix(graph: AdjacencyMatrix, start: int) returns (r: Result<seq<int>>)
    requires graph.Valid()
    ensures 0 <= start < graph.vertices ==> r.Ok? && BfsResult(MatrixGraph(graph.matrix, graph.vertices), start, r.value)
    ensures -graph.vertices <= start < 0 ==> r.Ok? && BfsResult(MatrixGraph(graph.matrix, graph.vertices), start + graph.vertices, r.value)
    ensures r.Err? <==> !(-graph.vertices <= start < graph.vertices)
    ensures r.Err? ==> r.error == IndexError
  {
    if !(-graph.vertices <= start < graph.vertices) {
      return Err(IndexError);
    }
    var distances := BfsMatrixFrom(graph, if start < 0 then start + graph.vertices else start);
    return Ok(distances);
  }

  /**
   * `bfs_adjacency_matrix` from a start in 0..V-1: the same traversal
   * scanning the row of the dequeued vertex for non-zero cells.
   */
  method BfsMatrixFrom(graph: AdjacencyMatrix, start: int) returns (distances: seq<int>)
    requires graph.Valid() && 0 <= start < graph.vertices
    ensures BfsResult(MatrixGraph(graph.matrix, graph.vertices), start, distances)
  {
    var n := graph.vertices;
    ghost var G := MatrixGraph(graph.matrix, n);
    var visited := new bool[n](_ => false);
    var dist := new int[n](_ => -1);
    var queue := [start];
    visited[start] := true;
    dist[start] := 0;
    ghost var parent := seq(n, _ => -1);
    ghost var P: set<int> := {};
    ghost var level: nat := 0;
    BfsInit(G, start, visited[..], dist[..], parent);
    while queue != []
      invariant Bfs(G, start, visited[..], dist[..], parent, queue, P, level)
      decreases |Unvisited(visited[..])|, |queue|
    {
      var vertex := queue[0];
      BfsPop(G, start, visited[..], dist[..], parent, queue, P, level);
      level := dist[vertex];
      queue, parent := ExpandMatrix(graph, visited, dist, queue[1..], vertex, G, start, parent, P, level);
      P := P + {vertex};
    }
    BfsDone(G, start, visited[..], dist[..], parent, P, level);
    distances := dist[..];
  }

  // ---------------------------------------------------------------- DFS

  /** What both depth-first searches return: start first, no repeats, exactly the vertices reachable from start. */
  ghost predicate DfsResult(G: Graph, s: int, r: seq<int>) {
    r != [] && r[0] == s && Distinct(r) && forall v :: v in r <==> Reachable(G, s, v)
  }

  /** Only vertices reachable from s are visited. */
  ghost predicate Sound(G: Graph, s: int, vis: seq<bool>) {
    forall v :: 0 <= v < |vis| && vis[v] ==> Reachable(G, s, v)
  }

  /** `result` lists the visited vertices, each once. */
  ghost predicate Listed(vis: seq<bool>, result: seq<int>) {
    Distinct(result) && forall v :: v in result <==> 0 <= v < |vis| && vis[v]
  }

  /** Nothing visited in vis0 is unvisited in vis. */
  ghost predicate Grows(vis0: seq<bool>, vis: seq<bool>) {
    |vis| == |vis0| && forall v :: 0 <= v < |vis0| && vis0[v] ==> vis[v]
  }

  /** Every neighbour of a vertex visited since vis0 is visited. */
  ghost predicate NewClosed(G: Graph, vis0: seq<bool>, vis: seq<bool>)
    requires |vis0| == |G| && |vis| == |G|
  {
    forall u, v :: 0 <= u < |G| && vis[u] && !vis0[u] && v in G[u] && 0 <= v < |G| ==> vis[v]
  }

  /** A visited set holding s, closed under neighbours and holding only reachable vertices, is the reachable set. */
  lemma DfsDone(G: Graph, s: int, vis: seq<bool>, result: seq<int>)
    requires WellFormed(G) && 0 <= s < |G| && |vis| == |G|
    requires Sound(G, s, vis) && Listed(vis, result) && vis[s] && result != [] && result[0] == s
    requires forall u, v :: 0 <= u < |G| && vis[u] && v in G[u] && 0 <= v < |G| ==> vis[v]
    ensures DfsResult(G, s, result)
  {
    var S := set v | 0 <= v < |G| && vis[v];
    forall v | Reachable(G, s, v) ensures v in result {
      var k: nat :| v in Within(G, s, k);
      ClosedHoldsWithin(G, s, S, k);
    }
  }

  /** Growing the visited set never adds unvisited vertices. */
  lemma GrowsUnvisited(vis0: seq<bool>, vis: seq<bool>)
    requires Grows(vis0, vis)
    ensures |Unvisited(vis)| <= |Unvisited(vis0)|
  {
    assert Unvisited(vis) <= Unvisited(vis0);
    SubsetCard(Unvisited(vis), Unvisited(vis0));
  }

  /** After the neighbour loop of `dfs_util`: vertex and everything visited since are closed under neighbours. */
  lemma DfsUtilDone(G: Graph, vis0: seq<bool>, vertex: int, neighbors: seq<int>, vis: seq<bool>)
    requires |vis0| == |G| && 0 <= vertex < |G| && !vis0[vertex]
    requires forall v :: v in G[vertex] <==> v in neighbors
    requires Grows(vis0[vertex := true], vis) && NewClosed(G, vis0[vertex := true], vis)
    requires forall t :: 0 <= t < |neighbors| ==> 0 <= neighbors[t] < |vis| && vis[neighbors[t]]
    ensures Grows(vis0, vis) && vis[vertex] && NewClosed(G, vis0, vis)
    ensures |Unvisited(vis)| < |Unvisited(vis0)|
  {
    forall v | v in G[vertex] ensures vis[v] {
      assert v in neighbors;
      var t :| 0 <= t < |neighbors| && neighbors[t] == v;
    }
    UnvisitedMark(vis0, vertex);
    GrowsUnvisited(vis0[vertex := true], vis);
  }

  /**
   * `dfs_util`: visit vertex, append it, then recurse into every neighbour
   * still unvisited when its turn comes. Everything it newly visits is
   * closed under neighbours.
   */
  method DfsUtil(graph: AdjacencyList, visited: array<bool>, vertex: int, result: seq<int>, ghost G: Graph, ghost s: int)
    returns (result': seq<int>)
    requires graph.Valid() && G == ListGraph(graph.adjList) && WellFormed(G) && visited.Length == |G|
    requires 0 <= vertex < |G| && !visited[vertex] && Reachable(G, s, vertex)
    requires Sound(G, s, visited[..]) && Listed(visited[..], result)
    modifies visited
    ensures Sound(G, s, visited[..]) && Listed(visited[..], result')
    ensures Grows(old(visited[..]), visited[..]) && visited[vertex]
    ensures NewClosed(G, old(visited[..]), visited[..])
    ensures |Unvisited(visited[..])| < |Unvisited(old(visited[..]))|
    ensures |result'| > |result| && result'[..|result|] == result && result'[|result|] == vertex
    decreases |Unvisited(visited[..])|, 1
  {
    ghost var vis0 := visited[..];
    UnvisitedMark(vis0, vertex);
    visited[vertex] := true;
    assert visited[..] == vis0[vertex := true];
    var neighbors := graph.GetNeighbors(vertex);
    result' := DfsNeighbors(graph, visited, vertex, neighbors, result + [vertex], G, s);
    PrefixAppend(result, vertex, result');
    DfsUtilDone(G, vis0, vertex, neighbors, visited[..]);
  }

  lemma PrefixAppend(a: seq<int>, x: int, b: seq<int>)
    requires |b| >= |a| + 1 && b[..|a| + 1] == a + [x]
    ensures |b| > |a| && b[..|a|] == a && b[|a|] == x
  {
    assert b[..|a|] == b[..|a| + 1][..|a|];
  }

  lemma PrefixTrans(a: seq<int>, b: seq<int>, c: seq<int>)
    requires |b| >= |a| && b[..|a|] == a && |c| >= |b| && c[..|b|] == b
    ensures c[..|a|] == a
  {
    assert c[..|a|] == c[..|b|][..|a|];
  }

  /** The state of the loop of `dfs_util` after the first j neighbours. */
  ghost predicate Explored(G: Graph, s: int, vis1: seq<bool>, vis: seq<bool>, ns: seq<int>, j: int, result: seq<int>, result': seq<int>)
    requires |vis1| == |G| && |vis| == |G|
  {
    Sound(G, s, vis) && Listed(vis, result') &&
    Grows(vis1, vis) && NewClosed(G, vis1, vis) &&
    0 <= j <= |ns| && (forall t :: 0 <= t < j ==> 0 <= ns[t] < |G| && vis[ns[t]]) &&
    |result'| >= |result| && result'[..|result|] == result
  }

  /** Visiting the j-th neighbour with `dfs_util` keeps the loop state. */
  lemma ExploredVisit(G: Graph, s: int, vis1: seq<bool>, before: seq<bool>, after: seq<bool>, ns: seq<int>, j: int,
                      result: seq<int>, r0: seq<int>, r1: seq<int>)
    requires |vis1| == |G| && |before| == |G| && |after| == |G|
    requires Explored(G, s, vis1, before, ns, j, result, r0) && j < |ns| && 0 <= ns[j] < |G|
    requires Sound(G, s, after) && Listed(after, r1) && after[ns[j]]
    requires Grows(before, after) && NewClosed(G, before, after)
    requires |r1| >= |r0| && r1[..|r0|] == r0
    ensures Explored(G, s, vis1, after, ns, j + 1, result, r1)
  {
    PrefixTrans(result, r0, r1);
  }

  /** The loop of `dfs_util` over the neighbours of vertex, which is already visited. */
  method DfsNeighbors(graph: AdjacencyList, visited: array<bool>, vertex: int, neighbors: seq<int>, result: seq<int>, ghost G: Graph, ghost s: int)
    returns (result': seq<int>)
    requires graph.Valid() && G == ListGraph(graph.adjList) && WellFormed(G) && visited.Length == |G|
    requires 0 <= vertex < |G| && Reachable(G, s, vertex)
    requires forall t :: 0 <= t < |neighbors| ==> 0 <= neighbors[t] < |G| && neighbors[t] in G[vertex]
    requires Sound(G, s, visited[..]) && Listed(visited[..], result)
    modifies visited
    ensures Sound(G, s, visited[..]) && Listed(visited[..], result')
    ensures Grows(old(visited[..]), visited[..]) && NewClosed(G, old(visited[..]), visited[..])
    ensures forall t :: 0 <= t < |neighbors| ==> visited[neighbors[t]]
    ensures |result'| >= |result| && result'[..|result|] == result
    decreases |Unvisited(visited[..])| + 1, 0
  {
    ghost var vis1 := visited[..];
    result' := result;
    for j := 0 to |neighbors|
      invariant Explored(G, s, vis1, visited[..], neighbors, j, result, result')
    {
      var neighbor := neighbors[j];
      ghost var before, r0 := visited[..], result';
      if !visited[neighbor] {
        ReachableStep(G, s, vertex, neighbor);
        GrowsUnvisited(vis1, visited[..]);
        result' := DfsUtil(graph, visited, neighbor, result', G, s);
      }
      ExploredVisit(G, s, vis1, before, visited[..], neighbors, j, result, r0, result');
    }
  }

  /**
   * `dfs_adjacency_list_recursive`. A start in -V..-1 is marked visited
   * from the end of the list and listed as given, but `get_neighbors` has
   * no neighbours for it; any other start outside 0..V-1 raises IndexError.
   */
  method DfsRecursive(graph: AdjacencyList, start: int) returns (r: Result<seq<int>>)
    requires graph.Valid()
    ensures 0 <= start < graph.vertices ==> r.Ok? && DfsResult(ListGraph(graph.adjList), start, r.value)
    ensures -graph.vertices <= start < 0 ==> r == Ok([start])
    ensures r.Err? <==> !(-graph.vertices <= start < graph.vertices)
    ensures r.Err? ==> r.error == IndexError
  {
    if !(-graph.vertices <= start < graph.vertices) {
      return Err(IndexError);
    } else if start < 0 {
      assert graph.GetNeighbors(start) == [];
      return Ok([start]);
    }
    var result := DfsRecursiveFrom(graph, start);
    return Ok(result);
  }

  /** `dfs_adjacency_list_recursive` from a start in 0..V-1. */
  method DfsRecursiveFrom(graph: AdjacencyList, start: int) returns (result: seq<int>)
    requires graph.Valid() && 0 <= start < graph.vertices
    ensures DfsResult(ListGraph(graph.adjList), start, result)
  {
    ghost var G := ListGraph(graph.adjList);
    ListGraphWellFormed(graph.adjList);
    var visited := new bool[graph.vertices](_ => false);
    assert start in Within(G, start, 0);
    result := DfsUtil(graph, visited, start, [], G, start);
    DfsDone(G, start, visited[..], result);
  }

  /** Every neighbour of a visited vertex is visited or waiting on the stack. */
  ghost predicate Pending(G: Graph, vis: seq<bool>, stack: seq<int>)
    requires |vis| == |G|
  {
    forall u, v :: 0 <= u < |G| && vis[u] && v in G[u] && 0 <= v < |G| ==> vis[v] || v in stack
  }

  /** The state of `dfs_adjacency_list_iterative` between two pops. */
  ghost predicate DfsLoop(G: Graph, s: int, vis: seq<bool>, stack: seq<int>, result: seq<int>) {
    WellFormed(G) && 0 <= s < |G| && |vis| == |G| &&
    Sound(G, s, vis) && Listed(vis, result) &&
    (forall i :: 0 <= i < |stack| ==> 0 <= stack[i] < |G| && Reachable(G, s, stack[i])) &&
    (result == [] ==> stack == [s]) && (result != [] ==> result[0] == s) &&
    Pending(G, vis, stack)
  }

  /** Popping a vertex that is already visited changes nothing else. */
  lemma DfsPopVisited(G: Graph, s: int, vis: seq<bool>, stack: seq<int>, result: seq<int>)
    requires DfsLoop(G, s, vis, stack, result) && stack != [] && vis[stack[|stack| - 1]]
    ensures DfsLoop(G, s, vis, stack[..|stack| - 1], result)
  {
    var top := stack[|stack| - 1];
    var rest := stack[..|stack| - 1];
    assert stack == rest + [top];
  }

  /** Popping an unvisited vertex, visiting it and pushing its unvisited neighbours (in any order). */
  lemma DfsPopNew(G: Graph, s: int, vis: seq<bool>, stack: seq<int>, result: seq<int>, neighbors: seq<int>, vis': seq<bool>, stack': seq<int>)
    requires DfsLoop(G, s, vis, stack, result) && stack != [] && !vis[stack[|stack| - 1]]
    requires forall v :: v in G[stack[|stack| - 1]] <==> v in neighbors
    requires vis' == vis[stack[|stack| - 1] := true]
    requires forall t :: 0 <= t < |neighbors| ==> 0 <= neighbors[t] < |vis'|
    requires |stack'| >= |stack| - 1 && stack'[..|stack| - 1] == stack[..|stack| - 1]
    requires forall i :: |stack| - 1 <= i < |stack'| ==> stack'[i] in neighbors
    requires forall t :: 0 <= t < |neighbors| ==> vis'[neighbors[t]] || neighbors[t] in stack'
    ensures DfsLoop(G, s, vis', stack', result + [stack[|stack| - 1]])
  {
    var top := stack[|stack| - 1];
    var rest := stack[..|stack| - 1];
    assert stack == rest + [top];
    assert top !in result;
    if result == [] {
      assert top == s;
    }
    forall i | 0 <= i < |stack'| ensures 0 <= stack'[i] < |G| && Reachable(G, s, stack'[i]) {
      if i < |rest| {
        assert stack'[i] == rest[i];
      } else {
        ReachableStep(G, s, top, stack'[i]);
      }
    }
    forall x | x in rest ensures x in stack' {
      var i :| 0 <= i < |rest| && rest[i] == x;
      assert stack'[i] == x;
    }
    forall v | v in G[top] ensures vis'[v] || v in stack' {
      assert v in neighbors;
      var t :| 0 <= t < |neighbors| && neighbors[t] == v;
    }
  }

  /** `for neighbor in reversed(neighbors): if not visited[neighbor]: stack.append(neighbor)`. */
  method PushReversed(visited: array<bool>, neighbors: seq<int>, stack: seq<int>) returns (stack': seq<int>)
    requires forall t :: 0 <= t < |neighbors| ==> 0 <= neighbors[t] < visited.Length
    ensures |stack'| >= |stack| && stack'[..|stack|] == stack
    ensures forall i :: |stack| <= i < |stack'| ==> stack'[i] in neighbors
    ensures forall t :: 0 <= t < |neighbors| ==> visited[neighbors[t]] || neighbors[t] in stack'
  {
    stack' := stack;
    var k := |neighbors|;
    while k > 0
      invariant 0 <= k <= |neighbors| && |stack'| >= |stack| && stack'[..|stack|] == stack
      invariant forall i :: |stack| <= i < |stack'| ==> stack'[i] in neighbors
      invariant forall t :: k <= t < |neighbors| ==> visited[neighbors[t]] || neighbors[t] in stack'
    {
      k := k - 1;
      if !visited[neighbors[k]] {
        stack' := stack' + [neighbors[k]];
      }
    }
  }

  /**
   * `dfs_adjacency_list_iterative`. As in the recursive version, a start in
   * -V..-1 is listed as given and has no neighbours; any other start
   * outside 0..V-1 raises IndexError.
   */
  method DfsIterative(graph: AdjacencyList, start: int) returns (r: Result<seq<int>>)
    requires graph.Valid()
    ensures 0 <= start < graph.vertices ==> r.Ok? && DfsResult(ListGraph(graph.adjList), start, r.value)
    ensures -graph.vertices <= start < 0 ==> r == Ok([start])
    ensures r.Err? <==> !(-graph.vertices <= start < graph.vertices)
    ensures r.Err? ==> r.error == IndexError
  {
    if !(-graph.vertices <= start < graph.vertices) {
      return Err(IndexError);
    } else if start < 0 {
      assert graph.GetNeighbors(start) == [];
      return Ok([start]);
    }
    var result := DfsIterativeFrom(graph, start);
    return Ok(result);
  }

  /** `dfs_adjacency_list_iterative` from a start in 0..V-1: pop, visit if new, push the unvisited neighbours in reverse. */
  method DfsIterativeFrom(graph: AdjacencyList, start: int) returns (result: seq<int>)
    requires graph.Valid() && 0 <= start < graph.vertices
    ensures DfsResult(ListGraph(graph.adjList), start, result)
  {
    ghost var G := ListGraph(graph.adjList);
    ListGraphWellFormed(graph.adjList);
    var visited := new bool[graph.vertices](_ => false);
    var stack := [start];
    result := [];
    assert start in Within(G, start, 0);
    while stack != []
      invariant DfsLoop(G, start, visited[..], stack, result)
      decreases |Unvisited(visited[..])|, |stack|
    {
      var vertex := stack[|stack| - 1];
      if visited[vertex] {
        DfsPopVisited(G, start, visited[..], stack, result);
        stack := stack[..|stack| - 1];
      } else {
        stack, result := DfsVisit(graph, G, start, visited, stack, result);
      }
    }
    DfsDone(G, start, visited[..], result);
  }

  /** The new-vertex branch of the iterative DFS: mark the top, replace it by its neighbours, record it. */
  method DfsVisit(graph: AdjacencyList, ghost G: Graph, start: int, visited: array<bool>, stack: seq<int>, result: seq<int>)
    returns (stack': seq<int>, result': seq<int>)
    requires graph.Valid() && G == ListGraph(graph.adjList)
    requires DfsLoop(G, start, visited[..], stack, result) && stack != [] && !visited[stack[|stack| - 1]]
    modifies visited
    ensures DfsLoop(G, start, visited[..], stack', result')
    ensures |Unvisited(visited[..])| < |Unvisited(old(visited[..]))|
  {
    var vertex := stack[|stack| - 1];
    ghost var vis0 := visited[..];
    UnvisitedMark(vis0, vertex);
    stack' := stack[..|stack| - 1];
    visited[vertex] := true;
    var neighbors := graph.GetNeighbors(vertex);
    stack' := PushReversed(visited, neighbors, stack');
    DfsPopNew(G, start, vis0, stack, result, neighbors, visited[..], stack');
    result' := result + [vertex];
  }
}
