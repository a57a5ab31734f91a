/**
 * The practical tasks of lab10 that do not depend on randomness: the
 * shortest paths in a k x k grid maze and the topological sort of a chain
 * of task dependencies.
 */
module GraphTasks {
  import opened Common
  import opened GraphRepresentation
  import opened GraphTraversal
  import opened Components
  import opened TopoSort

  // ---------------------------------------------------------------- grid arithmetic

  /** Cell (i, j) of a k x k grid is vertex i * k + j: row i, column j. */
  lemma Cell(k: int, i: int, j: int)
    requires k > 0 && 0 <= j < k
    ensures (i * k + j) / k == i && (i * k + j) % k == j
  {
    var a := i * k + j;
    var q, r := a / k, a % k;
    assert k * (q - i) == j - r;
    if q - i >= 1 {
      MulAtLeast(k, q - i);
    } else if i - q >= 1 {
      MulAtLeast(k, i - q);
    }
  }

  lemma MulMono(a: int, b: int, k: int)
    requires 0 <= a <= b && k > 0
    ensures a * k <= b * k
  {
    assert b * k - a * k == (b - a) * k;
  }

  /** The cell to the right exists unless j is the last column; the cell below exists unless i is the last row. */
  lemma CellBounds(k: int, i: int, j: int)
    requires k > 0 && 0 <= i < k && 0 <= j < k
    ensures 0 <= i * k + j < k * k
    ensures j < k - 1 ==> i * k + j + 1 < k * k
    ensures i * k + j + k < k * k <==> i < k - 1
  {
    MulMono(i + 1, k, k);
    if i < k - 1 {
      MulMono(i + 2, k, k);
    } else {
      assert (k - 1) * k + j + k == k * k + j;
    }
  }

  /** Row plus column: the number of steps from cell 0. */
  function Steps(k: int, v: int): int
    requires k > 0
  {
    v / k + v % k
  }

  /** x and y share a horizontal side, x on the left. */
  predicate Right(k: int, x: int, y: int) {
    k > 0 && 0 <= x && y == x + 1 && y < k * k && x % k < k - 1
  }

  /** x and y share a vertical side, x above. */
  predicate Down(k: int, x: int, y: int) {
    k > 0 && 0 <= x && y == x + k && y < k * k
  }

  /** Cells x and y of the k x k grid share a side. */
  predicate Adjacent(k: int, x: int, y: int) {
    Right(k, x, y) || Right(k, y, x) || Down(k, x, y) || Down(k, y, x)
  }

  lemma Split(k: int, v: int)
    requires k > 0 && v >= 0
    ensures v == v / k * k + v % k && 0 <= v % k < k && v / k >= 0
  {
  }

  /** Cell (i, j) is i + j steps from cell 0. */
  lemma StepsOf(k: int, i: int, j: int)
    requires k > 0 && 0 <= j < k
    ensures Steps(k, i * k + j) == i + j
  {
    Cell(k, i, j);
  }

  /** Crossing a side changes the step count by exactly one. */
  lemma AdjacentSteps(k: int, x: int, y: int)
    requires Adjacent(k, x, y)
    ensures Steps(k, y) == Steps(k, x) + 1 || Steps(k, y) == Steps(k, x) - 1
  {
    if Right(k, x, y) {
      RightSteps(k, x);
    } else if Right(k, y, x) {
      RightSteps(k, y);
    } else if Down(k, x, y) {
      DownSteps(k, x);
    } else {
      DownSteps(k, y);
    }
  }

  lemma RightSteps(k: int, x: int)
    requires k > 0 && x >= 0 && x % k < k - 1
    ensures Steps(k, x + 1) == Steps(k, x) + 1
  {
    var i, j := x / k, x % k;
    Split(k, x);
    StepsOf(k, i, j);
    StepsOf(k, i, j + 1);
  }

  lemma DownSteps(k: int, x: int)
    requires k > 0 && x >= 0
    ensures Steps(k, x + k) == Steps(k, x) + 1
  {
    var i, j := x / k, x % k;
    Split(k, x);
    StepsOf(k, i, j);
    assert x + k == (i + 1) * k + j;
    StepsOf(k, i + 1, j);
  }

  /** A cell off the first column has a left neighbour one step closer to cell 0. */
  lemma LeftNeighbor(k: int, v: int)
    requires k > 0 && 0 <= v < k * k && v % k > 0
    ensures Right(k, v - 1, v) && Steps(k, v - 1) == Steps(k, v) - 1
  {
    var i, j := v / k, v % k;
    Split(k, v);
    assert v - 1 == i * k + (j - 1);
    Cell(k, i, j - 1);
    StepsOf(k, i, j);
  }

  /** A cell of the first column below the first row has an upper neighbour one step closer to cell 0. */
  lemma UpperNeighbor(k: int, v: int)
    requires k > 0 && 0 <= v < k * k && v % k == 0 && v / k > 0
    ensures Down(k, v - k, v) && Steps(k, v - k) == Steps(k, v) - 1
  {
    var i := v / k;
    Split(k, v);
    assert v - k == (i - 1) * k + 0;
    StepsOf(k, i - 1, 0);
    assert v == i * k + 0;
    StepsOf(k, i, 0);
  }

  /** Only cell 0 is 0 steps away. */
  lemma Origin(k: int, v: int)
    requires k > 0 && v >= 0
    ensures Steps(k, v) >= 0 && (Steps(k, v) == 0 <==> v == 0)
  {
    Split(k, v);
    Cell(k, 0, 0);
  }

  /** The neighbours of v on the grid are the cells Adjacent to it. */
  ghost predicate IsGrid(k: int, G: Graph) {
    k > 0 && |G| == k * k && forall u, v :: 0 <= u < k * k ==> (v in G[u] <==> Adjacent(k, u, v))
  }

  /** The cells n steps away from cell 0 are those whose row plus column is at most n. */
  lemma {:induction false} GridWithin(k: int, G: Graph, n: nat)
    requires IsGrid(k, G)
    ensures forall v :: v in Within(G, 0, n) <==> 0 <= v < k * k && Steps(k, v) <= n
    decreases n
  {
    Origin(k, 0);
    assert k * k >= 1 by {
      MulAtLeast(k, k);
    }
    if n == 0 {
      forall v | 0 <= v < k * k && Steps(k, v) <= 0 ensures v == 0 {
        Origin(k, v);
      }
    } else {
      GridWithin(k, G, n - 1);
      var W := Within(G, 0, n - 1);
      forall v | v in Step(G, W) ensures 0 <= v < k * k && Steps(k, v) <= n {
        var u :| u in W && 0 <= u < |G| && v in G[u];
        AdjacentSteps(k, u, v);
      }
      forall v | 0 <= v < k * k && Steps(k, v) == n ensures v in Step(G, W) {
        Origin(k, v);
        Split(k, v);
        if v % k > 0 {
          LeftNeighbor(k, v);
          assert v - 1 in W && v in G[v - 1];
        } else {
          UpperNeighbor(k, v);
          assert v - k in W && v in G[v - k];
        }
      }
    }
  }

  /** On the grid, breadth-first search from cell 0 labels every cell with its row plus column. */
  lemma GridLevels(k: int, G: Graph, d: seq<int>)
    requires IsGrid(k, G) && BfsResult(G, 0, d)
    ensures forall v :: 0 <= v < k * k ==> d[v] == Steps(k, v)
  {
    forall v | 0 <= v < k * k ensures d[v] == Steps(k, v) {
      var n := Steps(k, v);
      assert n >= 0;
      GridWithin(k, G, n);
      assert d[v] != -1;
      BfsShortest(G, 0, d, v, n);
      GridWithin(k, G, d[v]);
    }
  }

  /** With no edges at all, only the start is ever reached. */
  lemma {:induction false} EmptyWithin(G: Graph, n: nat)
    requires NoEdges(G)
    ensures Within(G, 0, n) == {0}
    decreases n
  {
    if n > 0 {
      EmptyWithin(G, n - 1);
      assert Step(G, {0}) == {};
    }
  }

  /** Breadth-first search on a graph without edges labels the start 0 and every other vertex -1. */
  lemma EmptyLevels(G: Graph, d: seq<int>)
    requires NoEdges(G) && |G| >= 1 && BfsResult(G, 0, d)
    ensures d[0] == 0 && forall v :: 0 < v < |G| ==> d[v] == -1
  {
    EmptyWithin(G, 0);
    BfsShortest(G, 0, d, 0, 0);
    forall v | 0 < v < |G| ensures d[v] == -1 {
      forall n: nat ensures v !in Within(G, 0, n) {
        EmptyWithin(G, n);
      }
    }
  }

  // ---------------------------------------------------------------- building the maze

  /** The edges add_edge has put in so far: the grid's sides whose smaller cell is below c. */
  ghost predicate Built(k: int, a: seq<Dict>, c: int) {
    k > 0 && |a| == k * k && Symmetric(a) &&
    forall x, y :: 0 <= x < k * k && 0 <= y < k * k ==> (Get(a[x], y).Some? <==> Adjacent(k, x, y) && (x < c || y < c))
  }

  /** The sides whose smaller cell is c = i * k + j: the one to its right and the one below it, where those cells exist. */
  lemma CellSides(k: int, i: int, j: int, x: int, y: int)
    requires k > 0 && 0 <= i < k && 0 <= j < k && 0 <= x < k * k && 0 <= y < k * k
    ensures var c := i * k + j;
      (Adjacent(k, x, y) && (x < c + 1 || y < c + 1)) <==>
      (Adjacent(k, x, y) && (x < c || y < c)) ||
      (j < k - 1 && ((x == c && y == c + 1) || (x == c + 1 && y == c))) ||
      (i < k - 1 && ((x == c && y == c + k) || (x == c + k && y == c)))
  {
    Cell(k, i, j);
    CellBounds(k, i, j);
  }

  /** The two conditional add_edge calls of one cell: afterwards x lists y exactly when it did before or {x, y} is a linked pair. */
  lemma TwoLinks(a0: seq<Dict>, a1: seq<Dict>, a2: seq<Dict>, c: int, r: int, d: int, linkRight: bool, linkDown: bool, x: int, y: int)
    requires 0 <= c < |a0| && 0 <= x < |a0|
    requires linkRight ==> 0 <= r < |a0|
    requires linkDown ==> 0 <= d < |a0|
    requires a1 == if linkRight then Link(a0, c, r, 1) else a0
    requires a2 == if linkDown then Link(a1, c, d, 1) else a1
    ensures Get(a2[x], y).Some? <==>
      (Get(a0[x], y).Some? ||
       (linkRight && ((x == c && y == r) || (x == r && y == c))) ||
       (linkDown && ((x == c && y == d) || (x == d && y == c))))
  {
    if linkRight {
      LinkGet(a0, c, r, 1, x, y);
    }
    if linkDown {
      LinkGet(a1, c, d, 1, x, y);
    }
  }

  /** One pair (x, y) after the two add_edge calls of cell c = i * k + j. */
  lemma CellPair(k: int, i: int, j: int, c: int, a0: seq<Dict>, a1: seq<Dict>, a2: seq<Dict>, x: int, y: int)
    requires 0 <= i < k && 0 <= j < k && c == i * k + j && |a0| == k * k
    requires c + 1 < k * k || j == k - 1
    requires c + k < k * k <==> i < k - 1
    requires 0 <= c < k * k
    requires a1 == if j < k - 1 then Link(a0, c, c + 1, 1) else a0
    requires a2 == if i < k - 1 then Link(a1, c, c + k, 1) else a1
    requires 0 <= x < k * k && 0 <= y < k * k
    requires Get(a0[x], y).Some? <==> Adjacent(k, x, y) && (x < c || y < c)
    ensures Get(a2[x], y).Some? <==> Adjacent(k, x, y) && (x < c + 1 || y < c + 1)
  {
    var adjacent := Adjacent(k, x, y);
    TwoLinks(a0, a1, a2, c, c + 1, c + k, j < k - 1, i < k - 1, x, y);
    CellSides(k, i, j, x, y);
    ExtendPair(adjacent, Get(a0[x], y).Some?, Get(a2[x], y).Some?, j < k - 1, i < k - 1, c, k, x, y);
  }

  /** The bookkeeping of CellPair, with the grid arithmetic already done. */
  lemma ExtendPair(adjacent: bool, had: bool, has: bool, linkRight: bool, linkDown: bool, c: int, k: int, x: int, y: int)
    requires had <==> adjacent && (x < c || y < c)
    requires has <==> (had || (linkRight && ((x == c && y == c + 1) || (x == c + 1 && y == c))) ||
                              (linkDown && ((x == c && y == c + k) || (x == c + k && y == c))))
    requires (adjacent && (x < c + 1 || y < c + 1)) <==>
      (adjacent && (x < c || y < c)) ||
      (linkRight && ((x == c && y == c + 1) || (x == c + 1 && y == c))) ||
      (linkDown && ((x == c && y == c + k) || (x == c + k && y == c)))
    ensures has <==> adjacent && (x < c + 1 || y < c + 1)
  { }

  /** The two add_edge calls of cell c = i * k + j extend the built edges from c to c + 1. */
  lemma CellLinks(k: int, i: int, j: int, c: int, a0: seq<Dict>, a1: seq<Dict>, a2: seq<Dict>)
    requires 0 <= i < k && 0 <= j < k && c == i * k + j && Built(k, a0, c)
    requires c + 1 < k * k || j == k - 1
    requires c + k < k * k <==> i < k - 1
    requires 0 <= c < k * k
    requires |a0| == k * k && a1 == LinkWhen(a0, j < k - 1, c, c + 1)
    requires |a1| == k * k && a2 == LinkWhen(a1, i < k - 1, c, c + k)
    requires Symmetric(a2)
    ensures Built(k, a2, c + 1)
  {
    forall x, y | 0 <= x < k * k && 0 <= y < k * k
      ensures Get(a2[x], y).Some? <==> Adjacent(k, x, y) && (x < c + 1 || y < c + 1)
    {
      CellPair(k, i, j, c, a0, a1, a2, x, y);
    }
  }

  /** add_edge calls made by the cells before (i, j): right sides, then lower sides. */
  function EdgesBefore(k: int, i: int, j: int): int {
    i * (k - 1) + (if j < k - 1 then j else k - 1) + (if i < k - 1 then i * k + j else (k - 1) * k)
  }

  lemma EdgesStep(k: int, i: int, j: int)
    ensures EdgesBefore(k, i, j + 1) == EdgesBefore(k, i, j) + (if j < k - 1 then 1 else 0) + (if i < k - 1 then 1 else 0)
  { }

  lemma EdgesRow(k: int, i: int)
    requires 0 <= i < k
    ensures i * k + k == (i + 1) * k && EdgesBefore(k, i, k) == EdgesBefore(k, i + 1, 0)
  { }

  lemma EdgesEnds(k: int)
    requires k > 0
    ensures EdgesBefore(k, 0, 0) == 0 && EdgesBefore(k, k, 0) == 2 * k * (k - 1)
  { }

  /** The lists after an add_edge call made only when guard holds. */
  ghost function LinkWhen(a: seq<Dict>, guard: bool, u: int, v: int): (r: seq<Dict>)
    requires guard ==> 0 <= u < |a| && 0 <= v < |a|
  {
    if guard then Link(a, u, v, 1) else a
  }

  /** One add_edge call of the nested loops, made only when its guard holds. */
  method LinkIf(graph: AdjacencyList, guard: bool, u: int, v: int)
    requires graph.Valid() && (guard ==> 0 <= u < graph.vertices && 0 <= v < graph.vertices)
    modifies graph
    ensures graph.Valid()
    ensures graph.adjList == LinkWhen(old(graph.adjList), guard, u, v)
    ensures graph.edgeCount == old(graph.edgeCount) + (if guard then 1 else 0)
  {
    if guard {
      graph.AddEdge(u, v);
    }
  }

  /**
   * One cell c = i * k + j of the nested loops: the side to the right when
   * `right` (not the last column), the side below when `down` (not the last
   * row); mid is the adjacency list between the two add_edge calls.
   */
  method AddCellEdges(graph: AdjacencyList, k: int, c: int, right: bool, down: bool) returns (ghost mid: seq<Dict>)
    requires graph.Valid() && 0 <= c < graph.vertices && k > 0
    requires (right ==> c + 1 < graph.vertices) && (down ==> c + k < graph.vertices)
    modifies graph
    ensures graph.Valid() && |mid| == |graph.adjList|
    ensures mid == LinkWhen(old(graph.adjList), right, c, c + 1)
    ensures graph.adjList == LinkWhen(mid, down, c, c + k)
    ensures graph.edgeCount == old(graph.edgeCount) + (if right then 1 else 0) + (if down then 1 else 0)
  {
    LinkIf(graph, right, c, c + 1);
    mid := graph.adjList;
    LinkIf(graph, down, c, c + k);
  }

  /** The inner loop of the maze construction: the cells of row i, left to right. */
  method AddRow(graph: AdjacencyList, k: int, i: int)
    requires graph.Valid() && graph.vertices == k * k && 0 <= i < k
    requires Built(k, graph.adjList, i * k) && graph.edgeCount == EdgesBefore(k, i, 0)
    modifies graph
    ensures graph.Valid() && Built(k, graph.adjList, (i + 1) * k) && graph.edgeCount == EdgesBefore(k, i + 1, 0)
  {
    for j := 0 to k
      invariant graph.Valid() && graph.vertices == k * k
      invariant Built(k, graph.adjList, i * k + j) && graph.edgeCount == EdgesBefore(k, i, j)
    {
      CellBounds(k, i, j);
      var c := i * k + j;
      ghost var before := graph.adjList;
      ghost var mid := AddCellEdges(graph, k, c, j < k - 1, i < k - 1);
      CellLinks(k, i, j, c, before, mid, graph.adjList);
      EdgesStep(k, i, j);
    }
    EdgesRow(k, i);
  }

  /**
   * The graph of `maze_shortest_path`: k * k vertices, and for every cell
   * an edge to the right and an edge down where those cells exist. Every
   * side of the grid is added exactly once, so edge_count ends at 2k(k - 1).
   */
  method BuildMaze(k: int) returns (graph: AdjacencyList)
    ensures graph.Valid() && graph.vertices == k * k
    ensures k > 0 ==> Built(k, graph.adjList, k * k)
    ensures k <= 0 ==> graph.adjList == seq(k * k, _ => [])
    ensures graph.edgeCount == if k >= 0 then 2 * k * (k - 1) else 0
  {
    graph := new AdjacencyList(k * k);
    if k > 0 {
      EdgesEnds(k);
      for i := 0 to k
        invariant graph.Valid() && graph.vertices == k * k
        invariant Built(k, graph.adjList, i * k) && graph.edgeCount == EdgesBefore(k, i, 0)
      {
        AddRow(graph, k, i);
      }
    }
  }

  /** A grid built to its last cell is the grid graph. */
  lemma BuiltGrid(k: int, a: seq<Dict>)
    requires Built(k, a, k * k)
    ensures IsGrid(k, ListGraph(a))
  {
    var G := ListGraph(a);
    forall u, v | 0 <= u < k * k ensures v in G[u] <==> Adjacent(k, u, v) {
      if !(0 <= v < k * k) {
        assert Get(a[u], v).None?;
      }
    }
  }

  lemma Square(k: int)
    requires k != 0
    ensures k * k >= 1
  {
    if k > 0 {
      MulAtLeast(k, k);
    } else {
      MulAtLeast(-k, -k);
    }
  }

  /**
   * `maze_shortest_path`: breadth-first levels from cell 0 of the k x k
   * maze, which is cell (i, j)'s row plus column; k = 0 gives an empty
   * graph and the search fails with IndexError; a negative k gives k * k
   * vertices and no edges.
   */
  method MazeShortestPath(k: int) returns (r: Result<seq<int>>)
    ensures r.Err? <==> k == 0
    ensures r.Err? ==> r.error == IndexError
    ensures r.Ok? ==> |r.value| == k * k
    ensures k > 0 ==> forall v :: 0 <= v < k * k ==> r.value[v] == Steps(k, v)
    ensures k < 0 ==> r.value[0] == 0 && forall v :: 0 < v < k * k ==> r.value[v] == -1
  {
    var graph := BuildMaze(k);
    if graph.vertices <= 0 {
      if k != 0 {
        Square(k);
      }
      return Err(IndexError);
    }
    var bfs := BfsAdjacencyList(graph, 0);
    var distances := bfs.value;
    ghost var G := ListGraph(graph.adjList);
    if k > 0 {
      BuiltGrid(k, graph.adjList);
      GridLevels(k, G, distances);
    } else {
      EmptyLevels(G, distances);
    }
    return Ok(distances);
  }

  /**
   * `task_dependencies`: the chain 0 -> 1 -> ... -> 5 goes in through
   * add_edge, which links both ways, so no vertex has in-degree 0 and the
   * sort returns [].
   */
  method TaskDependencies() returns (order: seq<int>)
    ensures order == []
  {
    var graph := new AdjacencyList(6);
    var dependencies := [(0, 1), (1, 2), (2, 3), (3, 4), (4, 5)];
    for t := 0 to |dependencies|
      invariant graph.Valid() && graph.vertices == 6
      invariant t > 0 ==> graph.HasEdge(dependencies[t - 1].0, dependencies[t - 1].1)
    {
      graph.AddEdge(dependencies[t].0, dependencies[t].1);
    }
    order := TopologicalSort(graph);
    assert 5 in ListGraph(graph.adjList)[4];
  }
}
