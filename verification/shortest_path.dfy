/**
 * The algorithms of lab10 that run on an AdjacencyList: Dijkstra's shortest
 * paths, connected components by breadth-first search and Kahn's
 * topological sort.
 */
module ShortestPath {
  import opened Common
  import opened GraphRepresentation
  import opened GraphTraversal

  // ---------------------------------------------------------------- walks and weights

  /** A tentative distance: `float('inf')` or a number. */
  datatype Distance = Inf | Fin(n: int)

  /** `x < d`, with inf above every number. */
  predicate Below(x: int, d: Distance) {
    d.Inf? || x < d.n
  }

  /** `x > d`, never true of inf. */
  predicate Above(x: int, d: Distance) {
    d.Fin? && x > d.n
  }

  /** A weighted graph: the weight of every edge out of each vertex 0 .. |M| - 1. */
  type WGraph = seq<map<int, int>>

  /** The weights an AdjacencyList stores: u's dict as a map. */
  ghost function WeightMap(a: seq<Dict>): (M: WGraph)
    ensures |M| == |a|
    ensures forall u :: 0 <= u < |a| ==> forall v :: (v in M[u] <==> v in Keys(a[u])) && (v in M[u] ==> Get(a[u], v) == Some(M[u][v]))
  {
    seq(|a|, u requires 0 <= u < |a| => map v | v in Keys(a[u]) :: Get(a[u], v).value)
  }

  /** No weight is negative. */
  ghost predicate NonNegative(M: WGraph) {
    forall u, v :: 0 <= u < |M| && v in M[u] ==> M[u][v] >= 0
  }

  /** A walk: a non-empty sequence of vertices, each step along an edge. */
  ghost predicate IsWalk(M: WGraph, p: seq<int>)
    decreases |p|
  {
    |p| >= 1 && 0 <= p[|p| - 1] < |M| &&
    (|p| >= 2 ==> IsWalk(M, p[..|p| - 1]) && 0 <= p[|p| - 2] < |M| && p[|p| - 1] in M[p[|p| - 2]])
  }

  ghost predicate WalkTo(M: WGraph, s: int, v: int, p: seq<int>) {
    IsWalk(M, p) && p[0] == s && p[|p| - 1] == v
  }

  /** The sum of the weights along a walk. */
  ghost function WalkWeight(M: WGraph, p: seq<int>): int
    requires IsWalk(M, p)
    decreases |p|
  {
    if |p| == 1 then 0 else WalkWeight(M, p[..|p| - 1]) + M[p[|p| - 2]][p[|p| - 1]]
  }

  /** One more step along an edge extends a walk by that edge's weight. */
  lemma AppendWalk(M: WGraph, p: seq<int>, v: int)
    requires IsWalk(M, p) && 0 <= v < |M| && v in M[p[|p| - 1]]
    ensures IsWalk(M, p + [v]) && (p + [v])[0] == p[0]
    ensures WalkWeight(M, p + [v]) == WalkWeight(M, p) + M[p[|p| - 1]][v]
  {
    assert (p + [v])[..|p|] == p;
  }

  /** The item at position k of a dict without repeated keys is what Get finds. */
  lemma {:induction false} GetAt(d: Dict, k: int)
    requires Distinct(Keys(d)) && 0 <= k < |d|
    ensures Get(d, d[k].0) == Some(d[k].1)
    decreases k
  {
    if k > 0 {
      assert Keys(d)[0] != Keys(d)[k];
      assert Keys(d[1..]) == Keys(d)[1..];
      GetAt(d[1..], k - 1);
    }
  }

  // ---------------------------------------------------------------- Dijkstra

  /**
   * What dijkstra returns: 0 at the start, and at every other vertex the
   * least weight of a walk from the start, or inf when no walk reaches it.
   */
  ghost predicate DijkstraResult(M: WGraph, s: int, r: seq<Distance>) {
    |r| == |M| && 0 <= s < |M| && r[s] == Fin(0) &&
    (forall p :: IsWalk(M, p) && p[0] == s ==> r[p[|p| - 1]].Fin? && r[p[|p| - 1]].n <= WalkWeight(M, p)) &&
    (forall v :: 0 <= v < |r| && r[v].Fin? ==> exists p :: WalkTo(M, s, v, p) && WalkWeight(M, p) == r[v].n)
  }

  /** A vertex is left at inf exactly when no walk from the start reaches it. */
  lemma DijkstraUnreachable(M: WGraph, s: int, r: seq<Distance>, v: int)
    requires DijkstraResult(M, s, r) && 0 <= v < |r|
    ensures r[v] == Inf <==> forall p :: IsWalk(M, p) && p[0] == s ==> p[|p| - 1] != v
  {
  }

  /** Every edge out of u is relaxed: d[v] <= d[u] + w. */
  ghost predicate Relaxed(M: WGraph, D: seq<Distance>, u: int)
    requires 0 <= u < |M| == |D|
  {
    D[u].Fin? &&
    forall v :: 0 <= v < |D| && v in M[u] ==> D[v].Fin? && D[v].n <= D[u].n + M[u][v]
  }

  /** With 0 at the start and every finite vertex relaxed, no walk beats the table. */
  lemma {:induction false} RelaxedBound(M: WGraph, s: int, D: seq<Distance>, p: seq<int>)
    requires |D| == |M| && 0 <= s < |M| && D[s] == Fin(0)
    requires forall u :: 0 <= u < |M| && D[u].Fin? ==> Relaxed(M, D, u)
    requires IsWalk(M, p) && p[0] == s
    ensures D[p[|p| - 1]].Fin? && D[p[|p| - 1]].n <= WalkWeight(M, p)
    decreases |p|
  {
    if |p| > 1 {
      var q := p[..|p| - 1];
      assert IsWalk(M, q) && q[0] == s;
      RelaxedBound(M, s, D, q);
      assert q[|q| - 1] == p[|p| - 2];
      assert Relaxed(M, D, p[|p| - 2]);
    }
  }

  /** Every heap entry names a vertex, is at least floor and at least the vertex's distance. */
  ghost predicate Entries(M: WGraph, D: seq<Distance>, pq: seq<(int, int)>, floor: int)
    requires |D| == |M|
  {
    forall e :: e in pq ==> 0 <= e.1 < |M| && e.0 >= floor && D[e.1].Fin? && D[e.1].n <= e.0
  }

  /** Every finite vertex not yet done waits in the heap with its current distance. */
  ghost predicate Waiting(M: WGraph, D: seq<Distance>, done: seq<bool>, pq: seq<(int, int)>)
    requires |D| == |M| && |done| == |M|
  {
    forall v :: 0 <= v < |M| && D[v].Fin? && !done[v] ==> (D[v].n, v) in pq
  }

  /** Done vertices are at most floor and, except x, have their edges relaxed. */
  ghost predicate Settled(M: WGraph, D: seq<Distance>, done: seq<bool>, floor: int, x: int)
    requires |D| == |M| && |done| == |M|
  {
    forall u :: 0 <= u < |M| && done[u] ==> D[u].Fin? && D[u].n <= floor && (u != x ==> Relaxed(M, D, u))
  }

  /** Every finite distance is the weight of the recorded walk from s. */
  ghost predicate Witnessed(M: WGraph, s: int, D: seq<Distance>, P: seq<seq<int>>)
    requires |D| == |M| && |P| == |M|
  {
    forall v :: 0 <= v < |M| && D[v].Fin? ==> WalkTo(M, s, v, P[v]) && WalkWeight(M, P[v]) == D[v].n
  }

  /**
   * The state of dijkstra's main loop. D is `distances`, pq the heap's
   * entries, done the vertices popped with their final distance, floor the
   * distance last popped, P a walk for every finite distance. Vertex x (or
   * none, when x is -1) is the one whose edges are being relaxed.
   */
  ghost predicate Inv(M: WGraph, s: int, D: seq<Distance>, done: seq<bool>, pq: seq<(int, int)>, floor: int, P: seq<seq<int>>, x: int) {
    |D| == |M| && |done| == |M| && |P| == |M| && 0 <= s < |M| && NonNegative(M) &&
    D[s] == Fin(0) && floor >= 0 &&
    Entries(M, D, pq, floor) && Waiting(M, D, done, pq) && Settled(M, D, done, floor, x) && Witnessed(M, s, D, P)
  }

  lemma DijkstraInit(M: WGraph, s: int, D: seq<Distance>, done: seq<bool>, P: seq<seq<int>>)
    requires NonNegative(M) && 0 <= s < |M| && |D| == |M| && |done| == |M| && |P| == |M|
    requires forall v :: 0 <= v < |M| ==> D[v] == (if v == s then Fin(0) else Inf) && !done[v] && P[v] == [s]
    ensures Inv(M, s, D, done, [(0, s)], 0, P, -1)
  {
    assert WalkTo(M, s, s, P[s]) && WalkWeight(M, P[s]) == 0;
  }

  /** Python orders heap entries as tuples: by distance, then by vertex. */
  predicate LexLeq(x: (int, int), y: (int, int)) {
    x.0 < y.0 || (x.0 == y.0 && x.1 <= y.1)
  }

  /** `heapq.heappop`: take out a least entry and keep the others. */
  method PopMin(pq: seq<(int, int)>) returns (e: (int, int), rest: seq<(int, int)>)
    requires pq != []
    ensures e in pq && |rest| == |pq| - 1
    ensures forall x :: x in pq ==> LexLeq(e, x)
    ensures forall x :: x in rest ==> x in pq
    ensures forall x :: x in pq && x != e ==> x in rest
  {
    var m := 0;
    for i := 1 to |pq|
      invariant 0 <= m < |pq| && forall j :: 0 <= j < i ==> LexLeq(pq[m], pq[j])
    {
      if !LexLeq(pq[m], pq[i]) {
        m := i;
      }
    }
    e := pq[m];
    rest := pq[..m] + pq[m + 1..];
    assert pq == pq[..m] + [e] + pq[m + 1..];
  }

  /** A stale entry (its distance above the table's) is dropped and nothing else changes. */
  lemma DijkstraStale(M: WGraph, s: int, D: seq<Distance>, done: seq<bool>, pq: seq<(int, int)>, floor: int, P: seq<seq<int>>,
                      e: (int, int), rest: seq<(int, int)>)
    requires Inv(M, s, D, done, pq, floor, P, -1) && e in pq && Above(e.0, D[e.1])
    requires (forall x :: x in rest ==> x in pq) && (forall x :: x in pq && x != e ==> x in rest)
    ensures Inv(M, s, D, done, rest, floor, P, -1)
  {
  }

  /** Popping a current entry: its vertex is done at the new floor, its edges still to relax. */
  lemma DijkstraPop(M: WGraph, s: int, D: seq<Distance>, done: seq<bool>, pq: seq<(int, int)>, floor: int, P: seq<seq<int>>,
                    e: (int, int), rest: seq<(int, int)>, done': seq<bool>)
    requires Inv(M, s, D, done, pq, floor, P, -1) && e in pq && !Above(e.0, D[e.1])
    requires forall x :: x in pq ==> LexLeq(e, x)
    requires (forall x :: x in rest ==> x in pq) && (forall x :: x in pq && x != e ==> x in rest)
    requires done' == done[e.1 := true]
    ensures Inv(M, s, D, done', rest, e.0, P, e.1) && D[e.1] == Fin(e.0)
    ensures done[e.1] ==> Relaxed(M, D, e.1)
  {
  }

  /** The state of the relaxation loop over the first k items of u's items nb. */
  ghost predicate Relaxing(M: WGraph, s: int, D: seq<Distance>, done: seq<bool>, pq: seq<(int, int)>, floor: int, P: seq<seq<int>>,
                           u: int, nb: Dict, k: int) {
    Inv(M, s, D, done, pq, floor, P, u) && 0 <= u < |M| && done[u] && D[u] == Fin(floor) && 0 <= k <= |nb| &&
    (forall t :: 0 <= t < |nb| ==> 0 <= nb[t].0 < |M| && nb[t].0 in M[u] && M[u][nb[t].0] == nb[t].1) &&
    (forall v :: v in M[u] ==> v in Keys(nb)) &&
    (forall t :: 0 <= t < k ==> D[nb[t].0].Fin? && D[nb[t].0].n <= floor + nb[t].1)
  }

  /** `distances[neighbor] = distance` and the push, when the new distance is smaller. */
  lemma RelaxStep(M: WGraph, s: int, D: seq<Distance>, done: seq<bool>, pq: seq<(int, int)>, floor: int, P: seq<seq<int>>,
                  u: int, nb: Dict, k: int, v: int, d: int, D': seq<Distance>, pq': seq<(int, int)>, P': seq<seq<int>>)
    requires Relaxing(M, s, D, done, pq, floor, P, u, nb, k) && k < |nb|
    requires v == nb[k].0 && d == floor + nb[k].1 && Below(d, D[v])
    requires D' == D[v := Fin(d)] && pq' == pq + [(d, v)] && P' == P[v := P[u] + [v]]
    ensures Relaxing(M, s, D', done, pq', floor, P', u, nb, k + 1)
  {
    assert nb[k].1 >= 0 && v != u && !done[v];
    RelaxEntries(M, D, pq, floor, v, d, D', pq');
    RelaxWaiting(M, D, done, pq, v, d, D', pq');
    RelaxSettled(M, D, done, floor, u, v, d, D');
    RelaxWitnessed(M, s, D, P, u, v, d, D', P');
    RelaxCovered(D, floor, nb, k, v, d, D');
  }

  /** After relaxing entry k, the first k + 1 neighbours all have a distance within their edge from u. */
  lemma RelaxCovered(D: seq<Distance>, floor: int, nb: Dict, k: int, v: int, d: int, D': seq<Distance>)
    requires 0 <= k < |nb| && (forall t :: 0 <= t < |nb| ==> 0 <= nb[t].0 < |D|)
    requires v == nb[k].0 && d == floor + nb[k].1 && Below(d, D[v]) && D' == D[v := Fin(d)]
    requires forall t :: 0 <= t < k ==> D[nb[t].0].Fin? && D[nb[t].0].n <= floor + nb[t].1
    ensures forall t :: 0 <= t < k + 1 ==> D'[nb[t].0].Fin? && D'[nb[t].0].n <= floor + nb[t].1
  {
  }

  lemma RelaxEntries(M: WGraph, D: seq<Distance>, pq: seq<(int, int)>, floor: int, v: int, d: int, D': seq<Distance>, pq': seq<(int, int)>)
    requires |D| == |M| && Entries(M, D, pq, floor) && 0 <= v < |M| && Below(d, D[v]) && d >= floor
    requires D' == D[v := Fin(d)] && pq' == pq + [(d, v)]
    ensures Entries(M, D', pq', floor)
  {
  }

  lemma RelaxWaiting(M: WGraph, D: seq<Distance>, done: seq<bool>, pq: seq<(int, int)>, v: int, d: int, D': seq<Distance>, pq': seq<(int, int)>)
    requires |D| == |M| && |done| == |M| && Waiting(M, D, done, pq) && 0 <= v < |M|
    requires D' == D[v := Fin(d)] && pq' == pq + [(d, v)]
    ensures Waiting(M, D', done, pq')
  {
  }

  lemma RelaxSettled(M: WGraph, D: seq<Distance>, done: seq<bool>, floor: int, u: int, v: int, d: int, D': seq<Distance>)
    requires |D| == |M| && |done| == |M| && Settled(M, D, done, floor, u) && 0 <= v < |M| && !done[v] && Below(d, D[v])
    requires D' == D[v := Fin(d)]
    ensures Settled(M, D', done, floor, u)
  {
    forall x | 0 <= x < |M| && done[x] && x != u ensures Relaxed(M, D', x) {
      assert Relaxed(M, D, x);
    }
  }

  lemma RelaxWitnessed(M: WGraph, s: int, D: seq<Distance>, P: seq<seq<int>>, u: int, v: int, d: int, D': seq<Distance>, P': seq<seq<int>>)
    requires |D| == |M| && |P| == |M| && Witnessed(M, s, D, P) && 0 <= u < |M| && 0 <= v < |M| && u != v && v != s
    requires D[u].Fin? && v in M[u] && d == D[u].n + M[u][v]
    requires D' == D[v := Fin(d)] && P' == P[v := P[u] + [v]]
    ensures Witnessed(M, s, D', P')
  {
    assert WalkTo(M, s, u, P[u]) && WalkWeight(M, P[u]) == D[u].n;
    AppendWalk(M, P[u], v);
  }

  /** An item whose new distance is not smaller leaves the state as it is. */
  lemma RelaxSkip(M: WGraph, s: int, D: seq<Distance>, done: seq<bool>, pq: seq<(int, int)>, floor: int, P: seq<seq<int>>,
                  u: int, nb: Dict, k: int)
    requires Relaxing(M, s, D, done, pq, floor, P, u, nb, k) && k < |nb|
    requires !Below(floor + nb[k].1, D[nb[k].0])
    ensures Relaxing(M, s, D, done, pq, floor, P, u, nb, k + 1)
  {
  }

  /** After the last item every edge out of u is relaxed. */
  lemma RelaxFinish(M: WGraph, s: int, D: seq<Distance>, done: seq<bool>, pq: seq<(int, int)>, floor: int, P: seq<seq<int>>,
                    u: int, nb: Dict)
    requires Relaxing(M, s, D, done, pq, floor, P, u, nb, |nb|)
    ensures Inv(M, s, D, done, pq, floor, P, -1)
  {
    forall v | 0 <= v < |D| && v in M[u] ensures D[v].Fin? && D[v].n <= D[u].n + M[u][v] {
      var t :| 0 <= t < |nb| && Keys(nb)[t] == v;
    }
    assert Relaxed(M, D, u);
  }

  /** `distances[v] = d`. */
  method SetDistance(dist: array<Distance>, v: int, d: Distance)
    requires 0 <= v < dist.Length
    modifies dist
    ensures dist[..] == old(dist[..])[v := d]
  {
    dist[v] := d;
  }

  /**
   * The inner loop of dijkstra: for every (neighbor, weight) of u, lower
   * distances[neighbor] to distances[u] + weight when that is smaller and
   * push the new entry. A vertex already done has its edges relaxed, so
   * then nothing changes.
   */
  method Relax(graph: AdjacencyList, dist: array<Distance>, u: int, du: int, pq: seq<(int, int)>,
               ghost s: int, ghost done: seq<bool>, ghost P: seq<seq<int>>, ghost wasDone: bool)
    returns (pq': seq<(int, int)>, ghost P': seq<seq<int>>)
    requires graph.Valid() && dist.Length == |graph.adjList| && 0 <= u < |graph.adjList|
    requires Inv(WeightMap(graph.adjList), s, dist[..], done, pq, du, P, u) && done[u] && dist[u] == Fin(du)
    requires wasDone ==> Relaxed(WeightMap(graph.adjList), dist[..], u)
    modifies dist
    ensures Inv(WeightMap(graph.adjList), s, dist[..], done, pq', du, P', -1)
    ensures wasDone ==> pq' == pq
  {
    ghost var M := WeightMap(graph.adjList);
    var nb := graph.GetNeighborsWithWeights(u);
    assert nb == graph.adjList[u];
    forall t | 0 <= t < |nb| ensures 0 <= nb[t].0 < |M| && nb[t].0 in M[u] && M[u][nb[t].0] == nb[t].1 {
      GetAt(nb, t);
      assert Keys(nb)[t] == nb[t].0;
    }
    pq', P' := RelaxItems(dist, u, du, nb, pq, M, s, done, P, wasDone);
    RelaxFinish(M, s, dist[..], done, pq', du, P', u, nb);
  }

  /** The loop over u's items, on the items alone. */
  method RelaxItems(dist: array<Distance>, u: int, du: int, nb: Dict, pq: seq<(int, int)>,
                    ghost M: WGraph, ghost s: int, ghost done: seq<bool>, ghost P: seq<seq<int>>, ghost wasDone: bool)
    returns (pq': seq<(int, int)>, ghost P': seq<seq<int>>)
    requires Relaxing(M, s, dist[..], done, pq, du, P, u, nb, 0)
    requires wasDone ==> Relaxed(M, dist[..], u)
    modifies dist
    ensures Relaxing(M, s, dist[..], done, pq', du, P', u, nb, |nb|)
    ensures wasDone ==> pq' == pq
  {
    pq', P' := pq, P;
    for k := 0 to |nb|
      invariant Relaxing(M, s, dist[..], done, pq', du, P', u, nb, k)
      invariant wasDone ==> pq' == pq && Relaxed(M, dist[..], u)
    {
      var neighbor, weight := nb[k].0, nb[k].1;
      var distance := du + weight;
      if Below(distance, dist[neighbor]) {
        RelaxStep(M, s, dist[..], done, pq', du, P', u, nb, k, neighbor, distance,
                  dist[..][neighbor := Fin(distance)], pq' + [(distance, neighbor)], P'[neighbor := P'[u] + [neighbor]]);
        SetDistance(dist, neighbor, Fin(distance));
        pq' := pq' + [(distance, neighbor)];
        P' := P'[neighbor := P'[u] + [neighbor]];
      } else {
        RelaxSkip(M, s, dist[..], done, pq', du, P', u, nb, k);
      }
    }
  }

  /** With the heap empty every finite vertex is done and relaxed, which is the result. */
  lemma DijkstraDone(M: WGraph, s: int, D: seq<Distance>, done: seq<bool>, floor: int, P: seq<seq<int>>)
    requires Inv(M, s, D, done, [], floor, P, -1)
    ensures DijkstraResult(M, s, D)
  {
    forall p | IsWalk(M, p) && p[0] == s ensures D[p[|p| - 1]].Fin? && D[p[|p| - 1]].n <= WalkWeight(M, p) {
      RelaxedBound(M, s, D, p);
    }
    forall v | 0 <= v < |D| && D[v].Fin? ensures exists p :: WalkTo(M, s, v, p) && WalkWeight(M, p) == D[v].n {
      assert WalkTo(M, s, v, P[v]);
    }
  }

  /**
   * `dijkstra`. Python counts a start in -V..-1 from the end of
   * `distances`, but `get_neighbors_with_weights` has no edges for it, so
   * only its own slot start + V becomes 0; any other start outside 0..V-1
   * raises IndexError at `distances[start]`.
   */
  method Dijkstra(graph: AdjacencyList, start: int) returns (r: Result<seq<Distance>>)
    requires graph.Valid() && NonNegative(WeightMap(graph.adjList))
    ensures 0 <= start < graph.vertices ==> r.Ok? && DijkstraResult(WeightMap(graph.adjList), start, r.value)
    ensures -graph.vertices <= start < 0 ==>
      r.Ok? && |r.value| == graph.vertices && forall v :: 0 <= v < graph.vertices ==> r.value[v] == if v == start + graph.vertices then Fin(0) else Inf
    ensures r.Err? <==> !(-graph.vertices <= start < graph.vertices)
    ensures r.Err? ==> r.error == IndexError
  {
    if !(-graph.vertices <= start < graph.vertices) {
      return Err(IndexError);
    } else if start < 0 {
      assert graph.GetNeighborsWithWeights(start) == [];
      return Ok(seq(graph.vertices, v => if v == start + graph.vertices then Fin(0) else Inf));
    }
    var distances := DijkstraFrom(graph, start);
    return Ok(distances);
  }

  /**
   * `dijkstra` from a start in 0..V-1: distances start at inf except 0 at
   * start; pop the least entry, skip it when stale, otherwise relax the
   * vertex's edges.
   */
  method DijkstraFrom(graph: AdjacencyList, start: int) returns (distances: seq<Distance>)
    requires graph.Valid() && 0 <= start < graph.vertices && NonNegative(WeightMap(graph.adjList))
    ensures DijkstraResult(WeightMap(graph.adjList), start, distances)
  {
    ghost var M := WeightMap(graph.adjList);
    var dist := new Distance[graph.vertices](_ => Inf);
    dist[start] := Fin(0);
    var pq := [(0, start)];
    ghost var done := seq(graph.vertices, _ => false);
    ghost var floor := 0;
    ghost var P := seq(graph.vertices, _ => [start]);
    DijkstraInit(M, start, dist[..], done, P);
    while pq != []
      invariant Inv(M, start, dist[..], done, pq, floor, P, -1)
      decreases |Unvisited(done)|, |pq|
    {
      var e, rest := PopMin(pq);
      var currentDistance, currentVertex := e.0, e.1;
      if Above(currentDistance, dist[currentVertex]) {
        DijkstraStale(M, start, dist[..], done, pq, floor, P, e, rest);
        pq := rest;
      } else {
        ghost var wasDone := done[currentVertex];
        DijkstraPop(M, start, dist[..], done, pq, floor, P, e, rest, done[currentVertex := true]);
        if !wasDone {
          UnvisitedMark(done, currentVertex);
        } else {
          assert done[currentVertex := true] == done;
        }
        done, floor := done[currentVertex := true], currentDistance;
        pq, P := Relax(graph, dist, currentVertex, currentDistance, rest, start, done, P, wasDone);
      }
    }
    DijkstraDone(M, start, dist[..], done, floor, P);
    distances := dist[..];
  }
}
