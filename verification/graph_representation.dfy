/**
 * The two undirected graph representations of lab10: a V x V weight matrix
 * and a list of insertion-ordered dictionaries from neighbour to weight.
 * Both count edges in `edge_count` the way the code does, which is not the
 * number of edges present.
 */
module GraphRepresentation {
  import opened Common

  /** `range(vertices)` has this many elements; a negative count gives an empty graph. */
  function Size(vertices: int): nat {
    if vertices < 0 then 0 else vertices
  }

  // ---------------------------------------------------------------- dictionaries

  /** A Python dict from neighbour to weight: its (key, value) items in insertion order. */
  type Dict = seq<(int, int)>

  /** `list(d.keys())`. */
  function Keys(d: Dict): (r: seq<int>)
    ensures |r| == |d| && forall i :: 0 <= i < |d| ==> r[i] == d[i].0
  {
    if d == [] then [] else [d[0].0] + Keys(d[1..])
  }

  /** `d.get(k)`: the value stored under k, None when k is not a key. */
  function Get(d: Dict, k: int): (r: Option<int>)
    ensures r.Some? <==> k in Keys(d)
  {
    if d == [] then None else if d[0].0 == k then Some(d[0].1) else Get(d[1..], k)
  }

  /** `d[k] = w`: an existing key keeps its place, a new one goes last. */
  function Put(d: Dict, k: int, w: int): (r: Dict)
    ensures Get(r, k) == Some(w)
  {
    if d == [] then [(k, w)]
    else if d[0].0 == k then [(k, w)] + d[1..]
    else
      var r := [d[0]] + Put(d[1..], k, w);
      assert r[1..] == Put(d[1..], k, w);
      r
  }

  /** Assigning under k changes what k maps to and nothing else. */
  lemma {:induction false} PutGet(d: Dict, k: int, w: int, x: int)
    ensures Get(Put(d, k, w), x) == if x == k then Some(w) else Get(d, x)
    decreases |d|
  {
    if d != [] && d[0].0 != k {
      var r := Put(d, k, w);
      assert r[1..] == Put(d[1..], k, w);
      PutGet(d[1..], k, w, x);
    }
  }

  /** Assigning keeps the key order: k is appended only when it is new. */
  lemma {:induction false} PutKeys(d: Dict, k: int, w: int)
    ensures Keys(Put(d, k, w)) == if k in Keys(d) then Keys(d) else Keys(d) + [k]
    decreases |d|
  {
    if d != [] && d[0].0 != k {
      var r := Put(d, k, w);
      assert r[1..] == Put(d[1..], k, w);
      PutKeys(d[1..], k, w);
      assert Keys(d) == [d[0].0] + Keys(d[1..]);
    }
  }

  lemma PutDistinct(d: Dict, k: int, w: int)
    requires Distinct(Keys(d))
    ensures Distinct(Keys(Put(d, k, w)))
  {
    PutKeys(d, k, w);
  }

  /** `del d[k]`: the first entry with key k goes, the order of the rest stays. */
  function Delete(d: Dict, k: int): (r: Dict)
    ensures k !in Keys(d) ==> r == d
    ensures k in Keys(d) ==> |r| == |d| - 1
  {
    if d == [] then []
    else if d[0].0 == k then d[1..]
    else
      var r := [d[0]] + Delete(d[1..], k);
      assert r[1..] == Delete(d[1..], k);
      r
  }

  /** On a dict without repeated keys, deleting k unmaps k and leaves every other key as it was. */
  lemma {:induction false} DeleteGet(d: Dict, k: int, x: int)
    requires Distinct(Keys(d))
    ensures Get(Delete(d, k), x) == if x == k then None else Get(d, x)
    decreases |d|
  {
    if d != [] {
      assert Keys(d[1..]) == Keys(d)[1..];
      if d[0].0 != k {
        var r := Delete(d, k);
        assert r[1..] == Delete(d[1..], k);
        DeleteGet(d[1..], k, x);
      } else if x == k {
        assert k !in Keys(d[1..]);
      }
    }
  }

  /** Deleting keeps the keys free of repeats. */
  lemma {:induction false} DeleteDistinct(d: Dict, k: int)
    requires Distinct(Keys(d))
    ensures Distinct(Keys(Delete(d, k)))
    decreases |d|
  {
    if d != [] {
      assert Keys(d[1..]) == Keys(d)[1..];
      if d[0].0 != k {
        var r := Delete(d, k);
        assert r[1..] == Delete(d[1..], k);
        DeleteDistinct(d[1..], k);
        DeleteGet(d[1..], k, d[0].0);
        assert Keys(r) == [d[0].0] + Keys(r[1..]);
      }
    }
  }

  // ---------------------------------------------------------------- adjacency lists

  /**
   * What every reachable AdjacencyList state satisfies: one dict per vertex,
   * keys in range and without repeats, and the same weight stored both ways.
   */
  ghost predicate Symmetric(a: seq<Dict>) {
    (forall u :: 0 <= u < |a| ==> Distinct(Keys(a[u]))) &&
    (forall u, v :: 0 <= u < |a| && Get(a[u], v).Some? ==> 0 <= v < |a|) &&
    (forall u, v :: 0 <= u < |a| && 0 <= v < |a| ==> Get(a[u], v) == Get(a[v], u))
  }

  /** The two assignments of add_edge. */
  function Link(a: seq<Dict>, u: int, v: int, w: int): (r: seq<Dict>)
    requires 0 <= u < |a| && 0 <= v < |a|
    ensures |r| == |a|
  {
    var a1 := a[u := Put(a[u], v, w)];
    a1[v := Put(a1[v], u, w)]
  }

  /** After add_edge the pair {u, v} has weight w and every other pair is as before. */
  lemma LinkGet(a: seq<Dict>, u: int, v: int, w: int, x: int, y: int)
    requires 0 <= u < |a| && 0 <= v < |a| && 0 <= x < |a|
    ensures Get(Link(a, u, v, w)[x], y) == if (x == u && y == v) || (x == v && y == u) then Some(w) else Get(a[x], y)
  {
    var a1 := a[u := Put(a[u], v, w)];
    PutGet(a[u], v, w, y);
    PutGet(a1[v], u, w, y);
  }

  /** add_edge keeps the adjacency lists symmetric. */
  lemma LinkSymmetric(a: seq<Dict>, u: int, v: int, w: int)
    requires Symmetric(a) && 0 <= u < |a| && 0 <= v < |a|
    ensures Symmetric(Link(a, u, v, w))
  {
    var b := Link(a, u, v, w);
    forall x, y | 0 <= x < |b| && 0 <= y < |b| ensures Get(b[x], y) == Get(b[y], x) {
      LinkGet(a, u, v, w, x, y);
      LinkGet(a, u, v, w, y, x);
    }
    forall x, y | 0 <= x < |b| && Get(b[x], y).Some? ensures 0 <= y < |b| {
      LinkGet(a, u, v, w, x, y);
    }
    LinkDistinct(a, u, v, w);
  }

  lemma LinkDistinct(a: seq<Dict>, u: int, v: int, w: int)
    requires 0 <= u < |a| && 0 <= v < |a|
    requires forall x :: 0 <= x < |a| ==> Distinct(Keys(a[x]))
    ensures forall x :: 0 <= x < |a| ==> Distinct(Keys(Link(a, u, v, w)[x]))
  {
    var a1 := a[u := Put(a[u], v, w)];
    PutDistinct(a[u], v, w);
    assert forall x :: 0 <= x < |a| ==> Distinct(Keys(a1[x]));
    PutDistinct(a1[v], u, w);
  }

  /** The two deletions of remove_edge for u != v. */
  function Unlink(a: seq<Dict>, u: int, v: int): (r: seq<Dict>)
    requires 0 <= u < |a| && 0 <= v < |a|
    ensures |r| == |a|
  {
    var a1 := a[u := Delete(a[u], v)];
    a1[v := Delete(a1[v], u)]
  }

  /** After remove_edge the pair {u, v} is gone and every other pair is as before. */
  lemma UnlinkGet(a: seq<Dict>, u: int, v: int, x: int, y: int)
    requires Symmetric(a) && 0 <= u < |a| && 0 <= v < |a| && 0 <= x < |a|
    ensures Get(Unlink(a, u, v)[x], y) == if (x == u && y == v) || (x == v && y == u) then None else Get(a[x], y)
  {
    var a1 := a[u := Delete(a[u], v)];
    DeleteGet(a[u], v, y);
    DeleteDistinct(a[u], v);
    DeleteGet(a1[v], u, y);
  }

  /** remove_edge keeps the adjacency lists symmetric. */
  lemma UnlinkSymmetric(a: seq<Dict>, u: int, v: int)
    requires Symmetric(a) && 0 <= u < |a| && 0 <= v < |a|
    ensures Symmetric(Unlink(a, u, v))
  {
    var b := Unlink(a, u, v);
    forall x, y | 0 <= x < |b| && 0 <= y < |b| ensures Get(b[x], y) == Get(b[y], x) {
      UnlinkGet(a, u, v, x, y);
      UnlinkGet(a, u, v, y, x);
    }
    forall x, y | 0 <= x < |b| && Get(b[x], y).Some? ensures 0 <= y < |b| {
      UnlinkGet(a, u, v, x, y);
    }
    forall x | 0 <= x < |b| ensures Distinct(Keys(b[x])) {
      var a1 := a[u := Delete(a[u], v)];
      DeleteDistinct(a[u], v);
      DeleteDistinct(a1[v], u);
    }
  }

  /**
   * The self-loop case of remove_edge: the first `del` removes u from its
   * own dict (the second then raises KeyError); the lists stay symmetric.
   */
  lemma DropSelfLoop(a: seq<Dict>, u: int)
    requires Symmetric(a) && 0 <= u < |a|
    ensures forall x, y :: 0 <= x < |a| ==>
      Get(a[u := Delete(a[u], u)][x], y) == if x == u && y == u then None else Get(a[x], y)
    ensures Symmetric(a[u := Delete(a[u], u)])
  {
    var b := a[u := Delete(a[u], u)];
    forall x, y | 0 <= x < |a| ensures Get(b[x], y) == if x == u && y == u then None else Get(a[x], y) {
      DeleteGet(a[u], u, y);
    }
    DeleteDistinct(a[u], u);
  }

  class AdjacencyList {
    const vertices: int
    var adjList: seq<Dict>
    var edgeCount: int

    ghost predicate Valid()
      reads this
    {
      |adjList| == Size(vertices) && Symmetric(adjList)
    }

    predicate InRange(u: int) {
      0 <= u < vertices
    }

    constructor(vertices: int)
      ensures Valid() && this.vertices == vertices && edgeCount == 0
      ensures adjList == seq(Size(vertices), _ => [])
    {
      this.vertices := vertices;
      adjList := seq(Size(vertices), _ => []);
      edgeCount := 0;
    }

    /** `has_edge`. */
    predicate HasEdge(u: int, v: int)
      reads this
      requires Valid()
    {
      InRange(u) && v in Keys(adjList[u])
    }

    /** `get_neighbors`: the keys of u's dict in insertion order; [] out of range. */
    function GetNeighbors(vertex: int): (r: seq<int>)
      reads this
      requires Valid()
      ensures Distinct(r) && forall i :: 0 <= i < |r| ==> InRange(r[i])
      ensures forall v :: v in r <==> HasEdge(vertex, v)
    {
      if InRange(vertex) then
        var r := Keys(adjList[vertex]);
        assert forall i :: 0 <= i < |r| ==> Get(adjList[vertex], r[i]).Some?;
        r
      else []
    }

    /** `get_neighbors_with_weights`: the dict's items in insertion order; [] out of range. */
    function GetNeighborsWithWeights(vertex: int): (r: Dict)
      reads this
      requires Valid()
      ensures Keys(r) == GetNeighbors(vertex)
    {
      if InRange(vertex) then adjList[vertex] else []
    }

    /** Edges go both ways: v is a neighbour of u exactly when u is one of v. */
    lemma NeighborsSymmetric(u: int, v: int)
      requires Valid()
      ensures v in GetNeighbors(u) <==> u in GetNeighbors(v)
    {
      if InRange(u) && InRange(v) {
        assert Get(adjList[u], v) == Get(adjList[v], u);
      }
    }

    /**
     * `add_edge`: in range, both dicts map to the weight (an existing
     * entry is overwritten in place) and edge_count grows by one even
     * when the edge was already there; out of range nothing changes.
     */
    method AddEdge(u: int, v: int, weight: int := 1)
      requires Valid()
      modifies this
      ensures Valid()
      ensures InRange(u) && InRange(v) ==> adjList == Link(old(adjList), u, v, weight) && edgeCount == old(edgeCount) + 1
      ensures !(InRange(u) && InRange(v)) ==> adjList == old(adjList) && edgeCount == old(edgeCount)
      ensures InRange(u) && InRange(v) ==> HasEdge(u, v) && HasEdge(v, u)
    {
      if 0 <= u < vertices && 0 <= v < vertices {
        LinkSymmetric(adjList, u, v, weight);
        LinkGet(adjList, u, v, weight, u, v);
        LinkGet(adjList, u, v, weight, v, u);
        adjList := Link(adjList, u, v, weight);
        edgeCount := edgeCount + 1;
      }
    }

    /**
     * `remove_edge`: only an existing edge is removed, from both dicts,
     * and only then does edge_count drop. For a self-loop the second
     * `del` finds the key already gone and raises KeyError, after the
     * first deletion and before the count changes.
     */
    method RemoveEdge(u: int, v: int) returns (r: Result<()>)
      requires Valid()
      modifies this
      ensures Valid()
      ensures r.Err? <==> InRange(u) && u == v && v in Keys(old(adjList)[u])
      ensures r.Err? ==> r.error == KeyError && adjList == old(adjList)[u := Delete(old(adjList)[u], u)] && edgeCount == old(edgeCount)
      ensures r.Ok? && InRange(u) && InRange(v) && v in Keys(old(adjList)[u]) ==>
        adjList == Unlink(old(adjList), u, v) && edgeCount == old(edgeCount) - 1
      ensures r.Ok? && !(InRange(u) && InRange(v) && v in Keys(old(adjList)[u])) ==>
        adjList == old(adjList) && edgeCount == old(edgeCount)
      ensures InRange(u) && InRange(v) ==> !HasEdge(u, v) && !HasEdge(v, u)
    {
      r := Ok(());
      if 0 <= u < vertices && 0 <= v < vertices {
        if v in Keys(adjList[u]) {
          if u == v {
            DropSelfLoop(adjList, u);
            adjList := adjList[u := Delete(adjList[u], v)];
            return Err(KeyError);
          }
          UnlinkSymmetric(adjList, u, v);
          UnlinkGet(adjList, u, v, u, v);
          UnlinkGet(adjList, u, v, v, u);
          adjList := Unlink(adjList, u, v);
          edgeCount := edgeCount - 1;
        } else {
          assert Get(adjList[u], v) == Get(adjList[v], u);
        }
      }
    }
  }

  // ---------------------------------------------------------------- adjacency matrix

  class AdjacencyMatrix {
    const vertices: int
    const matrix: array2<int>
    var edgeCount: int

    /** The matrix is V x V and symmetric. */
    ghost predicate Valid()
      reads this, matrix
    {
      matrix.Length0 == Size(vertices) && matrix.Length1 == Size(vertices) &&
      forall x, y :: 0 <= x < Size(vertices) && 0 <= y < Size(vertices) ==> matrix[x, y] == matrix[y, x]
    }

    predicate InRange(u: int) {
      0 <= u < vertices
    }

    constructor(vertices: int)
      ensures Valid() && this.vertices == vertices && edgeCount == 0 && fresh(matrix)
      ensures forall x, y :: 0 <= x < Size(vertices) && 0 <= y < Size(vertices) ==> matrix[x, y] == 0
    {
      this.vertices := vertices;
      matrix := new int[Size(vertices), Size(vertices)]((_, _) => 0);
      edgeCount := 0;
    }

    /** `has_edge`: in range and a non-zero weight, so weight 0 means no edge. */
    predicate HasEdge(u: int, v: int)
      reads this, matrix
      requires Valid()
    {
      InRange(u) && InRange(v) && matrix[u, v] != 0
    }

    /** [i for i in range(k) if matrix[vertex][i] != 0]. */
    function Row(vertex: int, k: nat): (r: seq<int>)
      reads this, matrix
      requires Valid() && InRange(vertex) && k <= Size(vertices)
      ensures forall i, j :: 0 <= i < j < |r| ==> r[i] < r[j]
      ensures forall i :: 0 <= i < |r| ==> 0 <= r[i] < k
      ensures forall x :: 0 <= x < k ==> (x in r <==> matrix[vertex, x] != 0)
    {
      if k == 0 then [] else Row(vertex, k - 1) + if matrix[vertex, k - 1] != 0 then [k - 1] else []
    }

    /** `get_neighbors`: the vertices with a non-zero weight, ascending; [] out of range. */
    function GetNeighbors(vertex: int): (r: seq<int>)
      reads this, matrix
      requires Valid()
      ensures forall i, j :: 0 <= i < j < |r| ==> r[i] < r[j]
      ensures forall i :: 0 <= i < |r| ==> InRange(r[i])
      ensures forall v :: v in r <==> HasEdge(vertex, v)
    {
      if InRange(vertex) then Row(vertex, Size(vertices)) else []
    }

    /**
     * `add_edge`: in range, both cells take the weight and edge_count
     * grows by one, whatever was there before; out of range nothing changes.
     */
    method AddEdge(u: int, v: int, weight: int := 1)
      requires Valid()
      modifies this, matrix
      ensures Valid()
      ensures InRange(u) && InRange(v) ==> matrix[u, v] == weight && matrix[v, u] == weight && edgeCount == old(edgeCount) + 1
      ensures InRange(u) && InRange(v) ==> forall x, y ::
        (0 <= x < Size(vertices) && 0 <= y < Size(vertices) && !(x == u && y == v) && !(x == v && y == u)) ==>
        matrix[x, y] == old(matrix[x, y])
      ensures !(InRange(u) && InRange(v)) ==> unchanged(matrix) && edgeCount == old(edgeCount)
      ensures InRange(u) && InRange(v) ==> (HasEdge(u, v) <==> weight != 0)
    {
      if 0 <= u < vertices && 0 <= v < vertices {
        matrix[u, v] := weight;
        matrix[v, u] := weight;
        edgeCount := edgeCount + 1;
      }
    }

    /**
     * `remove_edge`: in range, both cells become 0 and edge_count drops
     * by one even if there was no edge, so it can go negative.
     */
    method RemoveEdge(u: int, v: int)
      requires Valid()
      modifies this, matrix
      ensures Valid()
      ensures InRange(u) && InRange(v) ==> matrix[u, v] == 0 && matrix[v, u] == 0 && edgeCount == old(edgeCount) - 1
      ensures InRange(u) && InRange(v) ==> forall x, y ::
        (0 <= x < Size(vertices) && 0 <= y < Size(vertices) && !(x == u && y == v) && !(x == v && y == u)) ==>
        matrix[x, y] == old(matrix[x, y])
      ensures !(InRange(u) && InRange(v)) ==> unchanged(matrix) && edgeCount == old(edgeCount)
      ensures !HasEdge(u, v)
    {
      if 0 <= u < vertices && 0 <= v < vertices {
        matrix[u, v] := 0;
        matrix[v, u] := 0;
        edgeCount := edgeCount - 1;
      }
    }
  }
}
