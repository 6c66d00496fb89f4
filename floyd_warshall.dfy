/** FloydWarshall: the static methods of the Java class over arrays.
    findAllPairsShortestPaths fills a distance matrix and a next matrix
    indexed by the positions of a list of the graph's vertices (a
    parameter here: the Java code copies the graph's key set, and the
    loading loop walks the key set in the same order), reconstructPath
    follows the next matrix, hasNegativeCycle repeats the algorithm with a
    guarded relaxation and looks at the diagonal, getShortestDistance
    reads one entry. Each array is proved to hold the matrix
    FloydWarshallMatrix defines, and the facts about routes are proved
    there. */
module FloydWarshall {
  import opened Wrappers
  import opened Frontier
  import opened WeightedGraphs
  import opened Distances
  import opened MatrixRoutes
  import opened FloydWarshallMatrix

  /** The loop that fills vertexToIndex. */
  method IndexVertices<V(==, !new)>(vertices: seq<V>) returns (vertexToIndex: map<V, int>)
    ensures vertexToIndex == Indexed(vertices)
  {
    vertexToIndex := map[];
    for i := 0 to |vertices|
      invariant vertexToIndex == Indexed(vertices[..i])
    {
      assert vertices[..i + 1][..i] == vertices[..i];
      vertexToIndex := vertexToIndex[vertices[i] := i];
    }
    assert vertices[..|vertices|] == vertices;
  }

  /** The first loop: infinity off the diagonal, zero on it, no hop anywhere. */
  method NewMatrices(n: nat) returns (dist: array2<Dist>, next: array2<int>)
    ensures fresh(dist) && fresh(next)
    ensures dist.Length0 == n && dist.Length1 == n && next.Length0 == n && next.Length1 == n
    ensures forall x, y :: 0 <= x < n && 0 <= y < n ==>
              dist[x, y] == (if x == y then Finite(0.0) else Infinite) && next[x, y] == -1
  {
    dist := new Dist[n, n];
    next := new int[n, n];
    for i := 0 to n
      invariant forall x, y :: 0 <= x < i && 0 <= y < n ==>
                  dist[x, y] == (if x == y then Finite(0.0) else Infinite) && next[x, y] == -1
    {
      for j := 0 to n
        invariant forall x, y :: 0 <= x < i && 0 <= y < n ==>
                    dist[x, y] == (if x == y then Finite(0.0) else Infinite) && next[x, y] == -1
        invariant forall y :: 0 <= y < j ==> dist[i, y] == Infinite && next[i, y] == -1
      {
        dist[i, j] := Infinite;
        next[i, j] := -1;
      }
      dist[i, i] := Finite(0.0);
    }
  }

  /** The inner loop of the second one, for the vertex at index x: every
      entry (v, w) of es writes w at [x][v] and v's index at next[x][v]. */
  method LoadList<V(==, !new)>(dist: array2<Dist>, next: array2<int>, x: int, es: seq<WeightedEdge<V>>,
                               vertices: seq<V>, vertexToIndex: map<V, int>)
    requires Distinct(vertices)
    requires forall t :: 0 <= t < |es| ==> es[t].target in vertexToIndex
    requires forall v :: v in vertexToIndex ==> 0 <= vertexToIndex[v] < |vertices| && vertices[vertexToIndex[v]] == v
    requires dist.Length0 == |vertices| && dist.Length1 == |vertices| && next.Length0 == |vertices| && next.Length1 == |vertices|
    requires 0 <= x < |vertices|
    requires forall y :: 0 <= y < |vertices| ==> dist[x, y] == (if x == y then Finite(0.0) else Infinite) && next[x, y] == -1
    modifies dist, next
    ensures forall y :: 0 <= y < |vertices| ==>
              dist[x, y] == Loaded(es, vertices[y], x == y) && next[x, y] == LoadedHop(es, vertices[y], y)
    ensures forall r, y :: 0 <= r < |vertices| && r != x && 0 <= y < |vertices| ==>
              dist[r, y] == old(dist[r, y]) && next[r, y] == old(next[r, y])
  {
    for t := 0 to |es|
      invariant forall r, y :: 0 <= r < |vertices| && r != x && 0 <= y < |vertices| ==>
                  dist[r, y] == old(dist[r, y]) && next[r, y] == old(next[r, y])
      invariant forall y :: 0 <= y < |vertices| ==>
                  dist[x, y] == Loaded(es[..t], vertices[y], x == y) && next[x, y] == LoadedHop(es[..t], vertices[y], y)
    {
      var edge := es[t];
      var vIdx := vertexToIndex[edge.target];
      forall y | 0 <= y < |vertices|
        ensures Loaded(es[..t + 1], vertices[y], x == y) == if y == vIdx then Finite(edge.weight) else Loaded(es[..t], vertices[y], x == y)
        ensures LoadedHop(es[..t + 1], vertices[y], y) == if y == vIdx then y else LoadedHop(es[..t], vertices[y], y)
      {
        LoadedStep(es, t, vertices[y], x == y, y);
      }
      dist[x, vIdx] := Finite(edge.weight);
      next[x, vIdx] := vIdx;
    }
    assert es[..|es|] == es;
  }

  /** One pass of the second loop, for u = vertices[x]. */
  method LoadVertex<V(==, !new)>(dist: array2<Dist>, next: array2<int>, adj: map<V, seq<WeightedEdge<V>>>,
                                 vertices: seq<V>, vertexToIndex: map<V, int>, u: V, ghost x: int)
    requires Lists(vertices, adj) && Closed(adj) && vertexToIndex == Indexed(vertices)
    requires 0 <= x < |vertices| && u == vertices[x]
    requires LoadedUpTo(dist, next, adj, vertices, x)
    modifies dist, next
    ensures LoadedUpTo(dist, next, adj, vertices, x + 1)
  {
    ListedAt(vertices, adj, x);
    var uIdx := vertexToIndex[u];
    assert EdgesOf(adj, u) == adj[u];
    LoadList(dist, next, uIdx, adj[u], vertices, vertexToIndex);
  }

  /** The second loop: every entry (v, w) of u's list writes w at [u][v]
      and v's index at next[u][v], so the last entry for a pair wins. */
  method LoadEntries<V(==, !new)>(dist: array2<Dist>, next: array2<int>, adj: map<V, seq<WeightedEdge<V>>>,
                                  vertices: seq<V>, vertexToIndex: map<V, int>)
    requires Lists(vertices, adj) && Closed(adj) && vertexToIndex == Indexed(vertices)
    requires dist.Length0 == |vertices| && dist.Length1 == |vertices| && next.Length0 == |vertices| && next.Length1 == |vertices|
    requires forall x, y :: 0 <= x < |vertices| && 0 <= y < |vertices| ==>
               dist[x, y] == (if x == y then Finite(0.0) else Infinite) && next[x, y] == -1
    modifies dist, next
    ensures Mirrors(dist, Base(adj, vertices)) && Mirrors(next, BaseNext(adj, vertices))
  {
    var n := |vertices|;
    for x := 0 to n
      invariant LoadedUpTo(dist, next, adj, vertices, x)
    {
      LoadVertex(dist, next, adj, vertices, vertexToIndex, vertices[x], x);
    }
    forall x, y | 0 <= x < n && 0 <= y < n
      ensures dist[x, y] == Base(adj, vertices)[x][y] && next[x, y] == BaseNext(adj, vertices)[x][y]
    {
      BaseAt(adj, vertices, x, y);
    }
  }

  /** The body of the triple loop for (i, j) in phase k. */
  method RelaxCell(dist: array2<Dist>, next: array2<int>, k: int, i: int, j: int, ghost d: Matrix, ghost h: seq<seq<int>>)
    requires Shaped(d, h) && 0 <= k < |d| && 0 <= i < |d| && 0 <= j < |d|
    requires Mirrors(dist, d) && Mirrors(next, h)
    modifies dist, next
    ensures Mirrors(dist, Step(d, h, k, i, j).0) && Mirrors(next, Step(d, h, k, i, j).1)
  {
    if Below(Add(dist[i, k], dist[k, j]), dist[i, j]) {
      dist[i, j] := Add(dist[i, k], dist[k, j]);
      next[i, j] := next[i, k];
    }
  }

  /** The innermost loop, over j, for row i of phase k. */
  method RelaxRow(dist: array2<Dist>, next: array2<int>, k: int, i: int, ghost d: Matrix, ghost h: seq<seq<int>>)
    requires Shaped(d, h) && 0 <= k < |d| && 0 <= i < |d|
    requires Mirrors(dist, d) && Mirrors(next, h)
    modifies dist, next
    ensures Mirrors(dist, RowSteps(d, h, k, i, |d|).0) && Mirrors(next, RowSteps(d, h, k, i, |d|).1)
  {
    for j := 0 to dist.Length1
      invariant Mirrors(dist, RowSteps(d, h, k, i, j).0) && Mirrors(next, RowSteps(d, h, k, i, j).1)
    {
      RelaxCell(dist, next, k, i, j, RowSteps(d, h, k, i, j).0, RowSteps(d, h, k, i, j).1);
    }
  }

  /** The middle loop, over i, of phase k. */
  method RelaxPhase(dist: array2<Dist>, next: array2<int>, k: int, ghost d: Matrix, ghost h: seq<seq<int>>)
    requires Shaped(d, h) && 0 <= k < |d|
    requires Mirrors(dist, d) && Mirrors(next, h)
    modifies dist, next
    ensures Mirrors(dist, PhaseSteps(d, h, k, |d|).0) && Mirrors(next, PhaseSteps(d, h, k, |d|).1)
  {
    for i := 0 to dist.Length0
      invariant Mirrors(dist, PhaseSteps(d, h, k, i).0) && Mirrors(next, PhaseSteps(d, h, k, i).1)
    {
      RelaxRow(dist, next, k, i, PhaseSteps(d, h, k, i).0, PhaseSteps(d, h, k, i).1);
    }
  }

  /** The outer loop, over k. */
  method RelaxAll(dist: array2<Dist>, next: array2<int>, ghost d: Matrix, ghost h: seq<seq<int>>)
    requires Shaped(d, h) && Mirrors(dist, d) && Mirrors(next, h)
    modifies dist, next
    ensures Mirrors(dist, AllPairs(d, h).0) && Mirrors(next, AllPairs(d, h).1)
  {
    for k := 0 to dist.Length0
      invariant Mirrors(dist, Phases(d, h, k).0) && Mirrors(next, Phases(d, h, k).1)
    {
      RelaxPhase(dist, next, k, Phases(d, h, k).0, Phases(d, h, k).1);
    }
  }

  /** findAllPairsShortestPaths: the "distance" and "next" matrices of the
      result are those of Final (whose meaning FinalWitnessed, FinalLeast,
      FinalFinite and FinalHop state). */
  method FindAllPairsShortestPaths<V(==, !new)>(graph: WeightedGraph<V>, vertices: seq<V>) returns (dist: array2<Dist>, next: array2<int>)
    requires graph.Valid() && Lists(vertices, graph.adjacencyList)
    ensures fresh(dist) && fresh(next)
    ensures Mirrors(dist, Final(graph.adjacencyList, vertices).0) && Mirrors(next, Final(graph.adjacencyList, vertices).1)
  {
    var adj := graph.adjacencyList;
    var n := |vertices|;
    var vertexToIndex := IndexVertices(vertices);
    dist, next := NewMatrices(n);
    LoadEntries(dist, next, adj, vertices, vertexToIndex);
    RelaxAll(dist, next, Base(adj, vertices), BaseNext(adj, vertices));
  }

  /** The loop of reconstructPath, from the index s of start towards the
      index e of end: it adds the vertex at each hop until it reaches e. An
      index outside vertices or outside next throws. When the hops revisit
      an index before reaching e the Java loop can never stop and the
      growing list exhausts the heap: that happens at the latest once the
      hops outnumber the vertices. */
  method FollowHops<V>(start: V, vertices: seq<V>, next: array2<int>, s: int, e: int) returns (r: Result<seq<V>>, ghost hops: seq<int>)
    requires 0 <= s < |vertices| && vertices[s] == start && s < next.Length0 && 0 <= e < next.Length1
    ensures |hops| >= 1 && hops[0] == s && Follows(next, hops, e)
    ensures r.Thrown? ==>
              || (r.exception == IndexOutOfBounds && !(0 <= hops[|hops| - 1] < |vertices| && hops[|hops| - 1] < next.Length0))
              || (r.exception == OutOfMemory && hops[|hops| - 1] != e && !Distinct(hops))
    ensures r.Ok? ==> hops[|hops| - 1] == e && Visits(vertices, hops, r.value)
  {
    var startIdx := s;
    var path := [start];
    hops := [s];
    var visited := 1;
    while startIdx != e
      invariant visited == |hops| && hops[0] == s && hops[|hops| - 1] == startIdx
      invariant Follows(next, hops, e) && Visits(vertices, hops, path)
      invariant |hops| <= |vertices| + 1
      decreases |vertices| + 1 - |hops|
    {
      if visited == |vertices| + 1 {
        if Distinct(hops) {
          DistinctBelow(hops, |vertices|);
        }
        return Thrown(OutOfMemory), hops;
      }
      if startIdx >= next.Length0 {
        return Thrown(IndexOutOfBounds), hops;
      }
      FollowsStep(next, hops, e);
      startIdx := next[startIdx, e];
      hops := hops + [startIdx];
      if !(0 <= startIdx < |vertices|) {
        return Thrown(IndexOutOfBounds), hops;
      }
      VisitsStep(vertices, hops[..|hops| - 1], path, startIdx);
      assert hops[..|hops| - 1] + [startIdx] == hops;
      path := path + [vertices[startIdx]];
      visited := visited + 1;
    }
    return Ok(path), hops;
  }

  /** reconstructPath: both vertices must be in the list (the unboxing of a
      missing index throws a NullPointerException), a hop of -1 from start
      gives the empty path, and otherwise the path follows the hops of next
      (FollowHops); hops records the indices visited. */
  method ReconstructPath<V(==, !new)>(start: V, end: V, vertices: seq<V>, next: array2<int>) returns (r: Result<seq<V>>, ghost hops: seq<int>)
    ensures r == Thrown(NullPointer) <==> start !in vertices || end !in vertices
    ensures start in vertices && end in vertices ==> hops != [] && hops[0] == Indexed(vertices)[start]
    ensures r == Thrown(IndexOutOfBounds) ==>
              var s, e, last := Indexed(vertices)[start], Indexed(vertices)[end], hops[|hops| - 1];
              !(s < next.Length0 && e < next.Length1) ||
              (next[s, e] != -1 && Follows(next, hops, e) && !(0 <= last < |vertices| && last < next.Length0))
    ensures r == Thrown(OutOfMemory) ==>
              var e := Indexed(vertices)[end];
              Follows(next, hops, e) && hops[|hops| - 1] != e && !Distinct(hops)
    ensures r.Thrown? ==> r.exception in {NullPointer, IndexOutOfBounds, OutOfMemory}
    ensures r == Ok([]) <==>
              && start in vertices && end in vertices
              && Indexed(vertices)[start] < next.Length0 && Indexed(vertices)[end] < next.Length1
              && next[Indexed(vertices)[start], Indexed(vertices)[end]] == -1
    ensures r.Ok? && r.value != [] ==>
              var e := Indexed(vertices)[end];
              hops[|hops| - 1] == e && Follows(next, hops, e) && Visits(vertices, hops, r.value)
  {
    hops := [];
    var vertexToIndex := IndexVertices(vertices);
    if start !in vertexToIndex || end !in vertexToIndex {
      return Thrown(NullPointer), hops;
    }
    var startIdx := vertexToIndex[start];
    var endIdx := vertexToIndex[end];
    hops := [startIdx];
    if startIdx >= next.Length0 || endIdx >= next.Length1 {
      return Thrown(IndexOutOfBounds), hops;
    }
    if next[startIdx, endIdx] == -1 {
      return Ok([]), hops;
    }
    r, hops := FollowHops(start, vertices, next, startIdx, endIdx);
  }

  /** getShortestDistance: the entry of Final for the pair, or a
      NullPointerException (an unboxed missing index) when either vertex is
      not in the graph. */
  method GetShortestDistance<V(==, !new)>(graph: WeightedGraph<V>, vertices: seq<V>, from: V, to: V) returns (r: Result<Dist>)
    requires graph.Valid() && Lists(vertices, graph.adjacencyList)
    ensures r.Thrown? <==> from !in graph.adjacencyList || to !in graph.adjacencyList
    ensures r.Thrown? ==> r.exception == NullPointer
    ensures r.Ok? ==> r.value == Final(graph.adjacencyList, vertices).0[Indexed(vertices)[from]][Indexed(vertices)[to]]
  {
    var dist, next := FindAllPairsShortestPaths(graph, vertices);
    var vertexToIndex := IndexVertices(vertices);
    if from !in vertexToIndex || to !in vertexToIndex {
      return Thrown(NullPointer);
    }
    var fromIdx := vertexToIndex[from];
    var toIdx := vertexToIndex[to];
    r := Ok(dist[fromIdx, toIdx]);
  }

  /** The first loop of hasNegativeCycle: infinity off the diagonal, zero
      on it. */
  method NewDistances(n: nat) returns (dist: array2<Dist>)
    ensures fresh(dist) && dist.Length0 == n && dist.Length1 == n
    ensures forall x, y :: 0 <= x < n && 0 <= y < n ==> dist[x, y] == (if x == y then Finite(0.0) else Infinite)
  {
    dist := new Dist[n, n];
    for i := 0 to n
      invariant forall x, y :: 0 <= x < i && 0 <= y < n ==> dist[x, y] == (if x == y then Finite(0.0) else Infinite)
    {
      for j := 0 to n
        invariant forall x, y :: 0 <= x < i && 0 <= y < n ==> dist[x, y] == (if x == y then Finite(0.0) else Infinite)
        invariant forall y :: 0 <= y < j ==> dist[i, y] == Infinite
      {
        dist[i, j] := Infinite;
      }
      dist[i, i] := Finite(0.0);
    }
  }

  /** The inner loop of the second one, for the vertex at index x: every
      entry (v, w) of es writes w at [x][v]. */
  method LoadDistanceList<V(==, !new)>(dist: array2<Dist>, x: int, es: seq<WeightedEdge<V>>, vertices: seq<V>, vertexToIndex: map<V, int>)
    requires Distinct(vertices)
    requires forall t :: 0 <= t < |es| ==> es[t].target in vertexToIndex
    requires forall v :: v in vertexToIndex ==> 0 <= vertexToIndex[v] < |vertices| && vertices[vertexToIndex[v]] == v
    requires dist.Length0 == |vertices| && dist.Length1 == |vertices| && 0 <= x < |vertices|
    requires forall y :: 0 <= y < |vertices| ==> dist[x, y] == (if x == y then Finite(0.0) else Infinite)
    modifies dist
    ensures forall y :: 0 <= y < |vertices| ==> dist[x, y] == Loaded(es, vertices[y], x == y)
    ensures forall r, y :: 0 <= r < |vertices| && r != x && 0 <= y < |vertices| ==> dist[r, y] == old(dist[r, y])
  {
    for t := 0 to |es|
      invariant forall r, y :: 0 <= r < |vertices| && r != x && 0 <= y < |vertices| ==> dist[r, y] == old(dist[r, y])
      invariant forall y :: 0 <= y < |vertices| ==> dist[x, y] == Loaded(es[..t], vertices[y], x == y)
    {
      var edge := es[t];
      var vIdx := vertexToIndex[edge.target];
      forall y | 0 <= y < |vertices|
        ensures Loaded(es[..t + 1], vertices[y], x == y) == if y == vIdx then Finite(edge.weight) else Loaded(es[..t], vertices[y], x == y)
      {
        LoadedStep(es, t, vertices[y], x == y, y);
      }
      dist[x, vIdx] := Finite(edge.weight);
    }
    assert es[..|es|] == es;
  }

  /** One pass of the second loop, for u = vertices[x]. */
  method LoadDistanceVertex<V(==, !new)>(dist: array2<Dist>, adj: map<V, seq<WeightedEdge<V>>>,
                                         vertices: seq<V>, vertexToIndex: map<V, int>, u: V, ghost x: int)
    requires Lists(vertices, adj) && Closed(adj) && vertexToIndex == Indexed(vertices)
    requires 0 <= x < |vertices| && u == vertices[x]
    requires DistancesUpTo(dist, adj, vertices, x)
    modifies dist
    ensures DistancesUpTo(dist, adj, vertices, x + 1)
  {
    ListedAt(vertices, adj, x);
    var uIdx := vertexToIndex[u];
    assert EdgesOf(adj, u) == adj[u];
    LoadDistanceList(dist, uIdx, adj[u], vertices, vertexToIndex);
  }

  /** The second loop of hasNegativeCycle: the distances of Base. */
  method LoadDistances<V(==, !new)>(dist: array2<Dist>, adj: map<V, seq<WeightedEdge<V>>>, vertices: seq<V>, vertexToIndex: map<V, int>)
    requires Lists(vertices, adj) && Closed(adj) && vertexToIndex == Indexed(vertices)
    requires dist.Length0 == |vertices| && dist.Length1 == |vertices|
    requires forall x, y :: 0 <= x < |vertices| && 0 <= y < |vertices| ==> dist[x, y] == (if x == y then Finite(0.0) else Infinite)
    modifies dist
    ensures Mirrors(dist, Base(adj, vertices))
  {
    var n := |vertices|;
    for x := 0 to n
      invariant DistancesUpTo(dist, adj, vertices, x)
    {
      LoadDistanceVertex(dist, adj, vertices, vertexToIndex, vertices[x], x);
    }
    forall x, y | 0 <= x < n && 0 <= y < n
      ensures dist[x, y] == Base(adj, vertices)[x][y]
    {
      BaseAt(adj, vertices, x, y);
    }
  }

  /** The guarded body of hasNegativeCycle's triple loop: it changes the
      distances as Step does, although no next matrix is kept (h only
      names the one Step would carry). */
  method GuardedCell(dist: array2<Dist>, k: int, i: int, j: int, ghost d: Matrix, ghost h: seq<seq<int>>)
    requires Shaped(d, h) && 0 <= k < |d| && 0 <= i < |d| && 0 <= j < |d| && Mirrors(dist, d)
    modifies dist
    ensures Mirrors(dist, Step(d, h, k, i, j).0)
  {
    if dist[i, k] != Infinite && dist[k, j] != Infinite && Below(Add(dist[i, k], dist[k, j]), dist[i, j]) {
      dist[i, j] := Add(dist[i, k], dist[k, j]);
    }
  }

  /** The innermost guarded loop, over j, for row i of phase k. */
  method GuardedRow(dist: array2<Dist>, k: int, i: int, ghost d: Matrix, ghost h: seq<seq<int>>)
    requires Shaped(d, h) && 0 <= k < |d| && 0 <= i < |d| && Mirrors(dist, d)
    modifies dist
    ensures Mirrors(dist, RowSteps(d, h, k, i, |d|).0)
  {
    for j := 0 to dist.Length1
      invariant Mirrors(dist, RowSteps(d, h, k, i, j).0)
    {
      GuardedCell(dist, k, i, j, RowSteps(d, h, k, i, j).0, RowSteps(d, h, k, i, j).1);
    }
  }

  /** The middle guarded loop, over i, of phase k. */
  method GuardedPhase(dist: array2<Dist>, k: int, ghost d: Matrix, ghost h: seq<seq<int>>)
    requires Shaped(d, h) && 0 <= k < |d| && Mirrors(dist, d)
    modifies dist
    ensures Mirrors(dist, PhaseSteps(d, h, k, |d|).0)
  {
    for i := 0 to dist.Length0
      invariant Mirrors(dist, PhaseSteps(d, h, k, i).0)
    {
      GuardedRow(dist, k, i, PhaseSteps(d, h, k, i).0, PhaseSteps(d, h, k, i).1);
    }
  }

  /** The outer guarded loop, over k: the distances of AllPairs. */
  method GuardedAll(dist: array2<Dist>, ghost d: Matrix, ghost h: seq<seq<int>>)
    requires Shaped(d, h) && Mirrors(dist, d)
    modifies dist
    ensures Mirrors(dist, AllPairs(d, h).0)
  {
    for k := 0 to dist.Length0
      invariant Mirrors(dist, Phases(d, h, k).0)
    {
      GuardedPhase(dist, k, Phases(d, h, k).0, Phases(d, h, k).1);
    }
  }

  /** The last loop of hasNegativeCycle: is some diagonal entry below zero? */
  method NegativeDiagonal(dist: array2<Dist>, ghost d: Matrix) returns (found: bool)
    requires Mirrors(dist, d)
    ensures found <==> exists x :: 0 <= x < |d| && Negative(d[x][x])
  {
    for i := 0 to dist.Length0
      invariant forall x :: 0 <= x < i ==> !Negative(d[x][x])
    {
      if Negative(dist[i, i]) {
        return true;
      }
    }
    return false;
  }

  /** hasNegativeCycle: true exactly when some route through Base returns
      to its start with a weight below zero. */
  method HasNegativeCycle<V(==, !new)>(graph: WeightedGraph<V>, vertices: seq<V>) returns (found: bool)
    requires graph.Valid() && Lists(vertices, graph.adjacencyList)
    ensures found <==> !NoNegativeCycle(Base(graph.adjacencyList, vertices), |vertices|)
  {
    var adj := graph.adjacencyList;
    var n := |vertices|;
    var vertexToIndex := IndexVertices(vertices);
    var dist := NewDistances(n);
    LoadDistances(dist, adj, vertices, vertexToIndex);
    GuardedAll(dist, Base(adj, vertices), BaseNext(adj, vertices));
    found := NegativeDiagonal(dist, Final(adj, vertices).0);
    NegativeCycleDiagonal(adj, vertices);
  }
}
