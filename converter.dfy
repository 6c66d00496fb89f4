/** GraphToWeightedGraphConverter: copies an unweighted lab_3 graph into a
    weighted one, giving each adjacency entry a weight drawn from
    [minWeight, maxWeight]. The draw is random in the source; here it is any
    value in range. */
module WeightedGraphConverter {
  import opened Wrappers
  import opened JavaInt
  import opened Reachability
  import opened Frontier
  import AdjacencyGraph
  import opened WeightedGraphs
  import opened WeightedConversion

  /** random.nextInt(maxWeight - minWeight + 1) + minWeight. The bound is
      an int expression: a range wider than IntMax wraps it to a value
      below one, and nextInt then throws IllegalArgumentException. */
  method NextWeight(minWeight: int, maxWeight: int) returns (r: Result<int>)
    requires IsInt(minWeight) && IsInt(maxWeight) && minWeight <= maxWeight
    ensures r.Thrown? <==> maxWeight - minWeight + 1 > IntMax
    ensures r.Thrown? ==> r.exception == IllegalArgument
    ensures r.Ok? ==> minWeight <= r.value <= maxWeight
  {
    var bound := Wrap(maxWeight - minWeight + 1);
    if bound <= 0 {
      return Thrown(IllegalArgument);
    }
    var drawn :| 0 <= drawn < bound;
    r := Ok(drawn + minWeight);
  }

  /** The weight for the entry from -> to: in an undirected graph the one
      already stored under (from, to) or (to, from), else a fresh draw stored
      under (from, to); in a directed graph always a fresh draw. */
  method WeightFor<V(==, !new)>(from: V, to: V, isDirected: bool, edgeWeights: map<(V, V), int>, minWeight: int, maxWeight: int)
    returns (r: Result<int>, edgeWeights': map<(V, V), int>)
    requires IsInt(minWeight) && IsInt(maxWeight) && minWeight <= maxWeight
    requires forall p :: p in edgeWeights ==> minWeight <= edgeWeights[p] <= maxWeight
    ensures r.Thrown? ==> r.exception == IllegalArgument && maxWeight - minWeight + 1 > IntMax
    ensures maxWeight - minWeight + 1 <= IntMax ==> r.Ok?
    ensures r.Ok? ==> minWeight <= r.value <= maxWeight && Chosen(edgeWeights, edgeWeights', from, to, isDirected, r.value)
  {
    edgeWeights' := edgeWeights;
    if !isDirected {
      if (from, to) in edgeWeights {
        return Ok(edgeWeights[(from, to)]), edgeWeights';
      } else if (to, from) in edgeWeights {
        return Ok(edgeWeights[(to, from)]), edgeWeights';
      }
    }
    r := NextWeight(minWeight, maxWeight);
    if r.Ok? && !isDirected {
      edgeWeights' := edgeWeights[(from, to) := r.value];
    }
  }

  /** The first loop: addVertex for every vertex, on an empty graph. */
  method AddVertices<V(==, !new)>(weightedGraph: WeightedGraph<V>, vertices: seq<V>)
    requires weightedGraph.Valid() && weightedGraph.adjacencyList == map[]
    modifies weightedGraph
    ensures weightedGraph.Valid() && weightedGraph.adjacencyList == Isolated(vertices)
  {
    for i := 0 to |vertices|
      invariant weightedGraph.Valid() && weightedGraph.adjacencyList == Isolated(vertices[..i])
    {
      weightedGraph.AddVertex(vertices[i]);
      assert vertices[..i + 1] == vertices[..i] + [vertices[i]];
    }
    assert vertices[..|vertices|] == vertices;
  }

  /** The second loop: one addEdge per adjacency entry, row by row. The
      loop state Converted is written "Converted(...) == true" in the
      contracts of this loop and the next: it is then handed from one
      contract to the next as a single fact instead of clause by clause. */
  method AddWeightedEdges<V(==, !new)>(weightedGraph: WeightedGraph<V>, adjacencyList: map<V, seq<V>>, vertices: seq<V>, minWeight: int, maxWeight: int)
    returns (thrown: Option<Exception>, ghost weights: seq<real>, ghost edgeWeights: map<(V, V), int>)
    requires IsInt(minWeight) && IsInt(maxWeight) && minWeight <= maxWeight
    requires weightedGraph.Valid() && weightedGraph.adjacencyList == Isolated(vertices)
    requires forall k :: 0 <= k < |vertices| ==> vertices[k] in adjacencyList
    modifies weightedGraph
    ensures weightedGraph.Valid()
    ensures thrown.Some? ==> thrown.value == IllegalArgument && maxWeight - minWeight + 1 > IntMax
    ensures thrown.None? ==> Converted(weightedGraph.adjacencyList, adjacencyList, vertices, |vertices|, 0, weights, edgeWeights,
                                       minWeight, maxWeight, weightedGraph.isDirected) == true
  {
    weights := [];
    var stored: map<(V, V), int> := map[];
    ConvertStart(adjacencyList, vertices, minWeight, maxWeight, weightedGraph.isDirected);
    thrown := None;
    var i := 0;
    while i < |vertices| && thrown.None?
      invariant i <= |vertices| && weightedGraph.Valid()
      invariant thrown.Some? ==> thrown.value == IllegalArgument && maxWeight - minWeight + 1 > IntMax
      invariant thrown.None? ==> Converted(weightedGraph.adjacencyList, adjacencyList, vertices, i, 0, weights, stored, minWeight, maxWeight, weightedGraph.isDirected) == true
    {
      thrown, weights, stored := AddRow(weightedGraph, adjacencyList, vertices, i, stored, minWeight, maxWeight, weights);
      if thrown.None? {
        ConvertNextRow(weightedGraph.adjacencyList, adjacencyList, vertices, i, weights, stored, minWeight, maxWeight, weightedGraph.isDirected);
      }
      i := i + 1;
    }
    edgeWeights := stored;
  }

  /** The inner loop for the row of vertices[i]. */
  method AddRow<V(==, !new)>(weightedGraph: WeightedGraph<V>, adjacencyList: map<V, seq<V>>, vertices: seq<V>, i: nat,
                             edgeWeights0: map<(V, V), int>, minWeight: int, maxWeight: int, ghost weights0: seq<real>)
    returns (thrown: Option<Exception>, ghost weights: seq<real>, edgeWeights: map<(V, V), int>)
    requires IsInt(minWeight) && IsInt(maxWeight) && minWeight <= maxWeight && i < |vertices|
    requires weightedGraph.Valid()
    requires Converted(weightedGraph.adjacencyList, adjacencyList, vertices, i, 0, weights0, edgeWeights0, minWeight, maxWeight, weightedGraph.isDirected) == true
    modifies weightedGraph
    ensures weightedGraph.Valid()
    ensures thrown.Some? ==> thrown.value == IllegalArgument && maxWeight - minWeight + 1 > IntMax
    ensures thrown.None? ==> Converted(weightedGraph.adjacencyList, adjacencyList, vertices, i, |adjacencyList[vertices[i]]|, weights,
                                       edgeWeights, minWeight, maxWeight, weightedGraph.isDirected) == true
  {
    weights, edgeWeights := weights0, edgeWeights0;
    var isDirected := weightedGraph.isDirected;
    var neighbors := adjacencyList[vertices[i]];
    thrown := None;
    var j := 0;
    while j < |neighbors| && thrown.None?
      invariant j <= |neighbors| && weightedGraph.Valid()
      invariant thrown.Some? ==> thrown.value == IllegalArgument && maxWeight - minWeight + 1 > IntMax
      invariant thrown.None? ==> Converted(weightedGraph.adjacencyList, adjacencyList, vertices, i, j, weights, edgeWeights, minWeight, maxWeight, isDirected) == true
    {
      thrown, weights, edgeWeights := AddEntry(weightedGraph, adjacencyList, vertices, i, j, weights, edgeWeights, minWeight, maxWeight);
      j := j + 1;
    }
  }

  /** One pass of the inner loop: the weight for the j-th neighbour of
      vertices[i], then addEdge with it. */
  method AddEntry<V(==, !new)>(weightedGraph: WeightedGraph<V>, adjacencyList: map<V, seq<V>>, vertices: seq<V>, i: nat, j: nat,
                               ghost weights0: seq<real>, edgeWeights0: map<(V, V), int>, minWeight: int, maxWeight: int)
    returns (thrown: Option<Exception>, ghost weights: seq<real>, edgeWeights: map<(V, V), int>)
    requires IsInt(minWeight) && IsInt(maxWeight) && minWeight <= maxWeight && i < |vertices|
    requires weightedGraph.Valid()
    requires Converted(weightedGraph.adjacencyList, adjacencyList, vertices, i, j, weights0, edgeWeights0, minWeight, maxWeight, weightedGraph.isDirected) == true
    requires j < |adjacencyList[vertices[i]]|
    modifies weightedGraph
    ensures weightedGraph.Valid()
    ensures thrown.Some? ==> thrown.value == IllegalArgument && maxWeight - minWeight + 1 > IntMax
    ensures thrown.None? ==> Converted(weightedGraph.adjacencyList, adjacencyList, vertices, i, j + 1, weights,
                                       edgeWeights, minWeight, maxWeight, weightedGraph.isDirected) == true
  {
    var from, to := vertices[i], adjacencyList[vertices[i]][j];
    var drawn;
    drawn, edgeWeights := WeightFor(from, to, weightedGraph.isDirected, edgeWeights0, minWeight, maxWeight);
    if drawn.Thrown? {
      return Some(drawn.exception), weights0, edgeWeights;
    }
    ConvertStep(weightedGraph.adjacencyList, adjacencyList, vertices, i, j, weights0, edgeWeights0, edgeWeights,
                minWeight, maxWeight, weightedGraph.isDirected, drawn.value);
    weightedGraph.AddEdge(from, to, drawn.value as real);
    weights := weights0 + [drawn.value as real];
    thrown := None;
  }

  /** convertToWeightedGraph(graph, minWeight, maxWeight). vertices is the
      order in which graph's key set yields its vertices. */
  method ConvertToWeightedGraph<V(==, !new)>(graph: AdjacencyGraph.Graph?<V>, minWeight: int, maxWeight: int, vertices: seq<V>)
    returns (r: Result<WeightedGraph<V>>, ghost weights: seq<real>)
    requires IsInt(minWeight) && IsInt(maxWeight)
    requires graph != null ==> Distinct(vertices) && (set v | v in vertices) == graph.adjacencyList.Keys
    ensures graph == null || minWeight > maxWeight ==> r == Thrown(IllegalArgument)
    ensures r.Thrown? ==> r.exception == IllegalArgument
    ensures graph != null && minWeight <= maxWeight && maxWeight - minWeight + 1 <= IntMax ==> r.Ok?
    ensures r.Ok? ==> graph != null && fresh(r.value) && r.value.Valid() && r.value.isDirected == graph.isDirected
    ensures r.Ok? ==> r.value.adjacencyList.Keys == Universe(graph.adjacencyList)
    ensures r.Ok? ==> |weights| == |Entries(graph.adjacencyList, vertices, |vertices|, 0)|
    ensures r.Ok? ==> r.value.adjacencyList == AddEntries(Isolated(vertices), Entries(graph.adjacencyList, vertices, |vertices|, 0), weights, graph.isDirected)
    ensures r.Ok? ==> WeightsIn(r.value.adjacencyList, minWeight, maxWeight)
    ensures r.Ok? && !graph.isDirected ==> SameWeightBothWays(r.value.adjacencyList)
  {
    weights := [];
    if graph == null {
      return Thrown(IllegalArgument), weights;
    }
    if minWeight > maxWeight {
      return Thrown(IllegalArgument), weights;
    }
    var isDirected := graph.isDirected;
    var weightedGraph := new WeightedGraph<V>(isDirected);
    AddVertices(weightedGraph, vertices);
    var adjacencyList := graph.adjacencyList;
    var thrown;
    ghost var edgeWeights;
    thrown, weights, edgeWeights := AddWeightedEdges(weightedGraph, adjacencyList, vertices, minWeight, maxWeight);
    if thrown.Some? {
      return Thrown(thrown.value), weights;
    }
    KeysOfEntries(adjacencyList, vertices, weights, isDirected);
    if !isDirected {
      StoredAreSame(weightedGraph.adjacencyList, edgeWeights);
    }
    return Ok(weightedGraph), weights;
  }

  /** convertToWeightedGraph(graph): weights from 1 to 100. */
  method ConvertWithDefaultRange<V(==, !new)>(graph: AdjacencyGraph.Graph?<V>, vertices: seq<V>) returns (r: Result<WeightedGraph<V>>, ghost weights: seq<real>)
    requires graph != null ==> Distinct(vertices) && (set v | v in vertices) == graph.adjacencyList.Keys
    ensures graph == null <==> r.Thrown?
    ensures r.Ok? ==> graph != null && fresh(r.value) && r.value.isDirected == graph.isDirected
    ensures r.Ok? ==> |weights| == |Entries(graph.adjacencyList, vertices, |vertices|, 0)|
    ensures r.Ok? ==> WeightsIn(r.value.adjacencyList, 1, 100)
    ensures r.Ok? ==> r.value.adjacencyList == AddEntries(Isolated(vertices), Entries(graph.adjacencyList, vertices, |vertices|, 0), weights, graph.isDirected)
    ensures r.Ok? && !graph.isDirected ==> SameWeightBothWays(r.value.adjacencyList)
  {
    r, weights := ConvertToWeightedGraph(graph, 1, 100, vertices);
  }
}
