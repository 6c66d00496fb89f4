/** DijkstraAlgorithm: the distance of every vertex from a source, and a
    path from the source to a destination, in a WeightedGraph.

    The priority queue is a sequence and poll() takes an entry of least
    current distance (MinIndex). The state predicates are written
    "Inv(...) == true" in the contracts below so that they are handed from
    one step to the next as one fact rather than clause by clause. */
module Dijkstra {
  import opened Wrappers
  import opened Frontier
  import opened WeightedGraphs
  import opened WeightedWalks
  import opened Distances
  import opened DijkstraSearch

  /** The loop over graph.getVertices() that fills the distances. */
  method InitialDistances<V(==, !new)>(vertices: set<V>, source: V) returns (distances: map<V, Dist>)
    ensures distances == Initial(vertices, source)
  {
    distances := map[];
    var rest := vertices;
    while rest != {}
      invariant rest <= vertices
      invariant distances == Initial(vertices - rest, source)
      decreases |rest|
    {
      var vertex :| vertex in rest;
      distances := distances[vertex := if vertex == source then Finite(0.0) else Infinite];
      rest := rest - {vertex};
    }
    assert vertices - rest == vertices;
  }

  /** The loop over graph.getNeighbors(current) once current is settled:
      an entry to a settled vertex is skipped; one that shortens its
      target's distance sets the distance and the previous vertex and adds
      the target to the queue. */
  method Relax<V(==, !new)>(adj: map<V, seq<WeightedEdge<V>>>, source: V, s0: Search<V>, ghost walks0: map<V, Walk<V>>, current: V)
    returns (s: Search<V>, ghost walks: map<V, Walk<V>>)
    requires current in adj && Partial(adj, source, s0, walks0, current, 0) == true
    ensures Inv(adj, source, s, walks) == true
    ensures s.settled == s0.settled
  {
    s, walks := s0, walks0;
    var neighbors := EdgesOf(adj, current);
    for j := 0 to |neighbors|
      invariant s.settled == s0.settled
      invariant Partial(adj, source, s, walks, current, j) == true
    {
      var edge := neighbors[j];
      var neighbor := edge.target;
      if neighbor in s.settled {
        SkipSettled(adj, source, s, walks, current, j);
      } else {
        var newDistance := Plus(s.distances[current], edge.weight);
        if Below(newDistance, s.distances[neighbor]) {
          Improvement(adj, source, s, walks, current, j);
          walks := walks[neighbor := Extend(walks[current], neighbor, edge.weight)];
          s := Search(s.distances[neighbor := newDistance], s.previousVertices[neighbor := current], s.queue + [neighbor], s.settled);
        } else {
          NoImprovement(adj, source, s, walks, current, j);
        }
      }
    }
    Relaxed(adj, source, s, walks, current);
  }

  /** One pass of the outer loop once poll() has taken queue[k]: a settled
      vertex is skipped, any other is settled and its entries relaxed. */
  method Visit<V(==, !new)>(adj: map<V, seq<WeightedEdge<V>>>, source: V, s0: Search<V>, ghost walks0: map<V, Walk<V>>, k: nat)
    returns (s: Search<V>, ghost walks: map<V, Walk<V>>)
    requires Inv(adj, source, s0, walks0) == true
    requires k < |s0.queue|
    requires forall i :: 0 <= i < |s0.queue| ==> NotAbove(s0.distances[s0.queue[k]], s0.distances[s0.queue[i]])
    ensures Inv(adj, source, s, walks) == true
    ensures s.settled == s0.settled + {s0.queue[k]}
    ensures |adj.Keys - s.settled| < |adj.Keys - s0.settled| ||
            (|adj.Keys - s.settled| == |adj.Keys - s0.settled| && |s.queue| < |s0.queue|)
  {
    var current := s0.queue[k];
    var queue := Remove(s0.queue, k);
    if current in s0.settled {
      PolledSettled(adj, source, s0, walks0, k);
      s, walks := s0.(queue := queue), walks0;
    } else {
      PolledFresh(adj, source, s0, walks0, k);
      s, walks := Relax(adj, source, Search(s0.distances, s0.previousVertices, queue, s0.settled + {current}), walks0, current);
      SubsetSmaller(adj.Keys - s0.settled, adj.Keys - s.settled, current);
    }
  }

  /** The outer loop of findShortestPaths: poll until the queue is empty. */
  method SettleAll<V(==, !new)>(adj: map<V, seq<WeightedEdge<V>>>, source: V) returns (s: Search<V>, ghost walks: map<V, Walk<V>>)
    requires Closed(adj) && source in adj
    ensures Inv(adj, source, s, walks) == true && s.queue == []
  {
    var distances := InitialDistances(adj.Keys, source);
    s := Search(distances, map[], [source], {});
    walks := map[source := Walk([source], [])];
    Started(adj, source);
    while s.queue != []
      invariant Inv(adj, source, s, walks) == true
      decreases |adj.Keys - s.settled|, |s.queue|
    {
      var k := MinIndex(s.queue, s.distances);
      s, walks := Visit(adj, source, s, walks, k);
    }
  }

  /** The outer loop of findShortestPath: poll until the queue is empty or
      the destination comes out of it, unsettled and, with no negative
      entry, no farther than any walk to it. */
  method SettleUntil<V(==, !new)>(adj: map<V, seq<WeightedEdge<V>>>, source: V, destination: V)
    returns (s: Search<V>, ghost walks: map<V, Walk<V>>, destinationFound: bool)
    requires Closed(adj) && source in adj
    ensures Inv(adj, source, s, walks) == true
    ensures !destinationFound ==> s.queue == []
    ensures destinationFound ==> destination in walks && (NonNegative(adj) ==>
              forall w :: Leads(adj, w, source, destination) ==> NotAbove(s.distances[destination], Finite(Sum(w.weights))))
  {
    var distances := InitialDistances(adj.Keys, source);
    s := Search(distances, map[], [source], {});
    walks := map[source := Walk([source], [])];
    Started(adj, source);
    destinationFound := false;
    while s.queue != [] && !destinationFound
      invariant Inv(adj, source, s, walks) == true
      invariant destination !in s.settled
      invariant destinationFound ==> destination in walks && (NonNegative(adj) ==>
                  forall w :: Leads(adj, w, source, destination) ==> NotAbove(s.distances[destination], Finite(Sum(w.weights))))
      decreases |adj.Keys - s.settled|, |s.queue|, if destinationFound then 0 else 1
    {
      var k := MinIndex(s.queue, s.distances);
      if s.queue[k] == destination {
        // the entry poll() removed is not looked at again after the break
        ReachedFirst(adj, source, s, walks, k);
        destinationFound := true;
      } else {
        s, walks := Visit(adj, source, s, walks, k);
      }
    }
  }

  /** The loop of findShortestPath that follows the previous vertices back
      from the destination, then the reversal: the vertices of the walk the
      search keeps for the destination. */
  method Trace<V(==)>(previousVertices: map<V, V>, destination: V, ghost walks: map<V, Walk<V>>) returns (path: seq<V>)
    requires Trail(previousVertices, walks) && destination in walks
    ensures path == walks[destination].vertices
  {
    path := [];
    var current: Option<V> := Some(destination);
    while current.Some?
      invariant current.Some? ==> current.value in walks && walks[destination].vertices == walks[current.value].vertices + Reverse(path)
      invariant current.None? ==> walks[destination].vertices == Reverse(path)
      decreases if current.Some? then |walks[current.value].vertices| else 0
    {
      var v := current.value;
      ghost var later := Reverse(path);
      path := path + [v];
      assert Reverse(path) == [v] + later;
      if v in previousVertices {
        var u := previousVertices[v];
        assert walks[destination].vertices == walks[u].vertices + ([v] + later) by {
          assert walks[v].vertices + later == (walks[u].vertices + [v]) + later;
        }
        current := Some(u);
      } else {
        current := None;
      }
    }
    path := Reverse(path);
  }

  class DijkstraAlgorithm<V(==, !new)> {
    const graph: WeightedGraph<V>

    constructor(graph: WeightedGraph<V>)
      ensures this.graph == graph
    {
      this.graph := graph;
    }

    /** findShortestPaths(source): the distance of every vertex, infinite
        exactly for the vertices no walk from the source reaches, each
        finite one the weight of such a walk and, when no weight is
        negative, no more than any of them. */
    method FindShortestPaths(source: V) returns (r: Result<map<V, Dist>>)
      requires graph.Valid()
      ensures r.Thrown? <==> source !in graph.adjacencyList
      ensures r.Thrown? ==> r.exception == IllegalArgument
      ensures r.Ok? ==> r.value.Keys == graph.adjacencyList.Keys && r.value[source] == Finite(0.0)
      ensures r.Ok? ==> forall v :: v in r.value ==> (r.value[v].Finite? <==> Connected(graph.adjacencyList, source, v))
      ensures r.Ok? ==> forall v :: v in r.value && r.value[v].Finite? ==>
                exists w :: Leads(graph.adjacencyList, w, source, v) && Sum(w.weights) == r.value[v].value
      ensures r.Ok? && NonNegative(graph.adjacencyList) ==>
                forall v, w :: v in r.value && Leads(graph.adjacencyList, w, source, v) ==> NotAbove(r.value[v], Finite(Sum(w.weights)))
    {
      var adj := graph.adjacencyList;
      if source !in adj {
        return Thrown(IllegalArgument);
      }
      var s, walks := SettleAll(adj, source);
      Finished(adj, source, s, walks);
      r := Ok(s.distances);
    }

    /** findShortestPath(source, destination): the vertices of a walk from
        the source to the destination, empty exactly when there is none;
        when no weight is negative, no walk between them weighs less. */
    method FindShortestPath(source: V, destination: V) returns (r: Result<seq<V>>, ghost weights: seq<real>)
      requires graph.Valid()
      ensures r.Thrown? <==> source !in graph.adjacencyList || destination !in graph.adjacencyList
      ensures r.Thrown? ==> r.exception == IllegalArgument
      ensures r.Ok? ==> (r.value == [] <==> !Connected(graph.adjacencyList, source, destination))
      ensures r.Ok? && r.value != [] ==> Leads(graph.adjacencyList, Walk(r.value, weights), source, destination)
      ensures r.Ok? && r.value != [] && NonNegative(graph.adjacencyList) ==>
                forall w :: Leads(graph.adjacencyList, w, source, destination) ==> Sum(weights) <= Sum(w.weights)
    {
      weights := [];
      var adj := graph.adjacencyList;
      if source !in adj || destination !in adj {
        return Thrown(IllegalArgument), weights;
      }
      var s, walks, destinationFound := SettleUntil(adj, source, destination);
      if destinationFound {
        Recorded(adj, source, s, walks, destination);
      } else {
        Finished(adj, source, s, walks);
      }
      if s.distances[destination].Infinite? {
        return Ok([]), weights;
      }
      if !destinationFound {
        Recorded(adj, source, s, walks, destination);
      }
      var path := Trace(s.previousVertices, destination, walks);
      weights := walks[destination].weights;
      assert Leads(adj, walks[destination], source, destination);
      r := Ok(path);
    }
  }
}
