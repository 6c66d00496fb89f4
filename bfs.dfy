/** BreadthFirstSearch.bfs: a breadth-first walk from one vertex that marks
    each vertex when it is enqueued and reports the largest size the queue
    reached. */
module BreadthFirstSearch {
  import opened Reachability
  import opened Frontier
  import opened AdjacencyGraph
  import opened BfsInvariant

  /** bfs(graph, startNode). The ghost order lists the vertices in the
      order they were enqueued: startNode first, none twice, and exactly
      the vertices reachable from startNode. The queue never held more
      vertices than that, and held startNode at the start. */
  method Bfs<V(==, !new)>(graph: Graph<V>, startNode: V) returns (maxQueueSize: int, ghost order: seq<V>)
    ensures |order| > 0 && order[0] == startNode && Distinct(order)
    ensures forall v :: v in order <==> Reachable(graph.adjacencyList, startNode, v)
    ensures 1 <= maxQueueSize <= |order|
    ensures maxQueueSize == LargestQueue(graph.adjacencyList, {startNode}, [startNode], 1)
  {
    var adj := graph.adjacencyList;
    ghost var bound := Universe(adj) + {startNode};
    var visited := {startNode};
    var queue := [startNode];
    maxQueueSize := 1;
    order := [startNode];
    ghost var head := 0;
    ReachSelf(adj, startNode, {});
    while queue != []
      invariant BfsState(adj, startNode, bound, visited, order, head)
      invariant queue == order[head..]
      invariant 1 <= maxQueueSize <= |order|
      invariant LargestQueue(adj, visited, queue, maxQueueSize) == LargestQueue(adj, {startNode}, [startNode], 1)
      decreases |bound - visited|, |queue|
    {
      var current := queue[0];
      var neighbors := Neighbours(adj, current);
      var queue', visited', maxQueueSize' := EnqueueFresh(queue[1..], visited, neighbors, maxQueueSize);
      ghost var added := Fresh(neighbors, visited);
      LargestQueueStep(adj, visited, queue, maxQueueSize, visited', queue', maxQueueSize');
      BfsStep(adj, startNode, bound, visited, order, head, visited', order + added);
      QueueStep(order, head, queue, added);
      queue, visited, maxQueueSize, order, head := queue', visited', maxQueueSize', order + added, head + 1;
    }
    BfsDone(adj, startNode, bound, visited, order, head);
  }

  /** bfsWithOutput: the same walk, printing each vertex as it is dequeued
      and the size of the queue after each enqueue; with the printing left
      out it returns what bfs returns. */
  method BfsWithOutput<V(==, !new)>(graph: Graph<V>, startNode: V) returns (maxQueueSize: int, ghost order: seq<V>)
    ensures |order| > 0 && order[0] == startNode && Distinct(order)
    ensures forall v :: v in order <==> Reachable(graph.adjacencyList, startNode, v)
    ensures 1 <= maxQueueSize <= |order|
    ensures maxQueueSize == LargestQueue(graph.adjacencyList, {startNode}, [startNode], 1)
  {
    maxQueueSize, order := Bfs(graph, startNode);
  }

  /** The for loop of bfs over one neighbour list: every neighbour not yet
      marked is marked and enqueued, in list order, and the maximum is
      raised to the queue's size after each enqueue. The queue only grows
      here, so the maximum ends at the final size whenever anything was
      enqueued. */
  method EnqueueFresh<V(==, !new)>(queue: seq<V>, visited: set<V>, neighbors: seq<V>, maxQueueSize: int)
    returns (queue': seq<V>, visited': set<V>, maxQueueSize': int)
    ensures queue' == queue + Fresh(neighbors, visited)
    ensures forall x :: x in visited' <==> x in visited || x in neighbors
    ensures maxQueueSize' == if |queue'| > |queue| then Max(maxQueueSize, |queue'|) else maxQueueSize
  {
    queue', visited', maxQueueSize' := queue, visited, maxQueueSize;
    for i := 0 to |neighbors|
      invariant queue' + Fresh(neighbors[i..], visited') == queue + Fresh(neighbors, visited)
      invariant |queue| <= |queue'|
      invariant visited <= visited'
      invariant forall x :: x in visited' ==> x in visited || x in neighbors
      invariant forall k :: 0 <= k < i ==> neighbors[k] in visited'
      invariant maxQueueSize' == if |queue'| > |queue| then Max(maxQueueSize, |queue'|) else maxQueueSize
    {
      var neighbor := neighbors[i];
      assert neighbors[i..][0] == neighbor && neighbors[i..][1..] == neighbors[i + 1..];
      if neighbor !in visited' {
        ghost var rest := Fresh(neighbors[i + 1..], visited' + {neighbor});
        assert Fresh(neighbors[i..], visited') == [neighbor] + rest;
        assert queue' + ([neighbor] + rest) == (queue' + [neighbor]) + rest;
        visited' := visited' + {neighbor};
        queue' := queue' + [neighbor];
        maxQueueSize' := Max(maxQueueSize', |queue'|);
      } else {
        assert Fresh(neighbors[i..], visited') == Fresh(neighbors[i + 1..], visited');
      }
    }
  }
}
