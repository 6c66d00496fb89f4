/** DepthFirstSearch.dfs: a depth-first walk from one vertex with an
    explicit stack that marks each vertex when it is pushed, pushes the
    neighbours of a popped vertex back to front, and reports the largest
    size the stack reached. */
module DepthFirstSearch {
  import opened Reachability
  import opened Frontier
  import opened AdjacencyGraph
  import opened DfsInvariant

  /** dfs(graph, startNode). The ghost order lists the vertices in the
      order they were pushed: startNode first, none twice, and exactly the
      vertices reachable from startNode. The result is the largest size the
      stack reached (LargestStack run from startNode alone); it is at least
      1 and at most the number of reachable vertices. */
  method Dfs<V(==, !new)>(graph: Graph<V>, startNode: V) returns (maxStackSize: int, ghost order: seq<V>)
    ensures |order| > 0 && order[0] == startNode && Distinct(order)
    ensures forall v :: v in order <==> Reachable(graph.adjacencyList, startNode, v)
    ensures 1 <= maxStackSize <= |order|
    ensures maxStackSize == LargestStack(graph.adjacencyList, {startNode}, [startNode], 1)
  {
    var adj := graph.adjacencyList;
    ghost var bound := Universe(adj) + {startNode};
    var visited := {startNode};
    var stack := [startNode];
    maxStackSize := 1;
    order := [startNode];
    ghost var done: set<V> := {};
    ReachSelf(adj, startNode, {});
    while stack != []
      invariant DfsState(adj, startNode, bound, visited, order, stack, done)
      invariant 1 <= maxStackSize <= |order|
      invariant LargestStack(adj, visited, stack, maxStackSize) == LargestStack(adj, {startNode}, [startNode], 1)
      decreases |bound - visited|, |stack|
    {
      var current := stack[|stack| - 1];
      var neighbors := Neighbours(adj, current);
      var stack', visited', maxStackSize' := PushFreshReversed(stack[..|stack| - 1], visited, neighbors, maxStackSize);
      ghost var added := Fresh(Reverse(neighbors), visited);
      LargestStackStep(adj, visited, stack, maxStackSize, visited', stack', maxStackSize');
      DfsStep(adj, startNode, bound, visited, order, stack, done, visited', added);
      stack, visited, maxStackSize, order, done := stack', visited', maxStackSize', order + added, done + {current};
    }
    DfsDone(adj, startNode, bound, visited, order, done);
  }

  /** dfsWithOutput: the same walk, printing each vertex as it is popped;
      with the printing left out it returns what dfs returns. */
  method DfsWithOutput<V(==, !new)>(graph: Graph<V>, startNode: V) returns (maxStackSize: int, ghost order: seq<V>)
    ensures |order| > 0 && order[0] == startNode && Distinct(order)
    ensures forall v :: v in order <==> Reachable(graph.adjacencyList, startNode, v)
    ensures 1 <= maxStackSize <= |order|
    ensures maxStackSize == LargestStack(graph.adjacencyList, {startNode}, [startNode], 1)
  {
    maxStackSize, order := Dfs(graph, startNode);
  }

  /** The inner loop of dfs over one neighbour list, index from the last
      entry down to the first: every neighbour not yet marked is marked and
      pushed, and the maximum is raised to the stack's size after each
      push. The neighbours end on the stack in Fresh(Reverse(neighbors))
      order, so when no neighbour is listed twice the first unmarked one
      in list order is on top. */
  method PushFreshReversed<V(==, !new)>(stack: seq<V>, visited: set<V>, neighbors: seq<V>, maxStackSize: int)
    returns (stack': seq<V>, visited': set<V>, maxStackSize': int)
    ensures stack' == stack + Fresh(Reverse(neighbors), visited)
    ensures forall x :: x in visited' <==> x in visited || x in neighbors
    ensures maxStackSize' == if |stack'| > |stack| then Max(maxStackSize, |stack'|) else maxStackSize
    ensures forall f :: Distinct(neighbors) && 0 <= f < |neighbors| && neighbors[f] !in visited && (forall k :: 0 <= k < f ==> neighbors[k] in visited) ==>
      |stack'| > |stack| && stack'[|stack'| - 1] == neighbors[f]
  {
    stack', visited', maxStackSize' := stack, visited, maxStackSize;
    var i := |neighbors| - 1;
    assert neighbors[..i + 1] == neighbors;
    while i >= 0
      invariant -1 <= i < |neighbors|
      invariant stack' + Fresh(Reverse(neighbors[..i + 1]), visited') == stack + Fresh(Reverse(neighbors), visited)
      invariant |stack| <= |stack'|
      invariant visited <= visited'
      invariant forall x :: x in visited' ==> x in visited || x in neighbors
      invariant forall k :: i < k < |neighbors| ==> neighbors[k] in visited'
      invariant maxStackSize' == if |stack'| > |stack| then Max(maxStackSize, |stack'|) else maxStackSize
      decreases i
    {
      var neighbor := neighbors[i];
      assert Reverse(neighbors[..i + 1]) == [neighbor] + Reverse(neighbors[..i]) by {
        assert neighbors[..i + 1][..i] == neighbors[..i];
      }
      if neighbor !in visited' {
        ghost var rest := Fresh(Reverse(neighbors[..i]), visited' + {neighbor});
        assert Fresh(Reverse(neighbors[..i + 1]), visited') == [neighbor] + rest;
        assert stack' + ([neighbor] + rest) == (stack' + [neighbor]) + rest;
        visited' := visited' + {neighbor};
        stack' := stack' + [neighbor];
        maxStackSize' := Max(maxStackSize', |stack'|);
      } else {
        assert Fresh(Reverse(neighbors[..i + 1]), visited') == Fresh(Reverse(neighbors[..i]), visited');
      }
      i := i - 1;
    }
    assert neighbors[..0] == [];
    ghost var pushed := Fresh(Reverse(neighbors), visited);
    assert stack' == stack + pushed;
    forall f | Distinct(neighbors) && 0 <= f < |neighbors| && neighbors[f] !in visited && (forall k :: 0 <= k < f ==> neighbors[k] in visited)
      ensures |stack'| > |stack| && stack'[|stack'| - 1] == neighbors[f]
    {
      FirstOnTop(neighbors, visited, f);
      assert stack'[|stack'| - 1] == pushed[|pushed| - 1];
    }
  }

  /** findConnectedComponent, the lazy-marking helper over a graph of
      string vertices: it marks a vertex when it is popped rather than
      pushed, and is otherwise Graph.findConnectedComponent with a print
      of each vertex it marks. It adds to visited exactly the vertices
      reachable from startNode along paths outside the set it was given. */
  method FindConnectedComponent(graph: Graph<string>, startNode: string, visited0: set<string>) returns (visited: set<string>)
    ensures forall v :: v in visited <==> v in visited0 || ReachableAvoiding(graph.adjacencyList, startNode, v, visited0)
  {
    visited := AdjacencyGraph.FindConnectedComponent(graph, startNode, visited0);
  }
}
