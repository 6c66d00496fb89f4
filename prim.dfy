/** computePrimMST's loops: a heap of (vertex, parent, weight) entries
    with lazy deletion. A polled entry into a visited vertex is dropped;
    one into an unvisited vertex joins the tree, and that vertex's entries
    into unvisited vertices are pushed. */
module Prim {
  import opened WeightedGraphs
  import opened WeightedWalks
  import opened SpanningEdges
  import opened SpanningForests
  import opened PrimInvariant

  /** The initial pushes: an entry for every entry of parent's list. */
  method PushAll<V(==, !new)>(parent: V, es: seq<WeightedEdge<V>>, heap0: seq<HeapNode<V>>) returns (heap: seq<HeapNode<V>>)
    ensures heap == heap0 + Nodes(parent, es)
  {
    heap := heap0;
    for j := 0 to |es|
      invariant heap == heap0 + Nodes(parent, es[..j])
    {
      assert es[..j + 1][..j] == es[..j];
      heap := heap + [HeapNode(es[j].target, parent, es[j].weight)];
    }
    assert es[..|es|] == es;
  }

  /** The pushes after a vertex joins: an entry for every entry of its list
      that leads to an unvisited vertex. */
  method PushUnvisited<V(==, !new)>(parent: V, es: seq<WeightedEdge<V>>, unvisited: set<V>, heap0: seq<HeapNode<V>>)
    returns (heap: seq<HeapNode<V>>)
    ensures heap == heap0 + Candidates(parent, es, unvisited)
  {
    heap := heap0;
    for j := 0 to |es|
      invariant heap == heap0 + Candidates(parent, es[..j], unvisited)
    {
      assert es[..j + 1][..j] == es[..j];
      if es[j].target in unvisited {
        heap := heap + [HeapNode(es[j].target, parent, es[j].weight)];
      }
    }
    assert es[..|es|] == es;
  }

  /** PriorityQueue.poll: takes out an entry no heavier than any other.
      Among equal weights any one may come out. */
  method Poll<V(==)>(heap: seq<HeapNode<V>>) returns (h: HeapNode<V>, rest: seq<HeapNode<V>>, ghost k: nat)
    requires |heap| > 0
    ensures k < |heap| && h == heap[k] && Lightest(heap, k)
    ensures multiset(rest) == multiset(heap) - multiset{h} && |rest| == |heap| - 1
  {
    LightestExists(heap);
    var i :| 0 <= i < |heap| && Lightest(heap, i);
    h, rest, k := heap[i], heap[..i] + heap[i + 1..], i;
    assert heap == heap[..i] + [h] + heap[i + 1..];
  }

  /** One pass of the loop body. */
  method PollStep<V(==, !new)>(adj: map<V, seq<WeightedEdge<V>>>, start: V, isDirected: bool,
                               visited0: set<V>, unvisited0: set<V>, heap0: seq<HeapNode<V>>,
                               mst0: map<V, seq<WeightedEdge<V>>>, cost0: real, ghost tree0: seq<EdgeTriple<V>>)
    returns (visited: set<V>, unvisited: set<V>, heap: seq<HeapNode<V>>,
             mst: map<V, seq<WeightedEdge<V>>>, cost: real, ghost tree: seq<EdgeTriple<V>>)
    requires heap0 != []
    requires Growing(adj, start, isDirected, visited0, unvisited0, heap0, mst0, cost0, tree0) == true
    ensures Growing(adj, start, isDirected, visited, unvisited, heap, mst, cost, tree) == true
    ensures |unvisited| < |unvisited0| || (unvisited == unvisited0 && |heap| < |heap0|)
  {
    var h, rest, k := Poll(heap0);
    if h.vertex in visited0 {
      StaleStep(adj, start, isDirected, visited0, unvisited0, heap0, mst0, cost0, tree0, h, rest);
      visited, unvisited, heap, mst, cost, tree := visited0, unvisited0, rest, mst0, cost0, tree0;
    } else {
      assert h.parent in adj && WeightedEdge(h.vertex, h.weight) in adj[h.parent];
      GrowingKeys(adj, start, isDirected, visited0, unvisited0, heap0, mst0, cost0, tree0);
      AttachIsAddEdge(mst0, h.parent, h.vertex, h.weight, isDirected);
      mst := mst0[h.parent := mst0[h.parent] + [WeightedEdge(h.vertex, h.weight)]];
      if !isDirected {
        mst := mst[h.vertex := mst[h.vertex] + [WeightedEdge(h.parent, h.weight)]];
      }
      cost := cost0 + h.weight;
      visited := visited0 + {h.vertex};
      unvisited := unvisited0 - {h.vertex};
      heap := PushUnvisited(h.vertex, EdgesOf(adj, h.vertex), unvisited, rest);
      FreshStep(adj, start, isDirected, visited0, unvisited0, heap0, mst0, cost0, tree0, k, rest,
                visited, unvisited, heap, mst, cost);
      tree := tree0 + [EdgeTriple(h.parent, h.vertex, h.weight)];
    }
  }

  /** The heap loop from start. The tree's triples are entries of the
      graph, each a lightest one leaving the tree grown before it; they
      reach every vertex a walk from start reaches, and only those, each
      vertex but start exactly once, so they form a forest with one triple
      fewer than vertices. spanning tells whether every vertex was
      reached: the condition of the disconnected-graph warning. */
  method GrowTree<V(==, !new)>(adj: map<V, seq<WeightedEdge<V>>>, start: V, isDirected: bool)
    returns (mst: map<V, seq<WeightedEdge<V>>>, cost: real, spanning: bool, ghost tree: seq<EdgeTriple<V>>)
    requires Closed(adj) && start in adj
    ensures Grown(start, tree) && Acyclic(tree) && Entries(adj, tree) && Light(adj, start, tree)
    ensures {start} + Reached(tree) == set v | v in adj && Connected(adj, start, v)
    ensures |tree| == |{start} + Reached(tree)| - 1
    ensures spanning <==> forall v :: v in adj ==> Connected(adj, start, v)
    ensures mst == AddTriples(Bare(adj.Keys), tree, isDirected) && cost == Cost(tree)
  {
    mst, cost := Bare(adj.Keys), 0.0;
    var visited, unvisited := {start}, adj.Keys - {start};
    var heap := PushAll(start, EdgesOf(adj, start), []);
    tree := [];
    PrimStart(adj, start, isDirected);
    while unvisited != {} && heap != []
      invariant Growing(adj, start, isDirected, visited, unvisited, heap, mst, cost, tree) == true
      decreases |unvisited|, |heap|
    {
      visited, unvisited, heap, mst, cost, tree := PollStep(adj, start, isDirected, visited, unvisited, heap, mst, cost, tree);
    }
    PrimDone(adj, start, isDirected, visited, unvisited, heap, mst, cost, tree);
    GrownAcyclic(start, tree);
    spanning := unvisited == {};
  }
}
