/** computeKruskalMST's tree is a minimum spanning tree of a connected graph
    whose entries come in both directions: each accepted edge is a lightest
    entry leaving the vertices the edges accepted before it link to its
    source. */
module KruskalMinimum {
  import opened WeightedGraphs
  import opened SpanningEdges
  import opened SpanningForests
  import opened PrimInvariant
  import opened MinimumTrees

  /** Every entry of the graph lighter than the k-th triple was linked by
      the triples before it. */
  ghost predicate GreedyOn<V(!new)>(adj: map<V, seq<WeightedEdge<V>>>, tree: seq<EdgeTriple<V>>) {
    forall k, u, e :: 0 <= k < |tree| && u in adj && e in adj[u] && e.weight < tree[k].weight ==>
      Linked(tree[..k], u, e.target)
  }

  /** The vertices the first k triples link to the source of the k-th. */
  ghost function Side<V(!new)>(adj: map<V, seq<WeightedEdge<V>>>, tree: seq<EdgeTriple<V>>, k: nat): set<V>
    requires k < |tree|
  {
    set x | x in adj.Keys && Linked(tree[..k], tree[k].source, x)
  }

  /** The k-th accepted edge is a lightest entry leaving its source's side,
      and the edges accepted before it stay on one side or the other. */
  lemma KruskalCut<V(!new)>(adj: map<V, seq<WeightedEdge<V>>>, tree: seq<EdgeTriple<V>>, k: nat)
    requires Closed(adj) && Entries(adj, tree) && Acyclic(tree) && GreedyOn(adj, tree) && k < |tree|
    ensures CutChoice(adj, Side(adj, tree, k), tree[..k], tree[k])
  {
    var e, done, inside := tree[k], tree[..k], Side(adj, tree, k);
    assert WeightedEdge(e.target, e.weight) in EdgesOf(adj, e.source);
    assert e.source in adj && e.target in adj;
    LinkedSelf(done, e.source);
    forall u, f | u in inside && f in EdgesOf(adj, u) && f.target !in inside
      ensures e.weight <= f.weight
    {
      if f.weight < e.weight {
        LinkedTrans(done, e.source, u, f.target);
        assert false;
      }
    }
    forall m | 0 <= m < |done|
      ensures !Crosses(done[m], inside)
    {
      var a, b := done[m].source, done[m].target;
      assert done[m] == tree[m];
      assert WeightedEdge(b, tree[m].weight) in EdgesOf(adj, a);
      LinkedEdge(done, m);
      LinkedFlip(done, a, b);
      if Linked(done, e.source, a) {
        LinkedTrans(done, e.source, a, b);
      }
      if Linked(done, e.source, b) {
        LinkedTrans(done, e.source, b, a);
      }
    }
  }

  /** Kruskal's forest, when it links every vertex with one edge fewer
      than the vertices, is a minimum spanning tree of a graph whose
      entries come in both directions. */
  lemma KruskalMinimal<V(!new)>(adj: map<V, seq<WeightedEdge<V>>>, tree: seq<EdgeTriple<V>>)
    requires Closed(adj) && CountsSymmetric(adj)
    requires Entries(adj, tree) && Acyclic(tree) && GreedyOn(adj, tree)
    requires LinksAll(adj.Keys, tree) && |tree| == |adj.Keys| - 1
    ensures MinimumTree(adj, tree)
  {
    var cuts := seq(|tree|, m requires 0 <= m < |tree| => Side(adj, tree, m));
    forall m | 0 <= m < |tree|
      ensures CutChoice(adj, cuts[m], tree[..m], tree[m])
    {
      KruskalCut(adj, tree, m);
    }
    CutsMinimal(adj, cuts, tree);
  }
}
