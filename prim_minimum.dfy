/** computePrimMST's tree is a minimum spanning tree of a connected graph
    whose entries come in both directions: the cut property, applied once
    per triple the algorithm accepts. */
module PrimMinimum {
  import opened WeightedGraphs
  import opened SpanningEdges
  import opened SpanningForests
  import opened PrimInvariant
  import opened MinimumTrees

  /** A tree grown from start links every two of its vertices. */
  lemma GrownLinksAll<V(!new)>(start: V, tree: seq<EdgeTriple<V>>)
    requires Grown(start, tree)
    ensures LinksAll({start} + Reached(tree), tree)
  {
    forall u, v | u in {start} + Reached(tree) && v in {start} + Reached(tree)
      ensures Linked(tree, u, v)
    {
      GrownLinks(start, tree, u);
      GrownLinks(start, tree, v);
      LinkedFlip(tree, start, u);
      LinkedTrans(tree, u, start, v);
    }
  }

  /** The k-th triple leaves the tree grown by the first k, and those stay
      inside it. */
  lemma PrefixInside<V(!new)>(start: V, tree: seq<EdgeTriple<V>>, k: nat)
    requires Grown(start, tree) && k < |tree|
    ensures Crosses(tree[k], {start} + Reached(tree[..k]))
    ensures tree[k].source in {start} + Reached(tree[..k])
    ensures StaysIn(tree[..k], {start} + Reached(tree[..k]))
  {
    assert Sprouts(start, tree, k);
    GrownPrefix(start, tree, k);
    forall m | 0 <= m < k
      ensures !Crosses(tree[..k][m], {start} + Reached(tree[..k]))
    {
      GrownEnds(start, tree[..k], m);
    }
  }

  /** The cut Prim's loop chose its k-th triple across: the vertices
      reached by the first k triples, which stay inside it, while the k-th
      is a lightest entry leaving it. */
  lemma PrimCut<V(!new)>(adj: map<V, seq<WeightedEdge<V>>>, start: V, tree: seq<EdgeTriple<V>>, k: nat)
    requires start in adj && Reached(tree) <= adj.Keys
    requires Grown(start, tree) && Entries(adj, tree) && Light(adj, start, tree) && k < |tree|
    ensures CutChoice(adj, {start} + Reached(tree[..k]), tree[..k], tree[k])
  {
    PrefixInside(start, tree, k);
    GrownEnds(start, tree, k);
    ReachedPrefix(tree, k);
  }

  /** Prim's tree on a connected graph with entries in both directions is
      a minimum spanning tree. */
  lemma PrimMinimal<V(!new)>(adj: map<V, seq<WeightedEdge<V>>>, start: V, tree: seq<EdgeTriple<V>>)
    requires CountsSymmetric(adj) && start in adj && {start} + Reached(tree) == adj.Keys
    requires Grown(start, tree) && Entries(adj, tree) && Light(adj, start, tree)
    requires |tree| == |adj.Keys| - 1
    ensures MinimumTree(adj, tree)
  {
    GrownLinksAll(start, tree);
    var cuts := seq(|tree|, m requires 0 <= m < |tree| => {start} + Reached(tree[..m]));
    forall m | 0 <= m < |tree|
      ensures CutChoice(adj, cuts[m], tree[..m], tree[m])
    {
      PrimCut(adj, start, tree, m);
    }
    CutsMinimal(adj, cuts, tree);
  }
}
