/** computeKruskalMST's loops: listing the edges, each undirected pair in
    one orientation, and scanning them in weight order, accepting an edge
    exactly when the disjoint sets hold its ends apart. */
module Kruskal {
  import opened Frontier
  import opened WeightedGraphs
  import opened SpanningEdges
  import opened SpanningForests
  import opened EdgeSort
  import opened DisjointSetForest
  import opened KruskalInvariant

  /** The inner edge-list loop: a triple for each entry of source's list
      that the undirected rule does not skip. */
  method ListRow<V(==)>(name: V -> string, isDirected: bool, source: V, es: seq<WeightedEdge<V>>)
    returns (row: seq<EdgeTriple<V>>)
    ensures row == Row(name, isDirected, source, es)
  {
    row := [];
    for j := 0 to |es|
      invariant row == Row(name, isDirected, source, es[..j])
    {
      assert es[..j + 1][..j] == es[..j];
      if !Skipped(name, isDirected, source, es[j].target) {
        row := row + [EdgeTriple(source, es[j].target, es[j].weight)];
      }
    }
    assert es[..|es|] == es;
  }

  /** The edge-list loops: for each vertex in the order given, a triple per
      entry of its list that the undirected rule does not skip. */
  method ListEdges<V(==)>(adj: map<V, seq<WeightedEdge<V>>>, order: seq<V>, name: V -> string, isDirected: bool)
    returns (edges: seq<EdgeTriple<V>>)
    ensures edges == Listed(adj, order, name, isDirected)
  {
    edges := [];
    for i := 0 to |order|
      invariant edges == Listed(adj, order[..i], name, isDirected)
    {
      var row := ListRow(name, isDirected, order[i], EdgesOf(adj, order[i]));
      edges := edges + row;
      assert order[..i + 1][..i] == order[..i];
    }
    assert order[..|order|] == order;
  }

  /** One pass of the loop body: the i-th edge is accepted and its ends'
      sets merged exactly when isSameSet says they are apart. */
  method ScanEdge<V(==, !new)>(sets: DisjointSets<V>, vertices: set<V>, edges: seq<EdgeTriple<V>>, i: nat, isDirected: bool,
                               mst0: map<V, seq<WeightedEdge<V>>>, cost0: real, ghost accepted0: seq<EdgeTriple<V>>)
    returns (mst: map<V, seq<WeightedEdge<V>>>, cost: real, ghost accepted: seq<EdgeTriple<V>>)
    requires sets.Valid() && i < |edges| && edges[i].source in vertices && edges[i].target in vertices
    requires Accepting(vertices, edges, i, isDirected, sets.parent, sets.rank, sets.rep, mst0, cost0, accepted0) == true
    modifies sets
    ensures sets.Valid()
    ensures Accepting(vertices, edges, i + 1, isDirected, sets.parent, sets.rank, sets.rep, mst, cost, accepted) == true
  {
    mst, cost, accepted := mst0, cost0, accepted0;
    var e := edges[i];
    ghost var parent, rank, rep := sets.parent, sets.rank, sets.rep;
    AcceptingKeys(vertices, edges, i, isDirected, parent, rank, rep, mst, cost, accepted);
    var same := sets.IsSameSet(e.source, e.target);
    if same {
      SkipStep(vertices, edges, i, isDirected, parent, rank, rep, sets.parent, mst, cost, accepted);
    } else {
      AttachIsAddEdge(mst, e.source, e.target, e.weight, isDirected);
      mst := mst[e.source := mst[e.source] + [WeightedEdge(e.target, e.weight)]];
      if !isDirected {
        mst := mst[e.target := mst[e.target] + [WeightedEdge(e.source, e.weight)]];
      }
      cost := cost + e.weight;
      sets.Union(e.source, e.target);
      AcceptStep(vertices, edges, i, isDirected, parent, rank, rep, mst0, cost0, accepted, sets.parent, sets.rank, sets.rep, mst, cost,
                 sets.rep[e.source]);
      accepted := accepted + [e];
    }
  }

  /** The union-find loop over the sorted edges: the accepted edges form a
      forest of listed edges, lighter ones first, that links the ends of
      every listed edge; the tree lists and the cost are built from them
      and there is at most one accepted edge fewer than vertices. */
  method AcceptEdges<V(==, !new)>(vertices: set<V>, edges: seq<EdgeTriple<V>>, isDirected: bool)
    returns (mst: map<V, seq<WeightedEdge<V>>>, cost: real, ghost accepted: seq<EdgeTriple<V>>)
    requires ByWeight(edges)
    requires forall k :: 0 <= k < |edges| ==> edges[k].source in vertices && edges[k].target in vertices
    ensures mst == AddTriples(Bare(vertices), accepted, isDirected) && cost == Cost(accepted)
    ensures multiset(accepted) <= multiset(edges) && Acyclic(accepted) && ByWeight(accepted)
    ensures forall k :: 0 <= k < |edges| ==> Linked(accepted, edges[k].source, edges[k].target)
    ensures vertices != {} ==> |accepted| <= |vertices| - 1
    ensures vertices == {} ==> accepted == []
    ensures Greedy(edges, |edges|, accepted)
    ensures vertices != {} && (forall a, b :: a in vertices && b in vertices ==> Linked(accepted, a, b)) ==>
              |accepted| == |vertices| - 1
  {
    var sets := new DisjointSets(vertices);
    mst, cost, accepted := Bare(vertices), 0.0, [];
    AcceptStart(vertices, edges, isDirected, sets.parent, sets.rank, sets.rep);
    for i := 0 to |edges|
      invariant sets.Valid()
      invariant Accepting(vertices, edges, i, isDirected, sets.parent, sets.rank, sets.rep, mst, cost, accepted) == true
    {
      mst, cost, accepted := ScanEdge(sets, vertices, edges, i, isDirected, mst, cost, accepted);
    }
    AcceptDone(vertices, edges, isDirected, sets.parent, sets.rank, sets.rep, mst, cost, accepted);
  }
}
