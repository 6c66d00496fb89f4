/** The state of Kruskal's loop after the first i sorted edges: the
    union-find sets, the accepted edges, the tree lists and the cost they
    build. */
module KruskalInvariant {
  import opened WeightedGraphs
  import opened SpanningEdges
  import opened SpanningForests
  import opened EdgeSort
  import opened DisjointSetForest

  /** Every accepted edge lies inside one set. */
  ghost predicate Within<V(!new)>(rep: map<V, V>, ts: seq<EdgeTriple<V>>) {
    forall k :: 0 <= k < |ts| ==> ts[k].source in rep && ts[k].target in rep && rep[ts[k].source] == rep[ts[k].target]
  }

  /** Two vertices of one set are linked by the accepted edges. */
  ghost predicate Spans<V(!new)>(rep: map<V, V>, accepted: seq<EdgeTriple<V>>) {
    forall a, b :: a in rep && b in rep && rep[a] == rep[b] ==> Linked(accepted, a, b)
  }

  /** An edge scanned before i that is lighter than the k-th accepted one
      was already linked by the edges accepted before it: the greedy
      choice. */
  ghost predicate Greedy<V(!new)>(edges: seq<EdgeTriple<V>>, i: nat, accepted: seq<EdgeTriple<V>>) {
    forall j, k :: 0 <= j < i && j < |edges| && 0 <= k < |accepted| && edges[j].weight < accepted[k].weight ==>
      Linked(accepted[..k], edges[j].source, edges[j].target)
  }

  /** After the first i sorted edges:
      - the sets partition the vertices; two vertices share a set exactly
        when the accepted edges link them, and the ends of every edge
        scanned so far share one;
      - the accepted edges are scanned edges, form a forest and are no
        heavier than any edge still to come, and every scanned edge lighter
        than an accepted one was linked before that one was accepted;
      - one set fewer for every accepted edge;
      - the tree lists and the cost are those of the accepted edges. */
  ghost predicate Accepting<V(!new)>(vertices: set<V>, edges: seq<EdgeTriple<V>>, i: nat, isDirected: bool,
                                     parent: map<V, V>, rank: map<V, int>, rep: map<V, V>,
                                     mst: map<V, seq<WeightedEdge<V>>>, cost: real, accepted: seq<EdgeTriple<V>>)
  {
    && i <= |edges| && ByWeight(edges)
    && Labelled(parent, rank, rep) && parent.Keys == vertices
    && Within(rep, accepted) && Spans(rep, accepted)
    && (forall k :: 0 <= k < i ==> edges[k].source in rep && edges[k].target in rep && rep[edges[k].source] == rep[edges[k].target])
    && multiset(accepted) <= multiset(edges[..i])
    && Acyclic(accepted) && ByWeight(accepted)
    && (forall k, j :: 0 <= k < |accepted| && i <= j < |edges| ==> accepted[k].weight <= edges[j].weight)
    && Greedy(edges, i, accepted)
    && |Roots(parent)| + |accepted| == |vertices|
    && mst == AddTriples(Bare(vertices), accepted, isDirected) && cost == Cost(accepted)
  }

  /** The tree lists have a list for every vertex and no other. */
  lemma AcceptingKeys<V(!new)>(vertices: set<V>, edges: seq<EdgeTriple<V>>, i: nat, isDirected: bool,
                               parent: map<V, V>, rank: map<V, int>, rep: map<V, V>,
                               mst: map<V, seq<WeightedEdge<V>>>, cost: real, accepted: seq<EdgeTriple<V>>)
    requires Accepting(vertices, edges, i, isDirected, parent, rank, rep, mst, cost, accepted)
    ensures mst.Keys == vertices
  {
    AddTriplesKeys(Bare(vertices), accepted, isDirected);
  }

  /** Before the loop: every vertex alone, nothing accepted. */
  lemma AcceptStart<V(!new)>(vertices: set<V>, edges: seq<EdgeTriple<V>>, isDirected: bool,
                             parent: map<V, V>, rank: map<V, int>, rep: map<V, V>)
    requires ByWeight(edges) && Labelled(parent, rank, rep) && parent.Keys == vertices
    requires forall v :: v in vertices ==> parent[v] == v && rep[v] == v
    ensures Accepting(vertices, edges, 0, isDirected, parent, rank, rep, Bare(vertices), 0.0, [])
  {
    forall a, b | a in rep && b in rep && rep[a] == rep[b]
      ensures Linked([], a, b)
    {
      LinkedSelf([], a);
    }
    assert Roots(parent) == vertices;
  }

  /** An edge inside one set is passed over; find's path compression
      changes the parent links but not the sets. */
  lemma SkipStep<V(!new)>(vertices: set<V>, edges: seq<EdgeTriple<V>>, i: nat, isDirected: bool,
                          parent: map<V, V>, rank: map<V, int>, rep: map<V, V>, parent': map<V, V>,
                          mst: map<V, seq<WeightedEdge<V>>>, cost: real, accepted: seq<EdgeTriple<V>>)
    requires Accepting(vertices, edges, i, isDirected, parent, rank, rep, mst, cost, accepted)
    requires i < |edges| && edges[i].source in rep && edges[i].target in rep && rep[edges[i].source] == rep[edges[i].target]
    requires Labelled(parent', rank, rep) && parent'.Keys == parent.Keys && Roots(parent') == Roots(parent)
    ensures Accepting(vertices, edges, i + 1, isDirected, parent', rank, rep, mst, cost, accepted)
  {
    assert edges[..i + 1] == edges[..i] + [edges[i]];
    GreedySkip(edges, i, accepted);
  }

  /** A skipped edge is no lighter than any accepted one, so it adds no
      obligation to the greedy choice. */
  lemma GreedySkip<V(!new)>(edges: seq<EdgeTriple<V>>, i: nat, accepted: seq<EdgeTriple<V>>)
    requires i < |edges| && Greedy(edges, i, accepted)
    requires forall k, j :: 0 <= k < |accepted| && i <= j < |edges| ==> accepted[k].weight <= edges[j].weight
    ensures Greedy(edges, i + 1, accepted)
  {
  }

  /** The accepted i-th edge is no lighter than any scanned edge it
      follows, and the ends of those share a set, which the accepted edges
      link. */
  lemma GreedyAccept<V(!new)>(rep: map<V, V>, edges: seq<EdgeTriple<V>>, i: nat, accepted: seq<EdgeTriple<V>>)
    requires i < |edges| && Greedy(edges, i, accepted) && Spans(rep, accepted)
    requires forall k, j :: 0 <= k < |accepted| && i <= j < |edges| ==> accepted[k].weight <= edges[j].weight
    requires forall k :: 0 <= k < i ==> edges[k].source in rep && edges[k].target in rep && rep[edges[k].source] == rep[edges[k].target]
    ensures Greedy(edges, i + 1, accepted + [edges[i]])
  {
    var us := accepted + [edges[i]];
    forall j, k | 0 <= j < i + 1 && j < |edges| && 0 <= k < |us| && edges[j].weight < us[k].weight
      ensures Linked(us[..k], edges[j].source, edges[j].target)
    {
      if k < |accepted| {
        assert us[k] == accepted[k] && us[..k] == accepted[..k];
      } else {
        assert us[..k] == accepted;
      }
    }
  }

  /** Accepting an edge between two sets keeps a forest: the accepted
      edges do not link its ends, which lie in different sets. */
  lemma AcceptKeepsForest<V(!new)>(rep: map<V, V>, accepted: seq<EdgeTriple<V>>, e: EdgeTriple<V>)
    requires Within(rep, accepted) && Acyclic(accepted)
    requires e.source in rep && e.target in rep && rep[e.source] != rep[e.target]
    ensures Acyclic(accepted + [e])
  {
    if Linked(accepted, e.source, e.target) {
      LinkedSameRep(accepted, rep, e.source, e.target);
    }
    AcyclicSnoc(accepted, e);
  }

  /** After the union, the merged set is linked through the new edge. */
  lemma AcceptKeepsSpans<V(!new)>(rep: map<V, V>, accepted: seq<EdgeTriple<V>>, e: EdgeTriple<V>, n: V)
    requires Spans(rep, accepted) && e.source in rep && e.target in rep
    requires n == rep[e.source] || n == rep[e.target]
    requires forall v :: v in rep ==> rep[v] in rep && rep[rep[v]] == rep[v]
    ensures Spans(Relabel(rep, rep[e.source], rep[e.target], n), accepted + [e])
  {
    var x, y := e.source, e.target;
    var rep' := Relabel(rep, rep[x], rep[y], n);
    var us := accepted + [e];
    LinkedEdge(us, |accepted|);
    assert us[|accepted|] == e;
    forall a, b | a in rep' && b in rep' && rep'[a] == rep'[b]
      ensures Linked(us, a, b)
    {
      RelabelSame(rep, x, y, n, a, b);
      if rep[a] == rep[b] {
        LinkedMore(accepted, [e], a, b);
      } else if rep[a] == rep[x] {
        LinkedMore(accepted, [e], a, x);
        LinkedMore(accepted, [e], y, b);
        LinkedTrans(us, a, x, y);
        LinkedTrans(us, a, y, b);
      } else {
        LinkedMore(accepted, [e], a, y);
        LinkedMore(accepted, [e], x, b);
        LinkedFlip(us, x, y);
        LinkedTrans(us, a, y, x);
        LinkedTrans(us, a, x, b);
      }
    }
  }

  /** After the union, edges inside a set stay inside one. */
  lemma AcceptKeepsWithin<V(!new)>(rep: map<V, V>, edges: seq<EdgeTriple<V>>, i: nat, accepted: seq<EdgeTriple<V>>, n: V)
    requires i < |edges| && Within(rep, accepted)
    requires forall k :: 0 <= k < i ==> edges[k].source in rep && edges[k].target in rep && rep[edges[k].source] == rep[edges[k].target]
    requires edges[i].source in rep && edges[i].target in rep
    requires n == rep[edges[i].source] || n == rep[edges[i].target]
    requires forall v :: v in rep ==> rep[v] in rep && rep[rep[v]] == rep[v]
    ensures Within(Relabel(rep, rep[edges[i].source], rep[edges[i].target], n), accepted + [edges[i]])
    ensures forall k :: 0 <= k < i + 1 ==>
              (edges[k].source in rep && edges[k].target in rep &&
               Relabel(rep, rep[edges[i].source], rep[edges[i].target], n)[edges[k].source] ==
               Relabel(rep, rep[edges[i].source], rep[edges[i].target], n)[edges[k].target])
  {
    var x, y := edges[i].source, edges[i].target;
    RelabelSame(rep, x, y, n, x, y);
    var us := accepted + [edges[i]];
    assert forall k :: 0 <= k < |accepted| ==> us[k] == accepted[k];
  }

  /** The next edge is scanned and is no lighter than any accepted one, so
      accepting it keeps the accepted edges scanned, ordered by weight
      and no heavier than the edges still to come. */
  lemma AcceptKeepsOrder<V>(edges: seq<EdgeTriple<V>>, i: nat, accepted: seq<EdgeTriple<V>>)
    requires i < |edges| && ByWeight(edges) && ByWeight(accepted)
    requires multiset(accepted) <= multiset(edges[..i])
    requires forall k, j :: 0 <= k < |accepted| && i <= j < |edges| ==> accepted[k].weight <= edges[j].weight
    ensures multiset(accepted + [edges[i]]) <= multiset(edges[..i + 1])
    ensures ByWeight(accepted + [edges[i]])
    ensures forall k, j :: 0 <= k < |accepted| + 1 && i + 1 <= j < |edges| ==> (accepted + [edges[i]])[k].weight <= edges[j].weight
  {
    var e := edges[i];
    assert edges[..i + 1] == edges[..i] + [e];
    var us := accepted + [e];
    forall k, j | 0 <= k < j < |us|
      ensures us[k].weight <= us[j].weight
    {
      if j < |accepted| {
        assert us[k] == accepted[k] && us[j] == accepted[j];
      } else {
        assert us[k] == accepted[k] && us[j] == e;
      }
    }
    forall k, j | 0 <= k < |us| && i + 1 <= j < |edges|
      ensures us[k].weight <= edges[j].weight
    {
      if k < |accepted| {
        assert us[k] == accepted[k];
      }
    }
  }

  /** Accepting the i-th edge, whose ends lie in different sets, and
      merging their sets. */
  lemma AcceptStep<V(!new)>(vertices: set<V>, edges: seq<EdgeTriple<V>>, i: nat, isDirected: bool,
                            parent: map<V, V>, rank: map<V, int>, rep: map<V, V>,
                            mst: map<V, seq<WeightedEdge<V>>>, cost: real, accepted: seq<EdgeTriple<V>>,
                            parent': map<V, V>, rank': map<V, int>, rep': map<V, V>,
                            mst': map<V, seq<WeightedEdge<V>>>, cost': real, n: V)
    requires Accepting(vertices, edges, i, isDirected, parent, rank, rep, mst, cost, accepted)
    requires i < |edges| && edges[i].source in rep && edges[i].target in rep && rep[edges[i].source] != rep[edges[i].target]
    requires n == rep[edges[i].source] || n == rep[edges[i].target]
    requires rep' == Relabel(rep, rep[edges[i].source], rep[edges[i].target], n)
    requires Labelled(parent', rank', rep') && parent'.Keys == parent.Keys && |Roots(parent')| == |Roots(parent)| - 1
    requires mst' == WithEdge(mst, edges[i].source, edges[i].target, edges[i].weight, isDirected)
    requires cost' == cost + edges[i].weight
    ensures Accepting(vertices, edges, i + 1, isDirected, parent', rank', rep', mst', cost', accepted + [edges[i]])
  {
    var e := edges[i];
    RepIdempotent(parent, rank, rep);
    AcceptKeepsForest(rep, accepted, e);
    AcceptKeepsSpans(rep, accepted, e, n);
    AcceptKeepsWithin(rep, edges, i, accepted, n);
    AddTriplesSnoc(Bare(vertices), accepted, e, isDirected);
    AcceptKeepsOrder(edges, i, accepted);
    GreedyAccept(rep, edges, i, accepted);
  }

  /** After the last edge: the ends of every edge are linked by the
      accepted ones, and there is one accepted edge fewer than vertices
      for every set beyond the first. */
  lemma AcceptDone<V(!new)>(vertices: set<V>, edges: seq<EdgeTriple<V>>, isDirected: bool,
                            parent: map<V, V>, rank: map<V, int>, rep: map<V, V>,
                            mst: map<V, seq<WeightedEdge<V>>>, cost: real, accepted: seq<EdgeTriple<V>>)
    requires Accepting(vertices, edges, |edges|, isDirected, parent, rank, rep, mst, cost, accepted)
    ensures mst == AddTriples(Bare(vertices), accepted, isDirected) && cost == Cost(accepted)
    ensures multiset(accepted) <= multiset(edges) && Acyclic(accepted) && ByWeight(accepted)
    ensures Greedy(edges, |edges|, accepted)
    ensures forall k :: 0 <= k < |edges| ==> Linked(accepted, edges[k].source, edges[k].target)
    ensures vertices != {} ==> |accepted| <= |vertices| - 1
    ensures vertices == {} ==> accepted == []
    ensures vertices != {} && (forall a, b :: a in vertices && b in vertices ==> Linked(accepted, a, b)) ==>
              |accepted| == |vertices| - 1
  {
    assert edges[..|edges|] == edges;
    if vertices != {} {
      var v :| v in vertices;
      SomeRoot(parent, rank, rep, v);
      if forall a, b :: a in vertices && b in vertices ==> Linked(accepted, a, b) {
        OneSet(vertices, parent, rank, rep, accepted, v);
      }
    }
  }

  /** Accepted edges linking every two vertices leave a single set. */
  lemma OneSet<V(!new)>(vertices: set<V>, parent: map<V, V>, rank: map<V, int>, rep: map<V, V>, accepted: seq<EdgeTriple<V>>, v: V)
    requires Labelled(parent, rank, rep) && parent.Keys == vertices && Within(rep, accepted) && v in vertices
    requires forall a, b :: a in vertices && b in vertices ==> Linked(accepted, a, b)
    ensures |Roots(parent)| == 1
  {
    RootsAreReps(parent, rank, rep);
    forall a | a in rep
      ensures rep[a] == rep[v]
    {
      LinkedSameRep(accepted, rep, v, a);
    }
    assert Roots(parent) == {rep[v]};
  }
}
