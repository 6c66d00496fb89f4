/** lab_5's MinimumSpanningTreeGraph: a weighted graph copied from another
    one, with the tree lists, total cost and computed flag of the last
    spanning-tree run, by Prim's or Kruskal's algorithm, and the tree handed
    out as a graph of its own. */
module MinimumSpanningTrees {
  import opened Wrappers
  import opened Frontier
  import opened WeightedGraphs
  import opened WeightedWalks
  import opened SpanningEdges
  import opened SpanningForests
  import opened EdgeSort
  import opened Kruskal
  import opened PrimInvariant
  import opened Prim
  import opened TreeGraphs
  import opened MinimumTrees
  import PrimMinimum
  import KruskalInvariant
  import KruskalMinimum

  /** The ends of every triple are vertices. */
  ghost predicate Ends<V(!new)>(vertices: set<V>, ts: seq<EdgeTriple<V>>) {
    forall k :: 0 <= k < |ts| ==> ts[k].source in vertices && ts[k].target in vertices
  }

  /** The lists of a forest: its triples' ends are vertices, and the lists
      are those vertices' empty lists after addEdge for every triple. */
  ghost predicate ForestLists<V(!new)>(mst: map<V, seq<WeightedEdge<V>>>, tree: seq<EdgeTriple<V>>, isDirected: bool) {
    Acyclic(tree) && Ends(mst.Keys, tree) && mst == AddTriples(Bare(mst.Keys), tree, isDirected)
  }

  /** What computePrimMST leaves for a start vertex of the graph: the tree
      lists hold every graph vertex and the tree grown from start, each
      edge a lightest entry leaving the tree so far; it reaches exactly the
      vertices a walk from start reaches, with one edge fewer than those
      vertices, and it is a forest on the graph's vertices. The cost is the
      sum of its weights, and spanning tells whether every vertex is
      reached: the negation of the disconnected-graph warning. When it is
      and every entry has a reverse of the same weight, as in an undirected
      graph, the tree is a minimum spanning tree. */
  ghost predicate PrimRun<V(!new)>(adj: map<V, seq<WeightedEdge<V>>>, start: V, isDirected: bool,
                                  mst: map<V, seq<WeightedEdge<V>>>, cost: real, spanning: bool, tree: seq<EdgeTriple<V>>) {
    && mst == AddTriples(Bare(adj.Keys), tree, isDirected) && cost == Cost(tree)
    && Grown(start, tree) && Entries(adj, tree) && Light(adj, start, tree)
    && {start} + Reached(tree) == (set v | v in adj && Connected(adj, start, v))
    && |tree| == |{start} + Reached(tree)| - 1
    && ForestLists(mst, tree, isDirected) && mst.Keys == adj.Keys
    && (spanning <==> forall v :: v in adj ==> Connected(adj, start, v))
    && (spanning && CountsSymmetric(adj) ==> MinimumTree(adj, tree))
  }

  /** What computeKruskalMST leaves: the tree lists hold every graph vertex
      and the accepted edges, which are listed graph entries (each at most
      as often as listed) in weight order, form a forest on the graph's
      vertices that links the ends of every graph entry, and number fewer
      than the vertices. The cost is the sum of their weights. When every
      entry has a reverse of the same weight and the graph has a spanning
      tree at all, the accepted edges are a minimum spanning tree. */
  ghost predicate KruskalRun<V(!new)>(adj: map<V, seq<WeightedEdge<V>>>, order: seq<V>, name: V -> string, isDirected: bool,
                                     mst: map<V, seq<WeightedEdge<V>>>, cost: real, tree: seq<EdgeTriple<V>>) {
    && mst == AddTriples(Bare(adj.Keys), tree, isDirected) && cost == Cost(tree)
    && multiset(tree) <= multiset(Listed(adj, order, name, isDirected))
    && Entries(adj, tree) && ByWeight(tree)
    && (forall u, e :: u in adj && e in adj[u] ==> Linked(tree, u, e.target))
    && (adj != map[] ==> |tree| < |adj.Keys|)
    && ForestLists(mst, tree, isDirected) && mst.Keys == adj.Keys
    && (CountsSymmetric(adj) && (exists t: seq<EdgeTriple<V>> :: SpanningTree(adj, t)) ==> MinimumTree(adj, tree))
  }

  /** On a graph whose entries come in both directions, when Prim's run
      reaches every vertex, Prim's and Kruskal's trees cost the same: both
      are minimum spanning trees. */
  lemma PrimKruskalSameCost<V(!new)>(adj: map<V, seq<WeightedEdge<V>>>, start: V, order: seq<V>, name: V -> string, isDirected: bool,
                                     primLists: map<V, seq<WeightedEdge<V>>>, primCost: real, primTree: seq<EdgeTriple<V>>,
                                     kruskalLists: map<V, seq<WeightedEdge<V>>>, kruskalCost: real, kruskalTree: seq<EdgeTriple<V>>)
    requires CountsSymmetric(adj)
    requires PrimRun(adj, start, isDirected, primLists, primCost, true, primTree)
    requires KruskalRun(adj, order, name, isDirected, kruskalLists, kruskalCost, kruskalTree)
    ensures primCost == kruskalCost
  {
    PrimRunMinimal(adj, start, isDirected, primLists, primCost, primTree);
    KruskalRunMinimal(adj, order, name, isDirected, kruskalLists, kruskalCost, kruskalTree, primTree);
    MinimumCostsAgree(adj, primTree, kruskalTree);
  }

  /** A Prim run that reaches every vertex of a graph with entries in both
      directions leaves a minimum spanning tree. */
  lemma PrimRunMinimal<V(!new)>(adj: map<V, seq<WeightedEdge<V>>>, start: V, isDirected: bool,
                                mst: map<V, seq<WeightedEdge<V>>>, cost: real, tree: seq<EdgeTriple<V>>)
    requires CountsSymmetric(adj) && PrimRun(adj, start, isDirected, mst, cost, true, tree)
    ensures MinimumTree(adj, tree) && cost == Cost(tree)
  {
  }

  /** A Kruskal run on a graph with entries in both directions and a
      spanning tree t leaves a minimum spanning tree. */
  lemma KruskalRunMinimal<V(!new)>(adj: map<V, seq<WeightedEdge<V>>>, order: seq<V>, name: V -> string, isDirected: bool,
                                   mst: map<V, seq<WeightedEdge<V>>>, cost: real, tree: seq<EdgeTriple<V>>, t: seq<EdgeTriple<V>>)
    requires CountsSymmetric(adj) && KruskalRun(adj, order, name, isDirected, mst, cost, tree) && SpanningTree(adj, t)
    ensures MinimumTree(adj, tree) && cost == Cost(tree)
  {
  }

  /** Lists built from a forest of graph entries are the lists of a forest
      on the graph's vertices. */
  lemma GraphForest<V(!new)>(adj: map<V, seq<WeightedEdge<V>>>, tree: seq<EdgeTriple<V>>, isDirected: bool)
    requires Closed(adj) && Entries(adj, tree) && Acyclic(tree)
    ensures AddTriples(Bare(adj.Keys), tree, isDirected).Keys == adj.Keys
    ensures ForestLists(AddTriples(Bare(adj.Keys), tree, isDirected), tree, isDirected)
  {
    EntriesEnds(adj, tree);
    AddTriplesKeys(Bare(adj.Keys), tree, isDirected);
  }

  /** addVertex on lists of empty lists adds one more empty list. */
  lemma BareSnoc<V(!new)>(vertices: set<V>, v: V)
    ensures WithVertex(Bare(vertices), v) == Bare(vertices + {v})
  {
  }

  /** addVertex for one more vertex on the empty lists of the vertices
      before it. */
  lemma BareAppend<V(!new)>(before: seq<V>, v: V)
    ensures WithVertex(Bare(set x | x in before), v) == Bare(set x | x in before + [v])
  {
    assert (set x | x in before + [v]) == (set x | x in before) + {v};
    BareSnoc((set x | x in before), v);
  }

  /** The copy constructor's vertex loop: addVertex for each vertex in the
      order given gives every vertex an empty list. */
  method CopyVertices<V(!new)>(order: seq<V>) returns (adj: map<V, seq<WeightedEdge<V>>>)
    ensures adj == Bare(set x | x in order)
  {
    adj := map[];
    for i := 0 to |order|
      invariant adj == Bare(set x | x in order[..i])
    {
      assert order[..i + 1] == order[..i] + [order[i]];
      BareAppend(order[..i], order[i]);
      adj := WithVertex(adj, order[i]);
    }
    assert order[..|order|] == order;
  }

  /** Appending after a concatenation. */
  lemma SnocAssoc<T>(a: seq<T>, b: seq<T>, x: T)
    ensures a + (b + [x]) == (a + b) + [x]
  {
  }

  /** One more entry of a list adds its triple to the row unless the
      undirected rule skips it. */
  lemma RowSnoc<V>(name: V -> string, isDirected: bool, source: V, es: seq<WeightedEdge<V>>, j: nat)
    requires j < |es|
    ensures Row(name, isDirected, source, es[..j + 1]) ==
              Row(name, isDirected, source, es[..j])
              + (if Skipped(name, isDirected, source, es[j].target) then [] else [EdgeTriple(source, es[j].target, es[j].weight)])
  {
    assert es[..j + 1][..j] == es[..j];
  }

  /** The copy constructor's inner edge loop: addEdge for each entry of
      source's list that the undirected rule does not skip. */
  method CopyRow<V(!new)>(base: map<V, seq<WeightedEdge<V>>>, ghost done: seq<EdgeTriple<V>>, adj0: map<V, seq<WeightedEdge<V>>>,
                          name: V -> string, isDirected: bool, source: V, es: seq<WeightedEdge<V>>)
    returns (adj: map<V, seq<WeightedEdge<V>>>)
    requires adj0 == AddTriples(base, done, isDirected)
    ensures adj == AddTriples(base, done + Row(name, isDirected, source, es), isDirected)
  {
    adj := adj0;
    assert es[..0] == [] && done + [] == done;
    for j := 0 to |es|
      invariant adj == AddTriples(base, done + Row(name, isDirected, source, es[..j]), isDirected)
    {
      ghost var row := Row(name, isDirected, source, es[..j]);
      ghost var prefix := done + row;
      RowSnoc(name, isDirected, source, es, j);
      if !Skipped(name, isDirected, source, es[j].target) {
        var t := EdgeTriple(source, es[j].target, es[j].weight);
        AddTriplesSnoc(base, prefix, t, isDirected);
        assert Row(name, isDirected, source, es[..j + 1]) == row + [t];
        SnocAssoc(done, row, t);
        adj := WithEdge(adj, source, es[j].target, es[j].weight, isDirected);
      } else {
        assert done + Row(name, isDirected, source, es[..j + 1]) == prefix;
      }
    }
    assert es[..|es|] == es;
  }

  /** The copy constructor's edge loops: the copy of the lists, built on
      the vertices already added. */
  method CopyEdges<V(!new)>(graph: map<V, seq<WeightedEdge<V>>>, order: seq<V>, name: V -> string, isDirected: bool)
    returns (adj: map<V, seq<WeightedEdge<V>>>)
    requires (set x | x in order) == graph.Keys
    ensures adj == Copied(graph, order, name, isDirected)
  {
    adj := CopyVertices(order);
    var base := adj;
    for i := 0 to |order|
      invariant adj == AddTriples(base, Listed(graph, order[..i], name, isDirected), isDirected)
    {
      assert order[..i + 1][..i] == order[..i];
      adj := CopyRow(base, Listed(graph, order[..i], name, isDirected), adj, name, isDirected, order[i], EdgesOf(graph, order[i]));
    }
    assert order[..|order|] == order;
  }

  /** A triple of a graph entry has its ends among the vertices of a graph
      whose targets are vertices. */
  lemma EntriesEnds<V(!new)>(adj: map<V, seq<WeightedEdge<V>>>, ts: seq<EdgeTriple<V>>)
    requires Closed(adj) && Entries(adj, ts)
    ensures Ends(adj.Keys, ts)
  {
    forall k | 0 <= k < |ts|
      ensures ts[k].source in adj && ts[k].target in adj
    {
      assert WeightedEdge(ts[k].target, ts[k].weight) in EdgesOf(adj, ts[k].source);
    }
  }

  /** Listed triples, and so the edges Kruskal's loop accepts, are graph
      entries. */
  lemma AcceptedEntries<V(!new)>(adj: map<V, seq<WeightedEdge<V>>>, order: seq<V>, name: V -> string, isDirected: bool,
                                 accepted: seq<EdgeTriple<V>>)
    requires Distinct(order) && multiset(accepted) <= multiset(Listed(adj, order, name, isDirected))
    ensures Entries(adj, accepted)
  {
    forall k | 0 <= k < |accepted|
      ensures WeightedEdge(accepted[k].target, accepted[k].weight) in EdgesOf(adj, accepted[k].source)
    {
      assert accepted[k] in multiset(Listed(adj, order, name, isDirected));
      ListedEnds(adj, order, name, isDirected, accepted[k]);
    }
  }

  /** Every entry of the graph is listed for Kruskal's loop, one way round
      or the other: the undirected rule skips an entry only when it lists
      the reverse. */
  lemma EntryListed<V(!new)>(adj: map<V, seq<WeightedEdge<V>>>, order: seq<V>, name: V -> string, isDirected: bool,
                             u: V, e: WeightedEdge<V>) returns (t: EdgeTriple<V>)
    requires Distinct(order) && (set x | x in order) == adj.Keys
    requires !isDirected ==> CountsSymmetric(adj)
    requires u in adj && e in adj[u]
    ensures t in Listed(adj, order, name, isDirected)
    ensures t == EdgeTriple(u, e.target, e.weight) || t == EdgeTriple(e.target, u, e.weight)
  {
    assert Count(adj, u, e.target, e.weight) > 0 by {
      assert multiset(EdgesOf(adj, u))[WeightedEdge(e.target, e.weight)] > 0;
    }
    if Skipped(name, isDirected, u, e.target) {
      OneWayKept(name, u, e.target);
      t := EdgeTriple(e.target, u, e.weight);
      ListedCount(adj, order, name, isDirected, t);
      assert e.target in order by {
        assert EdgesOf(adj, e.target) != [];
      }
    } else {
      t := EdgeTriple(u, e.target, e.weight);
      ListedCount(adj, order, name, isDirected, t);
    }
    assert t in multiset(Listed(adj, order, name, isDirected));
  }

  /** Edges that link the ends of every listed triple link the ends of
      every entry of the graph. */
  lemma EntriesLinked<V(!new)>(adj: map<V, seq<WeightedEdge<V>>>, order: seq<V>, name: V -> string, isDirected: bool,
                               ts: seq<EdgeTriple<V>>)
    requires Distinct(order) && (set x | x in order) == adj.Keys
    requires !isDirected ==> CountsSymmetric(adj)
    requires forall t :: t in Listed(adj, order, name, isDirected) ==> Linked(ts, t.source, t.target)
    ensures forall u, e :: u in adj && e in adj[u] ==> Linked(ts, u, e.target)
  {
    forall u, e | u in adj && e in adj[u]
      ensures Linked(ts, u, e.target)
    {
      var t := EntryListed(adj, order, name, isDirected, u, e);
      if t.source != u {
        LinkedFlip(ts, e.target, u);
      }
    }
  }

  /** Kruskal's greedy choice over the sorted list is a greedy choice over
      every entry of the graph. */
  lemma GreedyEntries<V(!new)>(adj: map<V, seq<WeightedEdge<V>>>, order: seq<V>, name: V -> string, isDirected: bool,
                               edges: seq<EdgeTriple<V>>, tree: seq<EdgeTriple<V>>)
    requires Distinct(order) && (set x | x in order) == adj.Keys
    requires !isDirected ==> CountsSymmetric(adj)
    requires multiset(edges) == multiset(Listed(adj, order, name, isDirected))
    requires KruskalInvariant.Greedy(edges, |edges|, tree)
    ensures KruskalMinimum.GreedyOn(adj, tree)
  {
    forall k, u, e | 0 <= k < |tree| && u in adj && e in adj[u] && e.weight < tree[k].weight
      ensures Linked(tree[..k], u, e.target)
    {
      var t := EntryListed(adj, order, name, isDirected, u, e);
      assert t in multiset(edges);
      var j :| 0 <= j < |edges| && edges[j] == t;
      if t.source != u {
        LinkedFlip(tree[..k], e.target, u);
      }
    }
  }

  /** On a graph with entries in both directions that has a spanning tree
      at all, Kruskal's forest links every vertex and is a minimum
      spanning tree. */
  lemma KruskalSpans<V(!new)>(adj: map<V, seq<WeightedEdge<V>>>, order: seq<V>, name: V -> string, isDirected: bool,
                              edges: seq<EdgeTriple<V>>, tree: seq<EdgeTriple<V>>)
    requires Closed(adj) && CountsSymmetric(adj) && Distinct(order) && (set x | x in order) == adj.Keys
    requires multiset(edges) == multiset(Listed(adj, order, name, isDirected))
    requires KruskalInvariant.Greedy(edges, |edges|, tree) && Entries(adj, tree) && Acyclic(tree)
    requires forall u, e :: u in adj && e in adj[u] ==> Linked(tree, u, e.target)
    requires adj.Keys != {} && (forall a, b :: a in adj.Keys && b in adj.Keys ==> Linked(tree, a, b)) ==> |tree| == |adj.Keys| - 1
    requires exists t: seq<EdgeTriple<V>> :: SpanningTree(adj, t)
    ensures MinimumTree(adj, tree)
  {
    var t: seq<EdgeTriple<V>> :| SpanningTree(adj, t);
    forall k | 0 <= k < |t|
      ensures Linked(tree, t[k].source, t[k].target)
    {
      assert WeightedEdge(t[k].target, t[k].weight) in EdgesOf(adj, t[k].source);
    }
    forall a, b | a in adj.Keys && b in adj.Keys
      ensures Linked(tree, a, b)
    {
      LinkedVia(t, tree, a, b);
    }
    GreedyEntries(adj, order, name, isDirected, edges, tree);
    KruskalMinimum.KruskalMinimal(adj, tree);
  }

  /** getMSTAsGraph's inner loop: addEdge for each entry of source's tree
      list, except, when undirected, one whose pair of ends was already
      added. */
  method AddRow<V(==, !new)>(g: WeightedGraph<V>, base: map<V, seq<WeightedEdge<V>>>, ghost done: seq<EdgeTriple<V>>,
                            added0: set<set<V>>, name: V -> string, source: V, es: seq<WeightedEdge<V>>)
    returns (added: set<set<V>>)
    requires g.Valid() && added0 == KeysOf(done, Pair)
    requires g.adjacencyList == AddTriples(base, Materialize(done, g.isDirected), g.isDirected)
    modifies g
    ensures g.Valid()
    ensures added == KeysOf(done + Row(name, true, source, es), Pair)
    ensures g.adjacencyList == AddTriples(base, Materialize(done + Row(name, true, source, es), g.isDirected), g.isDirected)
  {
    added := added0;
    assert done + Row(name, true, source, es[..0]) == done;
    for j := 0 to |es|
      invariant g.Valid()
      invariant added == KeysOf(done + Row(name, true, source, es[..j]), Pair)
      invariant g.adjacencyList == AddTriples(base, Materialize(done + Row(name, true, source, es[..j]), g.isDirected), g.isDirected)
    {
      ghost var row := Row(name, true, source, es[..j]);
      ghost var prefix := done + row;
      var t := EdgeTriple(source, es[j].target, es[j].weight);
      RowSnoc(name, true, source, es, j);
      assert Row(name, true, source, es[..j + 1]) == row + [t];
      SnocAssoc(done, row, t);
      KeysOfSnoc(prefix, t, Pair);
      MaterializeSnoc(prefix, t, g.isDirected);
      var key := {source, es[j].target};
      assert key == Pair(t);
      if g.isDirected || key !in added {
        assert Materialize(prefix + [t], g.isDirected) == Materialize(prefix, g.isDirected) + [t];
        AddTriplesSnoc(base, Materialize(prefix, g.isDirected), t, g.isDirected);
        g.AddEdge(source, es[j].target, es[j].weight);
        added := added + {key};
      } else {
        assert Materialize(prefix + [t], g.isDirected) == Materialize(prefix, g.isDirected);
      }
      assert g.adjacencyList == AddTriples(base, Materialize(prefix + [t], g.isDirected), g.isDirected);
    }
    assert es[..|es|] == es;
  }

  /** getMSTAsGraph's vertex loop: addVertex for each vertex in the order
      given turns an empty graph into the vertices' empty lists. */
  method AddVertices<V(==, !new)>(g: WeightedGraph<V>, order: seq<V>)
    requires g.Valid() && g.adjacencyList == map[]
    modifies g
    ensures g.Valid() && g.adjacencyList == Bare(set x | x in order)
  {
    assert Bare(set x | x in order[..0]) == map[];
    for i := 0 to |order|
      invariant g.Valid() && g.adjacencyList == Bare(set x | x in order[..i])
    {
      assert order[..i + 1] == order[..i] + [order[i]];
      BareAppend(order[..i], order[i]);
      g.AddVertex(order[i]);
    }
    assert order[..|order|] == order;
  }

  /** getMSTAsGraph's edge loop: addEdge for every entry of every tree list,
      in the order given, an undirected pair once, the first time it is
      met. */
  method AddTreeEdges<V(==, !new)>(g: WeightedGraph<V>, mst: map<V, seq<WeightedEdge<V>>>, order: seq<V>, name: V -> string)
    requires g.Valid() && g.adjacencyList == Bare(mst.Keys)
    requires Distinct(order) && (set x | x in order) == mst.Keys
    modifies g
    ensures g.Valid() && g.adjacencyList == Materialized(mst, order, name, g.isDirected)
  {
    var base := g.adjacencyList;
    var added: set<set<V>> := {};
    assert order[..0] == [];
    for i := 0 to |order|
      invariant g.Valid()
      invariant added == KeysOf(Listed(mst, order[..i], name, true), Pair)
      invariant g.adjacencyList == AddTriples(base, Materialize(Listed(mst, order[..i], name, true), g.isDirected), g.isDirected)
    {
      assert order[..i + 1][..i] == order[..i];
      assert order[i] in mst;
      added := AddRow(g, base, Listed(mst, order[..i], name, true), added, name, order[i], mst[order[i]]);
    }
    assert order[..|order|] == order;
  }

  /** computePrimMST's run from a start vertex of the graph. */
  method RunPrim<V(==, !new)>(adj: map<V, seq<WeightedEdge<V>>>, start: V, isDirected: bool)
    returns (mst: map<V, seq<WeightedEdge<V>>>, cost: real, spanning: bool, ghost tree: seq<EdgeTriple<V>>)
    requires Closed(adj) && start in adj
    ensures PrimRun(adj, start, isDirected, mst, cost, spanning, tree)
  {
    mst, cost, spanning, tree := GrowTree(adj, start, isDirected);
    GraphForest(adj, tree, isDirected);
    if spanning && CountsSymmetric(adj) {
      assert {start} + Reached(tree) == adj.Keys;
      PrimMinimum.PrimMinimal(adj, start, tree);
    }
  }

  /** The edges of Kruskal's list, in any order, join vertices of the graph. */
  lemma SortedEnds<V(!new)>(adj: map<V, seq<WeightedEdge<V>>>, order: seq<V>, name: V -> string, isDirected: bool,
                            edges: seq<EdgeTriple<V>>)
    requires Closed(adj) && Distinct(order) && (set x | x in order) == adj.Keys
    requires multiset(edges) == multiset(Listed(adj, order, name, isDirected))
    ensures forall k :: 0 <= k < |edges| ==> edges[k].source in adj && edges[k].target in adj
  {
    forall k | 0 <= k < |edges|
      ensures edges[k].source in adj && edges[k].target in adj
    {
      assert edges[k] in multiset(Listed(adj, order, name, isDirected));
      ListedEnds(adj, order, name, isDirected, edges[k]);
    }
  }

  /** Ends linked for every edge of a reordering are linked for every
      edge of the list. */
  lemma SortedLinked<V(!new)>(listed: seq<EdgeTriple<V>>, edges: seq<EdgeTriple<V>>, tree: seq<EdgeTriple<V>>)
    requires multiset(edges) == multiset(listed)
    requires forall k :: 0 <= k < |edges| ==> Linked(tree, edges[k].source, edges[k].target)
    ensures forall t :: t in listed ==> Linked(tree, t.source, t.target)
  {
    forall t | t in listed
      ensures Linked(tree, t.source, t.target)
    {
      assert t in multiset(edges);
      var k :| 0 <= k < |edges| && edges[k] == t;
    }
  }

  /** computeKruskalMST's run: the entries listed in the given vertex order,
      sorted stably by weight, then accepted when their ends are not yet
      linked. */
  method RunKruskal<V(==, !new)>(adj: map<V, seq<WeightedEdge<V>>>, order: seq<V>, name: V -> string, isDirected: bool)
    returns (mst: map<V, seq<WeightedEdge<V>>>, cost: real, ghost tree: seq<EdgeTriple<V>>)
    requires Closed(adj) && (!isDirected ==> CountsSymmetric(adj))
    requires Distinct(order) && (set x | x in order) == adj.Keys
    ensures KruskalRun(adj, order, name, isDirected, mst, cost, tree)
  {
    var listed := ListEdges(adj, order, name, isDirected);
    var edges := SortByWeight(listed);
    SortedEnds(adj, order, name, isDirected, edges);
    mst, cost, tree := AcceptEdges(adj.Keys, edges, isDirected);
    AcceptedEntries(adj, order, name, isDirected, tree);
    SortedLinked(listed, edges, tree);
    EntriesLinked(adj, order, name, isDirected, tree);
    GraphForest(adj, tree, isDirected);
    if CountsSymmetric(adj) && exists t: seq<EdgeTriple<V>> :: SpanningTree(adj, t) {
      KruskalSpans(adj, order, name, isDirected, edges, tree);
    }
    assert adj != map[] ==> adj.Keys != {} by {
      if adj != map[] {
        var v :| v in adj;
      }
    }
  }

  class MinimumSpanningTreeGraph<V(==, !new)> {
    var adjacencyList: map<V, seq<WeightedEdge<V>>>
    const isDirected: bool
    /** The vertices' toString, on which the undirected copy rule and
        Kruskal's edge list depend. */
    const name: V -> string
    var mstAdjacencyList: map<V, seq<WeightedEdge<V>>>
    var mstTotalCost: real
    var mstComputed: bool
    /** The tree edges of the last run, in the order they were added. */
    ghost var mstTree: seq<EdgeTriple<V>>

    /** The graph invariant of WeightedGraph and, once a tree is computed,
        the tree lists are those of a forest on their own vertices. */
    ghost predicate Valid()
      reads this
    {
      && Closed(adjacencyList) && (!isDirected ==> CountsSymmetric(adjacencyList))
      && (mstComputed ==> ForestLists(mstAdjacencyList, mstTree, isDirected))
    }

    /** The copy constructor: the vertices, then addEdge for every entry of
        the graph, an undirected pair once, from the end whose name is not
        greater. No tree is computed yet. */
    constructor (graph: WeightedGraph<V>, name: V -> string, order: seq<V>)
      requires graph.Valid() && Distinct(order) && (set x | x in order) == graph.adjacencyList.Keys
      ensures isDirected == graph.isDirected && this.name == name
      ensures adjacencyList == Copied(graph.adjacencyList, order, name, graph.isDirected)
      ensures mstAdjacencyList == map[] && mstTotalCost == 0.0 && !mstComputed
      ensures Valid()
    {
      var adj := CopyEdges(graph.adjacencyList, order, name, graph.isDirected);
      adjacencyList := adj;
      isDirected := graph.isDirected;
      this.name := name;
      mstAdjacencyList := map[];
      mstTotalCost := 0.0;
      mstComputed := false;
      mstTree := [];
      new;
      CopiedValid(graph.adjacencyList, order, name, graph.isDirected);
    }

    /** computePrimMST: an absent start vertex is an IllegalArgumentException
        and nothing changes. Otherwise the tree lists are rebuilt from
        scratch as PrimRun describes, and disconnected is the condition of
        the printed warning. */
    method ComputePrimMST(start: V) returns (r: Result<real>, disconnected: bool)
      requires Valid()
      modifies this
      ensures Valid() && adjacencyList == old(adjacencyList)
      ensures start !in adjacencyList ==>
                && r == Thrown(IllegalArgument)
                && mstAdjacencyList == old(mstAdjacencyList) && mstTotalCost == old(mstTotalCost)
                && mstComputed == old(mstComputed) && mstTree == old(mstTree)
      ensures start in adjacencyList ==>
                && r == Ok(mstTotalCost) && mstComputed
                && PrimRun(adjacencyList, start, isDirected, mstAdjacencyList, mstTotalCost, !disconnected, mstTree)
    {
      if start !in adjacencyList {
        r, disconnected := Thrown(IllegalArgument), false;
        return;
      }
      var mst, cost, spanning, tree := RunPrim(adjacencyList, start, isDirected);
      RecordTree(mst, cost, tree);
      disconnected := !spanning;
      r := Ok(mstTotalCost);
    }

    /** computeKruskalMST: the tree lists are rebuilt from scratch as
        KruskalRun describes, and the total is returned. */
    method ComputeKruskalMST(order: seq<V>) returns (cost: real)
      requires Valid() && Distinct(order) && (set x | x in order) == adjacencyList.Keys
      modifies this
      ensures Valid() && adjacencyList == old(adjacencyList)
      ensures mstComputed && cost == mstTotalCost
      ensures KruskalRun(adjacencyList, order, name, isDirected, mstAdjacencyList, mstTotalCost, mstTree)
    {
      var mst, total, tree := RunKruskal(adjacencyList, order, name, isDirected);
      RecordTree(mst, total, tree);
      cost := mstTotalCost;
    }

    /** The assignments that end both runs: the tree lists, the total and
        the computed flag. */
    method RecordTree(mst: map<V, seq<WeightedEdge<V>>>, cost: real, ghost tree: seq<EdgeTriple<V>>)
      requires Valid() && ForestLists(mst, tree, isDirected)
      modifies this
      ensures Valid() && adjacencyList == old(adjacencyList)
      ensures mstAdjacencyList == mst && mstTotalCost == cost && mstTree == tree && mstComputed
    {
      mstAdjacencyList, mstTotalCost, mstTree := mst, cost, tree;
      mstComputed := true;
    }

    /** getMSTAsGraph: before any run an IllegalStateException. Otherwise a
        fresh graph with the tree lists' vertices, then addEdge for every
        entry of every tree list, an undirected pair once; its entries are
        exactly those of the tree lists. */
    method GetMSTAsGraph(order: seq<V>) returns (r: Result<WeightedGraph<V>>)
      requires Valid() && Distinct(order) && (set x | x in order) == mstAdjacencyList.Keys
      ensures !mstComputed ==> r == Thrown(IllegalState)
      ensures mstComputed ==>
                && r.Ok? && fresh(r.value) && r.value.Valid() && r.value.isDirected == isDirected
                && r.value.adjacencyList == Materialized(mstAdjacencyList, order, name, isDirected)
                && r.value.adjacencyList.Keys == mstAdjacencyList.Keys
                && forall u, v, w :: Count(r.value.adjacencyList, u, v, w) == Count(mstAdjacencyList, u, v, w)
    {
      if !mstComputed {
        return Thrown(IllegalState);
      }
      var g := new WeightedGraph(isDirected);
      AddVertices(g, order);
      AddTreeEdges(g, mstAdjacencyList, order, name);
      forall u, v, w
        ensures Count(g.adjacencyList, u, v, w) == Count(mstAdjacencyList, u, v, w)
      {
        MaterializedCounts(mstAdjacencyList.Keys, mstTree, order, name, isDirected, u, v, w);
      }
      MaterializedKeys(mstAdjacencyList.Keys, mstTree, order, name, isDirected);
      r := Ok(g);
    }

    /** isMSTComputed. */
    function IsMSTComputed(): (b: bool)
      reads this
      ensures b <==> mstComputed
    {
      mstComputed
    }
  }
}
