/** The state of computePrimMST's loop: the visited and unvisited sets,
    the heap of candidate entries, the tree triples accepted so far and the
    tree lists and cost built from them. */
module PrimInvariant {
  import opened WeightedGraphs
  import opened WeightedWalks
  import opened SpanningEdges
  import opened SpanningForests

  /** A heap entry: the edge parent -> vertex of the given weight. */
  datatype HeapNode<V> = HeapNode(vertex: V, parent: V, weight: real)

  /** No entry of the heap is lighter than the k-th (HeapNode.compareTo
      compares weights only). */
  predicate Lightest<V>(heap: seq<HeapNode<V>>, k: nat)
    requires k < |heap|
  {
    forall j :: 0 <= j < |heap| ==> heap[k].weight <= heap[j].weight
  }

  /** A non-empty heap has a lightest entry. */
  lemma {:induction false} LightestExists<V>(heap: seq<HeapNode<V>>)
    requires |heap| > 0
    ensures exists k :: 0 <= k < |heap| && Lightest(heap, k)
  {
    if |heap| > 1 {
      var n := |heap| - 1;
      LightestExists(heap[..n]);
      var k :| 0 <= k < n && Lightest(heap[..n], k);
      if heap[k].weight <= heap[n].weight {
        assert Lightest(heap, k);
      } else {
        assert Lightest(heap, n);
      }
    } else {
      assert Lightest(heap, 0);
    }
  }

  /** The heap entries for every entry of parent's list. */
  function Nodes<V(!new)>(parent: V, es: seq<WeightedEdge<V>>): (r: seq<HeapNode<V>>)
    ensures forall h :: h in r <==> h.parent == parent && WeightedEdge(h.vertex, h.weight) in es
  {
    if |es| == 0 then []
    else
      var n := |es| - 1;
      assert es == es[..n] + [es[n]];
      Nodes(parent, es[..n]) + [HeapNode(es[n].target, parent, es[n].weight)]
  }

  /** The heap entries for the entries of parent's list that lead to a
      vertex of keep. */
  function Candidates<V(==, !new)>(parent: V, es: seq<WeightedEdge<V>>, keep: set<V>): (r: seq<HeapNode<V>>)
    ensures forall h :: h in r <==> h.parent == parent && WeightedEdge(h.vertex, h.weight) in es && h.vertex in keep
  {
    if |es| == 0 then []
    else
      var n := |es| - 1;
      assert es == es[..n] + [es[n]];
      Candidates(parent, es[..n], keep) + (if es[n].target in keep then [HeapNode(es[n].target, parent, es[n].weight)] else [])
  }

  /** No entry leaving inside is lighter than w: w is the weight of a
      lightest edge across the cut. */
  ghost predicate LightCut<V(!new)>(adj: map<V, seq<WeightedEdge<V>>>, inside: set<V>, w: real) {
    forall u, e :: u in inside && e in EdgesOf(adj, u) && e.target !in inside ==> w <= e.weight
  }

  /** Each tree triple was a lightest edge leaving the tree grown so far. */
  ghost predicate Light<V(!new)>(adj: map<V, seq<WeightedEdge<V>>>, start: V, tree: seq<EdgeTriple<V>>) {
    forall k :: 0 <= k < |tree| ==> LightCut(adj, {start} + Reached(tree[..k]), tree[k].weight)
  }

  /** Each triple is an entry of the graph. */
  ghost predicate Entries<V(!new)>(adj: map<V, seq<WeightedEdge<V>>>, ts: seq<EdgeTriple<V>>) {
    forall k :: 0 <= k < |ts| ==> WeightedEdge(ts[k].target, ts[k].weight) in EdgesOf(adj, ts[k].source)
  }

  /** The tree grows from start through entries of the graph, each a
      lightest one leaving it, and the visited vertices are its vertices,
      each one reached by a walk from start. */
  ghost predicate Tree<V(!new)>(adj: map<V, seq<WeightedEdge<V>>>, start: V, visited: set<V>, tree: seq<EdgeTriple<V>>) {
    && visited == {start} + Reached(tree) && visited <= adj.Keys
    && Grown(start, tree) && Entries(adj, tree) && Light(adj, start, tree)
    && forall v :: v in visited ==> Connected(adj, start, v)
  }

  /** Every heap entry is an entry of the graph leaving a visited vertex. */
  ghost predicate Pending<V(!new)>(adj: map<V, seq<WeightedEdge<V>>>, visited: set<V>, heap: seq<HeapNode<V>>) {
    forall h :: h in heap ==> h.parent in visited && WeightedEdge(h.vertex, h.weight) in EdgesOf(adj, h.parent)
  }

  /** Every entry from a visited to an unvisited vertex waits in the heap. */
  ghost predicate Waiting<V(!new)>(adj: map<V, seq<WeightedEdge<V>>>, visited: set<V>, heap: seq<HeapNode<V>>) {
    forall u, e :: u in visited && e in EdgesOf(adj, u) && e.target !in visited ==> HeapNode(e.target, u, e.weight) in heap
  }

  /** The loop state: the tree, the heap around it, and the tree lists and
      cost of the tree's triples. */
  ghost predicate Growing<V(!new)>(adj: map<V, seq<WeightedEdge<V>>>, start: V, isDirected: bool,
                                   visited: set<V>, unvisited: set<V>, heap: seq<HeapNode<V>>,
                                   mst: map<V, seq<WeightedEdge<V>>>, cost: real, tree: seq<EdgeTriple<V>>)
  {
    && Closed(adj) && unvisited == adj.Keys - visited
    && Tree(adj, start, visited, tree) && Pending(adj, visited, heap) && Waiting(adj, visited, heap)
    && mst == AddTriples(Bare(adj.Keys), tree, isDirected) && cost == Cost(tree)
  }

  /** The tree lists have a list for every vertex and no other. */
  lemma GrowingKeys<V(!new)>(adj: map<V, seq<WeightedEdge<V>>>, start: V, isDirected: bool,
                             visited: set<V>, unvisited: set<V>, heap: seq<HeapNode<V>>,
                             mst: map<V, seq<WeightedEdge<V>>>, cost: real, tree: seq<EdgeTriple<V>>)
    requires Growing(adj, start, isDirected, visited, unvisited, heap, mst, cost, tree)
    ensures mst.Keys == adj.Keys
  {
    forall k | 0 <= k < |tree|
      ensures tree[k].source in adj && tree[k].target in adj
    {
      GrownEnds(start, tree, k);
    }
    AddTriplesKeys(Bare(adj.Keys), tree, isDirected);
  }

  /** Before the loop: start visited, its entries in the heap, no tree. */
  lemma PrimStart<V(!new)>(adj: map<V, seq<WeightedEdge<V>>>, start: V, isDirected: bool)
    requires Closed(adj) && start in adj
    ensures Growing(adj, start, isDirected, {start}, adj.Keys - {start}, Nodes(start, EdgesOf(adj, start)),
                    Bare(adj.Keys), 0.0, [])
  {
    assert Connected(adj, start, start) by {
      assert Leads(adj, Walk([start], []), start, start);
    }
  }

  /** Polling takes one entry out and leaves the others. */
  lemma PolledRest<V>(heap: seq<HeapNode<V>>, h: HeapNode<V>, rest: seq<HeapNode<V>>)
    requires h in heap && multiset(rest) == multiset(heap) - multiset{h}
    ensures forall g :: g in rest ==> g in heap
    ensures forall g :: g in heap && g != h ==> g in rest
  {
    forall g | g in heap && g != h
      ensures g in rest
    {
      assert multiset(heap)[g] > 0;
      assert multiset(rest)[g] == multiset(heap)[g];
    }
    forall g | g in rest
      ensures g in heap
    {
      assert multiset(rest)[g] > 0;
    }
  }

  /** A polled entry into a visited vertex is dropped. */
  lemma StaleStep<V(!new)>(adj: map<V, seq<WeightedEdge<V>>>, start: V, isDirected: bool,
                           visited: set<V>, unvisited: set<V>, heap: seq<HeapNode<V>>,
                           mst: map<V, seq<WeightedEdge<V>>>, cost: real, tree: seq<EdgeTriple<V>>,
                           h: HeapNode<V>, rest: seq<HeapNode<V>>)
    requires Growing(adj, start, isDirected, visited, unvisited, heap, mst, cost, tree)
    requires h in heap && multiset(rest) == multiset(heap) - multiset{h} && h.vertex in visited
    ensures Growing(adj, start, isDirected, visited, unvisited, rest, mst, cost, tree)
  {
    PolledRest(heap, h, rest);
  }

  /** The polled entry into an unvisited vertex, lightest in the heap, is
      a lightest entry leaving the tree. */
  lemma PolledLight<V(!new)>(adj: map<V, seq<WeightedEdge<V>>>, visited: set<V>, heap: seq<HeapNode<V>>, k: nat)
    requires Waiting(adj, visited, heap) && k < |heap| && Lightest(heap, k)
    ensures LightCut(adj, visited, heap[k].weight)
  {
    forall u, e | u in visited && e in EdgesOf(adj, u) && e.target !in visited
      ensures heap[k].weight <= e.weight
    {
      var j :| 0 <= j < |heap| && heap[j] == HeapNode(e.target, u, e.weight);
    }
  }

  /** Accepting the polled entry grows the tree by one triple. */
  lemma TreeStep<V(!new)>(adj: map<V, seq<WeightedEdge<V>>>, start: V, visited: set<V>, tree: seq<EdgeTriple<V>>, h: HeapNode<V>)
    requires Closed(adj) && Tree(adj, start, visited, tree)
    requires h.parent in visited && WeightedEdge(h.vertex, h.weight) in EdgesOf(adj, h.parent) && h.vertex !in visited
    requires LightCut(adj, visited, h.weight)
    ensures Tree(adj, start, visited + {h.vertex}, tree + [EdgeTriple(h.parent, h.vertex, h.weight)])
  {
    var t := EdgeTriple(h.parent, h.vertex, h.weight);
    var us := tree + [t];
    GrownSnoc(start, tree, t);
    forall k | 0 <= k < |us|
      ensures LightCut(adj, {start} + Reached(us[..k]), us[k].weight)
    {
      if k < |tree| {
        assert us[..k] == tree[..k] && us[k] == tree[k];
      } else {
        assert us[..k] == tree;
      }
    }
    assert Entries(adj, us) by {
      forall k | 0 <= k < |us|
        ensures WeightedEdge(us[k].target, us[k].weight) in EdgesOf(adj, us[k].source)
      {
        if k < |tree| {
          assert us[k] == tree[k];
        }
      }
    }
    assert Connected(adj, start, h.vertex) by {
      var w :| Leads(adj, w, start, h.parent);
      ExtendLeads(adj, w, start, h.parent, h.vertex, h.weight);
    }
    assert h.vertex in adj by {
      assert h.parent in adj;
    }
  }

  /** After accepting, the heap keeps waiting entries: the rest of the old
      heap and the new vertex's entries into unvisited vertices. */
  lemma HeapStep<V(!new)>(adj: map<V, seq<WeightedEdge<V>>>, visited: set<V>, heap: seq<HeapNode<V>>,
                          h: HeapNode<V>, rest: seq<HeapNode<V>>)
    requires Closed(adj) && visited <= adj.Keys && Pending(adj, visited, heap) && Waiting(adj, visited, heap)
    requires h in heap && multiset(rest) == multiset(heap) - multiset{h} && h.vertex !in visited
    ensures var visited' := visited + {h.vertex};
            var heap' := rest + Candidates(h.vertex, EdgesOf(adj, h.vertex), adj.Keys - visited');
            Pending(adj, visited', heap') && Waiting(adj, visited', heap')
  {
    var c := h.vertex;
    var visited' := visited + {c};
    var pushed := Candidates(c, EdgesOf(adj, c), adj.Keys - visited');
    var heap' := rest + pushed;
    PolledRest(heap, h, rest);
    forall u, e | u in visited' && e in EdgesOf(adj, u) && e.target !in visited'
      ensures HeapNode(e.target, u, e.weight) in heap'
    {
      if u == c {
        assert e.target in adj;
        assert HeapNode(e.target, u, e.weight) in pushed;
      } else {
        assert HeapNode(e.target, u, e.weight) in rest;
      }
    }
  }

  /** Accepting the polled entry h = heap[k] into an unvisited vertex. */
  lemma FreshStep<V(!new)>(adj: map<V, seq<WeightedEdge<V>>>, start: V, isDirected: bool,
                           visited: set<V>, unvisited: set<V>, heap: seq<HeapNode<V>>,
                           mst: map<V, seq<WeightedEdge<V>>>, cost: real, tree: seq<EdgeTriple<V>>,
                           k: nat, rest: seq<HeapNode<V>>,
                           visited': set<V>, unvisited': set<V>, heap': seq<HeapNode<V>>,
                           mst': map<V, seq<WeightedEdge<V>>>, cost': real)
    requires Growing(adj, start, isDirected, visited, unvisited, heap, mst, cost, tree)
    requires k < |heap| && Lightest(heap, k) && heap[k].vertex !in visited
    requires multiset(rest) == multiset(heap) - multiset{heap[k]}
    requires visited' == visited + {heap[k].vertex} && unvisited' == unvisited - {heap[k].vertex}
    requires heap' == rest + Candidates(heap[k].vertex, EdgesOf(adj, heap[k].vertex), unvisited')
    requires mst' == WithEdge(mst, heap[k].parent, heap[k].vertex, heap[k].weight, isDirected)
    requires cost' == cost + heap[k].weight
    ensures Growing(adj, start, isDirected, visited', unvisited', heap', mst', cost',
                    tree + [EdgeTriple(heap[k].parent, heap[k].vertex, heap[k].weight)])
  {
    var h := heap[k];
    PolledLight(adj, visited, heap, k);
    TreeStep(adj, start, visited, tree, h);
    assert unvisited' == adj.Keys - visited';
    HeapStep(adj, visited, heap, h, rest);
    AddTriplesSnoc(Bare(adj.Keys), tree, EdgeTriple(h.parent, h.vertex, h.weight), isDirected);
  }

  /** A set holding start and every target of an entry of its vertices
      holds every vertex a walk from start reaches. */
  lemma ClosedHoldsConnected<V(!new)>(adj: map<V, seq<WeightedEdge<V>>>, start: V, inside: set<V>, v: V)
    requires start in inside
    requires forall u, e :: u in inside && e in EdgesOf(adj, u) ==> e.target in inside
    requires Connected(adj, start, v)
    ensures v in inside
  {
    var w :| Leads(adj, w, start, v);
    var i := 0;
    while i < |w.weights|
      invariant 0 <= i <= |w.weights| && w.vertices[i] in inside
    {
      assert WeightedEdge(w.vertices[i + 1], w.weights[i]) in EdgesOf(adj, w.vertices[i]);
      i := i + 1;
    }
  }

  /** A grown tree has one triple per vertex besides start. */
  lemma {:induction false} GrownSize<V(!new)>(start: V, tree: seq<EdgeTriple<V>>)
    requires Grown(start, tree)
    ensures start !in Reached(tree) && |Reached(tree)| == |tree|
  {
    if |tree| > 0 {
      var n := |tree| - 1;
      GrownPrefix(start, tree, n);
      GrownSize(start, tree[..n]);
      assert Sprouts(start, tree, n);
      GrownSnoc(start, tree[..n], tree[n]);
      assert tree[..n] + [tree[n]] == tree;
    }
  }

  /** When the loop stops, with no unvisited vertex or an empty heap, the
      tree's vertices are exactly those a walk from start reaches, and there
      is one triple fewer than vertices in it. */
  lemma PrimDone<V(!new)>(adj: map<V, seq<WeightedEdge<V>>>, start: V, isDirected: bool,
                          visited: set<V>, unvisited: set<V>, heap: seq<HeapNode<V>>,
                          mst: map<V, seq<WeightedEdge<V>>>, cost: real, tree: seq<EdgeTriple<V>>)
    requires Growing(adj, start, isDirected, visited, unvisited, heap, mst, cost, tree)
    requires unvisited == {} || heap == []
    ensures visited == set v | v in adj && Connected(adj, start, v)
    ensures |tree| == |visited| - 1
  {
    forall v | v in adj && Connected(adj, start, v)
      ensures v in visited
    {
      if unvisited != {} {
        ClosedHoldsConnected(adj, start, visited, v);
      }
    }
    GrownSize(start, tree);
  }
}
