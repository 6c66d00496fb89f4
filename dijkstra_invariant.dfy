/** The state of Dijkstra's search (distances, previous vertices, the
    queue and the settled set) and what it keeps true from one poll to the
    next. A ghost map gives, for every vertex reached so far, the walk its
    distance measures. */
module DijkstraSearch {
  import opened WeightedGraphs
  import opened WeightedWalks
  import opened Distances

  /** The four structures of the search. */
  datatype Search<V> = Search(distances: map<V, Dist>, previousVertices: map<V, V>, queue: seq<V>, settled: set<V>)

  /** Every vertex at infinity except the source, at zero. */
  function Initial<V(==)>(vertices: set<V>, source: V): (distances: map<V, Dist>)
    ensures distances.Keys == vertices
  {
    map v | v in vertices :: if v == source then Finite(0.0) else Infinite
  }

  /** The position poll() takes: an entry of least distance (the first
      such). */
  function MinIndex<V>(queue: seq<V>, distances: map<V, Dist>): (k: nat)
    requires |queue| > 0 && forall i :: 0 <= i < |queue| ==> queue[i] in distances
    ensures k < |queue|
    ensures forall i :: 0 <= i < |queue| ==> NotAbove(distances[queue[k]], distances[queue[i]])
  {
    if |queue| == 1 then 0
    else
      var k := MinIndex(queue[..|queue| - 1], distances);
      if Below(distances[queue[|queue| - 1]], distances[queue[k]]) then |queue| - 1 else k
  }

  /** The queue without its k-th entry. */
  function Remove<V>(queue: seq<V>, k: nat): (r: seq<V>)
    requires k < |queue|
    ensures |r| == |queue| - 1
  {
    queue[..k] + queue[k + 1..]
  }

  lemma RemoveMembers<V>(queue: seq<V>, k: nat)
    requires k < |queue|
    ensures forall v :: v in Remove(queue, k) ==> v in queue
    ensures forall v :: v in queue && v != queue[k] ==> v in Remove(queue, k)
  {
    forall v | v in queue && v != queue[k]
      ensures v in Remove(queue, k)
    {
      var i :| 0 <= i < |queue| && queue[i] == v;
      if i < k {
        assert Remove(queue, k)[i] == v;
      } else {
        assert Remove(queue, k)[i - 1] == v;
      }
    }
  }

  /** What holds of the search between polls, apart from what the settled
      vertices' entries promise. */
  ghost predicate Frame<V(!new)>(adj: map<V, seq<WeightedEdge<V>>>, source: V, s: Search<V>, walks: map<V, Walk<V>>) {
    Reached(adj, source, s, walks) && Queued(adj, source, s, walks)
  }

  /** The distances and previous vertices of the reached vertices. */
  ghost predicate Reached<V(!new)>(adj: map<V, seq<WeightedEdge<V>>>, source: V, s: Search<V>, walks: map<V, Walk<V>>) {
    && Closed(adj) && source in adj
    && s.distances.Keys == adj.Keys
    && walks.Keys <= adj.Keys && s.settled <= walks.Keys
    // a vertex has a finite distance exactly when it has been reached
    && (forall v :: v in adj ==> (s.distances[v].Finite? <==> v in walks))
    // and that distance is the weight of a walk from the source
    && (forall v :: v in walks ==> Leads(adj, walks[v], source, v) && s.distances[v] == Finite(Sum(walks[v].weights)))
    && source in walks && walks[source] == Walk([source], [])
    // every reached vertex but the source has a settled previous vertex,
    // and its walk runs through it
    && s.previousVertices.Keys == walks.Keys - {source}
    && (forall v :: v in s.previousVertices ==>
          s.previousVertices[v] in s.settled && walks[v].vertices == walks[s.previousVertices[v]].vertices + [v])
  }

  /** The queue holds reached vertices, every reached vertex not yet
      settled waits in it and, with no negative entry, nothing settled lies
      beyond what waits. */
  ghost predicate Queued<V(!new)>(adj: map<V, seq<WeightedEdge<V>>>, source: V, s: Search<V>, walks: map<V, Walk<V>>) {
    && s.distances.Keys == adj.Keys && s.settled <= adj.Keys
    && (forall i :: 0 <= i < |s.queue| ==> s.queue[i] in walks && s.queue[i] in adj)
    && (forall v :: v in walks && v !in s.settled ==> v in s.queue)
    && (s.settled == {} ==> s.queue == [source])
    && (s.settled != {} ==> source in s.settled)
    && (NonNegative(adj) ==> forall x, y :: x in s.settled && y in s.queue && y !in s.settled ==> NotAbove(s.distances[x], s.distances[y]))
  }

  /** The entry x -> e.target has been relaxed: the target has been reached
      and, with no negative entry, lies no farther than x plus the entry's
      weight. */
  ghost predicate RelaxedEdge<V(!new)>(adj: map<V, seq<WeightedEdge<V>>>, s: Search<V>, walks: map<V, Walk<V>>, x: V, e: WeightedEdge<V>) {
    && e.target in walks && e.target in s.distances && x in s.distances
    && (NonNegative(adj) ==> NotAbove(s.distances[e.target], Plus(s.distances[x], e.weight)))
  }

  /** The state between two polls: every entry of every settled vertex has
      been relaxed. */
  ghost predicate Inv<V(!new)>(adj: map<V, seq<WeightedEdge<V>>>, source: V, s: Search<V>, walks: map<V, Walk<V>>) {
    Frame(adj, source, s, walks) && AllRelaxed(adj, s, walks)
  }

  ghost predicate AllRelaxed<V(!new)>(adj: map<V, seq<WeightedEdge<V>>>, s: Search<V>, walks: map<V, Walk<V>>) {
    && s.settled <= adj.Keys
    && (forall x, e :: x in s.settled && e in adj[x] ==> RelaxedEdge(adj, s, walks, x, e))
  }

  /** The state while the entries of the vertex just settled are relaxed:
      the first j of them have been. */
  ghost predicate Partial<V(!new)>(adj: map<V, seq<WeightedEdge<V>>>, source: V, s: Search<V>, walks: map<V, Walk<V>>, current: V, j: nat) {
    && Frame(adj, source, s, walks)
    && current in s.settled && j <= |adj[current]|
    && (forall x, e :: x in s.settled && x != current && e in adj[x] ==> RelaxedEdge(adj, s, walks, x, e))
    && (forall e :: e in adj[current][..j] ==> RelaxedEdge(adj, s, walks, current, e))
    && (NonNegative(adj) ==> forall x :: x in s.settled ==> NotAbove(s.distances[x], s.distances[current]))
  }

  /** The state before the first poll. */
  lemma Started<V(!new)>(adj: map<V, seq<WeightedEdge<V>>>, source: V)
    requires Closed(adj) && source in adj
    ensures Inv(adj, source, Search(Initial(adj.Keys, source), map[], [source], {}), map[source := Walk([source], [])])
  {
    var walks := map[source := Walk([source], [])];
    assert Leads(adj, walks[source], source, source);
  }

  /** Polling a vertex already settled only shortens the queue. */
  lemma PolledSettled<V(!new)>(adj: map<V, seq<WeightedEdge<V>>>, source: V, s: Search<V>, walks: map<V, Walk<V>>, k: nat)
    requires Inv(adj, source, s, walks)
    requires k < |s.queue| && s.queue[k] in s.settled
    ensures Inv(adj, source, s.(queue := Remove(s.queue, k)), walks)
  {
    RemoveMembers(s.queue, k);
  }

  /** Polling an unsettled vertex of least distance and settling it starts
      the relaxation of its entries. */
  lemma PolledFresh<V(!new)>(adj: map<V, seq<WeightedEdge<V>>>, source: V, s: Search<V>, walks: map<V, Walk<V>>, k: nat)
    requires Inv(adj, source, s, walks)
    requires k < |s.queue| && s.queue[k] !in s.settled
    requires forall i :: 0 <= i < |s.queue| ==> NotAbove(s.distances[s.queue[k]], s.distances[s.queue[i]])
    ensures Partial(adj, source, Settled(s, k), walks, s.queue[k], 0) == true
  {
    SettledReached(adj, source, s, walks, k);
    SettledQueued(adj, source, s, walks, k);
  }

  /** The search after poll() took the unsettled queue[k] and settled it. */
  function Settled<V>(s: Search<V>, k: nat): Search<V>
    requires k < |s.queue|
  {
    Search(s.distances, s.previousVertices, Remove(s.queue, k), s.settled + {s.queue[k]})
  }

  lemma SettledReached<V(!new)>(adj: map<V, seq<WeightedEdge<V>>>, source: V, s: Search<V>, walks: map<V, Walk<V>>, k: nat)
    requires Reached(adj, source, s, walks) == true
    requires k < |s.queue| && s.queue[k] in walks
    ensures Reached(adj, source, Settled(s, k), walks)
  {
  }

  lemma SettledQueued<V(!new)>(adj: map<V, seq<WeightedEdge<V>>>, source: V, s: Search<V>, walks: map<V, Walk<V>>, k: nat)
    requires Queued(adj, source, s, walks) == true
    requires k < |s.queue| && s.queue[k] !in s.settled
    requires forall i :: 0 <= i < |s.queue| ==> NotAbove(s.distances[s.queue[k]], s.distances[s.queue[i]])
    ensures Queued(adj, source, Settled(s, k), walks)
    ensures NonNegative(adj) ==> forall x :: x in Settled(s, k).settled ==> NotAbove(s.distances[x], s.distances[s.queue[k]])
  {
    RemoveMembers(s.queue, k);
  }

  /** An entry to a settled vertex is skipped; it is relaxed already. */
  lemma SkipSettled<V(!new)>(adj: map<V, seq<WeightedEdge<V>>>, source: V, s: Search<V>, walks: map<V, Walk<V>>, current: V, j: nat)
    requires Partial(adj, source, s, walks, current, j)
    requires j < |adj[current]| && adj[current][j].target in s.settled
    ensures Partial(adj, source, s, walks, current, j + 1)
  {
    assert adj[current][..j + 1] == adj[current][..j] + [adj[current][j]];
  }

  /** An entry that does not shorten its target's distance is relaxed
      already. */
  lemma NoImprovement<V(!new)>(adj: map<V, seq<WeightedEdge<V>>>, source: V, s: Search<V>, walks: map<V, Walk<V>>, current: V, j: nat)
    requires Partial(adj, source, s, walks, current, j)
    requires j < |adj[current]|
    requires !Below(Plus(s.distances[current], adj[current][j].weight), s.distances[adj[current][j].target])
    ensures Partial(adj, source, s, walks, current, j + 1)
  {
    assert adj[current][..j + 1] == adj[current][..j] + [adj[current][j]];
  }

  /** An entry that shortens its target's distance: the new distance, the
      new previous vertex and a new queue entry. */
  lemma Improvement<V(!new)>(adj: map<V, seq<WeightedEdge<V>>>, source: V, s: Search<V>, walks: map<V, Walk<V>>, current: V, j: nat)
    requires Partial(adj, source, s, walks, current, j)
    requires j < |adj[current]| && adj[current][j].target !in s.settled
    requires Below(Plus(s.distances[current], adj[current][j].weight), s.distances[adj[current][j].target])
    ensures var e := adj[current][j];
            Partial(adj, source, Improved(s, current, e), walks[e.target := Extend(walks[current], e.target, e.weight)], current, j + 1) == true
  {
    var e := adj[current][j];
    var s', walks' := Improved(s, current, e), walks[e.target := Extend(walks[current], e.target, e.weight)];
    ImprovedReached(adj, source, s, walks, current, e);
    ImprovedQueued(adj, source, s, walks, current, e);
    ImprovedRelaxed(adj, source, s, walks, current, j);
  }

  /** The search after the entry current -> e.target shortened the
      target's distance. */
  function Improved<V>(s: Search<V>, current: V, e: WeightedEdge<V>): Search<V>
    requires current in s.distances
  {
    Search(s.distances[e.target := Plus(s.distances[current], e.weight)], s.previousVertices[e.target := current],
           s.queue + [e.target], s.settled)
  }

  lemma ImprovedReached<V(!new)>(adj: map<V, seq<WeightedEdge<V>>>, source: V, s: Search<V>, walks: map<V, Walk<V>>, current: V, e: WeightedEdge<V>)
    requires Reached(adj, source, s, walks) == true
    requires current in s.settled && source in s.settled && e.target !in s.settled && current in adj && e in adj[current]
    ensures Reached(adj, source, Improved(s, current, e), walks[e.target := Extend(walks[current], e.target, e.weight)])
  {
    ExtendLeads(adj, walks[current], source, current, e.target, e.weight);
  }

  lemma ImprovedQueued<V(!new)>(adj: map<V, seq<WeightedEdge<V>>>, source: V, s: Search<V>, walks: map<V, Walk<V>>, current: V, e: WeightedEdge<V>)
    requires Queued(adj, source, s, walks) == true && s.settled <= walks.Keys
    requires current in s.settled && e.target !in s.settled && current in adj && e in adj[current] && Closed(adj)
    requires s.distances[current].Finite?
    requires NonNegative(adj) ==> forall x :: x in s.settled ==> NotAbove(s.distances[x], s.distances[current])
    ensures Queued(adj, source, Improved(s, current, e), walks[e.target := Extend(walks[current], e.target, e.weight)])
  {
  }

  lemma ImprovedRelaxed<V(!new)>(adj: map<V, seq<WeightedEdge<V>>>, source: V, s: Search<V>, walks: map<V, Walk<V>>, current: V, j: nat)
    requires s.settled <= s.distances.Keys && s.settled <= adj.Keys && Closed(adj)
    requires current in s.settled && current in walks && j < |adj[current]|
    requires var e := adj[current][j]; e.target in s.distances && e.target !in s.settled
    requires Below(Plus(s.distances[current], adj[current][j].weight), s.distances[adj[current][j].target])
    requires forall x, f :: x in s.settled && x != current && f in adj[x] ==> RelaxedEdge(adj, s, walks, x, f)
    requires forall f :: f in adj[current][..j] ==> RelaxedEdge(adj, s, walks, current, f)
    requires NonNegative(adj) ==> forall x :: x in s.settled ==> NotAbove(s.distances[x], s.distances[current])
    ensures var e := adj[current][j];
            var s', walks' := Improved(s, current, e), walks[e.target := Extend(walks[current], e.target, e.weight)];
            && (forall x, f :: x in s'.settled && x != current && f in adj[x] ==> RelaxedEdge(adj, s', walks', x, f))
            && (forall f :: f in adj[current][..j + 1] ==> RelaxedEdge(adj, s', walks', current, f))
            && (NonNegative(adj) ==> forall x :: x in s'.settled ==> NotAbove(s'.distances[x], s'.distances[current]))
  {
    assert adj[current][..j + 1] == adj[current][..j] + [adj[current][j]];
  }

  /** The entries of the vertex just settled are all relaxed. */
  lemma Relaxed<V(!new)>(adj: map<V, seq<WeightedEdge<V>>>, source: V, s: Search<V>, walks: map<V, Walk<V>>, current: V)
    requires current in adj && Partial(adj, source, s, walks, current, |adj[current]|)
    ensures Inv(adj, source, s, walks)
  {
    assert adj[current][..|adj[current]|] == adj[current];
  }

  /** Along a walk from the source whose first n vertices are settled, the
      n-th vertex has been reached and, with no negative entry, lies no
      farther than the walk's first n steps. */
  lemma {:induction false} SettledPrefix<V(!new)>(adj: map<V, seq<WeightedEdge<V>>>, source: V, s: Search<V>, walks: map<V, Walk<V>>,
                                                  w: Walk<V>, t: V, n: nat)
    requires AllRelaxed(adj, s, walks) && source in walks && source in s.distances && s.distances[source] == Finite(0.0)
    requires Leads(adj, w, source, t) && n <= |w.weights|
    requires forall m :: 0 <= m < n ==> w.vertices[m] in s.settled
    ensures w.vertices[n] in walks && w.vertices[n] in s.distances
    ensures NonNegative(adj) ==> NotAbove(s.distances[w.vertices[n]], Finite(Sum(w.weights[..n])))
  {
    if n == 0 {
      assert w.weights[..0] == [];
    } else {
      SettledPrefix(adj, source, s, walks, w, t, n - 1);
      var x := w.vertices[n - 1];
      var e := WeightedEdge(w.vertices[n], w.weights[n - 1]);
      assert e in EdgesOf(adj, x);
      assert RelaxedEdge(adj, s, walks, x, e);
      assert w.weights[..n][..n - 1] == w.weights[..n - 1];
    }
  }

  /** The first position of vs outside S. */
  ghost function FirstOutside<V>(vs: seq<V>, S: set<V>): (m: nat)
    requires exists i :: 0 <= i < |vs| && vs[i] !in S
    ensures m < |vs| && vs[m] !in S && forall i :: 0 <= i < m ==> vs[i] in S
  {
    if vs[0] !in S then 0
    else
      assert exists i :: 0 <= i < |vs[1..]| && vs[1..][i] !in S by {
        var i :| 0 <= i < |vs| && vs[i] !in S;
        assert vs[1..][i - 1] == vs[i];
      }
      1 + FirstOutside(vs[1..], S)
  }

  /** Once the queue is empty, every vertex a walk from the source reaches
      has been reached and, with no negative entry, lies no farther than
      that walk. */
  lemma Exhausted<V(!new)>(adj: map<V, seq<WeightedEdge<V>>>, source: V, s: Search<V>, walks: map<V, Walk<V>>)
    requires Inv(adj, source, s, walks) && s.queue == []
    ensures forall w, t :: Leads(adj, w, source, t) ==> t in walks
    ensures NonNegative(adj) ==> forall w, t :: Leads(adj, w, source, t) ==> NotAbove(s.distances[t], Finite(Sum(w.weights)))
  {
    forall w, t | Leads(adj, w, source, t)
      ensures t in walks && (NonNegative(adj) ==> NotAbove(s.distances[t], Finite(Sum(w.weights))))
    {
      if exists i :: 0 <= i < |w.vertices| && w.vertices[i] !in s.settled {
        var m := FirstOutside(w.vertices, s.settled);
        SettledPrefix(adj, source, s, walks, w, t, m);
        assert false;
      }
      SettledPrefix(adj, source, s, walks, w, t, |w.weights|);
      assert w.weights[..|w.weights|] == w.weights;
    }
  }

  /** Once the queue is empty the distances are final: zero at the source,
      finite exactly for the vertices some walk from the source reaches,
      each finite one the weight of such a walk and, with no negative
      entry, no more than the weight of any of them. */
  lemma Finished<V(!new)>(adj: map<V, seq<WeightedEdge<V>>>, source: V, s: Search<V>, walks: map<V, Walk<V>>)
    requires Inv(adj, source, s, walks) == true && s.queue == []
    ensures s.distances.Keys == adj.Keys && s.distances[source] == Finite(0.0)
    ensures forall v :: v in s.distances ==> (s.distances[v].Finite? <==> Connected(adj, source, v))
    ensures forall v :: v in s.distances && s.distances[v].Finite? ==>
              exists w :: Leads(adj, w, source, v) && Sum(w.weights) == s.distances[v].value
    ensures NonNegative(adj) ==>
              forall v, w :: v in s.distances && Leads(adj, w, source, v) ==> NotAbove(s.distances[v], Finite(Sum(w.weights)))
  {
    Exhausted(adj, source, s, walks);
    forall v | v in s.distances && s.distances[v].Finite?
      ensures Leads(adj, walks[v], source, v) && Sum(walks[v].weights) == s.distances[v].value
    {
    }
  }

  /** Following the previous vertices back from a reached vertex walks
      the walk kept for it backwards: each previous vertex ends the walk
      kept for the vertex after it, and a vertex without one is the whole
      walk. */
  ghost predicate Trail<V>(previousVertices: map<V, V>, walks: map<V, Walk<V>>) {
    forall v :: v in walks ==>
      if v in previousVertices
      then previousVertices[v] in walks && walks[v].vertices == walks[previousVertices[v]].vertices + [v]
      else walks[v].vertices == [v]
  }

  /** What the search records about a reached vertex: its distance is the
      weight of the walk kept for it, and the previous vertices trace the
      walks back to the source, the only vertex without one. */
  lemma Recorded<V(!new)>(adj: map<V, seq<WeightedEdge<V>>>, source: V, s: Search<V>, walks: map<V, Walk<V>>, v: V)
    requires Reached(adj, source, s, walks) == true && v in walks
    ensures Leads(adj, walks[v], source, v) && v in s.distances && s.distances[v] == Finite(Sum(walks[v].weights))
    ensures Trail(s.previousVertices, walks)
  {
  }

  /** When the vertex polled is unsettled, no walk from the source to it,
      with no negative entry, is shorter than its distance. */
  lemma ReachedFirst<V(!new)>(adj: map<V, seq<WeightedEdge<V>>>, source: V, s: Search<V>, walks: map<V, Walk<V>>, k: nat)
    requires Inv(adj, source, s, walks)
    requires k < |s.queue| && s.queue[k] !in s.settled
    requires forall i :: 0 <= i < |s.queue| ==> NotAbove(s.distances[s.queue[k]], s.distances[s.queue[i]])
    ensures s.queue[k] in walks
    ensures NonNegative(adj) ==> forall w :: Leads(adj, w, source, s.queue[k]) ==> NotAbove(s.distances[s.queue[k]], Finite(Sum(w.weights)))
  {
    if NonNegative(adj) {
      forall w | Leads(adj, w, source, s.queue[k])
        ensures NotAbove(s.distances[s.queue[k]], Finite(Sum(w.weights)))
      {
        assert w.vertices[|w.vertices| - 1] !in s.settled;
        var m := FirstOutside(w.vertices, s.settled);
        SettledPrefix(adj, source, s, walks, w, s.queue[k], m);
        var y := w.vertices[m];
        var i :| 0 <= i < |s.queue| && s.queue[i] == y;
        PrefixLighter(adj, w, m);
      }
    }
  }
}
