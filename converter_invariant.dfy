/** The state the conversion loops keep: which adjacency entries they have
    visited, the weighted map those visits build, and the weights stored for
    undirected pairs. */
module WeightedConversion {
  import opened Reachability
  import opened WeightedGraphs

  /** The adjacency entries (from, to) in the order the two loops visit them:
      every entry of the rows vertices[..i], then the first j of row i. */
  function Entries<V(==)>(adj: map<V, seq<V>>, vertices: seq<V>, i: nat, j: nat): (es: seq<(V, V)>)
    requires forall k :: 0 <= k < |vertices| ==> vertices[k] in adj
    requires i <= |vertices| && (i < |vertices| ==> j <= |adj[vertices[i]]|) && (i == |vertices| ==> j == 0)
    decreases i, j
  {
    if j > 0 then Entries(adj, vertices, i, j - 1) + [(vertices[i], adj[vertices[i]][j - 1])]
    else if i == 0 then []
    else Entries(adj, vertices, i - 1, |adj[vertices[i - 1]]|)
  }

  /** The weighted map after addEdge(from, to, ws[k]) for the k-th entry. */
  function AddEntries<V(==)>(base: map<V, seq<WeightedEdge<V>>>, es: seq<(V, V)>, ws: seq<real>, isDirected: bool): (g: map<V, seq<WeightedEdge<V>>>)
    requires |ws| == |es|
  {
    if |es| == 0 then base
    else
      var n := |es| - 1;
      WithEdge(AddEntries(base, es[..n], ws[..n], isDirected), es[n].0, es[n].1, ws[n], isDirected)
  }

  /** The vertices, each with an empty list. */
  function Isolated<V(==)>(vertices: seq<V>): (g: map<V, seq<WeightedEdge<V>>>)
    ensures g.Keys == set v | v in vertices
  {
    map v | v in vertices :: []
  }

  /** The weight stored for the pair {a, b}: the one under (a, b) if there is
      one, else the one under (b, a). */
  function Lookup<V(==)>(edgeWeights: map<(V, V), int>, a: V, b: V): int
    requires (a, b) in edgeWeights || (b, a) in edgeWeights
  {
    if (a, b) in edgeWeights then edgeWeights[(a, b)] else edgeWeights[(b, a)]
  }

  /** Every entry u -> v has the same weight as every other entry u -> v and
      every entry v -> u. */
  ghost predicate SameWeightBothWays<V(!new)>(adj: map<V, seq<WeightedEdge<V>>>) {
    && (forall u, e, f :: u in adj && e in adj[u] && f in adj[u] && e.target == f.target ==> e.weight == f.weight)
    && (forall u, e, f :: u in adj && e in adj[u] && e.target in adj && f in adj[e.target] && f.target == u ==> e.weight == f.weight)
  }

  /** Every weight lies in [lo, hi]. */
  ghost predicate WeightsIn<V(!new)>(adj: map<V, seq<WeightedEdge<V>>>, lo: int, hi: int) {
    forall u, e :: u in adj && e in adj[u] ==> lo as real <= e.weight <= hi as real
  }

  /** Every entry's weight is the one stored for its pair. */
  ghost predicate StoredWeights<V(!new)>(adj: map<V, seq<WeightedEdge<V>>>, edgeWeights: map<(V, V), int>) {
    && (forall a, b :: (a, b) in edgeWeights && (b, a) in edgeWeights ==> edgeWeights[(a, b)] == edgeWeights[(b, a)])
    && (forall u, e :: u in adj && e in adj[u] ==>
          ((u, e.target) in edgeWeights || (e.target, u) in edgeWeights) && e.weight == Lookup(edgeWeights, u, e.target) as real)
  }

  lemma StoredAreSame<V(!new)>(adj: map<V, seq<WeightedEdge<V>>>, edgeWeights: map<(V, V), int>)
    requires StoredWeights(adj, edgeWeights)
    ensures SameWeightBothWays(adj)
  {
    forall u, e, f | u in adj && e in adj[u] && e.target in adj && f in adj[e.target] && f.target == u
      ensures e.weight == f.weight
    {
      var v := e.target;
      assert ((u, v) in edgeWeights || (v, u) in edgeWeights) && e.weight == Lookup(edgeWeights, u, v) as real;
      assert f.weight == Lookup(edgeWeights, v, u) as real;
    }
  }

  /** Storing a weight for a pair stored in neither orientation leaves every
      earlier lookup as it was. */
  lemma StoreKeepsLookups<V(!new)>(adj: map<V, seq<WeightedEdge<V>>>, edgeWeights: map<(V, V), int>, from: V, to: V, weight: int)
    requires StoredWeights(adj, edgeWeights)
    requires (from, to) !in edgeWeights && (to, from) !in edgeWeights
    ensures StoredWeights(adj, edgeWeights[(from, to) := weight])
  {
  }

  /** One undirected addEdge whose weight is the stored one keeps every
      entry's weight the stored one. */
  lemma EdgeKeepsStored<V(!new)>(adj: map<V, seq<WeightedEdge<V>>>, edgeWeights: map<(V, V), int>, from: V, to: V, weight: int)
    requires StoredWeights(adj, edgeWeights)
    requires ((from, to) in edgeWeights || (to, from) in edgeWeights) && Lookup(edgeWeights, from, to) == weight
    ensures StoredWeights(WithEdge(adj, from, to, weight as real, false), edgeWeights)
  {
    var r := WithEdge(adj, from, to, weight as real, false);
    forall u, e: WeightedEdge<V> | u in r && e in r[u]
      ensures ((u, e.target) in edgeWeights || (e.target, u) in edgeWeights) && e.weight == Lookup(edgeWeights, u, e.target) as real
    {
      EntryAfterEdge(adj, from, to, weight as real, false, u, e);
    }
  }

  /** One addEdge whose weight is in range keeps every weight in range. */
  lemma EdgeKeepsRange<V(!new)>(adj: map<V, seq<WeightedEdge<V>>>, lo: int, hi: int, from: V, to: V, weight: int, isDirected: bool)
    requires WeightsIn(adj, lo, hi) && lo <= weight <= hi
    ensures WeightsIn(WithEdge(adj, from, to, weight as real, isDirected), lo, hi)
  {
    var r := WithEdge(adj, from, to, weight as real, isDirected);
    forall u, e: WeightedEdge<V> | u in r && e in r[u]
      ensures lo as real <= e.weight <= hi as real
    {
      EntryAfterEdge(adj, from, to, weight as real, isDirected, u, e);
    }
  }

  /** The state after the loops have visited Entries(adj, vertices, i, j):
      the weighted map is the isolated vertices plus one addEdge per visited
      entry, every weight is in range and, when undirected, every entry
      carries the weight stored for its pair. */
  ghost predicate Converted<V(!new)>(g: map<V, seq<WeightedEdge<V>>>, adj: map<V, seq<V>>, vertices: seq<V>, i: nat, j: nat,
                                     weights: seq<real>, edgeWeights: map<(V, V), int>, lo: int, hi: int, isDirected: bool)
  {
    Visited(g, adj, vertices, i, j, weights, isDirected) && Weighted(g, edgeWeights, lo, hi, isDirected)
  }

  /** The weighted map is the isolated vertices plus one addEdge per entry
      in Entries(adj, vertices, i, j). */
  ghost predicate Visited<V(!new)>(g: map<V, seq<WeightedEdge<V>>>, adj: map<V, seq<V>>, vertices: seq<V>, i: nat, j: nat,
                                   weights: seq<real>, isDirected: bool)
  {
    && (forall k :: 0 <= k < |vertices| ==> vertices[k] in adj)
    && i <= |vertices| && (i < |vertices| ==> j <= |adj[vertices[i]]|) && (i == |vertices| ==> j == 0)
    && |weights| == |Entries(adj, vertices, i, j)|
    && g == AddEntries(Isolated(vertices), Entries(adj, vertices, i, j), weights, isDirected)
  }

  /** Every weight, in the map and stored, is in range and, when
      undirected, every entry carries the weight stored for its pair. */
  ghost predicate Weighted<V(!new)>(g: map<V, seq<WeightedEdge<V>>>, edgeWeights: map<(V, V), int>, lo: int, hi: int, isDirected: bool) {
    && WeightsIn(g, lo, hi)
    && (!isDirected ==> StoredWeights(g, edgeWeights))
    && (forall p :: p in edgeWeights ==> lo <= edgeWeights[p] <= hi)
  }

  /** How the weight for from -> to is chosen and the stored weights
      updated: in a directed graph nothing is stored; in an undirected one
      the weight stored under (from, to) is reused, else the one under
      (to, from), else the new weight is stored under (from, to). */
  predicate Chosen<V(==)>(edgeWeights: map<(V, V), int>, edgeWeights': map<(V, V), int>, from: V, to: V, isDirected: bool, weight: int) {
    if isDirected then edgeWeights' == edgeWeights
    else if (from, to) in edgeWeights then edgeWeights' == edgeWeights && weight == edgeWeights[(from, to)]
    else if (to, from) in edgeWeights then edgeWeights' == edgeWeights && weight == edgeWeights[(to, from)]
    else edgeWeights' == edgeWeights[(from, to) := weight]
  }

  /** Visiting one more entry with an in-range weight chosen that way keeps
      the state. */
  lemma ConvertStep<V(!new)>(g: map<V, seq<WeightedEdge<V>>>, adj: map<V, seq<V>>, vertices: seq<V>, i: nat, j: nat,
                             weights: seq<real>, edgeWeights: map<(V, V), int>, edgeWeights': map<(V, V), int>,
                             lo: int, hi: int, isDirected: bool, weight: int)
    requires Converted(g, adj, vertices, i, j, weights, edgeWeights, lo, hi, isDirected)
    requires i < |vertices| && j < |adj[vertices[i]]|
    requires lo <= weight <= hi
    requires Chosen(edgeWeights, edgeWeights', vertices[i], adj[vertices[i]][j], isDirected, weight)
    ensures Converted(WithEdge(g, vertices[i], adj[vertices[i]][j], weight as real, isDirected), adj, vertices, i, j + 1,
                      weights + [weight as real], edgeWeights', lo, hi, isDirected)
  {
    VisitStep(g, adj, vertices, i, j, weights, isDirected, weight as real);
    WeightStep(g, edgeWeights, edgeWeights', vertices[i], adj[vertices[i]][j], isDirected, weight, lo, hi);
  }

  lemma VisitStep<V(!new)>(g: map<V, seq<WeightedEdge<V>>>, adj: map<V, seq<V>>, vertices: seq<V>, i: nat, j: nat,
                           weights: seq<real>, isDirected: bool, weight: real)
    requires Visited(g, adj, vertices, i, j, weights, isDirected)
    requires i < |vertices| && j < |adj[vertices[i]]|
    ensures Visited(WithEdge(g, vertices[i], adj[vertices[i]][j], weight, isDirected), adj, vertices, i, j + 1, weights + [weight], isDirected)
  {
    AddEntriesSnoc(Isolated(vertices), Entries(adj, vertices, i, j), weights, (vertices[i], adj[vertices[i]][j]), weight, isDirected);
  }

  lemma WeightStep<V(!new)>(g: map<V, seq<WeightedEdge<V>>>, edgeWeights: map<(V, V), int>, edgeWeights': map<(V, V), int>,
                            from: V, to: V, isDirected: bool, weight: int, lo: int, hi: int)
    requires Weighted(g, edgeWeights, lo, hi, isDirected)
    requires Chosen(edgeWeights, edgeWeights', from, to, isDirected, weight) && lo <= weight <= hi
    ensures Weighted(WithEdge(g, from, to, weight as real, isDirected), edgeWeights', lo, hi, isDirected)
  {
    EdgeKeepsRange(g, lo, hi, from, to, weight, isDirected);
    if !isDirected {
      if (from, to) !in edgeWeights && (to, from) !in edgeWeights {
        StoreKeepsLookups(g, edgeWeights, from, to, weight);
      }
      EdgeKeepsStored(g, edgeWeights', from, to, weight);
    }
  }

  /** Before the second loop: nothing visited, nothing stored. */
  lemma ConvertStart<V(!new)>(adj: map<V, seq<V>>, vertices: seq<V>, lo: int, hi: int, isDirected: bool)
    requires forall k :: 0 <= k < |vertices| ==> vertices[k] in adj
    ensures Converted(Isolated(vertices), adj, vertices, 0, 0, [], map[], lo, hi, isDirected)
  {
  }

  /** The end of a row is the start of the next. */
  lemma ConvertNextRow<V(!new)>(g: map<V, seq<WeightedEdge<V>>>, adj: map<V, seq<V>>, vertices: seq<V>, i: nat,
                                weights: seq<real>, edgeWeights: map<(V, V), int>, lo: int, hi: int, isDirected: bool)
    requires i < |vertices| && vertices[i] in adj
    requires Converted(g, adj, vertices, i, |adj[vertices[i]]|, weights, edgeWeights, lo, hi, isDirected)
    ensures Converted(g, adj, vertices, i + 1, 0, weights, edgeWeights, lo, hi, isDirected)
  {
    assert Entries(adj, vertices, i + 1, 0) == Entries(adj, vertices, i, |adj[vertices[i]]|);
  }

  /** One more entry is one more addEdge. */
  lemma AddEntriesSnoc<V(!new)>(base: map<V, seq<WeightedEdge<V>>>, es: seq<(V, V)>, ws: seq<real>, e: (V, V), w: real, isDirected: bool)
    requires |ws| == |es|
    ensures AddEntries(base, es + [e], ws + [w], isDirected) == WithEdge(AddEntries(base, es, ws, isDirected), e.0, e.1, w, isDirected)
  {
    assert (es + [e])[..|es|] == es && (ws + [w])[..|es|] == ws;
  }

  /** Which pairs the two loops visit. */
  lemma {:induction false} EntriesMembers<V(!new)>(adj: map<V, seq<V>>, vertices: seq<V>, i: nat, j: nat, a: V, b: V)
    requires forall k :: 0 <= k < |vertices| ==> vertices[k] in adj
    requires i <= |vertices| && (i < |vertices| ==> j <= |adj[vertices[i]]|) && (i == |vertices| ==> j == 0)
    ensures (a, b) in Entries(adj, vertices, i, j) <==>
      (exists k :: 0 <= k < i && a == vertices[k] && b in adj[vertices[k]]) || (i < |vertices| && a == vertices[i] && b in adj[vertices[i]][..j])
    decreases i, j
  {
    if j > 0 {
      EntriesMembers(adj, vertices, i, j - 1, a, b);
      assert adj[vertices[i]][..j] == adj[vertices[i]][..j - 1] + [adj[vertices[i]][j - 1]];
    } else if i > 0 {
      EntriesMembers(adj, vertices, i - 1, |adj[vertices[i - 1]]|, a, b);
      assert adj[vertices[i - 1]][..|adj[vertices[i - 1]]|] == adj[vertices[i - 1]];
      if exists k :: 0 <= k < i && a == vertices[k] && b in adj[vertices[k]] {
        var k :| 0 <= k < i && a == vertices[k] && b in adj[vertices[k]];
        if k < i - 1 {
          assert exists k :: 0 <= k < i - 1 && a == vertices[k] && b in adj[vertices[k]];
        }
      }
    }
  }

  /** Both endpoints of every pair. */
  function Ends<V>(es: seq<(V, V)>): set<V> {
    if |es| == 0 then {} else Ends(es[..|es| - 1]) + {es[|es| - 1].0, es[|es| - 1].1}
  }

  lemma {:induction false} EndsMembers<V>(es: seq<(V, V)>, x: V)
    ensures x in Ends(es) <==> exists k :: 0 <= k < |es| && (x == es[k].0 || x == es[k].1)
  {
    if |es| > 0 {
      var n := |es| - 1;
      EndsMembers(es[..n], x);
      if exists k :: 0 <= k < |es| && (x == es[k].0 || x == es[k].1) {
        var k :| 0 <= k < |es| && (x == es[k].0 || x == es[k].1);
        if k < n {
          assert es[..n][k] == es[k];
        }
      }
    }
  }

  /** The keys after a run of addEdge calls: the starting keys and both
      endpoints of every call. */
  lemma {:induction false} AddEntriesKeys<V(!new)>(base: map<V, seq<WeightedEdge<V>>>, es: seq<(V, V)>, ws: seq<real>, isDirected: bool)
    requires |ws| == |es|
    ensures AddEntries(base, es, ws, isDirected).Keys == base.Keys + Ends(es)
  {
    if |es| > 0 {
      var n := |es| - 1;
      AddEntriesKeys(base, es[..n], ws[..n], isDirected);
    }
  }

  /** The vertices of the converted graph: the input's keys and every vertex
      its lists name. */
  lemma KeysOfEntries<V(!new)>(adj: map<V, seq<V>>, vertices: seq<V>, ws: seq<real>, isDirected: bool)
    requires (set v | v in vertices) == adj.Keys
    requires |ws| == |Entries(adj, vertices, |vertices|, 0)|
    ensures AddEntries(Isolated(vertices), Entries(adj, vertices, |vertices|, 0), ws, isDirected).Keys == Universe(adj)
  {
    var es := Entries(adj, vertices, |vertices|, 0);
    AddEntriesKeys(Isolated(vertices), es, ws, isDirected);
    forall x
      ensures x in adj.Keys + Ends(es) <==> x in Universe(adj)
    {
      if x in Ends(es) {
        EndInUniverse(adj, vertices, x);
      }
      if x in Universe(adj) && x !in adj {
        UniverseInEnds(adj, vertices, x);
      }
    }
  }

  /** A vertex some entry pair names is a vertex of the input. */
  lemma EndInUniverse<V(!new)>(adj: map<V, seq<V>>, vertices: seq<V>, x: V)
    requires (set v | v in vertices) == adj.Keys
    requires x in Ends(Entries(adj, vertices, |vertices|, 0))
    ensures x in Universe(adj)
  {
    var es := Entries(adj, vertices, |vertices|, 0);
    EndsMembers(es, x);
    var k :| 0 <= k < |es| && (x == es[k].0 || x == es[k].1);
    EntriesMembers(adj, vertices, |vertices|, 0, es[k].0, es[k].1);
    var m :| 0 <= m < |vertices| && es[k].0 == vertices[m] && es[k].1 in adj[vertices[m]];
    var t :| 0 <= t < |adj[vertices[m]]| && adj[vertices[m]][t] == es[k].1;
  }

  /** A vertex of the input that is not a key is named by some entry pair. */
  lemma UniverseInEnds<V(!new)>(adj: map<V, seq<V>>, vertices: seq<V>, x: V)
    requires (set v | v in vertices) == adj.Keys
    requires x in Universe(adj) && x !in adj
    ensures x in Ends(Entries(adj, vertices, |vertices|, 0))
  {
    var es := Entries(adj, vertices, |vertices|, 0);
    EndsMembers(es, x);
    var v, t :| v in adj && 0 <= t < |adj[v]| && adj[v][t] == x;
    var m :| 0 <= m < |vertices| && vertices[m] == v;
    EntriesMembers(adj, vertices, |vertices|, 0, v, x);
    var k :| 0 <= k < |es| && es[k] == (v, x);
  }
}
