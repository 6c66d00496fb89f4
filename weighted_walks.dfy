/** Walks through a weighted adjacency map and their total weight: the
    yardstick for the shortest-path algorithms. */
module WeightedWalks {
  import opened WeightedGraphs

  /** A walk v0 -w0-> v1 -w1-> ... -> vn: one more vertex than weights. */
  datatype Walk<V> = Walk(vertices: seq<V>, weights: seq<real>)

  /** The sum of the weights, added front to back. */
  function Sum(ws: seq<real>): real {
    if |ws| == 0 then 0.0 else Sum(ws[..|ws| - 1]) + ws[|ws| - 1]
  }

  /** Every step of w follows an entry of the adjacency map. */
  ghost predicate IsWalk<V(!new)>(adj: map<V, seq<WeightedEdge<V>>>, w: Walk<V>) {
    && |w.vertices| == |w.weights| + 1
    && forall i :: 0 <= i < |w.weights| ==> WeightedEdge(w.vertices[i + 1], w.weights[i]) in EdgesOf(adj, w.vertices[i])
  }

  /** w is a walk from s to t. */
  ghost predicate Leads<V(!new)>(adj: map<V, seq<WeightedEdge<V>>>, w: Walk<V>, s: V, t: V) {
    IsWalk(adj, w) && w.vertices[0] == s && w.vertices[|w.vertices| - 1] == t
  }

  /** Some walk leads from s to t. */
  ghost predicate Connected<V(!new)>(adj: map<V, seq<WeightedEdge<V>>>, s: V, t: V) {
    exists w :: Leads(adj, w, s, t)
  }

  /** No entry has a negative weight. */
  ghost predicate NonNegative<V(!new)>(adj: map<V, seq<WeightedEdge<V>>>) {
    forall u, e :: u in adj && e in adj[u] ==> e.weight >= 0.0
  }

  /** w followed by one more step to v. */
  function Extend<V>(w: Walk<V>, v: V, weight: real): (r: Walk<V>)
    ensures |r.vertices| == |w.vertices| + 1
  {
    Walk(w.vertices + [v], w.weights + [weight])
  }

  /** The first n steps of w. */
  function Prefix<V>(w: Walk<V>, n: nat): (r: Walk<V>)
    requires n < |w.vertices| && n <= |w.weights|
  {
    Walk(w.vertices[..n + 1], w.weights[..n])
  }

  /** A walk to t extended by an entry of t's list is a walk whose weight
      grows by that entry's weight. */
  lemma ExtendLeads<V(!new)>(adj: map<V, seq<WeightedEdge<V>>>, w: Walk<V>, s: V, t: V, v: V, weight: real)
    requires Leads(adj, w, s, t) && WeightedEdge(v, weight) in EdgesOf(adj, t)
    ensures Leads(adj, Extend(w, v, weight), s, v)
    ensures Sum(Extend(w, v, weight).weights) == Sum(w.weights) + weight
  {
    var r := Extend(w, v, weight);
    assert r.weights[..|r.weights| - 1] == w.weights;
    forall i | 0 <= i < |r.weights|
      ensures WeightedEdge(r.vertices[i + 1], r.weights[i]) in EdgesOf(adj, r.vertices[i])
    {
      if i < |w.weights| {
        assert r.vertices[i + 1] == w.vertices[i + 1] && r.weights[i] == w.weights[i] && r.vertices[i] == w.vertices[i];
      }
    }
  }

  /** Every prefix of a walk from s is a walk from s. */
  lemma PrefixLeads<V(!new)>(adj: map<V, seq<WeightedEdge<V>>>, w: Walk<V>, s: V, t: V, n: nat)
    requires Leads(adj, w, s, t) && n <= |w.weights|
    ensures Leads(adj, Prefix(w, n), s, w.vertices[n])
  {
  }

  /** With no negative entry a walk weighs at least any of its prefixes. */
  lemma {:induction false} PrefixLighter<V(!new)>(adj: map<V, seq<WeightedEdge<V>>>, w: Walk<V>, n: nat)
    requires NonNegative(adj) && IsWalk(adj, w) && n <= |w.weights|
    ensures Sum(w.weights[..n]) <= Sum(w.weights)
    decreases |w.weights| - n
  {
    if n < |w.weights| {
      var m := |w.weights| - 1;
      assert WeightedEdge(w.vertices[m + 1], w.weights[m]) in EdgesOf(adj, w.vertices[m]);
      assert w.vertices[m] in adj;
      assert w.weights[m] >= 0.0;
      var init := Walk(w.vertices[..m + 1], w.weights[..m]);
      assert IsWalk(adj, init);
      PrefixLighter(adj, init, n);
      assert init.weights[..n] == w.weights[..n];
      assert Sum(w.weights) == Sum(init.weights) + w.weights[m];
    } else {
      assert w.weights[..n] == w.weights;
    }
  }
}
