/** Reachability over an adjacency map, read the way the lab_3 code reads
    it: a vertex without an entry has no neighbours (getOrDefault with an
    empty list), and a path may only pass through vertices outside a given
    set of already-visited ones. */
module Reachability {

  /** adjacencyList.getOrDefault(v, empty list). */
  function Neighbours<V(==)>(adj: map<V, seq<V>>, v: V): (ns: seq<V>)
    ensures v !in adj ==> ns == []
  {
    if v in adj then adj[v] else []
  }

  /** Every vertex the map mentions: its keys and every listed neighbour. */
  function Universe<V(==)>(adj: map<V, seq<V>>): (u: set<V>)
    ensures adj.Keys <= u
  {
    adj.Keys + set v, i | v in adj && 0 <= i < |adj[v]| :: adj[v][i]
  }

  /** p is a non-empty walk along adjacency entries. */
  ghost predicate IsPath<V(!new)>(adj: map<V, seq<V>>, p: seq<V>) {
    |p| > 0 && forall i :: 0 <= i < |p| - 1 ==> p[i + 1] in Neighbours(adj, p[i])
  }

  /** No vertex of p lies in avoid. */
  ghost predicate Avoids<V(!new)>(p: seq<V>, avoid: set<V>) {
    forall i :: 0 <= i < |p| ==> p[i] !in avoid
  }

  /** v can be reached from s without entering avoid (s and v included). */
  ghost predicate ReachableAvoiding<V(!new)>(adj: map<V, seq<V>>, s: V, v: V, avoid: set<V>) {
    exists p :: IsPath(adj, p) && p[0] == s && p[|p| - 1] == v && Avoids(p, avoid)
  }

  ghost predicate Reachable<V(!new)>(adj: map<V, seq<V>>, s: V, v: V) {
    ReachableAvoiding(adj, s, v, {})
  }

  /** Every listed neighbour belongs to the universe. */
  lemma NeighbourInUniverse<V(!new)>(adj: map<V, seq<V>>, u: V, w: V)
    requires w in Neighbours(adj, u)
    ensures w in Universe(adj)
  {
    var i :| 0 <= i < |adj[u]| && adj[u][i] == w;
  }

  /** Every neighbour of u belongs to the universe. */
  lemma NeighboursInUniverse<V(!new)>(adj: map<V, seq<V>>, u: V)
    ensures forall w :: w in Neighbours(adj, u) ==> w in Universe(adj)
  {
    forall w | w in Neighbours(adj, u) {
      NeighbourInUniverse(adj, u, w);
    }
  }

  /** A vertex outside avoid reaches itself. */
  lemma ReachSelf<V(!new)>(adj: map<V, seq<V>>, s: V, avoid: set<V>)
    requires s !in avoid
    ensures ReachableAvoiding(adj, s, s, avoid)
  {
    assert IsPath(adj, [s]) && Avoids([s], avoid);
  }

  /** A path can be extended by one listed neighbour outside avoid. */
  lemma ReachStep<V(!new)>(adj: map<V, seq<V>>, s: V, u: V, w: V, avoid: set<V>)
    requires ReachableAvoiding(adj, s, u, avoid)
    requires w in Neighbours(adj, u) && w !in avoid
    ensures ReachableAvoiding(adj, s, w, avoid)
  {
    var p :| IsPath(adj, p) && p[0] == s && p[|p| - 1] == u && Avoids(p, avoid);
    var q := p + [w];
    assert q[|q| - 1] == w && q[0] == s;
    assert IsPath(adj, q) by {
      forall i | 0 <= i < |q| - 1
        ensures q[i + 1] in Neighbours(adj, q[i])
      {
        if i < |p| - 1 {
          assert q[i] == p[i] && q[i + 1] == p[i + 1];
        }
      }
    }
  }

  /** Avoiding more vertices reaches no more. */
  lemma ReachMonotone<V(!new)>(adj: map<V, seq<V>>, s: V, v: V, small: set<V>, large: set<V>)
    requires small <= large && ReachableAvoiding(adj, s, v, large)
    ensures ReachableAvoiding(adj, s, v, small)
  {
    var p :| IsPath(adj, p) && p[0] == s && p[|p| - 1] == v && Avoids(p, large);
    assert Avoids(p, small);
  }

  /** A set that holds s and, with every vertex outside avoid it holds, all of
      that vertex's neighbours outside avoid, holds everything reachable from
      s without entering avoid. */
  lemma ClosedHoldsReach<V(!new)>(adj: map<V, seq<V>>, s: V, v: V, avoid: set<V>, closed: set<V>)
    requires s !in avoid ==> s in closed
    requires forall u, w :: u in closed && u !in avoid && w in Neighbours(adj, u) && w !in avoid ==> w in closed
    requires ReachableAvoiding(adj, s, v, avoid)
    ensures v in closed
  {
    var p :| IsPath(adj, p) && p[0] == s && p[|p| - 1] == v && Avoids(p, avoid);
    var k := 0;
    while k < |p| - 1
      invariant 0 <= k < |p| && p[k] in closed
    {
      assert p[k + 1] in Neighbours(adj, p[k]);
      k := k + 1;
    }
  }

  /** In a map whose lists are symmetric (an undirected graph), reachability
      is symmetric. */
  ghost predicate Symmetric<V(!new)>(adj: map<V, seq<V>>) {
    forall u, w :: w in Neighbours(adj, u) <==> u in Neighbours(adj, w)
  }

  lemma {:induction false} ReachBack<V(!new)>(adj: map<V, seq<V>>, s: V, v: V)
    requires Symmetric(adj) && Reachable(adj, s, v)
    ensures Reachable(adj, v, s)
  {
    var p :| IsPath(adj, p) && p[0] == s && p[|p| - 1] == v && Avoids(p, {});
    var r := seq(|p|, i requires 0 <= i < |p| => p[|p| - 1 - i]);
    assert IsPath(adj, r) by {
      forall i | 0 <= i < |r| - 1
        ensures r[i + 1] in Neighbours(adj, r[i])
      {
        var j := |p| - 2 - i;
        assert p[j + 1] in Neighbours(adj, p[j]);
      }
    }
    assert r[0] == v && r[|r| - 1] == s && Avoids(r, {});
  }

  lemma ReachTrans<V(!new)>(adj: map<V, seq<V>>, s: V, u: V, v: V)
    requires Reachable(adj, s, u) && Reachable(adj, u, v)
    ensures Reachable(adj, s, v)
  {
    var p :| IsPath(adj, p) && p[0] == s && p[|p| - 1] == u && Avoids(p, {});
    var q :| IsPath(adj, q) && q[0] == u && q[|q| - 1] == v && Avoids(q, {});
    var r := p + q[1..];
    assert IsPath(adj, r) by {
      forall i | 0 <= i < |r| - 1
        ensures r[i + 1] in Neighbours(adj, r[i])
      {
        if i < |p| - 1 {
          assert r[i] == p[i] && r[i + 1] == p[i + 1];
        } else {
          assert r[i] == q[i - |p| + 1] && r[i + 1] == q[i - |p| + 2];
        }
      }
    }
    assert r[|r| - 1] == v && Avoids(r, {});
  }

  /** Undirected components are equal or disjoint: if w lies in the
      components of both a and b, each of a and b reaches the other. */
  lemma SharedVertexJoins<V(!new)>(adj: map<V, seq<V>>, a: V, b: V, w: V)
    requires Symmetric(adj) && Reachable(adj, a, w) && Reachable(adj, b, w)
    ensures Reachable(adj, a, b)
  {
    ReachBack(adj, b, w);
    ReachTrans(adj, a, w, b);
  }
}
