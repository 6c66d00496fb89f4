/** The weighted adjacency map of lab_4: every vertex maps to a list of
    (target, weight) entries. Weights are doubles in the source; here they
    are reals, so sums are exact. */
module WeightedGraphs {
  import opened Reachability

  datatype WeightedEdge<V> = WeightedEdge(target: V, weight: real)

  /** adjacencyList.getOrDefault(v, empty list). */
  function EdgesOf<V(==)>(adj: map<V, seq<WeightedEdge<V>>>, v: V): (es: seq<WeightedEdge<V>>)
    ensures v !in adj ==> es == []
  {
    if v in adj then adj[v] else []
  }

  /** putIfAbsent(v, new list). */
  function WithVertex<V(==)>(adj: map<V, seq<WeightedEdge<V>>>, v: V): (r: map<V, seq<WeightedEdge<V>>>)
    ensures r.Keys == adj.Keys + {v}
    ensures forall u :: u in r ==> r[u] == EdgesOf(adj, u)
  {
    if v in adj then adj else adj[v := []]
  }

  /** addEdge(from, to, weight): both endpoints become vertices; from's list
      gains (to, weight) at its end and, when the graph is undirected, to's
      list then gains (from, weight) at its end. */
  function WithEdge<V(==)>(adj: map<V, seq<WeightedEdge<V>>>, from: V, to: V, weight: real, isDirected: bool): (r: map<V, seq<WeightedEdge<V>>>)
    ensures r.Keys == adj.Keys + {from, to}
    ensures forall u :: u in r && u != from && u != to ==> r[u] == adj[u]
    ensures isDirected || from != to ==> r[from] == EdgesOf(adj, from) + [WeightedEdge(to, weight)]
    ensures !isDirected && from != to ==> r[to] == EdgesOf(adj, to) + [WeightedEdge(from, weight)]
    ensures isDirected && from != to ==> r[to] == EdgesOf(adj, to)
    ensures !isDirected && from == to ==> r[from] == EdgesOf(adj, from) + [WeightedEdge(to, weight), WeightedEdge(from, weight)]
  {
    var a := WithVertex(WithVertex(adj, from), to);
    var b := a[from := a[from] + [WeightedEdge(to, weight)]];
    if isDirected then b else b[to := b[to] + [WeightedEdge(from, weight)]]
  }

  /** addVertex never clears a list: on a present vertex it changes nothing. */
  lemma AddVertexIdempotent<V(!new)>(adj: map<V, seq<WeightedEdge<V>>>, v: V)
    ensures v in adj ==> WithVertex(adj, v) == adj
    ensures WithVertex(WithVertex(adj, v), v) == WithVertex(adj, v)
  {
  }

  /** Every listed target is itself a vertex, as addEdge guarantees. */
  ghost predicate Closed<V(!new)>(adj: map<V, seq<WeightedEdge<V>>>) {
    forall u, e :: u in adj && e in adj[u] ==> e.target in adj
  }

  /** How many times the entry (v, w) occurs in u's list. */
  function Count<V(==)>(adj: map<V, seq<WeightedEdge<V>>>, u: V, v: V, w: real): nat {
    multiset(EdgesOf(adj, u))[WeightedEdge(v, w)]
  }

  /** The entries u -> v of weight w are as many as the entries v -> u of
      weight w, for every u, v and w. */
  ghost predicate CountsSymmetric<V(!new)>(adj: map<V, seq<WeightedEdge<V>>>) {
    forall u, v, w :: Count(adj, u, v, w) == Count(adj, v, u, w)
  }

  /** What addEdge appends to u's list. */
  function Appended<V(==)>(from: V, to: V, weight: real, isDirected: bool, u: V): seq<WeightedEdge<V>> {
    (if u == from then [WeightedEdge(to, weight)] else [])
    + (if !isDirected && u == to then [WeightedEdge(from, weight)] else [])
  }

  lemma EdgesAfterEdge<V(!new)>(adj: map<V, seq<WeightedEdge<V>>>, from: V, to: V, weight: real, isDirected: bool, u: V)
    ensures EdgesOf(WithEdge(adj, from, to, weight, isDirected), u) == EdgesOf(adj, u) + Appended(from, to, weight, isDirected, u)
  {
  }

  /** An entry present after addEdge was there before or is one it added. */
  lemma EntryAfterEdge<V(!new)>(adj: map<V, seq<WeightedEdge<V>>>, from: V, to: V, weight: real, isDirected: bool, u: V, e: WeightedEdge<V>)
    requires e in EdgesOf(WithEdge(adj, from, to, weight, isDirected), u)
    ensures || e in EdgesOf(adj, u)
            || (u == from && e == WeightedEdge(to, weight))
            || (!isDirected && u == to && e == WeightedEdge(from, weight))
  {
    EdgesAfterEdge(adj, from, to, weight, isDirected, u);
  }

  /** addEdge adds exactly one entry from -> to of the given weight, and
      when undirected one entry to -> from of the same weight (two entries
      on a self-loop); no other count changes. */
  lemma CountsAfterEdge<V(!new)>(adj: map<V, seq<WeightedEdge<V>>>, from: V, to: V, weight: real, isDirected: bool, u: V, v: V, w: real)
    ensures Count(WithEdge(adj, from, to, weight, isDirected), u, v, w)
      == Count(adj, u, v, w)
         + (if u == from && v == to && w == weight then 1 else 0)
         + (if !isDirected && u == to && v == from && w == weight then 1 else 0)
  {
    var extra := Appended(from, to, weight, isDirected, u);
    EdgesAfterEdge(adj, from, to, weight, isDirected, u);
    assert multiset(EdgesOf(WithEdge(adj, from, to, weight, isDirected), u)) == multiset(EdgesOf(adj, u)) + multiset(extra);
    var a := if u == from then [WeightedEdge(to, weight)] else [];
    var b := if !isDirected && u == to then [WeightedEdge(from, weight)] else [];
    assert multiset(extra) == multiset(a) + multiset(b);
  }

  /** An undirected addEdge keeps the entry counts symmetric. */
  lemma UndirectedEdgeKeepsSymmetric<V(!new)>(adj: map<V, seq<WeightedEdge<V>>>, from: V, to: V, weight: real)
    requires CountsSymmetric(adj)
    ensures CountsSymmetric(WithEdge(adj, from, to, weight, false))
  {
    var r := WithEdge(adj, from, to, weight, false);
    forall u, v, w
      ensures Count(r, u, v, w) == Count(r, v, u, w)
    {
      CountsAfterEdge(adj, from, to, weight, false, u, v, w);
      CountsAfterEdge(adj, from, to, weight, false, v, u, w);
    }
  }

  /** Adding a vertex or an edge keeps the map closed. */
  lemma AddKeepsClosed<V(!new)>(adj: map<V, seq<WeightedEdge<V>>>, from: V, to: V, weight: real, isDirected: bool)
    requires Closed(adj)
    ensures Closed(WithVertex(adj, from)) && Closed(WithEdge(adj, from, to, weight, isDirected))
  {
    var r := WithEdge(adj, from, to, weight, isDirected);
    forall u, e: WeightedEdge<V> | u in r && e in r[u]
      ensures e.target in r
    {
      if e !in EdgesOf(adj, u) {
        assert e == WeightedEdge(to, weight) || e == WeightedEdge(from, weight);
      }
    }
  }

  /** Adding a vertex keeps the counts, so it keeps them symmetric. */
  lemma VertexKeepsSymmetric<V(!new)>(adj: map<V, seq<WeightedEdge<V>>>, v: V)
    requires CountsSymmetric(adj)
    ensures CountsSymmetric(WithVertex(adj, v))
  {
    var r := WithVertex(adj, v);
    forall u, x, w
      ensures Count(r, u, x, w) == Count(r, x, u, w)
    {
      assert Count(r, u, x, w) == Count(adj, u, x, w);
      assert Count(r, x, u, w) == Count(adj, x, u, w);
    }
  }

  /** The targets of a list of entries, in order. */
  function Targets<V>(es: seq<WeightedEdge<V>>): (ts: seq<V>)
    ensures |ts| == |es| && forall i :: 0 <= i < |es| ==> ts[i] == es[i].target
  {
    if |es| == 0 then [] else Targets(es[..|es| - 1]) + [es[|es| - 1].target]
  }

  /** The unweighted graph underneath: the same vertices, each list reduced
      to its targets. */
  function Skeleton<V(==)>(adj: map<V, seq<WeightedEdge<V>>>): (g: map<V, seq<V>>)
    ensures g.Keys == adj.Keys
    ensures forall u :: u in adj ==> g[u] == Targets(adj[u])
  {
    map u | u in adj :: Targets(adj[u])
  }

  /** An entry of u's list is an edge of the skeleton, and the other way round. */
  lemma SkeletonEdge<V(!new)>(adj: map<V, seq<WeightedEdge<V>>>, u: V, v: V)
    ensures v in Neighbours(Skeleton(adj), u) <==> exists i :: 0 <= i < |EdgesOf(adj, u)| && EdgesOf(adj, u)[i].target == v
  {
    if v in Neighbours(Skeleton(adj), u) {
      var i :| 0 <= i < |Targets(adj[u])| && Targets(adj[u])[i] == v;
      assert EdgesOf(adj, u)[i].target == v;
    }
    if exists i :: 0 <= i < |EdgesOf(adj, u)| && EdgesOf(adj, u)[i].target == v {
      var i :| 0 <= i < |EdgesOf(adj, u)| && EdgesOf(adj, u)[i].target == v;
      assert u in adj && Targets(adj[u])[i] == v;
      assert Neighbours(Skeleton(adj), u) == Targets(adj[u]);
    }
  }

  /** A closed weighted map has a closed skeleton. */
  lemma SkeletonClosed<V(!new)>(adj: map<V, seq<WeightedEdge<V>>>, u: V, v: V)
    requires Closed(adj) && u in adj && v in Neighbours(Skeleton(adj), u)
    ensures v in adj
  {
    SkeletonEdge(adj, u, v);
    var i :| 0 <= i < |adj[u]| && adj[u][i].target == v;
    assert adj[u][i] in adj[u];
  }

  class WeightedGraph<V(==, !new)> {
    var adjacencyList: map<V, seq<WeightedEdge<V>>>
    const isDirected: bool

    /** Every target is a vertex and, in an undirected graph, entry counts
        are symmetric. addVertex and addEdge keep this; the lists handed out
        by getNeighbors could break it. */
    ghost predicate Valid()
      reads this
    {
      Closed(adjacencyList) && (!isDirected ==> CountsSymmetric(adjacencyList))
    }

    /** WeightedGraph(isDirected): an empty graph. */
    constructor (isDirected: bool)
      ensures this.isDirected == isDirected && adjacencyList == map[]
      ensures Valid()
    {
      this.adjacencyList := map[];
      this.isDirected := isDirected;
    }

    /** addVertex: a no-op for a vertex already present. */
    method AddVertex(vertex: V)
      modifies this
      ensures adjacencyList == WithVertex(old(adjacencyList), vertex)
      ensures old(Valid()) ==> Valid()
    {
      if vertex !in adjacencyList {
        adjacencyList := adjacencyList[vertex := []];
      }
      if old(Valid()) {
        AddKeepsClosed(old(adjacencyList), vertex, vertex, 0.0, isDirected);
        if !isDirected {
          VertexKeepsSymmetric(old(adjacencyList), vertex);
        }
      }
    }

    method AddEdge(from: V, to: V, weight: real)
      modifies this
      ensures adjacencyList == WithEdge(old(adjacencyList), from, to, weight, isDirected)
      ensures old(Valid()) ==> Valid()
    {
      if from !in adjacencyList {
        adjacencyList := adjacencyList[from := []];
      }
      if to !in adjacencyList {
        adjacencyList := adjacencyList[to := []];
      }
      adjacencyList := adjacencyList[from := adjacencyList[from] + [WeightedEdge(to, weight)]];
      if !isDirected {
        adjacencyList := adjacencyList[to := adjacencyList[to] + [WeightedEdge(from, weight)]];
      }
      if old(Valid()) {
        AddKeepsClosed(old(adjacencyList), from, to, weight, isDirected);
        if !isDirected {
          UndirectedEdgeKeepsSymmetric(old(adjacencyList), from, to, weight);
        }
      }
    }

    /** getNeighbors: an absent vertex has an empty list and is not added. */
    function GetNeighbors(vertex: V): (es: seq<WeightedEdge<V>>)
      reads this
      ensures !HasVertex(vertex) ==> es == []
    {
      EdgesOf(adjacencyList, vertex)
    }

    function GetVertices(): set<V>
      reads this
    {
      adjacencyList.Keys
    }

    function IsDirected(): (d: bool)
      reads this
      ensures d == isDirected
    {
      isDirected
    }

    function HasVertex(vertex: V): (b: bool)
      reads this
      ensures b <==> vertex in GetVertices()
    {
      vertex in adjacencyList
    }
  }
}
