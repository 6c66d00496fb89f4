/** The edge lists of lab_5's MinimumSpanningTreeGraph: Java's string
    comparison, which decides the one orientation of an undirected entry
    that the copy constructor and Kruskal's algorithm keep, the
    (source, target, weight) triples those loops list, and the adjacency
    map that adding a list of triples builds. */
module SpanningEdges {
  import opened Frontier
  import opened WeightedGraphs

  /** String.compareTo: the difference of the first differing characters,
      else the difference of the lengths. Zero exactly for equal strings. */
  function CompareTo(a: string, b: string): (c: int)
    ensures c == 0 <==> a == b
    decreases |a|
  {
    if |a| == 0 || |b| == 0 then |a| - |b|
    else if a[0] != b[0] then a[0] as int - b[0] as int
    else
      assert a == [a[0]] + a[1..] && b == [b[0]] + b[1..];
      CompareTo(a[1..], b[1..])
  }

  /** Swapping the strings negates the comparison. */
  lemma {:induction false} CompareFlip(a: string, b: string)
    ensures CompareTo(b, a) == -CompareTo(a, b)
    decreases |a|
  {
    if |a| > 0 && |b| > 0 && a[0] == b[0] {
      CompareFlip(a[1..], b[1..]);
    }
  }

  /** The entry source -> target is passed over: the graph is undirected
      and source's name comes after target's. */
  predicate Skipped<V>(name: V -> string, isDirected: bool, source: V, target: V) {
    !isDirected && CompareTo(name(source), name(target)) > 0
  }

  /** Of the two orientations of an undirected pair, exactly one is kept
      when the names differ and both when they are equal. */
  lemma OneWayKept<V>(name: V -> string, u: V, v: V)
    ensures name(u) != name(v) ==> (Skipped(name, false, u, v) <==> !Skipped(name, false, v, u))
    ensures name(u) == name(v) ==> !Skipped(name, false, u, v) && !Skipped(name, false, v, u)
  {
    CompareFlip(name(u), name(v));
  }

  /** An edge as the edge loops list it. */
  datatype EdgeTriple<V> = EdgeTriple(source: V, target: V, weight: real)

  /** The triples for the entries of source's list that are not skipped,
      in list order. */
  function Row<V>(name: V -> string, isDirected: bool, source: V, es: seq<WeightedEdge<V>>): seq<EdgeTriple<V>> {
    if |es| == 0 then []
    else
      var n := |es| - 1;
      Row(name, isDirected, source, es[..n])
      + (if Skipped(name, isDirected, source, es[n].target) then [] else [EdgeTriple(source, es[n].target, es[n].weight)])
  }

  /** The triples of every row, the rows taken in the order given. */
  function Listed<V(==)>(adj: map<V, seq<WeightedEdge<V>>>, order: seq<V>, name: V -> string, isDirected: bool): seq<EdgeTriple<V>> {
    if |order| == 0 then []
    else
      var n := |order| - 1;
      Listed(adj, order[..n], name, isDirected) + Row(name, isDirected, order[n], EdgesOf(adj, order[n]))
  }

  /** The last element of a sequence adds one to its own count. */
  lemma SnocCount<T>(s: seq<T>, x: T)
    requires |s| > 0
    ensures multiset(s)[x] == multiset(s[..|s| - 1])[x] + (if s[|s| - 1] == x then 1 else 0)
  {
    assert s == s[..|s| - 1] + [s[|s| - 1]];
  }

  /** A row holds a triple as often as the list holds its entry, unless
      the entry is skipped. */
  lemma {:induction false} RowCount<V>(name: V -> string, isDirected: bool, source: V, es: seq<WeightedEdge<V>>, t: EdgeTriple<V>)
    ensures multiset(Row(name, isDirected, source, es))[t] ==
              if t.source == source && !Skipped(name, isDirected, source, t.target) then multiset(es)[WeightedEdge(t.target, t.weight)] else 0
  {
    if |es| > 0 {
      var n := |es| - 1;
      RowCount(name, isDirected, source, es[..n], t);
      SnocCount(es, WeightedEdge(t.target, t.weight));
    }
  }

  /** The listing holds each triple as often as its source's list holds
      the entry, unless the entry is skipped or the source is not listed. */
  lemma {:induction false} ListedCount<V>(adj: map<V, seq<WeightedEdge<V>>>, order: seq<V>, name: V -> string, isDirected: bool, t: EdgeTriple<V>)
    requires Distinct(order)
    ensures multiset(Listed(adj, order, name, isDirected))[t] ==
              if t.source in order && !Skipped(name, isDirected, t.source, t.target) then Count(adj, t.source, t.target, t.weight) else 0
  {
    if |order| > 0 {
      var n := |order| - 1;
      ListedCount(adj, order[..n], name, isDirected, t);
      RowCount(name, isDirected, order[n], EdgesOf(adj, order[n]), t);
      assert order == order[..n] + [order[n]];
      assert t.source == order[n] ==> t.source !in order[..n];
    }
  }

  /** The vertices, each with an empty list. */
  function Bare<V(!new)>(vertices: set<V>): (g: map<V, seq<WeightedEdge<V>>>)
    ensures g.Keys == vertices
  {
    map v | v in vertices :: []
  }

  /** The adjacency map after addEdge for every triple, in order. */
  function AddTriples<V(==)>(base: map<V, seq<WeightedEdge<V>>>, ts: seq<EdgeTriple<V>>, isDirected: bool): map<V, seq<WeightedEdge<V>>> {
    if |ts| == 0 then base
    else
      var n := |ts| - 1;
      WithEdge(AddTriples(base, ts[..n], isDirected), ts[n].source, ts[n].target, ts[n].weight, isDirected)
  }

  /** The last triple's addEdge adds its entry and, when undirected, the
      entry the other way. */
  lemma AddLastCount<V(!new)>(base: map<V, seq<WeightedEdge<V>>>, ts: seq<EdgeTriple<V>>, isDirected: bool, u: V, v: V, w: real)
    requires |ts| > 0
    ensures Count(AddTriples(base, ts, isDirected), u, v, w) ==
              Count(AddTriples(base, ts[..|ts| - 1], isDirected), u, v, w)
              + (if ts[|ts| - 1] == EdgeTriple(u, v, w) then 1 else 0)
              + (if !isDirected && ts[|ts| - 1] == EdgeTriple(v, u, w) then 1 else 0)
  {
    var t := ts[|ts| - 1];
    CountsAfterEdge(AddTriples(base, ts[..|ts| - 1], isDirected), t.source, t.target, t.weight, isDirected, u, v, w);
  }

  /** Appending to the lists of two vertices already present, as the
      spanning-tree loops do, is addEdge. */
  lemma AttachIsAddEdge<V(!new)>(adj: map<V, seq<WeightedEdge<V>>>, from: V, to: V, weight: real, isDirected: bool)
    requires from in adj && to in adj
    ensures var b := adj[from := adj[from] + [WeightedEdge(to, weight)]];
            WithEdge(adj, from, to, weight, isDirected) == if isDirected then b else b[to := b[to] + [WeightedEdge(from, weight)]]
  {
    assert WithVertex(WithVertex(adj, from), to) == adj;
  }

  /** Adding triples adds one entry per triple and, when undirected, one
      entry the other way; nothing else. */
  lemma {:induction false} AddTriplesCount<V(!new)>(base: map<V, seq<WeightedEdge<V>>>, ts: seq<EdgeTriple<V>>, isDirected: bool, u: V, v: V, w: real)
    ensures Count(AddTriples(base, ts, isDirected), u, v, w) ==
              Count(base, u, v, w) + multiset(ts)[EdgeTriple(u, v, w)] + (if isDirected then 0 else multiset(ts)[EdgeTriple(v, u, w)])
  {
    if |ts| > 0 {
      AddTriplesCount(base, ts[..|ts| - 1], isDirected, u, v, w);
      AddLastCount(base, ts, isDirected, u, v, w);
      SnocCount(ts, EdgeTriple(u, v, w));
      SnocCount(ts, EdgeTriple(v, u, w));
    } else {
      assert multiset(ts) == multiset{};
    }
  }

  /** Adding triples whose ends are vertices keeps the vertices. */
  lemma {:induction false} AddTriplesKeys<V(!new)>(base: map<V, seq<WeightedEdge<V>>>, ts: seq<EdgeTriple<V>>, isDirected: bool)
    requires forall k :: 0 <= k < |ts| ==> ts[k].source in base && ts[k].target in base
    ensures AddTriples(base, ts, isDirected).Keys == base.Keys
  {
    if |ts| > 0 {
      AddTriplesKeys(base, ts[..|ts| - 1], isDirected);
    }
  }

  /** The copy the constructor builds: the vertices, then addEdge for
      every listed triple. */
  function Copied<V(!new)>(adj: map<V, seq<WeightedEdge<V>>>, order: seq<V>, name: V -> string, isDirected: bool): map<V, seq<WeightedEdge<V>>> {
    AddTriples(Bare(adj.Keys), Listed(adj, order, name, isDirected), isDirected)
  }

  /** How often the copy holds an entry: once per kept entry of the
      original and, when undirected, once per kept entry the other way. */
  lemma CopiedCount<V(!new)>(adj: map<V, seq<WeightedEdge<V>>>, order: seq<V>, name: V -> string, isDirected: bool, u: V, v: V, w: real)
    requires Distinct(order) && (set x | x in order) == adj.Keys
    ensures Count(Copied(adj, order, name, isDirected), u, v, w) ==
              (if Skipped(name, isDirected, u, v) then 0 else Count(adj, u, v, w))
              + (if isDirected || Skipped(name, isDirected, v, u) then 0 else Count(adj, v, u, w))
  {
    AddTriplesCount(Bare(adj.Keys), Listed(adj, order, name, isDirected), isDirected, u, v, w);
    ListedCount(adj, order, name, isDirected, EdgeTriple(u, v, w));
    ListedCount(adj, order, name, isDirected, EdgeTriple(v, u, w));
    assert Count(Bare(adj.Keys), u, v, w) == 0;
    assert u !in order ==> Count(adj, u, v, w) == 0;
    assert v !in order ==> Count(adj, v, u, w) == 0;
  }

  /** A directed copy has the original's entries; an undirected copy of a
      symmetric graph has them between vertices of different names and
      twice over between vertices of equal names, self-loops included. */
  lemma CopiedEntries<V(!new)>(adj: map<V, seq<WeightedEdge<V>>>, order: seq<V>, name: V -> string, isDirected: bool, u: V, v: V, w: real)
    requires Distinct(order) && (set x | x in order) == adj.Keys
    requires !isDirected ==> CountsSymmetric(adj)
    ensures isDirected ==> Count(Copied(adj, order, name, isDirected), u, v, w) == Count(adj, u, v, w)
    ensures !isDirected && name(u) != name(v) ==> Count(Copied(adj, order, name, isDirected), u, v, w) == Count(adj, u, v, w)
    ensures !isDirected && name(u) == name(v) ==> Count(Copied(adj, order, name, isDirected), u, v, w) == 2 * Count(adj, u, v, w)
  {
    CopiedCount(adj, order, name, isDirected, u, v, w);
    OneWayKept(name, u, v);
  }

  /** The sum of the triples' weights, added front to back. */
  function Cost<V>(ts: seq<EdgeTriple<V>>): real {
    if |ts| == 0 then 0.0 else Cost(ts[..|ts| - 1]) + ts[|ts| - 1].weight
  }

  /** One more triple: addEdge on the lists built so far, and its weight
      on the sum. */
  lemma AddTriplesSnoc<V>(base: map<V, seq<WeightedEdge<V>>>, ts: seq<EdgeTriple<V>>, t: EdgeTriple<V>, isDirected: bool)
    ensures AddTriples(base, ts + [t], isDirected) == WithEdge(AddTriples(base, ts, isDirected), t.source, t.target, t.weight, isDirected)
    ensures Cost(ts + [t]) == Cost(ts) + t.weight
  {
    assert (ts + [t])[..|ts|] == ts;
  }

  /** A listed triple comes from a listed vertex's list. */
  lemma ListedEnds<V(!new)>(adj: map<V, seq<WeightedEdge<V>>>, order: seq<V>, name: V -> string, isDirected: bool, t: EdgeTriple<V>)
    requires Distinct(order) && t in Listed(adj, order, name, isDirected)
    ensures t.source in order && WeightedEdge(t.target, t.weight) in EdgesOf(adj, t.source)
  {
    ListedCount(adj, order, name, isDirected, t);
    assert multiset(Listed(adj, order, name, isDirected))[t] > 0;
  }

  /** The copy of a graph whose targets are vertices has the same vertices
      and its targets are vertices; an undirected copy of a symmetric graph
      is symmetric. */
  lemma CopiedValid<V(!new)>(adj: map<V, seq<WeightedEdge<V>>>, order: seq<V>, name: V -> string, isDirected: bool)
    requires Distinct(order) && (set x | x in order) == adj.Keys && Closed(adj)
    ensures Copied(adj, order, name, isDirected).Keys == adj.Keys
    ensures Closed(Copied(adj, order, name, isDirected))
    ensures !isDirected && CountsSymmetric(adj) ==> CountsSymmetric(Copied(adj, order, name, isDirected))
  {
    var ts := Listed(adj, order, name, isDirected);
    var c := Copied(adj, order, name, isDirected);
    forall k | 0 <= k < |ts|
      ensures ts[k].source in Bare(adj.Keys) && ts[k].target in Bare(adj.Keys)
    {
      ListedEnds(adj, order, name, isDirected, ts[k]);
    }
    AddTriplesKeys(Bare(adj.Keys), ts, isDirected);
    forall u, e: WeightedEdge<V> | u in c && e in c[u]
      ensures e.target in c
    {
      assert multiset(EdgesOf(c, u))[WeightedEdge(e.target, e.weight)] > 0;
      CopiedCount(adj, order, name, isDirected, u, e.target, e.weight);
      if Count(adj, e.target, u, e.weight) > 0 {
        assert EdgesOf(adj, e.target) != [];
      } else {
        assert WeightedEdge(e.target, e.weight) in adj[u];
      }
    }
    if !isDirected && CountsSymmetric(adj) {
      forall u: V, v: V, w: real
        ensures Count(c, u, v, w) == Count(c, v, u, w)
      {
        CopiedCount(adj, order, name, isDirected, u, v, w);
        CopiedCount(adj, order, name, isDirected, v, u, w);
      }
    }
  }
}
