/** getMSTAsGraph: the tree lists become a fresh graph. Every vertex is
    added, then every entry of every list; an undirected graph skips an
    entry whose edge was already added, as told by a key for its pair of
    ends. The key the source builds joins the two names with "-"; two
    different pairs can share that key, and the second edge is then lost.
    The key used by the model is the pair of ends itself. */
module TreeGraphs {
  import opened Frontier
  import opened WeightedGraphs
  import opened SpanningEdges
  import opened SpanningForests

  /** The key getMSTAsGraph builds: the names joined by "-", the name that
      compares smaller first (the destination's when they are equal). */
  function EdgeKey<V>(name: V -> string, source: V, destination: V): string {
    if CompareTo(name(source), name(destination)) < 0 then name(source) + "-" + name(destination)
    else name(destination) + "-" + name(source)
  }

  /** The key does not depend on the orientation of the edge. */
  lemma EdgeKeySymmetric<V>(name: V -> string, a: V, b: V)
    ensures EdgeKey(name, a, b) == EdgeKey(name, b, a)
  {
    CompareFlip(name(a), name(b));
  }

  /** The name key of a triple. */
  function NameKey<V>(name: V -> string): EdgeTriple<V> -> string {
    (t: EdgeTriple<V>) => EdgeKey(name, t.source, t.target)
  }

  /** The ends of a triple, in either order. */
  function Pair<V(==)>(t: EdgeTriple<V>): set<V> {
    {t.source, t.target}
  }

  /** The keys of the triples. */
  function KeysOf<V, K(==)>(ts: seq<EdgeTriple<V>>, key: EdgeTriple<V> -> K): set<K> {
    set k | 0 <= k < |ts| :: key(ts[k])
  }

  /** No two triples share a key. */
  ghost predicate DistinctKeys<V, K>(ts: seq<EdgeTriple<V>>, key: EdgeTriple<V> -> K) {
    forall i, j :: 0 <= i < j < |ts| ==> key(ts[i]) != key(ts[j])
  }

  /** The triples in order, each dropped when an earlier triple has its key:
      the undirected branch of getMSTAsGraph's loop. */
  function KeptBy<V, K(==)>(ts: seq<EdgeTriple<V>>, key: EdgeTriple<V> -> K): seq<EdgeTriple<V>> {
    if |ts| == 0 then []
    else
      var n := |ts| - 1;
      KeptBy(ts[..n], key) + (if key(ts[n]) in KeysOf(ts[..n], key) then [] else [ts[n]])
  }

  /** The first triples of a sequence have the keys of its first triples. */
  lemma KeysOfPrefix<V, K>(ts: seq<EdgeTriple<V>>, n: nat, key: EdgeTriple<V> -> K)
    requires n < |ts|
    ensures KeysOf(ts[..n + 1], key) == KeysOf(ts[..n], key) + {key(ts[n])}
  {
    assert forall k :: 0 <= k < n ==> ts[..n + 1][k] == ts[..n][k];
  }

  /** One more triple adds its key. */
  lemma KeysOfSnoc<V, K>(ts: seq<EdgeTriple<V>>, t: EdgeTriple<V>, key: EdgeTriple<V> -> K)
    ensures KeysOf(ts + [t], key) == KeysOf(ts, key) + {key(t)}
  {
    assert (ts + [t])[..|ts|] == ts && (ts + [t])[..|ts| + 1] == ts + [t];
    KeysOfPrefix(ts + [t], |ts|, key);
  }

  /** The dedupe keeps triples of the input, and no more of each than the
      input holds. */
  lemma {:induction false} KeptSub<V, K>(ts: seq<EdgeTriple<V>>, key: EdgeTriple<V> -> K)
    ensures multiset(KeptBy(ts, key)) <= multiset(ts)
  {
    if |ts| > 0 {
      var n := |ts| - 1;
      KeptSub(ts[..n], key);
      assert ts == ts[..n] + [ts[n]];
    }
  }

  /** The dedupe drops no key. */
  lemma {:induction false} KeptKeys<V, K>(ts: seq<EdgeTriple<V>>, key: EdgeTriple<V> -> K)
    ensures KeysOf(KeptBy(ts, key), key) == KeysOf(ts, key)
  {
    if |ts| > 0 {
      var n := |ts| - 1;
      var p := KeptBy(ts[..n], key);
      KeptKeys(ts[..n], key);
      assert ts[..n + 1] == ts;
      KeysOfPrefix(ts, n, key);
      if key(ts[n]) !in KeysOf(ts[..n], key) {
        var r := p + [ts[n]];
        assert r == KeptBy(ts, key);
        assert r[..|p|] == p;
        KeysOfPrefix(r, |p|, key);
        assert r[..|p| + 1] == r;
      }
    }
  }

  /** The dedupe keeps at most one triple of each key. */
  lemma {:induction false} KeptDistinct<V, K>(ts: seq<EdgeTriple<V>>, key: EdgeTriple<V> -> K)
    ensures DistinctKeys(KeptBy(ts, key), key)
  {
    if |ts| > 0 {
      var n := |ts| - 1;
      var p := KeptBy(ts[..n], key);
      KeptDistinct(ts[..n], key);
      KeptKeys(ts[..n], key);
      if key(ts[n]) !in KeysOf(ts[..n], key) {
        var r := p + [ts[n]];
        forall i | 0 <= i < |p|
          ensures key(r[i]) != key(r[|p|])
        {
          assert key(p[i]) in KeysOf(p, key);
        }
      }
    }
  }

  /** The triples getMSTAsGraph adds, in order: all of them when directed,
      one per pair of ends when undirected. */
  function Materialize<V(==)>(ts: seq<EdgeTriple<V>>, isDirected: bool): seq<EdgeTriple<V>> {
    if isDirected then ts else KeptBy(ts, Pair)
  }

  /** The graph getMSTAsGraph returns, given the order in which it walks
      the tree lists: every list vertex, then addEdge for every entry
      Materialize keeps. */
  function Materialized<V(!new)>(mst: map<V, seq<WeightedEdge<V>>>, order: seq<V>, name: V -> string, isDirected: bool): map<V, seq<WeightedEdge<V>>> {
    AddTriples(Bare(mst.Keys), Materialize(Listed(mst, order, name, true), isDirected), isDirected)
  }

  /** One more entry: added when directed or when no earlier entry has its
      pair of ends. */
  lemma MaterializeSnoc<V>(ts: seq<EdgeTriple<V>>, t: EdgeTriple<V>, isDirected: bool)
    ensures Materialize(ts + [t], isDirected) ==
              Materialize(ts, isDirected) + (if isDirected || Pair(t) !in KeysOf(ts, Pair) then [t] else [])
  {
    assert (ts + [t])[..|ts|] == ts;
  }

  /** As written: names containing "-" let two different pairs share a key,
      so the undirected loop drops the second of two tree edges. */
  lemma NameKeyCollision()
    ensures var name: string -> string := s => s;
            var t1, t2 := EdgeTriple("a-b", "c", 1.0), EdgeTriple("a", "b-c", 1.0);
            && Pair(t1) != Pair(t2)
            && EdgeKey(name, t1.source, t1.target) == EdgeKey(name, t2.source, t2.target) == "a-b-c"
            && KeptBy([t1, t2], NameKey(name)) == [t1]
  {
    var name: string -> string := s => s;
    var t1, t2 := EdgeTriple("a-b", "c", 1.0), EdgeTriple("a", "b-c", 1.0);
    assert CompareTo("a-b", "c") < 0 && CompareTo("a", "b-c") < 0;
    assert "a-b" + "-" + "c" == "a-b-c" == "a" + "-" + "b-c";
    var key := NameKey(name);
    assert key(t1) == key(t2) == "a-b-c";
    assert [t1, t2][..1] == [t1] && [t1][..0] == [];
    assert KeptBy([t1], key) == [t1];
    assert key(t2) in KeysOf([t1], key) by {
      assert key([t1][0]) == key(t2);
    }
  }

  /** Where the joining '-' sits in x + "-" + y. */
  lemma DashAt(x: string, y: string)
    ensures |x| < |x + "-" + y| && (x + "-" + y)[|x|] == '-'
    ensures forall i :: 0 <= i < |x| ==> (x + "-" + y)[i] == x[i]
  {
  }

  /** Two strings without '-' joined by one '-' can be split back apart. */
  lemma SplitAtDash(x: string, y: string, x': string, y': string)
    requires '-' !in x && '-' !in x'
    requires x + "-" + y == x' + "-" + y'
    ensures x == x' && y == y'
  {
    DashAt(x, y);
    DashAt(x', y');
    if |x| < |x'| {
      assert false;
    } else if |x'| < |x| {
      assert false;
    } else {
      var s := x + "-" + y;
      assert x == s[..|x|] == x';
      assert y == s[|x| + 1..] == y';
    }
  }

  /** On names that tell vertices apart and hold no '-', two triples share
      the name key exactly when they share their pair of ends. */
  lemma NameKeyIsPair<V>(name: V -> string, a: EdgeTriple<V>, b: EdgeTriple<V>)
    requires forall u, v :: name(u) == name(v) ==> u == v
    requires forall u :: '-' !in name(u)
    ensures NameKey(name)(a) == NameKey(name)(b) <==> Pair(a) == Pair(b)
  {
    if NameKey(name)(a) == NameKey(name)(b) {
      var p := if CompareTo(name(a.source), name(a.target)) < 0 then (name(a.source), name(a.target)) else (name(a.target), name(a.source));
      var q := if CompareTo(name(b.source), name(b.target)) < 0 then (name(b.source), name(b.target)) else (name(b.target), name(b.source));
      SplitAtDash(p.0, p.1, q.0, q.1);
    }
    if Pair(a) == Pair(b) {
      if a.source != b.source {
        assert a.source == b.target && a.target == b.source;
        EdgeKeySymmetric(name, a.source, a.target);
      }
    }
  }

  /** Two keys that group a sequence's triples alike keep the same triples. */
  lemma {:induction false} KeptByAlike<V, K, L>(ts: seq<EdgeTriple<V>>, k: EdgeTriple<V> -> K, l: EdgeTriple<V> -> L)
    requires forall i, j :: 0 <= i < |ts| && 0 <= j < |ts| ==> (k(ts[i]) == k(ts[j]) <==> l(ts[i]) == l(ts[j]))
    ensures KeptBy(ts, k) == KeptBy(ts, l)
  {
    if |ts| > 0 {
      var n := |ts| - 1;
      forall i, j | 0 <= i < n && 0 <= j < n
        ensures k(ts[..n][i]) == k(ts[..n][j]) <==> l(ts[..n][i]) == l(ts[..n][j])
      {
        assert ts[..n][i] == ts[i] && ts[..n][j] == ts[j];
      }
      KeptByAlike(ts[..n], k, l);
      if k(ts[n]) in KeysOf(ts[..n], k) {
        var i :| 0 <= i < n && k(ts[..n][i]) == k(ts[n]);
        assert ts[..n][i] == ts[i];
        assert l(ts[..n][i]) in KeysOf(ts[..n], l);
      }
      if l(ts[n]) in KeysOf(ts[..n], l) {
        var i :| 0 <= i < n && l(ts[..n][i]) == l(ts[n]);
        assert ts[..n][i] == ts[i];
        assert k(ts[..n][i]) in KeysOf(ts[..n], k);
      }
    }
  }

  /** On names that tell vertices apart and hold no '-', the name key of
      getMSTAsGraph drops exactly the triples the pair key drops. */
  lemma NameKeyAgrees<V>(ts: seq<EdgeTriple<V>>, name: V -> string)
    requires forall u, v :: name(u) == name(v) ==> u == v
    requires forall u :: '-' !in name(u)
    ensures KeptBy(ts, NameKey(name)) == KeptBy(ts, Pair)
  {
    forall i, j | 0 <= i < |ts| && 0 <= j < |ts|
      ensures NameKey(name)(ts[i]) == NameKey(name)(ts[j]) <==> Pair(ts[i]) == Pair(ts[j])
    {
      NameKeyIsPair(name, ts[i], ts[j]);
    }
    KeptByAlike(ts, NameKey(name), Pair);
  }

  /** A sequence with distinct keys holds at most one triple of a key. */
  lemma {:induction false} DistinctKeysCount<V, K>(s: seq<EdgeTriple<V>>, key: EdgeTriple<V> -> K, x: EdgeTriple<V>, y: EdgeTriple<V>)
    requires DistinctKeys(s, key) && key(x) == key(y)
    ensures multiset(s)[x] + (if x == y then 0 else multiset(s)[y]) <= 1
  {
    if |s| > 0 {
      var n := |s| - 1;
      DistinctKeysCount(s[..n], key, x, y);
      assert s == s[..n] + [s[n]];
      if s[n] == x || s[n] == y {
        forall z | z in s[..n]
          ensures key(z) != key(x)
        {
          var i :| 0 <= i < n && s[..n][i] == z;
          assert s[i] == z;
        }
        assert x !in s[..n] && y !in s[..n];
      }
    }
  }

  /** No self-loop and no two triples on one pair of ends. */
  ghost predicate Simple<V(!new)>(ts: seq<EdgeTriple<V>>) {
    && (forall k :: 0 <= k < |ts| ==> ts[k].source != ts[k].target)
    && DistinctKeys(ts, Pair)
  }

  /** A forest is simple: a self-loop or a second edge on a pair closes a
      cycle. */
  lemma AcyclicSimple<V(!new)>(ts: seq<EdgeTriple<V>>)
    requires Acyclic(ts)
    ensures Simple(ts)
  {
    forall k | 0 <= k < |ts|
      ensures ts[k].source != ts[k].target
    {
      LinkedSelf(ts[..k], ts[k].source);
    }
    forall i, j | 0 <= i < j < |ts|
      ensures Pair(ts[i]) != Pair(ts[j])
    {
      LinkedEdge(ts[..j], i);
      assert ts[..j][i] == ts[i];
      LinkedFlip(ts[..j], ts[i].source, ts[i].target);
    }
  }

  /** In a simple tree two triples on one pair of ends are the same triple. */
  lemma SimpleUnique<V(!new)>(tree: seq<EdgeTriple<V>>, x: EdgeTriple<V>, y: EdgeTriple<V>)
    requires Simple(tree) && x in tree && y in tree && Pair(x) == Pair(y)
    ensures x == y
  {
    var i :| 0 <= i < |tree| && tree[i] == x;
    var j :| 0 <= j < |tree| && tree[j] == y;
  }

  /** How often the lists built from triples hold an entry: once per triple
      and, when undirected, once per triple the other way. */
  lemma TreeCount<V(!new)>(vertices: set<V>, ts: seq<EdgeTriple<V>>, isDirected: bool, u: V, v: V, w: real)
    ensures Count(AddTriples(Bare(vertices), ts, isDirected), u, v, w) ==
              multiset(ts)[EdgeTriple(u, v, w)] + (if isDirected then 0 else multiset(ts)[EdgeTriple(v, u, w)])
  {
    AddTriplesCount(Bare(vertices), ts, isDirected, u, v, w);
    assert Count(Bare(vertices), u, v, w) == 0;
  }

  /** Every entry of the lists, as a triple, occurs in the listing as often
      as in its list. */
  lemma ListedAll<V(!new)>(mst: map<V, seq<WeightedEdge<V>>>, order: seq<V>, name: V -> string, t: EdgeTriple<V>)
    requires Distinct(order) && (set x | x in order) == mst.Keys
    ensures multiset(Listed(mst, order, name, true))[t] == Count(mst, t.source, t.target, t.weight)
  {
    ListedCount(mst, order, name, true, t);
  }

  /** An entry of the undirected lists built from a tree comes from a tree
      triple, in one orientation or the other. */
  lemma EntryFromTree<V(!new)>(vertices: set<V>, tree: seq<EdgeTriple<V>>, c: EdgeTriple<V>)
    requires Count(AddTriples(Bare(vertices), tree, false), c.source, c.target, c.weight) > 0
    ensures c in tree || EdgeTriple(c.target, c.source, c.weight) in tree
  {
    TreeCount(vertices, tree, false, c.source, c.target, c.weight);
    if multiset(tree)[c] == 0 {
      assert multiset(tree)[EdgeTriple(c.target, c.source, c.weight)] > 0;
    }
  }

  /** Every listed entry of the undirected lists built from a tree comes
      from a tree triple. */
  lemma ListedFromTree<V(!new)>(vertices: set<V>, tree: seq<EdgeTriple<V>>, order: seq<V>, name: V -> string)
    requires Distinct(order) && (set x | x in order) == vertices
    requires forall k :: 0 <= k < |tree| ==> tree[k].source in vertices && tree[k].target in vertices
    ensures forall c :: c in Listed(AddTriples(Bare(vertices), tree, false), order, name, true) ==>
              c in tree || EdgeTriple(c.target, c.source, c.weight) in tree
  {
    var mst := AddTriples(Bare(vertices), tree, false);
    AddTriplesKeys(Bare(vertices), tree, false);
    forall c | c in Listed(mst, order, name, true)
      ensures c in tree || EdgeTriple(c.target, c.source, c.weight) in tree
    {
      ListedAll(mst, order, name, c);
      EntryFromTree(vertices, tree, c);
    }
  }

  /** Every tree triple is listed from the undirected lists it built. */
  lemma TreeListed<V(!new)>(vertices: set<V>, tree: seq<EdgeTriple<V>>, order: seq<V>, name: V -> string, z: EdgeTriple<V>)
    requires Distinct(order) && (set x | x in order) == vertices && z in tree
    requires forall k :: 0 <= k < |tree| ==> tree[k].source in vertices && tree[k].target in vertices
    ensures z in Listed(AddTriples(Bare(vertices), tree, false), order, name, true)
  {
    var mst := AddTriples(Bare(vertices), tree, false);
    AddTriplesKeys(Bare(vertices), tree, false);
    ListedAll(mst, order, name, z);
    TreeCount(vertices, tree, false, z.source, z.target, z.weight);
    assert multiset(Listed(mst, order, name, true))[z] > 0;
  }

  /** The dedupe by pair of a listing whose entries all come from a simple
      tree keeps, for a listed tree triple, the triple or its reverse. */
  lemma KeptHit<V(!new)>(listed: seq<EdgeTriple<V>>, tree: seq<EdgeTriple<V>>, z: EdgeTriple<V>)
    requires Simple(tree) && z in tree && z in listed
    requires forall c :: c in listed ==> c in tree || EdgeTriple(c.target, c.source, c.weight) in tree
    ensures z in KeptBy(listed, Pair) || EdgeTriple(z.target, z.source, z.weight) in KeptBy(listed, Pair)
  {
    var r := KeptBy(listed, Pair);
    var j :| 0 <= j < |listed| && listed[j] == z;
    assert Pair(z) in KeysOf(listed, Pair);
    KeptKeys(listed, Pair);
    var i :| 0 <= i < |r| && Pair(r[i]) == Pair(z);
    var c := r[i];
    KeptSub(listed, Pair);
    assert c in multiset(listed);
    var d := if c in tree then c else EdgeTriple(c.target, c.source, c.weight);
    assert Pair(d) == Pair(c);
    SimpleUnique(tree, d, z);
  }

  /** The entries of one pair in the undirected graph getMSTAsGraph
      returns, for a simple tree: as many as in the tree lists. */
  lemma MaterializedPair<V(!new)>(vertices: set<V>, tree: seq<EdgeTriple<V>>, order: seq<V>, name: V -> string, u: V, v: V, w: real)
    requires Simple(tree) && u != v
    requires Distinct(order) && (set x | x in order) == vertices
    requires forall k :: 0 <= k < |tree| ==> tree[k].source in vertices && tree[k].target in vertices
    ensures var mst := AddTriples(Bare(vertices), tree, false);
            var r := KeptBy(Listed(mst, order, name, true), Pair);
            multiset(r)[EdgeTriple(u, v, w)] + multiset(r)[EdgeTriple(v, u, w)] ==
              multiset(tree)[EdgeTriple(u, v, w)] + multiset(tree)[EdgeTriple(v, u, w)]
  {
    var mst := AddTriples(Bare(vertices), tree, false);
    AddTriplesKeys(Bare(vertices), tree, false);
    var listed := Listed(mst, order, name, true);
    var r := KeptBy(listed, Pair);
    var x, y := EdgeTriple(u, v, w), EdgeTriple(v, u, w);
    assert Pair(x) == Pair(y);
    DistinctKeysCount(tree, Pair, x, y);
    KeptDistinct(listed, Pair);
    DistinctKeysCount(r, Pair, x, y);
    if x in tree || y in tree {
      var z := if x in tree then x else y;
      ListedFromTree(vertices, tree, order, name);
      TreeListed(vertices, tree, order, name, z);
      KeptHit(listed, tree, z);
    } else {
      ListedAll(mst, order, name, x);
      ListedAll(mst, order, name, y);
      TreeCount(vertices, tree, false, u, v, w);
      TreeCount(vertices, tree, false, v, u, w);
      KeptSub(listed, Pair);
    }
  }

  /** Every listed entry of the lists built from a tree joins two vertices. */
  lemma ListedTreeEnds<V(!new)>(vertices: set<V>, tree: seq<EdgeTriple<V>>, order: seq<V>, name: V -> string, isDirected: bool,
                                t: EdgeTriple<V>)
    requires Distinct(order) && (set x | x in order) == vertices
    requires forall k :: 0 <= k < |tree| ==> tree[k].source in vertices && tree[k].target in vertices
    requires t in Listed(AddTriples(Bare(vertices), tree, isDirected), order, name, true)
    ensures t.source in vertices && t.target in vertices
  {
    var mst := AddTriples(Bare(vertices), tree, isDirected);
    AddTriplesKeys(Bare(vertices), tree, isDirected);
    ListedAll(mst, order, name, t);
    TreeCount(vertices, tree, isDirected, t.source, t.target, t.weight);
    if t in tree {
      var j :| 0 <= j < |tree| && tree[j] == t;
    } else {
      var j :| 0 <= j < |tree| && tree[j] == EdgeTriple(t.target, t.source, t.weight);
    }
  }

  /** The ends of the triples getMSTAsGraph adds are vertices of the tree
      lists. */
  lemma MaterializedEnds<V(!new)>(vertices: set<V>, tree: seq<EdgeTriple<V>>, order: seq<V>, name: V -> string, isDirected: bool,
                                  kept: seq<EdgeTriple<V>>)
    requires Distinct(order) && (set x | x in order) == vertices
    requires forall k :: 0 <= k < |tree| ==> tree[k].source in vertices && tree[k].target in vertices
    requires kept == Materialize(Listed(AddTriples(Bare(vertices), tree, isDirected), order, name, true), isDirected)
    ensures forall k :: 0 <= k < |kept| ==> kept[k].source in vertices && kept[k].target in vertices
  {
    var listed := Listed(AddTriples(Bare(vertices), tree, isDirected), order, name, true);
    KeptSub(listed, Pair);
    forall k | 0 <= k < |kept|
      ensures kept[k].source in vertices && kept[k].target in vertices
    {
      assert kept[k] in multiset(listed);
      ListedTreeEnds(vertices, tree, order, name, isDirected, kept[k]);
    }
  }

  /** A directed tree graph comes back entry for entry. */
  lemma MaterializedDirected<V(!new)>(vertices: set<V>, tree: seq<EdgeTriple<V>>, order: seq<V>, name: V -> string, u: V, v: V, w: real)
    requires Distinct(order) && (set x | x in order) == vertices
    requires forall k :: 0 <= k < |tree| ==> tree[k].source in vertices && tree[k].target in vertices
    ensures var mst := AddTriples(Bare(vertices), tree, true);
            Count(Materialized(mst, order, name, true), u, v, w) == Count(mst, u, v, w)
  {
    var mst := AddTriples(Bare(vertices), tree, true);
    AddTriplesKeys(Bare(vertices), tree, true);
    assert Materialized(mst, order, name, true) == Copied(mst, order, name, true);
    CopiedCount(mst, order, name, true, u, v, w);
  }

  /** An undirected forest graph comes back entry for entry. */
  lemma MaterializedUndirected<V(!new)>(vertices: set<V>, tree: seq<EdgeTriple<V>>, order: seq<V>, name: V -> string, u: V, v: V, w: real)
    requires Simple(tree)
    requires Distinct(order) && (set x | x in order) == vertices
    requires forall k :: 0 <= k < |tree| ==> tree[k].source in vertices && tree[k].target in vertices
    ensures var mst := AddTriples(Bare(vertices), tree, false);
            Count(Materialized(mst, order, name, false), u, v, w) == Count(mst, u, v, w)
  {
    var mst := AddTriples(Bare(vertices), tree, false);
    AddTriplesKeys(Bare(vertices), tree, false);
    var listed := Listed(mst, order, name, true);
    var kept := KeptBy(listed, Pair);
    TreeCount(vertices, kept, false, u, v, w);
    TreeCount(vertices, tree, false, u, v, w);
    if u == v {
      ListedAll(mst, order, name, EdgeTriple(u, u, w));
      KeptSub(listed, Pair);
    } else {
      MaterializedPair(vertices, tree, order, name, u, v, w);
    }
  }

  /** The graph getMSTAsGraph returns has the vertices of the tree lists. */
  lemma MaterializedKeys<V(!new)>(vertices: set<V>, tree: seq<EdgeTriple<V>>, order: seq<V>, name: V -> string, isDirected: bool)
    requires Distinct(order) && (set x | x in order) == vertices
    requires forall k :: 0 <= k < |tree| ==> tree[k].source in vertices && tree[k].target in vertices
    ensures var mst := AddTriples(Bare(vertices), tree, isDirected);
            Materialized(mst, order, name, isDirected).Keys == mst.Keys == vertices
  {
    var mst := AddTriples(Bare(vertices), tree, isDirected);
    AddTriplesKeys(Bare(vertices), tree, isDirected);
    var kept := Materialize(Listed(mst, order, name, true), isDirected);
    MaterializedEnds(vertices, tree, order, name, isDirected, kept);
    assert forall k :: 0 <= k < |kept| ==> kept[k].source in Bare(vertices) && kept[k].target in Bare(vertices);
    AddTriplesKeys(Bare(vertices), kept, isDirected);
  }

  /** The round trip of getMSTAsGraph: the graph it returns for the lists
      of a forest holds every entry exactly as often as the lists do. */
  lemma MaterializedCounts<V(!new)>(vertices: set<V>, tree: seq<EdgeTriple<V>>, order: seq<V>, name: V -> string,
                                    isDirected: bool, u: V, v: V, w: real)
    requires Acyclic(tree)
    requires Distinct(order) && (set x | x in order) == vertices
    requires forall k :: 0 <= k < |tree| ==> tree[k].source in vertices && tree[k].target in vertices
    ensures var mst := AddTriples(Bare(vertices), tree, isDirected);
            Count(Materialized(mst, order, name, isDirected), u, v, w) == Count(mst, u, v, w)
  {
    if isDirected {
      MaterializedDirected(vertices, tree, order, name, u, v, w);
    } else {
      AcyclicSimple(tree);
      MaterializedUndirected(vertices, tree, order, name, u, v, w);
    }
  }
}
