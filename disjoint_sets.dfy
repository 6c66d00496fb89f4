/** DisjointSets: the union-find structure Kruskal's algorithm uses, a
    parent map with path compression in find and a rank map for union by
    rank.

    Next to the two maps the model keeps a ghost map rep from every vertex
    to the representative of its set. Labelled states, one vertex at a
    time, that rep is constant along parent links and that every
    representative is its own parent; RepClimbs shows that rep is then
    exactly the vertex reached by following the parent links (Climb). The
    operations are stated on rep: find keeps it, union merges two of its
    classes (Relabel), isSameSet compares it. */
module DisjointSetForest {
  import opened Frontier

  /** x's parent is a vertex and, unless x is a root, ranked above x. */
  ghost predicate Uplink<V(!new)>(parent: map<V, V>, rank: map<V, int>, x: V)
    requires x in parent && x in rank
  {
    parent[x] in parent && parent[x] in rank && (parent[x] != x ==> rank[x] < rank[parent[x]])
  }

  /** parent and rank have the same keys, every parent is a key, and rank
      rises strictly from a vertex to its parent, so the links form trees. */
  ghost predicate Forest<V(!new)>(parent: map<V, V>, rank: map<V, int>) {
    && parent.Keys == rank.Keys
    && forall x {:trigger Uplink(parent, rank, x)} :: x in parent ==> Uplink(parent, rank, x)
  }

  /** a's parent has a's representative, the representative is its own
      parent and ranked no lower than a, and a root represents itself. */
  ghost predicate Labels<V(!new)>(parent: map<V, V>, rank: map<V, int>, rep: map<V, V>, a: V)
    requires a in parent && a in rep && a in rank
  {
    && parent[a] in rep && rep[a] in parent && rep[a] in rank
    && rep[parent[a]] == rep[a]
    && parent[rep[a]] == rep[a]
    && (parent[a] == a ==> rep[a] == a)
    && rank[a] <= rank[rep[a]]
  }

  /** rep names, for every vertex of the forest, the representative of its
      set. */
  ghost predicate Labelled<V(!new)>(parent: map<V, V>, rank: map<V, int>, rep: map<V, V>) {
    && Forest(parent, rank) && rep.Keys == parent.Keys
    && forall a {:trigger Labels(parent, rank, rep, a)} :: a in parent ==> Labels(parent, rank, rep, a)
  }

  /** The representatives: one per set. */
  ghost function Roots<V(!new)>(parent: map<V, V>): set<V> {
    set x | x in parent && parent[x] == x
  }

  /** The representatives once the sets represented by rx and ry are one,
      represented by n. */
  ghost function Relabel<V(!new)>(rep: map<V, V>, rx: V, ry: V, n: V): (r: map<V, V>)
    ensures r.Keys == rep.Keys
  {
    map a | a in rep :: if rep[a] == rx || rep[a] == ry then n else rep[a]
  }

  /** The ranks after a union: the new root's rank rises by one when bump
      is set. */
  ghost function Bumped<V(!new)>(rank: map<V, int>, root: V, bump: bool): (r: map<V, int>)
    requires root in rank
    ensures r.Keys == rank.Keys
  {
    if bump then rank[root := rank[root] + 1] else rank
  }

  /** The vertices ranked strictly above x: the measure that shrinks along
      a parent link. */
  ghost function Above<V(!new)>(rank: map<V, int>, x: V): set<V>
    requires x in rank
  {
    set v | v in rank && rank[v] > rank[x]
  }

  /** One step up a parent link leaves fewer vertices above. */
  lemma AboveShrinks<V(!new)>(parent: map<V, V>, rank: map<V, int>, x: V)
    requires Forest(parent, rank) && x in parent && parent[x] != x
    ensures parent[x] in rank && |Above(rank, parent[x])| < |Above(rank, x)|
  {
    assert Uplink(parent, rank, x);
    assert Above(rank, parent[x]) <= Above(rank, x);
    SubsetSmaller(Above(rank, x), Above(rank, parent[x]), parent[x]);
  }

  /** The end of the parent links from x. */
  ghost function Climb<V(!new)>(parent: map<V, V>, rank: map<V, int>, x: V): V
    requires Forest(parent, rank) && x in parent
    decreases |Above(rank, x)|
  {
    if parent[x] == x then x
    else
      AboveShrinks(parent, rank, x);
      assert Uplink(parent, rank, x);
      Climb(parent, rank, parent[x])
  }

  /** rep is the vertex the parent links lead to. */
  lemma {:induction false} RepClimbs<V(!new)>(parent: map<V, V>, rank: map<V, int>, rep: map<V, V>, a: V)
    requires Labelled(parent, rank, rep) && a in parent
    ensures rep[a] == Climb(parent, rank, a)
    decreases |Above(rank, a)|
  {
    assert Labels(parent, rank, rep, a);
    if parent[a] != a {
      AboveShrinks(parent, rank, a);
      assert Uplink(parent, rank, a);
      RepClimbs(parent, rank, rep, parent[a]);
    }
  }

  /** The representatives are the roots. */
  lemma RootsAreReps<V(!new)>(parent: map<V, V>, rank: map<V, int>, rep: map<V, V>)
    requires Labelled(parent, rank, rep)
    ensures Roots(parent) == set a | a in rep :: rep[a]
  {
    forall r | r in Roots(parent)
      ensures r in rep && rep[r] == r
    {
      assert Labels(parent, rank, rep, r);
    }
    forall a | a in rep
      ensures rep[a] in Roots(parent)
    {
      assert Labels(parent, rank, rep, a);
    }
  }

  /** A representative represents itself. */
  lemma RepIdempotent<V(!new)>(parent: map<V, V>, rank: map<V, int>, rep: map<V, V>)
    requires Labelled(parent, rank, rep)
    ensures forall v :: v in rep ==> rep[v] in rep && rep[rep[v]] == rep[v]
  {
    forall v | v in rep
      ensures rep[v] in rep && rep[rep[v]] == rep[v]
    {
      assert Labels(parent, rank, rep, v);
      assert Labels(parent, rank, rep, rep[v]);
    }
  }

  /** A non-empty forest has a representative. */
  lemma SomeRoot<V(!new)>(parent: map<V, V>, rank: map<V, int>, rep: map<V, V>, x: V)
    requires Labelled(parent, rank, rep) && x in parent
    ensures |Roots(parent)| >= 1
  {
    assert Labels(parent, rank, rep, x);
    assert rep[x] in Roots(parent);
  }

  /** Pointing x straight at its representative keeps a forest. */
  lemma CompressForest<V(!new)>(parent: map<V, V>, rank: map<V, int>, rep: map<V, V>, x: V)
    requires Labelled(parent, rank, rep) && x in parent
    ensures Forest(parent[x := rep[x]], rank)
  {
    var p := parent[x := rep[x]];
    assert Labels(parent, rank, rep, x);
    assert Uplink(parent, rank, x);
    assert Labels(parent, rank, rep, parent[x]);
    forall a | a in p
      ensures Uplink(p, rank, a)
    {
      if a != x {
        assert Uplink(parent, rank, a);
      }
    }
  }

  /** Pointing x straight at its representative keeps the labelling and
      the roots. */
  lemma CompressLabelled<V(!new)>(parent: map<V, V>, rank: map<V, int>, rep: map<V, V>, x: V)
    requires Labelled(parent, rank, rep) && x in parent
    ensures Labelled(parent[x := rep[x]], rank, rep)
    ensures Roots(parent[x := rep[x]]) == Roots(parent)
  {
    var p := parent[x := rep[x]];
    CompressForest(parent, rank, rep, x);
    assert Labels(parent, rank, rep, x);
    forall a | a in p
      ensures Labels(p, rank, rep, a)
    {
      assert Labels(parent, rank, rep, a);
      assert Labels(parent, rank, rep, rep[a]);
    }
    assert Roots(p) == Roots(parent);
  }

  /** Linking child, a root, under another root of higher rank (once
      bumped) keeps a forest. */
  lemma LinkForest<V(!new)>(parent: map<V, V>, rank: map<V, int>, child: V, root: V, bump: bool)
    requires Forest(parent, rank) && child in parent && root in parent && child != root
    requires parent[child] == child && parent[root] == root
    requires rank[child] < Bumped(rank, root, bump)[root]
    ensures Forest(parent[child := root], Bumped(rank, root, bump))
  {
    var p, k := parent[child := root], Bumped(rank, root, bump);
    forall a | a in p
      ensures Uplink(p, k, a)
    {
      if a != child {
        assert Uplink(parent, rank, a);
      }
    }
  }

  /** After the link, a's labelling still holds with child's set merged
      into root's. */
  lemma LinkLabels<V(!new)>(parent: map<V, V>, rank: map<V, int>, rep: map<V, V>, child: V, root: V, bump: bool, a: V)
    requires Labelled(parent, rank, rep) && child in parent && root in parent && child != root
    requires parent[child] == child && parent[root] == root
    requires rank[child] < Bumped(rank, root, bump)[root]
    requires a in parent
    ensures Labels(parent[child := root], Bumped(rank, root, bump), Relabel(rep, child, root, root), a)
  {
    assert Labels(parent, rank, rep, child) && Labels(parent, rank, rep, root);
    assert Labels(parent, rank, rep, a);
    assert Labels(parent, rank, rep, parent[a]);
  }

  /** Linking child, a root, under another root of higher rank (once
      bumped) keeps a forest and merges child's set into root's. */
  lemma LinkLabelled<V(!new)>(parent: map<V, V>, rank: map<V, int>, rep: map<V, V>, child: V, root: V, bump: bool)
    requires Labelled(parent, rank, rep) && child in parent && root in parent && child != root
    requires parent[child] == child && parent[root] == root
    requires rank[child] < Bumped(rank, root, bump)[root]
    ensures Labelled(parent[child := root], Bumped(rank, root, bump), Relabel(rep, child, root, root))
  {
    var p, k, r := parent[child := root], Bumped(rank, root, bump), Relabel(rep, child, root, root);
    LinkForest(parent, rank, child, root, bump);
    forall a | a in p
      ensures Labels(p, k, r, a)
    {
      LinkLabels(parent, rank, rep, child, root, bump, a);
    }
  }

  /** Linking child under another vertex takes child, and only child, out
      of the roots. */
  lemma LinkRoots<V(!new)>(parent: map<V, V>, child: V, root: V)
    requires child in parent && child != root
    ensures Roots(parent[child := root]) == Roots(parent) - {child}
  {
  }

  /** Merging a set with itself changes nothing, and the order in which two
      sets are named does not matter. */
  lemma RelabelCases<V(!new)>(rep: map<V, V>, rx: V, ry: V)
    ensures Relabel(rep, rx, rx, rx) == rep
    ensures Relabel(rep, rx, ry, ry) == Relabel(rep, ry, rx, ry)
  {
  }

  /** After the sets of x and y are merged, x and y are in the same set,
      and two vertices are in the same set exactly when they were before or
      one was with x and the other with y. */
  lemma RelabelSame<V(!new)>(rep: map<V, V>, x: V, y: V, n: V, a: V, b: V)
    requires x in rep && y in rep && a in rep && b in rep
    requires n == rep[x] || n == rep[y]
    requires forall v :: v in rep ==> rep[v] in rep && rep[rep[v]] == rep[v]
    ensures Relabel(rep, rep[x], rep[y], n)[x] == Relabel(rep, rep[x], rep[y], n)[y]
    ensures Relabel(rep, rep[x], rep[y], n)[a] == Relabel(rep, rep[x], rep[y], n)[b] <==>
              || rep[a] == rep[b]
              || (rep[a] == rep[x] && rep[b] == rep[y])
              || (rep[a] == rep[y] && rep[b] == rep[x])
  {
  }

  /** Ranks after a union whose old roots were rx and ry: only rx may rise,
      by one, and only when it and a distinct ry had equal ranks. */
  ghost predicate RankRaised<V(!new)>(k0: map<V, int>, k1: map<V, int>, rx: V, ry: V) {
    && k1.Keys == k0.Keys
    && forall v :: v in k0 ==> k1[v] == k0[v] || (v == rx && rx != ry && ry in k0 && k0[v] == k0[ry] && k1[v] == k0[v] + 1)
  }

  class DisjointSets<V(==, !new)> {
    var parent: map<V, V>
    var rank: map<V, int>
    ghost var rep: map<V, V>

    ghost predicate Valid()
      reads this
    {
      rep.Keys == parent.Keys == rank.Keys && Labelled(parent, rank, rep)
    }

    /** DisjointSets(vertices): every vertex its own set, of rank 0. */
    constructor (vertices: set<V>)
      ensures Valid() && parent.Keys == vertices
      ensures forall v :: v in vertices ==> parent[v] == v && rank[v] == 0 && rep[v] == v
    {
      var p: map<V, V> := map[];
      var r: map<V, int> := map[];
      var rest := vertices;
      while rest != {}
        invariant rest <= vertices && p.Keys == r.Keys == vertices - rest
        invariant forall v :: v in p ==> p[v] == v && r[v] == 0
        decreases |rest|
      {
        var vertex :| vertex in rest;
        p := p[vertex := vertex];
        r := r[vertex := 0];
        rest := rest - {vertex};
      }
      parent := p;
      rank := r;
      rep := p;
      forall a | a in p
        ensures Uplink(p, r, a) && Labels(p, r, p, a)
      {
      }
    }

    /** find(vertex): the representative of vertex's set; on the way back
        every vertex of the path is pointed straight at it, which changes
        no vertex's representative. */
    method Find(vertex: V) returns (r: V)
      requires Valid() && vertex in parent
      modifies this
      ensures Valid() && rank == old(rank) && rep == old(rep)
      ensures Roots(parent) == Roots(old(parent))
      ensures r == rep[vertex]
      decreases |Above(rank, vertex)|
    {
      if parent[vertex] != vertex {
        AboveShrinks(parent, rank, vertex);
        assert Labels(parent, rank, rep, vertex);
        var root := Find(parent[vertex]);
        CompressLabelled(parent, rank, rep, vertex);
        parent := parent[vertex := root];
      } else {
        assert Labels(parent, rank, rep, vertex);
      }
      r := parent[vertex];
    }

    /** union(x, y): the root of lower rank goes under the other; on equal
        ranks y's root goes under x's, whose rank rises by one. */
    method Union(x: V, y: V)
      requires Valid() && x in parent && y in parent
      modifies this
      ensures Valid() && parent.Keys == old(parent).Keys
      ensures rep[x] == old(rep)[x] || rep[x] == old(rep)[y]
      ensures rep == Relabel(old(rep), old(rep)[x], old(rep)[y], rep[x])
      ensures RankRaised(old(rank), rank, old(rep)[x], old(rep)[y]) == true
      ensures |Roots(parent)| == |Roots(old(parent))| - (if old(rep)[x] == old(rep)[y] then 0 else 1)
    {
      var rootX := Find(x);
      var rootY := Find(y);
      assert Labels(parent, rank, rep, x) && Labels(parent, rank, rep, y);
      if rootX == rootY {
        RelabelCases(rep, rootX, rootX);
        return;
      }
      ghost var p, k, r := parent, rank, rep;
      var child, root, bump;
      if rank[rootX] < rank[rootY] {
        child, root, bump := rootX, rootY, false;
        parent := parent[rootX := rootY];
      } else if rank[rootX] > rank[rootY] {
        child, root, bump := rootY, rootX, false;
        parent := parent[rootY := rootX];
      } else {
        child, root, bump := rootY, rootX, true;
        parent := parent[rootY := rootX];
        rank := rank[rootX := rank[rootX] + 1];
      }
      assert parent == p[child := root] && rank == Bumped(k, root, bump);
      LinkLabelled(p, k, r, child, root, bump);
      LinkRoots(p, child, root);
      RelabelCases(r, child, root);
      rep := Relabel(r, child, root, root);
    }

    /** isSameSet(x, y): whether find gives both the same representative. */
    method IsSameSet(x: V, y: V) returns (b: bool)
      requires Valid() && x in parent && y in parent
      modifies this
      ensures Valid() && rank == old(rank) && rep == old(rep)
      ensures Roots(parent) == Roots(old(parent))
      ensures b <==> rep[x] == rep[y]
    {
      var rx := Find(x);
      var ry := Find(y);
      b := rx == ry;
    }
  }
}
