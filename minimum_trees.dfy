/** Spanning trees of a weighted graph and the exchange behind both of
    lab_5's minimum-spanning-tree algorithms: when an entry leaves a set of
    vertices and no triple of a spanning tree crossing that set is lighter,
    the entry can take the place of one of those crossing triples without
    raising the cost. */
module MinimumTrees {
  import opened Frontier
  import opened WeightedGraphs
  import opened SpanningEdges
  import opened SpanningForests
  import opened PrimInvariant

  /** ts links every two of the vertices. */
  ghost predicate LinksAll<V(!new)>(vertices: set<V>, ts: seq<EdgeTriple<V>>) {
    forall u, v :: u in vertices && v in vertices ==> Linked(ts, u, v)
  }

  /** A spanning tree of the graph: entries of the graph, one fewer than
      the vertices, linking every two vertices. */
  ghost predicate SpanningTree<V(!new)>(adj: map<V, seq<WeightedEdge<V>>>, ts: seq<EdgeTriple<V>>) {
    Entries(adj, ts) && |ts| == |adj.Keys| - 1 && LinksAll(adj.Keys, ts)
  }

  /** A minimum spanning tree: a spanning tree that costs no more than any
      other. */
  ghost predicate MinimumTree<V(!new)>(adj: map<V, seq<WeightedEdge<V>>>, ts: seq<EdgeTriple<V>>) {
    SpanningTree(adj, ts) && forall t :: SpanningTree(adj, t) ==> Cost(ts) <= Cost(t)
  }

  /** t has exactly one end in inside. */
  predicate Crosses<V(==)>(t: EdgeTriple<V>, inside: set<V>) {
    (t.source in inside) != (t.target in inside)
  }

  /** A prefix one longer is the prefix and the next triple. */
  lemma PrefixSnoc<V>(ts: seq<EdgeTriple<V>>, k: nat)
    requires k < |ts|
    ensures ts[..k + 1] == ts[..k] + [ts[k]]
  {
  }

  /** us holds every triple of ts, as often as ts does. */
  ghost predicate Holds<V>(us: seq<EdgeTriple<V>>, ts: seq<EdgeTriple<V>>) {
    multiset(ts) <= multiset(us)
  }

  /** No triple of ts crosses inside. */
  ghost predicate StaysIn<V>(ts: seq<EdgeTriple<V>>, inside: set<V>) {
    forall m :: 0 <= m < |ts| ==> !Crosses(ts[m], inside)
  }

  /** e is a lightest entry leaving inside, a set of graph vertices, and
      no triple of done crosses it: the choice the cut property is about. */
  ghost predicate CutChoice<V(!new)>(adj: map<V, seq<WeightedEdge<V>>>, inside: set<V>, done: seq<EdgeTriple<V>>, e: EdgeTriple<V>) {
    && LightCut(adj, inside, e.weight)
    && WeightedEdge(e.target, e.weight) in EdgesOf(adj, e.source) && e.target in adj
    && e.source in inside && e.target !in inside && inside <= adj.Keys
    && StaysIn(done, inside)
  }

  /** The cost of two lists one after the other. */
  lemma {:induction false} CostAppend<V>(a: seq<EdgeTriple<V>>, b: seq<EdgeTriple<V>>)
    ensures Cost(a + b) == Cost(a) + Cost(b)
    decreases |b|
  {
    if |b| == 0 {
      assert a + b == a;
    } else {
      var n := |b| - 1;
      CostAppend(a, b[..n]);
      assert (a + b)[..|a + b| - 1] == a + b[..n];
    }
  }

  /** Taking the j-th triple out lowers the cost by its weight. */
  lemma CostWithout<V>(ts: seq<EdgeTriple<V>>, j: nat)
    requires j < |ts|
    ensures Cost(ts) == Cost(ts[..j] + ts[j + 1..]) + ts[j].weight
  {
    assert ts == ts[..j] + ([ts[j]] + ts[j + 1..]);
    CostAppend(ts[..j], [ts[j]] + ts[j + 1..]);
    CostAppend([ts[j]], ts[j + 1..]);
    CostAppend(ts[..j], ts[j + 1..]);
    assert [ts[j]][..0] == [];
  }

  /** Taking the j-th element out takes one copy of it from the multiset. */
  lemma RemoveAt<V>(b: seq<EdgeTriple<V>>, j: nat)
    requires j < |b|
    ensures multiset(b[..j] + b[j + 1..]) == multiset(b) - multiset{b[j]}
  {
    assert b == b[..j] + [b[j]] + b[j + 1..];
  }

  /** The cost does not depend on the order of the triples. */
  lemma {:induction false} CostPermutation<V>(a: seq<EdgeTriple<V>>, b: seq<EdgeTriple<V>>)
    requires multiset(a) == multiset(b)
    ensures Cost(a) == Cost(b)
    decreases |a|
  {
    if |a| == 0 {
      assert |b| == |multiset(b)| == 0;
    } else {
      var n := |a| - 1;
      var x := a[n];
      assert a == a[..n] + [x];
      assert multiset(a[..n]) == multiset(a) - multiset{x};
      assert x in multiset(b);
      var j :| 0 <= j < |b| && b[j] == x;
      RemoveAt(b, j);
      CostPermutation(a[..n], b[..j] + b[j + 1..]);
      CostWithout(b, j);
    }
  }

  /** A sub-multiset of the same size is the whole multiset. */
  lemma SameSizeSub<V>(a: seq<EdgeTriple<V>>, b: seq<EdgeTriple<V>>)
    requires multiset(a) <= multiset(b) && |a| == |b|
    ensures multiset(a) == multiset(b)
  {
    var d := multiset(b) - multiset(a);
    assert multiset(b) == multiset(a) + d;
    assert |multiset(b)| == |multiset(a)| + |d|;
    assert |d| == 0;
  }

  /** A walk along ts can be cut down to one that visits no vertex twice
      and has the same ends. */
  lemma {:induction false} ShortCut<V(!new)>(ts: seq<EdgeTriple<V>>, p: seq<V>) returns (q: seq<V>)
    requires Chain(ts, p)
    ensures Chain(ts, q) && Distinct(q) && q[0] == p[0] && q[|q| - 1] == p[|p| - 1]
    decreases |p|
  {
    if Distinct(p) {
      return p;
    }
    var i, m :| 0 <= i < m < |p| && p[i] == p[m];
    var r := p[..i] + p[m..];
    forall k | 0 <= k < |r| - 1
      ensures Joined(ts, r[k], r[k + 1])
    {
      if k < i - 1 {
        assert r[k] == p[k] && r[k + 1] == p[k + 1];
      } else if k == i - 1 {
        assert r[k] == p[k] && r[k + 1] == p[m] == p[k + 1];
      } else {
        assert r[k] == p[k + m - i] && r[k + 1] == p[k + m - i + 1];
      }
    }
    q := ShortCut(ts, r);
  }

  /** A walk that starts inside and ends outside steps out somewhere. */
  lemma Exit<V>(p: seq<V>, inside: set<V>) returns (i: nat)
    requires |p| > 0 && p[0] in inside && p[|p| - 1] !in inside
    ensures i < |p| - 1 && p[i] in inside && p[i + 1] !in inside
  {
    i := 0;
    while p[i + 1] in inside
      invariant i < |p| - 1 && p[i] in inside
      decreases |p| - i
    {
      i := i + 1;
    }
  }

  /** When us links the ends of every triple of ts, it links whatever ts
      links. */
  lemma LinkedVia<V(!new)>(ts: seq<EdgeTriple<V>>, us: seq<EdgeTriple<V>>, a: V, b: V)
    requires forall k :: 0 <= k < |ts| ==> Linked(us, ts[k].source, ts[k].target)
    requires Linked(ts, a, b)
    ensures Linked(us, a, b)
  {
    var p :| Chain(ts, p) && p[0] == a && p[|p| - 1] == b;
    LinkedSelf(us, a);
    var i := 0;
    while i < |p| - 1
      invariant 0 <= i <= |p| - 1 && Linked(us, a, p[i])
    {
      assert Joined(ts, p[i], p[i + 1]);
      var k :| 0 <= k < |ts| && Touches(ts[k], p[i], p[i + 1]);
      if ts[k].source != p[i] {
        LinkedFlip(us, ts[k].source, ts[k].target);
      }
      LinkedTrans(us, a, p[i], p[i + 1]);
      i := i + 1;
    }
  }

  /** Two different steps of a walk without repeats join different pairs. */
  lemma DistinctSteps<V>(p: seq<V>, i: nat, m: nat)
    requires Distinct(p) && i < |p| - 1 && m < |p| - 1 && i != m
    ensures !(p[m] == p[i] && p[m + 1] == p[i + 1]) && !(p[m] == p[i + 1] && p[m + 1] == p[i])
  {
  }

  /** The triples of ts but the j-th, then e: the k-th triple of ts stays,
      one place earlier when it came after the j-th. */
  lemma Swapped<V>(ts: seq<EdgeTriple<V>>, j: nat, e: EdgeTriple<V>, k: nat)
    requires j < |ts| && k < |ts| && k != j
    ensures var us := ts[..j] + ts[j + 1..] + [e];
            |us| == |ts| && us[|us| - 1] == e && us[if k < j then k else k - 1] == ts[k]
  {
  }

  /** The walk p, whose m-th step is not along t[j], is a walk along the
      triples that remain once t[j] is swapped for e. */
  lemma ChainSwapped<V(!new)>(t: seq<EdgeTriple<V>>, j: nat, e: EdgeTriple<V>, p: seq<V>, lo: nat, hi: nat)
    requires j < |t| && Chain(t, p) && lo <= hi < |p|
    requires forall m :: lo <= m < hi ==> forall k :: 0 <= k < |t| && Touches(t[k], p[m], p[m + 1]) ==> k != j
    ensures Linked(t[..j] + t[j + 1..] + [e], p[lo], p[hi])
  {
    var us := t[..j] + t[j + 1..] + [e];
    var q := p[lo..hi + 1];
    forall m | 0 <= m < |q| - 1
      ensures Joined(us, q[m], q[m + 1])
    {
      assert q[m] == p[lo + m] && q[m + 1] == p[lo + m + 1];
      assert Joined(t, p[lo + m], p[lo + m + 1]);
      var k :| 0 <= k < |t| && Touches(t[k], p[lo + m], p[lo + m + 1]);
      Swapped(t, j, e, k);
      assert Touches(us[if k < j then k else k - 1], q[m], q[m + 1]);
    }
    assert Chain(us, q);
  }

  /** The exchange. t links every two vertices, and e leads from inside to
      outside and is no heavier than any triple of t crossing inside. Then
      some crossing triple t[j] can be swapped for e: the result has as
      many triples, links every two vertices and costs no more. */
  lemma Exchange<V(!new)>(vertices: set<V>, t: seq<EdgeTriple<V>>, inside: set<V>, e: EdgeTriple<V>) returns (j: nat)
    requires LinksAll(vertices, t)
    requires e.source in vertices && e.target in vertices
    requires e.source in inside && e.target !in inside
    requires forall k :: 0 <= k < |t| && Crosses(t[k], inside) ==> e.weight <= t[k].weight
    ensures j < |t| && Crosses(t[j], inside)
    ensures LinksAll(vertices, t[..j] + t[j + 1..] + [e])
    ensures Cost(t[..j] + t[j + 1..] + [e]) <= Cost(t)
  {
    var a, b := e.source, e.target;
    assert Linked(t, a, b);
    var p0 :| Chain(t, p0) && p0[0] == a && p0[|p0| - 1] == b;
    var p := ShortCut(t, p0);
    var i := Exit(p, inside);
    assert Joined(t, p[i], p[i + 1]);
    j :| 0 <= j < |t| && Touches(t[j], p[i], p[i + 1]);
    var us := t[..j] + t[j + 1..] + [e];
    forall m, k | 0 <= m < |p| - 1 && m != i && 0 <= k < |t| && Touches(t[k], p[m], p[m + 1])
      ensures k != j
    {
      DistinctSteps(p, i, m);
    }
    ChainSwapped(t, j, e, p, 0, i);
    ChainSwapped(t, j, e, p, i + 1, |p| - 1);
    LinkedEdge(us, |us| - 1);
    LinkedFlip(us, a, p[i]);
    LinkedTrans(us, p[i], a, b);
    LinkedFlip(us, p[i + 1], b);
    LinkedTrans(us, p[i], b, p[i + 1]);
    forall k | 0 <= k < |t|
      ensures Linked(us, t[k].source, t[k].target)
    {
      if k == j {
        if t[j].source != p[i] {
          LinkedFlip(us, p[i], p[i + 1]);
        }
      } else {
        Swapped(t, j, e, k);
        LinkedEdge(us, if k < j then k else k - 1);
      }
    }
    forall u, v | u in vertices && v in vertices
      ensures Linked(us, u, v)
    {
      LinkedVia(t, us, u, v);
    }
    CostWithout(t, j);
    assert us[..|us| - 1] == t[..j] + t[j + 1..];
  }

  /** The swap keeps the multiset but for the one triple traded. */
  lemma SwappedMultiset<V>(t: seq<EdgeTriple<V>>, j: nat, e: EdgeTriple<V>)
    requires j < |t|
    ensures multiset(t[..j] + t[j + 1..] + [e]) == multiset(t) - multiset{t[j]} + multiset{e}
  {
    assert t == t[..j] + [t[j]] + t[j + 1..];
  }

  /** The swap keeps the triples entries of the graph when e is one. */
  lemma SwappedEntries<V(!new)>(adj: map<V, seq<WeightedEdge<V>>>, t: seq<EdgeTriple<V>>, j: nat, e: EdgeTriple<V>)
    requires j < |t| && Entries(adj, t)
    requires WeightedEdge(e.target, e.weight) in EdgesOf(adj, e.source)
    ensures Entries(adj, t[..j] + t[j + 1..] + [e])
  {
    var us := t[..j] + t[j + 1..] + [e];
    forall k | 0 <= k < |us|
      ensures WeightedEdge(us[k].target, us[k].weight) in EdgesOf(adj, us[k].source)
    {
      if k < j {
        assert us[k] == t[k];
      } else if k < |us| - 1 {
        assert us[k] == t[k + 1];
      }
    }
  }

  /** The triples of a prefix that stay inside keep a multiset bound when
      a crossing triple is traded for e. */
  lemma KeepsPrefix<V>(done: seq<EdgeTriple<V>>, t: seq<EdgeTriple<V>>, j: nat, e: EdgeTriple<V>, inside: set<V>)
    requires j < |t| && Crosses(t[j], inside) && multiset(done) <= multiset(t)
    requires StaysIn(done, inside)
    ensures multiset(done + [e]) <= multiset(t[..j] + t[j + 1..] + [e])
  {
    SwappedMultiset(t, j, e);
    assert t[j] !in multiset(done);
  }

  /** With entries in both directions, a lightest entry leaving a set is
      no heavier than any entry crossing it, whichever way round. */
  lemma LightAcross<V(!new)>(adj: map<V, seq<WeightedEdge<V>>>, inside: set<V>, w: real, f: EdgeTriple<V>)
    requires CountsSymmetric(adj) && LightCut(adj, inside, w)
    requires WeightedEdge(f.target, f.weight) in EdgesOf(adj, f.source)
    requires Crosses(f, inside)
    ensures w <= f.weight
  {
    if f.source !in inside {
      assert Count(adj, f.source, f.target, f.weight) > 0;
      assert Count(adj, f.target, f.source, f.weight) > 0;
      assert WeightedEdge(f.source, f.weight) in EdgesOf(adj, f.target);
    }
  }

  /** One exchange across a cut: a spanning tree holding the triples
      chosen so far becomes one that also holds e, a lightest entry
      leaving the cut, at no greater cost. */
  lemma CutStep<V(!new)>(adj: map<V, seq<WeightedEdge<V>>>, inside: set<V>, done: seq<EdgeTriple<V>>, e: EdgeTriple<V>,
                          v: seq<EdgeTriple<V>>) returns (u: seq<EdgeTriple<V>>)
    requires CountsSymmetric(adj) && CutChoice(adj, inside, done, e)
    requires SpanningTree(adj, v) && Holds(v, done)
    ensures SpanningTree(adj, u) && Cost(u) <= Cost(v) && Holds(u, done + [e])
  {
    forall m | 0 <= m < |v| && Crosses(v[m], inside)
      ensures e.weight <= v[m].weight
    {
      LightAcross(adj, inside, e.weight, v[m]);
    }
    var j := Exchange(adj.Keys, v, inside, e);
    u := v[..j] + v[j + 1..] + [e];
    SwappedEntries(adj, v, j, e);
    KeepsPrefix(done, v, j, e, inside);
  }

  /** Any spanning tree t can be changed, one exchange per triple of
      tree, into a spanning tree holding all of tree and costing no more
      than t, when each triple of tree was a lightest entry across a cut
      that the triples before it do not cross. */
  lemma Exchanges<V(!new)>(adj: map<V, seq<WeightedEdge<V>>>, cuts: seq<set<V>>, tree: seq<EdgeTriple<V>>,
                           t: seq<EdgeTriple<V>>) returns (u: seq<EdgeTriple<V>>)
    requires CountsSymmetric(adj) && |cuts| == |tree|
    requires forall m :: 0 <= m < |tree| ==> CutChoice(adj, cuts[m], tree[..m], tree[m])
    requires SpanningTree(adj, t)
    ensures SpanningTree(adj, u) && Cost(u) <= Cost(t) && Holds(u, tree)
  {
    u := t;
    var k := 0;
    while k < |tree|
      invariant k <= |tree| && SpanningTree(adj, u) && Cost(u) <= Cost(t) && Holds(u, tree[..k])
    {
      PrefixSnoc(tree, k);
      u := CutStep(adj, cuts[k], tree[..k], tree[k], u);
      k := k + 1;
    }
    assert tree[..k] == tree;
  }

  /** The cut property: a spanning tree whose every triple was a lightest
      entry across a cut the triples before it do not cross is a minimum
      spanning tree, when every entry has a reverse of the same weight. */
  lemma CutsMinimal<V(!new)>(adj: map<V, seq<WeightedEdge<V>>>, cuts: seq<set<V>>, tree: seq<EdgeTriple<V>>)
    requires CountsSymmetric(adj) && |cuts| == |tree|
    requires forall m :: 0 <= m < |tree| ==> CutChoice(adj, cuts[m], tree[..m], tree[m])
    requires SpanningTree(adj, tree)
    ensures MinimumTree(adj, tree)
  {
    forall t | SpanningTree(adj, t)
      ensures Cost(tree) <= Cost(t)
    {
      var u := Exchanges(adj, cuts, tree, t);
      SameSizeSub(tree, u);
      CostPermutation(tree, u);
    }
  }

  /** Two minimum spanning trees of one graph cost the same. */
  lemma MinimumCostsAgree<V(!new)>(adj: map<V, seq<WeightedEdge<V>>>, a: seq<EdgeTriple<V>>, b: seq<EdgeTriple<V>>)
    requires MinimumTree(adj, a) && MinimumTree(adj, b)
    ensures Cost(a) == Cost(b)
  {
  }
}
