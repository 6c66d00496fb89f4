/** The matrices of the Floyd–Warshall algorithm as values: the matrices
    the loading loops leave (Base, BaseNext), one relaxation step and the
    passes of the triple loop built from it (Step, RowSteps, PhaseSteps,
    Phases, AllPairs), and what they promise about routes through Base.

    Matrices are indexed by the position of each vertex in a list of the
    graph's vertices; the Java code takes that list from the graph's key
    set. */
module FloydWarshallMatrix {
  import opened Wrappers
  import opened Frontier
  import opened WeightedGraphs
  import opened Distances
  import opened MatrixRoutes

  /** vertices lists the vertices of the graph, each once. */
  ghost predicate Lists<V(!new)>(vertices: seq<V>, adj: map<V, seq<WeightedEdge<V>>>) {
    Distinct(vertices) && forall v :: v in vertices <==> v in adj
  }

  /** The map "vertexToIndex.put(vertices.get(i), i)" builds: each listed
      vertex to the last position holding it. */
  function Indexed<V(==, !new)>(vs: seq<V>): (index: map<V, int>)
    ensures forall v :: v in index <==> v in vs
    ensures forall v :: v in index ==> 0 <= index[v] < |vs| && vs[index[v]] == v
    ensures forall i :: 0 <= i < |vs| ==> i <= index[vs[i]]
    decreases |vs|
  {
    if |vs| == 0 then map[] else Indexed(vs[..|vs| - 1])[vs[|vs| - 1] := |vs| - 1]
  }

  /** In a list without repetitions the index map inverts the list. */
  lemma IndexOfDistinct<V(!new)>(vs: seq<V>)
    requires Distinct(vs)
    ensures forall i :: 0 <= i < |vs| ==> Indexed(vs)[vs[i]] == i
  {
  }

  /** For a list of the vertices of a closed graph, the index map sends
      the vertex at x back to x, and every target of its entries is a key. */
  lemma ListedAt<V(!new)>(vertices: seq<V>, adj: map<V, seq<WeightedEdge<V>>>, x: int)
    requires Lists(vertices, adj) && Closed(adj) && 0 <= x < |vertices|
    ensures vertices[x] in adj && Indexed(vertices)[vertices[x]] == x
    ensures forall t :: 0 <= t < |adj[vertices[x]]| ==> adj[vertices[x]][t].target in Indexed(vertices)
  {
    IndexOfDistinct(vertices);
    var u := vertices[x];
    forall t | 0 <= t < |adj[u]|
      ensures adj[u][t].target in Indexed(vertices)
    {
      assert adj[u][t] in adj[u];
    }
  }

  /** The weight of the last entry to v in es: the one whose write to the
      matrix no later entry overwrites (LastWeightLast). */
  function LastWeight<V(==)>(es: seq<WeightedEdge<V>>, v: V): Option<real>
    decreases |es|
  {
    if |es| == 0 then None
    else if es[|es| - 1].target == v then Some(es[|es| - 1].weight)
    else LastWeight(es[..|es| - 1], v)
  }

  /** LastWeight finds nothing exactly when no entry leads to v, and
      otherwise the weight of an entry to v after which none leads to v. */
  lemma {:induction false} LastWeightLast<V>(es: seq<WeightedEdge<V>>, v: V)
    ensures LastWeight(es, v).None? <==> forall t :: 0 <= t < |es| ==> es[t].target != v
    ensures LastWeight(es, v).Some? ==> exists t :: 0 <= t < |es| && es[t] == WeightedEdge(v, LastWeight(es, v).value) &&
                                          forall u :: t < u < |es| ==> es[u].target != v
    decreases |es|
  {
    if |es| > 0 && es[|es| - 1].target != v {
      var init := es[..|es| - 1];
      LastWeightLast(init, v);
      if LastWeight(init, v).Some? {
        var t :| 0 <= t < |init| && init[t] == WeightedEdge(v, LastWeight(init, v).value) &&
                 forall u :: t < u < |init| ==> init[u].target != v;
        assert es[t] == init[t];
      }
    }
  }

  /** The matrix entry for an origin with entries es and a target v: the
      last entry's weight, zero on the diagonal, infinity otherwise. */
  function Loaded<V(==)>(es: seq<WeightedEdge<V>>, v: V, diagonal: bool): Dist {
    match LastWeight(es, v)
    case Some(w) => Finite(w)
    case None => if diagonal then Finite(0.0) else Infinite
  }

  /** The next-hop entry the loading loop leaves: the target's own index
      when some entry leads there, -1 otherwise. */
  function LoadedHop<V(==)>(es: seq<WeightedEdge<V>>, v: V, y: int): int {
    if LastWeight(es, v).Some? then y else -1
  }

  /** The distance matrix once the entries are loaded. */
  function Base<V(==)>(adj: map<V, seq<WeightedEdge<V>>>, vertices: seq<V>): (m: Matrix)
    ensures |m| == |vertices| && forall i :: 0 <= i < |m| ==> |m[i]| == |vertices|
  {
    seq(|vertices|, i requires 0 <= i < |vertices| =>
      seq(|vertices|, j requires 0 <= j < |vertices| => Loaded(EdgesOf(adj, vertices[i]), vertices[j], i == j)))
  }

  /** The next matrix once the entries are loaded. */
  function BaseNext<V(==)>(adj: map<V, seq<WeightedEdge<V>>>, vertices: seq<V>): (m: seq<seq<int>>)
    ensures |m| == |vertices| && forall i :: 0 <= i < |m| ==> |m[i]| == |vertices|
  {
    seq(|vertices|, i requires 0 <= i < |vertices| =>
      seq(|vertices|, j requires 0 <= j < |vertices| => LoadedHop(EdgesOf(adj, vertices[i]), vertices[j], j)))
  }

  /** One entry of Base and of BaseNext. */
  lemma BaseAt<V>(adj: map<V, seq<WeightedEdge<V>>>, vertices: seq<V>, i: int, j: int)
    requires 0 <= i < |vertices| && 0 <= j < |vertices|
    ensures Base(adj, vertices)[i][j] == Loaded(EdgesOf(adj, vertices[i]), vertices[j], i == j)
    ensures BaseNext(adj, vertices)[i][j] == LoadedHop(EdgesOf(adj, vertices[i]), vertices[j], j)
  {
  }

  /** An entry of Base is finite exactly on the diagonal and where an entry
      of the adjacency map leads, and then it is that entry's weight or,
      on the diagonal with no such entry, zero. */
  lemma BaseEntries<V(!new)>(adj: map<V, seq<WeightedEdge<V>>>, vertices: seq<V>, i: int, j: int)
    requires 0 <= i < |vertices| && 0 <= j < |vertices|
    ensures Base(adj, vertices)[i][j].Finite? <==> i == j || exists w :: WeightedEdge(vertices[j], w) in EdgesOf(adj, vertices[i])
    ensures Base(adj, vertices)[i][j].Finite? ==>
              WeightedEdge(vertices[j], Base(adj, vertices)[i][j].value) in EdgesOf(adj, vertices[i]) ||
              (i == j && Base(adj, vertices)[i][j] == Finite(0.0))
  {
    var es := EdgesOf(adj, vertices[i]);
    BaseAt(adj, vertices, i, j);
    LastWeightLast(es, vertices[j]);
    if exists w :: WeightedEdge(vertices[j], w) in es {
      var w :| WeightedEdge(vertices[j], w) in es;
      var t :| 0 <= t < |es| && es[t] == WeightedEdge(vertices[j], w);
      assert es[t].target == vertices[j];
    }
  }

  /** Some entry of vertices[a]'s list leads to vertices[b]. */
  ghost predicate Hop<V(!new)>(adj: map<V, seq<WeightedEdge<V>>>, vertices: seq<V>, a: int, b: int) {
    0 <= a < |vertices| && 0 <= b < |vertices| && LastWeight(EdgesOf(adj, vertices[a]), vertices[b]).Some?
  }

  /** One more entry changes the loaded entry for its own target only. */
  lemma {:induction false} LoadedStep<V>(es: seq<WeightedEdge<V>>, t: int, v: V, diagonal: bool, y: int)
    requires 0 <= t < |es|
    ensures Loaded(es[..t + 1], v, diagonal) == if es[t].target == v then Finite(es[t].weight) else Loaded(es[..t], v, diagonal)
    ensures LoadedHop(es[..t + 1], v, y) == if es[t].target == v then y else LoadedHop(es[..t], v, y)
  {
    assert es[..t + 1][..t] == es[..t];
  }

  /** p is a route from x to y through Base of weight d whose second index
      is h, unless h is -1. */
  ghost predicate Witness(base: Matrix, n: int, x: int, y: int, d: Dist, h: int, p: seq<int>) {
    Route(p, n, x, y) && Weight(base, p) == d && (h != -1 ==> p[1] == h)
  }

  /** The bound on interior indices for the pair (x, y) once phase k has
      passed the pairs before (i, j). */
  function Level(k: int, i: int, j: int, x: int, y: int): int {
    if x < i || (x == i && y < j) then k + 1 else k
  }

  /** A hop of -1 goes with an infinite distance or with zero on the
      diagonal; any other hop is the index of a vertex an entry of the
      origin's list leads to, and its distance is finite. */
  ghost predicate HopOf<V(!new)>(adj: map<V, seq<WeightedEdge<V>>>, vertices: seq<V>, x: int, y: int, d: Dist, h: int) {
    if h == -1 then d == Infinite || (x == y && d == Finite(0.0))
    else Hop(adj, vertices, x, h) && d.Finite?
  }

  /** A route to k followed by a route from k is a route, starting with the
      first one's steps. */
  lemma {:induction false} RouteJoin(n: int, p: seq<int>, q: seq<int>, i: int, k: int, j: int)
    requires Route(p, n, i, k) && Route(q, n, k, j)
    ensures Route(p + q[1..], n, i, j) && (p + q[1..])[1] == p[1]
  {
    var r := p + q[1..];
    forall t | 0 <= t < |r|
      ensures 0 <= r[t] < n
    {
      if t >= |p| {
        assert r[t] == q[t - |p| + 1];
      }
    }
  }

  /** A witness to k followed by a witness from k witnesses their sum,
      with the first one's hop. */
  lemma JoinWitness(base: Matrix, n: int, i: int, k: int, j: int, dik: Dist, dkj: Dist, nik: int, nkj: int, p: seq<int>, q: seq<int>)
    requires Witness(base, n, i, k, dik, nik, p) && Witness(base, n, k, j, dkj, nkj, q) && nik != -1
    ensures Witness(base, n, i, j, Add(dik, dkj), nik, p + q[1..])
  {
    RouteJoin(n, p, q, i, k, j);
    WeightConcat(base, p, q);
  }


  /** m is an n by n matrix. */
  ghost predicate Square<T>(m: seq<seq<T>>, n: int) {
    |m| == n && forall x :: 0 <= x < n ==> |m[x]| == n
  }

  /** A distance matrix and a next matrix of the same size. */
  ghost predicate Shaped(dist: Matrix, next: seq<seq<int>>) {
    Square(dist, |dist|) && Square(next, |dist|)
  }

  /** m with the entry at (i, j) replaced by v. */
  ghost function Put<T>(m: seq<seq<T>>, i: int, j: int, v: T): seq<seq<T>>
    requires 0 <= i < |m| && 0 <= j < |m[i]|
  {
    m[i := m[i][j := v]]
  }

  /** The body of the triple loop for the pair (i, j) in phase k: when the
      way through k is shorter it becomes the distance and the hop towards
      k becomes the pair's hop. */
  ghost function Step(dist: Matrix, next: seq<seq<int>>, k: int, i: int, j: int): (r: (Matrix, seq<seq<int>>))
    requires Shaped(dist, next) && 0 <= k < |dist| && 0 <= i < |dist| && 0 <= j < |dist|
    ensures Shaped(r.0, r.1) && |r.0| == |dist|
  {
    if Below(Add(dist[i][k], dist[k][j]), dist[i][j])
    then (Put(dist, i, j, Add(dist[i][k], dist[k][j])), Put(next, i, j, next[i][k]))
    else (dist, next)
  }

  /** The innermost loop of phase k for row i, up to column j. */
  ghost function RowSteps(dist: Matrix, next: seq<seq<int>>, k: int, i: int, j: int): (r: (Matrix, seq<seq<int>>))
    requires Shaped(dist, next) && 0 <= k < |dist| && 0 <= i < |dist| && 0 <= j <= |dist|
    ensures Shaped(r.0, r.1) && |r.0| == |dist|
    decreases j
  {
    if j == 0 then (dist, next)
    else
      var r := RowSteps(dist, next, k, i, j - 1);
      Step(r.0, r.1, k, i, j - 1)
  }

  /** Phase k up to row i. */
  ghost function PhaseSteps(dist: Matrix, next: seq<seq<int>>, k: int, i: int): (r: (Matrix, seq<seq<int>>))
    requires Shaped(dist, next) && 0 <= k < |dist| && 0 <= i <= |dist|
    ensures Shaped(r.0, r.1) && |r.0| == |dist|
    decreases i
  {
    if i == 0 then (dist, next)
    else
      var r := PhaseSteps(dist, next, k, i - 1);
      RowSteps(r.0, r.1, k, i - 1, |dist|)
  }

  /** The phases before k. */
  ghost function Phases(dist: Matrix, next: seq<seq<int>>, k: int): (r: (Matrix, seq<seq<int>>))
    requires Shaped(dist, next) && 0 <= k <= |dist|
    ensures Shaped(r.0, r.1) && |r.0| == |dist|
    decreases k
  {
    if k == 0 then (dist, next)
    else
      var r := Phases(dist, next, k - 1);
      PhaseSteps(r.0, r.1, k - 1, |dist|)
  }

  /** The whole triple loop. */
  ghost function AllPairs(dist: Matrix, next: seq<seq<int>>): (r: (Matrix, seq<seq<int>>))
    requires Shaped(dist, next)
    ensures Shaped(r.0, r.1) && |r.0| == |dist|
  {
    Phases(dist, next, |dist|)
  }

  /** Every finite distance has a witness route through base. */
  ghost predicate Witnessed(base: Matrix, dist: Matrix, next: seq<seq<int>>) {
    && Shaped(dist, next)
    && forall x, y :: 0 <= x < |dist| && 0 <= y < |dist| && dist[x][y].Finite? ==>
         exists p :: Witness(base, |dist|, x, y, dist[x][y], next[x][y], p)
  }

  /** Phase k has passed the pairs before (i, j) in row order: their
      distances bound the simple routes through indices below k + 1, the
      other distances those through indices below k. */
  ghost predicate BoundedFrom(base: Matrix, dist: Matrix, k: int, i: int, j: int) {
    && Square(dist, |dist|)
    && forall x, y :: 0 <= x < |dist| && 0 <= y < |dist| ==> Bounded(base, |dist|, x, y, Level(k, i, j, x, y), dist[x][y])
  }

  /** Every pair's hop and distance agree as HopOf says. */
  ghost predicate Hops<V(!new)>(adj: map<V, seq<WeightedEdge<V>>>, vertices: seq<V>, dist: Matrix, next: seq<seq<int>>) {
    && Shaped(dist, next) && |dist| == |vertices|
    && forall x, y :: 0 <= x < |dist| && 0 <= y < |dist| ==> HopOf(adj, vertices, x, y, dist[x][y], next[x][y])
  }

  /** What the triple loop keeps from the pair (i, j) of phase k on. */
  ghost predicate Invariant<V(!new)>(adj: map<V, seq<WeightedEdge<V>>>, vertices: seq<V>, dist: Matrix, next: seq<seq<int>>,
                                     k: int, i: int, j: int) {
    && Witnessed(Base(adj, vertices), dist, next)
    && BoundedFrom(Base(adj, vertices), dist, k, i, j)
    && Hops(adj, vertices, dist, next)
  }

  /** A step keeps every finite distance witnessed. */
  lemma StepWitnessed(base: Matrix, dist: Matrix, next: seq<seq<int>>, k: int, i: int, j: int)
    requires Witnessed(base, dist, next) && 0 <= k < |dist| && 0 <= i < |dist| && 0 <= j < |dist|
    requires next[i][k] == -1 ==> dist[i][k] == Infinite || (i == k && dist[i][k] == Finite(0.0))
    ensures Witnessed(base, Step(dist, next, k, i, j).0, Step(dist, next, k, i, j).1)
  {
    var n := |dist|;
    var r := Step(dist, next, k, i, j);
    if Below(Add(dist[i][k], dist[k][j]), dist[i][j]) {
      assert next[i][k] != -1;
      var p :| Witness(base, n, i, k, dist[i][k], next[i][k], p);
      var q :| Witness(base, n, k, j, dist[k][j], next[k][j], q);
      JoinWitness(base, n, i, k, j, dist[i][k], dist[k][j], next[i][k], next[k][j], p, q);
      forall x, y | 0 <= x < n && 0 <= y < n && r.0[x][y].Finite?
        ensures exists p :: Witness(base, n, x, y, r.0[x][y], r.1[x][y], p)
      {
        if x == i && y == j {
          assert Witness(base, n, x, y, r.0[x][y], r.1[x][y], p + q[1..]);
        } else {
          assert r.0[x][y] == dist[x][y] && r.1[x][y] == next[x][y];
        }
      }
    }
  }

  /** A step moves the bounds on by one pair. */
  lemma StepBounded(base: Matrix, dist: Matrix, next: seq<seq<int>>, k: int, i: int, j: int)
    requires Shaped(dist, next) && BoundedFrom(base, dist, k, i, j) && 0 <= k < |dist| && 0 <= i < |dist| && 0 <= j < |dist|
    ensures BoundedFrom(base, Step(dist, next, k, i, j).0, k, i, j + 1)
  {
    var n := |dist|;
    var r := Step(dist, next, k, i, j);
    assert Bounded(base, n, i, j, Level(k, i, j, i, j), dist[i][j]);
    assert Bounded(base, n, i, k, Level(k, i, j, i, k), dist[i][k]);
    assert Bounded(base, n, k, j, Level(k, i, j, k, j), dist[k][j]);
    BoundedWeaker(base, n, i, k, Level(k, i, j, i, k), dist[i][k], k, dist[i][k]);
    BoundedWeaker(base, n, k, j, Level(k, i, j, k, j), dist[k][j], k, dist[k][j]);
    RelaxBounded(base, n, i, j, k, dist[i][j], dist[i][k], dist[k][j]);
    forall x, y | 0 <= x < n && 0 <= y < n
      ensures Bounded(base, n, x, y, Level(k, i, j + 1, x, y), r.0[x][y])
    {
      if x != i || y != j {
        assert r.0[x][y] == dist[x][y] && Level(k, i, j + 1, x, y) == Level(k, i, j, x, y);
      }
    }
  }

  /** A step keeps every hop an entry of the graph. */
  lemma StepHops<V(!new)>(adj: map<V, seq<WeightedEdge<V>>>, vertices: seq<V>, dist: Matrix, next: seq<seq<int>>, k: int, i: int, j: int)
    requires Hops(adj, vertices, dist, next) && 0 <= k < |dist| && 0 <= i < |dist| && 0 <= j < |dist|
    ensures Hops(adj, vertices, Step(dist, next, k, i, j).0, Step(dist, next, k, i, j).1)
  {
    var n := |dist|;
    var r := Step(dist, next, k, i, j);
    assert HopOf(adj, vertices, i, k, dist[i][k], next[i][k]);
    forall x, y | 0 <= x < n && 0 <= y < n
      ensures HopOf(adj, vertices, x, y, r.0[x][y], r.1[x][y])
    {
      if x != i || y != j {
        assert r.0[x][y] == dist[x][y] && r.1[x][y] == next[x][y];
        assert HopOf(adj, vertices, x, y, dist[x][y], next[x][y]);
      } else if Below(Add(dist[i][k], dist[k][j]), dist[i][j]) {
        assert next[i][k] != -1;
      } else {
        assert HopOf(adj, vertices, x, y, dist[x][y], next[x][y]);
      }
    }
  }

  /** A step keeps the invariant, one pair further on. */
  lemma StepKeeps<V(!new)>(adj: map<V, seq<WeightedEdge<V>>>, vertices: seq<V>, dist: Matrix, next: seq<seq<int>>, k: int, i: int, j: int)
    requires Invariant(adj, vertices, dist, next, k, i, j) == true && 0 <= k < |dist| && 0 <= i < |dist| && 0 <= j < |dist|
    ensures Invariant(adj, vertices, Step(dist, next, k, i, j).0, Step(dist, next, k, i, j).1, k, i, j + 1)
  {
    assert HopOf(adj, vertices, i, k, dist[i][k], next[i][k]);
    StepWitnessed(Base(adj, vertices), dist, next, k, i, j);
    StepBounded(Base(adj, vertices), dist, next, k, i, j);
    StepHops(adj, vertices, dist, next, k, i, j);
  }

  /** Bounds stated for one position of the loops hold for another that
      gives every pair the same level. */
  lemma BoundedFromMoved(base: Matrix, dist: Matrix, k: int, i: int, j: int, k': int, i': int, j': int)
    requires BoundedFrom(base, dist, k, i, j)
    requires forall x, y :: 0 <= x < |dist| && 0 <= y < |dist| ==> Level(k, i, j, x, y) == Level(k', i', j', x, y)
    ensures BoundedFrom(base, dist, k', i', j')
  {
    forall x, y | 0 <= x < |dist| && 0 <= y < |dist|
      ensures Bounded(base, |dist|, x, y, Level(k', i', j', x, y), dist[x][y])
    {
      assert Level(k, i, j, x, y) == Level(k', i', j', x, y);
    }
  }

  /** Bounds at the end of row i are the bounds at the start of row i + 1. */
  lemma RowDone(base: Matrix, dist: Matrix, k: int, i: int)
    requires BoundedFrom(base, dist, k, i, |dist|)
    ensures BoundedFrom(base, dist, k, i + 1, 0)
  {
    BoundedFromMoved(base, dist, k, i, |dist|, k, i + 1, 0);
  }

  /** Bounds at the end of phase k are the bounds at the start of phase k + 1. */
  lemma PhaseDone(base: Matrix, dist: Matrix, k: int)
    requires BoundedFrom(base, dist, k, |dist|, 0)
    ensures BoundedFrom(base, dist, k + 1, 0, 0)
  {
    BoundedFromMoved(base, dist, k, |dist|, 0, k + 1, 0, 0);
  }

  /** The innermost loop keeps the invariant; at its end row i is done. */
  lemma {:induction false} RowKeeps<V(!new)>(adj: map<V, seq<WeightedEdge<V>>>, vertices: seq<V>, dist: Matrix, next: seq<seq<int>>,
                                              k: int, i: int, j: int)
    requires Invariant(adj, vertices, dist, next, k, i, 0) == true && 0 <= k < |dist| && 0 <= i < |dist| && 0 <= j <= |dist|
    ensures Invariant(adj, vertices, RowSteps(dist, next, k, i, j).0, RowSteps(dist, next, k, i, j).1, k, i, j) == true
    decreases j
  {
    if j > 0 {
      RowKeeps(adj, vertices, dist, next, k, i, j - 1);
      RowStepKeeps(adj, vertices, dist, next, k, i, j - 1);
    } else {
      assert RowSteps(dist, next, k, i, j) == (dist, next);
    }
  }

  /** One more pass of the innermost loop keeps the invariant. */
  lemma RowStepKeeps<V(!new)>(adj: map<V, seq<WeightedEdge<V>>>, vertices: seq<V>, dist: Matrix, next: seq<seq<int>>,
                              k: int, i: int, j: int)
    requires Shaped(dist, next) && 0 <= k < |dist| && 0 <= i < |dist| && 0 <= j < |dist|
    requires Invariant(adj, vertices, RowSteps(dist, next, k, i, j).0, RowSteps(dist, next, k, i, j).1, k, i, j) == true
    ensures Invariant(adj, vertices, RowSteps(dist, next, k, i, j + 1).0, RowSteps(dist, next, k, i, j + 1).1, k, i, j + 1) == true
  {
    var r := RowSteps(dist, next, k, i, j);
    StepKeeps(adj, vertices, r.0, r.1, k, i, j);
    assert RowSteps(dist, next, k, i, j + 1) == Step(r.0, r.1, k, i, j);
  }

  /** The loop over rows keeps the invariant. */
  lemma {:induction false} PhaseKeeps<V(!new)>(adj: map<V, seq<WeightedEdge<V>>>, vertices: seq<V>, dist: Matrix, next: seq<seq<int>>,
                                                k: int, i: int)
    requires Invariant(adj, vertices, dist, next, k, 0, 0) == true && 0 <= k < |dist| && 0 <= i <= |dist|
    ensures Invariant(adj, vertices, PhaseSteps(dist, next, k, i).0, PhaseSteps(dist, next, k, i).1, k, i, 0) == true
    decreases i
  {
    if i > 0 {
      PhaseKeeps(adj, vertices, dist, next, k, i - 1);
      PhaseStepKeeps(adj, vertices, dist, next, k, i - 1);
    } else {
      assert PhaseSteps(dist, next, k, i) == (dist, next);
    }
  }

  /** One more row keeps the invariant. */
  lemma PhaseStepKeeps<V(!new)>(adj: map<V, seq<WeightedEdge<V>>>, vertices: seq<V>, dist: Matrix, next: seq<seq<int>>,
                                k: int, i: int)
    requires Shaped(dist, next) && 0 <= k < |dist| && 0 <= i < |dist|
    requires Invariant(adj, vertices, PhaseSteps(dist, next, k, i).0, PhaseSteps(dist, next, k, i).1, k, i, 0) == true
    ensures Invariant(adj, vertices, PhaseSteps(dist, next, k, i + 1).0, PhaseSteps(dist, next, k, i + 1).1, k, i + 1, 0) == true
  {
    var r := PhaseSteps(dist, next, k, i);
    RowKeeps(adj, vertices, r.0, r.1, k, i, |dist|);
    var s := RowSteps(r.0, r.1, k, i, |dist|);
    RowDone(Base(adj, vertices), s.0, k, i);
    assert PhaseSteps(dist, next, k, i + 1) == s;
  }

  /** The loop over phases keeps the invariant. */
  lemma {:induction false} PhasesKeep<V(!new)>(adj: map<V, seq<WeightedEdge<V>>>, vertices: seq<V>, dist: Matrix, next: seq<seq<int>>, k: int)
    requires Invariant(adj, vertices, dist, next, 0, 0, 0) == true && 0 <= k <= |dist|
    ensures Invariant(adj, vertices, Phases(dist, next, k).0, Phases(dist, next, k).1, k, 0, 0) == true
    decreases k
  {
    if k > 0 {
      PhasesKeep(adj, vertices, dist, next, k - 1);
      PhasesStepKeeps(adj, vertices, dist, next, k - 1);
    } else {
      assert Phases(dist, next, k) == (dist, next);
    }
  }

  /** One more phase keeps the invariant. */
  lemma PhasesStepKeeps<V(!new)>(adj: map<V, seq<WeightedEdge<V>>>, vertices: seq<V>, dist: Matrix, next: seq<seq<int>>, k: int)
    requires Shaped(dist, next) && 0 <= k < |dist|
    requires Invariant(adj, vertices, Phases(dist, next, k).0, Phases(dist, next, k).1, k, 0, 0) == true
    ensures Invariant(adj, vertices, Phases(dist, next, k + 1).0, Phases(dist, next, k + 1).1, k + 1, 0, 0) == true
  {
    var r := Phases(dist, next, k);
    PhaseKeeps(adj, vertices, r.0, r.1, k, |dist|);
    var s := PhaseSteps(r.0, r.1, k, |dist|);
    PhaseDone(Base(adj, vertices), s.0, k);
    assert Phases(dist, next, k + 1) == s;
  }

  /** The loaded matrices satisfy the invariant before the first phase:
      each pair's one-step route witnesses its entry and bounds the routes
      with no interior index. */
  lemma Start<V(!new)>(adj: map<V, seq<WeightedEdge<V>>>, vertices: seq<V>)
    ensures Invariant(adj, vertices, Base(adj, vertices), BaseNext(adj, vertices), 0, 0, 0)
  {
    var base: Matrix, hops: seq<seq<int>> := Base(adj, vertices), BaseNext(adj, vertices);
    var n := |vertices|;
    forall x, y | 0 <= x < n && 0 <= y < n
      ensures base[x][y].Finite? ==> Witness(base, n, x, y, base[x][y], hops[x][y], [x, y])
      ensures Bounded(base, n, x, y, Level(0, 0, 0, x, y), base[x][y])
      ensures HopOf(adj, vertices, x, y, base[x][y], hops[x][y])
    {
      BaseAt(adj, vertices, x, y);
      BoundedStart(base, n, x, y);
      assert [x, y][1..] == [y];
    }
  }

  /** The distances and hops findAllPairsShortestPaths returns. */
  ghost function Final<V(!new)>(adj: map<V, seq<WeightedEdge<V>>>, vertices: seq<V>): (r: (Matrix, seq<seq<int>>))
    ensures Shaped(r.0, r.1) && |r.0| == |vertices|
  {
    AllPairs(Base(adj, vertices), BaseNext(adj, vertices))
  }

  /** After the last phase the invariant bounds the routes through every
      index. */
  lemma Finished<V(!new)>(adj: map<V, seq<WeightedEdge<V>>>, vertices: seq<V>)
    ensures Invariant(adj, vertices, Final(adj, vertices).0, Final(adj, vertices).1, |vertices|, 0, 0)
  {
    Start(adj, vertices);
    PhasesKeep(adj, vertices, Base(adj, vertices), BaseNext(adj, vertices), |vertices|);
  }

  /** Every finite distance is the weight through Base of a route between
      the pair that starts with the pair's hop. */
  lemma FinalWitnessed<V(!new)>(adj: map<V, seq<WeightedEdge<V>>>, vertices: seq<V>, x: int, y: int)
    requires 0 <= x < |vertices| && 0 <= y < |vertices| && Final(adj, vertices).0[x][y].Finite?
    ensures exists p :: Route(p, |vertices|, x, y) && Weight(Base(adj, vertices), p) == Final(adj, vertices).0[x][y] &&
                        (Final(adj, vertices).1[x][y] != -1 ==> p[1] == Final(adj, vertices).1[x][y])
  {
    Finished(adj, vertices);
    var p :| Witness(Base(adj, vertices), |vertices|, x, y, Final(adj, vertices).0[x][y], Final(adj, vertices).1[x][y], p);
  }

  /** No simple route between a pair weighs less than its distance, even
      when some cycle weighs less than zero. */
  lemma FinalSimpleLeast<V(!new)>(adj: map<V, seq<WeightedEdge<V>>>, vertices: seq<V>, x: int, y: int, p: seq<int>)
    requires Route(p, |vertices|, x, y) && Simple(p)
    ensures NotAbove(Final(adj, vertices).0[x][y], Weight(Base(adj, vertices), p))
  {
    Finished(adj, vertices);
    assert Bounded(Base(adj, vertices), |vertices|, x, y, Level(|vertices|, 0, 0, x, y), Final(adj, vertices).0[x][y]);
    assert InteriorBelow(p, |vertices|);
  }

  /** A distance is finite exactly when some route between the pair has a
      finite weight. */
  lemma FinalFinite<V(!new)>(adj: map<V, seq<WeightedEdge<V>>>, vertices: seq<V>, x: int, y: int)
    requires 0 <= x < |vertices| && 0 <= y < |vertices|
    ensures Final(adj, vertices).0[x][y].Finite? <==> exists p :: Route(p, |vertices|, x, y) && Weight(Base(adj, vertices), p).Finite?
  {
    var base, d := Base(adj, vertices), Final(adj, vertices).0[x][y];
    if d.Finite? {
      FinalWitnessed(adj, vertices, x, y);
    }
    if p :| Route(p, |vertices|, x, y) && Weight(base, p).Finite? {
      SimpleFinite(base, |vertices|, p, x, y);
      var q :| Route(q, |vertices|, x, y) && Simple(q) && Weight(base, q).Finite?;
      FinalSimpleLeast(adj, vertices, x, y, q);
    }
  }

  /** With no cycle of negative weight no route between a pair weighs less
      than its distance: the distance is the least weight of a route. */
  lemma FinalLeast<V(!new)>(adj: map<V, seq<WeightedEdge<V>>>, vertices: seq<V>, x: int, y: int, p: seq<int>)
    requires NoNegativeCycle(Base(adj, vertices), |vertices|) && Route(p, |vertices|, x, y)
    ensures NotAbove(Final(adj, vertices).0[x][y], Weight(Base(adj, vertices), p))
  {
    Finished(adj, vertices);
    assert Bounded(Base(adj, vertices), |vertices|, x, y, Level(|vertices|, 0, 0, x, y), Final(adj, vertices).0[x][y]);
    BoundedAll(Base(adj, vertices), |vertices|, x, y, Final(adj, vertices).0[x][y]);
  }

  /** Off the diagonal a pair has a hop exactly when its distance is
      finite; the hop is a vertex an entry of the origin's list leads to,
      and from it the destination is the hop itself or at a finite
      distance. */
  lemma FinalHop<V(!new)>(adj: map<V, seq<WeightedEdge<V>>>, vertices: seq<V>, x: int, y: int)
    requires 0 <= x < |vertices| && 0 <= y < |vertices| && x != y
    ensures Final(adj, vertices).1[x][y] != -1 <==> Final(adj, vertices).0[x][y].Finite?
    ensures Final(adj, vertices).1[x][y] != -1 ==>
              var h := Final(adj, vertices).1[x][y];
              Hop(adj, vertices, x, h) && (h == y || Final(adj, vertices).0[h][y].Finite?)
  {
    Finished(adj, vertices);
    var base, d, h := Base(adj, vertices), Final(adj, vertices).0, Final(adj, vertices).1[x][y];
    assert HopOf(adj, vertices, x, y, d[x][y], h);
    if h != -1 && h != y {
      FinalWitnessed(adj, vertices, x, y);
      var p :| Route(p, |vertices|, x, y) && Weight(base, p) == d[x][y] && p[1] == h;
      assert Weight(base, p) == Add(Entry(base, x, h), Weight(base, p[1..]));
      var q := p[1..];
      assert Route(q, |vertices|, h, y) by {
        assert |p| > 2 && q[|q| - 1] == p[|p| - 1];
        forall t | 0 <= t < |q|
          ensures 0 <= q[t] < |vertices|
        {
          assert q[t] == p[t + 1];
        }
      }
      FinalFinite(adj, vertices, h, y);
    }
  }

  /** Some diagonal distance is negative exactly when some route back to
      its start weighs less than zero through Base. */
  lemma NegativeCycleDiagonal<V(!new)>(adj: map<V, seq<WeightedEdge<V>>>, vertices: seq<V>)
    ensures (exists x :: 0 <= x < |vertices| && Negative(Final(adj, vertices).0[x][x])) <==>
            !NoNegativeCycle(Base(adj, vertices), |vertices|)
  {
    var base, d := Base(adj, vertices), Final(adj, vertices).0;
    if x :| 0 <= x < |vertices| && Negative(d[x][x]) {
      FinalWitnessed(adj, vertices, x, x);
    }
    if !NoNegativeCycle(base, |vertices|) {
      var p, i :| Route(p, |vertices|, i, i) && Negative(Weight(base, p));
      SimpleNegativeCycle(base, |vertices|, p, i);
      var q, x :| Route(q, |vertices|, x, x) && Simple(q) && Negative(Weight(base, q));
      FinalSimpleLeast(adj, vertices, x, x, q);
      assert Negative(d[x][x]);
    }
  }

  /** The array a holds the square matrix m. */
  ghost predicate Mirrors<T>(a: array2<T>, m: seq<seq<T>>)
    reads a
  {
    && Square(m, |m|) && a.Length0 == |m| && a.Length1 == |m|
    && forall x, y :: 0 <= x < |m| && 0 <= y < |m| ==> a[x, y] == m[x][y]
  }

  /** hops[t + 1] is the hop next holds for hops[t] towards e, for every
      index of hops but the last, none of which is e. */
  ghost predicate Follows(next: array2<int>, hops: seq<int>, e: int)
    reads next
  {
    && 0 <= e < next.Length1
    && forall t :: 0 <= t < |hops| - 1 ==> 0 <= hops[t] < next.Length0 && hops[t] != e && hops[t + 1] == next[hops[t], e]
  }

  /** Following the hops the triple loop leaves from a vertex at a finite
      distance from e stays among the vertices, each step from one to the
      next along an entry of the graph, at a finite distance from e until e
      itself. */
  lemma {:induction false} FinalFollows<V(!new)>(adj: map<V, seq<WeightedEdge<V>>>, vertices: seq<V>, next: array2<int>, hops: seq<int>, e: int)
    requires Mirrors(next, Final(adj, vertices).1) && Follows(next, hops, e)
    requires |hops| >= 1 && 0 <= hops[0] < |vertices| && (hops[0] == e || Final(adj, vertices).0[hops[0]][e].Finite?)
    ensures forall t :: 0 <= t < |hops| ==> 0 <= hops[t] < |vertices| && (hops[t] == e || Final(adj, vertices).0[hops[t]][e].Finite?)
    ensures forall t :: 0 <= t < |hops| - 1 ==> Hop(adj, vertices, hops[t], hops[t + 1])
    decreases |hops|
  {
    if |hops| > 1 {
      var init := hops[..|hops| - 1];
      assert Follows(next, init, e) by {
        forall t | 0 <= t < |init| - 1
          ensures 0 <= init[t] < next.Length0 && init[t] != e && init[t + 1] == next[init[t], e]
        {
          assert init[t] == hops[t] && init[t + 1] == hops[t + 1];
        }
      }
      FinalFollows(adj, vertices, next, init, e);
      var m := |hops| - 2;
      assert hops[m] == init[m];
      FinalHop(adj, vertices, hops[m], e);
      forall t | 0 <= t < |hops|
        ensures 0 <= hops[t] < |vertices| && (hops[t] == e || Final(adj, vertices).0[hops[t]][e].Finite?)
      {
        if t < |init| {
          assert hops[t] == init[t];
        }
      }
      forall t | 0 <= t < |hops| - 1
        ensures Hop(adj, vertices, hops[t], hops[t + 1])
      {
        if t < m {
          assert hops[t] == init[t] && hops[t + 1] == init[t + 1];
        }
      }
    }
  }

  /** path holds the vertices at the indices hops, one for one. */
  ghost predicate Visits<V>(vertices: seq<V>, hops: seq<int>, path: seq<V>) {
    |path| == |hops| && forall t :: 0 <= t < |hops| ==> 0 <= hops[t] < |vertices| && path[t] == vertices[hops[t]]
  }

  /** One more hop keeps the hops following next. */
  lemma FollowsStep(next: array2<int>, hops: seq<int>, e: int)
    requires Follows(next, hops, e) && |hops| >= 1
    requires 0 <= hops[|hops| - 1] < next.Length0 && hops[|hops| - 1] != e
    ensures Follows(next, hops + [next[hops[|hops| - 1], e]], e)
  {
    var h := hops + [next[hops[|hops| - 1], e]];
    forall t | 0 <= t < |h| - 1
      ensures 0 <= h[t] < next.Length0 && h[t] != e && h[t + 1] == next[h[t], e]
    {
      assert h[t] == hops[t];
    }
  }

  /** One more index and its vertex keep the path matching the hops. */
  lemma VisitsStep<V>(vertices: seq<V>, hops: seq<int>, path: seq<V>, x: int)
    requires Visits(vertices, hops, path) && 0 <= x < |vertices|
    ensures Visits(vertices, hops + [x], path + [vertices[x]])
  {
  }

  /** A hop of the loaded entries is the target of an entry. */
  lemma HopEntry<V(!new)>(adj: map<V, seq<WeightedEdge<V>>>, vertices: seq<V>, a: int, b: int)
    requires Hop(adj, vertices, a, b)
    ensures exists w :: WeightedEdge(vertices[b], w) in EdgesOf(adj, vertices[a])
  {
    var es := EdgesOf(adj, vertices[a]);
    LastWeightLast(es, vertices[b]);
    var t :| 0 <= t < |es| && es[t] == WeightedEdge(vertices[b], LastWeight(es, vertices[b]).value);
  }

  /** Some entry of u's list leads to v. */
  ghost predicate Joined<V(!new)>(adj: map<V, seq<WeightedEdge<V>>>, u: V, v: V) {
    exists w :: WeightedEdge(v, w) in EdgesOf(adj, u)
  }

  /** Following the hops the triple loop leaves from an index with a hop
      towards e (or from e itself) meets only indices of vertices, each
      joined to the next by an entry of the graph: reconstructPath then
      cannot throw for an index and its path is a walk of the graph. */
  lemma FinalWalk<V(!new)>(adj: map<V, seq<WeightedEdge<V>>>, vertices: seq<V>, next: array2<int>, hops: seq<int>, e: int)
    requires Mirrors(next, Final(adj, vertices).1) && Follows(next, hops, e) && |hops| >= 1
    requires 0 <= hops[0] < |vertices| && (hops[0] == e || next[hops[0], e] != -1)
    ensures forall t :: 0 <= t < |hops| ==> 0 <= hops[t] < |vertices|
    ensures forall t :: 0 <= t < |hops| - 1 ==> Joined(adj, vertices[hops[t]], vertices[hops[t + 1]])
  {
    if hops[0] != e {
      FinalHop(adj, vertices, hops[0], e);
    }
    FinalFollows(adj, vertices, next, hops, e);
    forall t | 0 <= t < |hops| - 1
      ensures Joined(adj, vertices[hops[t]], vertices[hops[t + 1]])
    {
      HopEntry(adj, vertices, hops[t], hops[t + 1]);
    }
  }

  /** The rows before x hold what the entries of their vertices load into
      the distance and next arrays, the rows from x on are as the first
      loop of findAllPairsShortestPaths left them. */
  ghost predicate LoadedUpTo<V(!new)>(dist: array2<Dist>, next: array2<int>, adj: map<V, seq<WeightedEdge<V>>>, vertices: seq<V>, x: int)
    reads dist, next
  {
    && dist.Length0 == |vertices| && dist.Length1 == |vertices| && next.Length0 == |vertices| && next.Length1 == |vertices|
    && 0 <= x <= |vertices|
    && (forall r, y :: 0 <= r < x && 0 <= y < |vertices| ==>
          dist[r, y] == Loaded(EdgesOf(adj, vertices[r]), vertices[y], r == y) &&
          next[r, y] == LoadedHop(EdgesOf(adj, vertices[r]), vertices[y], y))
    && (forall r, y :: x <= r < |vertices| && 0 <= y < |vertices| ==>
          dist[r, y] == (if r == y then Finite(0.0) else Infinite) && next[r, y] == -1)
  }

  /** The rows before x hold what the entries of their vertices load into
      the distance array, the rows from x on are as the first loop of
      hasNegativeCycle left them. */
  ghost predicate DistancesUpTo<V(!new)>(dist: array2<Dist>, adj: map<V, seq<WeightedEdge<V>>>, vertices: seq<V>, x: int)
    reads dist
  {
    && dist.Length0 == |vertices| && dist.Length1 == |vertices| && 0 <= x <= |vertices|
    && (forall r, y :: 0 <= r < x && 0 <= y < |vertices| ==> dist[r, y] == Loaded(EdgesOf(adj, vertices[r]), vertices[y], r == y))
    && (forall r, y :: x <= r < |vertices| && 0 <= y < |vertices| ==> dist[r, y] == (if r == y then Finite(0.0) else Infinite))
  }
}
