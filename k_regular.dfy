/** KRegularGraphGenerator: the parameter guards, the stub list of the
    configuration model, the rule that matches shuffled stubs into edges,
    the connectivity test and the two-way edgeExists. The shuffle is a
    parameter: any order of the stubs. The retry loop around the random
    construction is not part of this model. */
module KRegularGenerator {
  import opened Wrappers
  import opened JavaInt
  import opened Reachability
  import opened Frontier
  import opened AdjacencyGraph
  import opened BfsInvariant
  import opened BreadthFirstSearch
  import DirectedUndirectedGenerator

  /** Which IllegalArgumentException generateConnectedKRegularGraph throws
      before building anything, if any. */
  datatype Check = Accepted | DegreeNotBelowN | DegreeBelowOne | DegreeOneNeedsTwo | OddDegreeSum

  /** The four guards in source order. n * k is a Java int product; a
      wrap-around subtracts a multiple of 2^32 and so keeps its parity, and
      Java's (n * k) % 2 != 0 holds exactly for odd values whatever their
      sign. */
  function CheckParameters(n: int, k: int): (r: Check)
    ensures r == DegreeNotBelowN <==> k >= n
    ensures r == DegreeBelowOne <==> k < n && k < 1
    ensures r == DegreeOneNeedsTwo <==> k < n && k == 1 && n != 2
    ensures r == OddDegreeSum <==> 1 <= k < n && (k == 1 ==> n == 2) && (n * k) % 2 != 0
    ensures r == Accepted <==> 1 <= k < n && (k == 1 ==> n == 2) && (n * k) % 2 == 0
  {
    WrapKeepsParity(n * k);
    if k >= n then DegreeNotBelowN
    else if k < 1 then DegreeBelowOne
    else if k == 1 && n != 2 then DegreeOneNeedsTwo
    else if Wrap(n * k) % 2 != 0 then OddDegreeSum
    else Accepted
  }

  lemma WrapKeepsParity(x: int)
    ensures Wrap(x) % 2 == x % 2
  {
    var q := (x - IntMin) / 0x1_0000_0000;
    assert x - IntMin == 0x1_0000_0000 * q + (x - IntMin) % 0x1_0000_0000;
    assert Wrap(x) == x - 2 * (0x8000_0000 * q);
  }

  /** An accepted pair has at least two vertices, and n = 2 is the only
      size accepted with k = 1. */
  lemma AcceptedShape(n: int, k: int)
    requires CheckParameters(n, k) == Accepted
    ensures n >= 2 && (k == 1 <==> n == 2)
  {
  }

  /** k copies of one vertex (none when k is not positive). */
  function Copies<V>(v: V, k: int): (r: seq<V>)
    ensures |r| == if k < 0 then 0 else k
    ensures forall i :: 0 <= i < |r| ==> r[i] == v
  {
    if k <= 0 then [] else Copies(v, k - 1) + [v]
  }

  /** The stub list of generateConfigurationModel: each vertex k times, in
      vertex order. */
  function Stubs<V>(vertices: seq<V>, k: int): seq<V> {
    if |vertices| == 0 then [] else Stubs(vertices[..|vertices| - 1], k) + Copies(vertices[|vertices| - 1], k)
  }

  /** With distinct vertices and k >= 0, each vertex has exactly k stubs
      and nothing else has one. */
  lemma {:induction false} StubCounts<V>(vertices: seq<V>, k: int, x: V)
    requires Distinct(vertices) && k >= 0
    ensures multiset(Stubs(vertices, k))[x] == if x in vertices then k else 0
  {
    if |vertices| > 0 {
      var last := vertices[|vertices| - 1];
      var init := vertices[..|vertices| - 1];
      assert vertices == init + [last];
      assert Distinct(init) by {
        forall i, j | 0 <= i < j < |init| ensures init[i] != init[j] {
          assert init[i] == vertices[i] && init[j] == vertices[j];
        }
      }
      StubCounts(init, k, x);
      assert last !in init;
      assert multiset(Copies(last, k))[x] == if x == last then k else 0 by {
        CopiesCount(last, k, x);
      }
    }
  }

  lemma {:induction false} CopiesCount<V>(v: V, k: int, x: V)
    requires k >= 0
    ensures multiset(Copies(v, k))[x] == if x == v then k else 0
  {
    if k > 0 {
      CopiesCount(v, k - 1, x);
    }
  }

  /** The stub loops: new ArrayList<>(n * k) throws for a negative int
      capacity; otherwise for each vertex in order, k copies. */
  method MakeStubs<V>(vertices: seq<V>, k: int) returns (r: Result<seq<V>>)
    ensures Wrap(|vertices| * k) < 0 ==> r == Thrown(IllegalArgument)
    ensures Wrap(|vertices| * k) >= 0 ==> r == Ok(Stubs(vertices, k))
  {
    if Wrap(|vertices| * k) < 0 {
      return Thrown(IllegalArgument);
    }
    var stubs := [];
    for i := 0 to |vertices|
      invariant stubs == Stubs(vertices[..i], k)
    {
      var j := 0;
      while j < k
        invariant 0 <= j && (j <= k || j == 0)
        invariant stubs == Stubs(vertices[..i], k) + Copies(vertices[i], j)
      {
        stubs := stubs + [vertices[i]];
        j := j + 1;
      }
      assert Copies(vertices[i], j) == Copies(vertices[i], k);
      assert vertices[..i + 1][..i] == vertices[..i];
      assert Stubs(vertices[..i + 1], k) == Stubs(vertices[..i], k) + Copies(vertices[i], k);
    }
    assert vertices[..|vertices|] == vertices;
    return Ok(stubs);
  }

  /** The pairs the matching loop reads: stubs 0 and 1, 2 and 3, and so
      on; an odd last stub is dropped by the loop's break. */
  function Pairs<V>(stubs: seq<V>): (ps: seq<(V, V)>)
    ensures |ps| == |stubs| / 2
    decreases |stubs|
  {
    if |stubs| < 2 then [] else [(stubs[0], stubs[1])] + Pairs(stubs[2..])
  }

  /** The endpoints of a list of pairs, in order. */
  function Endpoints<V>(ps: seq<(V, V)>): seq<V> {
    if ps == [] then [] else [ps[0].0, ps[0].1] + Endpoints(ps[1..])
  }

  /** Pairing loses no stub when their number is even. */
  lemma {:induction false} PairsCoverStubs<V>(stubs: seq<V>)
    requires |stubs| % 2 == 0
    ensures Endpoints(Pairs(stubs)) == stubs
    decreases |stubs|
  {
    if |stubs| >= 2 {
      PairsCoverStubs(stubs[2..]);
      assert stubs == [stubs[0], stubs[1]] + stubs[2..];
    }
  }

  /** The second vertices of the pairs that start at u, in order: what
      matching appends to u's list. */
  function Targets<V(==)>(ps: seq<(V, V)>, u: V): seq<V> {
    if ps == [] then [] else (if ps[0].0 == u then [ps[0].1] else []) + Targets(ps[1..], u)
  }

  /** The first vertices of the pairs that end at u. */
  function Sources<V(==)>(ps: seq<(V, V)>, u: V): seq<V> {
    if ps == [] then [] else (if ps[0].1 == u then [ps[0].0] else []) + Sources(ps[1..], u)
  }

  lemma {:induction false} EndpointCount<V>(ps: seq<(V, V)>, u: V)
    ensures multiset(Endpoints(ps))[u] == |Targets(ps, u)| + |Sources(ps, u)|
  {
    if ps != [] {
      EndpointCount(ps[1..], u);
    }
  }

  /** The configuration model's degree count: when the shuffled stubs are
      any order of each vertex's k stubs and their number is even, every
      vertex is an endpoint of exactly k pairs, so a matching that adds
      every pair gives every vertex degree k. */
  lemma PairsAreRegular<V>(vertices: seq<V>, k: int, shuffled: seq<V>, v: V)
    requires Distinct(vertices) && k >= 0 && v in vertices
    requires multiset(shuffled) == multiset(Stubs(vertices, k)) && |shuffled| % 2 == 0
    ensures |Targets(Pairs(shuffled), v)| + |Sources(Pairs(shuffled), v)| == k
  {
    PairsCoverStubs(shuffled);
    EndpointCount(Pairs(shuffled), v);
    StubCounts(vertices, k, v);
  }

  /** edgeExists(graph, from, to) of this generator: listed in either
      direction. get returns null for a vertex without a list; the
      resulting NullPointerException is not caught, and the second lookup
      only runs when the first finds nothing. */
  function EdgeExistsEither<V(==)>(adj: map<V, seq<V>>, from: V, to: V): (r: Result<bool>)
    ensures r.Ok? ==> from in adj
    ensures r == Ok(false) ==> to in adj && to !in adj[from] && from !in adj[to]
  {
    if from !in adj then Thrown(NullPointer)
    else if to in adj[from] then Ok(true)
    else if to !in adj then Thrown(NullPointer)
    else Ok(from in adj[to])
  }

  /** With both lists present edgeExists answers whether either direction
      is listed, and so does not depend on the order of its arguments. */
  lemma EdgeExistsSymmetric<V>(adj: map<V, seq<V>>, a: V, b: V)
    requires a in adj && b in adj
    ensures EdgeExistsEither(adj, a, b) == Ok(b in adj[a] || a in adj[b])
    ensures EdgeExistsEither(adj, a, b) == EdgeExistsEither(adj, b, a)
  {
  }

  /** The adjacency map after the matching loop and what it returned:
      Ok(true) when every pair was added, Ok(false) when it stopped at a
      self-loop or an edge listed either way, or the exception edgeExists
      threw. */
  datatype Matching<V> = Matching(adj: map<V, seq<V>>, outcome: Result<bool>)

  /** The matching loop over the pairs, first to last. */
  function Match<V(==)>(adj: map<V, seq<V>>, ps: seq<(V, V)>): (m: Matching<V>)
    ensures m.outcome != Ok(true) || |ps| == 0 || ps[0].0 != ps[0].1
  {
    if ps == [] then Matching(adj, Ok(true))
    else if ps[0].0 == ps[0].1 then Matching(adj, Ok(false))
    else match EdgeExistsEither(adj, ps[0].0, ps[0].1)
      case Thrown(e) => Matching(adj, Thrown(e))
      case Ok(b) => if b then Matching(adj, Ok(false)) else Match(WithEdge(adj, ps[0].0, ps[0].1), ps[1..])
  }

  /** Adding an edge keeps every listed entry listed. */
  lemma WithEdgeKeepsListed<V>(adj: map<V, seq<V>>, from: V, to: V, a: V, b: V)
    requires DirectedUndirectedGenerator.EdgeListed(adj, a, b)
    ensures DirectedUndirectedGenerator.EdgeListed(WithEdge(adj, from, to), a, b)
  {
    assert Neighbours(adj, a) == adj[a];
  }

  /** A matching that adds every pair added the first one: it was no
      self-loop, was not listed either way, and the rest was matched on the
      map with that edge. */
  lemma MatchFirst<V>(adj: map<V, seq<V>>, ps: seq<(V, V)>)
    requires ps != [] && Match(adj, ps).outcome == Ok(true)
    ensures ps[0].0 != ps[0].1 && EdgeExistsEither(adj, ps[0].0, ps[0].1) == Ok(false)
    ensures Match(adj, ps) == Match(WithEdge(adj, ps[0].0, ps[0].1), ps[1..])
  {
  }

  /** addEdge appends to one list only. */
  lemma NeighboursWithEdge<V>(adj: map<V, seq<V>>, from: V, to: V, u: V)
    ensures Neighbours(WithEdge(adj, from, to), u) == Neighbours(adj, u) + (if from == u then [to] else [])
  {
  }

  /** When every pair is added, vertex u's list gains exactly u's
      targets, in pair order. */
  lemma {:induction false} MatchAppends<V>(adj: map<V, seq<V>>, ps: seq<(V, V)>, u: V)
    requires Match(adj, ps).outcome == Ok(true)
    ensures Neighbours(Match(adj, ps).adj, u) == Neighbours(adj, u) + Targets(ps, u)
    decreases |ps|
  {
    if ps != [] {
      var v1, v2, rest := ps[0].0, ps[0].1, ps[1..];
      var adj1 := WithEdge(adj, v1, v2);
      var step := if v1 == u then [v2] else [];
      calc {
        Neighbours(Match(adj, ps).adj, u);
        { MatchFirst(adj, ps); }
        Neighbours(Match(adj1, rest).adj, u);
        { MatchFirst(adj, ps); MatchAppends(adj1, rest, u); }
        Neighbours(adj1, u) + Targets(rest, u);
        { NeighboursWithEdge(adj, v1, v2, u); }
        (Neighbours(adj, u) + step) + Targets(rest, u);
        Neighbours(adj, u) + (step + Targets(rest, u));
        Neighbours(adj, u) + Targets(ps, u);
      }
    }
  }

  /** When every pair is added the vertex set is unchanged. */
  lemma {:induction false} MatchKeepsKeys<V>(adj: map<V, seq<V>>, ps: seq<(V, V)>)
    requires Match(adj, ps).outcome == Ok(true)
    ensures Match(adj, ps).adj.Keys == adj.Keys
  {
    if ps != [] {
      MatchKeepsKeys(WithEdge(adj, ps[0].0, ps[0].1), ps[1..]);
    }
  }

  /** When every pair is added, no pair is a self-loop, both ends of each
      had a list, and no pair was listed in either direction beforehand. */
  lemma {:induction false} MatchAcceptedFresh<V>(adj: map<V, seq<V>>, ps: seq<(V, V)>)
    requires Match(adj, ps).outcome == Ok(true)
    ensures forall p :: p in ps ==> p.0 != p.1 && p.0 in adj && p.1 in adj
    ensures forall p :: p in ps ==>
      !DirectedUndirectedGenerator.EdgeListed(adj, p.0, p.1) && !DirectedUndirectedGenerator.EdgeListed(adj, p.1, p.0)
  {
    if ps != [] {
      var v1, v2 := ps[0].0, ps[0].1;
      var adj1 := WithEdge(adj, v1, v2);
      MatchAcceptedFresh(adj1, ps[1..]);
      forall p | p in ps
        ensures p.0 != p.1 && p.0 in adj && p.1 in adj
        ensures !DirectedUndirectedGenerator.EdgeListed(adj, p.0, p.1) && !DirectedUndirectedGenerator.EdgeListed(adj, p.1, p.0)
      {
        if p != ps[0] {
          assert p in ps[1..];
          if DirectedUndirectedGenerator.EdgeListed(adj, p.0, p.1) {
            WithEdgeKeepsListed(adj, v1, v2, p.0, p.1);
          }
          if DirectedUndirectedGenerator.EdgeListed(adj, p.1, p.0) {
            WithEdgeKeepsListed(adj, v1, v2, p.1, p.0);
          }
        }
      }
    }
  }

  /** When every pair is added, no unordered pair occurs twice. */
  lemma {:induction false} MatchAcceptedDistinct<V>(adj: map<V, seq<V>>, ps: seq<(V, V)>)
    requires Match(adj, ps).outcome == Ok(true)
    ensures forall a, b :: 0 <= a < b < |ps| ==> ps[a] != ps[b] && ps[a] != (ps[b].1, ps[b].0)
  {
    if ps != [] {
      var v1, v2 := ps[0].0, ps[0].1;
      var adj1 := WithEdge(adj, v1, v2);
      MatchAcceptedDistinct(adj1, ps[1..]);
      MatchAcceptedFresh(adj1, ps[1..]);
      assert DirectedUndirectedGenerator.EdgeListed(adj1, v1, v2);
      forall a, b | 0 <= a < b < |ps|
        ensures ps[a] != ps[b] && ps[a] != (ps[b].1, ps[b].0)
      {
        if a > 0 {
          assert ps[a] == ps[1..][a - 1] && ps[b] == ps[1..][b - 1];
        } else {
          assert ps[b] in ps[1..];
        }
      }
    }
  }

  /** Matching cannot throw when every paired vertex has a list. */
  lemma {:induction false} MatchNeverThrows<V>(adj: map<V, seq<V>>, ps: seq<(V, V)>)
    requires forall p :: p in ps ==> p.0 in adj && p.1 in adj
    ensures Match(adj, ps).outcome.Ok?
  {
    if ps != [] && ps[0].0 != ps[0].1 && EdgeExistsEither(adj, ps[0].0, ps[0].1) == Ok(false) {
      var adj1 := WithEdge(adj, ps[0].0, ps[0].1);
      assert forall p :: p in ps[1..] ==> p in ps;
      MatchNeverThrows(adj1, ps[1..]);
    }
  }

  /** Matching adds edges only between listed vertices, so a closed map
      stays closed. */
  lemma {:induction false} MatchKeepsClosed<V(!new)>(adj: map<V, seq<V>>, ps: seq<(V, V)>)
    requires Closed(adj)
    ensures Closed(Match(adj, ps).adj)
  {
    if ps != [] && ps[0].0 != ps[0].1 && EdgeExistsEither(adj, ps[0].0, ps[0].1) == Ok(false) {
      AddKeepsClosed(adj, ps[0].0, ps[0].1);
      MatchKeepsClosed(WithEdge(adj, ps[0].0, ps[0].1), ps[1..]);
    }
  }

  /** The matching loop of generateConfigurationModel on the shuffled
      stubs: pairs (0,1), (2,3), ... are added with addEdge until one is a
      self-loop or already listed, which returns false. */
  method MatchStubs<V(==, !new)>(graph: Graph<V>, stubs: seq<V>) returns (r: Result<bool>)
    modifies graph
    ensures graph.adjacencyList == Match(old(graph.adjacencyList), Pairs(stubs)).adj
    ensures r == Match(old(graph.adjacencyList), Pairs(stubs)).outcome
  {
    var i := 0;
    while i < |stubs|
      invariant 0 <= i <= |stubs|
      invariant Match(old(graph.adjacencyList), Pairs(stubs)) == Match(graph.adjacencyList, Pairs(stubs[i..]))
      decreases |stubs| - i
    {
      if i + 1 >= |stubs| {
        break;
      }
      assert stubs[i..][2..] == stubs[i + 2..];
      var v1 := stubs[i];
      var v2 := stubs[i + 1];
      if v1 == v2 {
        return Ok(false);
      }
      var listed := EdgeExistsEither(graph.adjacencyList, v1, v2);
      if listed.Thrown? {
        return Thrown(listed.exception);
      }
      if listed.value {
        return Ok(false);
      }
      graph.AddEdge(v1, v2);
      i := i + 2;
    }
    return Ok(true);
  }

  /** Distinct entries make a set of the same size. */
  lemma {:induction false} DistinctSetSize<V>(s: seq<V>)
    requires Distinct(s)
    ensures |set x | x in s| == |s|
  {
    if |s| > 0 {
      var init := s[..|s| - 1];
      var last := s[|s| - 1];
      assert Distinct(init) by {
        forall i, j | 0 <= i < j < |init| ensures init[i] != init[j] {
          assert init[i] == s[i] && init[j] == s[j];
        }
      }
      DistinctSetSize(init);
      assert (set x | x in s) == (set x | x in init) + {last} by {
        assert s == init + [last];
      }
      assert last !in init;
    }
  }

  /** The count isConnected compares: with allVertices distinct and
      exactly the listed vertices, the reached set has |allVertices|
      members exactly when every vertex is reached. */
  lemma CountMeansAll<V(!new)>(adj: map<V, seq<V>>, start: V, visited: set<V>, allVertices: seq<V>)
    requires Closed(adj) && start in adj
    requires Distinct(allVertices) && forall v :: v in allVertices <==> v in adj
    requires forall v :: v in visited <==> Reachable(adj, start, v)
    ensures |visited| == |allVertices| <==> forall v :: v in allVertices ==> Reachable(adj, start, v)
  {
    DistinctSetSize(allVertices);
    assert (set x | x in allVertices) == adj.Keys;
    assert visited <= adj.Keys by {
      forall v | v in visited ensures v in adj {
        ReachStaysInside(adj, start, v);
      }
    }
    if forall v :: v in allVertices ==> Reachable(adj, start, v) {
      assert visited == adj.Keys;
    } else {
      var x :| x in allVertices && !Reachable(adj, start, x);
      SubsetSmaller(adj.Keys, visited, x);
    }
  }

  /** isConnected(graph, start, allVertices): a breadth-first walk from
      start, then a comparison of the number of vertices reached with the
      length of allVertices. On a closed map with start present it answers
      whether every vertex of a distinct allVertices naming exactly the
      listed vertices is reachable from start. */
  method IsConnected<V(==, !new)>(graph: Graph<V>, start: V, allVertices: seq<V>) returns (r: Result<bool>)
    ensures start !in graph.adjacencyList ==> r == Thrown(NullPointer)
    ensures Closed(graph.adjacencyList) && start in graph.adjacencyList ==> r.Ok?
    ensures (Closed(graph.adjacencyList) && start in graph.adjacencyList && Distinct(allVertices)
      && (forall v :: v in allVertices <==> v in graph.adjacencyList)) ==>
      r == Ok(forall v :: v in allVertices ==> Reachable(graph.adjacencyList, start, v))
  {
    var walked := MarkReachable(graph.adjacencyList, start);
    if walked.Thrown? {
      if Closed(graph.adjacencyList) && start in graph.adjacencyList {
        var v :| v !in graph.adjacencyList && Reachable(graph.adjacencyList, start, v);
        ReachStaysInside(graph.adjacencyList, start, v);
      }
      return Thrown(walked.exception);
    }
    var visited := walked.value;
    if Closed(graph.adjacencyList) && start in graph.adjacencyList && Distinct(allVertices)
      && (forall v :: v in allVertices <==> v in graph.adjacencyList)
    {
      CountMeansAll(graph.adjacencyList, start, visited, allVertices);
    }
    return Ok(|visited| == |allVertices|);
  }

  /** The while loop of isConnected: start is marked and queued; each
      dequeued vertex's list is read with get, which is null for a vertex
      without a list, so the for-each loop throws; its unmarked neighbours
      are marked and queued. The marked set ends as exactly the vertices
      reachable from start; the walk throws only on meeting a reachable
      vertex without a list. */
  method MarkReachable<V(==, !new)>(adj: map<V, seq<V>>, start: V) returns (r: Result<set<V>>)
    ensures start !in adj ==> r == Thrown(NullPointer)
    ensures r.Thrown? ==> r == Thrown(NullPointer) && exists v :: v !in adj && Reachable(adj, start, v)
    ensures r.Ok? ==> forall v :: v in r.value <==> Reachable(adj, start, v)
  {
    ghost var bound := Universe(adj) + {start};
    if start !in adj {
      // the first vertex dequeued is start itself
      ReachSelf(adj, start, {});
      return Thrown(NullPointer);
    }
    var visited := {start};
    var queue := [start];
    ghost var order := [start];
    ghost var head := 0;
    ReachSelf(adj, start, {});
    while queue != []
      invariant BfsState(adj, start, bound, visited, order, head)
      invariant queue == order[head..]
      decreases |bound - visited|, |queue|
    {
      var current := queue[0];
      if current !in adj {
        assert current == order[head] && Reachable(adj, start, current);
        return Thrown(NullPointer);
      }
      var neighbors := Neighbours(adj, current);
      var queue', visited', _ := EnqueueFresh(queue[1..], visited, neighbors, 0);
      ghost var added := Fresh(neighbors, visited);
      BfsStep(adj, start, bound, visited, order, head, visited', order + added);
      QueueStep(order, head, queue, added);
      queue, visited, order, head := queue', visited', order + added, head + 1;
    }
    BfsDone(adj, start, bound, visited, order, head);
    return Ok(visited);
  }

  /** generateConfigurationModel(graph, vertices, k, random) with the
      shuffled stub order as a parameter: build the stubs, match the
      shuffled ones, and when every pair was added test connectivity from
      vertices[0], which fails for an empty vertex array. */
  method GenerateConfigurationModel<V(==, !new)>(graph: Graph<V>, vertices: seq<V>, k: int, shuffled: seq<V>) returns (r: Result<bool>)
    requires multiset(shuffled) == multiset(Stubs(vertices, k))
    modifies graph
    ensures Wrap(|vertices| * k) < 0 ==> r == Thrown(IllegalArgument) && graph.adjacencyList == old(graph.adjacencyList)
    ensures Wrap(|vertices| * k) >= 0 ==> graph.adjacencyList == Match(old(graph.adjacencyList), Pairs(shuffled)).adj
    ensures Wrap(|vertices| * k) >= 0 && Match(old(graph.adjacencyList), Pairs(shuffled)).outcome != Ok(true) ==>
      r == Match(old(graph.adjacencyList), Pairs(shuffled)).outcome
    ensures r == Ok(true) ==> Match(old(graph.adjacencyList), Pairs(shuffled)).outcome == Ok(true)
    ensures (Wrap(|vertices| * k) >= 0 && Match(old(graph.adjacencyList), Pairs(shuffled)).outcome == Ok(true)
      && |vertices| > 0 && Distinct(vertices) && Closed(old(graph.adjacencyList))
      && (forall v :: v in vertices <==> v in old(graph.adjacencyList))) ==>
      r == Ok(forall v :: v in vertices ==> Reachable(graph.adjacencyList, vertices[0], v))
  {
    var made := MakeStubs(vertices, k);
    if made.Thrown? {
      return Thrown(made.exception);
    }
    // Collections.shuffle(stubs, random): the parameter is the order it chose.
    var stubs := shuffled;
    ghost var adj0 := graph.adjacencyList;
    r := MatchStubs(graph, stubs);
    if r != Ok(true) {
      return r;
    }
    if |vertices| == 0 {
      return Thrown(IndexOutOfBounds);
    }
    if Distinct(vertices) && Closed(adj0) && (forall v :: v in vertices <==> v in adj0) {
      MatchKeepsKeys(adj0, Pairs(stubs));
      MatchKeepsClosed(adj0, Pairs(stubs));
    }
    r := IsConnected(graph, vertices[0], vertices);
  }
}
