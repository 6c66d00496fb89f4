/** DirectedUndirectedGraphGenerator: the edge-count guards, the label
    builders, the enumeration of candidate extra edges and the helper that
    makes an undirected edge appear in both lists. The random spanning tree
    and the shuffle are not part of this model. */
module DirectedUndirectedGenerator {
  import opened Wrappers
  import opened DecimalLabels
  import opened JavaInt
  import opened Frontier
  import opened AdjacencyGraph

  /** Which IllegalArgumentException generateConnectedGraph throws before
      building anything, if any. */
  datatype Check = Accepted | TooFewEdges | TooManyEdges

  /** The largest edge count the generator allows: n(n-1) ordered pairs
      when directed, half that when undirected. n(n-1) is a product of
      consecutive integers, never negative and always even, so Java's
      truncating halving is exact here. */
  function MaxEdges(n: int, isDirected: bool): (r: int)
    ensures r >= 0
    ensures isDirected ==> r == n * (n - 1)
    ensures !isDirected ==> r + r == n * (n - 1)
  {
    ProductOfConsecutive(n);
    if isDirected then n * (n - 1) else Half(n * (n - 1))
  }

  /** n(n-1) is never negative and always even: it grows by 2(n-1) from
      one n to the next, and at n <= 0 it equals m(m-1) for m = 1 - n. */
  lemma ProductOfConsecutive(n: int)
    ensures n * (n - 1) >= 0 && (n * (n - 1)) % 2 == 0
  {
    if n >= 0 {
      ConsecutiveFromZero(n);
    } else {
      assert n * (n - 1) == (1 - n) * ((1 - n) - 1);
      ConsecutiveFromZero(1 - n);
    }
  }

  lemma {:induction false} ConsecutiveFromZero(n: nat)
    ensures n * (n - 1) >= 0 && (n * (n - 1)) % 2 == 0
  {
    if n > 0 {
      ConsecutiveFromZero(n - 1);
      assert n * (n - 1) == (n - 1) * (n - 2) + 2 * (n - 1);
    }
  }

  /** The guards of generateConnectedGraph with unbounded arithmetic: at
      least n-1 edges (a spanning tree) and at most MaxEdges. */
  function CheckEdgeCount(n: int, m: int, isDirected: bool): (r: Check)
    ensures r == TooFewEdges <==> m < n - 1
    ensures r == Accepted <==> n - 1 <= m <= MaxEdges(n, isDirected)
  {
    if m < n - 1 then TooFewEdges
    else if m > MaxEdges(n, isDirected) then TooManyEdges
    else Accepted
  }

  /** A spanning tree's n-1 edges pass for every n >= 1. */
  lemma TreeEdgeCountAccepted(n: int, isDirected: bool)
    requires n >= 1
    ensures CheckEdgeCount(n, n - 1, isDirected) == Accepted
  {
    assert (n - 1) * (n - 2) >= 0 by {
      ProductOfConsecutive(n - 1);
    }
    assert n * (n - 1) == (n - 1) * (n - 2) + 2 * (n - 1);
  }

  /** The guards as Java evaluates them on int n and m: minEdges = n - 1
      and n * (n - 1) are int expressions, each wrapping around once it
      leaves the int range. Only n = IntMin wraps n - 1: minEdges becomes
      IntMax, so every m but IntMax is refused as too few edges. */
  function CheckEdgeCountAsWritten(n: int, m: int, isDirected: bool): (r: Check)
    requires IsInt(n) && IsInt(m)
    ensures IsInt(n * (n - 1)) ==> r == CheckEdgeCount(n, m, isDirected)
    ensures n == IntMin ==> (r == TooFewEdges <==> m < IntMax)
  {
    var minEdges := Wrap(n - 1);
    var product := Wrap(n * minEdges);
    var maxEdges := if isDirected then product else Half(product);
    assert n != IntMin ==> minEdges == n - 1;
    assert n == IntMin ==> !IsInt(n * (n - 1));
    if m < minEdges then TooFewEdges
    else if m > maxEdges then TooManyEdges
    else Accepted
  }

  /** For n = 46342, n(n-1) = 2147534622 passes IntMax and wraps to a
      negative int: a spanning tree is refused as too many edges, directed
      or not. */
  lemma OverflowRefusesTree()
    ensures CheckEdgeCount(46342, 46341, true) == Accepted
    ensures CheckEdgeCount(46342, 46341, false) == Accepted
    ensures CheckEdgeCountAsWritten(46342, 46341, true) == TooManyEdges
    ensures CheckEdgeCountAsWritten(46342, 46341, false) == TooManyEdges
  {
    assert 46342 * (46342 - 1) == 2147534622;
    assert Wrap(2147534622) == 2147534622 - 0x1_0000_0000;
    assert MaxEdges(46342, false) == 1073767311;
  }

  /** Label i of generateStringLabelGraph: the letter 'A' + i % 26,
      followed by i / 26 in decimal once i reaches 26 ("A".."Z", "A1".."Z1",
      "A2", ...). */
  function LetterLabel(i: nat): (s: string)
    ensures |s| > 0 && s[0] as int - 'A' as int == i % 26
    ensures i < 26 <==> |s| == 1
  {
    [('A' as int + i % 26) as char] + (if i >= 26 then IntString(i / 26) else "")
  }

  /** No two indices share a letter label. */
  lemma LetterLabelsDistinct(i: nat, j: nat)
    requires i < j
    ensures LetterLabel(i) != LetterLabel(j)
  {
    if LetterLabel(i) == LetterLabel(j) {
      assert i % 26 == j % 26;
      assert 26 <= i;
      SamePrefixRest([LetterLabel(i)[0]], IntString(i / 26), IntString(j / 26));
      DecimalStringInjective(i / 26, j / 26);
    }
  }

  /** The label array of generateStringLabelGraph: new String[n] throws for
      a negative n; otherwise label i is LetterLabel(i). */
  method StringLabels(n: int) returns (r: Result<array<string>>)
    ensures n < 0 <==> r == Thrown(NegativeArraySize)
    ensures r.Ok? ==> fresh(r.value) && r.value.Length == n
    ensures r.Ok? ==> forall i :: 0 <= i < n ==> r.value[i] == LetterLabel(i)
  {
    if n < 0 {
      return Thrown(NegativeArraySize);
    }
    var labels := new string[n];
    for i := 0 to n
      invariant forall k :: 0 <= k < i ==> labels[k] == LetterLabel(k)
    {
      labels[i] := [('A' as int + i % 26) as char] + (if i >= 26 then IntString(i / 26) else "");
    }
    return Ok(labels);
  }

  /** createDefaultLabels(n): 0, 1, ..., n-1 in order; a negative n fails
      at new Integer[n]. */
  method CreateDefaultLabels(n: int) returns (r: Result<array<int>>)
    ensures n < 0 <==> r == Thrown(NegativeArraySize)
    ensures r.Ok? ==> fresh(r.value) && r.value.Length == n
    ensures r.Ok? ==> forall i :: 0 <= i < n ==> r.value[i] == i
  {
    if n < 0 {
      return Thrown(NegativeArraySize);
    }
    var labels := new int[n];
    for i := 0 to n
      invariant forall k :: 0 <= k < i ==> labels[k] == k
    {
      labels[i] := i;
    }
    return Ok(labels);
  }

  /** edgeExists: to is listed under from. A vertex without an entry makes
      get return null; the NullPointerException is caught and reads as
      false. */
  predicate EdgeListed<V(==)>(adj: map<V, seq<V>>, from: V, to: V) {
    from in adj && to in adj[from]
  }

  /** Whether the candidate loop keeps the pair of indices (i, j): no
      self-loop by index, not listed yet, and when undirected only i < j. */
  predicate Keeps<V(==)>(vertices: seq<V>, adj: map<V, seq<V>>, isDirected: bool, i: int, j: int)
    requires 0 <= i < |vertices| && 0 <= j < |vertices|
  {
    i != j && !EdgeListed(adj, vertices[i], vertices[j]) && (isDirected || i < j)
  }

  /** What the inner loop appends for the pair of indices (i, j). */
  function Kept<V(==)>(vertices: seq<V>, adj: map<V, seq<V>>, isDirected: bool, i: int, j: int): seq<(V, V)>
    requires 0 <= i < |vertices| && 0 <= j < |vertices|
  {
    if Keeps(vertices, adj, isDirected, i, j) then [(vertices[i], vertices[j])] else []
  }

  /** The candidate list when the scan of an n by n grid reaches row i,
      column j: every earlier row in full, then row i up to column j. */
  function Scan<V(==)>(vertices: seq<V>, adj: map<V, seq<V>>, isDirected: bool, n: int, i: int, j: int): seq<(V, V)>
    requires 0 <= i <= n <= |vertices| && 0 <= j <= n && (j > 0 ==> i < n)
    decreases i, j
  {
    if j == 0 then (if i == 0 then [] else Scan(vertices, adj, isDirected, n, i - 1, n))
    else Scan(vertices, adj, isDirected, n, i, j - 1) + Kept(vertices, adj, isDirected, i, j - 1)
  }

  /** The full scan of the first n vertices. */
  function Candidates<V(==)>(vertices: seq<V>, adj: map<V, seq<V>>, isDirected: bool, n: int): seq<(V, V)>
    requires 0 <= n <= |vertices|
  {
    Scan(vertices, adj, isDirected, n, n, 0)
  }

  /** e is the pair (vertices[i], vertices[j]) and the loop keeps it. */
  predicate Picks<V(==)>(vertices: seq<V>, adj: map<V, seq<V>>, isDirected: bool, i: int, j: int, e: (V, V)) {
    0 <= i < |vertices| && 0 <= j < |vertices| && Keeps(vertices, adj, isDirected, i, j) && e == (vertices[i], vertices[j])
  }

  /** A pair is in the scan so far exactly when some pair of indices
      already passed, in row-major order, picks it. */
  lemma {:induction false} ScanMembers<V>(vertices: seq<V>, adj: map<V, seq<V>>, isDirected: bool, n: int, i: int, j: int, e: (V, V))
    requires 0 <= i <= n <= |vertices| && 0 <= j <= n && (j > 0 ==> i < n)
    ensures e in Scan(vertices, adj, isDirected, n, i, j) <==>
      exists a, b :: 0 <= a <= i && 0 <= b < n && (a < i || b < j) && Picks(vertices, adj, isDirected, a, b, e)
    decreases i, j
  {
    if j == 0 {
      if i > 0 {
        ScanMembers(vertices, adj, isDirected, n, i - 1, n, e);
        if exists a, b :: 0 <= a <= i && 0 <= b < n && (a < i || b < j) && Picks(vertices, adj, isDirected, a, b, e) {
          var a, b :| 0 <= a <= i && 0 <= b < n && (a < i || b < j) && Picks(vertices, adj, isDirected, a, b, e);
          assert a <= i - 1 && (a < i - 1 || b < n);
        }
      }
    } else {
      ScanMembers(vertices, adj, isDirected, n, i, j - 1, e);
      if Picks(vertices, adj, isDirected, i, j - 1, e) {
        assert e in Kept(vertices, adj, isDirected, i, j - 1);
      }
      if exists a, b :: 0 <= a <= i && 0 <= b < n && (a < i || b < j) && Picks(vertices, adj, isDirected, a, b, e) {
        var a, b :| 0 <= a <= i && 0 <= b < n && (a < i || b < j) && Picks(vertices, adj, isDirected, a, b, e);
        if a == i && b == j - 1 {
          assert e in Kept(vertices, adj, isDirected, i, j - 1);
        }
      }
    }
  }

  /** A pair is a candidate exactly when it is (vertices[i], vertices[j])
      for a pair of indices below n that the loop keeps. */
  lemma CandidateMembers<V>(vertices: seq<V>, adj: map<V, seq<V>>, isDirected: bool, n: int, e: (V, V))
    requires 0 <= n <= |vertices|
    ensures e in Candidates(vertices, adj, isDirected, n) <==>
      exists i, j :: 0 <= i < n && 0 <= j < n && Picks(vertices, adj, isDirected, i, j, e)
  {
    ScanMembers(vertices, adj, isDirected, n, n, 0, e);
  }

  /** With distinct labels no candidate is a self-loop and none is already
      listed; an undirected scan keeps each unordered pair at most once,
      as (vertices[i], vertices[j]) with i < j. */
  lemma CandidatesAreNew<V>(vertices: seq<V>, adj: map<V, seq<V>>, isDirected: bool, n: int, e: (V, V))
    requires 0 <= n <= |vertices| && Distinct(vertices)
    requires e in Candidates(vertices, adj, isDirected, n)
    ensures e.0 != e.1 && !EdgeListed(adj, e.0, e.1)
    ensures !isDirected ==> (e.1, e.0) !in Candidates(vertices, adj, isDirected, n)
  {
    CandidateMembers(vertices, adj, isDirected, n, e);
    var i, j :| 0 <= i < n && 0 <= j < n && Picks(vertices, adj, isDirected, i, j, e);
    if !isDirected {
      CandidateMembers(vertices, adj, isDirected, n, (e.1, e.0));
    }
  }

  /** The candidate loops of generateConnectedGraph: i and j run over
      0..n-1, skipping i == j, pairs already listed and, when undirected,
      pairs with i > j. Labels supplied by the caller may be fewer than n:
      the first pair i != j that indexes past them throws, which with n >= 2
      happens in the first row; a non-positive n scans nothing. */
  method CandidateEdges<V(==)>(vertices: seq<V>, adj: map<V, seq<V>>, isDirected: bool, n: int)
    returns (r: Result<seq<(V, V)>>)
    ensures n <= 0 ==> r == Ok([])
    ensures 0 < n <= |vertices| ==> r == Ok(Candidates(vertices, adj, isDirected, n))
    ensures |vertices| < n ==> r == if n >= 2 then Thrown(IndexOutOfBounds) else Ok([])
  {
    var possibleEdges := [];
    var i := 0;
    while i < n
      invariant 0 <= i && (i <= n || i == 0)
      invariant i == 0 ==> possibleEdges == []
      invariant 0 <= n <= |vertices| ==> possibleEdges == Scan(vertices, adj, isDirected, n, i, 0)
      invariant |vertices| < n ==> (n >= 2 ==> i == 0) && (n < 2 ==> possibleEdges == [])
    {
      var j := 0;
      while j < n
        invariant 0 <= j <= n
        invariant n <= |vertices| ==> possibleEdges == Scan(vertices, adj, isDirected, n, i, j)
        invariant |vertices| < n ==> (n >= 2 ==> i == 0 && (j <= |vertices| || j <= 1)) && (n < 2 ==> possibleEdges == [])
      {
        if i != j {
          if i >= |vertices| || j >= |vertices| {
            return Thrown(IndexOutOfBounds);
          }
          var from := vertices[i];
          var to := vertices[j];
          // an edge already listed is skipped; undirected keeps i < j only
          if !(from in adj && to in adj[from]) && (isDirected || i <= j) {
            possibleEdges := possibleEdges + [(from, to)];
          }
        }
        j := j + 1;
      }
      i := i + 1;
    }
    r := Ok(possibleEdges);
  }

  /** One half of ensureUndirectedEdge: append to under from unless it is
      listed there already. */
  function AddIfAbsent<V(==)>(adj: map<V, seq<V>>, from: V, to: V): (r: map<V, seq<V>>)
    requires from in adj
    ensures r.Keys == adj.Keys && to in r[from]
    ensures r[from] == (if to in adj[from] then adj[from] else adj[from] + [to])
    ensures forall u :: u in adj && u != from ==> r[u] == adj[u]
  {
    if to in adj[from] then adj else adj[from := adj[from] + [to]]
  }

  /** ensureUndirectedEdge(graph, from, to): afterwards to is listed under
      from and from under to, each appended only where it was missing. A
      vertex without an entry makes get return null and the call throws,
      after the first half has run if only to is missing. */
  method EnsureUndirectedEdge<V(==, !new)>(graph: Graph<V>, from: V, to: V) returns (r: Result<()>)
    modifies graph
    ensures from !in old(graph.adjacencyList) ==> r == Thrown(NullPointer) && graph.adjacencyList == old(graph.adjacencyList)
    ensures from in old(graph.adjacencyList) && to !in old(graph.adjacencyList) ==>
      r == Thrown(NullPointer) && graph.adjacencyList == AddIfAbsent(old(graph.adjacencyList), from, to)
    ensures from in old(graph.adjacencyList) && to in old(graph.adjacencyList) ==>
      r == Ok(()) && graph.adjacencyList == AddIfAbsent(AddIfAbsent(old(graph.adjacencyList), from, to), to, from)
  {
    if from !in graph.adjacencyList {
      return Thrown(NullPointer);
    }
    if to !in graph.adjacencyList[from] {
      graph.adjacencyList := graph.adjacencyList[from := graph.adjacencyList[from] + [to]];
    }
    if to !in graph.adjacencyList {
      return Thrown(NullPointer);
    }
    if from !in graph.adjacencyList[to] {
      graph.adjacencyList := graph.adjacencyList[to := graph.adjacencyList[to] + [from]];
    }
    return Ok(());
  }

  /** After ensureUndirectedEdge both directions are listed, each list grew
      by at most the one missing entry, and a second call changes nothing. */
  lemma EnsureBothListed<V>(adj: map<V, seq<V>>, from: V, to: V)
    requires from in adj && to in adj
    ensures var r := AddIfAbsent(AddIfAbsent(adj, from, to), to, from);
      && r.Keys == adj.Keys
      && EdgeListed(r, from, to) && EdgeListed(r, to, from)
      && (forall u :: u in adj && u != from && u != to ==> r[u] == adj[u])
      && AddIfAbsent(AddIfAbsent(r, from, to), to, from) == r
  {
  }
}
