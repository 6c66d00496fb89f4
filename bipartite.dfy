/** BipartiteGraphGenerator: the parameter check, the "U1".."V1".. label
    builder, the split of a graph's vertices by label prefix, and the filter
    the spanning-tree builder uses. The random construction itself is not
    part of this model. */
module BipartiteGenerator {
  import opened Wrappers
  import opened DecimalLabels
  import opened JavaInt
  import opened AdjacencyGraph

  /** Which IllegalArgumentException validateParameters throws, if any. */
  datatype Check = Accepted | TooFewVertices | BadPartitionSize | TooFewEdges | TooManyEdges

  /** validateParameters(n, m, sizeOfU) with unbounded arithmetic: at least
      two vertices, a first part of size 1..n-1, and between n-1 edges (a
      spanning tree) and |U|·|V| edges (the complete bipartite graph). The
      checks run in that order, so the first failing one is reported. */
  function ValidateParameters(n: int, m: int, sizeOfU: int): (r: Check)
    ensures r == TooFewVertices <==> n < 2
    ensures r == BadPartitionSize <==> 2 <= n && (sizeOfU < 1 || sizeOfU >= n)
    ensures r == TooFewEdges <==> 2 <= n && 1 <= sizeOfU < n && m < n - 1
    ensures r == Accepted <==> 2 <= n && 1 <= sizeOfU < n && n - 1 <= m <= sizeOfU * (n - sizeOfU)
  {
    if n < 2 then TooFewVertices
    else if sizeOfU < 1 || sizeOfU >= n then BadPartitionSize
    else if m < n - 1 then TooFewEdges
    else if m > sizeOfU * (n - sizeOfU) then TooManyEdges
    else Accepted
  }

  /** validateParameters as Java evaluates it: maxEdges = sizeOfU * sizeOfV
      is an int product, which wraps around once it passes IntMax. It agrees
      with ValidateParameters whenever that product fits in an int. */
  function ValidateParametersAsWritten(n: int, m: int, sizeOfU: int): (r: Check)
    ensures IsInt(sizeOfU * (n - sizeOfU)) ==> r == ValidateParameters(n, m, sizeOfU)
  {
    if n < 2 then TooFewVertices
    else if sizeOfU < 1 || sizeOfU >= n then BadPartitionSize
    else if m < n - 1 then TooFewEdges
    else if m > Wrap(sizeOfU * (n - sizeOfU)) then TooManyEdges
    else Accepted
  }

  /** With n = 100000 and sizeOfU = 50000, |U|·|V| = 2500000000 wraps to a
      negative int, so the spanning-tree edge count is refused as too many. */
  lemma OverflowRefusesTree()
    ensures ValidateParameters(100000, 99999, 50000) == Accepted
    ensures ValidateParametersAsWritten(100000, 99999, 50000) == TooManyEdges
  {
    assert 50000 * (100000 - 50000) == 2500000000;
    assert Wrap(2500000000) == 2500000000 - 0x1_0000_0000;
  }

  /** A spanning tree's n-1 edges always pass: |U|·|V| >= n-1 whenever
      both parts are non-empty, because (|U|-1)·(|V|-1) >= 0. */
  lemma TreeEdgesAccepted(n: int, sizeOfU: int)
    requires 2 <= n && 1 <= sizeOfU < n
    ensures ValidateParameters(n, n - 1, sizeOfU) == Accepted
  {
    var v := n - sizeOfU;
    assert (sizeOfU - 1) * (v - 1) >= 0;
    assert (sizeOfU - 1) * (v - 1) == sizeOfU * v - sizeOfU - v + 1;
  }

  /** Label i of generateStringLabelBipartiteGraph: "U1", "U2", ... for the
      first sizeOfU indices, then "V1", "V2", ... */
  function BipartiteLabel(i: int, sizeOfU: int): (s: string)
    ensures |s| > 1
    ensures s[0] == (if i < sizeOfU then 'U' else 'V')
  {
    if i < sizeOfU then "U" + IntString(i + 1) else "V" + IntString(i - sizeOfU + 1)
  }

  /** No two indices of one graph share a label. */
  lemma BipartiteLabelsDistinct(sizeOfU: int, i: int, j: int)
    requires 0 <= i < j
    ensures BipartiteLabel(i, sizeOfU) != BipartiteLabel(j, sizeOfU)
  {
    if BipartiteLabel(i, sizeOfU) == BipartiteLabel(j, sizeOfU) {
      if i < sizeOfU && j < sizeOfU {
        SamePrefixRest("U", IntString(i + 1), IntString(j + 1));
        DecimalStringInjective(i + 1, j + 1);
      } else if sizeOfU <= i {
        SamePrefixRest("V", IntString(i - sizeOfU + 1), IntString(j - sizeOfU + 1));
        assert IntString(i - sizeOfU + 1)[0] != '-';
        DecimalStringInjective(i - sizeOfU + 1, j - sizeOfU + 1);
      }
    }
  }

  /** The label loops of generateStringLabelBipartiteGraph, which run before
      the parameters are validated: new String[n] throws for a negative n,
      the first loop writes past the end when sizeOfU > n, and the second
      starts at a negative index when sizeOfU < 0. Otherwise label i is
      BipartiteLabel(i, sizeOfU). */
  method BipartiteLabels(n: int, sizeOfU: int) returns (r: Result<array<string>>)
    ensures n < 0 ==> r == Thrown(NegativeArraySize)
    ensures 0 <= n ==> (r.Ok? <==> 0 <= sizeOfU <= n)
    ensures 0 <= n && !r.Ok? ==> r == Thrown(IndexOutOfBounds)
    ensures r.Ok? ==> fresh(r.value) && r.value.Length == n
    ensures r.Ok? ==> forall i :: 0 <= i < n ==> r.value[i] == BipartiteLabel(i, sizeOfU)
  {
    if n < 0 {
      return Thrown(NegativeArraySize);
    }
    var labels := new string[n];
    var i := 0;
    while i < sizeOfU
      invariant 0 <= i <= n
      invariant sizeOfU >= 0 ==> i <= sizeOfU
      invariant forall k :: 0 <= k < i ==> labels[k] == BipartiteLabel(k, sizeOfU)
      decreases sizeOfU - i
    {
      if i >= n {
        return Thrown(IndexOutOfBounds);
      }
      labels[i] := "U" + IntString(i + 1);
      i := i + 1;
    }
    i := sizeOfU;
    while i < n
      invariant sizeOfU <= n
      invariant sizeOfU < 0 ==> i == sizeOfU
      invariant 0 <= sizeOfU ==> sizeOfU <= i <= n
      invariant 0 <= sizeOfU ==> forall k :: 0 <= k < i ==> labels[k] == BipartiteLabel(k, sizeOfU)
      decreases n - i
    {
      if i < 0 {
        return Thrown(IndexOutOfBounds);
      }
      labels[i] := "V" + IntString(i - sizeOfU + 1);
      i := i + 1;
    }
    return Ok(labels);
  }

  predicate StartsWith(name: string, c: char) {
    |name| > 0 && name[0] == c
  }

  /** getBipartitePartitions over a graph whose vertices are their own
      names: the vertices named "U..." in the first set, those named
      "V..." in the second, every other vertex in neither. */
  method GetBipartitePartitions(graph: Graph<string>) returns (setU: set<string>, setV: set<string>)
    ensures forall v :: v in setU <==> v in graph.adjacencyList && StartsWith(v, 'U')
    ensures forall v :: v in setV <==> v in graph.adjacencyList && StartsWith(v, 'V')
    ensures setU !! setV && setU + setV <= graph.adjacencyList.Keys
  {
    setU, setV := {}, {};
    var remaining := graph.adjacencyList.Keys;
    while remaining != {}
      invariant remaining <= graph.adjacencyList.Keys
      invariant forall v :: v in setU <==> v in graph.adjacencyList && v !in remaining && StartsWith(v, 'U')
      invariant forall v :: v in setV <==> v in graph.adjacencyList && v !in remaining && StartsWith(v, 'V')
      decreases |remaining|
    {
      var vertex :| vertex in remaining;
      if StartsWith(vertex, 'U') {
        setU := setU + {vertex};
      } else if StartsWith(vertex, 'V') {
        setV := setV + {vertex};
      }
      remaining := remaining - {vertex};
    }
  }

  /** The labels of an n-vertex graph with a first part of sizeOfU. */
  function LabelSet(n: int, sizeOfU: int): set<string> {
    set i | 0 <= i < n :: BipartiteLabel(i, sizeOfU)
  }

  /** On a graph labelled by generateStringLabelBipartiteGraph, the two
      partitions have exactly sizeOfU and n - sizeOfU vertices. */
  lemma PartitionSizes(n: int, sizeOfU: int, vertices: set<string>, setU: set<string>, setV: set<string>)
    requires 0 <= sizeOfU <= n
    requires vertices == LabelSet(n, sizeOfU)
    requires forall v :: v in setU <==> v in vertices && StartsWith(v, 'U')
    requires forall v :: v in setV <==> v in vertices && StartsWith(v, 'V')
    ensures |setU| == sizeOfU && |setV| == n - sizeOfU
  {
    assert setU == Image(0, sizeOfU, sizeOfU) by {
      forall v | v in setU
        ensures v in Image(0, sizeOfU, sizeOfU)
      {
        var i :| 0 <= i < n && BipartiteLabel(i, sizeOfU) == v;
      }
    }
    assert setV == Image(sizeOfU, n, sizeOfU) by {
      forall v | v in setV
        ensures v in Image(sizeOfU, n, sizeOfU)
      {
        var i :| 0 <= i < n && BipartiteLabel(i, sizeOfU) == v;
      }
    }
    ImageSize(0, sizeOfU, sizeOfU);
    ImageSize(sizeOfU, n, sizeOfU);
  }

  function Image(lo: int, hi: int, sizeOfU: int): set<string> {
    set i | lo <= i < hi :: BipartiteLabel(i, sizeOfU)
  }

  /** Distinct labels: hi - lo indices give hi - lo labels. */
  lemma {:induction false} ImageSize(lo: int, hi: int, sizeOfU: int)
    requires 0 <= lo <= hi
    ensures |Image(lo, hi, sizeOfU)| == hi - lo
    decreases hi - lo
  {
    if lo < hi {
      ImageSize(lo, hi - 1, sizeOfU);
      ImageLast(lo, hi, sizeOfU);
      LastFresh(lo, hi, sizeOfU);
    }
  }

  /** The image of [lo, hi) is that of [lo, hi - 1) and the label of hi - 1. */
  lemma ImageLast(lo: int, hi: int, sizeOfU: int)
    requires lo < hi
    ensures Image(lo, hi, sizeOfU) == Image(lo, hi - 1, sizeOfU) + {BipartiteLabel(hi - 1, sizeOfU)}
  {
    forall v | v in Image(lo, hi, sizeOfU)
      ensures v in Image(lo, hi - 1, sizeOfU) + {BipartiteLabel(hi - 1, sizeOfU)}
    {
      var i :| lo <= i < hi && BipartiteLabel(i, sizeOfU) == v;
      if i < hi - 1 {
        assert v in Image(lo, hi - 1, sizeOfU);
      }
    }
  }

  /** The label of hi - 1 is not among those below it. */
  lemma LastFresh(lo: int, hi: int, sizeOfU: int)
    requires 0 <= lo < hi
    ensures BipartiteLabel(hi - 1, sizeOfU) !in Image(lo, hi - 1, sizeOfU)
  {
    if BipartiteLabel(hi - 1, sizeOfU) in Image(lo, hi - 1, sizeOfU) {
      var i :| lo <= i < hi - 1 && BipartiteLabel(i, sizeOfU) == BipartiteLabel(hi - 1, sizeOfU);
      BipartiteLabelsDistinct(sizeOfU, i, hi - 1);
    }
  }

  /** The members of list that are in included, in list order, a member
      listed twice kept twice. */
  function Included<V(==)>(list: seq<V>, included: set<V>): (r: seq<V>)
    ensures |r| <= |list|
  {
    if |list| == 0 then []
    else Included(list[..|list| - 1], included) + (if list[|list| - 1] in included then [list[|list| - 1]] else [])
  }

  /** Included keeps every included member as often as list holds it, and
      nothing else. */
  lemma {:induction false} IncludedCounts<V>(list: seq<V>, included: set<V>)
    ensures forall x :: multiset(Included(list, included))[x] == if x in included then multiset(list)[x] else 0
  {
    if |list| > 0 {
      var init := list[..|list| - 1];
      IncludedCounts(init, included);
      assert list == init + [list[|list| - 1]];
    }
  }

  /** Included keeps the order of list: when every member is included it
      is list itself. */
  lemma {:induction false} IncludedAll<V>(list: seq<V>, included: set<V>)
    requires forall i :: 0 <= i < |list| ==> list[i] in included
    ensures Included(list, included) == list
  {
    if |list| > 0 {
      IncludedAll(list[..|list| - 1], included);
      assert list == list[..|list| - 1] + [list[|list| - 1]];
    }
  }

  /** getIncludedVertices: one pass over the list, appending each member
      the included set contains. */
  method GetIncludedVertices<V(==)>(list: seq<V>, includedVertices: set<V>) returns (included: seq<V>)
    ensures included == Included(list, includedVertices)
  {
    included := [];
    for i := 0 to |list|
      invariant included == Included(list[..i], includedVertices)
    {
      assert list[..i + 1][..i] == list[..i];
      if list[i] in includedVertices {
        included := included + [list[i]];
      }
    }
    assert list[..|list|] == list;
  }
}
