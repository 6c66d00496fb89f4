/** lab_3's Graph<V>: a directed or undirected graph kept as a map from each
    vertex to the list of its out-neighbours, in insertion order, plus the
    two static component searches that walk it with an explicit stack. */
module AdjacencyGraph {
  import opened Reachability

  /** The map after putIfAbsent(v, new empty list). */
  function WithVertex<V(==)>(adj: map<V, seq<V>>, v: V): (r: map<V, seq<V>>)
    ensures r.Keys == adj.Keys + {v}
    ensures forall u :: u in adj ==> r[u] == adj[u]
    ensures v !in adj ==> r[v] == []
  {
    if v in adj then adj else adj[v := []]
  }

  /** The map after addEdge(from, to): both ends become vertices and only
      from's list grows, by to at its end, whether or not the graph is
      directed. */
  function WithEdge<V(==)>(adj: map<V, seq<V>>, from: V, to: V): (r: map<V, seq<V>>)
    ensures r.Keys == adj.Keys + {from, to}
    ensures r[from] == Neighbours(adj, from) + [to]
    ensures forall u :: u in r && u != from ==> r[u] == Neighbours(adj, u)
  {
    var a := WithVertex(WithVertex(adj, from), to);
    a[from := a[from] + [to]]
  }

  /** List.remove(Object): drops the first occurrence of x, if any. */
  function RemoveFirst<V(==)>(s: seq<V>, x: V): (r: seq<V>)
    ensures |r| == if x in s then |s| - 1 else |s|
  {
    if |s| == 0 then []
    else if s[0] == x then s[1..]
    else [s[0]] + RemoveFirst(s[1..], x)
  }

  /** Position of the first occurrence of x in s. */
  function FirstIndex<V(==)>(s: seq<V>, x: V): (i: nat)
    requires x in s
    ensures i < |s| && s[i] == x && x !in s[..i]
  {
    if s[0] == x then 0
    else
      var j := FirstIndex(s[1..], x);
      assert s[..j + 1] == [s[0]] + s[1..][..j];
      j + 1
  }

  /** RemoveFirst keeps the list as it is when x is absent, and otherwise
      cuts out exactly the first position holding x. */
  lemma {:induction false} RemoveFirstCuts<V>(s: seq<V>, x: V)
    ensures x !in s ==> RemoveFirst(s, x) == s
    ensures x in s ==> RemoveFirst(s, x) == s[..FirstIndex(s, x)] + s[FirstIndex(s, x) + 1..]
  {
    if |s| > 0 && s[0] != x {
      RemoveFirstCuts(s[1..], x);
      if x in s[1..] {
        var j := FirstIndex(s[1..], x);
        assert s[..j + 1] == [s[0]] + s[1..][..j];
        assert s[j + 2..] == s[1..][j + 1..];
      } else {
        assert s == [s[0]] + s[1..];
      }
    }
  }

  /** RemoveFirst takes away one copy of x, if there is one, and nothing
      else. */
  lemma {:induction false} RemoveFirstMultiset<V>(s: seq<V>, x: V)
    ensures multiset(RemoveFirst(s, x)) == multiset(s) - multiset{x}
  {
    if |s| > 0 {
      assert s == [s[0]] + s[1..];
      if s[0] != x {
        RemoveFirstMultiset(s[1..], x);
      }
    }
  }

  /** Removing an x just appended to a list without x gives the list back. */
  lemma {:induction false} RemoveAppended<V>(s: seq<V>, x: V)
    requires x !in s
    ensures RemoveFirst(s + [x], x) == s
  {
    if |s| > 0 {
      assert (s + [x])[1..] == s[1..] + [x];
      RemoveAppended(s[1..], x);
    }
  }

  /** The map after removeEdge(from, to): the first from -> to entry goes,
      and in an undirected graph also the first to -> from entry; a vertex
      without a list is left alone. */
  function WithoutEdge<V(==)>(adj: map<V, seq<V>>, from: V, to: V, isDirected: bool): (r: map<V, seq<V>>)
    ensures r.Keys == adj.Keys
    ensures forall u :: u in r && u != from && (isDirected || u != to) ==> r[u] == adj[u]
    ensures from in adj && (isDirected || from != to) ==> r[from] == RemoveFirst(adj[from], to)
    ensures !isDirected && from != to && to in adj ==> r[to] == RemoveFirst(adj[to], from)
    ensures !isDirected && from == to && from in adj ==> r[from] == RemoveFirst(RemoveFirst(adj[from], to), from)
  {
    var a := if from in adj then adj[from := RemoveFirst(adj[from], to)] else adj;
    if !isDirected && to in a then a[to := RemoveFirst(a[to], from)] else a
  }

  /** Every listed neighbour is itself a vertex, as addEdge guarantees. */
  ghost predicate Closed<V(!new)>(adj: map<V, seq<V>>) {
    forall u, w :: u in adj && w in adj[u] ==> w in adj
  }

  /** Adding a vertex or an edge keeps the map closed. */
  lemma AddKeepsClosed<V(!new)>(adj: map<V, seq<V>>, from: V, to: V)
    requires Closed(adj)
    ensures Closed(WithVertex(adj, from)) && Closed(WithEdge(adj, from, to))
  {
    var r := WithEdge(adj, from, to);
    forall u, w | u in r && w in r[u]
      ensures w in r
    {
      if u == from && w !in Neighbours(adj, from) {
        assert w in Neighbours(adj, from) + [to];
      }
    }
  }

  /** Removing entries from lists keeps the map closed. */
  lemma RemoveKeepsClosed<V(!new)>(adj: map<V, seq<V>>, from: V, to: V, isDirected: bool)
    requires Closed(adj)
    ensures Closed(WithoutEdge(adj, from, to, isDirected))
  {
    var r := WithoutEdge(adj, from, to, isDirected);
    forall u, w | u in r && w in r[u]
      ensures w in adj[u]
    {
      if u == from || u == to {
        RemoveFirstMultiset(adj[u], to);
        RemoveFirstMultiset(adj[u], from);
        RemoveFirstMultiset(RemoveFirst(adj[u], to), from);
        assert w in multiset(r[u]);
      }
    }
  }

  /** In a closed map everything reachable from a vertex is a vertex. */
  lemma ReachStaysInside<V(!new)>(adj: map<V, seq<V>>, s: V, v: V)
    requires Closed(adj) && s in adj && Reachable(adj, s, v)
    ensures v in adj
  {
    ClosedHoldsReach(adj, s, v, {}, adj.Keys);
  }

  /** removeEdge undoes addEdge on a directed graph: from's list is back to
      what it was when to was not listed there yet, and otherwise holds the
      same entries in a different order; every other list is untouched. */
  lemma RemoveUndoesAdd<V(!new)>(adj: map<V, seq<V>>, from: V, to: V)
    requires from in adj && to in adj
    ensures WithoutEdge(WithEdge(adj, from, to), from, to, true).Keys == adj.Keys
    ensures forall u :: u in adj && u != from ==> WithoutEdge(WithEdge(adj, from, to), from, to, true)[u] == adj[u]
    ensures multiset(WithoutEdge(WithEdge(adj, from, to), from, to, true)[from]) == multiset(adj[from])
    ensures to !in adj[from] ==> WithoutEdge(WithEdge(adj, from, to), from, to, true)[from] == adj[from]
  {
    var e := WithEdge(adj, from, to);
    var r := WithoutEdge(e, from, to, true);
    assert r[from] == RemoveFirst(adj[from] + [to], to);
    RemoveFirstMultiset(adj[from] + [to], to);
    assert multiset(adj[from] + [to]) == multiset(adj[from]) + multiset{to};
    if to !in adj[from] {
      RemoveAppended(adj[from], to);
    }
  }

  /** Union of a list of vertex sets. */
  ghost function Union<V>(cs: seq<set<V>>): set<V> {
    if |cs| == 0 then {} else Union(cs[..|cs| - 1]) + cs[|cs| - 1]
  }

  lemma {:induction false} InUnion<V>(cs: seq<set<V>>, v: V)
    ensures v in Union(cs) <==> exists i :: 0 <= i < |cs| && v in cs[i]
  {
    if |cs| > 0 {
      InUnion(cs[..|cs| - 1], v);
      if v in Union(cs[..|cs| - 1]) {
        var i :| 0 <= i < |cs| - 1 && v in cs[..|cs| - 1][i];
        assert v in cs[i];
      }
      if exists i :: 0 <= i < |cs| && v in cs[i] {
        var i :| 0 <= i < |cs| && v in cs[i];
        if i < |cs| - 1 {
          assert v in cs[..|cs| - 1][i];
        }
      }
    }
  }

  class Graph<V(==, !new)> {
    var adjacencyList: map<V, seq<V>>
    const isDirected: bool

    /** Every list entry names a vertex. addVertex, addEdge and removeEdge
        keep this; the map handed out by getAdjacencyList could break it. */
    ghost predicate Valid()
      reads this
    {
      Closed(adjacencyList)
    }

    /** Graph(isDirected): an empty graph. */
    constructor (isDirected: bool)
      ensures this.isDirected == isDirected && adjacencyList == map[]
      ensures Valid()
    {
      this.adjacencyList := map[];
      this.isDirected := isDirected;
    }

    /** Graph(other): a copy with the same direction and, for every vertex of
        other in whatever order its key set yields them, a new list holding
        the same neighbours. */
    constructor Copy(other: Graph<V>)
      ensures isDirected == other.isDirected && adjacencyList == other.adjacencyList
      ensures other.Valid() ==> Valid()
    {
      this.isDirected := other.isDirected;
      this.adjacencyList := map[];
      new;
      var remaining := other.adjacencyList.Keys;
      while remaining != {}
        invariant remaining <= other.adjacencyList.Keys
        invariant adjacencyList.Keys == other.adjacencyList.Keys - remaining
        invariant forall v :: v in adjacencyList ==> adjacencyList[v] == other.adjacencyList[v]
        decreases remaining
      {
        var vertex :| vertex in remaining;
        adjacencyList := adjacencyList[vertex := other.adjacencyList[vertex]];
        remaining := remaining - {vertex};
      }
    }

    /** addVertex: a no-op for a vertex already present. */
    method AddVertex(vertex: V)
      modifies this
      ensures adjacencyList == WithVertex(old(adjacencyList), vertex)
      ensures old(Valid()) ==> Valid()
    {
      if vertex !in adjacencyList {
        adjacencyList := adjacencyList[vertex := []];
      }
      if old(Valid()) {
        AddKeepsClosed(old(adjacencyList), vertex, vertex);
      }
    }

    method AddEdge(from: V, to: V)
      modifies this
      ensures adjacencyList == WithEdge(old(adjacencyList), from, to)
      ensures old(Valid()) ==> Valid()
    {
      if from !in adjacencyList {
        adjacencyList := adjacencyList[from := []];
      }
      if to !in adjacencyList {
        adjacencyList := adjacencyList[to := []];
      }
      adjacencyList := adjacencyList[from := adjacencyList[from] + [to]];
      if old(Valid()) {
        AddKeepsClosed(old(adjacencyList), from, to);
      }
    }

    method RemoveEdge(from: V, to: V)
      modifies this
      ensures adjacencyList == WithoutEdge(old(adjacencyList), from, to, isDirected)
      ensures old(Valid()) ==> Valid()
    {
      if from in adjacencyList {
        adjacencyList := adjacencyList[from := RemoveFirst(adjacencyList[from], to)];
      }
      if !isDirected {
        if to in adjacencyList {
          adjacencyList := adjacencyList[to := RemoveFirst(adjacencyList[to], from)];
        }
      }
      if old(Valid()) {
        RemoveKeepsClosed(old(adjacencyList), from, to, isDirected);
      }
    }
  }

  /** findConnectedComponent(graph, startNode, visited): pops a vertex, and if
      it is new marks it and pushes its unmarked neighbours in list order.
      The set passed in is updated in place in the source; here it goes in
      as visited0 and comes back as visited, grown by exactly the vertices
      reachable from startNode without passing through visited0. */
  method FindConnectedComponent<V(==, !new)>(graph: Graph<V>, startNode: V, visited0: set<V>) returns (visited: set<V>)
    ensures forall v :: v in visited <==> v in visited0 || ReachableAvoiding(graph.adjacencyList, startNode, v, visited0)
  {
    var adj := graph.adjacencyList;
    ghost var bound := Universe(adj) + {startNode};
    visited := visited0;
    var stack := [startNode];
    while stack != []
      invariant SearchState(adj, startNode, visited0, bound, visited, stack)
      decreases |bound - visited|, |stack|
    {
      var current := stack[|stack| - 1];
      ghost var before := stack;
      stack := stack[..|stack| - 1];
      assert before == stack + [current];
      if current !in visited {
        var marked := visited + {current};
        var neighbors := Neighbours(adj, current);
        var pushed := PushUnmarked(stack, neighbors, marked);
        VisitStep(adj, startNode, visited0, bound, visited, stack, current, pushed);
        visited, stack := marked, pushed;
      } else {
        PendingAfterSkip(adj, visited0, visited, before, stack, current);
      }
    }
    forall v | ReachableAvoiding(adj, startNode, v, visited0)
      ensures v in visited
    {
      ClosedHoldsReach(adj, startNode, v, visited0, visited);
    }
  }

  /** The entries of ns outside marked, in their order in ns. */
  function Unmarked<V(==, !new)>(ns: seq<V>, marked: set<V>): (r: seq<V>)
    ensures forall x :: x in r <==> x in ns && x !in marked
  {
    if |ns| == 0 then []
    else
      var last := ns[|ns| - 1];
      assert ns == ns[..|ns| - 1] + [last];
      Unmarked(ns[..|ns| - 1], marked) + (if last in marked then [] else [last])
  }

  /** The inner loop of findConnectedComponent: pushes, in list order,
      every neighbour not yet marked. */
  method PushUnmarked<V(==, !new)>(stack: seq<V>, neighbors: seq<V>, visited: set<V>) returns (pushed: seq<V>)
    ensures pushed == stack + Unmarked(neighbors, visited)
  {
    pushed := stack;
    for i := 0 to |neighbors|
      invariant pushed == stack + Unmarked(neighbors[..i], visited)
    {
      var neighbor := neighbors[i];
      assert neighbors[..i + 1] == neighbors[..i] + [neighbor];
      if neighbor !in visited {
        pushed := pushed + [neighbor];
      }
    }
    assert neighbors[..|neighbors|] == neighbors;
  }

  /** The loop invariant of findConnectedComponent: what was marked since
      the start lies in bound and is reachable from s avoiding the
      initially marked set, and so is (or is s itself) every stacked vertex;
      s is marked or stacked; and every neighbour of a newly marked vertex
      is marked or stacked. */
  ghost predicate SearchState<V(!new)>(adj: map<V, seq<V>>, s: V, avoid: set<V>, bound: set<V>, visited: set<V>, stack: seq<V>) {
    && avoid <= visited
    && (forall v :: v in visited && v !in avoid ==> v in bound && ReachableAvoiding(adj, s, v, avoid))
    && (forall i :: 0 <= i < |stack| ==> stack[i] in bound && (stack[i] == s || ReachableAvoiding(adj, s, stack[i], avoid)))
    && (s in visited || s in stack)
    && Pending(adj, avoid, visited, stack)
  }

  /** Every neighbour of a vertex marked during the search is marked or
      still waiting on the stack. */
  ghost predicate Pending<V(!new)>(adj: map<V, seq<V>>, avoid: set<V>, visited: set<V>, stack: seq<V>) {
    forall u, w :: u in visited && u !in avoid && w in Neighbours(adj, u) ==> w in visited || w in stack
  }

  /** Marking a popped, unmarked vertex and pushing its unmarked
      neighbours keeps the search invariant, and marks one more vertex of
      bound. */
  lemma VisitStep<V(!new)>(adj: map<V, seq<V>>, s: V, avoid: set<V>, bound: set<V>, visited: set<V>, popped: seq<V>, current: V, stack: seq<V>)
    requires bound == Universe(adj) + {s}
    requires SearchState(adj, s, avoid, bound, visited, popped + [current]) && current !in visited
    requires stack == popped + Unmarked(Neighbours(adj, current), visited + {current})
    ensures SearchState(adj, s, avoid, bound, visited + {current}, stack)
    ensures current in bound && |bound - (visited + {current})| < |bound - visited|
  {
    var before := popped + [current];
    assert current == before[|before| - 1];
    assert bound - (visited + {current}) == (bound - visited) - {current};
    assert ReachableAvoiding(adj, s, current, avoid) by {
      if current == s {
        ReachSelf(adj, s, avoid);
      }
    }
    VisitStack(adj, s, avoid, bound, before, popped, current, visited + {current}, stack);
    VisitPending(adj, avoid, visited, before, popped, current, stack);
  }

  /** The vertices pushed for a newly marked, reachable vertex are
      reachable too. */
  lemma VisitStack<V(!new)>(adj: map<V, seq<V>>, s: V, avoid: set<V>, bound: set<V>, before: seq<V>, popped: seq<V>, current: V, marked: set<V>, stack: seq<V>)
    requires bound == Universe(adj) + {s} && avoid <= marked
    requires before == popped + [current]
    requires forall i :: 0 <= i < |before| ==> before[i] in bound && (before[i] == s || ReachableAvoiding(adj, s, before[i], avoid))
    requires ReachableAvoiding(adj, s, current, avoid)
    requires stack == popped + Unmarked(Neighbours(adj, current), marked)
    ensures forall i :: 0 <= i < |stack| ==> stack[i] in bound && (stack[i] == s || ReachableAvoiding(adj, s, stack[i], avoid))
  {
    forall k | 0 <= k < |stack|
      ensures stack[k] in bound && (stack[k] == s || ReachableAvoiding(adj, s, stack[k], avoid))
    {
      if k >= |popped| {
        assert stack[k] in Unmarked(Neighbours(adj, current), marked);
        NeighbourInUniverse(adj, current, stack[k]);
        ReachStep(adj, s, current, stack[k], avoid);
      } else {
        assert stack[k] == before[k];
      }
    }
  }

  /** Neighbours of the newly marked vertex are marked or pushed, and the
      pending neighbours of the others stay marked or stacked. */
  lemma VisitPending<V(!new)>(adj: map<V, seq<V>>, avoid: set<V>, visited: set<V>, before: seq<V>, popped: seq<V>, current: V, stack: seq<V>)
    requires before == popped + [current]
    requires Pending(adj, avoid, visited, before)
    requires stack == popped + Unmarked(Neighbours(adj, current), visited + {current})
    ensures Pending(adj, avoid, visited + {current}, stack)
  {
    forall u, w | u in visited + {current} && u !in avoid && w in Neighbours(adj, u)
      ensures w in visited + {current} || w in stack
    {
      if u != current {
        assert w in visited || w in before;
      }
    }
  }

  /** Popping a vertex that is already marked keeps the search invariant. */
  lemma PendingAfterSkip<V(!new)>(adj: map<V, seq<V>>, avoid: set<V>, visited: set<V>, before: seq<V>, popped: seq<V>, current: V)
    requires before == popped + [current] && current in visited
    requires Pending(adj, avoid, visited, before)
    ensures Pending(adj, avoid, visited, popped)
  {
  }

  /** findDisconnectedComponents(graph): for each vertex, in whatever order
      the key set yields them, that no earlier component holds, the set of
      vertices reachable from it becomes the next component. The ghost
      seeds are those starting vertices. Every vertex lands in some
      component; in a graph whose lists are symmetric the components are
      pairwise disjoint, and in a valid graph they hold nothing but vertices. */
  method FindDisconnectedComponents<V(==, !new)>(graph: Graph<V>) returns (components: seq<set<V>>, ghost seeds: seq<V>)
    ensures |seeds| == |components|
    ensures forall i :: 0 <= i < |seeds| ==> seeds[i] in graph.adjacencyList
    ensures forall i, v :: 0 <= i < |components| ==> (v in components[i] <==> Reachable(graph.adjacencyList, seeds[i], v))
    ensures forall i, j :: 0 <= j < i < |seeds| ==> seeds[i] !in components[j]
    ensures graph.adjacencyList.Keys <= Union(components)
    ensures Symmetric(graph.adjacencyList) ==> forall i, j :: 0 <= i < j < |components| ==> components[i] !! components[j]
    ensures graph.Valid() ==> Union(components) <= graph.adjacencyList.Keys
  {
    var adj := graph.adjacencyList;
    components := [];
    seeds := [];
    var allNodes := adj.Keys;
    var remaining := allNodes;
    var visited: set<V> := {};
    while remaining != {}
      invariant remaining <= allNodes
      invariant visited == Union(components)
      invariant allNodes - remaining <= visited
      invariant |seeds| == |components|
      invariant forall i :: 0 <= i < |seeds| ==> seeds[i] in adj
      invariant forall i, v :: 0 <= i < |components| ==> (v in components[i] <==> Reachable(adj, seeds[i], v))
      invariant forall i, j :: 0 <= j < i < |seeds| ==> seeds[i] !in components[j]
      decreases remaining
    {
      var node :| node in remaining;
      remaining := remaining - {node};
      if node !in visited {
        var componentNodes := FindConnectedComponent(graph, node, {});
        forall j | 0 <= j < |components|
          ensures node !in components[j]
        {
          InUnion(components, node);
        }
        ReachSelf(adj, node, {});
        assert Union(components + [componentNodes]) == visited + componentNodes by {
          assert (components + [componentNodes])[..|components|] == components;
        }
        visited := visited + componentNodes;
        components := components + [componentNodes];
        seeds := seeds + [node];
      }
    }
    if Symmetric(adj) {
      forall i, j | 0 <= i < j < |components|
        ensures components[i] !! components[j]
      {
        if w :| w in components[i] && w in components[j] {
          SharedVertexJoins(adj, seeds[i], seeds[j], w);
          assert false;
        }
      }
    }
    if graph.Valid() {
      forall v | v in Union(components)
        ensures v in adj
      {
        InUnion(components, v);
        var i :| 0 <= i < |components| && v in components[i];
        ReachStaysInside(adj, seeds[i], v);
      }
    }
  }
}
