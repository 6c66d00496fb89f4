
/** The loop invariant of DepthFirstSearch.dfs and the lemmas that show
    one pop keeps it. */
module DfsInvariant {
  import opened Reachability
  import opened Frontier

  /** The loop invariant of dfs. order lists the pushed vertices in push
      order: it starts at s, has no repeats, and the marked set is exactly
      its entries, each in bound and reachable from s. done holds the
      vertices already popped: a marked vertex is popped or still on the
      stack, every neighbour of a popped vertex is marked, and the stack is
      no taller than the number of vertices pushed so far. */
  ghost predicate DfsState<V(!new)>(adj: map<V, seq<V>>, s: V, bound: set<V>, visited: set<V>, order: seq<V>, stack: seq<V>, done: set<V>) {
    && |order| > 0 && order[0] == s
    && Distinct(order)
    && (forall v :: v in visited <==> v in order)
    && (forall i :: 0 <= i < |order| ==> order[i] in bound && Reachable(adj, s, order[i]))
    && (forall v :: v in visited <==> v in done || v in stack)
    && (forall u, w :: u in done && w in Neighbours(adj, u) ==> w in visited)
    && |stack| <= |order|
  }

  /** The value dfs returns, run on values from a given state: the top is
      popped, its unmarked neighbours are marked and pushed from the last
      listed to the first, and whenever one was pushed the largest size is
      raised to the stack's new size; with the stack empty the largest
      size seen is the result. */
  function LargestStack<V(==, !new)>(adj: map<V, seq<V>>, visited: set<V>, stack: seq<V>, largest: int): (r: int)
    ensures r >= largest
    decreases |Universe(adj) - visited|, |stack|
  {
    if stack == [] then largest
    else
      var ns := Neighbours(adj, stack[|stack| - 1]);
      var stack' := stack[..|stack| - 1] + Fresh(Reverse(ns), visited);
      NeighboursInUniverse(adj, stack[|stack| - 1]);
      ReverseMembers(ns);
      FreshShrinks(Universe(adj), Reverse(ns), visited);
      assert MarkAll(visited, Reverse(ns)) == MarkAll(visited, ns);
      LargestStack(adj, MarkAll(visited, ns), stack', if |stack'| > |stack[..|stack| - 1]| then Max(largest, |stack'|) else largest)
  }

  /** One pass of the loop leaves the value LargestStack gives unchanged. */
  lemma LargestStackStep<V(!new)>(adj: map<V, seq<V>>, visited: set<V>, stack: seq<V>, largest: int,
                                     visited': set<V>, stack': seq<V>, largest': int)
    requires stack != []
    requires stack' == stack[..|stack| - 1] + Fresh(Reverse(Neighbours(adj, stack[|stack| - 1])), visited)
    requires forall x :: x in visited' <==> x in visited || x in Neighbours(adj, stack[|stack| - 1])
    requires largest' == if |stack'| > |stack[..|stack| - 1]| then Max(largest, |stack'|) else largest
    ensures LargestStack(adj, visited', stack', largest') == LargestStack(adj, visited, stack, largest)
  {
    assert visited' == MarkAll(visited, Neighbours(adj, stack[|stack| - 1]));
  }

  /** The invariant from its parts, so that a step lemma can establish it
      one part at a time. */
  lemma StateIntro<V(!new)>(adj: map<V, seq<V>>, s: V, bound: set<V>, visited: set<V>, order: seq<V>, stack: seq<V>, done: set<V>)
    requires |order| > 0 && order[0] == s
    requires Distinct(order)
    requires (forall v :: v in visited <==> v in order)
    requires (forall i :: 0 <= i < |order| ==> order[i] in bound && Reachable(adj, s, order[i]))
    requires (forall v :: v in visited <==> v in done || v in stack)
    requires (forall u, w :: u in done && w in Neighbours(adj, u) ==> w in visited)
    requires |stack| <= |order|
    ensures DfsState(adj, s, bound, visited, order, stack, done)
  {}

  /** Popping the top and pushing its unmarked neighbours back to front
      keeps the invariant, and either marks a new vertex of bound or
      shortens the stack. */
  lemma DfsStep<V(!new)>(adj: map<V, seq<V>>, s: V, bound: set<V>, visited: set<V>, order: seq<V>, stack: seq<V>, done: set<V>, visited': set<V>, added: seq<V>)
    requires bound == Universe(adj) + {s}
    requires DfsState(adj, s, bound, visited, order, stack, done) && |stack| > 0
    requires added == Fresh(Reverse(Neighbours(adj, stack[|stack| - 1])), visited)
    requires forall x :: x in visited' <==> x in visited || x in Neighbours(adj, stack[|stack| - 1])
    ensures DfsState(adj, s, bound, visited', order + added, stack[..|stack| - 1] + added, done + {stack[|stack| - 1]})
    ensures |bound - visited'| < |bound - visited| || (visited' == visited && |stack[..|stack| - 1] + added| < |stack|)
  {
    var top := stack[|stack| - 1];
    var ns := Neighbours(adj, top);
    var stack' := stack[..|stack| - 1] + added;
    assert top in stack;
    FreshMembers(Reverse(ns), visited);
    ReverseMembers(ns);
    FreshDistinct(Reverse(ns), visited);
    AppendDistinct(order, added);
    var k :| 0 <= k < |order| && order[k] == top;
    AddedReachable(adj, s, bound, order, top, added);
    MarksStep(visited, order, ns, visited', added);
    Shrinks(bound, visited, visited', order, added);
    PopStep(adj, visited, stack, done, visited', added);
    StateIntro(adj, s, bound, visited', order + added, stack', done + {top});
  }

  /** After the pop, the popped vertex is done and the pushed ones are on
      the stack, so marked vertices are still done or stacked, and the
      neighbours of every done vertex are marked. */
  lemma PopStep<V(!new)>(adj: map<V, seq<V>>, visited: set<V>, stack: seq<V>, done: set<V>, visited': set<V>, added: seq<V>)
    requires |stack| > 0
    requires forall v :: v in visited <==> v in done || v in stack
    requires forall u, w :: u in done && w in Neighbours(adj, u) ==> w in visited
    requires forall x :: x in visited' <==> x in visited || x in Neighbours(adj, stack[|stack| - 1])
    requires forall x :: x in added <==> x in Neighbours(adj, stack[|stack| - 1]) && x !in visited
    ensures forall v :: v in visited' <==> v in done + {stack[|stack| - 1]} || v in stack[..|stack| - 1] + added
    ensures forall u, w :: u in done + {stack[|stack| - 1]} && w in Neighbours(adj, u) ==> w in visited'
  {
    var top := stack[|stack| - 1];
    var rest := stack[..|stack| - 1];
    assert stack == rest + [top];
    forall v | v in visited'
      ensures v in done + {top} || v in rest + added
    {
      if v in visited && v !in done && v != top {
        assert v in rest;
      }
    }
  }

  /** With the stack empty every marked vertex is done, so the marked set
      is closed under neighbours and order holds exactly the vertices
      reachable from s. */
  lemma DfsDone<V(!new)>(adj: map<V, seq<V>>, s: V, bound: set<V>, visited: set<V>, order: seq<V>, done: set<V>)
    requires DfsState(adj, s, bound, visited, order, [], done)
    ensures forall v :: v in order <==> Reachable(adj, s, v)
  {
    forall v | Reachable(adj, s, v)
      ensures v in order
    {
      ClosedHoldsReach(adj, s, v, {}, visited);
    }
  }
}
