/** The loop invariant of BreadthFirstSearch.bfs and the lemmas that show
    one dequeue keeps it. */
module BfsInvariant {
  import opened Reachability
  import opened Frontier

  /** The loop invariant of bfs. order lists the enqueued vertices, the
      first head of them already dequeued: order starts at s and has no
      repeats, the marked set is exactly its entries, every entry lies in
      bound and is reachable from s, and every neighbour of a dequeued
      vertex is marked. */
  ghost predicate BfsState<V(!new)>(adj: map<V, seq<V>>, s: V, bound: set<V>, visited: set<V>, order: seq<V>, head: int) {
    && 0 <= head <= |order| && |order| > 0 && order[0] == s
    && Distinct(order)
    && (forall v :: v in visited <==> v in order)
    && (forall i :: 0 <= i < |order| ==> order[i] in bound && Reachable(adj, s, order[i]))
    && (forall i, w :: 0 <= i < head && w in Neighbours(adj, order[i]) ==> w in visited)
  }

  /** The value bfs returns, run on values from a given state: the head is
      dequeued, its unmarked neighbours are marked and enqueued in list
      order, and whenever one was enqueued the largest size is raised to
      the queue's new size; with the queue empty the largest size seen is
      the result. */
  function LargestQueue<V(==, !new)>(adj: map<V, seq<V>>, visited: set<V>, queue: seq<V>, largest: int): (r: int)
    ensures r >= largest
    decreases |Universe(adj) - visited|, |queue|
  {
    if queue == [] then largest
    else
      var ns := Neighbours(adj, queue[0]);
      var queue' := queue[1..] + Fresh(ns, visited);
      NeighboursInUniverse(adj, queue[0]);
      FreshShrinks(Universe(adj), ns, visited);
      LargestQueue(adj, MarkAll(visited, ns), queue', if |queue'| > |queue[1..]| then Max(largest, |queue'|) else largest)
  }

  /** One pass of the loop leaves the value LargestQueue gives unchanged. */
  lemma LargestQueueStep<V(!new)>(adj: map<V, seq<V>>, visited: set<V>, queue: seq<V>, largest: int,
                                     visited': set<V>, queue': seq<V>, largest': int)
    requires queue != []
    requires queue' == queue[1..] + Fresh(Neighbours(adj, queue[0]), visited)
    requires forall x :: x in visited' <==> x in visited || x in Neighbours(adj, queue[0])
    requires largest' == if |queue'| > |queue[1..]| then Max(largest, |queue'|) else largest
    ensures LargestQueue(adj, visited', queue', largest') == LargestQueue(adj, visited, queue, largest)
  {
    assert visited' == MarkAll(visited, Neighbours(adj, queue[0]));
  }

  /** Dequeuing order[head] and enqueuing its added neighbours keeps the
      invariant, and either marks a new vertex of bound or shortens the
      queue. */
  lemma BfsStep<V(!new)>(adj: map<V, seq<V>>, s: V, bound: set<V>, visited: set<V>, order: seq<V>, head: int, visited': set<V>, order': seq<V>)
    requires bound == Universe(adj) + {s}
    requires BfsState(adj, s, bound, visited, order, head) && head < |order|
    requires order' == order + Fresh(Neighbours(adj, order[head]), visited)
    requires forall x :: x in visited' <==> x in visited || x in Neighbours(adj, order[head])
    ensures BfsState(adj, s, bound, visited', order', head + 1)
    ensures |bound - visited'| < |bound - visited| || (visited' == visited && order' == order)
  {
    var current := order[head];
    var ns := Neighbours(adj, current);
    var added := Fresh(ns, visited);
    FreshMembers(ns, visited);
    FreshDistinct(ns, visited);
    AppendDistinct(order, added);
    AddedReachable(adj, s, bound, order, current, added);
    MarksStep(visited, order, ns, visited', added);
    ExpandStep(adj, visited, order, head, visited', added);
    Shrinks(bound, visited, visited', order, added);
  }

  /** Once order[head] is dequeued, all its neighbours are marked. */
  lemma ExpandStep<V(!new)>(adj: map<V, seq<V>>, visited: set<V>, order: seq<V>, head: int, visited': set<V>, added: seq<V>)
    requires 0 <= head < |order|
    requires forall i, w :: 0 <= i < head && w in Neighbours(adj, order[i]) ==> w in visited
    requires forall x :: x in visited' <==> x in visited || x in Neighbours(adj, order[head])
    ensures forall i, w :: 0 <= i < head + 1 && w in Neighbours(adj, (order + added)[i]) ==> w in visited'
  {
    forall i, w | 0 <= i < head + 1 && w in Neighbours(adj, (order + added)[i])
      ensures w in visited'
    {
      assert (order + added)[i] == order[i];
    }
  }

  /** The queue is the part of order not yet dequeued. */
  lemma QueueStep<V>(order: seq<V>, head: int, queue: seq<V>, added: seq<V>)
    requires 0 <= head < |order| && queue == order[head..]
    ensures queue[0] == order[head]
    ensures queue[1..] + added == (order + added)[head + 1..]
  {
  }

  /** With the queue empty every enqueued vertex has been expanded, so the
      marked set is closed under neighbours and order holds exactly the
      vertices reachable from s. */
  lemma BfsDone<V(!new)>(adj: map<V, seq<V>>, s: V, bound: set<V>, visited: set<V>, order: seq<V>, head: int)
    requires BfsState(adj, s, bound, visited, order, head) && head == |order|
    ensures forall v :: v in order <==> Reachable(adj, s, v)
  {
    forall v | Reachable(adj, s, v)
      ensures v in order
    {
      forall u, w | u in visited && w in Neighbours(adj, u)
        ensures w in visited
      {
        var i :| 0 <= i < |order| && order[i] == u;
      }
      ClosedHoldsReach(adj, s, v, {}, visited);
    }
  }
}
