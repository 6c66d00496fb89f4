/** What the breadth- and depth-first searches add to their queue or stack
    while they walk one neighbour list, marking each vertex as they add it,
    and the facts about one such step that both searches share. */
module Frontier {
  import opened Reachability

  /** Math.max, used for the largest queue or stack size seen. */
  function Max(a: int, b: int): (m: int)
    ensures m >= a && m >= b && (m == a || m == b)
  {
    if a >= b then a else b
  }

  /** No entry occurs twice. */
  ghost predicate Distinct<V>(s: seq<V>) {
    forall i, j :: 0 <= i < j < |s| ==> s[i] != s[j]
  }

  /** The entries of ns, walked front to back, that are not marked yet,
      each marked as soon as it is taken: the unmarked entries in list
      order, a repeated entry only once (FreshMembers, FreshDistinct). */
  function Fresh<V(==, !new)>(ns: seq<V>, marked: set<V>): (r: seq<V>)
    ensures |r| <= |ns|
    decreases |ns|
  {
    if |ns| == 0 then []
    else if ns[0] in marked then Fresh(ns[1..], marked)
    else [ns[0]] + Fresh(ns[1..], marked + {ns[0]})
  }

  /** Fresh takes exactly the unmarked entries. */
  lemma {:induction false} FreshMembers<V(!new)>(ns: seq<V>, marked: set<V>)
    ensures forall x :: x in Fresh(ns, marked) <==> x in ns && x !in marked
    decreases |ns|
  {
    if |ns| > 0 {
      if ns[0] in marked {
        FreshMembers(ns[1..], marked);
        assert ns == [ns[0]] + ns[1..];
      } else {
        FreshMembers(ns[1..], marked + {ns[0]});
        assert ns == [ns[0]] + ns[1..];
      }
    }
  }

  /** Fresh takes no entry twice. */
  lemma {:induction false} FreshDistinct<V(!new)>(ns: seq<V>, marked: set<V>)
    ensures Distinct(Fresh(ns, marked))
    decreases |ns|
  {
    if |ns| > 0 {
      if ns[0] in marked {
        FreshDistinct(ns[1..], marked);
      } else {
        var rest := Fresh(ns[1..], marked + {ns[0]});
        FreshDistinct(ns[1..], marked + {ns[0]});
        FreshMembers(ns[1..], marked + {ns[0]});
        assert ns[0] !in rest;
        AppendDistinct([ns[0]], rest);
      }
    }
  }

  /** ns back to front, the order of a loop running i from size-1 down
      to 0. */
  function Reverse<V>(ns: seq<V>): (r: seq<V>)
    ensures |r| == |ns|
  {
    if |ns| == 0 then [] else [ns[|ns| - 1]] + Reverse(ns[..|ns| - 1])
  }

  /** Reverse(ns) holds the entries of ns back to front. */
  lemma {:induction false} ReverseAt<V>(ns: seq<V>)
    ensures forall i :: 0 <= i < |ns| ==> Reverse(ns)[i] == ns[|ns| - 1 - i]
  {
    if |ns| > 0 {
      var init := ns[..|ns| - 1];
      ReverseAt(init);
      forall i | 1 <= i < |ns|
        ensures Reverse(ns)[i] == ns[|ns| - 1 - i]
      {
        assert Reverse(ns)[i] == Reverse(init)[i - 1];
      }
    }
  }

  /** Nothing is fresh when every entry is marked. */
  lemma {:induction false} NoneFresh<V(!new)>(ns: seq<V>, marked: set<V>)
    requires forall k :: 0 <= k < |ns| ==> ns[k] in marked
    ensures Fresh(ns, marked) == []
  {
    if |ns| > 0 {
      NoneFresh(ns[1..], marked);
    }
  }

  /** Pushing the fresh neighbours in reverse list order leaves the first
      unmarked neighbour on top of the stack, when no neighbour is listed
      twice. */
  lemma {:induction false} FirstOnTop<V(!new)>(ns: seq<V>, marked: set<V>, f: int)
    requires Distinct(ns)
    requires 0 <= f < |ns| && ns[f] !in marked
    requires forall k :: 0 <= k < f ==> ns[k] in marked
    ensures |Fresh(Reverse(ns), marked)| > 0
    ensures Fresh(Reverse(ns), marked)[|Fresh(Reverse(ns), marked)| - 1] == ns[f]
  {
    var n := |ns|;
    var init := ns[..n - 1];
    var last := ns[n - 1];
    var m := if last in marked then marked else marked + {last};
    FreshReverseStep(ns, marked);
    if f == n - 1 {
      assert Fresh(Reverse(init), m) == [] by {
        ReverseAt(init);
        forall k | 0 <= k < |init|
          ensures Reverse(init)[k] in m
        {
          assert Reverse(init)[k] == init[n - 2 - k];
        }
        NoneFresh(Reverse(init), m);
      }
    } else {
      assert init[f] == ns[f] && ns[f] != last;
      assert Distinct(init);
      FirstOnTop(init, m, f);
    }
  }

  /** The last entry is the first one the reversed walk meets. */
  lemma FreshReverseStep<V(!new)>(ns: seq<V>, marked: set<V>)
    requires |ns| > 0
    ensures var last := ns[|ns| - 1];
      Fresh(Reverse(ns), marked) ==
        if last in marked then Fresh(Reverse(ns[..|ns| - 1]), marked)
        else [last] + Fresh(Reverse(ns[..|ns| - 1]), marked + {last})
  {
    var r := Reverse(ns[..|ns| - 1]);
    assert ([ns[|ns| - 1]] + r)[1..] == r;
  }

  /** Appending a list without repeats whose entries are all new keeps a
      list without repeats. */
  lemma AppendDistinct<V>(a: seq<V>, b: seq<V>)
    requires Distinct(a) && Distinct(b)
    requires forall x :: x in b ==> x !in a
    ensures Distinct(a + b)
  {
    forall i, j | 0 <= i < j < |a + b|
      ensures (a + b)[i] != (a + b)[j]
    {
      if i < |a| <= j {
        assert (a + b)[j] == b[j - |a|] && b[j - |a|] in b;
      } else if |a| <= i {
        assert (a + b)[i] == b[i - |a|] && (a + b)[j] == b[j - |a|];
      }
    }
  }

  /** A subset missing an element of the set is smaller. */
  lemma SubsetSmaller<V>(a: set<V>, b: set<V>, x: V)
    requires b <= a && x in a && x !in b
    ensures |b| < |a|
  {
    assert a == b + (a - b) && b * (a - b) == {};
    assert |a - b| > 0 by {
      assert x in a - b;
    }
  }

  /** The marked set after walking ns: every entry of ns joins visited. */
  function MarkAll<V(==, !new)>(visited: set<V>, ns: seq<V>): (r: set<V>)
    ensures forall x :: x in r <==> x in visited || x in ns
  {
    visited + set x | x in ns
  }

  /** Walking a list whose entries lie in u either marks a new vertex of u
      or adds nothing and marks nothing new. */
  lemma FreshShrinks<V(!new)>(u: set<V>, ns: seq<V>, visited: set<V>)
    requires forall x :: x in ns ==> x in u
    ensures |u - MarkAll(visited, ns)| < |u - visited| || (Fresh(ns, visited) == [] && MarkAll(visited, ns) == visited)
  {
    FreshMembers(ns, visited);
    if Fresh(ns, visited) != [] {
      var x := Fresh(ns, visited)[0];
      SubsetSmaller(u - visited, u - MarkAll(visited, ns), x);
    } else {
      assert MarkAll(visited, ns) == visited;
    }
  }

  /** The marked set keeps matching the enqueued vertices. */
  lemma MarksStep<V>(visited: set<V>, order: seq<V>, ns: seq<V>, visited': set<V>, added: seq<V>)
    requires forall v :: v in visited <==> v in order
    requires forall x :: x in added <==> x in ns && x !in visited
    requires forall x :: x in visited' <==> x in visited || x in ns
    ensures forall v :: v in visited' <==> v in order + added
  {
  }

  /** Marking at least one new vertex of bound leaves fewer unmarked. */
  lemma Shrinks<V>(bound: set<V>, visited: set<V>, visited': set<V>, order: seq<V>, added: seq<V>)
    requires forall v :: v in visited <==> v in order
    requires forall v :: v in visited' <==> v in order + added
    requires forall i :: 0 <= i < |order + added| ==> (order + added)[i] in bound
    requires forall x :: x in added ==> x !in visited
    ensures |bound - visited'| < |bound - visited| || (visited' == visited && added == [])
  {
    if added == [] {
      assert order + added == order;
      assert visited' == visited;
    } else {
      var x := added[0];
      assert (order + added)[|order|] == x;
      assert x in bound - visited;
      SubsetSmaller(bound - visited, bound - visited', x);
    }
  }

  /** The vertices enqueued for a reachable vertex are reachable too. */
  lemma AddedReachable<V(!new)>(adj: map<V, seq<V>>, s: V, bound: set<V>, order: seq<V>, current: V, added: seq<V>)
    requires bound == Universe(adj) + {s}
    requires forall i :: 0 <= i < |order| ==> order[i] in bound && Reachable(adj, s, order[i])
    requires Reachable(adj, s, current)
    requires forall x :: x in added ==> x in Neighbours(adj, current)
    ensures forall i :: 0 <= i < |order + added| ==> (order + added)[i] in bound && Reachable(adj, s, (order + added)[i])
  {
    forall i | 0 <= i < |order + added|
      ensures (order + added)[i] in bound && Reachable(adj, s, (order + added)[i])
    {
      if i >= |order| {
        var x := added[i - |order|];
        assert x in added;
        NeighbourInUniverse(adj, current, x);
        ReachStep(adj, s, current, x, {});
      } else {
        assert (order + added)[i] == order[i];
      }
    }
  }


  /** Reversing keeps the entries. */
  lemma ReverseMembers<V>(ns: seq<V>)
    ensures forall x :: x in Reverse(ns) <==> x in ns
  {
    ReverseAt(ns);
    forall x | x in ns
      ensures x in Reverse(ns)
    {
      var i :| 0 <= i < |ns| && ns[i] == x;
      assert Reverse(ns)[|ns| - 1 - i] == x;
    }
  }

  /** The integers from 0 up to n. */
  function Indices(n: nat): (r: set<int>)
    ensures |r| == n && forall i :: i in r <==> 0 <= i < n
    decreases n
  {
    if n == 0 then {} else Indices(n - 1) + {n - 1}
  }

  /** The elements of s. */
  function Elements<V>(s: seq<V>): set<V> {
    set t | 0 <= t < |s| :: s[t]
  }

  /** Distinct elements are as many as the places holding them. */
  lemma {:induction false} DistinctCount<V>(s: seq<V>)
    requires Distinct(s)
    ensures |Elements(s)| == |s|
    decreases |s|
  {
    if |s| > 0 {
      var init := s[..|s| - 1];
      assert Distinct(init);
      DistinctCount(init);
      assert Elements(s) == Elements(init) + {s[|s| - 1]};
    }
  }

  /** A sequence of distinct integers from 0 up to n has at most n
      places: the pigeonhole principle. */
  lemma DistinctBelow(s: seq<int>, n: nat)
    requires Distinct(s) && forall t :: 0 <= t < |s| ==> 0 <= s[t] < n
    ensures |s| <= n
  {
    DistinctCount(s);
    assert Elements(s) <= Indices(n) by {
      forall x | x in Elements(s)
        ensures x in Indices(n)
      {
        var t :| 0 <= t < |s| && s[t] == x;
      }
    }
    var e, i := Elements(s), Indices(n);
    assert i == e + (i - e) && e * (i - e) == {};
  }
}
