/** Forests of triples: when a list of edges, each taken in either
    direction, links two vertices, and when it has no cycle. Prim's
    algorithm grows its tree from the start vertex (Grown); Kruskal's
    accepts an edge only between two vertices the earlier edges do not
    link (Acyclic). */
module SpanningForests {
  import opened SpanningEdges

  /** t joins a and b, one way or the other. */
  predicate Touches<V(==)>(t: EdgeTriple<V>, a: V, b: V) {
    (t.source == a && t.target == b) || (t.source == b && t.target == a)
  }

  /** Some triple of ts joins a and b. */
  ghost predicate Joined<V(!new)>(ts: seq<EdgeTriple<V>>, a: V, b: V) {
    exists k :: 0 <= k < |ts| && Touches(ts[k], a, b)
  }

  /** p is a walk along the triples of ts, each taken either way. */
  ghost predicate Chain<V(!new)>(ts: seq<EdgeTriple<V>>, p: seq<V>) {
    |p| > 0 && forall i :: 0 <= i < |p| - 1 ==> Joined(ts, p[i], p[i + 1])
  }

  /** Some walk along the triples of ts leads from a to b. */
  ghost predicate Linked<V(!new)>(ts: seq<EdgeTriple<V>>, a: V, b: V) {
    exists p :: Chain(ts, p) && p[0] == a && p[|p| - 1] == b
  }

  /** No triple joins two vertices that the triples before it already
      link: the triples form a forest (a self-loop is a cycle). */
  ghost predicate Acyclic<V(!new)>(ts: seq<EdgeTriple<V>>) {
    forall k :: 0 <= k < |ts| ==> !Linked(ts[..k], ts[k].source, ts[k].target)
  }

  lemma LinkedSelf<V(!new)>(ts: seq<EdgeTriple<V>>, a: V)
    ensures Linked(ts, a, a)
  {
    assert Chain(ts, [a]);
  }

  /** Each triple links its two ends. */
  lemma LinkedEdge<V(!new)>(ts: seq<EdgeTriple<V>>, k: nat)
    requires k < |ts|
    ensures Linked(ts, ts[k].source, ts[k].target)
  {
    var p := [ts[k].source, ts[k].target];
    assert Joined(ts, p[0], p[1]) by {
      assert Touches(ts[k], p[0], p[1]);
    }
    assert Chain(ts, p);
  }

  /** A link runs both ways. */
  lemma LinkedFlip<V(!new)>(ts: seq<EdgeTriple<V>>, a: V, b: V)
    requires Linked(ts, a, b)
    ensures Linked(ts, b, a)
  {
    var p :| Chain(ts, p) && p[0] == a && p[|p| - 1] == b;
    var q := seq(|p|, i requires 0 <= i < |p| => p[|p| - 1 - i]);
    forall i | 0 <= i < |q| - 1
      ensures Joined(ts, q[i], q[i + 1])
    {
      var j := |p| - 2 - i;
      assert Joined(ts, p[j], p[j + 1]);
      var k :| 0 <= k < |ts| && Touches(ts[k], p[j], p[j + 1]);
      assert Touches(ts[k], q[i], q[i + 1]);
    }
    assert Chain(ts, q);
  }

  /** Links compose. */
  lemma LinkedTrans<V(!new)>(ts: seq<EdgeTriple<V>>, a: V, b: V, c: V)
    requires Linked(ts, a, b) && Linked(ts, b, c)
    ensures Linked(ts, a, c)
  {
    var p :| Chain(ts, p) && p[0] == a && p[|p| - 1] == b;
    var q :| Chain(ts, q) && q[0] == b && q[|q| - 1] == c;
    var r := p + q[1..];
    forall i | 0 <= i < |r| - 1
      ensures Joined(ts, r[i], r[i + 1])
    {
      if i < |p| - 1 {
        assert r[i] == p[i] && r[i + 1] == p[i + 1];
      } else {
        var j := i - |p| + 1;
        assert r[i] == q[j] && r[i + 1] == q[j + 1];
      }
    }
    assert Chain(ts, r);
  }

  /** More triples keep every link. */
  lemma LinkedMore<V(!new)>(ts: seq<EdgeTriple<V>>, us: seq<EdgeTriple<V>>, a: V, b: V)
    requires Linked(ts, a, b)
    ensures Linked(ts + us, a, b)
  {
    var p :| Chain(ts, p) && p[0] == a && p[|p| - 1] == b;
    forall i | 0 <= i < |p| - 1
      ensures Joined(ts + us, p[i], p[i + 1])
    {
      assert Joined(ts, p[i], p[i + 1]);
      var k :| 0 <= k < |ts| && Touches(ts[k], p[i], p[i + 1]);
      assert (ts + us)[k] == ts[k];
    }
    assert Chain(ts + us, p);
  }

  /** A forest stays one when the next triple joins two vertices it does
      not link. */
  lemma AcyclicSnoc<V(!new)>(ts: seq<EdgeTriple<V>>, t: EdgeTriple<V>)
    requires Acyclic(ts) && !Linked(ts, t.source, t.target)
    ensures Acyclic(ts + [t])
  {
    var us := ts + [t];
    forall k | 0 <= k < |us|
      ensures !Linked(us[..k], us[k].source, us[k].target)
    {
      if k < |ts| {
        assert us[..k] == ts[..k] && us[k] == ts[k];
      } else {
        assert us[..k] == ts;
      }
    }
  }

  /** When every triple's ends have the same representative, so does every pair of
      vertices the triples link. */
  lemma LinkedSameRep<V(!new)>(ts: seq<EdgeTriple<V>>, rep: map<V, V>, a: V, b: V)
    requires forall k :: 0 <= k < |ts| ==> ts[k].source in rep && ts[k].target in rep && rep[ts[k].source] == rep[ts[k].target]
    requires Linked(ts, a, b) && a in rep
    ensures b in rep && rep[a] == rep[b]
  {
    var p :| Chain(ts, p) && p[0] == a && p[|p| - 1] == b;
    var i := 0;
    while i < |p| - 1
      invariant 0 <= i <= |p| - 1 && p[i] in rep && rep[p[i]] == rep[a]
    {
      assert Joined(ts, p[i], p[i + 1]);
      var k :| 0 <= k < |ts| && Touches(ts[k], p[i], p[i + 1]);
      i := i + 1;
    }
  }

  /** The targets of the triples. */
  function Reached<V>(ts: seq<EdgeTriple<V>>): set<V> {
    set k | 0 <= k < |ts| :: ts[k].target
  }

  /** The k-th triple leads from start or an earlier target to a vertex
      that is neither. */
  ghost predicate Sprouts<V(!new)>(start: V, ts: seq<EdgeTriple<V>>, k: nat)
    requires k < |ts|
  {
    && (ts[k].source == start || ts[k].source in Reached(ts[..k]))
    && ts[k].target != start && ts[k].target !in Reached(ts[..k])
  }

  /** The triples grow a tree from start one new vertex at a time: every
      vertex but start is the target of exactly one of them. */
  ghost predicate Grown<V(!new)>(start: V, ts: seq<EdgeTriple<V>>) {
    forall k :: 0 <= k < |ts| ==> Sprouts(start, ts, k)
  }

  /** Growing by one more sprouting triple. */
  lemma GrownSnoc<V(!new)>(start: V, ts: seq<EdgeTriple<V>>, t: EdgeTriple<V>)
    requires Grown(start, ts)
    requires t.source == start || t.source in Reached(ts)
    requires t.target != start && t.target !in Reached(ts)
    ensures Grown(start, ts + [t]) && Reached(ts + [t]) == Reached(ts) + {t.target}
  {
    var us := ts + [t];
    forall k | 0 <= k < |us|
      ensures Sprouts(start, us, k)
    {
      assert us[..k] == if k < |ts| then ts[..k] else ts;
      if k < |ts| {
        assert Sprouts(start, ts, k);
      }
    }
    assert Reached(us) == Reached(ts) + {t.target} by {
      assert forall k :: 0 <= k < |ts| ==> us[k] == ts[k];
      assert us[|ts|] == t;
    }
  }

  /** The targets of a prefix are targets of the whole. */
  lemma ReachedPrefix<V>(ts: seq<EdgeTriple<V>>, k: nat)
    requires k <= |ts|
    ensures Reached(ts[..k]) <= Reached(ts)
  {
    forall v | v in Reached(ts[..k])
      ensures v in Reached(ts)
    {
      var j :| 0 <= j < k && ts[..k][j].target == v;
      assert ts[j].target == v;
    }
  }

  /** Every end of a grown tree's triples is start or a target. */
  lemma GrownEnds<V(!new)>(start: V, ts: seq<EdgeTriple<V>>, j: nat)
    requires Grown(start, ts) && j < |ts|
    ensures ts[j].source == start || ts[j].source in Reached(ts)
    ensures ts[j].target in Reached(ts)
  {
    assert Sprouts(start, ts, j);
    ReachedPrefix(ts, j);
  }

  /** A prefix of a grown tree is grown. */
  lemma GrownPrefix<V(!new)>(start: V, ts: seq<EdgeTriple<V>>, k: nat)
    requires Grown(start, ts) && k <= |ts|
    ensures Grown(start, ts[..k])
  {
    forall j | 0 <= j < k
      ensures Sprouts(start, ts[..k], j)
    {
      assert Sprouts(start, ts, j);
      assert ts[..k][..j] == ts[..j];
    }
  }

  /** A grown tree links start to every target, and only to them. */
  lemma {:induction false} GrownLinks<V(!new)>(start: V, ts: seq<EdgeTriple<V>>, v: V)
    requires Grown(start, ts)
    ensures Linked(ts, start, v) <==> v == start || v in Reached(ts)
    decreases |ts|
  {
    if v == start {
      LinkedSelf(ts, start);
    } else if v in Reached(ts) {
      var k :| 0 <= k < |ts| && ts[k].target == v;
      GrownPrefix(start, ts, k);
      assert Sprouts(start, ts, k);
      var s := ts[k].source;
      GrownLinks(start, ts[..k], s);
      LinkedMore(ts[..k], ts[k..], start, s);
      assert ts[..k] + ts[k..] == ts;
      LinkedEdge(ts, k);
      LinkedTrans(ts, start, s, v);
    } else {
      if Linked(ts, start, v) {
        var p :| Chain(ts, p) && p[0] == start && p[|p| - 1] == v;
        var i := 0;
        while i < |p| - 1
          invariant 0 <= i <= |p| - 1 && (p[i] == start || p[i] in Reached(ts))
        {
          assert Joined(ts, p[i], p[i + 1]);
          var k :| 0 <= k < |ts| && Touches(ts[k], p[i], p[i + 1]);
          GrownEnds(start, ts, k);
          i := i + 1;
        }
      }
    }
  }

  /** A grown tree is a forest: each triple reaches a vertex the earlier
      ones do not touch. */
  lemma GrownAcyclic<V(!new)>(start: V, ts: seq<EdgeTriple<V>>)
    requires Grown(start, ts)
    ensures Acyclic(ts)
  {
    forall k | 0 <= k < |ts|
      ensures !Linked(ts[..k], ts[k].source, ts[k].target)
    {
      assert Sprouts(start, ts, k);
      var s, v := ts[k].source, ts[k].target;
      GrownPrefix(start, ts, k);
      GrownLinks(start, ts[..k], s);
      GrownLinks(start, ts[..k], v);
      if Linked(ts[..k], s, v) {
        LinkedTrans(ts[..k], start, s, v);
        assert false;
      }
    }
  }
}
