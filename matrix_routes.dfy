/** Routes through a square matrix of distances, indexed 0 .. n-1: what the
    Floyd–Warshall relaxation promises about its distance matrix. A route
    is a sequence of at least two indices; its weight adds up the matrix
    entries of its steps. */
module MatrixRoutes {
  import opened Distances

  type Matrix = seq<seq<Dist>>

  /** m[a][b], infinity outside the matrix. */
  function Entry(m: Matrix, a: int, b: int): Dist {
    if 0 <= a < |m| && 0 <= b < |m[a]| then m[a][b] else Infinite
  }

  /** The entries of p's steps added up; a single index weighs zero. */
  function Weight(m: Matrix, p: seq<int>): Dist
    decreases |p|
  {
    if |p| < 2 then Finite(0.0) else Add(Entry(m, p[0], p[1]), Weight(m, p[1..]))
  }

  /** p is a route of at least one step from i to j through indices below n. */
  ghost predicate Route(p: seq<int>, n: int, i: int, j: int) {
    && |p| >= 2 && p[0] == i && p[|p| - 1] == j
    && forall t :: 0 <= t < |p| ==> 0 <= p[t] < n
  }

  /** No index of p repeats, except that the last may be the first. */
  ghost predicate Simple(p: seq<int>) {
    forall a, b :: 0 <= a < b < |p| && (a != 0 || b != |p| - 1) ==> p[a] != p[b]
  }

  /** Every index strictly inside p is below k. */
  ghost predicate InteriorBelow(p: seq<int>, k: int) {
    forall t :: 0 < t < |p| - 1 ==> p[t] < k
  }

  /** v is at most the weight of every simple route from i to j whose
      interior indices are below k. */
  ghost predicate Bounded(m: Matrix, n: int, i: int, j: int, k: int, v: Dist) {
    forall p :: Route(p, n, i, j) && Simple(p) && InteriorBelow(p, k) ==> NotAbove(v, Weight(m, p))
  }

  /** No route that returns to its start weighs less than zero. */
  ghost predicate NoNegativeCycle(m: Matrix, n: int) {
    forall p, i :: Route(p, n, i, i) ==> !Negative(Weight(m, p))
  }

  lemma AddAssociative(a: Dist, b: Dist, c: Dist)
    ensures Add(Add(a, b), c) == Add(a, Add(b, c))
  {
  }

  /** Adding no more to no more gives no more. */
  lemma AddMonotone(a: Dist, b: Dist, c: Dist, d: Dist)
    requires NotAbove(a, c) && NotAbove(b, d)
    ensures NotAbove(Add(a, b), Add(c, d))
  {
  }

  lemma {:induction false} WeightConcatBase(m: Matrix, p: seq<int>, q: seq<int>)
    requires |p| == 1 && |q| >= 1 && p[0] == q[0]
    ensures Weight(m, p + q[1..]) == Add(Weight(m, p), Weight(m, q))
  {
    assert p + q[1..] == q;
  }

  lemma {:induction false} WeightConcatStep(m: Matrix, p: seq<int>, q: seq<int>)
    requires |p| >= 2 && |q| >= 1 && p[|p| - 1] == q[0]
    requires Weight(m, p[1..] + q[1..]) == Add(Weight(m, p[1..]), Weight(m, q))
    ensures Weight(m, p + q[1..]) == Add(Weight(m, p), Weight(m, q))
  {
    var s := p + q[1..];
    assert s[1..] == p[1..] + q[1..];
    assert s[0] == p[0] && s[1] == p[1];
    assert Weight(m, s) == Add(Entry(m, p[0], p[1]), Weight(m, s[1..]));
    assert Weight(m, p) == Add(Entry(m, p[0], p[1]), Weight(m, p[1..]));
    AddAssociative(Entry(m, p[0], p[1]), Weight(m, p[1..]), Weight(m, q));
  }

  /** A route followed by one that starts where it ends weighs the two
      weights added. */
  lemma {:induction false} WeightConcat(m: Matrix, p: seq<int>, q: seq<int>)
    requires |p| >= 1 && |q| >= 1 && p[|p| - 1] == q[0]
    ensures Weight(m, p + q[1..]) == Add(Weight(m, p), Weight(m, q))
    decreases |p|
  {
    if |p| == 1 {
      WeightConcatBase(m, p, q);
    } else {
      WeightConcat(m, p[1..], q);
      WeightConcatStep(m, p, q);
    }
  }

  /** A route weighs its part up to position t plus its part from t. */
  lemma {:induction false} WeightSplit(m: Matrix, p: seq<int>, t: int)
    requires 0 <= t < |p|
    ensures Weight(m, p) == Add(Weight(m, p[..t + 1]), Weight(m, p[t..]))
  {
    WeightConcat(m, p[..t + 1], p[t..]);
    assert p[..t + 1] + p[t..][1..] == p;
  }

  lemma {:induction false} InteriorAt(p: seq<int>, k: int, t: int)
    requires InteriorBelow(p, k) && 0 < t < |p| - 1
    ensures p[t] < k
  {
  }

  /** Before any relaxation an entry bounds the simple routes with no
      interior index: the one-step route. */
  lemma BoundedStart(m: Matrix, n: int, i: int, j: int)
    ensures Bounded(m, n, i, j, 0, Entry(m, i, j))
  {
    forall p | Route(p, n, i, j) && Simple(p) && InteriorBelow(p, 0)
      ensures NotAbove(Entry(m, i, j), Weight(m, p))
    {
      if |p| > 2 {
        InteriorAt(p, 0, 1);
        assert false;
      }
      assert p[1..] == [j];
    }
  }

  /** A bound for more interior indices is a bound for fewer, and a lower
      value keeps a bound. */
  lemma BoundedWeaker(m: Matrix, n: int, i: int, j: int, k: int, v: Dist, k': int, v': Dist)
    requires Bounded(m, n, i, j, k, v) && k' <= k && NotAbove(v', v)
    ensures Bounded(m, n, i, j, k', v')
  {
    forall p | Route(p, n, i, j) && Simple(p) && InteriorBelow(p, k')
      ensures NotAbove(v', Weight(m, p))
    {
      assert InteriorBelow(p, k);
    }
  }

  /** A simple route from or to k never passes through k, so a bound for
      interior indices below k holds below k + 1. */
  lemma BoundedEnd(m: Matrix, n: int, i: int, j: int, k: int, v: Dist)
    requires Bounded(m, n, i, j, k, v) && (i == k || j == k)
    ensures Bounded(m, n, i, j, k + 1, v)
  {
    forall p | Route(p, n, i, j) && Simple(p) && InteriorBelow(p, k + 1)
      ensures NotAbove(v, Weight(m, p))
    {
      forall t | 0 < t < |p| - 1
        ensures p[t] < k
      {
        if i == k {
          assert p[0] != p[t];
        } else {
          assert p[t] != p[|p| - 1];
        }
      }
    }
  }

  /** The cut of a simple route at an interior index x: both parts are
      simple routes whose interior indices avoid x. */
  lemma {:induction false} SimpleParts(n: int, p: seq<int>, i: int, j: int, t: int, k: int)
    requires Route(p, n, i, j) && Simple(p) && InteriorBelow(p, k + 1) && 0 < t < |p| - 1 && p[t] == k
    ensures Route(p[..t + 1], n, i, k) && Simple(p[..t + 1]) && InteriorBelow(p[..t + 1], k)
    ensures Route(p[t..], n, k, j) && Simple(p[t..]) && InteriorBelow(p[t..], k)
  {
    var p1 := p[..t + 1];
    var p2 := p[t..];
    forall s | 0 < s < |p1| - 1
      ensures p1[s] < k
    {
      assert p1[s] == p[s] && p[s] != p[t];
    }
    forall s | 0 < s < |p2| - 1
      ensures p2[s] < k
    {
      assert p2[s] == p[t + s] && p[t + s] != p[t];
    }
    forall a, b | 0 <= a < b < |p1| && (a != 0 || b != |p1| - 1)
      ensures p1[a] != p1[b]
    {
      assert p1[a] == p[a] && p1[b] == p[b];
    }
    forall a, b | 0 <= a < b < |p2| && (a != 0 || b != |p2| - 1)
      ensures p2[a] != p2[b]
    {
      assert p2[a] == p[t + a] && p2[b] == p[t + b];
    }
  }

  /** One relaxation step of the Floyd–Warshall loop: if dij bounds the
      routes from i to j through indices below k, and dik and dkj bound the
      routes from i to k and from k to j likewise, then the smaller of dij
      and dik + dkj bounds the routes from i to j through indices below
      k + 1. */
  lemma RelaxBounded(m: Matrix, n: int, i: int, j: int, k: int, dij: Dist, dik: Dist, dkj: Dist)
    requires Bounded(m, n, i, j, k, dij) && Bounded(m, n, i, k, k, dik) && Bounded(m, n, k, j, k, dkj)
    ensures Bounded(m, n, i, j, k + 1, if Below(Add(dik, dkj), dij) then Add(dik, dkj) else dij)
  {
    var v := if Below(Add(dik, dkj), dij) then Add(dik, dkj) else dij;
    forall p | Route(p, n, i, j) && Simple(p) && InteriorBelow(p, k + 1)
      ensures NotAbove(v, Weight(m, p))
    {
      if t :| 0 < t < |p| - 1 && p[t] == k {
        SimpleParts(n, p, i, j, t, k);
        WeightSplit(m, p, t);
        AddMonotone(dik, dkj, Weight(m, p[..t + 1]), Weight(m, p[t..]));
      } else {
        assert InteriorBelow(p, k);
      }
    }
  }

  /** p with the closed stretch between positions a and b taken out. */
  function Shortcut(p: seq<int>, a: int, b: int): seq<int>
    requires 0 <= a < b < |p|
  {
    p[..a + 1] + p[b + 1..]
  }

  /** Taking a closed stretch out of a route leaves a shorter route between
      the same ends; the stretch is itself a shorter route back to its
      start. */
  lemma {:induction false} ShortcutRoutes(n: int, p: seq<int>, i: int, j: int, a: int, b: int)
    requires Route(p, n, i, j) && 0 <= a < b < |p| && (a != 0 || b != |p| - 1) && p[a] == p[b]
    ensures Route(Shortcut(p, a, b), n, i, j) && |Shortcut(p, a, b)| < |p|
    ensures Route(p[a..b + 1], n, p[a], p[a]) && |p[a..b + 1]| < |p|
  {
    var s := Shortcut(p, a, b);
    assert s[|s| - 1] == j by {
      if b == |p| - 1 {
        assert s == p[..a + 1];
      }
    }
    forall t | 0 <= t < |s|
      ensures 0 <= s[t] < n
    {
      if t <= a {
        assert s[t] == p[t];
      } else {
        assert s[t] == p[t + b - a];
      }
    }
    assert |s| == a + 1 + (|p| - b - 1) && s[0] == p[0];
    var c := p[a..b + 1];
    forall t | 0 <= t < |c|
      ensures 0 <= c[t] < n
    {
      assert c[t] == p[a + t];
    }
    assert |c| == b + 1 - a && c[0] == p[a] && c[|c| - 1] == p[b];
  }

  /** The stretch between two equal positions weighs what its removal
      saves. */
  lemma {:induction false} ShortcutWeight(m: Matrix, p: seq<int>, a: int, b: int)
    requires 0 <= a < b < |p| && p[a] == p[b]
    ensures Weight(m, p) == Add(Weight(m, p[..a + 1]), Add(Weight(m, p[a..b + 1]), Weight(m, p[b..])))
    ensures Weight(m, Shortcut(p, a, b)) == Add(Weight(m, p[..a + 1]), Weight(m, p[b..]))
  {
    WeightSplit(m, p, a);
    WeightSplit(m, p[a..], b - a);
    assert p[a..][..b - a + 1] == p[a..b + 1];
    assert p[a..][b - a..] == p[b..];
    WeightConcat(m, p[..a + 1], p[b..]);
    assert p[..a + 1] + p[b..][1..] == Shortcut(p, a, b);
  }

  /** Leaving out a stretch that does not weigh less than zero gives no
      more. */
  lemma DropNonNegative(x: Dist, c: Dist, z: Dist)
    requires !Negative(c)
    ensures NotAbove(Add(x, z), Add(x, Add(c, z)))
  {
  }

  /** With no negative cycle every route is matched by a simple route
      between the same ends that weighs no more. */
  lemma {:induction false} SimpleNoHeavier(m: Matrix, n: int, p: seq<int>, i: int, j: int)
    requires NoNegativeCycle(m, n) && Route(p, n, i, j)
    ensures exists q :: Route(q, n, i, j) && Simple(q) && NotAbove(Weight(m, q), Weight(m, p))
    decreases |p|
  {
    if !Simple(p) {
      var a, b :| 0 <= a < b < |p| && (a != 0 || b != |p| - 1) && p[a] == p[b];
      ShortcutRoutes(n, p, i, j, a, b);
      ShortcutWeight(m, p, a, b);
      var c := p[a..b + 1];
      assert !Negative(Weight(m, c));
      DropNonNegative(Weight(m, p[..a + 1]), Weight(m, c), Weight(m, p[b..]));
      SimpleNoHeavier(m, n, Shortcut(p, a, b), i, j);
    } else {
      assert Route(p, n, i, j) && Simple(p) && NotAbove(Weight(m, p), Weight(m, p));
    }
  }

  /** Every route of finite weight is matched by a simple route between
      the same ends whose weight is finite too. */
  lemma {:induction false} SimpleFinite(m: Matrix, n: int, p: seq<int>, i: int, j: int)
    requires Route(p, n, i, j) && Weight(m, p).Finite?
    ensures exists q :: Route(q, n, i, j) && Simple(q) && Weight(m, q).Finite?
    decreases |p|
  {
    if !Simple(p) {
      var a, b :| 0 <= a < b < |p| && (a != 0 || b != |p| - 1) && p[a] == p[b];
      ShortcutRoutes(n, p, i, j, a, b);
      ShortcutWeight(m, p, a, b);
      SimpleFinite(m, n, Shortcut(p, a, b), i, j);
    } else {
      assert Route(p, n, i, j) && Simple(p) && Weight(m, p).Finite?;
    }
  }

  /** A route back to its start that weighs less than zero contains a
      simple one. */
  lemma {:induction false} SimpleNegativeCycle(m: Matrix, n: int, p: seq<int>, i: int)
    requires Route(p, n, i, i) && Negative(Weight(m, p))
    ensures exists q, x :: Route(q, n, x, x) && Simple(q) && Negative(Weight(m, q))
    decreases |p|
  {
    if !Simple(p) {
      var a, b :| 0 <= a < b < |p| && (a != 0 || b != |p| - 1) && p[a] == p[b];
      ShortcutRoutes(n, p, i, i, a, b);
      ShortcutWeight(m, p, a, b);
      var c := p[a..b + 1];
      if Negative(Weight(m, c)) {
        SimpleNegativeCycle(m, n, c, p[a]);
      } else {
        DropNonNegative(Weight(m, p[..a + 1]), Weight(m, c), Weight(m, p[b..]));
        SimpleNegativeCycle(m, n, Shortcut(p, a, b), i);
      }
    }
  }

  /** Once every index may be interior, a bound with no negative cycle is
      a bound for every route. */
  lemma BoundedAll(m: Matrix, n: int, i: int, j: int, v: Dist)
    requires NoNegativeCycle(m, n) && Bounded(m, n, i, j, n, v)
    ensures forall p :: Route(p, n, i, j) ==> NotAbove(v, Weight(m, p))
  {
    forall p | Route(p, n, i, j)
      ensures NotAbove(v, Weight(m, p))
    {
      SimpleNoHeavier(m, n, p, i, j);
      var q :| Route(q, n, i, j) && Simple(q) && NotAbove(Weight(m, q), Weight(m, p));
      assert InteriorBelow(q, n);
    }
  }
}
