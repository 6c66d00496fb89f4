/** Collections.sort on Kruskal's edge list: EdgeTriple.compareTo compares
    weights only and the library sort is stable, so the result is the
    list ordered by weight with equal weights kept in list order. Insertion
    sort, putting each triple after every earlier triple no heavier than
    it, computes exactly that list. */
module EdgeSort {
  import opened SpanningEdges

  /** Weights never decrease along ts. */
  ghost predicate ByWeight<V>(ts: seq<EdgeTriple<V>>) {
    forall i, j :: 0 <= i < j < |ts| ==> ts[i].weight <= ts[j].weight
  }

  /** s with t put after the last triple no heavier than t. */
  function Insert<V>(s: seq<EdgeTriple<V>>, t: EdgeTriple<V>): (r: seq<EdgeTriple<V>>)
    ensures multiset(r) == multiset(s) + multiset{t}
  {
    if |s| == 0 || s[|s| - 1].weight <= t.weight then s + [t]
    else
      var n := |s| - 1;
      assert s == s[..n] + [s[n]];
      Insert(s[..n], t) + [s[n]]
  }

  /** Inserting into a list ordered by weight keeps it ordered. */
  lemma {:induction false} InsertSorted<V>(s: seq<EdgeTriple<V>>, t: EdgeTriple<V>)
    requires ByWeight(s)
    ensures ByWeight(Insert(s, t))
  {
    if |s| > 0 && s[|s| - 1].weight > t.weight {
      var n := |s| - 1;
      var p := Insert(s[..n], t);
      InsertSorted(s[..n], t);
      forall x | x in p
        ensures x.weight <= s[n].weight
      {
        assert x in multiset(p);
        if x != t {
          assert x in multiset(s[..n]);
          var i :| 0 <= i < n && s[i] == x;
        }
      }
      var r := p + [s[n]];
      forall i, j | 0 <= i < j < |r|
        ensures r[i].weight <= r[j].weight
      {
        if j < |p| {
          assert r[i] == p[i] && r[j] == p[j];
        } else {
          assert r[i] == p[i] && r[i] in p;
        }
      }
    }
  }

  /** The triples of ts of weight w, in list order. */
  function OfWeight<V>(ts: seq<EdgeTriple<V>>, w: real): (r: seq<EdgeTriple<V>>)
    ensures |r| <= |ts|
  {
    if |ts| == 0 then []
    else
      var n := |ts| - 1;
      OfWeight(ts[..n], w) + (if ts[n].weight == w then [ts[n]] else [])
  }

  /** Insert puts t after every triple of its weight and before none of
      them: among the triples of any one weight, t comes last. */
  lemma {:induction false} InsertStable<V>(s: seq<EdgeTriple<V>>, t: EdgeTriple<V>, w: real)
    ensures OfWeight(Insert(s, t), w) == OfWeight(s, w) + OfWeight([t], w)
  {
    if |s| == 0 || s[|s| - 1].weight <= t.weight {
      assert (s + [t])[..|s|] == s;
    } else {
      var n := |s| - 1;
      var p := Insert(s[..n], t);
      InsertStable(s[..n], t, w);
      assert (p + [s[n]])[..|p|] == p;
    }
  }

  /** The list ordered by weight, stably: the same triples with weights
      never decreasing, and the triples of each weight in their original
      order. */
  function SortByWeight<V>(ts: seq<EdgeTriple<V>>): (r: seq<EdgeTriple<V>>)
    ensures multiset(r) == multiset(ts) && ByWeight(r)
    ensures forall w :: OfWeight(r, w) == OfWeight(ts, w)
  {
    if |ts| == 0 then []
    else
      var n := |ts| - 1;
      assert ts == ts[..n] + [ts[n]];
      InsertSorted(SortByWeight(ts[..n]), ts[n]);
      StableStep(SortByWeight(ts[..n]), ts[..n], ts[n]);
      Insert(SortByWeight(ts[..n]), ts[n])
  }

  /** Inserting the last triple keeps a stable order stable. */
  lemma StableStep<V>(sorted: seq<EdgeTriple<V>>, ts: seq<EdgeTriple<V>>, t: EdgeTriple<V>)
    requires forall w :: OfWeight(sorted, w) == OfWeight(ts, w)
    ensures forall w :: OfWeight(Insert(sorted, t), w) == OfWeight(ts + [t], w)
  {
    forall w
      ensures OfWeight(Insert(sorted, t), w) == OfWeight(ts + [t], w)
    {
      InsertStable(sorted, t, w);
      OfWeightSnoc(ts, t, w);
    }
  }

  /** The triples of weight w in ts + [t]: those of ts, then t if it has
      that weight. */
  lemma OfWeightSnoc<V>(ts: seq<EdgeTriple<V>>, t: EdgeTriple<V>, w: real)
    ensures OfWeight(ts + [t], w) == OfWeight(ts, w) + OfWeight([t], w)
  {
    assert (ts + [t])[..|ts|] == ts;
    assert [t][..0] == [];
  }
}
