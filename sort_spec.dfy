/** What it means for the sorters of AA_lab_2 to sort an int[] (or a
    range of one) in place: ascending order, the same multiset of values,
    and every index outside the range left as it was. */
module SortSpec {

  /** s[lo..hi) is in ascending order. */
  ghost predicate SortedBetween(s: seq<int>, lo: int, hi: int)
    requires 0 <= lo <= hi <= |s|
  {
    forall i, j :: lo <= i < j < hi ==> s[i] <= s[j]
  }

  ghost predicate Sorted(s: seq<int>) {
    SortedBetween(s, 0, |s|)
  }

  /** b is a equal everywhere outside [lo, hi). */
  ghost predicate SameOutside(a: seq<int>, b: seq<int>, lo: int, hi: int) {
    |a| == |b| && forall k :: 0 <= k < |a| && !(lo <= k < hi) ==> a[k] == b[k]
  }

  /** Every value of s[lo..hi) lies strictly below bound. */
  ghost predicate AllBelow(s: seq<int>, lo: int, hi: int, bound: int)
    requires 0 <= lo <= hi <= |s|
  {
    forall k :: lo <= k < hi ==> s[k] < bound
  }

  /** Every value of s[lo..hi) is at least bound. */
  ghost predicate AllAtLeast(s: seq<int>, lo: int, hi: int, bound: int)
    requires 0 <= lo <= hi <= |s|
  {
    forall k :: lo <= k < hi ==> bound <= s[k]
  }

  /** Every value of s[lo..hi) is at most bound. */
  ghost predicate AllAtMost(s: seq<int>, lo: int, hi: int, bound: int)
    requires 0 <= lo <= hi <= |s|
  {
    forall k :: lo <= k < hi ==> s[k] <= bound
  }

  /** x is a multiple of w, stated by repeated subtraction so that the
      solver never sees a remainder by a variable. */
  predicate IsMultiple(x: nat, w: nat)
    requires w > 0
    decreases x
  {
    if x < w then x == 0 else IsMultiple(x - w, w)
  }

  /** A permutation of the whole sequence that leaves everything outside
      [lo, hi) in place permutes [lo, hi) itself. */
  lemma RangePerm(a: seq<int>, b: seq<int>, lo: int, hi: int)
    requires 0 <= lo <= hi <= |a|
    requires multiset(a) == multiset(b) && SameOutside(a, b, lo, hi)
    ensures multiset(a[lo..hi]) == multiset(b[lo..hi])
  {
    Split3(a, lo, hi);
    Split3(b, lo, hi);
    assert a[..lo] == b[..lo];
    assert a[hi..] == b[hi..];
    assert multiset(a[lo..hi]) == multiset(a) - multiset(a[..lo]) - multiset(a[hi..]);
  }

  /** A sequence holds the values of its three consecutive slices. */
  lemma Split3(s: seq<int>, lo: int, hi: int)
    requires 0 <= lo <= hi <= |s|
    ensures multiset(s) == multiset(s[..lo]) + multiset(s[lo..hi]) + multiset(s[hi..])
  {
    assert s == s[..lo] + s[lo..hi] + s[hi..];
  }

  /** The converse: permuting [lo, hi) and leaving the rest in place
      permutes the whole sequence. */
  lemma RangePermLift(a: seq<int>, b: seq<int>, lo: int, hi: int)
    requires 0 <= lo <= hi <= |a|
    requires SameOutside(a, b, lo, hi) && multiset(a[lo..hi]) == multiset(b[lo..hi])
    ensures multiset(a) == multiset(b)
  {
    Split3(a, lo, hi);
    Split3(b, lo, hi);
    assert a[..lo] == b[..lo];
    assert a[hi..] == b[hi..];
  }

  /** A range is ascending exactly when its slice is. */
  lemma SliceSorted(s: seq<int>, lo: int, hi: int)
    requires 0 <= lo <= hi <= |s|
    ensures SortedBetween(s, lo, hi) <==> Sorted(s[lo..hi])
  {
    if Sorted(s[lo..hi]) {
      forall i, j | lo <= i < j < hi
        ensures s[i] <= s[j]
      {
        assert s[i] == s[lo..hi][i - lo] && s[j] == s[lo..hi][j - lo];
      }
    }
  }

  /** Permuting a range keeps every bound that held on it. */
  lemma PermKeepsBounds(a: seq<int>, b: seq<int>, lo: int, hi: int, bound: int)
    requires 0 <= lo <= hi <= |a| == |b|
    requires multiset(a[lo..hi]) == multiset(b[lo..hi])
    ensures AllBelow(b, lo, hi, bound) ==> AllBelow(a, lo, hi, bound)
    ensures AllAtLeast(b, lo, hi, bound) ==> AllAtLeast(a, lo, hi, bound)
    ensures AllAtMost(b, lo, hi, bound) ==> AllAtMost(a, lo, hi, bound)
  {
    forall k | lo <= k < hi
      ensures exists m :: lo <= m < hi && a[k] == b[m]
    {
      assert a[k] == a[lo..hi][k - lo];
      assert a[k] in multiset(a[lo..hi]);
      assert a[k] in b[lo..hi];
      var m' :| 0 <= m' < hi - lo && b[lo..hi][m'] == a[k];
      assert b[lo + m'] == a[k];
    }
  }

  /** A sorted run below a pivot, the pivot, and a sorted run of values at
      least the pivot make one sorted run. */
  lemma JoinAroundPivot(s: seq<int>, lo: int, p: int, hi: int)
    requires 0 <= lo <= p < hi <= |s|
    requires SortedBetween(s, lo, p) && SortedBetween(s, p + 1, hi)
    requires AllBelow(s, lo, p, s[p]) && AllAtLeast(s, p + 1, hi, s[p])
    ensures SortedBetween(s, lo, hi)
  {
  }

  /** Two ascending sequences holding the same values are equal: every
      correct sorter produces the same array. */
  lemma {:induction false} SortedUnique(a: seq<int>, b: seq<int>)
    requires Sorted(a) && Sorted(b) && multiset(a) == multiset(b)
    ensures a == b
  {
    if |a| == 0 || |b| == 0 {
      assert |a| == |multiset(a)| == |multiset(b)| == |b|;
    } else {
      assert a[0] == b[0] by {
        MinOfSorted(a, b[0]);
        MinOfSorted(b, a[0]);
      }
      TailPerm(a, b);
      SortedUnique(a[1..], b[1..]);
    }
  }

  /** Dropping equal heads keeps sortedness and the multiset equality. */
  lemma TailPerm(a: seq<int>, b: seq<int>)
    requires |a| > 0 && |b| > 0 && a[0] == b[0]
    requires Sorted(a) && Sorted(b) && multiset(a) == multiset(b)
    ensures Sorted(a[1..]) && Sorted(b[1..]) && multiset(a[1..]) == multiset(b[1..])
  {
    assert a == [a[0]] + a[1..];
    assert b == [b[0]] + b[1..];
    assert multiset(a[1..]) == multiset(a) - multiset{a[0]};
    assert multiset(b[1..]) == multiset(b) - multiset{b[0]};
  }

  /** The first element of an ascending sequence is its least value. */
  lemma MinOfSorted(s: seq<int>, x: int)
    requires Sorted(s) && x in multiset(s)
    ensures s[0] <= x
  {
    var k :| 0 <= k < |s| && s[k] == x;
    if k > 0 {
      assert s[0] <= s[k];
    }
  }
}
