/** MergeSorter: top-down merge sort (divide) and a bottom-up variant
    (mergeSortIterative) sharing one merge of adjacent runs. */
module MergeSorter {
  import opened SortSpec

  /** How far into each of the two runs a merge has read. */
  datatype Cursor = Cursor(i: nat, j: nat)

  /** Whether the next merged value comes from the left run: the right run
      is used up, or the left head is no larger (ties favour the left run). */
  predicate TakesLeft(xs: seq<int>, ys: seq<int>, c: Cursor) {
    c.j >= |ys| || (c.i < |xs| && xs[c.i] <= ys[c.j])
  }

  /** The cursor after one more value has been written. */
  function Step(xs: seq<int>, ys: seq<int>, c: Cursor): Cursor {
    if TakesLeft(xs, ys, c) then Cursor(c.i + 1, c.j) else Cursor(c.i, c.j + 1)
  }

  /** The value written at cursor c. */
  function Head(xs: seq<int>, ys: seq<int>, c: Cursor): int
    requires c.i <= |xs| && c.j <= |ys| && c.i + c.j < |xs| + |ys|
  {
    if TakesLeft(xs, ys, c) then xs[c.i] else ys[c.j]
  }

  /** The cursor after n values have been written; it never overruns a run. */
  function After(xs: seq<int>, ys: seq<int>, n: nat): (c: Cursor)
    ensures n <= |xs| + |ys| ==> c.i <= |xs| && c.j <= |ys| && c.i + c.j == n
  {
    if n == 0 then Cursor(0, 0) else Step(xs, ys, After(xs, ys, n - 1))
  }

  /** The n-th value written by merge. */
  function MergeAt(xs: seq<int>, ys: seq<int>, n: nat): int
    requires n < |xs| + |ys|
  {
    Head(xs, ys, After(xs, ys, n))
  }

  /** What merge writes, value by value. */
  function MergeSeqs(xs: seq<int>, ys: seq<int>): (r: seq<int>)
    ensures |r| == |xs| + |ys|
  {
    seq(|xs| + |ys|, n requires 0 <= n < |xs| + |ys| => MergeAt(xs, ys, n))
  }

  /** The textbook recursive merge from cursor c, a reference definition:
      take the head that goes first, then merge the rest. */
  function MergeFrom(xs: seq<int>, ys: seq<int>, c: Cursor): seq<int>
    requires c.i <= |xs| && c.j <= |ys|
    decreases |xs| - c.i + |ys| - c.j
  {
    if c.i + c.j == |xs| + |ys| then []
    else [Head(xs, ys, c)] + MergeFrom(xs, ys, Step(xs, ys, c))
  }

  /** The value-by-value merge agrees with the recursive one from every
      cursor it passes through. */
  lemma {:induction false} MergeSuffix(xs: seq<int>, ys: seq<int>, n: nat)
    requires n <= |xs| + |ys|
    ensures MergeFrom(xs, ys, After(xs, ys, n)) == MergeSeqs(xs, ys)[n..]
    decreases |xs| + |ys| - n
  {
    if n < |xs| + |ys| {
      MergeSuffix(xs, ys, n + 1);
      var c := After(xs, ys, n);
      assert After(xs, ys, n + 1) == Step(xs, ys, c);
      var s := MergeSeqs(xs, ys);
      assert s[n] == Head(xs, ys, c);
      assert s[n..] == [s[n]] + s[n + 1..];
    }
  }

  /** Merging keeps every value of both runs, and nothing else. */
  lemma {:induction false} MergePerm(xs: seq<int>, ys: seq<int>, c: Cursor)
    requires c.i <= |xs| && c.j <= |ys|
    ensures multiset(MergeFrom(xs, ys, c)) == multiset(xs[c.i..]) + multiset(ys[c.j..])
    decreases |xs| - c.i + |ys| - c.j
  {
    if c.i + c.j < |xs| + |ys| {
      var d := Step(xs, ys, c);
      MergePerm(xs, ys, d);
      assert MergeFrom(xs, ys, c) == [Head(xs, ys, c)] + MergeFrom(xs, ys, d);
      if TakesLeft(xs, ys, c) {
        DropOne(xs, c.i);
      } else {
        DropOne(ys, c.j);
      }
    }
  }

  /** A suffix holds its first value and the suffix after it. */
  lemma DropOne(s: seq<int>, i: int)
    requires 0 <= i < |s|
    ensures multiset(s[i..]) == multiset{s[i]} + multiset(s[i + 1..])
  {
    assert s[i..] == [s[i]] + s[i + 1..];
  }

  /** Merging two ascending runs gives an ascending sequence whose first
      value is the head at the cursor. */
  lemma {:induction false} MergeSorted(xs: seq<int>, ys: seq<int>, c: Cursor)
    requires c.i <= |xs| && c.j <= |ys| && Sorted(xs) && Sorted(ys)
    ensures Sorted(MergeFrom(xs, ys, c))
    ensures c.i + c.j < |xs| + |ys| ==> MergeFrom(xs, ys, c)[0] == Head(xs, ys, c)
    decreases |xs| - c.i + |ys| - c.j
  {
    if c.i + c.j < |xs| + |ys| {
      var d := Step(xs, ys, c);
      MergeSorted(xs, ys, d);
      var rest := MergeFrom(xs, ys, d);
      if d.i + d.j < |xs| + |ys| {
        assert Head(xs, ys, c) <= rest[0];
      }
      assert Sorted([Head(xs, ys, c)] + rest);
    }
  }

  /** The merge of two ascending runs is ascending and holds exactly their
      values. */
  lemma MergeSeqsSpec(xs: seq<int>, ys: seq<int>)
    ensures multiset(MergeSeqs(xs, ys)) == multiset(xs) + multiset(ys)
    ensures Sorted(xs) && Sorted(ys) ==> Sorted(MergeSeqs(xs, ys))
  {
    MergeSuffix(xs, ys, 0);
    assert MergeSeqs(xs, ys)[0..] == MergeSeqs(xs, ys);
    assert xs[0..] == xs && ys[0..] == ys;
    MergePerm(xs, ys, Cursor(0, 0));
    if Sorted(xs) && Sorted(ys) {
      MergeSorted(xs, ys, Cursor(0, 0));
    }
  }

  /** Once the right run is used up, the rest of the merge is the rest of
      the left run. */
  lemma {:induction false} LeftRest(xs: seq<int>, ys: seq<int>, n: nat)
    requires n <= |xs| + |ys| && After(xs, ys, n).j == |ys|
    ensures forall t :: n <= t < |xs| + |ys| ==> MergeAt(xs, ys, t) == xs[After(xs, ys, n).i + (t - n)]
    decreases |xs| + |ys| - n
  {
    if n < |xs| + |ys| {
      LeftRest(xs, ys, n + 1);
    }
  }

  /** Once the left run is used up, the rest of the merge is the rest of
      the right run. */
  lemma {:induction false} RightRest(xs: seq<int>, ys: seq<int>, n: nat)
    requires n <= |xs| + |ys| && After(xs, ys, n).i == |xs|
    ensures forall t :: n <= t < |xs| + |ys| ==> MergeAt(xs, ys, t) == ys[After(xs, ys, n).j + (t - n)]
    decreases |xs| + |ys| - n
  {
    if n < |xs| + |ys| {
      RightRest(xs, ys, n + 1);
    }
  }

  /** The merge as a sequence the loops can index without unfolding it. */
  lemma MergedValues(xs: seq<int>, ys: seq<int>) returns (full: seq<int>)
    ensures |full| == |xs| + |ys|
    ensures forall t {:trigger MergeAt(xs, ys, t)} :: 0 <= t < |full| ==> full[t] == MergeAt(xs, ys, t)
  {
    full := MergeSeqs(xs, ys);
  }

  /** One of merge's two closing loops: copies what is left of a run,
      xs[i0..], into arr from k0 on. */
  method CopyRest(arr: array<int>, k0: int, xs: seq<int>, i0: int)
    requires 0 <= i0 <= |xs| && 0 <= k0 && k0 + |xs| - i0 <= arr.Length
    modifies arr
    ensures forall m :: k0 <= m < k0 + |xs| - i0 ==> arr[m] == xs[i0..][m - k0]
    ensures forall m :: 0 <= m < arr.Length && !(k0 <= m < k0 + |xs| - i0) ==> arr[m] == old(arr[m])
  {
    var i, k := i0, k0;
    while i < |xs|
      invariant i0 <= i <= |xs| && k == k0 + (i - i0)
      invariant forall m :: k0 <= m < k ==> arr[m] == xs[i0..][m - k0]
      invariant forall m :: 0 <= m < arr.Length && !(k0 <= m < k) ==> arr[m] == old(arr[m])
    {
      arr[k] := xs[i];
      i := i + 1;
      k := k + 1;
    }
  }

  /** The loops of merge, writing the merge of the copied runs arr1 and
      arr2 into arr from start on: the main loop takes the smaller head
      while both runs have values, then the rest of whichever run is left
      is copied. */
  method MergeRuns(arr: array<int>, start: int, arr1: seq<int>, arr2: seq<int>)
    requires 0 <= start && start + |arr1| + |arr2| <= arr.Length
    modifies arr
    ensures forall t :: 0 <= t < |arr1| + |arr2| ==> arr[start + t] == MergeAt(arr1, arr2, t)
    ensures forall m :: 0 <= m < arr.Length && !(start <= m < start + |arr1| + |arr2|) ==> arr[m] == old(arr[m])
  {
    ghost var full := MergedValues(arr1, arr2);
    var num1, num2 := |arr1|, |arr2|;
    var i, j, k := 0, 0, start;
    ghost var n: nat := 0;
    while i < num1 && j < num2
      invariant 0 <= i <= num1 && 0 <= j <= num2 && k == start + n && n == i + j
      invariant Cursor(i, j) == After(arr1, arr2, n)
      invariant forall t :: 0 <= t < n ==> arr[start + t] == full[t]
      invariant forall m :: 0 <= m < arr.Length && !(start <= m < k) ==> arr[m] == old(arr[m])
    {
      assert MergeAt(arr1, arr2, n) == full[n];
      if arr1[i] <= arr2[j] {
        arr[k] := arr1[i];
        i := i + 1;
      } else {
        arr[k] := arr2[j];
        j := j + 1;
      }
      k := k + 1;
      n := n + 1;
    }
    if i < num1 {
      LeftRest(arr1, arr2, n);
    } else {
      RightRest(arr1, arr2, n);
    }
    ghost var n0 := n;
    CopyRest(arr, k, arr1, i);
    k := k + (num1 - i);
    CopyRest(arr, k, arr2, j);
    forall t | n0 <= t < |full|
      ensures arr[start + t] == full[t]
    {
      assert full[t] == MergeAt(arr1, arr2, t);
      if i < num1 {
        assert arr[start + t] == arr1[i..][t - n0];
      } else {
        assert arr[start + t] == arr2[j..][t - n0];
      }
    }
    assert forall t :: 0 <= t < |arr1| + |arr2| ==> MergeAt(arr1, arr2, t) == full[t];
  }

  /** merge(arr, start, mid, end): merges arr[start..mid] and
      arr[mid+1..end] into arr[start..end]. The two runs are first copied
      out (into fresh arrays nothing else refers to, here sequence values). */
  method Merge(arr: array<int>, start: int, mid: int, end: int)
    requires 0 <= start <= mid + 1 <= end + 1 <= arr.Length
    modifies arr
    ensures arr[start..end + 1] == MergeSeqs(old(arr[start..mid + 1]), old(arr[mid + 1..end + 1]))
    ensures SameOutside(arr[..], old(arr[..]), start, end + 1)
  {
    var arr1 := arr[start..mid + 1];
    var arr2 := arr[mid + 1..end + 1];
    MergeRuns(arr, start, arr1, arr2);
  }

  /** A merge of two adjacent ranges keeps the values of the whole array. */
  lemma MergeKeepsValues(a: seq<int>, b: seq<int>, start: int, mid: int, end: int)
    requires 0 <= start <= mid + 1 <= end + 1 <= |a|
    requires SameOutside(b, a, start, end + 1)
    requires b[start..end + 1] == MergeSeqs(a[start..mid + 1], a[mid + 1..end + 1])
    ensures multiset(b) == multiset(a)
  {
    var xs, ys := a[start..mid + 1], a[mid + 1..end + 1];
    MergeSeqsSpec(xs, ys);
    assert a[start..end + 1] == xs + ys;
    RangePermLift(b, a, start, end + 1);
  }

  /** A merge of two adjacent sorted ranges sorts their union. */
  lemma MergeSortsRange(a: seq<int>, b: seq<int>, start: int, mid: int, end: int)
    requires 0 <= start <= mid + 1 <= end + 1 <= |a| == |b|
    requires b[start..end + 1] == MergeSeqs(a[start..mid + 1], a[mid + 1..end + 1])
    requires SortedBetween(a, start, mid + 1) && SortedBetween(a, mid + 1, end + 1)
    ensures SortedBetween(b, start, end + 1)
  {
    SliceSorted(a, start, mid + 1);
    SliceSorted(a, mid + 1, end + 1);
    MergeSeqsSpec(a[start..mid + 1], a[mid + 1..end + 1]);
    SliceSorted(b, start, end + 1);
  }

  /** divide(arr, start, end): sorts arr[start..end] by sorting both halves
      and merging them; a range of at most one element is left alone. */
  method Divide(arr: array<int>, start: int, end: int)
    requires start < end ==> 0 <= start && end < arr.Length
    modifies arr
    ensures start < end ==> SortedBetween(arr[..], start, end + 1)
    ensures multiset(arr[..]) == multiset(old(arr[..]))
    ensures SameOutside(arr[..], old(arr[..]), start, end + 1)
    ensures start >= end ==> arr[..] == old(arr[..])
    decreases end - start
  {
    if start < end {
      var mid := (start + end) / 2;
      ghost var a0 := arr[..];
      Divide(arr, start, mid);
      ghost var a1 := arr[..];
      Divide(arr, mid + 1, end);
      ghost var a2 := arr[..];
      Merge(arr, start, mid, end);
      MergeBothSides(a0, a1, a2, arr[..], start, mid, end);
    }
  }

  /** What divide's two recursive calls and its merge achieve together. */
  lemma MergeBothSides(a0: seq<int>, a1: seq<int>, a2: seq<int>, a3: seq<int>, start: int, mid: int, end: int)
    requires 0 <= start <= mid < end < |a0|
    requires multiset(a1) == multiset(a0) && SameOutside(a1, a0, start, mid + 1)
    requires start < mid ==> SortedBetween(a1, start, mid + 1)
    requires multiset(a2) == multiset(a1) && SameOutside(a2, a1, mid + 1, end + 1)
    requires mid + 1 < end ==> SortedBetween(a2, mid + 1, end + 1)
    requires SameOutside(a3, a2, start, end + 1)
    requires a3[start..end + 1] == MergeSeqs(a2[start..mid + 1], a2[mid + 1..end + 1])
    ensures SortedBetween(a3, start, end + 1)
    ensures multiset(a3) == multiset(a0) && SameOutside(a3, a0, start, end + 1)
  {
    MergeKeepsValues(a2, a3, start, mid, end);
    MergeSortsRange(a2, a3, start, mid, end);
  }

  /** mergeSortHelper: sorts the whole array (an empty one included). */
  method MergeSortHelper(arr: array<int>)
    modifies arr
    ensures Sorted(arr[..])
    ensures multiset(arr[..]) == multiset(old(arr[..]))
  {
    Divide(arr, 0, arr.Length - 1);
  }

  function Min(a: int, b: int): (m: int)
    ensures m <= a && m <= b && (m == a || m == b)
  {
    if a <= b then a else b
  }

  /** In s[lo..hi), consecutive values ascend inside every run of width w
      (the runs start at the multiples of w). */
  ghost predicate RunsSorted(s: seq<int>, w: nat, lo: nat, hi: int)
    requires w > 0 && hi <= |s|
  {
    forall i :: lo <= i && i + 1 < hi && !IsMultiple(i + 1, w) ==> s[i] <= s[i + 1]
  }

  /** Every position starts a run of width 1. */
  lemma {:induction false} MultipleOfOne(x: nat)
    ensures IsMultiple(x, 1)
  {
    if x >= 1 {
      MultipleOfOne(x - 1);
    }
  }

  /** Runs of width 1 are trivially sorted. */
  lemma WidthOne(s: seq<int>)
    ensures RunsSorted(s, 1, 0, |s|)
  {
    forall x: nat | x < |s|
      ensures IsMultiple(x, 1)
    {
      MultipleOfOne(x);
    }
  }

  /** Strictly inside a run no run starts. */
  lemma {:induction false} InsideRun(base: nat, w: nat, x: nat)
    requires w > 0 && IsMultiple(base, w) && base < x < base + w
    ensures !IsMultiple(x, w)
    decreases base
  {
    if base >= w {
      InsideRun(base - w, w, x - w);
    }
  }

  /** A run of width 2w is two runs of width w. */
  lemma {:induction false} DoubleRun(base: nat, w: nat)
    requires w > 0 && IsMultiple(base, 2 * w)
    ensures IsMultiple(base, w) && IsMultiple(base + w, w)
    decreases base
  {
    if base >= 2 * w {
      DoubleRun(base - 2 * w, w);
    } else {
      assert IsMultiple(w, w);
    }
  }

  /** Ascending neighbours make an ascending range. */
  lemma {:induction false} AdjacentSorted(s: seq<int>, lo: int, hi: int)
    requires 0 <= lo <= hi <= |s|
    requires forall i :: lo <= i && i + 1 < hi ==> s[i] <= s[i + 1]
    ensures SortedBetween(s, lo, hi)
  {
    if hi - lo > 1 {
      AdjacentSorted(s, lo, hi - 1);
      forall i | lo <= i < hi - 1
        ensures s[i] <= s[hi - 1]
      {
        assert s[i] <= s[hi - 2];
      }
    }
  }

  /** A range inside one run of width w is ascending when the runs are. */
  lemma RunSorted(s: seq<int>, w: nat, lo: nat, hi: int, base: nat)
    requires w > 0 && base <= lo <= hi <= |s| && hi <= base + w && IsMultiple(base, w)
    requires RunsSorted(s, w, lo, hi)
    ensures SortedBetween(s, lo, hi)
  {
    forall i | lo <= i && i + 1 < hi
      ensures s[i] <= s[i + 1]
    {
      InsideRun(base, w, i + 1);
    }
    AdjacentSorted(s, lo, hi);
  }

  /** One pass of the inner loop when a right run exists: merging the
      two runs at leftStart makes [0, leftStart + 2 size) sorted in runs of
      2 size and keeps the values. */
  lemma MergeStep(a: seq<int>, b: seq<int>, ls: nat, mid: int, re: int, w: nat)
    requires w > 0 && ls < |a| && IsMultiple(ls, 2 * w)
    requires mid == Min(ls + w - 1, |a| - 1) && re == Min(ls + 2 * w - 1, |a| - 1) && mid < re
    requires RunsSorted(a, 2 * w, 0, ls) && RunsSorted(a, w, ls, |a|)
    requires SameOutside(b, a, ls, re + 1)
    requires b[ls..re + 1] == MergeSeqs(a[ls..mid + 1], a[mid + 1..re + 1])
    ensures RunsSorted(b, 2 * w, 0, re + 1) && RunsSorted(b, w, re + 1, |b|)
    ensures multiset(b) == multiset(a)
  {
    DoubleRun(ls, w);
    RunSorted(a, w, ls, mid + 1, ls);
    RunSorted(a, w, mid + 1, re + 1, ls + w);
    MergeSortsRange(a, b, ls, mid, re);
    MergeKeepsValues(a, b, ls, mid, re);
  }

  /** One pass of the inner loop when no right run exists: the last run is
      already sorted and nothing changes. */
  lemma LastRunStep(a: seq<int>, ls: nat, w: nat)
    requires w > 0 && ls < |a| && IsMultiple(ls, 2 * w) && |a| <= ls + w
    requires RunsSorted(a, 2 * w, 0, ls) && RunsSorted(a, w, ls, |a|)
    ensures RunsSorted(a, 2 * w, 0, |a|)
  {
    DoubleRun(ls, w);
    RunSorted(a, w, ls, |a|, ls);
  }

  /** Runs at least as wide as the whole sequence make it sorted. */
  lemma OneRun(s: seq<int>, w: nat)
    requires w > 0 && |s| <= w && RunsSorted(s, w, 0, |s|)
    ensures Sorted(s)
  {
    RunSorted(s, w, 0, |s|, 0);
  }

  /** mergeSortIterative: bottom-up merge sort; pass after pass merges
      neighbouring runs of width size = 1, 2, 4, ... into runs of width
      2 size, using the same merge. */
  method MergeSortIterative(arr: array<int>)
    modifies arr
    ensures Sorted(arr[..])
    ensures multiset(arr[..]) == multiset(old(arr[..]))
  {
    var n := arr.Length;
    var size := 1;
    WidthOne(arr[..]);
    while size < n
      invariant size >= 1
      invariant RunsSorted(arr[..], size, 0, n)
      invariant multiset(arr[..]) == multiset(old(arr[..]))
      decreases n - size
    {
      var leftStart := 0;
      while leftStart < n
        invariant 0 <= leftStart && IsMultiple(leftStart, 2 * size)
        invariant RunsSorted(arr[..], 2 * size, 0, Min(leftStart, n))
        invariant RunsSorted(arr[..], size, Min(leftStart, n), n)
        invariant multiset(arr[..]) == multiset(old(arr[..]))
        decreases n - leftStart
      {
        var mid := Min(leftStart + size - 1, n - 1);
        var rightEnd := Min(leftStart + 2 * size - 1, n - 1);
        if mid < rightEnd {
          ghost var a := arr[..];
          Merge(arr, leftStart, mid, rightEnd);
          MergeStep(a, arr[..], leftStart, mid, rightEnd, size);
        } else {
          LastRunStep(arr[..], leftStart, size);
        }
        leftStart := leftStart + 2 * size;
      }
      size := size * 2;
    }
    OneRun(arr[..], size);
  }
}
