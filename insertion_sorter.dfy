/** InsertionSorter: in-place insertion sort and shell sort of the prefix
    arr[0..n) of an int[], and the two whole-array helpers, which pass
    arr.length - 1 and so leave the last element where it is. */
module InsertionSorter {
  import opened SortSpec

  /** Moving the hole of an insertion one chain step down (the value below
      it is copied up) keeps the values the array would hold with the key
      put into the hole. */
  lemma MoveHole(s: seq<int>, h: int, g: int, key: int)
    requires 0 < g <= h < |s|
    ensures multiset(s[h := s[h - g]][h - g := key]) == multiset(s[h := key])
  {
    var t := s[h := key];
    assert s[h := s[h - g]][h - g := key] == t[h := s[h - g]][h - g := key];
    assert t[h - g] == s[h - g];
  }

  /** insertionSort(arr, n): for i = 1 .. n-1, the key arr[i] is moved down
      past the larger values of the sorted prefix arr[0..i). That pass is
      shellSort's gapped insertion with gap 1 (the source's j + 1 is the
      hole). Leaves arr[0..n) ascending and a permutation of its old
      contents, and arr[n..] as it was; an n of at most one changes
      nothing. */
  method InsertionSort(arr: array<int>, n: int)
    requires n <= arr.Length
    modifies arr
    ensures 0 <= n ==> SortedBetween(arr[..], 0, n) && multiset(arr[..n]) == multiset(old(arr[..n]))
    ensures multiset(arr[..]) == multiset(old(arr[..]))
    ensures SameOutside(arr[..], old(arr[..]), 0, n)
  {
    var i := 1;
    while i < n
      invariant n <= 1 || (1 <= i <= n && GapSorted(arr[..], 1, i))
      invariant multiset(arr[..]) == multiset(old(arr[..]))
      invariant SameOutside(arr[..], old(arr[..]), 0, n)
    {
      GapInsert(arr, i, 1);
      i := i + 1;
    }
    if 0 <= n {
      if n > 1 {
        GapOneSorted(arr[..], n);
      }
      RangePerm(arr[..], old(arr[..]), 0, n);
    }
  }

  /** insertionSortHelper, as written: it passes arr.length - 1, so only
      arr[0..length-1) is sorted and the last element keeps its place. */
  method InsertionSortHelper(arr: array<int>)
    modifies arr
    ensures arr.Length > 0 ==> SortedBetween(arr[..], 0, arr.Length - 1)
    ensures arr.Length > 0 ==> arr[arr.Length - 1] == old(arr[arr.Length - 1])
    ensures multiset(arr[..]) == multiset(old(arr[..]))
  {
    InsertionSort(arr, arr.Length - 1);
  }

  /** The helper with the length the callers evidently mean: the whole
      array ends ascending. */
  method InsertionSortWhole(arr: array<int>)
    modifies arr
    ensures Sorted(arr[..])
    ensures multiset(arr[..]) == multiset(old(arr[..]))
  {
    InsertionSort(arr, arr.Length);
  }

  /** Within s[0..hi), every value is at most the one gap places after it:
      each chain s[j], s[j+gap], ... is ascending. */
  ghost predicate GapSorted(s: seq<int>, gap: int, hi: int)
    requires 0 < gap && hi <= |s|
  {
    forall a, b :: 0 <= a && a + gap == b < hi ==> s[a] <= s[b]
  }

  /** With gap 1 every chain is the whole range, so the range is sorted. */
  lemma {:induction false} GapOneSorted(s: seq<int>, hi: int)
    requires 0 <= hi <= |s| && GapSorted(s, 1, hi)
    ensures SortedBetween(s, 0, hi)
  {
    if hi > 1 {
      GapOneSorted(s, hi - 1);
      assert forall a :: 0 <= a < hi - 1 ==> s[a] <= s[hi - 2] <= s[hi - 1];
    }
  }

  /** Two different multiples of w lie at least w apart. */
  lemma {:induction false} MultiplesApart(x: nat, y: nat, w: nat)
    requires w > 0 && IsMultiple(x, w) && IsMultiple(y, w) && y < x
    ensures y + w <= x
    decreases y
  {
    if y >= w {
      MultiplesApart(x - w, y - w, w);
    }
  }

  /** k is on the chain of gap-steps from the hole h up to i (h excluded). */
  predicate OnChain(k: int, h: int, i: int, gap: int)
    requires 0 < gap
  {
    h + gap <= k <= i && IsMultiple(i - k, gap)
  }

  /** The state of a gapped insertion of key = s0[i] with the hole at h:
      the chain values below i sit one gap up, each larger than the key, and
      the rest is as in s0; with the key in the hole the values are s0's. */
  ghost predicate GapShifting(a: seq<int>, s0: seq<int>, h: int, i: int, gap: int, key: int)
    requires 0 < gap
  {
    0 <= h <= i < |a| == |s0| && IsMultiple(i - h, gap) &&
    multiset(a[h := key]) == multiset(s0) &&
    (forall k {:trigger a[k]} :: 0 <= k < |a| && !OnChain(k, h, i, gap) ==> a[k] == s0[k]) &&
    (forall k {:trigger a[k]} :: OnChain(k, h, i, gap) ==> a[k] == s0[k - gap] && key < a[k])
  }

  /** Shifting the value one gap below the hole up moves the hole down one
      gap. */
  lemma GapShiftOne(s0: seq<int>, t: seq<int>, u: seq<int>, h: int, i: int, gap: int, key: int)
    requires 0 < gap && GapShifting(t, s0, h, i, gap, key) && gap <= h && key < t[h - gap]
    requires u == t[h := t[h - gap]]
    ensures GapShifting(u, s0, h - gap, i, gap, key)
  {
    MoveHole(t, h, gap, key);
    assert IsMultiple(i - (h - gap), gap);
    forall k | 0 <= k < |u| && !OnChain(k, h - gap, i, gap)
      ensures u[k] == s0[k]
    {
      assert k != h && !OnChain(k, h, i, gap);
    }
    forall k | OnChain(k, h - gap, i, gap) && k != h
      ensures OnChain(k, h, i, gap)
    {
      MultiplesApart(i - h, i - k, gap);
    }
  }

  /** Placing the key in the hole completes one gapped insertion: the chain
      through i, which is in [0, i + 1) all that changed, stays ascending. */
  lemma GapInsertStep(s0: seq<int>, t: seq<int>, h: int, i: int, gap: int)
    requires 0 < gap && 0 <= i < |s0| && GapShifting(t, s0, h, i, gap, s0[i]) && GapSorted(s0, gap, i)
    requires h < gap || t[h - gap] <= s0[i]
    ensures GapSorted(t[h := s0[i]], gap, i + 1)
    ensures multiset(t[h := s0[i]]) == multiset(s0)
    ensures SameOutside(t[h := s0[i]], s0, 0, i + 1)
  {
    if h >= gap {
      assert !OnChain(h - gap, h, i, gap);
    }
    var r := t[h := s0[i]];
    forall a | 0 <= a && a + gap <= i
      ensures r[a] <= r[a + gap]
    {
      var b := a + gap;
      assert IsMultiple(i - a, gap) == IsMultiple(i - b, gap);
      if OnChain(b, h, i, gap) {
        if a != h {
          MultiplesApart(i - h, i - a, gap);
          assert OnChain(a, h, i, gap);
          assert r[a] == s0[a - gap] && r[b] == s0[a];
        }
      } else if b != h {
        assert !OnChain(a, h, i, gap) && a != h;
        assert r[a] == s0[a] && r[b] == s0[b];
        assert b != i;
      }
    }
  }

  /** The shifting loop of a gapped insertion: the values on arr[i]'s chain
      of gap-steps that are larger than it move one gap up, down to the
      hole j, below which the chain value is not larger. */
  method ShiftChain(arr: array<int>, i: int, gap: int) returns (j: int)
    requires 0 < gap <= i < arr.Length
    modifies arr
    ensures GapShifting(arr[..], old(arr[..]), j, i, gap, old(arr[i]))
    ensures j < gap || arr[j - gap] <= old(arr[i])
  {
    var key := arr[i];
    j := i;
    ghost var s0 := arr[..];
    assert s0[i := key] == s0;
    while j >= gap && arr[j - gap] > key
      invariant GapShifting(arr[..], s0, j, i, gap, key)
      decreases j
    {
      ShiftUp(arr, j, gap, s0, i, key);
      j := j - gap;
    }
  }

  /** The loop body: the chain value one gap below the hole moves up into
      it, and the hole moves one gap down. */
  method ShiftUp(arr: array<int>, j: int, gap: int, ghost s0: seq<int>, ghost i: int, ghost key: int)
    requires 0 < gap <= j && GapShifting(arr[..], s0, j, i, gap, key) && key < arr[j - gap]
    modifies arr
    ensures GapShifting(arr[..], s0, j - gap, i, gap, key)
  {
    ghost var t := arr[..];
    arr[j] := arr[j - gap];
    GapShiftOne(s0, t, arr[..], j, i, gap, key);
  }

  /** One pass of shellSort's middle loop: the key arr[i] is moved down its
      chain of gap-steps past the larger values, each shifted one gap up,
      and lands in the hole they leave. */
  method GapInsert(arr: array<int>, i: int, gap: int)
    requires 0 < gap <= i < arr.Length && GapSorted(arr[..], gap, i)
    modifies arr
    ensures GapSorted(arr[..], gap, i + 1)
    ensures multiset(arr[..]) == multiset(old(arr[..]))
    ensures SameOutside(arr[..], old(arr[..]), 0, i + 1)
  {
    var key := arr[i];
    ghost var s0 := arr[..];
    var j := ShiftChain(arr, i, gap);
    ghost var t := arr[..];
    assert j < gap || t[j - gap] <= key;
    arr[j] := key;
    assert arr[..] == t[j := key];
    GapInsertStep(s0, t, j, i, gap);
  }

  /** shellSort(arr, n): gapped insertion passes over arr[0..n) with gaps
      n/2, n/4, ..., 1. After the pass for a gap, every chain of that gap is
      ascending; the last pass has gap 1, so arr[0..n) ends ascending. */
  method ShellSort(arr: array<int>, n: int)
    requires n <= arr.Length
    modifies arr
    ensures 0 <= n ==> SortedBetween(arr[..], 0, n) && multiset(arr[..n]) == multiset(old(arr[..n]))
    ensures multiset(arr[..]) == multiset(old(arr[..]))
    ensures SameOutside(arr[..], old(arr[..]), 0, n)
  {
    var gap := n / 2;
    while gap > 0
      invariant 2 * gap <= n
      invariant gap <= 0 ==> n <= 1 || GapSorted(arr[..], 1, n)
      invariant multiset(arr[..]) == multiset(old(arr[..]))
      invariant SameOutside(arr[..], old(arr[..]), 0, n)
    {
      var i := gap;
      while i < n
        invariant gap <= i <= n
        invariant GapSorted(arr[..], gap, i)
        invariant multiset(arr[..]) == multiset(old(arr[..]))
        invariant SameOutside(arr[..], old(arr[..]), 0, n)
      {
        GapInsert(arr, i, gap);
        i := i + 1;
      }
      gap := gap / 2;
    }
    if 0 <= n {
      GapOneSorted(arr[..], n);
      RangePerm(arr[..], old(arr[..]), 0, n);
    }
  }

  /** shellSortHelper, as written: like insertionSortHelper it passes
      arr.length - 1, leaving the last element in place. */
  method ShellSortHelper(arr: array<int>)
    modifies arr
    ensures arr.Length > 0 ==> SortedBetween(arr[..], 0, arr.Length - 1)
    ensures arr.Length > 0 ==> arr[arr.Length - 1] == old(arr[arr.Length - 1])
    ensures multiset(arr[..]) == multiset(old(arr[..]))
  {
    ShellSort(arr, arr.Length - 1);
  }

  /** The shell-sort helper with the whole length. */
  method ShellSortWhole(arr: array<int>)
    modifies arr
    ensures Sorted(arr[..])
    ensures multiset(arr[..]) == multiset(old(arr[..]))
  {
    ShellSort(arr, arr.Length);
  }

  /** What the helpers' contract allows on [2, 1]: the last element stays,
      the values are kept, so the result is [2, 1] itself, which is not
      ascending. */
  lemma HelperLeavesUnsorted(before: seq<int>, after: seq<int>)
    requires before == [2, 1]
    requires |after| == 2 && after[1] == before[1]
    requires multiset(after) == multiset(before)
    ensures after == [2, 1] && !Sorted(after)
  {
    assert after == [after[0], after[1]];
    assert after[0] in multiset(before);
  }
}
