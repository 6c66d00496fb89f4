/** HeapSorter: in-place heap sort of an int[] over a binary max-heap
    (children 2i+1, 2i+2) and over a ternary one (children 3i+1..3i+3).
    Both build the heap bottom-up with a recursive sift-down, then move the
    maximum to the end of the shrinking heap one step at a time. */
module HeapSorter {
  import opened SortSpec
  import QuickSorter

  /** c is one of the d children of p when a d-ary heap is laid out in an
      array. */
  predicate IsChild(p: int, c: int, d: int) {
    d * p + 1 <= c <= d * p + d
  }

  /** Within [0, n), every parent at index lo or above holds a value at
      least as large as each of its children. */
  ghost predicate HeapFrom(s: seq<int>, n: int, lo: int, d: int)
    requires 0 <= n <= |s|
  {
    forall p, c :: 0 <= lo <= p < c < n && IsChild(p, c, d) ==> s[c] <= s[p]
  }

  /** The state a sift-down at i works on: the heap order holds for every
      parent at lo or above except i, and i's own parent (when it is at lo or
      above) already dominates i's children. */
  ghost predicate HeapExcept(s: seq<int>, n: int, lo: int, i: int, d: int)
    requires 0 <= n <= |s|
  {
    (forall p, c :: 0 <= lo <= p < c < n && p != i && IsChild(p, c, d) ==> s[c] <= s[p]) &&
    (forall g, c :: 0 <= lo <= g < i < c < n && IsChild(g, i, d) && IsChild(i, c, d) ==> s[c] <= s[g])
  }

  /** s[m..n) is ascending and no value of s[0..m) exceeds a value of it:
      the sorted tail that extraction grows. */
  ghost predicate SortedTail(s: seq<int>, m: int, n: int)
    requires 0 <= n <= |s|
  {
    forall a, b :: 0 <= a < b < n && m <= b ==> s[a] <= s[b]
  }

  /** The root of a max-heap on [0, n) holds its largest value. */
  lemma {:induction false} HeapMax(s: seq<int>, n: int, d: int, k: int)
    requires d == 2 || d == 3
    requires 0 <= k < n <= |s| && HeapFrom(s, n, 0, d)
    ensures s[k] <= s[0]
    decreases k
  {
    if k > 0 {
      var p := if d == 2 then (k - 1) / 2 else (k - 1) / 3;
      assert IsChild(p, k, d) && 0 <= p < k;
      HeapMax(s, n, d, p);
    }
  }

  /** In a binary or ternary heap layout an index has one parent. */
  lemma ParentUnique(g: int, p: int, c: int, d: int)
    requires d == 2 || d == 3
    requires IsChild(g, c, d) && IsChild(p, c, d)
    ensures g == p
  {
    if d == 2 {
      assert 2 * g + 1 <= c <= 2 * g + 2 && 2 * p + 1 <= c <= 2 * p + 2;
    } else {
      assert 3 * g + 1 <= c <= 3 * g + 3 && 3 * p + 1 <= c <= 3 * p + 3;
    }
  }

  /** One sift-down step: once i is swapped with its largest child, the
      order is broken at most at that child, and i's new value dominates the
      child's children. */
  lemma SwapDown(s: seq<int>, t: seq<int>, n: int, lo: int, i: int, largest: int, d: int)
    requires d == 2 || d == 3
    requires 0 <= lo <= i < largest < n <= |s| == |t|
    requires IsChild(i, largest, d) && s[i] <= s[largest]
    requires forall c :: i < c < n && IsChild(i, c, d) ==> s[c] <= s[largest]
    requires HeapExcept(s, n, lo, i, d)
    requires t[i] == s[largest] && t[largest] == s[i]
    requires forall k :: 0 <= k < |s| && k != i && k != largest ==> t[k] == s[k]
    ensures HeapExcept(t, n, lo, largest, d)
  {
    forall p, c | 0 <= lo <= p < c < n && p != largest && IsChild(p, c, d)
      ensures t[c] <= t[p]
    {
      if c == i {
        assert forall g :: IsChild(g, i, d) && IsChild(p, i, d) ==> g == p by {
          forall g | IsChild(g, i, d) && IsChild(p, i, d) { ParentUnique(g, p, i, d); }
        }
      } else if c == largest {
        ParentUnique(p, i, largest, d);
      }
    }
    forall g, c | 0 <= lo <= g < largest < c < n && IsChild(g, largest, d) && IsChild(largest, c, d)
      ensures t[c] <= t[g]
    {
      ParentUnique(g, i, largest, d);
    }
  }

  /** When no child of i holds a larger value, the order holds at i too. */
  lemma SiftDone(s: seq<int>, n: int, lo: int, i: int, d: int)
    requires 0 <= lo <= i && 0 <= n <= |s|
    requires HeapExcept(s, n, lo, i, d)
    requires forall c :: i < c < n && IsChild(i, c, d) ==> s[c] <= s[i]
    ensures HeapFrom(s, n, lo, d)
  {
  }

  /** heapify(arr, n, i): sifts arr[i] down the binary heap on [0, n).
      Whatever the parents from lo on satisfied before, except at i, they
      all satisfy afterwards; only [i, n) is permuted. lo is a proof device:
      the build loop passes i, extraction passes 0. */
  method Heapify(arr: array<int>, n: int, i: int, ghost lo: int)
    requires 0 <= lo <= i && 0 <= n <= arr.Length
    requires HeapExcept(arr[..], n, lo, i, 2)
    modifies arr
    ensures HeapFrom(arr[..], n, lo, 2)
    ensures multiset(arr[..]) == multiset(old(arr[..]))
    ensures SameOutside(arr[..], old(arr[..]), i, n)
    decreases n - i
  {
    var largest := i;
    var left := 2 * i + 1;
    var right := 2 * i + 2;
    if left < n && arr[left] > arr[largest] {
      largest := left;
    }
    if right < n && arr[right] > arr[largest] {
      largest := right;
    }
    if largest != i {
      ghost var s := arr[..];
      QuickSorter.Swap(arr, i, largest);
      SwapDown(s, arr[..], n, lo, i, largest, 2);
      Heapify(arr, n, largest, lo);
    } else {
      SiftDone(arr[..], n, lo, i, 2);
    }
  }

  /** ternaryHeapify(arr, n, i): the same sift-down over three children. */
  method TernaryHeapify(arr: array<int>, n: int, i: int, ghost lo: int)
    requires 0 <= lo <= i && 0 <= n <= arr.Length
    requires HeapExcept(arr[..], n, lo, i, 3)
    modifies arr
    ensures HeapFrom(arr[..], n, lo, 3)
    ensures multiset(arr[..]) == multiset(old(arr[..]))
    ensures SameOutside(arr[..], old(arr[..]), i, n)
    decreases n - i
  {
    var largest := i;
    var child1 := 3 * i + 1;
    var child2 := 3 * i + 2;
    var child3 := 3 * i + 3;
    if child1 < n && arr[child1] > arr[largest] {
      largest := child1;
    }
    if child2 < n && arr[child2] > arr[largest] {
      largest := child2;
    }
    if child3 < n && arr[child3] > arr[largest] {
      largest := child3;
    }
    assert largest == i || (IsChild(i, largest, 3) && largest < n);
    assert forall c :: i < c < n && IsChild(i, c, 3) ==> arr[c] <= arr[largest];
    if largest != i {
      ghost var s := arr[..];
      QuickSorter.Swap(arr, i, largest);
      SwapDown(s, arr[..], n, lo, i, largest, 3);
      TernaryHeapify(arr, n, largest, lo);
    } else {
      SiftDone(arr[..], n, lo, i, 3);
    }
  }

  /** One extraction step: s1 is s0 with its root swapped to index i, and
      s2 is s1 re-heapified on [0, i). The sorted tail then reaches down to
      index i. */
  lemma ExtractStep(s0: seq<int>, s1: seq<int>, s2: seq<int>, i: int, n: int, d: int)
    requires d == 2 || d == 3
    requires 0 < i < n <= |s0| == |s1|
    requires HeapFrom(s0, i + 1, 0, d) && SortedTail(s0, i + 1, n)
    requires s1[0] == s0[i] && s1[i] == s0[0]
    requires forall k :: 0 <= k < |s0| && k != 0 && k != i ==> s1[k] == s0[k]
    requires multiset(s2) == multiset(s1) && SameOutside(s2, s1, 0, i)
    ensures SortedTail(s2, i, n)
  {
    RangePerm(s2, s1, 0, i);
    forall b | i <= b < n
      ensures AllAtMost(s2, 0, i, s2[b])
    {
      forall a | 0 <= a < i
        ensures s1[a] <= s1[b]
      {
        var k := if a == 0 then i else a;
        assert s1[a] == s0[k];
        HeapMax(s0, i + 1, d, k);
      }
      PermKeepsBounds(s2, s1, 0, i, s1[b]);
    }
  }

  /** A build may start at any index from which on no parent has a child
      inside [0, n): those parents have nothing to order. */
  lemma BuildStart(s: seq<int>, n: int, start: int, d: int)
    requires 0 <= n <= |s| && -1 <= start
    requires (d == 2 && n <= 2 * start + 3) || (d == 3 && n <= 3 * start + 4)
    ensures HeapFrom(s, n, start + 1, d)
  {
  }

  /** The end of extraction: a tail reaching down to index 1 (or an empty
      range) is a sorted range. */
  lemma TailIsSorted(s: seq<int>, n: int, i: int)
    requires 0 <= n <= |s| && i <= 0 && (n == 0 || i == 0)
    requires SortedTail(s, i + 1, n)
    ensures SortedBetween(s, 0, n)
  {
  }

  /** heapSort(arr, n): builds a binary max-heap on [0, n), then swaps its
      root behind the shrinking heap n-1 times, leaving arr[0..n) ascending
      and a permutation of its old contents. */
  method HeapSort(arr: array<int>, n: int)
    requires 0 <= n <= arr.Length
    modifies arr
    ensures SortedBetween(arr[..], 0, n)
    ensures multiset(arr[..n]) == multiset(old(arr[..n]))
    ensures SameOutside(arr[..], old(arr[..]), 0, n)
  {
    var i := n / 2 - 1;
    BuildStart(arr[..], n, i, 2);
    while i >= 0
      invariant -1 <= i <= n / 2 - 1
      invariant HeapFrom(arr[..], n, i + 1, 2)
      invariant multiset(arr[..]) == multiset(old(arr[..]))
      invariant SameOutside(arr[..], old(arr[..]), 0, n)
    {
      Heapify(arr, n, i, i);
      i := i - 1;
    }
    i := n - 1;
    while i > 0
      invariant n == 0 || 0 <= i < n
      invariant n == 0 || HeapFrom(arr[..], i + 1, 0, 2)
      invariant SortedTail(arr[..], i + 1, n)
      invariant multiset(arr[..]) == multiset(old(arr[..]))
      invariant SameOutside(arr[..], old(arr[..]), 0, n)
    {
      ghost var s0 := arr[..];
      QuickSorter.Swap(arr, 0, i);
      ghost var s1 := arr[..];
      Heapify(arr, i, 0, 0);
      ExtractStep(s0, s1, arr[..], i, n, 2);
      i := i - 1;
    }
    TailIsSorted(arr[..], n, i);
    RangePerm(arr[..], old(arr[..]), 0, n);
  }

  /** heapSortHelper: sorts the whole array. */
  method HeapSortHelper(arr: array<int>)
    modifies arr
    ensures Sorted(arr[..])
    ensures multiset(arr[..]) == multiset(old(arr[..]))
  {
    assert arr[..arr.Length] == arr[..];
    HeapSort(arr, arr.Length);
    assert arr[..arr.Length] == arr[..];
  }

  /** ternaryHeapSort(arr): the same two phases over a ternary heap on the
      whole array. The build starts at (n - 1) / 3, which Java truncates to 0
      for an empty array; that start is written out here because Dafny's
      division would round it down to -1. */
  method TernaryHeapSort(arr: array<int>)
    modifies arr
    ensures Sorted(arr[..])
    ensures multiset(arr[..]) == multiset(old(arr[..]))
  {
    var n := arr.Length;
    var i := if n == 0 then 0 else (n - 1) / 3;
    BuildStart(arr[..], n, i, 3);
    while i >= 0
      invariant -1 <= i
      invariant HeapFrom(arr[..], n, i + 1, 3)
      invariant multiset(arr[..]) == multiset(old(arr[..]))
    {
      TernaryHeapify(arr, n, i, i);
      i := i - 1;
    }
    i := n - 1;
    while i > 0
      invariant n == 0 || 0 <= i < n
      invariant n == 0 || HeapFrom(arr[..], i + 1, 0, 3)
      invariant SortedTail(arr[..], i + 1, n)
      invariant multiset(arr[..]) == multiset(old(arr[..]))
    {
      ghost var s0 := arr[..];
      QuickSorter.Swap(arr, 0, i);
      ghost var s1 := arr[..];
      TernaryHeapify(arr, i, 0, 0);
      ExtractStep(s0, s1, arr[..], i, n, 3);
      i := i - 1;
    }
    TailIsSorted(arr[..], n, i);
  }
}
