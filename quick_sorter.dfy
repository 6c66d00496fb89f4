/** QuickSorter: in-place quicksort of an int[] with the last element as
    pivot, and a variant that first moves the median of the first, middle
    and last elements into the middle and partitions around it. */
module QuickSorter {
  import opened SortSpec

  /** swap(arr, a, b): exchanges two entries; a == b returns at once, so it
      touches nothing even when a is not an index. */
  method Swap(arr: array<int>, a: int, b: int)
    requires a == b || (0 <= a < arr.Length && 0 <= b < arr.Length)
    modifies arr
    ensures 0 <= a < arr.Length && 0 <= b < arr.Length ==> arr[a] == old(arr[b]) && arr[b] == old(arr[a])
    ensures forall k :: 0 <= k < arr.Length && k != a && k != b ==> arr[k] == old(arr[k])
    ensures multiset(arr[..]) == multiset(old(arr[..]))
  {
    if a == b {
      return;
    }
    var temp := arr[a];
    arr[a] := arr[b];
    arr[b] := temp;
  }

  /** partition(arr, low, high): Lomuto partition around the pivot
      arr[high]. Returns the pivot's final index p; smaller values end up in
      [low, p) and the rest in (p, high]. */
  method Partition(arr: array<int>, low: int, high: int) returns (p: int)
    requires 0 <= low <= high < arr.Length
    modifies arr
    ensures low <= p <= high && arr[p] == old(arr[high])
    ensures AllBelow(arr[..], low, p, arr[p]) && AllAtLeast(arr[..], p + 1, high + 1, arr[p])
    ensures multiset(arr[..]) == multiset(old(arr[..]))
    ensures SameOutside(arr[..], old(arr[..]), low, high + 1)
  {
    var pivot := arr[high];
    var i := low - 1;
    var j := low;
    while j < high
      invariant low <= j <= high && low - 1 <= i < j
      invariant arr[high] == pivot
      invariant forall k :: low <= k <= i ==> arr[k] < pivot
      invariant forall k :: i < k < j ==> pivot <= arr[k]
      invariant multiset(arr[..]) == multiset(old(arr[..]))
      invariant forall k :: 0 <= k < arr.Length && !(low <= k <= high) ==> arr[k] == old(arr[k])
    {
      if arr[j] < pivot {
        i := i + 1;
        Swap(arr, i, j);
      }
      j := j + 1;
    }
    Swap(arr, i + 1, high);
    p := i + 1;
  }

  /** quickSort(arr, low, high): sorts arr[low..high]; a range of at most one
      element (low >= high) is left alone, whatever low and high are. */
  method QuickSort(arr: array<int>, low: int, high: int)
    requires low < high ==> 0 <= low && high < arr.Length
    modifies arr
    ensures low < high ==> SortedBetween(arr[..], low, high + 1)
    ensures multiset(arr[..]) == multiset(old(arr[..]))
    ensures SameOutside(arr[..], old(arr[..]), low, high + 1)
    ensures low >= high ==> arr[..] == old(arr[..])
    decreases high - low
  {
    if low < high {
      var p := Partition(arr, low, high);
      ghost var a0 := arr[..];
      QuickSort(arr, low, p - 1);
      ghost var a1 := arr[..];
      QuickSort(arr, p + 1, high);
      SortBothSides(a0, a1, arr[..], low, p, high);
    }
  }

  /** What the two recursive calls after a partition at p achieve: the
      first permutes and sorts [low, p), the second (p, high]; the pivot's
      bounds survive both, so [low, high] ends up sorted. */
  lemma SortBothSides(a0: seq<int>, a1: seq<int>, a2: seq<int>, low: int, p: int, high: int)
    requires 0 <= low <= p <= high < |a0|
    requires AllBelow(a0, low, p, a0[p]) && AllAtLeast(a0, p + 1, high + 1, a0[p])
    requires multiset(a1) == multiset(a0) && SameOutside(a1, a0, low, p)
    requires low < p - 1 ==> SortedBetween(a1, low, p)
    requires multiset(a2) == multiset(a1) && SameOutside(a2, a1, p + 1, high + 1)
    requires p + 1 < high ==> SortedBetween(a2, p + 1, high + 1)
    ensures SortedBetween(a2, low, high + 1)
    ensures multiset(a2) == multiset(a0) && SameOutside(a2, a0, low, high + 1)
  {
    RangePerm(a1, a0, low, p);
    PermKeepsBounds(a1, a0, low, p, a0[p]);
    RangePerm(a2, a1, p + 1, high + 1);
    PermKeepsBounds(a2, a1, p + 1, high + 1, a0[p]);
    JoinAroundPivot(a2, low, p, high + 1);
  }

  /** quickSortHelper: sorts the whole array (an empty one included). */
  method QuickSortHelper(arr: array<int>)
    modifies arr
    ensures Sorted(arr[..])
    ensures multiset(arr[..]) == multiset(old(arr[..]))
  {
    QuickSort(arr, 0, arr.Length - 1);
  }

  /** medianOfThree: orders arr[low], arr[mid], arr[high] with three
      compare-and-swaps and returns mid, the midpoint of the range. */
  method MedianOfThree(arr: array<int>, low: int, high: int) returns (mid: int)
    requires 0 <= low <= high < arr.Length
    modifies arr
    ensures mid == low + (high - low) / 2
    ensures arr[low] <= arr[mid] <= arr[high]
    ensures multiset(arr[..]) == multiset(old(arr[..]))
    ensures forall k :: 0 <= k < arr.Length && k != low && k != mid && k != high ==> arr[k] == old(arr[k])
  {
    mid := low + (high - low) / 2;
    if arr[mid] < arr[low] {
      Swap(arr, low, mid);
    }
    if arr[high] < arr[low] {
      Swap(arr, low, high);
    }
    if arr[high] < arr[mid] {
      Swap(arr, mid, high);
    }
  }

  /** partitionMot: moves the pivot at pivotIndex to high, then runs the
      same Lomuto loop and final swap as partition. */
  method PartitionMot(arr: array<int>, low: int, high: int, pivotIndex: int) returns (p: int)
    requires 0 <= low <= pivotIndex <= high < arr.Length
    modifies arr
    ensures low <= p <= high && arr[p] == old(arr[pivotIndex])
    ensures AllBelow(arr[..], low, p, arr[p]) && AllAtLeast(arr[..], p + 1, high + 1, arr[p])
    ensures multiset(arr[..]) == multiset(old(arr[..]))
    ensures SameOutside(arr[..], old(arr[..]), low, high + 1)
  {
    Swap(arr, pivotIndex, high);
    p := Partition(arr, low, high);
  }

  /** quickSortMot(arr, low, high): quicksort with a median-of-three pivot. */
  method QuickSortMot(arr: array<int>, low: int, high: int)
    requires low < high ==> 0 <= low && high < arr.Length
    modifies arr
    ensures low < high ==> SortedBetween(arr[..], low, high + 1)
    ensures multiset(arr[..]) == multiset(old(arr[..]))
    ensures SameOutside(arr[..], old(arr[..]), low, high + 1)
    ensures low >= high ==> arr[..] == old(arr[..])
    decreases high - low
  {
    if low < high {
      var pivotIndex := MedianOfThree(arr, low, high);
      pivotIndex := PartitionMot(arr, low, high, pivotIndex);
      ghost var a0 := arr[..];
      QuickSortMot(arr, low, pivotIndex - 1);
      ghost var a1 := arr[..];
      QuickSortMot(arr, pivotIndex + 1, high);
      SortBothSides(a0, a1, arr[..], low, pivotIndex, high);
    }
  }

  /** quickSortMotHelper: sorts the whole array. */
  method QuickSortMotHelper(arr: array<int>)
    modifies arr
    ensures Sorted(arr[..])
    ensures multiset(arr[..]) == multiset(old(arr[..]))
  {
    QuickSortMot(arr, 0, arr.Length - 1);
  }
}
