/** The serial bitonic sort of bitonic.cpp: in-place methods on an int array over a range
    [low, low + size), each proved to compute the matching function of BitonicSpec on that range
    and to leave every entry outside it alone. */
module Bitonic {
  import opened BitonicSpec
  import opened BitonicInPlace
  import ZeroOne

  /** swap(list, i, j): exchanges the two entries. */
  method Swap(list: array<int>, i: int, j: int)
    requires 0 <= i < list.Length && 0 <= j < list.Length
    modifies list
    ensures list[..] == old(list[..])[i := old(list[j])][j := old(list[i])]
  {
    var temp := list[i];
    list[i] := list[j];
    list[j] := temp;
  }

  /** The compare loop of BitonicMerge: entry i against entry i + k for every i in [low, low + k). */
  method CompareLoop(list: array<int>, low: int, size: int, k: int, dir: bool)
    requires 0 <= low && 1 < size && low + size <= list.Length && k == size / 2
    modifies list
    ensures list[..] == Splice(old(list[..]), low, Pass(old(list[..])[low..low + size], k, k, dir))
  {
    ghost var a := list[..];
    SpliceSelf(a, low, size);
    var i := low;
    while i < low + k
      invariant low <= i <= low + k
      invariant list[..] == Splice(a, low, Pass(a[low..low + size], k, i - low, dir))
    {
      ghost var before := list[..];
      if dir == (list[i] > list[i + k]) {
        Swap(list, i, i + k);
      }
      PassLoopStep(a, low, size, k, i, dir, before, list[..]);
      i := i + 1;
    }
  }

  /** BitonicMerge(list, low, size, dir): the compare loop over the pairs (i, i + k) of the range,
      then the two halves recursively. The range ends up holding Merge of its old contents and
      nothing outside it changes. */
  method BitonicMerge(list: array<int>, low: int, size: int, dir: bool)
    requires 0 <= low && 0 <= size && low + size <= list.Length
    modifies list
    ensures list[..] == Splice(old(list[..]), low, Merge(old(list[..])[low..low + size], dir))
    decreases size
  {
    if size <= 1 {
      SpliceSelf(list[..], low, size);
      return;
    }
    var k := size / 2;
    ghost var a := list[..];
    CompareLoop(list, low, size, k, dir);
    ghost var b := list[..];
    BitonicMerge(list, low, k, dir);
    ghost var c := list[..];
    BitonicMerge(list, low + k, k, dir);
    ghost var e := list[..];
    MergeLevel(a, low, size, k, dir, b, c, e);
  }

  /** BitonicSort(list, low, size, dir): lower half ascending, upper half descending, then merge.
      The range ends up holding Sort of its old contents and nothing outside it changes. */
  method BitonicSort(list: array<int>, low: int, size: int, dir: bool)
    requires 0 <= low && 0 <= size && low + size <= list.Length
    modifies list
    ensures list[..] == Splice(old(list[..]), low, Sort(old(list[..])[low..low + size], dir))
    decreases size
  {
    if size <= 1 {
      SpliceSelf(list[..], low, size);
      return;
    }
    var k := size / 2;
    ghost var a := list[..];
    BitonicSort(list, low, k, true);
    ghost var b := list[..];
    BitonicSort(list, low + k, k, false);
    ghost var c := list[..];
    BitonicMerge(list, low, size, dir);
    SortLevel(a, low, size, k, dir, b, c, list[..]);
  }

  /** What BitonicSort promises on its range: the same values, and, for a power-of-two size,
      in order (non-decreasing for dir, non-increasing otherwise). */
  lemma SortRangeCorrect(s: seq<int>, dir: bool)
    ensures multiset(Sort(s, dir)) == multiset(s)
    ensures IsPow2(|s|) ==> Sorted(Sort(s, dir), dir)
  {
    SortPermutes(s, dir);
    if IsPow2(|s|) {
      ZeroOne.SortSorts(s, dir);
    }
  }

  /** The call on the whole array (low 0, size the length) leaves Sort of the array: a
      permutation of it, ascending for a power-of-two length. */
  lemma SortWhole(s: seq<int>)
    ensures Splice(s, 0, Sort(s[0..|s|], true)) == Sort(s, true)
    ensures multiset(Sort(s, true)) == multiset(s)
    ensures IsPow2(|s|) ==> Sorted(Sort(s, true), true)
  {
    assert s[0..|s|] == s;
    SpliceWhole(s, Sort(s, true));
    SortRangeCorrect(s, true);
  }

  /** isPowerOf2(n): false for n <= 0, then halves n while it is even. */
  method IsPowerOf2(n: int) returns (r: bool)
    ensures r <==> IsPow2(n)
  {
    if n <= 0 {
      return false;
    }
    var m := n;
    while m > 1
      invariant 1 <= m
      invariant IsPow2(n) <==> IsPow2(m)
      decreases m
    {
      if m % 2 != 0 {
        return false;
      }
      m := m / 2;
    }
    return true;
  }

  /** isSorted(list, size): every entry before size - 1 is at most its successor. */
  method IsSorted(list: array<int>, size: int) returns (r: bool)
    requires size <= list.Length
    ensures r <==> forall i :: 0 <= i < size - 1 ==> list[i] <= list[i + 1]
  {
    var i := 0;
    while i < size - 1
      invariant 0 <= i <= (if size >= 1 then size - 1 else 0)
      invariant forall p :: 0 <= p < i ==> list[p] <= list[p + 1]
    {
      if list[i] > list[i + 1] {
        return false;
      }
      i := i + 1;
    }
    return true;
  }

  /** One size of the driver: a size that is not a power of two is refused before sorting;
      otherwise the list is sorted ascending and the isSorted check passes. */
  method SortAndCheck(arr: array<int>) returns (refused: bool, sorted: bool)
    modifies arr
    ensures refused <==> !IsPow2(arr.Length)
    ensures refused ==> arr[..] == old(arr[..])
    ensures !refused ==> sorted && Sorted(arr[..], true) && multiset(arr[..]) == multiset(old(arr[..]))
  {
    var isPow := IsPowerOf2(arr.Length);
    if !isPow {
      return true, false;
    }
    ghost var s := arr[..];
    BitonicSort(arr, 0, arr.Length, true);
    SortWhole(s);
    sorted := IsSorted(arr, arr.Length);
    AdjacentSorted(arr[..]);
    refused := false;
  }
}
