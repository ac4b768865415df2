/** The OpenMP bitonic sort of bitonic_omp.cpp. The recursive calls are OpenMP tasks that run
    deferred only when the range is larger than the cutoff; a deferred pair of tasks may run in
    either order, which the scheduler decides. The scheduler's choice is a parameter
    upperFirst(low, size): when it holds for a deferred pair, the upper task runs first. Whatever
    the cutoff and the choice, the range ends up exactly as the serial sort leaves it. */
module BitonicOmp {
  import opened BitonicSpec
  import opened BitonicInPlace
  import Bitonic

  /** taskCutOf = max(1024, size / (nThreads * 12)), for a positive thread count. */
  function TaskCutOff(size: int, nThreads: int): (r: int)
    requires 0 <= size && 1 <= nThreads
    ensures r >= 1024 && r >= size / (nThreads * 12)
    ensures r == 1024 || r == size / (nThreads * 12)
  {
    Max(1024, size / (nThreads * 12))
  }

  /** Both halves merged, lower half first. */
  ghost function HalvesMerged(b: seq<int>, low: int, k: int, dir: bool): (r: seq<int>)
    requires 0 <= low && 0 <= k && low + k + k <= |b|
    ensures |r| == |b|
  {
    var c := Splice(b, low, Merge(b[low..low + k], dir));
    Splice(c, low + k, Merge(c[low + k..low + k + k], dir))
  }

  /** Both halves sorted, the lower one ascending and first. */
  ghost function HalvesSorted(a: seq<int>, low: int, k: int): (r: seq<int>)
    requires 0 <= low && 0 <= k && low + k + k <= |a|
    ensures |r| == |a|
  {
    var b := Splice(a, low, Sort(a[low..low + k], true));
    Splice(b, low + k, Sort(b[low + k..low + k + k], false))
  }

  /** Merging the upper half first gives the same array as merging the lower half first. */
  lemma MergeUpperFirst(b: seq<int>, low: int, k: int, dir: bool, c: seq<int>, e: seq<int>)
    requires 0 <= low && 0 <= k && low + k + k <= |b|
    requires c == Splice(b, low + k, Merge(b[low + k..low + k + k], dir))
    requires e == Splice(c, low, Merge(c[low..low + k], dir))
    ensures e == HalvesMerged(b, low, k, dir)
  {
    var m1 := Merge(b[low..low + k], dir);
    var m2 := Merge(b[low + k..low + k + k], dir);
    SpliceOutside(b, low + k, m2, low, k);
    SpliceOutside(b, low, m1, low + k, k);
    SpliceCommute(b, low, m1, low + k, m2);
  }

  /** Sorting the upper half first gives the same array as sorting the lower half first. */
  lemma SortUpperFirst(a: seq<int>, low: int, k: int, b: seq<int>, c: seq<int>)
    requires 0 <= low && 0 <= k && low + k + k <= |a|
    requires b == Splice(a, low + k, Sort(a[low + k..low + k + k], false))
    requires c == Splice(b, low, Sort(b[low..low + k], true))
    ensures c == HalvesSorted(a, low, k)
  {
    var s1 := Sort(a[low..low + k], true);
    var s2 := Sort(a[low + k..low + k + k], false);
    SpliceOutside(a, low + k, s2, low, k);
    SpliceOutside(a, low, s1, low + k, k);
    SpliceCommute(a, low, s1, low + k, s2);
  }

  /** BitonicMergeOMP: the compare loop, then the merges of the two halves as tasks. */
  method BitonicMergeOMP(list: array<int>, low: int, size: int, dir: bool, taskCutOff: int, upperFirst: (int, int) -> bool)
    requires 0 <= low && 0 <= size && low + size <= list.Length
    modifies list
    ensures list[..] == Splice(old(list[..]), low, Merge(old(list[..])[low..low + size], dir))
    decreases size, 1
  {
    if size <= 1 {
      SpliceSelf(list[..], low, size);
      return;
    }
    var k := size / 2;
    ghost var a := list[..];
    Bitonic.CompareLoop(list, low, size, k, dir);
    ghost var b := list[..];
    MergeTasks(list, low, k, dir, taskCutOff, upperFirst, size > taskCutOff && upperFirst(low, size));
    ghost var c := Splice(b, low, Merge(b[low..low + k], dir));
    MergeLevel(a, low, size, k, dir, b, c, list[..]);
  }

  /** The two merge tasks of one level (bitonic_omp.cpp:119-125): the upper one first when upper holds. */
  method MergeTasks(list: array<int>, low: int, k: int, dir: bool, taskCutOff: int, upperFirst: (int, int) -> bool, upper: bool)
    requires 0 <= low && 1 <= k && low + k + k <= list.Length
    modifies list
    ensures list[..] == HalvesMerged(old(list[..]), low, k, dir)
    decreases k + k, 0
  {
    ghost var b := list[..];
    if upper {
      BitonicMergeOMP(list, low + k, k, dir, taskCutOff, upperFirst);
      ghost var c := list[..];
      BitonicMergeOMP(list, low, k, dir, taskCutOff, upperFirst);
      MergeUpperFirst(b, low, k, dir, c, list[..]);
    } else {
      BitonicMergeOMP(list, low, k, dir, taskCutOff, upperFirst);
      BitonicMergeOMP(list, low + k, k, dir, taskCutOff, upperFirst);
    }
  }

  /** BitonicSortOMP: the two half sorts as tasks, then (after taskwait) the merge. */
  method BitonicSortOMP(list: array<int>, low: int, size: int, dir: bool, taskCutOff: int, upperFirst: (int, int) -> bool)
    requires 0 <= low && 0 <= size && low + size <= list.Length
    modifies list
    ensures list[..] == Splice(old(list[..]), low, Sort(old(list[..])[low..low + size], dir))
    decreases size, 1
  {
    if size <= 1 {
      SpliceSelf(list[..], low, size);
      return;
    }
    var k := size / 2;
    ghost var a := list[..];
    SortTasks(list, low, k, taskCutOff, upperFirst, size > taskCutOff && upperFirst(low, size));
    ghost var b := Splice(a, low, Sort(a[low..low + k], true));
    ghost var c := list[..];
    BitonicMergeOMP(list, low, size, dir, taskCutOff, upperFirst);
    SortLevel(a, low, size, k, dir, b, c, list[..]);
  }

  /** The two sort tasks of one level (bitonic_omp.cpp:142-147): the upper one first when upper holds. */
  method SortTasks(list: array<int>, low: int, k: int, taskCutOff: int, upperFirst: (int, int) -> bool, upper: bool)
    requires 0 <= low && 1 <= k && low + k + k <= list.Length
    modifies list
    ensures list[..] == HalvesSorted(old(list[..]), low, k)
    decreases k + k, 0
  {
    ghost var a := list[..];
    if upper {
      BitonicSortOMP(list, low + k, k, false, taskCutOff, upperFirst);
      ghost var b := list[..];
      BitonicSortOMP(list, low, k, true, taskCutOff, upperFirst);
      SortUpperFirst(a, low, k, b, list[..]);
    } else {
      BitonicSortOMP(list, low, k, true, taskCutOff, upperFirst);
      BitonicSortOMP(list, low + k, k, false, taskCutOff, upperFirst);
    }
  }

  /** One timed run of the driver: arr is refilled from orig, sorted ascending with the cutoff
      for nThreads threads, and checked. orig is left alone, so every run starts from the same
      values. */
  method TimedRun(orig: array<int>, arr: array<int>, nThreads: int, upperFirst: (int, int) -> bool) returns (ok: bool)
    requires orig != arr && arr.Length == orig.Length && 1 <= nThreads
    modifies arr
    ensures arr[..] == Sort(orig[..], true)
    ensures multiset(arr[..]) == multiset(orig[..])
    ensures ok <==> Sorted(arr[..], true)
    ensures IsPow2(arr.Length) ==> ok
  {
    var size := arr.Length;
    var i := 0;
    while i < size
      invariant 0 <= i <= size
      invariant arr[..i] == orig[..i]
    {
      arr[i] := orig[i];
      i := i + 1;
    }
    assert arr[..] == orig[..];
    var taskCutOff := TaskCutOff(size, nThreads);
    ghost var s := arr[..];
    BitonicSortOMP(arr, 0, size, true, taskCutOff, upperFirst);
    Bitonic.SortWhole(s);
    ok := Bitonic.IsSorted(arr, size);
    AdjacentSorted(arr[..]);
  }
}
