/** The bitonic sorting network as functions on sequences.

    The C++ sources (bitonic.cpp, bitonic_omp.cpp, bitonic_mpi.cpp) run the same network in place
    on the range [low, low+size) of an array. Here the network is described on the contents of that
    range: Pass is the compare loop of one merge level, Merge and Sort are the two recursive
    procedures. A direction `dir` of true means ascending. */
module BitonicSpec {

  /** x and y stand in the order `dir` asks for. */
  predicate Ordered(x: int, y: int, dir: bool) {
    if dir then x <= y else x >= y
  }

  /** Every pair of positions is in order (for dir = true: non-decreasing). */
  predicate Sorted(s: seq<int>, dir: bool) {
    forall i, j :: 0 <= i < j < |s| ==> Ordered(s[i], s[j], dir)
  }

  function Min(x: int, y: int): int { if x <= y then x else y }
  function Max(x: int, y: int): int { if x <= y then y else x }

  /** The value a compare-exchange leaves at the lower position of a pair, and at the upper one. */
  function Lo(x: int, y: int, dir: bool): int { if dir then Min(x, y) else Max(x, y) }
  function Hi(x: int, y: int, dir: bool): int { if dir then Max(x, y) else Min(x, y) }

  /** 2^k. */
  function Pow2(k: nat): (r: nat)
    ensures r >= 1
  {
    if k == 0 then 1 else 2 * Pow2(k - 1)
  }

  /** n is a power of two (1, 2, 4, ...). */
  predicate IsPow2(n: int) {
    n == 1 || (n >= 2 && n % 2 == 0 && IsPow2(n / 2))
  }

  /** The binary logarithm of a power of two. */
  function Log2(n: int): (k: nat)
    requires IsPow2(n)
    ensures Pow2(k) == n
  {
    if n == 1 then 0 else 1 + Log2(n / 2)
  }

  lemma {:induction false} Pow2IsPow2(k: nat)
    ensures IsPow2(Pow2(k))
  {
    if k > 0 {
      Pow2IsPow2(k - 1);
      assert Pow2(k) / 2 == Pow2(k - 1);
    }
  }

  /** The conditional swap `if (dir == (list[i] > list[j])) swap(list, i, j)`. */
  function CompareSwap(s: seq<int>, i: int, j: int, dir: bool): (r: seq<int>)
    requires 0 <= i < |s| && 0 <= j < |s| && i != j
    ensures |r| == |s|
    ensures r[i] == Lo(s[i], s[j], dir) && r[j] == Hi(s[i], s[j], dir)
  {
    if dir == (s[i] > s[j]) then s[i := s[j]][j := s[i]] else s
  }

  /** A compare-exchange leaves every entry outside its pair alone. */
  lemma CompareSwapKeeps(s: seq<int>, i: int, j: int, dir: bool, p: int)
    requires 0 <= i < |s| && 0 <= j < |s| && i != j && 0 <= p < |s| && p != i && p != j
    ensures CompareSwap(s, i, j, dir)[p] == s[p]
  {
  }

  /** A compare-exchange only moves values around. */
  lemma CompareSwapPermutes(s: seq<int>, i: int, j: int, dir: bool)
    requires 0 <= i < |s| && 0 <= j < |s| && i != j
    ensures multiset(CompareSwap(s, i, j, dir)) == multiset(s)
  {
  }

  /** The compare loop of one merge level after its first m iterations: pair (p, p+k) for p < m. */
  function Pass(s: seq<int>, k: int, m: int, dir: bool): (r: seq<int>)
    requires 0 <= m <= k && 2 * k <= |s|
    ensures |r| == |s|
    decreases m, 1
  {
    if m == 0 then s else PassNext(s, k, m, dir)
  }

  /** Iteration m - 1 of the compare loop: the pair (m - 1, m - 1 + k). */
  function PassNext(s: seq<int>, k: int, m: int, dir: bool): (r: seq<int>)
    requires 1 <= m <= k && 2 * k <= |s|
    ensures |r| == |s|
    decreases m, 0
  {
    CompareSwap(Pass(s, k, m - 1, dir), m - 1, m - 1 + k, dir)
  }

  /** BitonicMerge on a range holding s: compare loop, then the two halves recursively.
      For an odd size the last element is outside both halves and keeps its place. */
  function Merge(s: seq<int>, dir: bool): (r: seq<int>)
    ensures |r| == |s|
    decreases |s|, 1
  {
    if |s| <= 1 then s else MergeHalves(Pass(s, |s| / 2, |s| / 2, dir), |s| / 2, dir)
  }

  /** The two recursive merges after the compare loop has left t. */
  function MergeHalves(t: seq<int>, k: int, dir: bool): (r: seq<int>)
    requires 1 <= k && 2 * k <= |t|
    ensures |r| == |t|
    decreases |t|, 0
  {
    Merge(t[..k], dir) + Merge(t[k..2 * k], dir) + t[2 * k..]
  }

  /** BitonicSort on a range holding s: lower half ascending, upper half descending, then merge. */
  function Sort(s: seq<int>, dir: bool): (r: seq<int>)
    ensures |r| == |s|
    decreases |s|, 1
  {
    if |s| <= 1 then s else SortHalves(s, |s| / 2, dir)
  }

  /** Both halves sorted in opposite directions, then the whole range merged. */
  function SortHalves(s: seq<int>, k: int, dir: bool): (r: seq<int>)
    requires 1 <= k && 2 * k <= |s|
    ensures |r| == |s|
    decreases |s|, 0
  {
    Merge(Sort(s[..k], true) + Sort(s[k..2 * k], false) + s[2 * k..], dir)
  }

  /** One level of Merge, as the in-place procedure performs it. */
  lemma MergeStep(s: seq<int>, dir: bool)
    requires |s| > 1
    ensures var k := |s| / 2; var t := Pass(s, k, k, dir);
      Merge(s, dir) == Merge(t[..k], dir) + Merge(t[k..2 * k], dir) + t[2 * k..]
  {
  }

  /** One level of Sort, as the in-place procedure performs it. */
  lemma SortStep(s: seq<int>, dir: bool)
    requires |s| > 1
    ensures var k := |s| / 2;
      Sort(s, dir) == Merge(Sort(s[..k], true) + Sort(s[k..2 * k], false) + s[2 * k..], dir)
  {
  }

  /** What the first m iterations of the compare loop leave, stated index by index: each handled
      pair (p, p+k) holds (Lo, Hi) of its original values, every other entry is untouched. */
  function PairsDone(s: seq<int>, k: int, m: int, dir: bool): (r: seq<int>)
    requires 0 <= m <= k && 2 * k <= |s|
  {
    seq(|s|, p requires 0 <= p < |s| =>
      if p < m then Lo(s[p], s[p + k], dir)
      else if k <= p < k + m then Hi(s[p - k], s[p], dir)
      else s[p])
  }

  /** The compare loop computes PairsDone. */
  lemma {:induction false} PassAt(s: seq<int>, k: int, m: int, dir: bool)
    requires 0 <= m <= k && 2 * k <= |s|
    ensures Pass(s, k, m, dir) == PairsDone(s, k, m, dir)
  {
    if m > 0 {
      PassAt(s, k, m - 1, dir);
      var t := PairsDone(s, k, m - 1, dir);
      var r := CompareSwap(t, m - 1, m - 1 + k, dir);
      var e := PairsDone(s, k, m, dir);
      forall p | 0 <= p < |s| ensures r[p] == e[p] {
        if p != m - 1 && p != m - 1 + k {
          CompareSwapKeeps(t, m - 1, m - 1 + k, dir, p);
        }
      }
    }
  }

  /** The compare loop sets up the pairwise order: entry p and entry p+k are in direction dir. */
  lemma PassOrdersPairs(s: seq<int>, k: int, dir: bool)
    requires 0 <= k && 2 * k <= |s|
    ensures forall p :: 0 <= p < k ==> Ordered(Pass(s, k, k, dir)[p], Pass(s, k, k, dir)[p + k], dir)
  {
    PassAt(s, k, k, dir);
    var t := PairsDone(s, k, k, dir);
    forall p | 0 <= p < k ensures Ordered(t[p], t[p + k], dir) {
      assert t[p] == Lo(s[p], s[p + k], dir);
      assert t[p + k] == Hi(s[p], s[p + k], dir);
    }
  }

  lemma {:induction false} PassPermutes(s: seq<int>, k: int, m: int, dir: bool)
    requires 0 <= m <= k && 2 * k <= |s|
    ensures multiset(Pass(s, k, m, dir)) == multiset(s)
  {
    if m > 0 {
      PassPermutes(s, k, m - 1, dir);
      CompareSwapPermutes(Pass(s, k, m - 1, dir), m - 1, m - 1 + k, dir);
    }
  }

  lemma SplitThree(s: seq<int>, k: int)
    requires 0 <= k && 2 * k <= |s|
    ensures s == s[..k] + s[k..2 * k] + s[2 * k..]
    ensures multiset(s) == multiset(s[..k]) + multiset(s[k..2 * k]) + multiset(s[2 * k..])
  {
    assert s == s[..k] + s[k..2 * k] + s[2 * k..];
  }

  /** Merge rearranges: the multiset of the range is unchanged. */
  lemma {:induction false} MergePermutes(s: seq<int>, dir: bool)
    ensures multiset(Merge(s, dir)) == multiset(s)
    decreases |s|
  {
    if |s| > 1 {
      var k := |s| / 2;
      var t := Pass(s, k, k, dir);
      PassPermutes(s, k, k, dir);
      MergePermutes(t[..k], dir);
      MergePermutes(t[k..2 * k], dir);
      SplitThree(t, k);
    }
  }

  /** Sort rearranges: the multiset of the range is unchanged. */
  lemma {:induction false} SortPermutes(s: seq<int>, dir: bool)
    ensures multiset(Sort(s, dir)) == multiset(s)
    decreases |s|
  {
    if |s| > 1 {
      var k := |s| / 2;
      SortPermutes(s[..k], true);
      SortPermutes(s[k..2 * k], false);
      var u := Sort(s[..k], true) + Sort(s[k..2 * k], false) + s[2 * k..];
      MergePermutes(u, dir);
      SplitThree(s, k);
    }
  }

  /** Both procedures leave a range of size at most one unchanged. */
  lemma SmallRangeUnchanged(s: seq<int>, dir: bool)
    requires |s| <= 1
    ensures Merge(s, dir) == s && Sort(s, dir) == s
  {
  }

  /** Sortedness of a concatenation: each part sorted and every element of the first part in
      order with every element of the second. */
  lemma SortedConcat(a: seq<int>, b: seq<int>, dir: bool)
    requires Sorted(a, dir) && Sorted(b, dir)
    requires forall x, y :: x in a && y in b ==> Ordered(x, y, dir)
    ensures Sorted(a + b, dir)
  {
    var c := a + b;
    forall i, j | 0 <= i < j < |c| ensures Ordered(c[i], c[j], dir) {
      if j < |a| {
        assert c[i] == a[i] && c[j] == a[j];
      } else if i >= |a| {
        assert c[i] == b[i - |a|] && c[j] == b[j - |a|];
      } else {
        assert c[i] == a[i] && c[j] == b[j - |a|];
        assert c[i] in a && c[j] in b;
      }
    }
  }

  /** Each entry is at most the next one. */
  predicate AdjacentAscending(s: seq<int>) {
    forall i :: 0 <= i < |s| - 1 ==> s[i] <= s[i + 1]
  }

  /** Checking neighbours is enough: AdjacentAscending holds exactly for ascending sequences. */
  lemma {:induction false} AdjacentSorted(s: seq<int>)
    ensures AdjacentAscending(s) <==> Sorted(s, true)
    decreases |s|
  {
    if |s| > 1 && AdjacentAscending(s) {
      AdjacentSorted(s[1..]);
      assert AdjacentAscending(s[1..]) by {
        forall i | 0 <= i < |s[1..]| - 1 ensures s[1..][i] <= s[1..][i + 1] {
          assert s[1..][i] == s[i + 1] && s[1..][i + 1] == s[i + 2];
        }
      }
      forall i, j | 0 <= i < j < |s| ensures s[i] <= s[j] {
        if i > 0 {
          assert s[1..][i - 1] <= s[1..][j - 1];
        } else if j > 1 {
          assert s[1..][0] <= s[1..][j - 1];
        }
      }
    }
  }

  /** IsPow2 is exactly "some power of two". */
  lemma IsPow2Iff(n: int)
    ensures IsPow2(n) <==> exists k: nat :: Pow2(k) == n
  {
    if IsPow2(n) {
      assert Pow2(Log2(n)) == n;
    }
    if exists k: nat :: Pow2(k) == n {
      var k: nat :| Pow2(k) == n;
      Pow2IsPow2(k);
    }
  }
}
