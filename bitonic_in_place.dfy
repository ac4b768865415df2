/** The bitonic procedures as they run in place. A call on the range [low, low + size) of an
    array holding a leaves Splice(a, low, x): the range replaced by x, everything else as it was.
    The lemmas here are the bookkeeping of one recursion level: what the array holds after the
    compare loop and after each recursive call, in terms of the range-level functions of
    BitonicSpec. */
module BitonicInPlace {
  import opened BitonicSpec

  /** a with x written over it from position low on, one entry after the other. */
  function Splice(a: seq<int>, low: int, x: seq<int>): (r: seq<int>)
    requires 0 <= low && low + |x| <= |a|
    ensures |r| == |a|
    decreases |x|, 1
  {
    if |x| == 0 then a else SpliceNext(a, low, x)
  }

  /** Splice after the first entry of x has been written. */
  function SpliceNext(a: seq<int>, low: int, x: seq<int>): (r: seq<int>)
    requires 0 <= low && 1 <= |x| && low + |x| <= |a|
    ensures |r| == |a|
    decreases |x|, 0
  {
    Splice(a[low := x[0]], low + 1, x[1..])
  }

  /** Entry p of the result: taken from x inside [low, low + |x|), from a outside. */
  lemma {:induction false} SpliceAt(a: seq<int>, low: int, x: seq<int>, p: int)
    requires 0 <= low && low + |x| <= |a| && 0 <= p < |a|
    ensures Splice(a, low, x)[p] == if low <= p < low + |x| then x[p - low] else a[p]
    decreases |x|
  {
    if |x| > 0 {
      SpliceAt(a[low := x[0]], low + 1, x[1..], p);
    }
  }

  /** Writing a range back with its own contents changes nothing. */
  lemma SpliceSelf(a: seq<int>, low: int, size: int)
    requires 0 <= low && 0 <= size && low + size <= |a|
    ensures Splice(a, low, a[low..low + size]) == a
  {
    var r := Splice(a, low, a[low..low + size]);
    forall p | 0 <= p < |a| ensures r[p] == a[p] {
      SpliceAt(a, low, a[low..low + size], p);
    }
  }

  /** Replacing the whole array. */
  lemma SpliceWhole(a: seq<int>, x: seq<int>)
    requires |x| == |a|
    ensures Splice(a, 0, x) == x
  {
    forall p | 0 <= p < |a| ensures Splice(a, 0, x)[p] == x[p] {
      SpliceAt(a, 0, x, p);
    }
  }

  /** A compare-exchange of two entries of the range is the compare-exchange of the range. */
  lemma SpliceCompareSwap(a: seq<int>, low: int, x: seq<int>, i: int, j: int, dir: bool)
    requires 0 <= low && low + |x| <= |a| && 0 <= i < |x| && 0 <= j < |x| && i != j
    ensures CompareSwap(Splice(a, low, x), low + i, low + j, dir) == Splice(a, low, CompareSwap(x, i, j, dir))
  {
    var l := CompareSwap(Splice(a, low, x), low + i, low + j, dir);
    var r := Splice(a, low, CompareSwap(x, i, j, dir));
    forall p | 0 <= p < |a| ensures l[p] == r[p] {
      SpliceAt(a, low, CompareSwap(x, i, j, dir), p);
      SpliceAt(a, low, x, p);
      SpliceAt(a, low, x, low + i);
      SpliceAt(a, low, x, low + j);
      if p != low + i && p != low + j {
        CompareSwapKeeps(Splice(a, low, x), low + i, low + j, dir, p);
        if low <= p < low + |x| {
          CompareSwapKeeps(x, i, j, dir, p - low);
        }
      }
    }
  }

  /** One iteration of the compare loop of BitonicMerge: the array, which holds the first m
      iterations on its range, afterwards holds the first m + 1. */
  lemma PassLoopStep(a: seq<int>, low: int, size: int, k: int, i: int, dir: bool, before: seq<int>, after: seq<int>)
    requires 0 <= low <= i < low + k && k == size / 2 && low + size <= |a|
    requires before == Splice(a, low, Pass(a[low..low + size], k, i - low, dir))
    requires after == CompareSwap(before, i, i + k, dir)
    ensures after == Splice(a, low, Pass(a[low..low + size], k, i + 1 - low, dir))
  {
    SpliceCompareSwap(a, low, Pass(a[low..low + size], k, i - low, dir), i - low, i - low + k, dir);
  }

  /** After the range has been replaced by t, the range [low + i, low + j) holds t[i..j]. */
  lemma SpliceSlice(a: seq<int>, low: int, t: seq<int>, i: int, j: int)
    requires 0 <= low && low + |t| <= |a| && 0 <= i <= j <= |t|
    ensures Splice(a, low, t)[low + i..low + j] == t[i..j]
  {
    forall p | 0 <= p < j - i ensures Splice(a, low, t)[low + i..low + j][p] == t[i..j][p] {
      SpliceAt(a, low, t, low + i + p);
    }
  }

  /** Replacing [low, low + |x|) leaves [q, q + n) alone when the two ranges do not overlap. */
  lemma SpliceOutside(a: seq<int>, low: int, x: seq<int>, q: int, n: int)
    requires 0 <= low && low + |x| <= |a| && 0 <= q && 0 <= n && q + n <= |a|
    requires q + n <= low || low + |x| <= q
    ensures Splice(a, low, x)[q..q + n] == a[q..q + n]
  {
    var r := Splice(a, low, x);
    forall p | q <= p < q + n ensures r[p] == a[p] {
      SpliceAt(a, low, x, p);
    }
    assert r[q..q + n] == a[q..q + n];
  }

  /** The bookkeeping of one Merge level on plain sequences: the compare loop has left t on the
      range, then the lower half is replaced by m1 and the upper half by m2. Each recursive call
      sees the half of t it should, and the range ends up as m1 + m2 + the odd tail of t. */
  lemma MergeLevelSplice(a: seq<int>, low: int, k: int, t: seq<int>, m1: seq<int>, m2: seq<int>, b: seq<int>, c: seq<int>, e: seq<int>)
    requires 0 <= low && 0 <= k && 2 * k <= |t| && low + |t| <= |a| && |m1| == k && |m2| == k
    requires b == Splice(a, low, t) && c == Splice(b, low, m1) && e == Splice(c, low + k, m2)
    ensures b[low..low + k] == t[..k]
    ensures c[low + k..low + 2 * k] == t[k..2 * k]
    ensures e == Splice(a, low, m1 + m2 + t[2 * k..])
  {
    assert b[low..low + k] == t[..k] by {
      SpliceSlice(a, low, t, 0, k);
    }
    assert c[low + k..low + 2 * k] == t[k..2 * k] by {
      SpliceOutside(b, low, m1, low + k, k);
      SpliceSlice(a, low, t, k, 2 * k);
    }
    SpliceThree(a, low, k, t, m1, m2, b, c, e);
  }

  /** The combined effect of the three replacements. */
  lemma SpliceThree(a: seq<int>, low: int, k: int, t: seq<int>, m1: seq<int>, m2: seq<int>, b: seq<int>, c: seq<int>, e: seq<int>)
    requires 0 <= low && 0 <= k && 2 * k <= |t| && low + |t| <= |a| && |m1| == k && |m2| == k
    requires b == Splice(a, low, t) && c == Splice(b, low, m1) && e == Splice(c, low + k, m2)
    ensures e == Splice(a, low, m1 + m2 + t[2 * k..])
  {
    var u := m1 + m2 + t[2 * k..];
    forall p | 0 <= p < |a| ensures e[p] == Splice(a, low, u)[p] {
      SpliceAt(c, low + k, m2, p);
      SpliceAt(a, low, u, p);
      if !(low + k <= p < low + 2 * k) {
        SpliceAt(b, low, m1, p);
        if !(low <= p < low + k) {
          SpliceAt(a, low, t, p);
        }
      }
    }
  }

  /** One level of BitonicMerge in place: compare loop, merge of the lower half, merge of the
      upper half leave the range holding Merge of its old contents, the rest untouched. */
  lemma MergeLevel(a: seq<int>, low: int, size: int, k: int, dir: bool, b: seq<int>, c: seq<int>, e: seq<int>)
    requires 0 <= low && 1 < size && low + size <= |a| && k == size / 2
    requires b == Splice(a, low, Pass(a[low..low + size], k, k, dir))
    requires c == Splice(b, low, Merge(b[low..low + k], dir))
    requires e == Splice(c, low + k, Merge(c[low + k..low + k + k], dir))
    ensures e == Splice(a, low, Merge(a[low..low + size], dir))
  {
    var s := a[low..low + size];
    var t := Pass(s, k, k, dir);
    var m1, m2 := Merge(b[low..low + k], dir), Merge(c[low + k..low + 2 * k], dir);
    MergeLevelSplice(a, low, k, t, m1, m2, b, c, e);
    var u := m1 + m2 + t[2 * k..];
    assert Merge(s, dir) == u by {
      MergeStep(s, dir);
    }
    assert e == Splice(a, low, u);
  }

  /** The bookkeeping of one Sort level on plain sequences: the lower half is replaced by s1,
      the upper half by s2, then the whole range by m. */
  lemma SortLevelSplice(a: seq<int>, low: int, size: int, k: int, s1: seq<int>, s2: seq<int>, m: seq<int>, b: seq<int>, c: seq<int>, e: seq<int>)
    requires 0 <= low && 0 <= k && 2 * k <= size && low + size <= |a|
    requires |s1| == k && |s2| == k && |m| == size
    requires b == Splice(a, low, s1) && c == Splice(b, low + k, s2) && e == Splice(c, low, m)
    ensures b[low + k..low + 2 * k] == a[low + k..low + 2 * k]
    ensures c[low..low + size] == s1 + s2 + a[low + 2 * k..low + size]
    ensures e == Splice(a, low, m)
  {
    assert b[low + k..low + 2 * k] == a[low + k..low + 2 * k] by {
      SpliceOutside(a, low, s1, low + k, k);
    }
    assert c[low..low + size] == s1 + s2 + a[low + 2 * k..low + size] by {
      SpliceHalves(a, low, size, k, s1, s2, b, c);
    }
    assert e == Splice(a, low, m) by {
      SpliceKeeps(a, low, s1, low, low + size);
      SpliceKeeps(b, low + k, s2, low, low + size);
      SpliceCover(a, c, low, m);
    }
  }

  /** The lower half of the range replaced by s1, then the upper half by s2. */
  lemma SpliceHalves(a: seq<int>, low: int, size: int, k: int, s1: seq<int>, s2: seq<int>, b: seq<int>, c: seq<int>)
    requires 0 <= low && 0 <= k && 2 * k <= size && low + size <= |a| && |s1| == k && |s2| == k
    requires b == Splice(a, low, s1) && c == Splice(b, low + k, s2)
    ensures c[low..low + size] == s1 + s2 + a[low + 2 * k..low + size]
  {
    var u := s1 + s2 + a[low + 2 * k..low + size];
    forall p | 0 <= p < size ensures c[low..low + size][p] == u[p] {
      SpliceAt(b, low + k, s2, low + p);
      SpliceAt(a, low, s1, low + p);
    }
  }

  /** Replacing [low, low + |x|) keeps everything before lo and from hi on, for any enclosing
      range [lo, hi). */
  lemma SpliceKeeps(a: seq<int>, low: int, x: seq<int>, lo: int, hi: int)
    requires 0 <= lo <= low && low + |x| <= hi <= |a|
    ensures Splice(a, low, x)[..lo] == a[..lo] && Splice(a, low, x)[hi..] == a[hi..]
  {
    var r := Splice(a, low, x);
    forall p | 0 <= p < lo ensures r[..lo][p] == a[..lo][p] {
      SpliceAt(a, low, x, p);
    }
    forall p | 0 <= p < |a| - hi ensures r[hi..][p] == a[hi..][p] {
      SpliceAt(a, low, x, hi + p);
    }
  }

  /** Replacing a range only depends on what lies outside it. */
  lemma SpliceCover(a: seq<int>, c: seq<int>, low: int, m: seq<int>)
    requires |c| == |a| && 0 <= low && low + |m| <= |a|
    requires c[..low] == a[..low] && c[low + |m|..] == a[low + |m|..]
    ensures Splice(c, low, m) == Splice(a, low, m)
  {
    forall p | 0 <= p < |a| ensures Splice(c, low, m)[p] == Splice(a, low, m)[p] {
      SpliceAt(c, low, m, p);
      SpliceAt(a, low, m, p);
      if p < low {
        assert c[..low][p] == a[..low][p];
      } else if p >= low + |m| {
        assert c[low + |m|..][p - low - |m|] == a[low + |m|..][p - low - |m|];
      }
    }
  }

  lemma SliceParts(a: seq<int>, low: int, size: int, k: int)
    requires 0 <= low && 0 <= k && 2 * k <= size && low + size <= |a|
    ensures a[low..low + size][..k] == a[low..low + k]
    ensures a[low..low + size][k..2 * k] == a[low + k..low + 2 * k]
    ensures a[low..low + size][2 * k..] == a[low + 2 * k..low + size]
  {
    var s := a[low..low + size];
    assert s[..k] == a[low..low + k];
    forall p | 0 <= p < k ensures s[k..2 * k][p] == a[low + k..low + 2 * k][p] {
      assert s[k..2 * k][p] == s[k + p];
    }
    assert s[2 * k..] == a[low + 2 * k..low + size];
  }

  /** One level of BitonicSort in place: sorting the lower half ascending, the upper half
      descending and merging the range leave it holding Sort of its old contents. */
  lemma SortLevel(a: seq<int>, low: int, size: int, k: int, dir: bool, b: seq<int>, c: seq<int>, e: seq<int>)
    requires 0 <= low && 1 < size && low + size <= |a| && k == size / 2
    requires b == Splice(a, low, Sort(a[low..low + k], true))
    requires c == Splice(b, low + k, Sort(b[low + k..low + k + k], false))
    requires e == Splice(c, low, Merge(c[low..low + size], dir))
    ensures e == Splice(a, low, Sort(a[low..low + size], dir))
  {
    var s := a[low..low + size];
    var s1 := Sort(a[low..low + k], true);
    var s2 := Sort(b[low + k..low + 2 * k], false);
    var m := Merge(c[low..low + size], dir);
    SortLevelSplice(a, low, size, k, s1, s2, m, b, c, e);
    var u := s1 + s2 + a[low + 2 * k..low + size];
    assert Sort(s, dir) == Merge(u, dir) by {
      SliceParts(a, low, size, k);
      SortStep(s, dir);
    }
    assert m == Merge(u, dir);
  }

  /** Replacing two ranges that do not overlap gives the same array in either order. */
  lemma SpliceCommute(a: seq<int>, i: int, x: seq<int>, j: int, y: seq<int>)
    requires 0 <= i && i + |x| <= j && j + |y| <= |a|
    ensures Splice(Splice(a, i, x), j, y) == Splice(Splice(a, j, y), i, x)
  {
    forall p | 0 <= p < |a| ensures Splice(Splice(a, i, x), j, y)[p] == Splice(Splice(a, j, y), i, x)[p] {
      SpliceAt(Splice(a, i, x), j, y, p);
      SpliceAt(a, i, x, p);
      SpliceAt(Splice(a, j, y), i, x, p);
      SpliceAt(a, j, y, p);
    }
  }

  /** After the compare loop every pair (i, i + k) of the range is in the order dir asks for. */
  lemma CompareLoopOrders(a: seq<int>, low: int, size: int, k: int, dir: bool, b: seq<int>)
    requires 0 <= low && 0 <= size && low + size <= |a| && k == size / 2
    requires b == Splice(a, low, Pass(a[low..low + size], k, k, dir))
    ensures forall i :: low <= i < low + k ==> Ordered(b[i], b[i + k], dir)
  {
    var t := Pass(a[low..low + size], k, k, dir);
    PassOrdersPairs(a[low..low + size], k, dir);
    forall i | low <= i < low + k ensures Ordered(b[i], b[i + k], dir) {
      SpliceAt(a, low, t, i);
      SpliceAt(a, low, t, i + k);
    }
  }

  /** Whatever a call leaves on its range, entries outside it keep their values and the range
      keeps its multiset when the replacement does. */
  lemma SpliceFrame(a: seq<int>, low: int, x: seq<int>)
    requires 0 <= low && low + |x| <= |a|
    ensures Splice(a, low, x)[..low] == a[..low]
    ensures Splice(a, low, x)[low + |x|..] == a[low + |x|..]
    ensures Splice(a, low, x)[low..low + |x|] == x
  {
    SpliceKeeps(a, low, x, low, low + |x|);
    SpliceSlice(a, low, x, 0, |x|);
  }
}
