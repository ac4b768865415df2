/** Why the bitonic network sorts: the 0-1 principle.

    A monotone map commutes with every compare-exchange, hence with Merge and Sort. Sorting all
    0/1 inputs is shown directly: every range Merge meets is a "block" (one run of equal values
    inside the other value), and one compare pass splits a block into two half-size blocks whose
    values are already in order across the halves. A general input is then reduced to 0/1 inputs
    through the threshold maps x |-> (x >= c ? 1 : 0). */
module ZeroOne {
  import opened BitonicSpec

  /** f applied to every entry. */
  function Map(f: int -> int, s: seq<int>): (r: seq<int>)
    ensures |r| == |s|
  {
    seq(|s|, i requires 0 <= i < |s| => f(s[i]))
  }

  ghost predicate Monotone(f: int -> int) {
    forall x, y :: x <= y ==> f(x) <= f(y)
  }

  ghost predicate Antitone(f: int -> int) {
    forall x, y :: x <= y ==> f(x) >= f(y)
  }

  /** f keeps the order (flip = false) or reverses it (flip = true). */
  ghost predicate OrderMap(f: int -> int, flip: bool) {
    if flip then Antitone(f) else Monotone(f)
  }

  lemma MapSlice(f: int -> int, s: seq<int>, i: int, j: int)
    requires 0 <= i <= j <= |s|
    ensures Map(f, s[i..j]) == Map(f, s)[i..j]
  {
    assert forall p :: 0 <= p < j - i ==> Map(f, s[i..j])[p] == Map(f, s)[i..j][p];
  }

  lemma MapConcat(f: int -> int, a: seq<int>, b: seq<int>)
    ensures Map(f, a + b) == Map(f, a) + Map(f, b)
  {
    assert forall p :: 0 <= p < |a| + |b| ==> Map(f, a + b)[p] == (Map(f, a) + Map(f, b))[p];
  }

  /** A compare-exchange commutes with f; an order-reversing f reverses its direction. */
  lemma MapLoHi(f: int -> int, flip: bool, x: int, y: int, dir: bool)
    requires OrderMap(f, flip)
    ensures f(Lo(x, y, dir)) == Lo(f(x), f(y), dir != flip)
    ensures f(Hi(x, y, dir)) == Hi(f(x), f(y), dir != flip)
  {
    if x <= y {
      assert if flip then f(x) >= f(y) else f(x) <= f(y);
    } else {
      assert if flip then f(y) >= f(x) else f(y) <= f(x);
    }
  }

  lemma MapPairsDone(f: int -> int, flip: bool, s: seq<int>, k: int, m: int, dir: bool)
    requires OrderMap(f, flip) && 0 <= m <= k && 2 * k <= |s|
    ensures Map(f, PairsDone(s, k, m, dir)) == PairsDone(Map(f, s), k, m, dir != flip)
  {
    var l := Map(f, PairsDone(s, k, m, dir));
    var r := PairsDone(Map(f, s), k, m, dir != flip);
    forall p | 0 <= p < |s| ensures l[p] == r[p] {
      if p < m {
        MapLoHi(f, flip, s[p], s[p + k], dir);
      } else if k <= p < k + m {
        MapLoHi(f, flip, s[p - k], s[p], dir);
      }
    }
  }

  /** f commutes with Merge (with the direction reversed when f reverses the order). */
  lemma {:induction false} MapMerge(f: int -> int, flip: bool, s: seq<int>, dir: bool)
    requires OrderMap(f, flip)
    ensures Map(f, Merge(s, dir)) == Merge(Map(f, s), dir != flip)
    decreases |s|
  {
    if |s| > 1 {
      var k := |s| / 2;
      var fs := Map(f, s);
      var t := Pass(s, k, k, dir);
      var ft := Pass(fs, k, k, dir != flip);
      assert Map(f, t) == ft by {
        PassAt(s, k, k, dir);
        PassAt(fs, k, k, dir != flip);
        MapPairsDone(f, flip, s, k, k, dir);
      }
      var lo, mid, tail := Merge(t[..k], dir), Merge(t[k..2 * k], dir), t[2 * k..];
      assert Map(f, lo) == Merge(ft[..k], dir != flip) by {
        MapMerge(f, flip, t[..k], dir);
        MapSlice(f, t, 0, k);
        assert t[..k] == t[0..k];
        assert ft[..k] == ft[0..k];
      }
      assert Map(f, mid) == Merge(ft[k..2 * k], dir != flip) by {
        MapMerge(f, flip, t[k..2 * k], dir);
        MapSlice(f, t, k, 2 * k);
      }
      assert Map(f, tail) == ft[2 * k..] by {
        MapSlice(f, t, 2 * k, |t|);
      }
      assert Map(f, lo + mid + tail) == Map(f, lo) + Map(f, mid) + Map(f, tail) by {
        MapConcat(f, lo, mid);
        MapConcat(f, lo + mid, tail);
      }
    }
  }

  /** A monotone f commutes with Sort. */
  lemma {:induction false} MapSort(f: int -> int, s: seq<int>, dir: bool)
    requires Monotone(f)
    ensures Map(f, Sort(s, dir)) == Sort(Map(f, s), dir)
    decreases |s|
  {
    if |s| > 1 {
      var k := |s| / 2;
      var fs := Map(f, s);
      var lo, hi, tail := Sort(s[..k], true), Sort(s[k..2 * k], false), s[2 * k..];
      assert Map(f, lo) == Sort(fs[..k], true) by {
        MapSort(f, s[..k], true);
        MapSlice(f, s, 0, k);
        assert s[..k] == s[0..k];
        assert fs[..k] == fs[0..k];
      }
      assert Map(f, hi) == Sort(fs[k..2 * k], false) by {
        MapSort(f, s[k..2 * k], false);
        MapSlice(f, s, k, 2 * k);
      }
      assert Map(f, tail) == fs[2 * k..] by {
        MapSlice(f, s, 2 * k, |s|);
      }
      assert Map(f, lo + hi + tail) == Map(f, lo) + Map(f, hi) + Map(f, tail) by {
        MapConcat(f, lo, hi);
        MapConcat(f, lo + hi, tail);
      }
      MapMerge(f, false, lo + hi + tail, dir);
    }
  }

  /** Every entry is 0 or 1. */
  predicate ZeroOne(s: seq<int>) {
    forall i :: 0 <= i < |s| ==> s[i] == 0 || s[i] == 1
  }

  /** A 0/1 sequence holding v on [a, e) and 1 - v elsewhere. */
  datatype Shape = Shape(a: int, e: int, v: int)

  predicate ValidShape(sh: Shape, n: int) {
    0 <= sh.a <= sh.e <= n && (sh.v == 0 || sh.v == 1)
  }

  function BlockAt(sh: Shape, i: int): int {
    if sh.a <= i < sh.e then sh.v else 1 - sh.v
  }

  function Block(n: nat, sh: Shape): seq<int> {
    seq(n, i => BlockAt(sh, i))
  }

  /** The minimum half of a compare pass over Block(2k, Shape(a, e, 1)): 1 where both partners are 1. */
  function AndShape(k: int, a: int, e: int): Shape {
    if a < e - k then Shape(a, e - k, 1) else Shape(0, 0, 1)
  }

  /** The maximum half: 1 where either partner is 1. */
  function OrShape(k: int, a: int, e: int): Shape {
    if e - a >= k then Shape(0, k, 1)
    else if e <= k then Shape(a, e, 1)
    else if a >= k then Shape(a - k, e - k, 1)
    else Shape(e - k, a, 0)
  }

  lemma HalfShapes(k: int, a: int, e: int, p: int)
    requires 0 < k && 0 <= a <= e <= 2 * k && 0 <= p < k
    ensures ValidShape(AndShape(k, a, e), k) && ValidShape(OrShape(k, a, e), k)
    ensures Min(BlockAt(Shape(a, e, 1), p), BlockAt(Shape(a, e, 1), p + k)) == BlockAt(AndShape(k, a, e), p)
    ensures Max(BlockAt(Shape(a, e, 1), p), BlockAt(Shape(a, e, 1), p + k)) == BlockAt(OrShape(k, a, e), p)
  {
  }

  /** If the minimum half holds a 1 anywhere, the maximum half is all ones. */
  lemma HalvesInOrder(k: int, a: int, e: int)
    requires 0 < k && 0 <= a <= e <= 2 * k
    ensures AndShape(k, a, e) == Shape(0, 0, 1) || OrShape(k, a, e) == Shape(0, k, 1)
  {
  }

  lemma BlockZeroOne(n: nat, sh: Shape)
    requires sh.v == 0 || sh.v == 1
    ensures forall x :: x in Block(n, sh) ==> x == 0 || x == 1
  {
  }

  lemma MergeKeeps(s: seq<int>, dir: bool, x: int)
    ensures x in Merge(s, dir) <==> x in s
  {
    MergePermutes(s, dir);
    assert x in Merge(s, dir) <==> x in multiset(Merge(s, dir));
    assert x in s <==> x in multiset(s);
  }

  /** Reversing 0/1 values turns a sequence sorted one way into one sorted the other way. */
  lemma ComplementSorted(s: seq<int>, dir: bool)
    requires Sorted(Map(x => 1 - x, s), !dir)
    ensures Sorted(s, dir)
  {
    var c := Map(x => 1 - x, s);
    forall i, j | 0 <= i < j < |s| ensures Ordered(s[i], s[j], dir) {
      assert Ordered(c[i], c[j], !dir);
    }
  }

  /** Merge sorts every block whose size is a power of two. */
  lemma {:induction false} MergeBlockSorted(n: nat, sh: Shape, dir: bool)
    requires IsPow2(n) && ValidShape(sh, n)
    ensures Sorted(Merge(Block(n, sh), dir), dir)
    decreases n, 2
  {
    if sh.v == 1 {
      MergeOnesSorted(n, sh, dir);
    } else {
      var one := Shape(sh.a, sh.e, 1);
      var c: int -> int := x => 1 - x;
      assert Sorted(Map(c, Merge(Block(n, sh), dir)), !dir) by {
        MergeOnesSorted(n, one, !dir);
        MapMerge(c, true, Block(n, sh), dir);
        assert Map(c, Block(n, sh)) == Block(n, one);
      }
      ComplementSorted(Merge(Block(n, sh), dir), dir);
    }
  }

  /** The compare pass of Merge splits a run of ones into two half-size blocks. */
  lemma PassSplitsBlock(k: int, sh: Shape, dir: bool)
    requires 0 < k && ValidShape(sh, 2 * k) && sh.v == 1
    ensures var t := Pass(Block(2 * k, sh), k, k, dir);
      var andSh, orSh := AndShape(k, sh.a, sh.e), OrShape(k, sh.a, sh.e);
      && t[..k] == Block(k, if dir then andSh else orSh)
      && t[k..2 * k] == Block(k, if dir then orSh else andSh)
  {
    var s := Block(2 * k, sh);
    var t := Pass(s, k, k, dir);
    var andSh, orSh := AndShape(k, sh.a, sh.e), OrShape(k, sh.a, sh.e);
    var loSh, hiSh := if dir then andSh else orSh, if dir then orSh else andSh;
    PassAt(s, k, k, dir);
    forall p | 0 <= p < k
      ensures t[p] == BlockAt(loSh, p) && t[p + k] == BlockAt(hiSh, p)
    {
      HalfShapes(k, sh.a, sh.e, p);
    }
    assert t[..k] == Block(k, loSh);
    assert t[k..2 * k] == Block(k, hiSh);
  }

  /** After the pass, every value of the lower half is in order with every value of the upper. */
  lemma MergedHalvesInOrder(k: int, sh: Shape, dir: bool, x: int, y: int)
    requires 0 < k && ValidShape(sh, 2 * k) && sh.v == 1
    requires var andSh, orSh := AndShape(k, sh.a, sh.e), OrShape(k, sh.a, sh.e);
      && x in Merge(Block(k, if dir then andSh else orSh), dir)
      && y in Merge(Block(k, if dir then orSh else andSh), dir)
    ensures Ordered(x, y, dir)
  {
    var andSh, orSh := AndShape(k, sh.a, sh.e), OrShape(k, sh.a, sh.e);
    var loSh, hiSh := if dir then andSh else orSh, if dir then orSh else andSh;
    HalfShapes(k, sh.a, sh.e, 0);
    HalvesInOrder(k, sh.a, sh.e);
    BlockZeroOne(k, loSh);
    BlockZeroOne(k, hiSh);
    MergeKeeps(Block(k, loSh), dir, x);
    MergeKeeps(Block(k, hiSh), dir, y);
  }

  lemma {:induction false} MergeOnesSorted(n: nat, sh: Shape, dir: bool)
    requires IsPow2(n) && ValidShape(sh, n) && sh.v == 1
    ensures Sorted(Merge(Block(n, sh), dir), dir)
    decreases n, 1
  {
    if n > 1 {
      var k := n / 2;
      var s := Block(n, sh);
      var t := Pass(s, k, k, dir);
      var andSh, orSh := AndShape(k, sh.a, sh.e), OrShape(k, sh.a, sh.e);
      var loSh, hiSh := if dir then andSh else orSh, if dir then orSh else andSh;
      HalfShapes(k, sh.a, sh.e, 0);
      PassSplitsBlock(k, sh, dir);
      var lo, hi := Merge(Block(k, loSh), dir), Merge(Block(k, hiSh), dir);
      MergeBlockSorted(k, loSh, dir);
      MergeBlockSorted(k, hiSh, dir);
      forall x, y | x in lo && y in hi ensures Ordered(x, y, dir) {
        MergedHalvesInOrder(k, sh, dir, x, y);
      }
      SortedConcat(lo, hi, dir);
      assert t[2 * k..] == [];
    }
  }

  /** A non-decreasing 0/1 sequence is zeros then ones. */
  lemma {:induction false} AscendingShape(s: seq<int>) returns (c: int)
    requires ZeroOne(s) && Sorted(s, true)
    ensures 0 <= c <= |s| && s == Block(|s|, Shape(c, |s|, 1))
  {
    if |s| == 0 {
      c := 0;
    } else if s[0] == 1 {
      c := 0;
      assert forall i :: 0 <= i < |s| ==> s[0] <= s[i];
    } else {
      var c' := AscendingShape(s[1..]);
      c := c' + 1;
      assert s == [s[0]] + s[1..];
    }
  }

  /** A non-increasing 0/1 sequence is ones then zeros. */
  lemma {:induction false} DescendingShape(s: seq<int>) returns (d: int)
    requires ZeroOne(s) && Sorted(s, false)
    ensures 0 <= d <= |s| && s == Block(|s|, Shape(0, d, 1))
  {
    if |s| == 0 {
      d := 0;
    } else if s[0] == 0 {
      d := 0;
      assert forall i :: 0 <= i < |s| ==> s[0] >= s[i];
    } else {
      var d' := DescendingShape(s[1..]);
      d := d' + 1;
      assert s == [s[0]] + s[1..];
    }
  }

  lemma SortZeroOneKeeps(s: seq<int>, dir: bool)
    requires ZeroOne(s)
    ensures ZeroOne(Sort(s, dir))
  {
    var r := Sort(s, dir);
    SortPermutes(s, dir);
    forall i | 0 <= i < |r| ensures r[i] == 0 || r[i] == 1 {
      assert r[i] in multiset(r);
    }
  }

  /** Sort sorts every 0/1 input whose length is a power of two. */
  lemma {:induction false} SortZeroOneSorted(s: seq<int>, dir: bool)
    requires IsPow2(|s|) && ZeroOne(s)
    ensures Sorted(Sort(s, dir), dir)
    decreases |s|
  {
    if |s| > 1 {
      var k := |s| / 2;
      var lo, hi := s[..k], s[k..2 * k];
      SortZeroOneSorted(lo, true);
      SortZeroOneSorted(hi, false);
      SortZeroOneKeeps(lo, true);
      SortZeroOneKeeps(hi, false);
      var c := AscendingShape(Sort(lo, true));
      var d := DescendingShape(Sort(hi, false));
      var u := Sort(lo, true) + Sort(hi, false) + s[2 * k..];
      assert s[2 * k..] == [];
      assert u == Block(2 * k, Shape(c, k + d, 1));
      MergeBlockSorted(2 * k, Shape(c, k + d, 1), dir);
    }
  }

  /** The 0-1 principle applied to the network: Sort sorts every input whose length is a power
      of two, ascending for dir = true and descending for dir = false. */
  lemma SortSorts(s: seq<int>, dir: bool)
    requires IsPow2(|s|)
    ensures Sorted(Sort(s, dir), dir)
  {
    var out := Sort(s, dir);
    forall i, j | 0 <= i < j < |out| ensures Ordered(out[i], out[j], dir) {
      var c := if dir then out[i] else out[j];
      var f: int -> int := x => if x >= c then 1 else 0;
      MapSort(f, s, dir);
      SortZeroOneSorted(Map(f, s), dir);
      assert Ordered(Map(f, out)[i], Map(f, out)[j], dir);
    }
  }
}
