/** The MPI bitonic sort of bitonic_mpi.cpp, as the computation of all ranks together.

    Each rank sorts its chunk with the local network, then for every stage and step exchanges its
    whole buffer with partner = rank ^ (1 << step) and keeps, element by element, what the second
    exchange of compareExchange hands it: the partner's post-swap buffer. Rank 0 finally gathers
    the chunks and merges them with a min-heap. Message passing is modelled by copies between the
    buffers of the two partners; the barriers make every step one synchronous round. */
module BitonicMpi {
  import opened BitonicSpec
  import opened BitonicInPlace
  import Bitonic
  import opened Optional

  /** bitonicMerge(arr, low, cnt, dir): the serial merge on a vector of long long. */
  method BitonicMerge(arr: array<int>, low: int, cnt: int, dir: bool)
    requires 0 <= low && 0 <= cnt && low + cnt <= arr.Length
    modifies arr
    ensures arr[..] == Splice(old(arr[..]), low, Merge(old(arr[..])[low..low + cnt], dir))
    decreases cnt
  {
    if cnt > 1 {
      var k := cnt / 2;
      ghost var a := arr[..];
      Bitonic.CompareLoop(arr, low, cnt, k, dir);
      ghost var b := arr[..];
      BitonicMerge(arr, low, k, dir);
      ghost var c := arr[..];
      BitonicMerge(arr, low + k, k, dir);
      MergeLevel(a, low, cnt, k, dir, b, c, arr[..]);
    } else {
      SpliceSelf(arr[..], low, cnt);
    }
  }

  /** bitonicSortLocal(arr, low, cnt, dir): the serial sort on a vector of long long. */
  method BitonicSortLocal(arr: array<int>, low: int, cnt: int, dir: bool)
    requires 0 <= low && 0 <= cnt && low + cnt <= arr.Length
    modifies arr
    ensures arr[..] == Splice(old(arr[..]), low, Sort(old(arr[..])[low..low + cnt], dir))
    decreases cnt
  {
    if cnt > 1 {
      var k := cnt / 2;
      ghost var a := arr[..];
      BitonicSortLocal(arr, low, k, true);
      ghost var b := arr[..];
      BitonicSortLocal(arr, low + k, k, false);
      ghost var c := arr[..];
      BitonicMerge(arr, low, cnt, dir);
      SortLevel(a, low, cnt, k, dir, b, c, arr[..]);
    } else {
      SpliceSelf(arr[..], low, cnt);
    }
  }

  /** isSorted(arr): no entry is smaller than the one before it. */
  method IsSorted(arr: seq<int>) returns (r: bool)
    ensures r <==> Sorted(arr, true)
  {
    var i := 1;
    while i < |arr|
      invariant 1 <= i <= if |arr| == 0 then 1 else |arr|
      invariant forall p :: 0 <= p < i - 1 ==> arr[p] <= arr[p + 1]
    {
      if arr[i] < arr[i - 1] {
        AdjacentSorted(arr);
        return false;
      }
      i := i + 1;
    }
    AdjacentSorted(arr);
    return true;
  }

  /** A size n is skipped unless the process count divides it; otherwise each rank holds
      local_n = n / size values. */
  function LocalCount(n: int, size: int): (r: Option<int>)
    requires 0 <= n && 1 <= size
    ensures r.Some? <==> n % size == 0
    ensures r.Some? ==> 0 <= r.value && r.value * size == n
  {
    if n % size != 0 then None else Some(n / size)
  }

  /** 2^k grows strictly with k. */
  lemma {:induction false} Pow2Grows(j: nat, k: nat)
    requires j < k
    ensures 2 * Pow2(j) <= Pow2(k)
    decreases k
  {
    if j + 1 < k {
      Pow2Grows(j, k - 1);
    }
  }

  /** One halving of tmp keeps size between tmp * 2^stages and (tmp + 1) * 2^stages. */
  lemma HalveStep(n: int, t: int, p: int)
    requires 2 <= t && 1 <= p && t * p <= n < (t + 1) * p
    ensures (t / 2) * (2 * p) <= n < (t / 2 + 1) * (2 * p)
  {
    var h := t / 2;
    assert h * (2 * p) == 2 * (h * p);
    assert (h + 1) * (2 * p) == 2 * (h * p) + 2 * p;
    if t % 2 == 0 {
      assert t == 2 * h;
      assert t * p == 2 * (h * p);
      assert (t + 1) * p == 2 * (h * p) + p;
    } else {
      assert t == 2 * h + 1;
      assert t * p == 2 * (h * p) + p;
      assert (t + 1) * p == 2 * (h * p) + 2 * p;
    }
  }

  /** The stage count: tmp runs over size, size / 2, ... while above 1, one stage each. */
  method StageCount(size: int) returns (stages: nat)
    requires 1 <= size
    ensures Pow2(stages) <= size < 2 * Pow2(stages)
    ensures forall m: nat :: Pow2(m) == size ==> stages == m
  {
    stages := 0;
    var tmp := size;
    while tmp > 1
      invariant 1 <= tmp && tmp * Pow2(stages) <= size < (tmp + 1) * Pow2(stages)
      decreases tmp
    {
      HalveStep(size, tmp, Pow2(stages));
      tmp := tmp / 2;
      stages := stages + 1;
    }
    forall m: nat | Pow2(m) == size ensures stages == m {
      if m < stages {
        Pow2Grows(m, stages);
      } else if stages < m {
        Pow2Grows(stages, m);
      }
    }
  }

  /** partner = rank ^ (1 << step). Ranks and steps are non-negative 32-bit ints. */
  function Partner(rank: bv32, step: bv32): bv32
    requires step < 31
  {
    rank ^ (1 << step)
  }

  /** dir = ((rank >> (stage + 1)) & 1) == 0 ? 1 : 0. */
  function Dir(rank: bv32, stage: bv32): (d: int)
    requires stage < 30
    ensures d == 0 || d == 1
  {
    if (rank >> (stage + 1)) & 1 == 0 then 1 else 0
  }

  /** The partner of a rank held in an int: the same expression on the rank's 32 bits. */
  function PartnerRank(rank: int, step: int): (p: int)
    requires 0 <= rank < 0x4000_0000 && 0 <= step < 30
    ensures 0 <= p
  {
    Partner(rank as bv32, step as bv32) as int
  }

  /** Whether a rank held in an int exchanges ascending (dir == 1) in the given stage. */
  predicate AscendsIn(rank: int, stage: int)
    requires 0 <= rank < 0x4000_0000 && 0 <= stage < 29
  {
    Dir(rank as bv32, stage as bv32) == 1
  }

  /** The partner is another rank. */
  lemma PartnerDiffers(rank: bv32, step: bv32)
    requires step < 31
    ensures Partner(rank, step) != rank
  {
  }

  /** The partner's partner is the rank itself. */
  lemma PartnerInvolutive(rank: bv32, step: bv32)
    requires step < 31
    ensures Partner(Partner(rank, step), step) == rank
  {
  }

  /** Since step <= stage, the rank and its partner compute the same dir. */
  lemma PartnerSameDir(rank: bv32, step: bv32, stage: bv32)
    requires step <= stage < 30
    ensures Dir(Partner(rank, step), stage) == Dir(rank, stage)
  {
  }

  /** What the swap loop of compareExchange leaves in local: element by element the smaller of
      the two buffers when ascending, the larger otherwise. */
  function PairLo(x: seq<int>, y: seq<int>, asc: bool): (r: seq<int>)
    requires |x| == |y|
    ensures |r| == |x|
  {
    seq(|x|, i requires 0 <= i < |x| => Lo(x[i], y[i], asc))
  }

  /** What the swap loop leaves in recvbuf: the other value of each pair. */
  function PairHi(x: seq<int>, y: seq<int>, asc: bool): (r: seq<int>)
    requires |x| == |y|
    ensures |r| == |x|
  {
    seq(|x|, i requires 0 <= i < |x| => Hi(x[i], y[i], asc))
  }

  /** The swap loop of compareExchange (bitonic_mpi.cpp:208-220): dir == 1 swaps the pairs where
      local is larger, any other dir the pairs where local is smaller. */
  method SwapLoop(local: array<int>, recvbuf: array<int>, dir: int)
    requires local != recvbuf && local.Length == recvbuf.Length
    modifies local, recvbuf
    ensures local[..] == PairLo(old(local[..]), old(recvbuf[..]), dir == 1)
    ensures recvbuf[..] == PairHi(old(local[..]), old(recvbuf[..]), dir == 1)
  {
    ghost var x, y := local[..], recvbuf[..];
    var i := 0;
    while i < local.Length
      invariant 0 <= i <= local.Length
      invariant forall p :: 0 <= p < i ==> local[p] == Lo(x[p], y[p], dir == 1) && recvbuf[p] == Hi(x[p], y[p], dir == 1)
      invariant forall p :: i <= p < local.Length ==> local[p] == x[p] && recvbuf[p] == y[p]
    {
      if dir == 1 {
        if local[i] > recvbuf[i] {
          local[i], recvbuf[i] := recvbuf[i], local[i];
        }
      } else {
        if local[i] < recvbuf[i] {
          local[i], recvbuf[i] := recvbuf[i], local[i];
        }
      }
      i := i + 1;
    }
    assert local[..] == PairLo(x, y, dir == 1);
    assert recvbuf[..] == PairHi(x, y, dir == 1);
  }

  /** Each pair after the swap loop: in the order dir asks for, and the same two values. */
  lemma PairOrdered(x: seq<int>, y: seq<int>, asc: bool, i: int)
    requires |x| == |y| && 0 <= i < |x|
    ensures Ordered(PairLo(x, y, asc)[i], PairHi(x, y, asc)[i], asc)
    ensures multiset{PairLo(x, y, asc)[i], PairHi(x, y, asc)[i]} == multiset{x[i], y[i]}
  {
  }

  /** The pairs of a buffer are the pairs of all but its last entry, then the last pair. */
  lemma PairLast(x: seq<int>, y: seq<int>, asc: bool)
    requires |x| == |y| && |x| > 0
    ensures var n := |x| - 1; PairLo(x, y, asc) == PairLo(x[..n], y[..n], asc) + [Lo(x[n], y[n], asc)]
    ensures var n := |x| - 1; PairHi(x, y, asc) == PairHi(x[..n], y[..n], asc) + [Hi(x[n], y[n], asc)]
  {
    var n := |x| - 1;
    var l := PairLo(x[..n], y[..n], asc) + [Lo(x[n], y[n], asc)];
    forall i | 0 <= i < |x| ensures PairLo(x, y, asc)[i] == l[i] {
      if i < n {
        assert l[i] == PairLo(x[..n], y[..n], asc)[i];
      }
    }
    var h := PairHi(x[..n], y[..n], asc) + [Hi(x[n], y[n], asc)];
    forall i | 0 <= i < |x| ensures PairHi(x, y, asc)[i] == h[i] {
      if i < n {
        assert h[i] == PairHi(x[..n], y[..n], asc)[i];
      }
    }
  }

  /** Splitting every pair keeps the values of the two buffers together. */
  lemma {:induction false} PairSplitKeeps(x: seq<int>, y: seq<int>, asc: bool)
    requires |x| == |y|
    ensures multiset(PairLo(x, y, asc)) + multiset(PairHi(x, y, asc)) == multiset(x) + multiset(y)
    decreases |x|
  {
    if |x| > 0 {
      var n := |x| - 1;
      var lo, hi := PairLo(x[..n], y[..n], asc), PairHi(x[..n], y[..n], asc);
      PairSplitKeeps(x[..n], y[..n], asc);
      PairLast(x, y, asc);
      var a, b := Lo(x[n], y[n], asc), Hi(x[n], y[n], asc);
      assert multiset{a} + multiset{b} == multiset{x[n]} + multiset{y[n]} by {
        if !(a == x[n] && b == y[n]) {
          assert a == y[n] && b == x[n];
        }
      }
      assert x == x[..n] + [x[n]] && y == y[..n] + [y[n]];
      MultisetSnoc(PairLo(x, y, asc), lo, a);
      MultisetSnoc(PairHi(x, y, asc), hi, b);
      MultisetSnoc(x, x[..n], x[n]);
      MultisetSnoc(y, y[..n], y[n]);
      UnionRegroup(multiset(lo), multiset(hi), multiset(x[..n]), multiset(y[..n]),
        multiset{a}, multiset{b}, multiset{x[n]}, multiset{y[n]});
    }
  }

  lemma MultisetSnoc(s: seq<int>, t: seq<int>, v: int)
    requires s == t + [v]
    ensures multiset(s) == multiset(t) + multiset{v}
  {
  }

  lemma UnionRegroup(l: multiset<int>, h: multiset<int>, x: multiset<int>, y: multiset<int>,
                     a: multiset<int>, b: multiset<int>, c: multiset<int>, d: multiset<int>)
    requires l + h == x + y && a + b == c + d
    ensures (l + a) + (h + b) == (x + c) + (y + d)
  {
    assert (l + a) + (h + b) == (l + h) + (a + b);
    assert (x + c) + (y + d) == (x + y) + (c + d);
  }

  /** The pairwise smaller (larger) values of two ascending buffers are ascending. */
  lemma PairAscending(x: seq<int>, y: seq<int>, asc: bool)
    requires |x| == |y| && Sorted(x, true) && Sorted(y, true)
    ensures Sorted(PairLo(x, y, asc), true) && Sorted(PairHi(x, y, asc), true)
  {
    forall i, j | 0 <= i < j < |x| ensures PairLo(x, y, asc)[i] <= PairLo(x, y, asc)[j] {
      assert x[i] <= x[j] && y[i] <= y[j];
    }
    forall i, j | 0 <= i < j < |x| ensures PairHi(x, y, asc)[i] <= PairHi(x, y, asc)[j] {
      assert x[i] <= x[j] && y[i] <= y[j];
    }
  }

  /** The pair function does not depend on which buffer is whose. */
  lemma PairSymmetric(x: seq<int>, y: seq<int>, asc: bool)
    requires |x| == |y|
    ensures PairLo(y, x, asc) == PairLo(x, y, asc) && PairHi(y, x, asc) == PairHi(x, y, asc)
  {
  }

  /** A receive of a whole buffer into a new recvbuf. */
  method Receive(src: array<int>) returns (buf: array<int>)
    ensures fresh(buf) && buf[..] == src[..]
  {
    buf := new int[src.Length];
    var i := 0;
    while i < src.Length
      invariant 0 <= i <= src.Length
      invariant buf[..i] == src[..i]
    {
      buf[i] := src[i];
      i := i + 1;
    }
  }

  /** A receive into an existing buffer of the same length; also std::copy. */
  method CopyInto(src: array<int>, dst: array<int>)
    requires src != dst && src.Length == dst.Length
    modifies dst
    ensures dst[..] == src[..]
  {
    var i := 0;
    while i < src.Length
      invariant 0 <= i <= src.Length
      invariant dst[..i] == src[..i]
    {
      dst[i] := src[i];
      i := i + 1;
    }
  }

  /** compareExchange run by a rank (local x) and its partner (local y) with the same dir:
      the first Sendrecv hands each the other's buffer, both run the swap loop, the second
      Sendrecv hands each the other's post-swap local, and std::copy puts that into local.
      Both end with the same buffer: the pairwise smaller values when dir == 1, the larger
      otherwise. */
  method CompareExchange(x: array<int>, y: array<int>, dir: int)
    requires x != y && x.Length == y.Length
    modifies x, y
    ensures x[..] == PairLo(old(x[..]), old(y[..]), dir == 1)
    ensures y[..] == x[..]
  {
    ghost var x0, y0 := x[..], y[..];
    var recvX := Receive(y);
    var recvY := Receive(x);
    SwapLoop(x, recvX, dir);
    SwapLoop(y, recvY, dir);
    PairSymmetric(x0, y0, dir == 1);
    CopyInto(y, recvX);
    CopyInto(x, recvY);
    CopyInto(recvX, x);
    CopyInto(recvY, y);
  }

  /** The two partners of one exchange can end up holding fewer distinct values than they
      started with: [1] and [2] ascending both become [1]. */
  lemma ExchangeLosesValues()
    ensures var x, y := [1], [2];
      multiset(PairLo(x, y, true)) + multiset(PairLo(y, x, true)) != multiset(x) + multiset(y)
  {
    var x, y := [1], [2];
    assert PairLo(x, y, true) == [1] && PairLo(y, x, true) == [1];
    assert 2 in multiset(x) + multiset(y);
  }

  /** The exchange as evidently intended: the lower rank (local x) keeps the pairwise values
      for its side and the upper rank (local y) the other values, so no value is lost. */
  method CompareSplit(x: array<int>, y: array<int>, dir: int)
    requires x != y && x.Length == y.Length
    modifies x, y
    ensures x[..] == PairLo(old(x[..]), old(y[..]), dir == 1)
    ensures y[..] == PairHi(old(x[..]), old(y[..]), dir == 1)
    ensures multiset(x[..]) + multiset(y[..]) == multiset(old(x[..])) + multiset(old(y[..]))
  {
    ghost var x0, y0 := x[..], y[..];
    var recvX := Receive(y);
    var recvY := Receive(x);
    SwapLoop(x, recvX, dir);
    SwapLoop(y, recvY, dir);
    CopyInto(recvY, y);
    PairSymmetric(x0, y0, dir == 1);
    PairSplitKeeps(x0, y0, dir == 1);
  }
}
