/** One size n of the MPI driver in bitonic_mpi.cpp, all ranks together: the scatter of the
    data in chunks of local_n values, the local sort on every rank, the stage/step schedule of
    compareExchange rounds, the gather at rank 0, the heap merge and the isSorted check.

    The ranks' buffers are a sequence indexed by rank. One round of the schedule is synchronous
    (a barrier ends every step), so it is a function of all the buffers before it: every rank
    whose partner is a rank ends with what compareExchange leaves it, as written (the pairwise
    smaller values for dir == 1, the larger ones otherwise). */
module BitonicMpiRun {
  import opened Optional
  import opened BitonicSpec
  import Bitonic
  import opened BitonicMpi
  import opened BitonicMpiMerge

  /** Every rank holds local_n values. */
  ghost predicate Uniform(bufs: seq<seq<int>>, localN: int) {
    forall c :: 0 <= c < |bufs| ==> |bufs[c]| == localN
  }

  /** Every value any rank holds. */
  ghost function Values(bufs: seq<seq<int>>): set<int> {
    set c, i | 0 <= c < |bufs| && 0 <= i < |bufs[c]| :: bufs[c][i]
  }

  /** What rank r holds after the round (stage, step): the buffer compareExchange leaves when
      partner = r ^ (1 << step) is a rank, with dir from bit stage + 1 of r; its own buffer
      otherwise. */
  function RankAfter(bufs: seq<seq<int>>, localN: int, r: int, stage: int, step: int): (b: seq<int>)
    requires |bufs| <= 0x4000_0000 && 0 <= r < |bufs| && 0 <= step <= stage < 29
    requires forall c :: 0 <= c < |bufs| ==> |bufs[c]| == localN
    ensures |b| == localN
  {
    var p := PartnerRank(r, step);
    if p < |bufs| then PairLo(bufs[r], bufs[p], AscendsIn(r, stage)) else bufs[r]
  }

  /** One round of the schedule over all ranks. */
  function ExchangeRound(bufs: seq<seq<int>>, localN: int, stage: int, step: int): (next: seq<seq<int>>)
    requires |bufs| <= 0x4000_0000 && 0 <= step <= stage < 29
    requires forall c :: 0 <= c < |bufs| ==> |bufs[c]| == localN
    ensures |next| == |bufs| && forall c :: 0 <= c < |next| ==> |next[c]| == localN
    ensures forall c :: 0 <= c < |next| ==> next[c] == RankAfter(bufs, localN, c, stage, step)
  {
    seq(|bufs|, r requires 0 <= r < |bufs| => RankAfter(bufs, localN, r, stage, step))
  }

  /** Each pairwise-smaller (or larger) value is one of the two values of its pair. */
  lemma PairLoFrom(x: seq<int>, y: seq<int>, asc: bool, i: int)
    requires |x| == |y| && 0 <= i < |x|
    ensures PairLo(x, y, asc)[i] == x[i] || PairLo(x, y, asc)[i] == y[i]
  {
  }

  /** A round hands every rank only values some rank held before it. */
  lemma {:induction false} RoundValues(bufs: seq<seq<int>>, localN: int, stage: int, step: int)
    requires |bufs| <= 0x4000_0000 && 0 <= step <= stage < 29 && Uniform(bufs, localN)
    ensures Values(ExchangeRound(bufs, localN, stage, step)) <= Values(bufs)
  {
    var next := ExchangeRound(bufs, localN, stage, step);
    forall v | v in Values(next) ensures v in Values(bufs) {
      var c, i :| 0 <= c < |next| && 0 <= i < |next[c]| && next[c][i] == v;
      RankAfterFrom(bufs, localN, c, stage, step, i);
    }
  }

  /** Each value of a rank after the round is a value some rank held before it. */
  lemma {:induction false} RankAfterFrom(bufs: seq<seq<int>>, localN: int, r: int, stage: int, step: int, i: int)
    requires |bufs| <= 0x4000_0000 && 0 <= r < |bufs| && 0 <= step <= stage < 29 && Uniform(bufs, localN)
    requires 0 <= i < localN
    ensures RankAfter(bufs, localN, r, stage, step)[i] in Values(bufs)
  {
    var p := PartnerRank(r, step);
    assert bufs[r][i] in Values(bufs);
    if p < |bufs| {
      PairLoFrom(bufs[r], bufs[p], AscendsIn(r, stage), i);
      assert bufs[p][i] in Values(bufs);
    }
  }

  /** A round keeps ascending buffers ascending. */
  lemma {:induction false} RoundAscending(bufs: seq<seq<int>>, localN: int, stage: int, step: int)
    requires |bufs| <= 0x4000_0000 && 0 <= step <= stage < 29 && Uniform(bufs, localN) && Ascending(bufs)
    ensures Ascending(ExchangeRound(bufs, localN, stage, step))
  {
    var next := ExchangeRound(bufs, localN, stage, step);
    forall c | 0 <= c < |next| ensures Sorted(next[c], true) {
      var p := PartnerRank(c, step);
      if p < |bufs| {
        PairAscending(bufs[c], bufs[p], AscendsIn(c, stage));
      }
    }
  }

  /** The stage and step loops: for every stage, the steps stage down to 0, each one round.
      The buffers keep local_n values each, stay ascending if they were, and hold only values
      that were held before the first round. */
  method Schedule(bufs0: seq<seq<int>>, localN: int, stages: int) returns (bufs: seq<seq<int>>)
    requires |bufs0| <= 0x4000_0000 && 0 <= stages <= 29 && Uniform(bufs0, localN)
    ensures |bufs| == |bufs0| && Uniform(bufs, localN)
    ensures Values(bufs) <= Values(bufs0)
    ensures Ascending(bufs0) ==> Ascending(bufs)
  {
    bufs := bufs0;
    var stage := 0;
    while stage < stages
      invariant 0 <= stage <= stages
      invariant |bufs| == |bufs0| && Uniform(bufs, localN) && Values(bufs) <= Values(bufs0)
      invariant Ascending(bufs0) ==> Ascending(bufs)
    {
      var step := stage;
      while step >= 0
        invariant -1 <= step <= stage
        invariant |bufs| == |bufs0| && Uniform(bufs, localN) && Values(bufs) <= Values(bufs0)
        invariant Ascending(bufs0) ==> Ascending(bufs)
      {
        RoundValues(bufs, localN, stage, step);
        if Ascending(bufs0) {
          RoundAscending(bufs, localN, stage, step);
        }
        bufs := ExchangeRound(bufs, localN, stage, step);
        step := step - 1;
      }
      stage := stage + 1;
    }
  }

  /** The chunk the scatter hands rank r: data[r*local_n .. (r+1)*local_n). */
  function Chunk(data: seq<int>, localN: int, r: int): (s: seq<int>)
    requires 0 <= r && 0 <= localN && r * localN + localN <= |data|
    ensures |s| == localN
  {
    data[r * localN..r * localN + localN]
  }

  /** The chunk of a rank r < size lies inside the n = size * local_n values. */
  lemma ChunkFits(r: int, size: int, localN: int)
    requires 0 <= r < size && 0 <= localN
    ensures 0 <= r * localN && r * localN + localN <= size * localN
  {
    var d := size - r - 1;
    assert size * localN == (r + 1) * localN + d * localN;
    assert 0 <= d * localN;
  }

  /** Every value of a chunk is a value of the data. */
  lemma ChunkFrom(data: seq<int>, localN: int, r: int, j: int)
    requires 0 <= r && 0 <= localN && r * localN + localN <= |data| && 0 <= j < localN
    ensures Chunk(data, localN, r)[j] in data
  {
    var a := r * localN;
    assert Chunk(data, localN, r)[j] == data[a + j];
  }

  /** The scatter into rank r's local buffer. */
  method Scatter(data: seq<int>, localN: int, r: int) returns (local: array<int>)
    requires 0 <= r && 0 <= localN && r * localN + localN <= |data|
    ensures fresh(local) && local[..] == Chunk(data, localN, r)
  {
    local := new int[localN];
    var a := r * localN;
    var i := 0;
    while i < localN
      invariant 0 <= i <= localN
      invariant local[..i] == data[a..a + i]
    {
      local[i] := data[a + i];
      i := i + 1;
    }
  }

  /** Rank r: the scatter, then bitonicSortLocal(local, 0, local_n, true). */
  method LocalSort(data: seq<int>, localN: int, r: int) returns (buf: seq<int>)
    requires 0 <= r && 0 <= localN && r * localN + localN <= |data|
    ensures buf == Sort(Chunk(data, localN, r), true)
  {
    var local := Scatter(data, localN, r);
    ghost var s := local[..];
    BitonicSortLocal(local, 0, localN, true);
    Bitonic.SortWhole(s);
    buf := local[..];
  }

  /** Scatter and local sort on every rank. */
  method ScatterSort(data: seq<int>, size: int, localN: int) returns (bufs: seq<seq<int>>)
    requires 1 <= size && 0 <= localN && |data| == size * localN
    ensures |bufs| == size
    ensures forall r :: 0 <= r < size ==>
      (0 <= r * localN && r * localN + localN <= |data| && bufs[r] == Sort(Chunk(data, localN, r), true))
  {
    bufs := [];
    var r := 0;
    while r < size
      invariant 0 <= r <= size && |bufs| == r
      invariant forall q :: 0 <= q < r ==>
        (0 <= q * localN && q * localN + localN <= |data| && bufs[q] == Sort(Chunk(data, localN, q), true))
    {
      ChunkFits(r, size, localN);
      var buf := LocalSort(data, localN, r);
      bufs := bufs + [buf];
      r := r + 1;
    }
  }

  /** After the local sorts every buffer holds local_n values of the data, ascending for a
      power-of-two local_n. */
  lemma {:induction false} LocalSortsKeep(data: seq<int>, size: int, localN: int, bufs: seq<seq<int>>)
    requires 1 <= size && 0 <= localN && |data| == size * localN && |bufs| == size
    requires forall r :: 0 <= r < size ==>
      (0 <= r * localN && r * localN + localN <= |data| && bufs[r] == Sort(Chunk(data, localN, r), true))
    ensures Uniform(bufs, localN)
    ensures forall v :: v in Values(bufs) ==> v in data
    ensures IsPow2(localN) ==> Ascending(bufs)
  {
    forall c | 0 <= c < size ensures |bufs[c]| == localN {
      Bitonic.SortRangeCorrect(Chunk(data, localN, c), true);
      assert |multiset(bufs[c])| == |multiset(Chunk(data, localN, c))|;
    }
    forall v | v in Values(bufs) ensures v in data {
      var c, i :| 0 <= c < |bufs| && 0 <= i < |bufs[c]| && bufs[c][i] == v;
      var ch := Chunk(data, localN, c);
      Bitonic.SortRangeCorrect(ch, true);
      assert v in multiset(ch);
      var j :| 0 <= j < |ch| && ch[j] == v;
      ChunkFrom(data, localN, c, j);
    }
    if IsPow2(localN) {
      forall c | 0 <= c < size ensures Sorted(bufs[c], true) {
        Bitonic.SortRangeCorrect(Chunk(data, localN, c), true);
      }
    }
  }

  /** Every value of the gathered vector is a value some rank held. */
  lemma {:induction false} FlattenValues(bufs: seq<seq<int>>, m: int, v: int)
    requires 0 <= m <= |bufs| && v in multiset(Flatten(bufs, m))
    ensures v in Values(bufs)
  {
    assert m > 0;
    if v in multiset(Flatten(bufs, m - 1)) {
      FlattenValues(bufs, m - 1, v);
    } else {
      assert v in multiset(bufs[m - 1]);
      var i :| 0 <= i < |bufs[m - 1]| && bufs[m - 1][i] == v;
      assert bufs[m - 1][i] in Values(bufs);
    }
  }

  /** 2^29 itself. */
  lemma Pow2Of29()
    ensures Pow2(29) == 0x2000_0000
  {
    assert Pow2(5) == 32;
    assert Pow2(10) == 1024;
    assert Pow2(15) == 32768;
    assert Pow2(20) == 1048576;
    assert Pow2(25) == 33554432;
  }

  /** One size n of the driver with size ranks: skipped unless size divides n; otherwise
      fully_sorted holds n values, each a value of the data, the isSorted check reports exactly
      whether they ascend, and for a power-of-two local_n they do. Values can repeat in place
      of others, since compareExchange hands both partners the same buffer. */
  method SortN(data: seq<int>, size: int) returns (skipped: bool, fullySorted: seq<int>, sortedCorrectly: bool)
    requires 1 <= size <= 0x2000_0000 && 1 <= |data|
    ensures skipped <==> |data| % size != 0
    ensures !skipped ==> |fullySorted| == |data| && forall v :: v in fullySorted ==> v in data
    ensures !skipped ==> (sortedCorrectly <==> Sorted(fullySorted, true))
    ensures !skipped && IsPow2(|data| / size) ==> sortedCorrectly
  {
    var count := LocalCount(|data|, size);
    if count.None? {
      return true, [], false;
    }
    skipped := false;
    var localN := count.value;
    assert |data| / size == localN;
    var bufs0 := ScatterSort(data, size, localN);
    LocalSortsKeep(data, size, localN, bufs0);
    var stages := StageCount(size);
    if stages > 29 {
      Pow2Grows(29, stages);
      Pow2Of29();
    }
    var bufs := Schedule(bufs0, localN, stages);
    var arr := HeapMerge(bufs, localN);
    fullySorted := arr[..];
    FlattenLength(bufs, |bufs|, localN);
    assert |multiset(fullySorted)| == |Flatten(bufs, |bufs|)|;
    forall v | v in fullySorted ensures v in data {
      assert v in multiset(fullySorted);
      FlattenValues(bufs, |bufs|, v);
    }
    sortedCorrectly := IsSorted(fullySorted);
  }
}
