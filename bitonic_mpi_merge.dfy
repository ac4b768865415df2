/** The k-way merge rank 0 runs at the end of bitonic_mpi.cpp (lines 106-127): the gathered data
    is size chunks of local_n values (chunk c is data[c*local_n .. (c+1)*local_n)); a min-heap of
    (value, (chunk, index)) nodes holds the next value of every chunk that is not used up; the
    smallest node is popped into fully_sorted and replaced by the next value of its chunk.

    The gathered vector is modelled as its sequence of chunks, data[c*local_n + i] being
    chunks[c][i], and std::priority_queue as a sequence of nodes whose top() is the least node
    in the order of std::pair. */
module BitonicMpiMerge {
  import opened Optional
  import opened BitonicSpec

  datatype Node = Node(val: int, chunk: int, ind: int)

  /** The order greater<HeapNode> puts on the nodes: value, then chunk, then index. */
  predicate NodeLe(a: Node, b: Node) {
    a.val < b.val || (a.val == b.val && (a.chunk < b.chunk || (a.chunk == b.chunk && a.ind <= b.ind)))
  }

  /** The position of the node top() returns: one that is at most every node of the heap. */
  function MinAt(h: seq<Node>): (i: int)
    requires |h| > 0
    ensures 0 <= i < |h|
    ensures forall j :: 0 <= j < |h| ==> NodeLe(h[i], h[j])
    decreases |h|, 1
  {
    if |h| == 1 then 0 else MinAtLast(h)
  }

  /** MinAt of a heap of two or more nodes: the least of the front's least node and the last node. */
  function MinAtLast(h: seq<Node>): (i: int)
    requires |h| > 1
    ensures 0 <= i < |h|
    ensures forall j :: 0 <= j < |h| ==> NodeLe(h[i], h[j])
    decreases |h|, 0
  {
    var i := MinAt(h[..|h| - 1]);
    if NodeLe(h[i], h[|h| - 1]) then i else |h| - 1
  }

  /** pop(): the heap without the node at position m, every other node kept. */
  function RemoveAt(h: seq<Node>, m: int): (r: seq<Node>)
    requires 0 <= m < |h|
    ensures |r| == |h| - 1
    ensures multiset(r) + multiset{h[m]} == multiset(h)
  {
    assert h == h[..m] + [h[m]] + h[m + 1..];
    h[..m] + h[m + 1..]
  }

  /** What the merge pushes after popping a node of chunk c whose next index is i: that
      chunk's next node, or nothing once the chunk is used up. */
  function Refill(chunks: seq<seq<int>>, c: int, i: int): (r: seq<Node>)
    requires 0 <= c < |chunks| && 0 <= i
    ensures multiset(r) == HeadOf(chunks, c, i)
  {
    if i < |chunks[c]| then [Node(chunks[c][i], c, i)] else []
  }

  /** The chunks one after the other: the gathered vector (first m chunks). */
  function Flatten(chunks: seq<seq<int>>, m: int): (r: seq<int>)
    requires 0 <= m <= |chunks|
  {
    if m == 0 then [] else Flatten(chunks, m - 1) + chunks[m - 1]
  }

  /** n = size * local_n values are gathered. */
  lemma {:induction false} FlattenLength(chunks: seq<seq<int>>, m: int, localN: int)
    requires 0 <= m <= |chunks| && forall c :: 0 <= c < |chunks| ==> |chunks[c]| == localN
    ensures |Flatten(chunks, m)| == m * localN
  {
    if m > 0 {
      FlattenLength(chunks, m - 1, localN);
      assert m * localN == (m - 1) * localN + localN;
    }
  }

  /** Every chunk ascends, as every rank's buffer does after the exchange stages. */
  ghost predicate Ascending(chunks: seq<seq<int>>) {
    forall c :: 0 <= c < |chunks| ==> Sorted(chunks[c], true)
  }

  /** pos[c] is how far chunk c has been emitted. */
  ghost predicate ValidPos(chunks: seq<seq<int>>, pos: seq<int>) {
    |pos| == |chunks| && forall c :: 0 <= c < |pos| ==> 0 <= pos[c] <= |chunks[c]|
  }

  /** The node of chunk c at index p, as a multiset of one node, or none past the chunk's end. */
  ghost function HeadOf(chunks: seq<seq<int>>, c: int, p: int): multiset<Node>
    requires 0 <= c < |chunks|
  {
    if 0 <= p < |chunks[c]| then multiset{Node(chunks[c][p], c, p)} else multiset{}
  }

  /** The values of chunk c from index p on. */
  ghost function TailOf(chunks: seq<seq<int>>, c: int, p: int): multiset<int>
    requires 0 <= c < |chunks|
  {
    if 0 <= p <= |chunks[c]| then multiset(chunks[c][p..]) else multiset{}
  }

  /** The nodes the heap must hold: the next node of each of the first m chunks not used up. */
  ghost function Heads(chunks: seq<seq<int>>, pos: seq<int>, m: int): multiset<Node>
    requires |pos| == |chunks| && 0 <= m <= |chunks|
    decreases m, 1
  {
    if m == 0 then multiset{} else HeadsNext(chunks, pos, m)
  }

  ghost function HeadsNext(chunks: seq<seq<int>>, pos: seq<int>, m: int): multiset<Node>
    requires |pos| == |chunks| && 1 <= m <= |chunks|
    decreases m, 0
  {
    Heads(chunks, pos, m - 1) + HeadOf(chunks, m - 1, pos[m - 1])
  }

  /** The values of the first m chunks not yet emitted. */
  ghost function Rest(chunks: seq<seq<int>>, pos: seq<int>, m: int): multiset<int>
    requires |pos| == |chunks| && 0 <= m <= |chunks|
    decreases m, 1
  {
    if m == 0 then multiset{} else RestNext(chunks, pos, m)
  }

  ghost function RestNext(chunks: seq<seq<int>>, pos: seq<int>, m: int): multiset<int>
    requires |pos| == |chunks| && 1 <= m <= |chunks|
    decreases m, 0
  {
    Rest(chunks, pos, m - 1) + TailOf(chunks, m - 1, pos[m - 1])
  }

  /** How many values of the first m chunks are not yet emitted. */
  ghost function Remaining(chunks: seq<seq<int>>, pos: seq<int>, m: int): int
    requires |pos| == |chunks| && 0 <= m <= |chunks|
    decreases m, 1
  {
    if m == 0 then 0 else RemainingNext(chunks, pos, m)
  }

  ghost function RemainingNext(chunks: seq<seq<int>>, pos: seq<int>, m: int): int
    requires |pos| == |chunks| && 1 <= m <= |chunks|
    decreases m, 0
  {
    Remaining(chunks, pos, m - 1) + |chunks[m - 1]| - pos[m - 1]
  }

  /** A node the heap must hold is the next node of its chunk. */
  lemma {:induction false} HeadsMember(chunks: seq<seq<int>>, pos: seq<int>, m: int, nd: Node)
    requires |pos| == |chunks| && 0 <= m <= |chunks| && nd in Heads(chunks, pos, m)
    ensures 0 <= nd.chunk < m && nd.ind == pos[nd.chunk] && 0 <= nd.ind < |chunks[nd.chunk]|
    ensures nd.val == chunks[nd.chunk][nd.ind]
  {
    assert m > 0;
    if nd in Heads(chunks, pos, m - 1) {
      HeadsMember(chunks, pos, m - 1, nd);
    }
  }

  /** The next node of a chunk that is not used up is among the nodes the heap must hold. */
  lemma {:induction false} HeadsContain(chunks: seq<seq<int>>, pos: seq<int>, m: int, c: int)
    requires |pos| == |chunks| && 0 <= c < m <= |chunks| && 0 <= pos[c] < |chunks[c]|
    ensures Node(chunks[c][pos[c]], c, pos[c]) in Heads(chunks, pos, m)
  {
    if c < m - 1 {
      HeadsContain(chunks, pos, m - 1, c);
    }
  }

  /** Nothing emitted from a chunk is counted twice: at least its unused values remain. */
  lemma {:induction false} RemainingCovers(chunks: seq<seq<int>>, pos: seq<int>, m: int, c: int)
    requires ValidPos(chunks, pos) && 0 <= c < m <= |chunks|
    ensures Remaining(chunks, pos, m) >= |chunks[c]| - pos[c]
  {
    if c < m - 1 {
      RemainingCovers(chunks, pos, m - 1, c);
    } else {
      RemainingNonNegative(chunks, pos, m - 1);
    }
  }

  lemma {:induction false} RemainingNonNegative(chunks: seq<seq<int>>, pos: seq<int>, m: int)
    requires ValidPos(chunks, pos) && 0 <= m <= |chunks|
    ensures Remaining(chunks, pos, m) >= 0
  {
    if m > 0 {
      RemainingNonNegative(chunks, pos, m - 1);
    }
  }

  /** Positions that agree on the first m chunks give the same heap nodes there. */
  lemma {:induction false} HeadsAgree(chunks: seq<seq<int>>, pos: seq<int>, p: seq<int>, m: int)
    requires |pos| == |chunks| && |p| == |chunks| && 0 <= m <= |chunks|
    requires forall j :: 0 <= j < m ==> p[j] == pos[j]
    ensures Heads(chunks, p, m) == Heads(chunks, pos, m)
  {
    if m > 0 {
      HeadsAgree(chunks, pos, p, m - 1);
    }
  }

  /** Positions that agree on the first m chunks leave the same values there. */
  lemma {:induction false} RestAgree(chunks: seq<seq<int>>, pos: seq<int>, p: seq<int>, m: int)
    requires |pos| == |chunks| && |p| == |chunks| && 0 <= m <= |chunks|
    requires forall j :: 0 <= j < m ==> p[j] == pos[j]
    ensures Rest(chunks, p, m) == Rest(chunks, pos, m)
  {
    if m > 0 {
      RestAgree(chunks, pos, p, m - 1);
    }
  }

  /** Positions that agree on the first m chunks leave as many values there. */
  lemma {:induction false} RemainingAgree(chunks: seq<seq<int>>, pos: seq<int>, p: seq<int>, m: int)
    requires |pos| == |chunks| && |p| == |chunks| && 0 <= m <= |chunks|
    requires forall j :: 0 <= j < m ==> p[j] == pos[j]
    ensures Remaining(chunks, p, m) == Remaining(chunks, pos, m)
  {
    if m > 0 {
      RemainingAgree(chunks, pos, p, m - 1);
    }
  }

  /** x + a == z + b survives adding y on both sides. */
  lemma {:induction false} MultisetShift(x: multiset<Node>, y: multiset<Node>, z: multiset<Node>, a: multiset<Node>, b: multiset<Node>)
    requires x + a == z + b
    ensures (x + y) + a == (z + y) + b
  {
    calc {
      (x + y) + a;
      (x + a) + y;
      (z + b) + y;
      (z + y) + b;
    }
  }

  /** x + a == z survives adding y on both sides. */
  lemma {:induction false} ValuesShift(x: multiset<int>, y: multiset<int>, z: multiset<int>, a: multiset<int>)
    requires x + a == z
    ensures (x + y) + a == z + y
  {
    calc {
      (x + y) + a;
      (x + a) + y;
      z + y;
    }
  }

  /** Taking t from both sides: r + t == h and g + t == h + n give r + n == g. */
  lemma {:induction false} MultisetCancel(r: multiset<Node>, g: multiset<Node>, h: multiset<Node>, t: multiset<Node>, n: multiset<Node>)
    requires r + t == h && g + t == h + n
    ensures r + n == g
  {
    calc {
      r + n;
      (r + t + n) - t;
      (h + n) - t;
      (g + t) - t;
      g;
    }
  }

  /** Emitting the next value of chunk c (p is pos with that chunk moved one on): the nodes the
      heap must hold trade that value's node for the chunk's following node, if there is one. */
  lemma {:induction false} AdvanceHeads(chunks: seq<seq<int>>, pos: seq<int>, p: seq<int>, m: int, c: int)
    requires |pos| == |chunks| && 0 <= c < m <= |chunks| && p == pos[c := pos[c] + 1]
    ensures Heads(chunks, p, m) + HeadOf(chunks, c, pos[c]) == Heads(chunks, pos, m) + HeadOf(chunks, c, p[c])
  {
    if c == m - 1 {
      AdvanceHeadsHere(chunks, pos, p, c);
    } else {
      AdvanceHeads(chunks, pos, p, m - 1, c);
      assert p[m - 1] == pos[m - 1];
      MultisetShift(Heads(chunks, p, m - 1), HeadOf(chunks, m - 1, p[m - 1]), Heads(chunks, pos, m - 1),
        HeadOf(chunks, c, pos[c]), HeadOf(chunks, c, p[c]));
    }
  }

  /** AdvanceHeads for the chunk c itself as the last of the first c + 1 chunks. */
  lemma {:induction false} AdvanceHeadsHere(chunks: seq<seq<int>>, pos: seq<int>, p: seq<int>, c: int)
    requires |pos| == |chunks| && 0 <= c < |chunks| && p == pos[c := pos[c] + 1]
    ensures Heads(chunks, p, c + 1) + HeadOf(chunks, c, pos[c]) == Heads(chunks, pos, c + 1) + HeadOf(chunks, c, p[c])
  {
    HeadsAgree(chunks, pos, p, c);
  }

  /** The values of a chunk from index q on: the value at q and those after it. */
  lemma {:induction false} TailStep(chunks: seq<seq<int>>, c: int, q: int)
    requires 0 <= c < |chunks| && 0 <= q < |chunks[c]|
    ensures TailOf(chunks, c, q) == multiset{chunks[c][q]} + TailOf(chunks, c, q + 1)
  {
    assert chunks[c][q..] == [chunks[c][q]] + chunks[c][q + 1..];
  }

  /** Emitting the next value of chunk c takes exactly that value from the values left. */
  lemma {:induction false} AdvanceRest(chunks: seq<seq<int>>, pos: seq<int>, p: seq<int>, m: int, c: int)
    requires |pos| == |chunks| && 0 <= c < m <= |chunks| && 0 <= pos[c] < |chunks[c]|
    requires p == pos[c := pos[c] + 1]
    ensures Rest(chunks, p, m) + multiset{chunks[c][pos[c]]} == Rest(chunks, pos, m)
  {
    if c == m - 1 {
      AdvanceRestHere(chunks, pos, p, c);
    } else {
      AdvanceRest(chunks, pos, p, m - 1, c);
      assert p[m - 1] == pos[m - 1];
      ValuesShift(Rest(chunks, p, m - 1), TailOf(chunks, m - 1, pos[m - 1]), Rest(chunks, pos, m - 1),
        multiset{chunks[c][pos[c]]});
    }
  }

  /** AdvanceRest for the chunk c itself as the last of the first c + 1 chunks. */
  lemma {:induction false} AdvanceRestHere(chunks: seq<seq<int>>, pos: seq<int>, p: seq<int>, c: int)
    requires |pos| == |chunks| && 0 <= c < |chunks| && 0 <= pos[c] < |chunks[c]|
    requires p == pos[c := pos[c] + 1]
    ensures Rest(chunks, p, c + 1) + multiset{chunks[c][pos[c]]} == Rest(chunks, pos, c + 1)
  {
    RestAgree(chunks, pos, p, c);
    TailStep(chunks, c, pos[c]);
    ValuesShift(Rest(chunks, p, c), TailOf(chunks, c, p[c]), Rest(chunks, pos, c) + multiset{chunks[c][pos[c]]},
      multiset{chunks[c][pos[c]]});
  }

  /** Emitting the next value of chunk c leaves one value fewer. */
  lemma {:induction false} AdvanceRemaining(chunks: seq<seq<int>>, pos: seq<int>, p: seq<int>, m: int, c: int)
    requires |pos| == |chunks| && 0 <= c < m <= |chunks| && p == pos[c := pos[c] + 1]
    ensures Remaining(chunks, p, m) + 1 == Remaining(chunks, pos, m)
  {
    if c == m - 1 {
      RemainingAgree(chunks, pos, p, c);
    } else {
      AdvanceRemaining(chunks, pos, p, m - 1, c);
    }
  }

  /** Nothing is left once every chunk is used up. */
  lemma {:induction false} AllUsed(chunks: seq<seq<int>>, pos: seq<int>, m: int)
    requires |pos| == |chunks| && 0 <= m <= |chunks|
    requires forall c :: 0 <= c < m ==> pos[c] == |chunks[c]|
    ensures Rest(chunks, pos, m) == multiset{} && Remaining(chunks, pos, m) == 0
  {
    if m > 0 {
      AllUsed(chunks, pos, m - 1);
    }
  }

  /** Before anything is emitted, the values left are the gathered vector. */
  lemma {:induction false} NoneUsed(chunks: seq<seq<int>>, pos: seq<int>, m: int)
    requires |pos| == |chunks| && 0 <= m <= |chunks|
    requires forall c :: 0 <= c < m ==> pos[c] == 0
    ensures Rest(chunks, pos, m) == multiset(Flatten(chunks, m))
    ensures Remaining(chunks, pos, m) == |Flatten(chunks, m)|
  {
    if m > 0 {
      NoneUsed(chunks, pos, m - 1);
      assert chunks[m - 1][0..] == chunks[m - 1];
    }
  }

  /** Every value not yet emitted is at least the top of the heap, when the chunks ascend. */
  lemma {:induction false} TopIsLeast(chunks: seq<seq<int>>, pos: seq<int>, heap: seq<Node>, top: Node)
    requires ValidPos(chunks, pos) && multiset(heap) == Heads(chunks, pos, |chunks|)
    requires forall j :: 0 <= j < |heap| ==> NodeLe(top, heap[j])
    requires Ascending(chunks)
    ensures forall c, q :: 0 <= c < |chunks| && 0 <= q && pos[c] <= q < |chunks[c]| ==> top.val <= chunks[c][q]
  {
    forall c, q | 0 <= c < |chunks| && 0 <= q && pos[c] <= q < |chunks[c]| ensures top.val <= chunks[c][q] {
      HeadsContain(chunks, pos, |chunks|, c);
      var nd := Node(chunks[c][pos[c]], c, pos[c]);
      assert nd in multiset(heap);
      var j :| 0 <= j < |heap| && heap[j] == nd;
      assert NodeLe(top, heap[j]);
    }
  }

  /** Every value emitted so far is at most every value not yet emitted. */
  ghost predicate EmittedBelow(out: seq<int>, chunks: seq<seq<int>>, pos: seq<int>)
    requires |pos| == |chunks|
  {
    forall j, c, q :: 0 <= j < |out| && 0 <= c < |chunks| && 0 <= q && pos[c] <= q < |chunks[c]| ==> out[j] <= chunks[c][q]
  }

  /** Emitting a value v that is at most every value left keeps the output ascending and below
      what is left. */
  lemma {:induction false} EmitKeepsOrder(out: seq<int>, v: int, chunks: seq<seq<int>>, pos: seq<int>, p: seq<int>, c: int)
    requires |pos| == |chunks| && 0 <= c < |chunks| && p == pos[c := pos[c] + 1]
    requires Sorted(out, true) && EmittedBelow(out, chunks, pos)
    requires 0 <= pos[c] < |chunks[c]| && v == chunks[c][pos[c]]
    requires forall d, q :: 0 <= d < |chunks| && 0 <= q && pos[d] <= q < |chunks[d]| ==> v <= chunks[d][q]
    ensures Sorted(out + [v], true) && EmittedBelow(out + [v], chunks, p)
  {
    var o := out + [v];
    forall j, d, q | 0 <= j < |o| && 0 <= d < |chunks| && 0 <= q && p[d] <= q < |chunks[d]| ensures o[j] <= chunks[d][q] {
      assert pos[d] <= p[d];
      if j < |out| {
        assert o[j] == out[j];
      }
    }
  }

  /** The positions before anything is emitted. */
  ghost function Start(chunks: seq<seq<int>>): (pos: seq<int>)
    ensures |pos| == |chunks| && forall c :: 0 <= c < |pos| ==> pos[c] == 0
  {
    seq(|chunks|, c => 0)
  }

  /** The state of the merge loop: the heap holds the next node of every chunk not used up,
      and out (what fully_sorted holds so far) and the values left are the gathered values,
      n of them. */
  ghost predicate MergeInv(chunks: seq<seq<int>>, pos: seq<int>, heap: seq<Node>, out: seq<int>, n: int) {
    ValidPos(chunks, pos) &&
    multiset(heap) == Heads(chunks, pos, |chunks|) &&
    |out| + Remaining(chunks, pos, |chunks|) == n &&
    multiset(out) + Rest(chunks, pos, |chunks|) == multiset(Flatten(chunks, |chunks|))
  }

  /** The order the merge keeps when the chunks ascend: out ascends and stays below what is left. */
  ghost predicate OrderInv(chunks: seq<seq<int>>, pos: seq<int>, out: seq<int>) {
    |pos| == |chunks| && (Ascending(chunks) ==> Sorted(out, true) && EmittedBelow(out, chunks, pos))
  }

  /** The top of a non-empty heap is the next node of a chunk not used up, so a value is left. */
  lemma {:induction false} TopIsHead(chunks: seq<seq<int>>, pos: seq<int>, heap: seq<Node>, out: seq<int>, n: int)
    requires MergeInv(chunks, pos, heap, out, n) && |heap| > 0
    ensures var top := heap[MinAt(heap)];
      0 <= top.chunk < |chunks| && top.ind == pos[top.chunk] && 0 <= top.ind < |chunks[top.chunk]| &&
      top.val == chunks[top.chunk][top.ind] && |out| < n
  {
    var top := heap[MinAt(heap)];
    assert top in multiset(heap);
    HeadsMember(chunks, pos, |chunks|, top);
    RemainingCovers(chunks, pos, |chunks|, top.chunk);
  }

  /** Popping the top, a node of chunk c, and pushing the chunk's following node, if any, keeps
      the heap holding the next node of every chunk not used up. */
  lemma {:induction false} PopPushHeads(chunks: seq<seq<int>>, pos: seq<int>, p: seq<int>, heap: seq<Node>, m: int, c: int)
    requires |pos| == |chunks| && multiset(heap) == Heads(chunks, pos, |chunks|)
    requires 0 <= m < |heap| && 0 <= c < |chunks| && 0 <= pos[c] < |chunks[c]|
    requires heap[m] == Node(chunks[c][pos[c]], c, pos[c]) && p == pos[c := pos[c] + 1]
    ensures multiset(RemoveAt(heap, m) + Refill(chunks, c, p[c])) == Heads(chunks, p, |chunks|)
  {
    AdvanceHeads(chunks, pos, p, |chunks|, c);
    MultisetCancel(multiset(RemoveAt(heap, m)), Heads(chunks, p, |chunks|), Heads(chunks, pos, |chunks|),
      multiset{heap[m]}, HeadOf(chunks, c, p[c]));
  }

  /** One round of the loop: popping the top, emitting its value and pushing the next node of
      its chunk keeps the heap and the values. */
  lemma {:induction false} MergeStep(chunks: seq<seq<int>>, pos: seq<int>, heap: seq<Node>, out: seq<int>, n: int,
                  pos': seq<int>, heap': seq<Node>, out': seq<int>)
    requires MergeInv(chunks, pos, heap, out, n) && |heap| > 0
    requires var top := heap[MinAt(heap)];
      0 <= top.chunk < |chunks| && 0 <= top.ind &&
      pos' == pos[top.chunk := top.ind + 1] &&
      heap' == RemoveAt(heap, MinAt(heap)) + Refill(chunks, top.chunk, top.ind + 1) &&
      out' == out + [top.val]
    ensures MergeInv(chunks, pos', heap', out', n)
  {
    var m := MinAt(heap);
    var c := heap[m].chunk;
    TopIsHead(chunks, pos, heap, out, n);
    assert ValidPos(chunks, pos') by {
      forall j | 0 <= j < |pos'| ensures 0 <= pos'[j] <= |chunks[j]| {
        if j != c {
          assert pos'[j] == pos[j];
        }
      }
    }
    PopPushHeads(chunks, pos, pos', heap, m, c);
    AdvanceRest(chunks, pos, pos', |chunks|, c);
    AdvanceRemaining(chunks, pos, pos', |chunks|, c);
  }

  /** One round of the loop keeps the order: the popped value is the least one left. */
  lemma {:induction false} OrderStep(chunks: seq<seq<int>>, pos: seq<int>, heap: seq<Node>, out: seq<int>, n: int,
                  pos': seq<int>, out': seq<int>)
    requires MergeInv(chunks, pos, heap, out, n) && OrderInv(chunks, pos, out) && |heap| > 0
    requires var top := heap[MinAt(heap)];
      0 <= top.chunk < |chunks| && pos' == pos[top.chunk := top.ind + 1] && out' == out + [top.val]
    ensures OrderInv(chunks, pos', out')
  {
    var top := heap[MinAt(heap)];
    TopIsHead(chunks, pos, heap, out, n);
    if Ascending(chunks) {
      TopIsLeast(chunks, pos, heap, top);
      EmitKeepsOrder(out, top.val, chunks, pos, pos', top.chunk);
    }
  }

  /** One round of the loop keeps both invariants. */
  lemma {:induction false} RoundKeeps(chunks: seq<seq<int>>, pos: seq<int>, heap: seq<Node>, out: seq<int>, n: int,
                   top: Node, pos': seq<int>, heap': seq<Node>, out': seq<int>)
    requires MergeInv(chunks, pos, heap, out, n) && OrderInv(chunks, pos, out) && |heap| > 0
    requires top == heap[MinAt(heap)] && 0 <= top.chunk < |chunks| && 0 <= top.ind
    requires heap' == RemoveAt(heap, MinAt(heap)) + Refill(chunks, top.chunk, top.ind + 1)
    requires pos' == pos[top.chunk := top.ind + 1] && out' == out + [top.val]
    ensures MergeInv(chunks, pos', heap', out', n) && OrderInv(chunks, pos', out')
  {
    MergeStep(chunks, pos, heap, out, n, pos', heap', out');
    OrderStep(chunks, pos, heap, out, n, pos', out');
  }

  /** Before the loop: every chunk's first node is in the heap and nothing is emitted. */
  lemma {:induction false} MergeStarts(chunks: seq<seq<int>>, localN: int, heap: seq<Node>)
    requires 1 <= localN && forall c :: 0 <= c < |chunks| ==> |chunks[c]| == localN
    requires multiset(heap) == Heads(chunks, Start(chunks), |chunks|)
    ensures MergeInv(chunks, Start(chunks), heap, [], |chunks| * localN)
    ensures OrderInv(chunks, Start(chunks), [])
  {
    FlattenLength(chunks, |chunks|, localN);
    NoneUsed(chunks, Start(chunks), |chunks|);
  }

  /** After the loop: an empty heap means every chunk is used up, so out is all of the gathered
      values. */
  lemma {:induction false} MergeEnds(chunks: seq<seq<int>>, pos: seq<int>, heap: seq<Node>, out: seq<int>, n: int)
    requires MergeInv(chunks, pos, heap, out, n) && OrderInv(chunks, pos, out) && |heap| == 0
    ensures |out| == n && multiset(out) == multiset(Flatten(chunks, |chunks|))
    ensures Ascending(chunks) ==> Sorted(out, true)
  {
    forall c | 0 <= c < |chunks| ensures pos[c] == |chunks[c]| {
      if pos[c] < |chunks[c]| {
        HeadsContain(chunks, pos, |chunks|, c);
      }
    }
    AllUsed(chunks, pos, |chunks|);
  }

  /** Two sequences of one length that agree at every index are equal. */
  lemma {:induction false} SameEntries(a: seq<int>, b: seq<int>)
    requires |a| == |b| && forall j :: 0 <= j < |b| ==> a[j] == b[j]
    ensures a == b
  {
  }

  /** The first loop of the merge: the first node of every chunk is pushed. */
  method FirstNodes(chunks: seq<seq<int>>) returns (heap: seq<Node>)
    requires forall c :: 0 <= c < |chunks| ==> |chunks[c]| >= 1
    ensures multiset(heap) == Heads(chunks, Start(chunks), |chunks|)
  {
    ghost var zero := Start(chunks);
    heap := [];
    var i := 0;
    while i < |chunks|
      invariant 0 <= i <= |chunks|
      invariant multiset(heap) == Heads(chunks, zero, i)
    {
      heap := heap + [Node(chunks[i][0], i, 0)];
      i := i + 1;
    }
  }

  /** One round of the merge loop without the output: top() and pop(), then the push of the
      popped chunk's next node when that chunk has one (its index is below local_n). */
  method PopPush(chunks: seq<seq<int>>, localN: int, heap: seq<Node>) returns (top: Node, heap': seq<Node>)
    requires |heap| > 0
    requires var t := heap[MinAt(heap)]; 0 <= t.chunk < |chunks| && 0 <= t.ind && |chunks[t.chunk]| == localN
    ensures top == heap[MinAt(heap)]
    ensures heap' == RemoveAt(heap, MinAt(heap)) + Refill(chunks, top.chunk, top.ind + 1)
  {
    var m := MinAt(heap);
    top := heap[m];
    heap' := RemoveAt(heap, m);
    var chunk := top.chunk;
    var ind := top.ind + 1;
    if ind < localN {
      heap' := heap' + [Node(chunks[chunk][ind], chunk, ind)];
    }
  }

  /** One round of the merge loop: the top's value goes to fully_sorted[idx] and idx moves
      one on; the heap, the emitted values and the positions keep the loop's invariants. */
  method Round(chunks: seq<seq<int>>, localN: int, fullySorted: array<int>, heap: seq<Node>, idx: int,
               ghost pos: seq<int>, ghost out: seq<int>, ghost n: int)
    returns (heap': seq<Node>, idx': int, ghost pos': seq<int>, ghost out': seq<int>)
    requires forall c :: 0 <= c < |chunks| ==> |chunks[c]| == localN
    requires MergeInv(chunks, pos, heap, out, n) && OrderInv(chunks, pos, out) && |heap| > 0
    requires |out| == idx <= n == fullySorted.Length
    requires forall j :: 0 <= j < idx ==> fullySorted[j] == out[j]
    modifies fullySorted
    ensures MergeInv(chunks, pos', heap', out', n) && OrderInv(chunks, pos', out')
    ensures |out'| == idx' <= n && idx' == idx + 1
    ensures forall j :: 0 <= j < idx' ==> fullySorted[j] == out'[j]
  {
    TopIsHead(chunks, pos, heap, out, n);
    var top;
    top, heap' := PopPush(chunks, localN, heap);
    fullySorted[idx] := top.val;
    idx' := idx + 1;
    out' := out + [top.val];
    pos' := pos[top.chunk := top.ind + 1];
    RoundKeeps(chunks, pos, heap, out, n, top, pos', heap', out');
  }

  /** The merge loop of rank 0. Every chunk holds local_n >= 1 values. fully_sorted gets
      exactly the gathered values, in ascending order whenever every chunk ascends. */
  method HeapMerge(chunks: seq<seq<int>>, localN: int) returns (fullySorted: array<int>)
    requires 1 <= localN && forall c :: 0 <= c < |chunks| ==> |chunks[c]| == localN
    ensures multiset(fullySorted[..]) == multiset(Flatten(chunks, |chunks|))
    ensures Ascending(chunks) ==> Sorted(fullySorted[..], true)
  {
    var size := |chunks|;
    var n := size * localN;
    fullySorted := new int[n];
    var heap := FirstNodes(chunks);
    MergeStarts(chunks, localN, heap);
    ghost var pos := Start(chunks);
    ghost var out: seq<int> := [];
    var idx := 0;
    while |heap| > 0
      invariant MergeInv(chunks, pos, heap, out, n) && OrderInv(chunks, pos, out)
      invariant |out| == idx <= n == fullySorted.Length
      invariant forall j :: 0 <= j < idx ==> fullySorted[j] == out[j]
      decreases n - idx
    {
      heap, idx, pos, out := Round(chunks, localN, fullySorted, heap, idx, pos, out, n);
    }
    MergeEnds(chunks, pos, heap, out, n);
    SameEntries(fullySorted[..], out);
  }
}
