/** pigenholeSort(myList, n, maX) of pigeonholeSort.py: count every value of myList[0 .. n)
    in the holes 0 .. maX, then overwrite the first n entries, hole by hole. A value t is
    counted in hole[t]; Python reads a negative t from the end of hole, so t = -1 lands in hole
    maX. */
module PigeonholeSort {
  import opened BitonicSpec

  /** The number of holes, len(range(0, maX + 1)). */
  function Holes(maX: int): (h: nat)
    ensures maX >= 0 ==> h == maX + 1
  {
    if maX >= 0 then maX + 1 else 0
  }

  /** The hole hole[t] names, Python's negative indexing included. */
  function Slot(t: int, maX: int): int {
    if t < 0 then t + maX + 1 else t
  }

  /** The hole of every value, in order. */
  function Slots(s: seq<int>, maX: int): (r: seq<int>)
    ensures |r| == |s| && forall i :: 0 <= i < |s| ==> r[i] == Slot(s[i], maX)
  {
    if |s| == 0 then [] else Slots(s[..|s| - 1], maX) + [Slot(s[|s| - 1], maX)]
  }

  /** The number of occurrences of v in s. */
  function CountOf(s: seq<int>, v: int): nat {
    if |s| == 0 then 0 else CountOf(s[..|s| - 1], v) + (if s[|s| - 1] == v then 1 else 0)
  }

  /** The counts the first loop leaves in hole. */
  function Counts(s: seq<int>, maX: int): (c: seq<nat>)
    ensures |c| == Holes(maX)
    ensures forall v :: 0 <= v < |c| ==> c[v] == CountOf(Slots(s, maX), v)
  {
    seq(Holes(maX), v => CountOf(Slots(s, maX), v))
  }

  /** count copies of v. */
  function Repeat(v: int, count: nat): (r: seq<int>)
    ensures |r| == count
    ensures forall i :: 0 <= i < |r| ==> r[i] == v
  {
    if count == 0 then [] else Repeat(v, count - 1) + [v]
  }

  /** What the write-back loop has written once holes 0 .. j are done: hole v's count of
      copies of v, for every v < j in turn. */
  function Expand(h: seq<nat>, j: int): (r: seq<int>)
    requires 0 <= j <= |h|
  {
    if j == 0 then [] else Expand(h, j - 1) + Repeat(j - 1, h[j - 1])
  }

  /** The whole result: the counted values written back in hole order. */
  function CountingSort(s: seq<int>, maX: int): seq<int> {
    Expand(Counts(s, maX), Holes(maX))
  }

  lemma {:induction false} ExpandGrows(h: seq<nat>, j: int, k: int)
    requires 0 <= j <= k <= |h|
    ensures |Expand(h, j)| <= |Expand(h, k)|
    decreases k
  {
    if j < k {
      ExpandGrows(h, j, k - 1);
    }
  }

  /** The written prefix is non-decreasing and holds only hole numbers below j. */
  lemma {:induction false} ExpandSorted(h: seq<nat>, j: int)
    requires 0 <= j <= |h|
    ensures Sorted(Expand(h, j), true)
    ensures forall i :: 0 <= i < |Expand(h, j)| ==> 0 <= Expand(h, j)[i] < j
  {
    if j > 0 {
      ExpandSorted(h, j - 1);
      var a, b := Expand(h, j - 1), Repeat(j - 1, h[j - 1]);
      assert Expand(h, j) == a + b;
      forall p, q | 0 <= p < q < |a + b| ensures (a + b)[p] <= (a + b)[q] {
        if q < |a| {
          assert Sorted(a, true);
        }
      }
    }
  }

  lemma {:induction false} CountAppend(a: seq<int>, b: seq<int>, v: int)
    ensures CountOf(a + b, v) == CountOf(a, v) + CountOf(b, v)
    decreases |b|
  {
    if |b| > 0 {
      assert (a + b)[..|a + b| - 1] == a + b[..|b| - 1];
      CountAppend(a, b[..|b| - 1], v);
    } else {
      assert a + b == a;
    }
  }

  /** CountOf is the multiplicity in the multiset of the sequence. */
  lemma {:induction false} CountIsMultiplicity(s: seq<int>, v: int)
    ensures CountOf(s, v) == multiset(s)[v]
    decreases |s|
  {
    if |s| > 0 {
      CountIsMultiplicity(s[..|s| - 1], v);
      assert s == s[..|s| - 1] + [s[|s| - 1]];
    }
  }

  /** Value v occurs h[v] times in the written prefix when v < j, and not at all otherwise. */
  lemma {:induction false} ExpandCount(h: seq<nat>, j: int, v: int)
    requires 0 <= j <= |h|
    ensures CountOf(Expand(h, j), v) == if 0 <= v < j then h[v] else 0
  {
    if j > 0 {
      ExpandCount(h, j - 1, v);
      RepeatCount(j - 1, h[j - 1], v);
      CountAppend(Expand(h, j - 1), Repeat(j - 1, h[j - 1]), v);
    }
  }

  lemma {:induction false} RepeatCount(w: int, count: nat, v: int)
    ensures CountOf(Repeat(w, count), v) == if v == w then count else 0
    decreases count
  {
    if count > 0 {
      RepeatCount(w, count - 1, v);
      CountAppend(Repeat(w, count - 1), [w], v);
    }
  }

  /** With every value's hole inside the holes, the result is a non-decreasing arrangement of
      exactly the counted holes, one entry per value. */
  lemma CountingSortCorrect(s: seq<int>, maX: int)
    requires forall i :: 0 <= i < |s| ==> -(maX + 1) <= s[i] <= maX
    ensures Sorted(CountingSort(s, maX), true)
    ensures multiset(CountingSort(s, maX)) == multiset(Slots(s, maX))
    ensures |CountingSort(s, maX)| == |s|
  {
    var c := Counts(s, maX);
    ExpandSorted(c, |c|);
    forall v ensures CountOf(CountingSort(s, maX), v) == CountOf(Slots(s, maX), v) {
      ExpandCount(c, |c|, v);
      if !(0 <= v < |c|) {
        CountAbsent(Slots(s, maX), v);
      }
    }
    SameCounts(CountingSort(s, maX), Slots(s, maX));
  }

  lemma {:induction false} CountAbsent(s: seq<int>, v: int)
    requires forall i :: 0 <= i < |s| ==> s[i] != v
    ensures CountOf(s, v) == 0
    decreases |s|
  {
    if |s| > 0 {
      CountAbsent(s[..|s| - 1], v);
    }
  }

  /** Sequences with the same count of every value are permutations of each other. */
  lemma SameCounts(a: seq<int>, b: seq<int>)
    requires forall v :: CountOf(a, v) == CountOf(b, v)
    ensures multiset(a) == multiset(b) && |a| == |b|
  {
    forall v ensures multiset(a)[v] == multiset(b)[v] {
      CountIsMultiplicity(a, v);
      CountIsMultiplicity(b, v);
    }
    assert multiset(a) == multiset(b);
    assert |multiset(a)| == |multiset(b)|;
  }

  /** For values inside 0 .. maX the holes are the values, so the result is a sorted
      permutation of the input. */
  lemma SortsInRange(s: seq<int>, maX: int)
    requires forall i :: 0 <= i < |s| ==> 0 <= s[i] <= maX
    ensures Sorted(CountingSort(s, maX), true)
    ensures multiset(CountingSort(s, maX)) == multiset(s)
  {
    CountingSortCorrect(s, maX);
    assert Slots(s, maX) == s;
  }

  /** The inner loop `for k in range(hole[j])`: count copies of j from idx on. */
  method Fill(myList: array<int>, idx: int, j: int, count: int) returns (idx': int)
    requires 0 <= idx && 0 <= count && idx + count <= myList.Length
    modifies myList
    ensures idx' == idx + count
    ensures myList[..idx] == old(myList[..idx])
    ensures myList[idx..idx'] == Repeat(j, count)
    ensures myList[idx'..] == old(myList[idx'..])
  {
    idx' := idx;
    var k := 0;
    while k < count
      invariant 0 <= k <= count && idx' == idx + k
      invariant myList[..idx] == old(myList[..idx])
      invariant myList[idx..idx'] == Repeat(j, k)
      invariant myList[idx + count..] == old(myList[idx + count..])
    {
      myList[idx'] := j;
      idx' := idx' + 1;
      k := k + 1;
    }
  }

  /** One round of the write-back loop keeps its invariant: after hole j, the prefix is
      Expand(h, j + 1). */
  lemma FilledHole(before: seq<int>, after: seq<int>, h: seq<nat>, j: int, idx': int, m: int)
    requires 0 <= j < |h| && |Expand(h, j)| + h[j] <= m <= |before| == |after|
    requires before[..|Expand(h, j)|] == Expand(h, j)
    requires idx' == |Expand(h, j)| + h[j]
    requires after[..|Expand(h, j)|] == before[..|Expand(h, j)|]
    requires after[|Expand(h, j)|..idx'] == Repeat(j, h[j])
    requires after[idx'..] == before[idx'..]
    ensures after[..idx'] == Expand(h, j + 1) && |Expand(h, j + 1)| == idx'
    ensures after[m..] == before[m..]
  {
    var idx := |Expand(h, j)|;
    assert after[..idx'] == after[..idx] + after[idx..idx'];
    assert after[m..] == after[idx'..][m - idx'..];
    assert before[m..] == before[idx'..][m - idx'..];
  }

  /** One round of the write-back loop: `if hole[j] > 0`, count copies of j from idx on. */
  method WriteHole(myList: array<int>, j: int, count: nat, idx: int, ghost h: seq<nat>, ghost m: int,
                   ghost rest: seq<int>) returns (idx': int)
    requires 0 <= j < |h| && count == h[j] && idx == |Expand(h, j)|
    requires |Expand(h, j + 1)| <= m <= myList.Length
    requires myList[..idx] == Expand(h, j) && myList[..][m..] == rest
    modifies myList
    ensures idx' == |Expand(h, j + 1)| && myList[..idx'] == Expand(h, j + 1)
    ensures myList[..][m..] == rest
  {
    ghost var before := myList[..];
    idx' := idx;
    if count > 0 {
      idx' := Fill(myList, idx, j, count);
    }
    FilledHole(before, myList[..], h, j, idx', m);
  }

  /** The counting loop: hole[v] becomes the number of values among myList[0 .. n) that land
      in hole v. */
  method Count(myList: array<int>, n: int, maX: int) returns (hole: array<int>)
    requires 0 <= n <= myList.Length
    requires forall i :: 0 <= i < n ==> -(maX + 1) <= myList[i] <= maX
    ensures fresh(hole) && hole[..] == Counts(myList[..n], maX)
  {
    hole := new int[Holes(maX)](v => 0);
    var i := 0;
    while i < n
      invariant 0 <= i <= n
      invariant forall v :: 0 <= v < hole.Length ==> hole[v] == CountOf(Slots(myList[..i], maX), v)
      modifies hole
    {
      var t := myList[i];
      assert myList[..i + 1][..i] == myList[..i];
      assert Slots(myList[..i + 1], maX) == Slots(myList[..i], maX) + [Slot(t, maX)];
      hole[Slot(t, maX)] := hole[Slot(t, maX)] + 1;
      i := i + 1;
    }
    assert myList[..i] == myList[..n];
  }

  /** pigenholeSort(myList, n, maX): the first n entries become CountingSort of what they
      held, the rest is untouched, and the list itself is returned. */
  method PigeonholeSortInPlace(myList: array<int>, n: int, maX: int) returns (r: array<int>)
    requires n <= myList.Length
    requires forall i :: 0 <= i < n ==> -(maX + 1) <= myList[i] <= maX
    modifies myList
    ensures r == myList
    ensures n >= 0 ==> myList[..n] == CountingSort(old(myList[..n]), maX) &&
                       myList[n..] == old(myList[n..])
    ensures n < 0 ==> myList[..] == old(myList[..])
  {
    var m := if n < 0 then 0 else n;
    ghost var s := myList[..m];
    var hole := Count(myList, m, maX);
    ghost var h := hole[..];
    assert |Expand(h, |h|)| == m by {
      CountingSortCorrect(s, maX);
    }
    ghost var rest := myList[..][m..];
    var idx := 0;
    var j := 0;
    while j < hole.Length
      invariant 0 <= j <= hole.Length && hole[..] == h
      invariant idx == |Expand(h, j)| <= m
      invariant myList[..idx] == Expand(h, j)
      invariant myList[..][m..] == rest
      modifies myList
    {
      ExpandGrows(h, j + 1, |h|);
      idx := WriteHole(myList, j, hole[j], idx, h, m, rest);
      j := j + 1;
    }
    assert myList[..m] == myList[..idx];
    assert myList[m..] == myList[..][m..];
    return myList;
  }
}
