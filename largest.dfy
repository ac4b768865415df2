/** The two maximum searches: largestA in largestA.py, a linear scan from a sentinel, and the
    tournament of largestB.py (also named largestA there), which overwrites the front of the
    list with pair winners until one value is left. */
module Largest {
  import opened BitonicSpec

  /** The sentinel largestA starts from. */
  const Sentinel := -1000000

  /** The greatest of the sentinel and the values of s. */
  function MaxFrom(start: int, s: seq<int>): (r: int)
    ensures r >= start && forall i :: 0 <= i < |s| ==> r >= s[i]
    ensures r == start || exists i :: 0 <= i < |s| && r == s[i]
  {
    if |s| == 0 then start else Max(MaxFrom(start, s[..|s| - 1]), s[|s| - 1])
  }

  /** The greatest value of a non-empty s. */
  function MaxOf(s: seq<int>): (r: int)
    requires |s| > 0
    ensures forall i :: 0 <= i < |s| ==> r >= s[i]
    ensures exists i :: 0 <= i < |s| && r == s[i]
  {
    MaxFrom(s[0], s[1..])
  }

  /** largestA(list, N): the scan keeps the greatest value seen, from the sentinel on. */
  method LargestA(list: seq<int>, n: int) returns (largest: int)
    requires n <= |list|
    ensures n <= 0 ==> largest == Sentinel
    ensures n > 0 ==> largest == MaxFrom(Sentinel, list[..n])
  {
    largest := Sentinel;
    var idx := 0;
    while idx < n
      invariant 0 <= idx && (n > 0 ==> idx <= n) && (n <= 0 ==> idx == 0)
      invariant largest == MaxFrom(Sentinel, list[..idx])
    {
      if list[idx] > largest {
        largest := list[idx];
      }
      assert list[..idx + 1][..idx] == list[..idx];
      idx := idx + 1;
    }
    if n > 0 {
      assert list[..idx] == list[..n];
    }
  }

  /** The result of largestA is at least every entry among the first N and, once one of them
      exceeds the sentinel, equals one of them. */
  lemma LargestAIsMax(list: seq<int>, n: int)
    requires 0 < n <= |list|
    ensures forall i :: 0 <= i < n ==> MaxFrom(Sentinel, list[..n]) >= list[i]
    ensures (exists i :: 0 <= i < n && list[i] > Sentinel) ==>
      exists i :: 0 <= i < n && MaxFrom(Sentinel, list[..n]) == list[i]
  {
    var r := MaxFrom(Sentinel, list[..n]);
    forall i | 0 <= i < n ensures r >= list[i] {
      assert list[..n][i] == list[i];
    }
    if exists i :: 0 <= i < n && list[i] > Sentinel {
      var k :| 0 <= k < n && list[k] > Sentinel;
      assert list[..n][k] == list[k];
      var j :| 0 <= j < n && r == list[..n][j];
      assert r == list[j];
    }
  }

  /** One round's winners: the greater of each pair, then an odd last value carried over. */
  function Winners(s: seq<int>): (r: seq<int>)
    ensures |r| == (|s| + 1) / 2
  {
    if |s| <= 1 then s else [Max(s[0], s[1])] + Winners(s[2..])
  }

  /** A round keeps the greatest value. */
  lemma {:induction false} WinnersKeepMax(s: seq<int>)
    requires |s| > 0
    ensures MaxOf(Winners(s)) == MaxOf(s)
  {
    if |s| > 2 {
      var a, m := Max(s[0], s[1]), MaxOf(s[2..]);
      assert MaxOf(Winners(s)) == Max(a, m) by {
        WinnersKeepMax(s[2..]);
        assert Winners(s) == [a] + Winners(s[2..]);
        MaxCons(a, Winners(s[2..]));
      }
      assert MaxOf(s) == Max(a, m) by {
        assert s == [s[0]] + s[1..] && s[1..] == [s[1]] + s[2..];
        MaxCons(s[0], s[1..]);
        MaxCons(s[1], s[2..]);
      }
    } else if |s| == 2 {
      assert s == [s[0]] + s[1..];
      MaxCons(s[0], s[1..]);
      MaxOfIs(s[1..], s[1]);
    }
  }

  /** The maximum of a value followed by a non-empty sequence. */
  lemma MaxCons(a: int, t: seq<int>)
    requires |t| > 0
    ensures MaxOf([a] + t) == Max(a, MaxOf(t))
  {
    var m := Max(a, MaxOf(t));
    forall i | 0 <= i < |[a] + t| ensures ([a] + t)[i] <= m {
      if i > 0 {
        assert ([a] + t)[i] == t[i - 1];
      }
    }
    var k :| 0 <= k < |t| && MaxOf(t) == t[k];
    assert ([a] + t)[k + 1] == t[k];
    MaxOfIs([a] + t, m);
  }

  /** A value of s that is at least every value of s is its maximum. */
  lemma MaxOfIs(s: seq<int>, m: int)
    requires m in s && forall i :: 0 <= i < |s| ==> s[i] <= m
    ensures MaxOf(s) == m
  {
  }

  /** One round of the outer loop: the inner loop writes the winner of pair (pos, pos + 1) at
      posN = pos / 2, then an odd last value at the next slot. Every slot is written only
      after the slots it reads, so the front of the list becomes the round's winners. */
  method Round(myList: array<int>, n: int) returns (n': int)
    requires 1 < n <= myList.Length
    modifies myList
    ensures n' == (n + 1) / 2 && 1 <= n' < n
    ensures myList[..n'] == Winners(old(myList[..n]))
    ensures forall k :: n' <= k < myList.Length ==> myList[k] == old(myList[k])
  {
    ghost var s := myList[..n];
    var pos := 0;
    var posN := -1;
    while pos < n - 1
      invariant 0 <= pos <= n && pos % 2 == 0 && posN == pos / 2 - 1
      invariant forall k :: 0 <= k < pos / 2 ==> myList[k] == Winners(s)[k]
      invariant forall k :: pos / 2 <= k < myList.Length ==> myList[k] == old(myList[k])
    {
      posN := posN + 1;
      WinnerAt(s, pos);
      if myList[pos] > myList[pos + 1] {
        myList[posN] := myList[pos];
      } else {
        myList[posN] := myList[pos + 1];
      }
      pos := pos + 2;
    }
    if pos == n - 1 {
      posN := posN + 1;
      LastCarried(s);
      myList[posN] := myList[pos];
    }
    n' := posN + 1;
    assert myList[..n'] == Winners(s);
  }

  lemma {:induction false} WinnerAt(s: seq<int>, pos: int)
    requires 0 <= pos && pos + 1 < |s| && pos % 2 == 0
    ensures Winners(s)[pos / 2] == Max(s[pos], s[pos + 1])
  {
    if pos >= 2 {
      WinnerAt(s[2..], pos - 2);
    }
  }

  lemma {:induction false} LastCarried(s: seq<int>)
    requires |s| % 2 == 1
    ensures Winners(s)[|s| / 2] == s[|s| - 1]
    decreases |s|
  {
    if |s| > 1 {
      LastCarried(s[2..]);
    }
  }

  /** largestA of largestB.py: rounds until one value is left, then myList[0]. */
  method LargestB(myList: array<int>, n: int) returns (r: int)
    requires 1 <= myList.Length && n <= myList.Length
    modifies myList
    ensures n >= 1 ==> r == MaxOf(old(myList[..n]))
    ensures n <= 1 ==> r == old(myList[0])
    ensures n >= 1 ==> myList[n..] == old(myList[n..])
  {
    var m := n;
    while m > 1
      invariant (n >= 1 ==> 1 <= m <= n) && (n < 1 ==> m == n)
      invariant n >= 1 ==> MaxOf(myList[..m]) == MaxOf(old(myList[..n]))
      invariant forall k :: n <= k < myList.Length && 0 <= k ==> myList[k] == old(myList[k])
      invariant n <= 1 ==> myList[0] == old(myList[0])
      decreases m
    {
      ghost var s := myList[..m];
      WinnersKeepMax(s);
      m := Round(myList, m);
    }
    r := myList[0];
    if n >= 1 {
      assert myList[n..] == old(myList[n..]);
      assert myList[..m] == [myList[0]];
    }
  }
}
