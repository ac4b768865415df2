/** linearSeach.py: the linear search, the list of distinct random values it is timed on, and
    the best and worst case arrangements that put the key first or last. random.randint and
    random.choice are inputs here: makeMyList reads its draws from a sequence, and the key is
    any value of the list. */
module LinearSearch {
  import opened Sets

  /** LinearSearch(myList, key): scan from the front and stop at the first match. */
  method Search(myList: seq<int>, key: int) returns (found: bool)
    ensures found <==> key in myList
  {
    var idx := 0;
    while idx < |myList|
      invariant 0 <= idx <= |myList| && key !in myList[..idx]
    {
      if myList[idx] == key {
        return true;
      }
      assert myList[..idx + 1] == myList[..idx] + [myList[idx]];
      idx := idx + 1;
    }
    assert myList[..idx] == myList;
    return false;
  }

  predicate Distinct(s: seq<int>) {
    forall i, j :: 0 <= i < j < |s| ==> s[i] != s[j]
  }

  /** The integers 0 .. n - 1. */
  ghost function Range(n: nat): (r: set<int>)
    ensures |r| == n && forall x :: x in r <==> 0 <= x < n
  {
    if n == 0 then {} else Range(n - 1) + {n - 1}
  }

  /** The values of s, as a set. */
  ghost function Values(s: seq<int>): set<int> {
    set x | x in s
  }

  /** A sequence without repeats has as many distinct values as entries. */
  lemma {:induction false} DistinctCard(s: seq<int>)
    requires Distinct(s)
    ensures |Values(s)| == |s|
    decreases |s|
  {
    if |s| > 0 {
      var t := s[..|s| - 1];
      DistinctCard(t);
      assert Values(s) == Values(t) + {s[|s| - 1]};
      assert s[|s| - 1] !in Values(t);
    }
  }

  /** A list without repeats that holds every value 0 .. n - 1 has at least n entries. */
  lemma Covered(s: seq<int>, n: nat)
    requires Distinct(s) && forall v :: 0 <= v < n ==> v in s
    ensures |s| >= n
  {
    DistinctCard(s);
    SubsetCard(Range(n), Values(s));
  }

  /** makeMyList(n_size): n_size - 1 distinct values are wanted; each draw in 0 .. n_size - 2
      is appended unless the list already holds it. The loop stops when enough are collected
      or the draws run out. Once every wanted value has been drawn, the list is complete. */
  method MakeMyList(nSize: int, draws: seq<int>) returns (myList: seq<int>, used: nat)
    requires nSize >= 1
    requires forall i :: 0 <= i < |draws| ==> 0 <= draws[i] <= nSize - 2
    ensures used <= |draws| && |myList| <= nSize - 1
    ensures Distinct(myList) && forall i :: 0 <= i < |myList| ==> 0 <= myList[i] <= nSize - 2
    ensures forall v :: v in myList <==> v in draws[..used]
    ensures |myList| == nSize - 1 || used == |draws|
    ensures (forall v :: 0 <= v < nSize - 1 ==> v in draws) ==> |myList| == nSize - 1
  {
    var n := nSize - 1;
    var counter := 0;
    myList := [];
    used := 0;
    while counter != n && used < |draws|
      invariant 0 <= counter == |myList| <= n && used <= |draws|
      invariant Distinct(myList) && forall i :: 0 <= i < |myList| ==> 0 <= myList[i] < n
      invariant forall v :: v in myList <==> v in draws[..used]
    {
      var k := draws[used];
      var present := Search(myList, k);
      if !present {
        myList := myList + [k];
        counter := counter + 1;
      }
      assert draws[..used + 1] == draws[..used] + [k];
      used := used + 1;
    }
    if forall v :: 0 <= v < n ==> v in draws {
      if counter != n {
        assert draws[..used] == draws;
        Covered(myList, n);
      }
    }
  }

  /** list.remove(key): the list without the first occurrence of key. */
  function RemoveFirst(s: seq<int>, key: int): (r: seq<int>)
    requires key in s
    ensures |r| == |s| - 1 && multiset(r) + multiset{key} == multiset(s)
  {
    assert s == [s[0]] + s[1..];
    if s[0] == key then s[1..] else [s[0]] + RemoveFirst(s[1..], key)
  }

  /** bestCase: the key moved to the front, then searched for; the search finds it. The
      timing is not modelled. */
  method BestCase(myList: seq<int>, key: int) returns (arranged: seq<int>, found: bool)
    requires key in myList
    ensures arranged == [key] + RemoveFirst(myList, key)
    ensures arranged[0] == key && multiset(arranged) == multiset(myList)
    ensures found
  {
    arranged := [key] + RemoveFirst(myList, key);
    found := Search(arranged, key);
  }

  /** worstCase: the key moved to the back, then searched for; the search finds it. */
  method WorstCase(myList: seq<int>, key: int) returns (arranged: seq<int>, found: bool)
    requires key in myList
    ensures arranged == RemoveFirst(myList, key) + [key]
    ensures arranged[|arranged| - 1] == key && multiset(arranged) == multiset(myList)
    ensures found
  {
    arranged := RemoveFirst(myList, key) + [key];
    found := Search(arranged, key);
  }
}
