// The digit keypads of kitchen.js and temp.js: a keystroke pushes a digit
// or pops one, and a full entry is compared with the code as joined digit
// strings — after sorting for the safe (any order), as is for the door.
module Keypad {
  import opened Text

  /** The safe's digits, accepted in any order. */
  const SafeCode: seq<int> := [3, 2, 5]
  /** The door's digits, accepted only in this order. */
  const DoorCode: seq<int> := [7, 4, 9, 1]

  /** `/^[0-9]$/.test(key)`: the key is exactly one decimal digit. */
  predicate IsDigitKey(key: string)
  {
    |key| == 1 && IsDigit(key[0])
  }

  predicate AreDigits(code: seq<int>)
  {
    forall i :: 0 <= i < |code| ==> 0 <= code[i] <= 9
  }

  /** One keystroke on a keypad holding at most capacity digits. */
  function KeyEntry(entered: seq<int>, key: string, capacity: nat): seq<int>
  {
    if IsDigitKey(key) && |entered| < capacity then entered + [DigitValue(key[0])]
    else if key == "Backspace" then (if entered == [] then [] else entered[..|entered| - 1])
    else entered
  }

  /** A keystroke keeps the entry within capacity and made of digits. */
  lemma KeyEntryBounds(entered: seq<int>, key: string, capacity: nat)
    requires AreDigits(entered) && |entered| <= capacity
    ensures AreDigits(KeyEntry(entered, key, capacity))
    ensures |KeyEntry(entered, key, capacity)| <= capacity
    ensures |KeyEntry(entered, key, capacity)| == |entered| + 1 <==> IsDigitKey(key) && |entered| < capacity
  {
  }

  /** `code.join("")` for single digits. */
  function JoinDigits(code: seq<int>): (r: string)
    requires AreDigits(code)
    ensures |r| == |code|
    ensures forall i :: 0 <= i < |code| ==> IsDigit(r[i]) && DigitValue(r[i]) == code[i]
  {
    seq(|code|, i requires 0 <= i < |code| => ('0' as int + code[i]) as char)
  }

  /** Joined digit strings are equal exactly when the digit sequences are. */
  lemma JoinDigitsInjective(a: seq<int>, b: seq<int>)
    requires AreDigits(a) && AreDigits(b)
    ensures JoinDigits(a) == JoinDigits(b) <==> a == b
  {
    if JoinDigits(a) == JoinDigits(b) {
      assert forall i :: 0 <= i < |a| ==> a[i] == DigitValue(JoinDigits(a)[i]) == b[i];
    }
  }

  predicate Sorted(s: seq<int>)
  {
    forall i, j :: 0 <= i < j < |s| ==> s[i] <= s[j]
  }

  function Insert(x: int, s: seq<int>): (r: seq<int>)
    ensures multiset(r) == multiset(s) + multiset{x}
    decreases |s|
  {
    if s == [] || x <= s[0] then [x] + s
    else
      assert s == [s[0]] + s[1..];
      [s[0]] + Insert(x, s[1..])
  }

  /** Every element of s is at least m. */
  predicate AtLeast(m: int, s: seq<int>)
  {
    forall k :: 0 <= k < |s| ==> m <= s[k]
  }

  lemma InsertAtLeast(m: int, x: int, s: seq<int>)
    requires AtLeast(m, s) && m <= x
    ensures AtLeast(m, Insert(x, s))
  {
    var r := Insert(x, s);
    forall k | 0 <= k < |r|
      ensures m <= r[k]
    {
      assert r[k] in multiset(s) + multiset{x};
      if r[k] != x {
        assert r[k] in s;
      }
    }
  }

  lemma ConsSorted(m: int, t: seq<int>)
    requires AtLeast(m, t) && Sorted(t)
    ensures Sorted([m] + t)
  {
    var r := [m] + t;
    forall i, j | 0 <= i < j < |r|
      ensures r[i] <= r[j]
    {
      assert r[j] == t[j - 1];
      if i > 0 {
        assert r[i] == t[i - 1];
      }
    }
  }

  /** Inserting into a sorted sequence keeps it sorted. */
  lemma {:induction false} InsertSorted(x: int, s: seq<int>)
    requires Sorted(s)
    ensures Sorted(Insert(x, s))
    decreases |s|
  {
    if s != [] && s[0] < x {
      InsertSorted(x, s[1..]);
      assert AtLeast(s[0], s[1..]) by {
        forall k | 0 <= k < |s[1..]|
          ensures s[0] <= s[1..][k]
        {
          assert s[1..][k] == s[k + 1];
        }
      }
      InsertAtLeast(s[0], x, s[1..]);
      ConsSorted(s[0], Insert(x, s[1..]));
    }
  }

  /**
   * `[...code].sort()`. JavaScript's default sort compares the elements as
   * strings, which on single digits is their numeric order.
   */
  function Sort(s: seq<int>): (r: seq<int>)
    ensures multiset(r) == multiset(s)
    ensures Sorted(r)
    decreases |s|
  {
    if s == [] then []
    else
      assert s == [s[0]] + s[1..];
      InsertSorted(s[0], Sort(s[1..]));
      Insert(s[0], Sort(s[1..]))
  }

  /** The head of a non-empty sorted sequence is its least element. */
  lemma HeadLeast(a: seq<int>, v: int)
    requires Sorted(a) && v in multiset(a)
    ensures a[0] <= v
  {
    var i :| 0 <= i < |a| && a[i] == v;
  }

  /** Dropping the head removes exactly one copy of it from the multiset. */
  lemma TailMultiset(a: seq<int>)
    requires a != []
    ensures multiset(a[1..]) == multiset(a) - multiset{a[0]}
  {
    assert a == [a[0]] + a[1..];
  }

  lemma SortedTail(a: seq<int>)
    requires Sorted(a) && a != []
    ensures Sorted(a[1..])
  {
    forall i, j | 0 <= i < j < |a[1..]|
      ensures a[1..][i] <= a[1..][j]
    {
      assert a[1..][i] == a[i + 1] && a[1..][j] == a[j + 1];
    }
  }

  /** Two sorted sequences with the same elements are the same sequence. */
  lemma {:induction false} SortedUnique(a: seq<int>, b: seq<int>)
    requires Sorted(a) && Sorted(b) && multiset(a) == multiset(b)
    ensures a == b
    decreases |a|
  {
    assert |a| == |multiset(a)| == |multiset(b)| == |b|;
    if a != [] {
      assert a[0] in multiset(a) && b[0] in multiset(b);
      HeadLeast(a, b[0]);
      HeadLeast(b, a[0]);
      assert a[0] == b[0];
      TailMultiset(a);
      TailMultiset(b);
      SortedTail(a);
      SortedTail(b);
      SortedUnique(a[1..], b[1..]);
      assert a == [a[0]] + a[1..] && b == [b[0]] + b[1..];
    }
  }

  lemma SortKeepsDigits(s: seq<int>)
    requires AreDigits(s)
    ensures AreDigits(Sort(s))
  {
    forall i | 0 <= i < |Sort(s)|
      ensures 0 <= Sort(s)[i] <= 9
    {
      assert Sort(s)[i] in multiset(s);
    }
  }

  /** The entry is a rearrangement of the safe's code. */
  predicate IsSafeRearrangement(entered: seq<int>)
  {
    multiset(entered) == multiset(SafeCode)
  }

  /** The safe's check: the sorted entry joins to the same text as the sorted code. */
  function SafeOpens(entered: seq<int>): (r: bool)
    requires AreDigits(entered)
  {
    SortKeepsDigits(entered);
    SortKeepsDigits(SafeCode);
    JoinDigits(Sort(entered)) == JoinDigits(Sort(SafeCode))
  }

  /** The safe opens exactly for a rearrangement of its code. */
  lemma SafeOpensIffPermutation(entered: seq<int>)
    requires AreDigits(entered)
    ensures SafeOpens(entered) <==> multiset(entered) == multiset(SafeCode)
  {
    SortKeepsDigits(entered);
    SortKeepsDigits(SafeCode);
    JoinDigitsInjective(Sort(entered), Sort(SafeCode));
    if multiset(entered) == multiset(SafeCode) {
      SortedUnique(Sort(entered), Sort(SafeCode));
    }
  }

  /** The door's check: the entry joins to the code's text. */
  function DoorOpens(entered: seq<int>): (r: bool)
    requires AreDigits(entered)
  {
    JoinDigits(entered) == JoinDigits(DoorCode)
  }

  /** The door opens exactly for its code in its order. */
  lemma DoorOpensIffCode(entered: seq<int>)
    requires AreDigits(entered)
    ensures DoorOpens(entered) <==> entered == DoorCode
  {
    JoinDigitsInjective(entered, DoorCode);
  }

  /** The safe handler's comparison, run as written: true exactly for a rearrangement of the code. */
  method CheckSafeCode(entered: seq<int>) returns (ok: bool)
    requires AreDigits(entered)
    ensures ok <==> IsSafeRearrangement(entered)
  {
    SafeOpensIffPermutation(entered);
    ok := SafeOpens(entered);
  }

  /** The door handler's comparison, run as written: true exactly for the code. */
  method CheckDoorCode(entered: seq<int>) returns (ok: bool)
    requires AreDigits(entered)
    ensures ok <==> entered == DoorCode
  {
    DoorOpensIffCode(entered);
    ok := DoorOpens(entered);
  }
}
