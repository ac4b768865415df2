/** The heapq frontier of GBFS.py and UCS.py: a list of tuples from which heappop takes the
    least under Python's tuple order, where strings compare code point by code point and a
    proper prefix comes first. The binary-heap layout of the list is not modelled: the least
    entry is taken out and the others keep their list order. */
module PyHeap {

  /** Python's a < b on str. */
  predicate StrLt(a: string, b: string)
    decreases |a|
  {
    if a == [] then b != []
    else if b == [] then false
    else a[0] < b[0] || (a[0] == b[0] && StrLt(a[1..], b[1..]))
  }

  lemma {:induction false} StrLtIrreflexive(a: string)
    ensures !StrLt(a, a)
    decreases |a|
  {
    if a != [] {
      StrLtIrreflexive(a[1..]);
    }
  }

  lemma {:induction false} StrLtTransitive(a: string, b: string, c: string)
    requires StrLt(a, b) && StrLt(b, c)
    ensures StrLt(a, c)
    decreases |a|
  {
    if a != [] && a[0] == b[0] && b[0] == c[0] {
      StrLtTransitive(a[1..], b[1..], c[1..]);
    }
  }

  /** Two different strings are ordered one way or the other. */
  lemma {:induction false} StrLtTotal(a: string, b: string)
    ensures a == b || StrLt(a, b) || StrLt(b, a)
    decreases |a|
  {
    if a != [] && b != [] && a[0] == b[0] {
      StrLtTotal(a[1..], b[1..]);
      if a[1..] == b[1..] {
        assert a == [a[0]] + a[1..] && b == [b[0]] + b[1..];
      }
    }
  }

  /** A GBFS entry (heuristic, state, depth) and a UCS entry (cost, state). */
  type Entry3 = (int, string, int)
  type Entry2 = (int, string)

  /** Python's tuple order on the entries. */
  predicate Lt3(x: Entry3, y: Entry3) {
    x.0 < y.0 || (x.0 == y.0 && (StrLt(x.1, y.1) || (x.1 == y.1 && x.2 < y.2)))
  }

  predicate Lt2(x: Entry2, y: Entry2) {
    x.0 < y.0 || (x.0 == y.0 && StrLt(x.1, y.1))
  }

  lemma Lt3Order(x: Entry3, y: Entry3, z: Entry3)
    ensures !Lt3(x, x)
    ensures Lt3(x, y) && Lt3(y, z) ==> Lt3(x, z)
  {
    StrLtIrreflexive(x.1);
    if Lt3(x, y) && Lt3(y, z) && StrLt(x.1, y.1) && StrLt(y.1, z.1) {
      StrLtTransitive(x.1, y.1, z.1);
    }
  }

  lemma Lt2Order(x: Entry2, y: Entry2, z: Entry2)
    ensures !Lt2(x, x)
    ensures Lt2(x, y) && Lt2(y, z) ==> Lt2(x, z)
  {
    StrLtIrreflexive(x.1);
    if Lt2(x, y) && Lt2(y, z) && StrLt(x.1, y.1) && StrLt(y.1, z.1) {
      StrLtTransitive(x.1, y.1, z.1);
    }
  }

  /** Of two different entries one is the smaller. */
  lemma Lt3Total(x: Entry3, y: Entry3)
    ensures x == y || Lt3(x, y) || Lt3(y, x)
  {
    StrLtTotal(x.1, y.1);
  }

  lemma Lt2Total(x: Entry2, y: Entry2)
    ensures x == y || Lt2(x, y) || Lt2(y, x)
  {
    StrLtTotal(x.1, y.1);
  }

  /** Entry j of a list with entry k taken out. */
  lemma RemoveIndex<T>(s: seq<T>, k: int, j: int)
    requires 0 <= k < |s| && 0 <= j < |s| - 1
    ensures (s[..k] + s[k + 1..])[j] == s[if j < k then j else j + 1]
  {
  }

  /** heappop on a GBFS frontier: an entry no other entry is below, and the rest of the list. */
  method PopMin3(heap: seq<Entry3>) returns (e: Entry3, rest: seq<Entry3>, ghost k: int)
    requires |heap| > 0
    ensures 0 <= k < |heap| && e == heap[k] && rest == heap[..k] + heap[k + 1..]
    ensures forall i :: 0 <= i < |heap| ==> heap[i] == e || Lt3(e, heap[i])
    ensures forall i :: 0 <= i < |heap| ==> e.0 <= heap[i].0
  {
    var m := 0;
    Lt3Order(heap[0], heap[0], heap[0]);
    for j := 1 to |heap|
      invariant 0 <= m < |heap| && forall i :: 0 <= i < j ==> !Lt3(heap[i], heap[m])
    {
      if Lt3(heap[j], heap[m]) {
        forall i | 0 <= i <= j ensures !Lt3(heap[i], heap[j]) {
          Lt3Order(heap[i], heap[j], heap[m]);
        }
        m := j;
      }
    }
    e, rest, k := heap[m], heap[..m] + heap[m + 1..], m;
    forall i | 0 <= i < |heap| ensures heap[i] == e || Lt3(e, heap[i]) {
      Lt3Total(heap[i], e);
    }
  }

  /** heappop on a UCS frontier. */
  method PopMin2(heap: seq<Entry2>) returns (e: Entry2, rest: seq<Entry2>, ghost k: int)
    requires |heap| > 0
    ensures 0 <= k < |heap| && e == heap[k] && rest == heap[..k] + heap[k + 1..]
    ensures forall i :: 0 <= i < |heap| ==> heap[i] == e || Lt2(e, heap[i])
    ensures forall i :: 0 <= i < |heap| ==> e.0 <= heap[i].0
  {
    var m := 0;
    Lt2Order(heap[0], heap[0], heap[0]);
    for j := 1 to |heap|
      invariant 0 <= m < |heap| && forall i :: 0 <= i < j ==> !Lt2(heap[i], heap[m])
    {
      if Lt2(heap[j], heap[m]) {
        forall i | 0 <= i <= j ensures !Lt2(heap[i], heap[j]) {
          Lt2Order(heap[i], heap[j], heap[m]);
        }
        m := j;
      }
    }
    e, rest, k := heap[m], heap[..m] + heap[m + 1..], m;
    forall i | 0 <= i < |heap| ensures heap[i] == e || Lt2(e, heap[i]) {
      Lt2Total(heap[i], e);
    }
  }
}
