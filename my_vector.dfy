/** The growable int array of dataStruc/myVector.cpp: n_items items at the front of a heap
    array head of n_size slots. The quirks of the source are kept: empty() answers the opposite
    of its name, push_front on an empty vector stores its element twice, and insertAt on a full
    vector only grows it. Slots the source leaves uninitialised are left arbitrary. */
module MyVectorModel {

  /** The capacity after the growth check `if (n_items >= n_size) reallocate(2 * n_size)`. */
  function Grown(nItems: int, nSize: int): (r: int)
    requires 0 <= nItems <= nSize && 1 <= nSize
    ensures nItems < r && (r == nSize || r == 2 * nSize)
  {
    if nItems >= nSize then 2 * nSize else nSize
  }

  class MyVector {
    var nItems: int
    var nSize: int
    var head: array<int>

    /** The representation invariant: the items fit the allocation, which is never empty. */
    ghost predicate Valid()
      reads this
    {
      0 <= nItems <= nSize && nSize == head.Length && 1 <= nSize
    }

    /** The items, head[0 .. n_items). */
    ghost function Items(): (s: seq<int>)
      requires Valid()
      reads this, head
      ensures |s| == nItems
    {
      head[..nItems]
    }

    /** myVector(): no items, one slot. */
    constructor ()
      ensures Valid() && nItems == 0 && nSize == 1 && Items() == []
    {
      nItems := 0;
      nSize := 1;
      head := new int[1];
    }

    /** empty() as written: false when there are no items, true otherwise. */
    method Empty() returns (r: bool)
      requires Valid()
      ensures r <==> nItems != 0
    {
      if nItems == 0 {
        return false;
      }
      return true;
    }

    /** size(): the number of items. */
    method Size() returns (r: int)
      requires Valid()
      ensures r == nItems == |Items()|
    {
      return nItems;
    }

    /** reallocate(NewSize): a new array of NewSize slots holding the items. */
    method Reallocate(newSize: int)
      requires Valid() && nItems <= newSize && 1 <= newSize
      modifies this
      ensures Valid() && fresh(head)
      ensures nSize == newSize && nItems == old(nItems)
      ensures Items() == old(Items())
    {
      var temp := new int[newSize];
      var i := 0;
      while i < nItems
        invariant 0 <= i <= nItems
        invariant temp[..i] == head[..i]
        modifies temp
      {
        temp[i] := head[i];
        i := i + 1;
      }
      head := temp;
      nSize := newSize;
    }

    /** push_back(element): grow when full, then store at index n_items. */
    method PushBack(element: int)
      requires Valid()
      modifies this, head
      ensures Valid() && (head == old(head) || fresh(head))
      ensures nSize == Grown(old(nItems), old(nSize))
      ensures Items() == old(Items()) + [element]
    {
      if nItems == 0 {
        head[0] := element;
      }
      if nItems >= nSize {
        Reallocate(2 * nSize);
      }
      head[nItems] := element;
      nItems := nItems + 1;
    }

    /** pop_back(): false (the runtime_error) on an empty vector, otherwise drops the last
        item; the stored values are not touched. */
    method PopBack() returns (ok: bool)
      requires Valid()
      modifies this
      ensures Valid() && ok == (old(nItems) != 0)
      ensures head == old(head) && nSize == old(nSize)
      ensures ok ==> nItems == old(nItems) - 1 && Items() == old(Items())[..old(nItems) - 1]
      ensures !ok ==> nItems == old(nItems)
    {
      if nItems == 0 {
        return false;
      }
      nItems := nItems - 1;
      return true;
    }

    /** push_front(element): on an empty vector push_back runs first and the shift below runs
        as well, so the element ends up stored twice. */
    method PushFront(element: int)
      requires Valid()
      modifies this, head
      ensures Valid() && fresh(head)
      ensures old(nItems) == 0 ==> Items() == [element, element] && nSize == Grown(1, old(nSize))
      ensures old(nItems) != 0 ==> Items() == [element] + old(Items()) &&
                                   nSize == Grown(old(nItems), old(nSize))
    {
      if nItems == 0 {
        PushBack(element);
      }
      if nItems >= nSize {
        Reallocate(2 * nSize);
      }
      ShiftIn(element);
    }

    /** The shift of push_front, once there is room: a new array of n_size slots gets the
        element at 0 and item i at i + 1. */
    method ShiftIn(element: int)
      requires Valid() && nItems < nSize
      modifies this
      ensures Valid() && fresh(head) && nSize == old(nSize)
      ensures Items() == [element] + old(Items())
    {
      var temp := new int[nSize];
      var i := 0;
      while i < nItems
        invariant 0 <= i <= nItems
        invariant forall j :: 0 <= j < i ==> temp[j + 1] == head[j]
        modifies temp
      {
        temp[i + 1] := head[i];
        i := i + 1;
      }
      temp[0] := element;
      ghost var items := Items();
      head := temp;
      nItems := nItems + 1;
      assert Items() == [element] + items;
    }

    /** pop_front(): false (the runtime_error) on an empty vector, otherwise every item moves
        one slot left. The source's last step copies slot n_items into slot n_items - 1, which
        is no longer an item; it reads past the allocation when the vector is full, and the
        model only performs it when it stays inside. */
    method PopFront() returns (ok: bool)
      requires Valid()
      modifies this, head
      ensures Valid() && ok == (old(nItems) != 0)
      ensures head == old(head) && nSize == old(nSize)
      ensures ok ==> nItems == old(nItems) - 1 && Items() == old(Items())[1..]
      ensures !ok ==> nItems == old(nItems) && Items() == old(Items())
    {
      if nItems == 0 {
        return false;
      }
      ghost var items := Items();
      var i := 0;
      while i < nItems - 1
        invariant 0 <= i <= nItems - 1
        invariant forall j :: 0 <= j < i ==> head[j] == items[j + 1]
        invariant forall j :: i <= j < nItems ==> head[j] == items[j]
        modifies head
      {
        head[i] := head[i + 1];
        i := i + 1;
      }
      if nItems < head.Length {
        head[nItems - 1] := head[nItems];
      }
      nItems := nItems - 1;
      return true;
    }

    /** The precondition insertAt needs to stay inside its arrays: a non-negative index and,
        when the index is past the items and the push_back leaves room, an index inside the
        allocation (the copy loop runs up to idx and temp[idx] is written). */
    ghost predicate InsertFits(idx: int)
      requires Valid()
      reads this
    {
      0 <= idx &&
      (idx >= nItems && nItems + 1 < Grown(nItems, nSize) ==> idx < Grown(nItems, nSize))
    }

    /** insertAt(idx, element), as written. Past the items it runs push_back and then, when
        that leaves room, the copy below as well. Inside the items a full vector is only grown;
        otherwise the element replaces item idx (the second copy starts at idx + 1) and the
        count grows by one over an uninitialised last slot. */
    method InsertAt(idx: int, element: int)
      requires Valid() && InsertFits(idx)
      modifies this, head
      ensures Valid() && (head == old(head) || fresh(head))
      ensures idx >= old(nItems) && old(nItems) + 1 >= Grown(old(nItems), old(nSize)) ==>
        Items() == old(Items()) + [element] && nSize == 2 * Grown(old(nItems), old(nSize))
      ensures idx >= old(nItems) && old(nItems) + 1 < Grown(old(nItems), old(nSize)) ==>
        nItems == old(nItems) + 2 && Items()[..old(nItems) + 1] == old(Items()) + [element] &&
        (idx == old(nItems) + 1 ==> Items()[old(nItems) + 1] == element) &&
        nSize == Grown(old(nItems), old(nSize))
      ensures idx < old(nItems) && old(nItems) >= old(nSize) ==>
        Items() == old(Items()) && nSize == 2 * old(nSize)
      ensures idx < old(nItems) < old(nSize) ==>
        nItems == old(nItems) + 1 && nSize == old(nSize) &&
        Items()[..old(nItems)] == old(Items())[..idx] + [element] + old(Items())[idx + 1..]
    {
      if idx >= nItems {
        PushBack(element);
      }
      if nItems >= nSize {
        Reallocate(2 * nSize);
      } else {
        CopyOver(idx, element);
      }
    }

    /** The else branch of insertAt: a new array of n_size slots gets head[0 .. idx), then
        element at idx, then head[idx + 1 .. n_items); the count grows by one. */
    method CopyOver(idx: int, element: int)
      requires Valid() && nItems < nSize && 0 <= idx < nSize
      modifies this
      ensures Valid() && fresh(head) && nSize == old(nSize) && nItems == old(nItems) + 1
      ensures forall j :: 0 <= j < idx && j < nItems ==> head[j] == old(head[j])
      ensures idx < nItems ==> head[idx] == element
      ensures forall j :: idx < j < old(nItems) ==> head[j] == old(head[j])
    {
      var temp := new int[nSize];
      var i := 0;
      while i < idx
        invariant 0 <= i <= idx
        invariant forall j :: 0 <= j < i ==> temp[j] == head[j]
        modifies temp
      {
        temp[i] := head[i];
        i := i + 1;
      }
      temp[idx] := element;
      i := idx + 1;
      while i < nItems
        invariant idx + 1 <= i <= nSize && (idx + 1 <= nItems ==> i <= nItems)
        invariant forall j :: 0 <= j < idx ==> temp[j] == head[j]
        invariant temp[idx] == element
        invariant forall j :: idx + 1 <= j < i ==> temp[j] == head[j]
        modifies temp
      {
        temp[i] := head[i];
        i := i + 1;
      }
      head := temp;
      nItems := nItems + 1;
    }
  }
}
