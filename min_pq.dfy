/**
 * The array-backed binary min-heap of min_pq.py.  The backing array `arr`
 * holds the queued items in its first `numItems` slots and None in every
 * other slot; `capacity` is its length.  The ghost field `items` is the
 * sequence of queued items, and every method states the new `items` by one
 * of the functions of HeapSpec.
 */
module MinPriorityQueue {
  import opened Wrappers
  import opened HeapSpec

  class MinPQ<T(!new)> {
    /** The items' `<`. */
    const less: (T, T) -> bool
    var arr: array<Option<T>>
    var capacity: nat
    var numItems: nat
    ghost var items: seq<T>

    ghost predicate Valid()
      reads this, arr
    {
      && capacity == arr.Length
      && numItems == |items| <= capacity
      && (forall i :: 0 <= i < numItems ==> arr[i] == Some(items[i]))
      && (forall i :: numItems <= i < capacity ==> arr[i] == None)
    }

    /** `MinPQ()`: capacity 2, no items, `arr == [None, None]`. */
    constructor Empty(less: (T, T) -> bool)
      ensures Valid() && fresh(arr) && this.less == less
      ensures capacity == 2 && numItems == 0 && items == []
      ensures arr[..] == [None, None]
    {
      this.less := less;
      arr := new Option<T>[2](_ => None);
      capacity := 2;
      numItems := 0;
      items := [];
    }

    /**
     * `MinPQ(lst)`: adopts the list's items (capacity and num_items both its
     * length), then heapifies.
     */
    constructor FromList(lst: seq<T>, less: (T, T) -> bool)
      ensures Valid() && fresh(arr) && this.less == less
      ensures capacity == |lst| && numItems == |lst|
      ensures items == Heapified(lst, less)
    {
      this.less := less;
      arr := new Option<T>[|lst|](i requires 0 <= i < |lst| => Some(lst[i]));
      capacity := |lst|;
      numItems := |lst|;
      items := lst;
      new;
      Heapify();
    }

    /** heapify: shift_down from the last parent slot back to the root. */
    method Heapify()
      requires Valid()
      modifies arr, this`items
      ensures Valid() && items == Heapified(old(items), less)
    {
      var idx := (numItems - 2) / 2;
      while idx >= 0
        invariant Valid()
        invariant HeapifiedFrom(items, idx, less) == Heapified(old(items), less)
        decreases idx + 1
      {
        ShiftDown(idx);
        idx := idx - 1;
      }
    }

    /**
     * insert: enlarge if full, put the item in the first free slot, then
     * shift_up from it.  A capacity of 0 (a queue built from an empty list)
     * stays 0 under enlarge, and the write to the free slot fails.
     */
    method Insert(item: T)
      requires Valid() && capacity > 0
      modifies this, arr
      ensures Valid()
      ensures items == AfterInsert(old(items), item, less)
      ensures numItems == old(numItems) + 1
      ensures capacity == EnlargedCapacity(old(capacity), old(numItems))
      ensures arr == old(arr) || fresh(arr)
    {
      Enlarge();
      EnlargeMakesRoom(old(capacity), numItems);
      arr[numItems] := Some(item);
      numItems := numItems + 1;
      items := items + [item];
      ShiftUp(numItems - 1);
    }

    /**
     * del_min: take the root, move the last item to the root, clear the last
     * slot, shift_down from the root, then shrink.  The source does not check
     * for an empty queue.
     */
    method DelMin() returns (minItem: T)
      requires Valid() && numItems > 0
      modifies this, arr
      ensures Valid()
      ensures minItem == old(items)[0]
      ensures items == AfterDelMin(old(items), less)
      ensures numItems == old(numItems) - 1
      ensures capacity == ShrunkCapacity(old(capacity), numItems)
      ensures arr == old(arr) || fresh(arr)
      ensures StrictWeakOrder(less) && IsHeap(old(items), less) ==>
                IsHeap(items, less) && forall x :: x in old(items) ==> !less(x, minItem)
    {
      minItem := arr[0].value;
      arr[0] := arr[numItems - 1];
      arr[numItems - 1] := None;
      numItems := numItems - 1;
      items := items[0 := items[|items| - 1]][..|items| - 1];
      ShiftDown(0);
      Shrink();
      if StrictWeakOrder(less) && IsHeap(old(items), less) {
        DelMinOfHeap(old(items), less);
      }
    }

    /** min: the root item, without removing it. */
    method Min() returns (m: T)
      requires Valid() && numItems > 0
      ensures m == items[0]
      ensures StrictWeakOrder(less) && IsHeap(items, less) ==> forall x :: x in items ==> !less(x, m)
    {
      m := arr[0].value;
      if StrictWeakOrder(less) && IsHeap(items, less) {
        forall x | x in items
          ensures !less(x, m)
        {
          var j :| 0 <= j < |items| && items[j] == x;
          HeapRootIsLeast(items, j, less);
        }
      }
    }

    method IsEmpty() returns (empty: bool)
      requires Valid()
      ensures empty <==> items == []
    {
      empty := numItems == 0;
    }

    method Size() returns (n: nat)
      requires Valid()
      ensures n == |items|
    {
      n := numItems;
    }

    /** shift_up, with its tail recursion written as a loop. */
    method ShiftUp(idx: nat)
      requires Valid() && idx < numItems
      modifies arr, this`items
      ensures Valid() && items == ShiftedUp(old(items), idx, less)
    {
      var i: nat := idx;
      while true
        invariant Valid() && i < numItems
        invariant ShiftedUp(items, i, less) == ShiftedUp(old(items), idx, less)
        decreases i
      {
        var parent := if i == 1 then 0 else (i - 2) / 2;
        if parent < 0 || less(arr[parent].value, arr[i].value) {
          return;
        }
        SwapSlots(i, parent);
        i := parent;
      }
    }

    /** shift_down, with its tail recursion written as a loop. */
    method ShiftDown(idx: nat)
      requires Valid()
      modifies arr, this`items
      ensures Valid() && items == ShiftedDown(old(items), idx, less)
    {
      var i := idx;
      while true
        invariant Valid()
        invariant ShiftedDown(items, i, less) == ShiftedDown(old(items), idx, less)
        decreases numItems - i
      {
        if i >= numItems - 1 {
          return;
        }
        var minIdx := ChosenChild(i);
        if minIdx.None? || less(arr[i].value, arr[minIdx.value].value) {
          return;
        }
        var c := minIdx.value;
        SwapSlots(i, c);
        i := c;
      }
    }

    /** The part of shift_down that picks the child to compare against. */
    method ChosenChild(idx: nat) returns (minIdx: Option<nat>)
      requires Valid()
      ensures minIdx == MinChild(items, idx, less)
    {
      var left, right := 2 * idx + 1, 2 * idx + 2;
      var leftVal := if left > numItems - 1 then None else arr[left];
      var rightVal := if right > numItems - 1 then None else arr[right];
      if leftVal.Some? && rightVal.Some? && less(rightVal.value, leftVal.value) {
        minIdx := Some(right);
      } else if leftVal.Some? {
        minIdx := Some(left);
      } else {
        minIdx := None;
      }
    }

    /** The tuple swap `arr[i], arr[j] = arr[j], arr[i]` of both shifts. */
    method SwapSlots(i: nat, j: nat)
      requires Valid() && i < numItems && j < numItems
      modifies arr, this`items
      ensures Valid() && items == Swap(old(items), i, j)
    {
      arr[i], arr[j] := arr[j], arr[i];
      items := Swap(items, i, j);
    }

    /** enlarge: when full, copy the items into a fresh array of twice the length. */
    method Enlarge()
      requires Valid()
      modifies this`arr, this`capacity
      ensures Valid() && numItems == old(numItems)
      ensures capacity == EnlargedCapacity(old(capacity), numItems)
      ensures arr == old(arr) || fresh(arr)
      ensures arr[..] == old(arr[..]) + seq(capacity - old(capacity), _ => None)
    {
      if numItems == capacity {
        var oldArr, newCap := arr, capacity * 2;
        var newArr := new Option<T>[newCap](_ => None);
        for i := 0 to numItems
          invariant forall k :: 0 <= k < i ==> newArr[k] == oldArr[k]
          invariant forall k :: i <= k < newArr.Length ==> newArr[k] == None
        {
          newArr[i] := oldArr[i];
        }
        arr := newArr;
        capacity := newCap;
      }
    }

    /** shrink: under the 4x rule, copy the items into a fresh array of half the length. */
    method Shrink()
      requires Valid()
      modifies this`arr, this`capacity
      ensures Valid() && numItems == old(numItems)
      ensures capacity == ShrunkCapacity(old(capacity), numItems)
      ensures arr == old(arr) || fresh(arr)
      ensures arr[..] == old(arr[..])[..capacity]
    {
      if capacity > 2 && numItems > 0 && capacity >= numItems * 4 {
        var newCap := capacity / 2;
        var oldArr := arr;
        var newArr := new Option<T>[newCap](_ => None);
        for i := 0 to numItems
          invariant forall k :: 0 <= k < i ==> newArr[k] == oldArr[k]
          invariant forall k :: i <= k < newArr.Length ==> newArr[k] == None
        {
          newArr[i] := oldArr[i];
        }
        arr := newArr;
        capacity := newCap;
      }
    }
  }
}
