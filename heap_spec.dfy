/**
 * The element-level behaviour of min_pq.py: what shift_up, shift_down,
 * heapify, del_min and insert do to the sequence of queued items (the
 * first num_items slots of the backing array), as pure functions, with the
 * heap facts that hold of them.  The comparison is the items' `<`, passed in
 * as `less`.
 */
module HeapSpec {
  import opened Wrappers

  /** `<` is a strict weak order: asymmetric, and "not after" is transitive. */
  ghost predicate StrictWeakOrder<T(!new)>(less: (T, T) -> bool) {
    && (forall a, b :: less(a, b) ==> !less(b, a))
    && (forall a, b, c :: !less(b, a) && !less(c, b) ==> !less(c, a))
  }

  /** The true parent slot of slot `idx` in a binary heap. */
  function Parent(idx: int): int {
    (idx - 1) / 2
  }

  /** The parent slot that shift_up computes: 0 for slot 1, else `(idx - 2) // 2`. */
  function ShiftUpParent(idx: int): int {
    if idx == 1 then 0 else (idx - 2) / 2
  }

  /** shift_up's parent is the true parent only for slot 1 and the even slots. */
  lemma ShiftUpParentAgreement(idx: nat)
    ensures ShiftUpParent(idx) == Parent(idx) <==> idx == 1 || idx % 2 == 0
    ensures idx >= 3 && idx % 2 == 1 ==> ShiftUpParent(idx) == Parent(idx) - 1
  {
  }

  lemma ParentOfChild(j: int, m: int)
    ensures (0 < j && Parent(j) == m) <==> (0 <= m && (j == 2 * m + 1 || j == 2 * m + 2))
  {
  }

  function Swap<T>(s: seq<T>, i: nat, j: nat): (r: seq<T>)
    requires i < |s| && j < |s|
    ensures |r| == |s| && multiset(r) == multiset(s)
    ensures r[i] == s[j] && r[j] == s[i]
    ensures forall k :: 0 <= k < |s| && k != i && k != j ==> r[k] == s[k]
  {
    s[i := s[j]][j := s[i]]
  }

  /**
   * shift_up(idx): stop when the computed parent is negative or holds an item
   * strictly less than the item at idx; otherwise swap the two and go on
   * from the parent slot.
   */
  function ShiftedUp<T>(s: seq<T>, idx: nat, less: (T, T) -> bool): (r: seq<T>)
    requires idx < |s|
    ensures |r| == |s| && multiset(r) == multiset(s)
    decreases idx
  {
    var p := ShiftUpParent(idx);
    if p < 0 || less(s[p], s[idx]) then s
    else ShiftedUp(Swap(s, idx, p), p, less)
  }

  /**
   * The child shift_down compares against: the right child when both children
   * exist and the right one is strictly less, else the left child if it exists.
   */
  function MinChild<T>(s: seq<T>, idx: nat, less: (T, T) -> bool): (c: Option<nat>)
    ensures c.Some? <==> 2 * idx + 1 < |s|
    ensures c.Some? ==> c.value == 2 * idx + 1 || (c.value == 2 * idx + 2 && c.value < |s|)
  {
    var l, r := 2 * idx + 1, 2 * idx + 2;
    if l < |s| && r < |s| && less(s[r], s[l]) then Some(r)
    else if l < |s| then Some(l)
    else None
  }

  /** Under a strict weak order the chosen child is not after either child. */
  lemma MinChildIsLeast<T(!new)>(s: seq<T>, idx: nat, less: (T, T) -> bool)
    requires StrictWeakOrder(less)
    requires MinChild(s, idx, less).Some?
    ensures forall j :: 0 < j < |s| && Parent(j) == idx ==> !less(s[j], s[MinChild(s, idx, less).value])
  {
    forall j | 0 < j < |s| && Parent(j) == idx
      ensures !less(s[j], s[MinChild(s, idx, less).value])
    {
      ParentOfChild(j, idx);
    }
  }

  /**
   * shift_down(idx): nothing to do at or past the last slot or without a
   * child; stop when the item at idx is strictly less than the chosen child;
   * otherwise swap them and go on from the child's slot.
   */
  function ShiftedDown<T>(s: seq<T>, idx: nat, less: (T, T) -> bool): (r: seq<T>)
    ensures |r| == |s| && multiset(r) == multiset(s)
    ensures forall k :: 0 <= k < idx && k < |s| ==> r[k] == s[k]
    decreases |s| - idx
  {
    if idx >= |s| - 1 then s
    else
      match MinChild(s, idx, less)
      case None => s
      case Some(c) =>
        if less(s[idx], s[c]) then s
        else ShiftedDown(Swap(s, idx, c), c, less)
  }

  /** heapify's loop: shift_down at idx, idx - 1, ..., 0. */
  function HeapifiedFrom<T>(s: seq<T>, idx: int, less: (T, T) -> bool): (r: seq<T>)
    ensures |r| == |s| && multiset(r) == multiset(s)
    decreases idx + 1
  {
    if idx < 0 then s
    else HeapifiedFrom(ShiftedDown(s, idx, less), idx - 1, less)
  }

  /** heapify: starts at `(num_items - 2) // 2`, the parent of the last slot. */
  function Heapified<T>(s: seq<T>, less: (T, T) -> bool): seq<T> {
    HeapifiedFrom(s, (|s| - 2) / 2, less)
  }

  /** The items left by del_min: the last item moved to the root, then shift_down(0). */
  function AfterDelMin<T>(s: seq<T>, less: (T, T) -> bool): (r: seq<T>)
    requires |s| > 0
    ensures |r| == |s| - 1
    ensures multiset(r) == multiset(s) - multiset{s[0]}
  {
    var moved := s[0 := s[|s| - 1]][..|s| - 1];
    assert |s| > 1 ==> s == [s[0]] + s[1..|s| - 1] + [s[|s| - 1]];
    assert |s| > 1 ==> moved == [s[|s| - 1]] + s[1..|s| - 1];
    ShiftedDown(moved, 0, less)
  }

  /** The items after insert: the new item in the next free slot, then shift_up. */
  function AfterInsert<T>(s: seq<T>, x: T, less: (T, T) -> bool): (r: seq<T>)
    ensures multiset(r) == multiset(s) + multiset{x}
    ensures |r| == |s| + 1
  {
    ShiftedUp(s + [x], |s|, less)
  }

  /** Every parent–child pair whose parent slot is at least k is in order. */
  ghost predicate HeapFrom<T>(s: seq<T>, k: int, less: (T, T) -> bool) {
    forall j :: 0 < j < |s| && k <= Parent(j) ==> !less(s[j], s[Parent(j)])
  }

  /** The min-heap property: no item is strictly less than its parent. */
  ghost predicate IsHeap<T>(s: seq<T>, less: (T, T) -> bool) {
    HeapFrom(s, 0, less)
  }

  /**
   * The state in the middle of a shift_down at slot m: every pair from k on
   * is in order except those whose parent is m, and m's parent (when its
   * pair is in scope) is not after m's children.
   */
  ghost predicate HeapExcept<T>(s: seq<T>, k: int, m: int, less: (T, T) -> bool) {
    && (forall j :: 0 < j < |s| && k <= Parent(j) && Parent(j) != m ==> !less(s[j], s[Parent(j)]))
    && (0 < m < |s| && k <= Parent(m) ==>
          forall j :: 0 < j < |s| && Parent(j) == m ==> !less(s[j], s[Parent(m)]))
  }

  /** shift_down at m turns the "in order except at m" state into a heap from k on. */
  lemma {:induction false} ShiftedDownRestoresHeap<T(!new)>(s: seq<T>, k: int, m: nat, less: (T, T) -> bool)
    requires StrictWeakOrder(less)
    requires k <= m
    requires HeapExcept(s, k, m, less)
    ensures HeapFrom(ShiftedDown(s, m, less), k, less)
    decreases |s| - m
  {
    if m >= |s| - 1 || MinChild(s, m, less).None? {
      forall j | 0 < j < |s| && k <= Parent(j)
        ensures !less(s[j], s[Parent(j)])
      {
        ParentOfChild(j, m);
      }
    } else {
      var c := MinChild(s, m, less).value;
      MinChildIsLeast(s, m, less);
      if less(s[m], s[c]) {
        forall j | 0 < j < |s| && k <= Parent(j)
          ensures !less(s[j], s[Parent(j)])
        {
          if Parent(j) == m {
            assert !less(s[c], s[m]);
            assert !less(s[j], s[c]);
          }
        }
      } else {
        var t := Swap(s, m, c);
        ParentOfChild(c, m);
        forall j | 0 < j < |t| && k <= Parent(j) && Parent(j) != c
          ensures !less(t[j], t[Parent(j)])
        {
          ParentOfChild(j, m);
          ParentOfChild(j, c);
          if Parent(j) == m {
            assert t[Parent(j)] == s[c];
            if j != c {
              assert t[j] == s[j];
            }
          } else if j == m {
            assert t[j] == s[c] && t[Parent(j)] == s[Parent(m)];
          }
        }
        if 0 < c < |t| && k <= Parent(c) {
          forall j | 0 < j < |t| && Parent(j) == c
            ensures !less(t[j], t[Parent(c)])
          {
            ParentOfChild(j, c);
            assert t[j] == s[j];
          }
        }
        ShiftedDownRestoresHeap(t, k, c, less);
      }
    }
  }

  /** In a heap the root is not after any item. */
  lemma {:induction false} HeapRootIsLeast<T(!new)>(s: seq<T>, j: nat, less: (T, T) -> bool)
    requires StrictWeakOrder(less)
    requires IsHeap(s, less)
    requires j < |s|
    ensures !less(s[j], s[0])
    decreases j
  {
    if j > 0 {
      HeapRootIsLeast(s, Parent(j), less);
    }
  }

  /** heapify's loop from idx down leaves a heap, once every pair above idx is in order. */
  lemma {:induction false} HeapifiedFromIsHeap<T(!new)>(s: seq<T>, idx: int, less: (T, T) -> bool)
    requires StrictWeakOrder(less)
    requires HeapFrom(s, idx + 1, less)
    ensures IsHeap(HeapifiedFrom(s, idx, less), less)
    decreases idx + 1
  {
    if idx >= 0 {
      ShiftedDownRestoresHeap(s, idx, idx, less);
      HeapifiedFromIsHeap(ShiftedDown(s, idx, less), idx - 1, less);
    }
  }

  /** heapify turns any sequence into a min-heap that is a permutation of it. */
  lemma HeapifiedIsHeap<T(!new)>(s: seq<T>, less: (T, T) -> bool)
    requires StrictWeakOrder(less)
    ensures IsHeap(Heapified(s, less), less)
    ensures multiset(Heapified(s, less)) == multiset(s)
  {
    HeapifiedFromIsHeap(s, (|s| - 2) / 2, less);
  }

  /**
   * del_min on a heap returns an item no other item is strictly less than,
   * and what remains is again a heap.
   */
  lemma DelMinOfHeap<T(!new)>(s: seq<T>, less: (T, T) -> bool)
    requires StrictWeakOrder(less)
    requires IsHeap(s, less) && |s| > 0
    ensures forall x :: x in s ==> !less(x, s[0])
    ensures IsHeap(AfterDelMin(s, less), less)
  {
    forall x | x in s
      ensures !less(x, s[0])
    {
      var j :| 0 <= j < |s| && s[j] == x;
      HeapRootIsLeast(s, j, less);
    }
    var moved := s[0 := s[|s| - 1]][..|s| - 1];
    ShiftedDownRestoresHeap(moved, 0, 0, less);
  }

  /** enlarge: the capacity doubles exactly when the array is full. */
  function EnlargedCapacity(capacity: nat, numItems: nat): (r: nat) {
    if numItems == capacity then capacity * 2 else capacity
  }

  /** shrink: halve when capacity > 2, the queue is not empty and capacity >= 4 * num_items. */
  function ShrunkCapacity(capacity: nat, numItems: nat): (r: nat) {
    if capacity > 2 && numItems > 0 && capacity >= numItems * 4 then capacity / 2 else capacity
  }

  /** After enlarge there is room for one more item, provided the capacity is positive. */
  lemma EnlargeMakesRoom(capacity: nat, numItems: nat)
    requires numItems <= capacity && capacity > 0
    ensures numItems < EnlargedCapacity(capacity, numItems)
    ensures capacity <= EnlargedCapacity(capacity, numItems) <= 2 * capacity
  {
  }

  /**
   * shrink never goes below 2 (from a capacity of at least 2) or below the
   * number of items, and never fires on an empty queue, so removing the last
   * item keeps the capacity.
   */
  lemma ShrinkBounds(capacity: nat, numItems: nat)
    requires numItems <= capacity
    ensures numItems <= ShrunkCapacity(capacity, numItems) <= capacity
    ensures capacity >= 2 ==> ShrunkCapacity(capacity, numItems) >= 2
    ensures numItems == 0 ==> ShrunkCapacity(capacity, numItems) == capacity
    ensures ShrunkCapacity(capacity, numItems) < capacity <==> capacity > 2 && numItems > 0 && capacity >= 4 * numItems
  {
  }

  predicate IsPowerOfTwo(n: nat)
    decreases n
  {
    n == 1 || (n > 1 && n % 2 == 0 && IsPowerOfTwo(n / 2))
  }

  /**
   * Inserting into a queue that started as MinPQ() keeps the capacity the
   * smallest power of two (at least 2) that holds the items: 2, 2, 4, 4, 8,
   * 8, 8, 8, 16, ...
   */
  lemma InsertKeepsCapacityTight(capacity: nat, numItems: nat)
    requires IsPowerOfTwo(capacity) && capacity >= 2 && numItems <= capacity
    requires capacity == 2 || capacity < 2 * numItems
    ensures IsPowerOfTwo(EnlargedCapacity(capacity, numItems))
    ensures numItems + 1 <= EnlargedCapacity(capacity, numItems)
    ensures EnlargedCapacity(capacity, numItems) == 2 || EnlargedCapacity(capacity, numItems) < 2 * (numItems + 1)
  {
    if numItems == capacity {
      assert (capacity * 2) / 2 == capacity;
    }
  }
}
