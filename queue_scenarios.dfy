/**
 * The MinPQ scenarios of huffman_tests.py:148-200 over integers, and the
 * insertion order that shows shift_up's parent formula at work.
 */
module QueueScenarios {
  import opened Wrappers
  import opened HeapSpec
  import opened MinPriorityQueue

  /** Python's `<` on integers. */
  function IntLess(a: int, b: int): bool {
    a < b
  }

  /** heapify turns [5, 4, 3, 2, 1] into [1, 2, 3, 5, 4]. */
  lemma HeapifyExample()
    ensures Heapified([5, 4, 3, 2, 1], IntLess) == [1, 2, 3, 5, 4]
  {
    HeapifyStepOne();
    HeapifyStepTwo();
    assert HeapifiedFrom([5, 4, 3, 2, 1], 1, IntLess) == HeapifiedFrom([5, 1, 3, 2, 4], 0, IntLess);
  }

  lemma HeapifyStepOne()
    ensures ShiftedDown([5, 4, 3, 2, 1], 1, IntLess) == [5, 1, 3, 2, 4]
  {
    assert MinChild([5, 4, 3, 2, 1], 1, IntLess) == Some(4);
    assert [5, 4, 3, 2, 1][1 := 1][4 := 4] == [5, 1, 3, 2, 4];
  }

  lemma HeapifyStepTwo()
    ensures ShiftedDown([5, 1, 3, 2, 4], 0, IntLess) == [1, 2, 3, 5, 4]
  {
    assert MinChild([5, 1, 3, 2, 4], 0, IntLess) == Some(1);
    assert [5, 1, 3, 2, 4][0 := 1][1 := 5] == [1, 5, 3, 2, 4];
    HeapifyStepThree();
  }

  lemma HeapifyStepThree()
    ensures ShiftedDown([1, 5, 3, 2, 4], 1, IntLess) == [1, 2, 3, 5, 4]
  {
    assert MinChild([1, 5, 3, 2, 4], 1, IntLess) == Some(3);
    assert [1, 5, 3, 2, 4][1 := 2][3 := 5] == [1, 2, 3, 5, 4];
    assert MinChild([1, 2, 3, 5, 4], 3, IntLess) == None;
  }

  /**
   * Inserting 1, 5, 2, 3, 7, 8, 9 into an empty queue leaves 3 below 5,
   * because shift_up compares slot 3 with slot 0 instead of its parent,
   * slot 1.  The del_mins then return 1 and 2, and the third returns 5
   * although 3, which is smaller, is still queued.
   */
  lemma ShiftUpCounterexample()
    ensures AfterInsert(AfterInsert(AfterInsert(AfterInsert(AfterInsert(AfterInsert(AfterInsert(
              [], 1, IntLess), 5, IntLess), 2, IntLess), 3, IntLess), 7, IntLess), 8, IntLess), 9, IntLess)
            == [1, 5, 2, 3, 7, 8, 9]
    ensures !IsHeap([1, 5, 2, 3, 7, 8, 9], IntLess)
    ensures AfterDelMin([1, 5, 2, 3, 7, 8, 9], IntLess) == [2, 5, 8, 3, 7, 9]
    ensures AfterDelMin([2, 5, 8, 3, 7, 9], IntLess) == [5, 3, 8, 9, 7]
    ensures 3 in [5, 3, 8, 9, 7] && IntLess(3, 5)
  {
    InsertSteps();
    assert Parent(3) == 1 && IntLess([1, 5, 2, 3, 7, 8, 9][3], [1, 5, 2, 3, 7, 8, 9][1]);
    FirstDelMin();
    SecondDelMin();
  }

  lemma InsertSteps()
    ensures AfterInsert(AfterInsert(AfterInsert(AfterInsert(AfterInsert(AfterInsert(AfterInsert(
              [], 1, IntLess), 5, IntLess), 2, IntLess), 3, IntLess), 7, IntLess), 8, IntLess), 9, IntLess)
            == [1, 5, 2, 3, 7, 8, 9]
  {
    FirstInserts();
    LastInserts();
  }

  lemma FirstInserts()
    ensures AfterInsert(AfterInsert(AfterInsert(AfterInsert([], 1, IntLess), 5, IntLess), 2, IntLess), 3, IntLess)
            == [1, 5, 2, 3]
  {
    InsertNoSwap([], 1);
    assert [] + [1] == [1];
    InsertNoSwap([1], 5);
    assert [1] + [5] == [1, 5];
    InsertNoSwap([1, 5], 2);
    assert [1, 5] + [2] == [1, 5, 2];
    InsertNoSwap([1, 5, 2], 3);
    assert [1, 5, 2] + [3] == [1, 5, 2, 3];
  }

  lemma LastInserts()
    ensures AfterInsert(AfterInsert(AfterInsert([1, 5, 2, 3], 7, IntLess), 8, IntLess), 9, IntLess)
            == [1, 5, 2, 3, 7, 8, 9]
  {
    InsertSeven();
    InsertEight();
    InsertNine();
  }

  lemma InsertSeven()
    ensures AfterInsert([1, 5, 2, 3], 7, IntLess) == [1, 5, 2, 3, 7]
  {
    InsertNoSwap([1, 5, 2, 3], 7);
    assert [1, 5, 2, 3] + [7] == [1, 5, 2, 3, 7];
  }

  lemma InsertEight()
    ensures AfterInsert([1, 5, 2, 3, 7], 8, IntLess) == [1, 5, 2, 3, 7, 8]
  {
    InsertNoSwap([1, 5, 2, 3, 7], 8);
    assert [1, 5, 2, 3, 7] + [8] == [1, 5, 2, 3, 7, 8];
  }

  lemma InsertNine()
    ensures AfterInsert([1, 5, 2, 3, 7, 8], 9, IntLess) == [1, 5, 2, 3, 7, 8, 9]
  {
    InsertNoSwap([1, 5, 2, 3, 7, 8], 9);
    assert [1, 5, 2, 3, 7, 8] + [9] == [1, 5, 2, 3, 7, 8, 9];
  }

  /** An insert whose computed parent holds a smaller item (or is negative) appends only. */
  lemma InsertNoSwap(s: seq<int>, x: int)
    requires ShiftUpParent(|s|) < 0 || s[ShiftUpParent(|s|)] < x
    ensures AfterInsert(s, x, IntLess) == s + [x]
  {
  }

  lemma FirstDelMin()
    ensures AfterDelMin([1, 5, 2, 3, 7, 8, 9], IntLess) == [2, 5, 8, 3, 7, 9]
  {
    assert [1, 5, 2, 3, 7, 8, 9][0 := 9][..6] == [9, 5, 2, 3, 7, 8];
    assert MinChild([9, 5, 2, 3, 7, 8], 0, IntLess) == Some(2);
    assert [9, 5, 2, 3, 7, 8][0 := 2][2 := 9] == [2, 5, 9, 3, 7, 8];
    FirstDelMinTail();
  }

  lemma FirstDelMinTail()
    ensures ShiftedDown([2, 5, 9, 3, 7, 8], 2, IntLess) == [2, 5, 8, 3, 7, 9]
  {
    assert MinChild([2, 5, 9, 3, 7, 8], 2, IntLess) == Some(5);
    assert [2, 5, 9, 3, 7, 8][2 := 8][5 := 9] == [2, 5, 8, 3, 7, 9];
  }

  lemma SecondDelMin()
    ensures AfterDelMin([2, 5, 8, 3, 7, 9], IntLess) == [5, 3, 8, 9, 7]
  {
    assert [2, 5, 8, 3, 7, 9][0 := 9][..5] == [9, 5, 8, 3, 7];
    assert MinChild([9, 5, 8, 3, 7], 0, IntLess) == Some(1);
    assert [9, 5, 8, 3, 7][0 := 5][1 := 9] == [5, 9, 8, 3, 7];
    SecondDelMinTail();
  }

  lemma SecondDelMinTail()
    ensures ShiftedDown([5, 9, 8, 3, 7], 1, IntLess) == [5, 3, 8, 9, 7]
  {
    assert MinChild([5, 9, 8, 3, 7], 1, IntLess) == Some(3);
    assert [5, 9, 8, 3, 7][1 := 3][3 := 9] == [5, 3, 8, 9, 7];
    assert MinChild([5, 3, 8, 9, 7], 3, IntLess) == None;
  }

  lemma InsertThreeAfterFive()
    ensures AfterInsert([5], 3, IntLess) == [3, 5]
  {
    assert [5] + [3] == [5, 3];
    assert ShiftUpParent(1) == 0;
    assert [5, 3][1 := 5][0 := 3] == [3, 5];
  }

  lemma InsertTwoAfterSevenSix()
    ensures AfterInsert([6, 7], 2, IntLess) == [2, 7, 6]
  {
    assert [6, 7] + [2] == [6, 7, 2];
    assert ShiftUpParent(2) == 0;
    assert [6, 7, 2][2 := 6][0 := 2] == [2, 7, 6];
  }

  lemma DelMinOfThree()
    ensures AfterDelMin([3, 5, 6], IntLess) == [5, 6]
  {
    assert [3, 5, 6][0 := 6][..2] == [6, 5];
    assert MinChild([6, 5], 0, IntLess) == Some(1);
    assert [6, 5][0 := 5][1 := 6] == [5, 6];
  }

  lemma DelMinOfTwo()
    ensures AfterDelMin([5, 6], IntLess) == [6]
  {
    assert [5, 6][0 := 6][..1] == [6];
  }

  lemma DelMinOfOne(x: int)
    ensures AfterDelMin([x], IntLess) == []
  {
  }

  /**
   * Use case one: after inserting 5 and 3 the capacity is still 2; a third
   * insert doubles it; the del_mins then leave [5, 6], [6] and [], and the
   * shrinking on the way brings the capacity back to 2.  `MinPQ.DelMin`
   * returns the old first item, so the returns are 3, 5 and 6.
   */
  lemma UseCaseOne()
    ensures AfterInsert(AfterInsert(AfterInsert([], 5, IntLess), 3, IntLess), 6, IntLess) == [3, 5, 6]
    ensures EnlargedCapacity(2, 0) == 2 && EnlargedCapacity(2, 1) == 2 && EnlargedCapacity(2, 2) == 4
    ensures AfterDelMin([3, 5, 6], IntLess) == [5, 6] && AfterDelMin([5, 6], IntLess) == [6]
    ensures AfterDelMin([6], IntLess) == []
    ensures ShrunkCapacity(4, 2) == 4 && ShrunkCapacity(4, 1) == 2 && ShrunkCapacity(2, 0) == 2
  {
    InsertNoSwap([], 5);
    assert [] + [5] == [5];
    InsertThreeAfterFive();
    InsertNoSwap([3, 5], 6);
    assert [3, 5] + [6] == [3, 5, 6];
    DelMinOfThree();
    DelMinOfTwo();
    DelMinOfOne(6);
  }

  lemma UseCaseTwoFirst()
    ensures AfterDelMin([1, 2, 3, 5, 4], IntLess) == [2, 4, 3, 5]
  {
    assert [1, 2, 3, 5, 4][0 := 4][..4] == [4, 2, 3, 5];
    assert MinChild([4, 2, 3, 5], 0, IntLess) == Some(1);
    assert [4, 2, 3, 5][0 := 2][1 := 4] == [2, 4, 3, 5];
    UseCaseTwoFirstTail();
  }

  lemma UseCaseTwoFirstTail()
    ensures ShiftedDown([2, 4, 3, 5], 1, IntLess) == [2, 4, 3, 5]
  {
    assert MinChild([2, 4, 3, 5], 1, IntLess) == Some(3);
  }

  lemma UseCaseTwoSecond()
    ensures AfterDelMin([2, 4, 3, 5], IntLess) == [3, 4, 5]
  {
    assert [2, 4, 3, 5][0 := 5][..3] == [5, 4, 3];
    assert MinChild([5, 4, 3], 0, IntLess) == Some(2);
    assert [5, 4, 3][0 := 3][2 := 5] == [3, 4, 5];
  }

  lemma UseCaseTwoThird()
    ensures AfterDelMin([3, 4, 5], IntLess) == [4, 5]
  {
    assert [3, 4, 5][0 := 5][..2] == [5, 4];
    assert MinChild([5, 4], 0, IntLess) == Some(1);
    assert [5, 4][0 := 4][1 := 5] == [4, 5];
  }

  lemma UseCaseTwoFourth()
    ensures AfterDelMin([4, 5], IntLess) == [5]
  {
    assert [4, 5][0 := 5][..1] == [5];
  }

  /**
   * Use case two: the queue built from [5, 4, 3, 2, 1] is [1, 2, 3, 5, 4]
   * at capacity 5; each del_min leaves the queue stated below, and the
   * capacity is halved only at the last but one del_min and ends at 2.
   * `MinPQ.DelMin` returns the old first item, so the returns are 1, 2, 3,
   * 4 and 5.
   */
  lemma UseCaseTwo()
    ensures Heapified([5, 4, 3, 2, 1], IntLess) == [1, 2, 3, 5, 4]
    ensures AfterDelMin([1, 2, 3, 5, 4], IntLess) == [2, 4, 3, 5]
    ensures AfterDelMin([2, 4, 3, 5], IntLess) == [3, 4, 5]
    ensures AfterDelMin([3, 4, 5], IntLess) == [4, 5]
    ensures AfterDelMin([4, 5], IntLess) == [5] && AfterDelMin([5], IntLess) == []
    ensures ShrunkCapacity(5, 4) == 5 && ShrunkCapacity(5, 3) == 5 && ShrunkCapacity(5, 2) == 5
    ensures ShrunkCapacity(5, 1) == 2 && ShrunkCapacity(2, 0) == 2
  {
    HeapifyExample();
    UseCaseTwoFirst();
    UseCaseTwoSecond();
    UseCaseTwoThird();
    UseCaseTwoFourth();
    DelMinOfOne(5);
  }

  lemma DelMinOfTwoSevenSix()
    ensures AfterDelMin([2, 7, 6], IntLess) == [6, 7]
  {
    assert [2, 7, 6][0 := 6][..2] == [6, 7];
    assert MinChild([6, 7], 0, IntLess) == Some(1);
  }

  lemma DelMinOfSixSeven()
    ensures AfterDelMin([6, 7], IntLess) == [7]
  {
    assert [6, 7][0 := 7][..1] == [7];
  }

  /**
   * Inserting 6, 7 and 2 gives the items [2, 7, 6] at capacity 4; the
   * del_mins then leave [6, 7], [7] and [].  `MinPQ.DelMin` returns the old
   * first item, so the returns are 2, 6 and 7.
   */
  lemma FullFunctionality()
    ensures AfterInsert(AfterInsert(AfterInsert([], 6, IntLess), 7, IntLess), 2, IntLess) == [2, 7, 6]
    ensures EnlargedCapacity(2, 0) == 2 && EnlargedCapacity(2, 1) == 2 && EnlargedCapacity(2, 2) == 4
    ensures AfterDelMin([2, 7, 6], IntLess) == [6, 7] && AfterDelMin([6, 7], IntLess) == [7]
    ensures AfterDelMin([7], IntLess) == []
  {
    InsertNoSwap([], 6);
    InsertNoSwap([6], 7);
    assert [] + [6] == [6] && [6] + [7] == [6, 7];
    InsertTwoAfterSevenSix();
    DelMinOfTwoSevenSix();
    DelMinOfSixSeven();
    DelMinOfOne(7);
  }
}
