/**
 * The create_huff_tree and create_code tests of huffman_tests.py:45-72 on
 * the counts of their first test file.  Those tests fix the counts of 'a'
 * to 'g' (2, 4, 8, 16, 0, 2, 0), and the root frequency 33 they expect is
 * that sum plus the 1 cnt_freq forces into entry 0, so no other byte occurs.
 * The tree is rebuilt here step by step through the queue functions, and
 * the second merge round is one where shift_up's parent formula skips the
 * true parent.
 */
module TreeScenarios {
  import opened Wrappers
  import opened Huffman
  import opened HeapSpec
  import opened TreeBuild
  import opened Codes

  /** The counts cnt_freq returns for the first test file. */
  const File1: seq<int> := seq(256, i =>
    if i == 0 then 1 else if i == 97 then 2 else if i == 98 then 4 else if i == 99 then 8
    else if i == 100 then 16 else if i == 102 then 2 else 0)

  /** The leaves of chr(0), 'a', 'b', 'c', 'd' and 'f'. */
  const Nul: CharNode := Leaf(0, 1)
  const A: CharNode := Leaf(97, 2)
  const B: CharNode := Leaf(98, 4)
  const C: CharNode := Leaf(99, 8)
  const D: CharNode := Leaf(100, 16)
  const F: CharNode := Leaf(102, 2)

  /** The merged nodes, named by their frequencies. */
  const N3: CharNode := Merge(Nul, A)
  const N5: CharNode := Merge(F, N3)
  const N9: CharNode := Merge(B, N5)
  const N17: CharNode := Merge(C, N9)
  const N33: CharNode := Merge(D, N17)

  /** One swap of shift_down. */
  lemma DownSwap<T>(s: seq<T>, idx: nat, c: nat, t: seq<T>, less: (T, T) -> bool)
    requires idx + 1 < |s| && MinChild(s, idx, less) == Some(c) && !less(s[idx], s[c])
    requires t == s[idx := s[c]][c := s[idx]]
    ensures ShiftedDown(s, idx, less) == ShiftedDown(t, c, less)
  {
  }

  /** shift_down stopping: no child, or the item is less than the chosen child. */
  lemma DownStop<T>(s: seq<T>, idx: nat, less: (T, T) -> bool)
    requires idx + 1 >= |s| || MinChild(s, idx, less).None? || less(s[idx], s[MinChild(s, idx, less).value])
    ensures ShiftedDown(s, idx, less) == s
  {
  }

  /** A del_min whose shift_down swaps the moved item with child c first. */
  lemma DelMinSwap<T>(s: seq<T>, moved: seq<T>, c: nat, t: seq<T>, less: (T, T) -> bool)
    requires |s| > 0 && moved == s[0 := s[|s| - 1]][..|s| - 1]
    requires 1 < |moved| && MinChild(moved, 0, less) == Some(c) && !less(moved[0], moved[c])
    requires t == moved[0 := moved[c]][c := moved[0]]
    ensures AfterDelMin(s, less) == ShiftedDown(t, c, less)
  {
    DownSwap(moved, 0, c, t, less);
  }

  /** A del_min whose shift_down stops at once. */
  lemma DelMinStop<T>(s: seq<T>, moved: seq<T>, less: (T, T) -> bool)
    requires |s| > 0 && moved == s[0 := s[|s| - 1]][..|s| - 1]
    requires 1 >= |moved| || MinChild(moved, 0, less).None? || less(moved[0], moved[MinChild(moved, 0, less).value])
    ensures AfterDelMin(s, less) == moved
  {
    DownStop(moved, 0, less);
  }

  /** An insert whose shift_up swaps the new item with its computed parent first. */
  lemma InsertSwap<T>(s: seq<T>, x: T, t: seq<T>, less: (T, T) -> bool)
    requires 0 <= ShiftUpParent(|s|) && !less(s[ShiftUpParent(|s|)], x)
    requires t == (s + [x])[|s| := s[ShiftUpParent(|s|)]][ShiftUpParent(|s|) := x]
    ensures AfterInsert(s, x, less) == ShiftedUp(t, ShiftUpParent(|s|), less)
  {
    assert (s + [x])[|s|] == x && (s + [x])[ShiftUpParent(|s|)] == s[ShiftUpParent(|s|)];
  }

  /** An insert whose shift_up stops at once. */
  lemma InsertStop<T>(s: seq<T>, x: T, t: seq<T>, less: (T, T) -> bool)
    requires ShiftUpParent(|s|) < 0 || less(s[ShiftUpParent(|s|)], x)
    requires t == s + [x]
    ensures AfterInsert(s, x, less) == t
  {
    assert t[|s|] == x && (0 <= ShiftUpParent(|s|) ==> t[ShiftUpParent(|s|)] == s[ShiftUpParent(|s|)]);
  }

  /** shift_up stopping: no parent slot, or the parent holds a smaller item. */
  lemma UpStop<T>(s: seq<T>, idx: nat, less: (T, T) -> bool)
    requires idx < |s| && (ShiftUpParent(idx) < 0 || less(s[ShiftUpParent(idx)], s[idx]))
    ensures ShiftedUp(s, idx, less) == s
  {
  }

  /** One step of heapify's loop. */
  lemma HeapifyStep<T>(s: seq<T>, idx: nat, t: seq<T>, less: (T, T) -> bool)
    requires ShiftedDown(s, idx, less) == t
    ensures HeapifiedFrom(s, idx, less) == HeapifiedFrom(t, idx - 1, less)
  {
  }

  /** A round of the merge loop, from the queues its del_mins leave. */
  lemma MergeStepFrom(q: seq<CharNode>, q1: seq<CharNode>, q2: seq<CharNode>, r: seq<CharNode>)
    requires |q| >= 2 && AfterDelMin(q, CharNodeLess) == q1 && AfterDelMin(q1, CharNodeLess) == q2
    requires AfterInsert(q2, Merge(q[0], q1[0]), CharNodeLess) == r
    ensures MergeStep(q) == r
  {
  }

  /** The merge loop goes on from the queue one round leaves. */
  lemma MergeLoopFrom(q: seq<CharNode>, r: seq<CharNode>)
    requires |q| >= 2 && MergeStep(q) == r
    ensures MergeLoop(q) == MergeLoop(r)
  {
  }

  /** A stretch of zero counts adds no leaf. */
  lemma {:induction false} LeafListSkips(freqs: seq<int>, lo: nat, hi: nat)
    requires lo <= hi <= |freqs|
    requires forall j :: lo <= j < hi ==> freqs[j] <= 0
    ensures LeafList(freqs, hi) == LeafList(freqs, lo)
    decreases hi - lo
  {
    if lo < hi {
      LeafListSkips(freqs, lo, hi - 1);
    }
  }

  /** The leaf loop lists the leaves in symbol order. */
  lemma File1Leaves()
    ensures LeafList(File1, 256) == [Nul, A, B, C, D, F]
  {
    assert LeafList(File1, 1) == [Nul];
    LeafListSkips(File1, 1, 97);
    assert LeafList(File1, 98) == [Nul, A];
    assert LeafList(File1, 99) == [Nul, A, B];
    assert LeafList(File1, 100) == [Nul, A, B, C];
    assert LeafList(File1, 101) == [Nul, A, B, C, D];
    LeafListSkips(File1, 101, 102);
    assert LeafList(File1, 103) == [Nul, A, B, C, D, F];
    LeafListSkips(File1, 103, 256);
  }

  lemma HeapifyAtTwoSwap()
    ensures ShiftedDown([Nul, A, B, C, D, F], 2, CharNodeLess) == ShiftedDown([Nul, A, F, C, D, B], 5, CharNodeLess)
  {
    DownSwap([Nul, A, B, C, D, F], 2, 5, [Nul, A, F, C, D, B], CharNodeLess);
  }

  lemma HeapifyAtTwoStop()
    ensures ShiftedDown([Nul, A, F, C, D, B], 5, CharNodeLess) == [Nul, A, F, C, D, B]
  {
    DownStop([Nul, A, F, C, D, B], 5, CharNodeLess);
  }

  lemma HeapifyAtTwo()
    ensures ShiftedDown([Nul, A, B, C, D, F], 2, CharNodeLess) == [Nul, A, F, C, D, B]
  {
    HeapifyAtTwoSwap();
    HeapifyAtTwoStop();
  }

  lemma HeapifyAtOne()
    ensures ShiftedDown([Nul, A, F, C, D, B], 1, CharNodeLess) == [Nul, A, F, C, D, B]
  {
    DownStop([Nul, A, F, C, D, B], 1, CharNodeLess);
  }

  lemma HeapifyAtRoot()
    ensures ShiftedDown([Nul, A, F, C, D, B], 0, CharNodeLess) == [Nul, A, F, C, D, B]
  {
    DownStop([Nul, A, F, C, D, B], 0, CharNodeLess);
  }

  /** heapify moves 'f' above 'b' and changes nothing else. */
  lemma File1Heap()
    ensures Heapified([Nul, A, B, C, D, F], CharNodeLess) == [Nul, A, F, C, D, B]
  {
    HeapifyAtTwo();
    HeapifyStep([Nul, A, B, C, D, F], 2, [Nul, A, F, C, D, B], CharNodeLess);
    HeapifyAtOne();
    HeapifyStep([Nul, A, F, C, D, B], 1, [Nul, A, F, C, D, B], CharNodeLess);
    HeapifyAtRoot();
    HeapifyStep([Nul, A, F, C, D, B], 0, [Nul, A, F, C, D, B], CharNodeLess);
  }

  lemma RoundOneFirstSwap()
    ensures AfterDelMin([Nul, A, F, C, D, B], CharNodeLess) == ShiftedDown([A, B, F, C, D], 1, CharNodeLess)
  {
    DelMinSwap([Nul, A, F, C, D, B], [B, A, F, C, D], 1, [A, B, F, C, D], CharNodeLess);
  }

  lemma RoundOneFirstStop()
    ensures ShiftedDown([A, B, F, C, D], 1, CharNodeLess) == [A, B, F, C, D]
  {
    DownStop([A, B, F, C, D], 1, CharNodeLess);
  }

  lemma RoundOneFirst()
    ensures AfterDelMin([Nul, A, F, C, D, B], CharNodeLess) == [A, B, F, C, D]
  {
    RoundOneFirstSwap();
    RoundOneFirstStop();
  }

  lemma RoundOneSecondSwap()
    ensures AfterDelMin([A, B, F, C, D], CharNodeLess) == ShiftedDown([F, B, D, C], 2, CharNodeLess)
  {
    DelMinSwap([A, B, F, C, D], [D, B, F, C], 2, [F, B, D, C], CharNodeLess);
  }

  lemma RoundOneSecondStop()
    ensures ShiftedDown([F, B, D, C], 2, CharNodeLess) == [F, B, D, C]
  {
    DownStop([F, B, D, C], 2, CharNodeLess);
  }

  lemma RoundOneSecond()
    ensures AfterDelMin([A, B, F, C, D], CharNodeLess) == [F, B, D, C]
  {
    RoundOneSecondSwap();
    RoundOneSecondStop();
  }

  lemma RoundOneInsertSwap()
    ensures AfterInsert([F, B, D, C], N3, CharNodeLess) == ShiftedUp([F, N3, D, C, B], 1, CharNodeLess)
  {
    InsertSwap([F, B, D, C], N3, [F, N3, D, C, B], CharNodeLess);
  }

  lemma RoundOneInsertStop()
    ensures ShiftedUp([F, N3, D, C, B], 1, CharNodeLess) == [F, N3, D, C, B]
  {
    UpStop([F, N3, D, C, B], 1, CharNodeLess);
  }

  lemma RoundOneInsert()
    ensures AfterInsert([F, B, D, C], N3, CharNodeLess) == [F, N3, D, C, B]
  {
    RoundOneInsertSwap();
    RoundOneInsertStop();
  }

  /** Round one: chr(0) and 'a' come out and merge into the node of freq 3. */
  lemma RoundOne()
    ensures MergeStep([Nul, A, F, C, D, B]) == [F, N3, D, C, B]
  {
    RoundOneFirst();
    RoundOneSecond();
    RoundOneInsert();
    MergeStepFrom([Nul, A, F, C, D, B], [A, B, F, C, D], [F, B, D, C], [F, N3, D, C, B]);
  }

  lemma RoundTwoFirstSwap()
    ensures AfterDelMin([F, N3, D, C, B], CharNodeLess) == ShiftedDown([N3, B, D, C], 1, CharNodeLess)
  {
    DelMinSwap([F, N3, D, C, B], [B, N3, D, C], 1, [N3, B, D, C], CharNodeLess);
  }

  lemma RoundTwoFirstStop()
    ensures ShiftedDown([N3, B, D, C], 1, CharNodeLess) == [N3, B, D, C]
  {
    DownStop([N3, B, D, C], 1, CharNodeLess);
  }

  lemma RoundTwoFirst()
    ensures AfterDelMin([F, N3, D, C, B], CharNodeLess) == [N3, B, D, C]
  {
    RoundTwoFirstSwap();
    RoundTwoFirstStop();
  }

  lemma RoundTwoSecondSwap()
    ensures AfterDelMin([N3, B, D, C], CharNodeLess) == ShiftedDown([B, C, D], 1, CharNodeLess)
  {
    DelMinSwap([N3, B, D, C], [C, B, D], 1, [B, C, D], CharNodeLess);
  }

  lemma RoundTwoSecondStop()
    ensures ShiftedDown([B, C, D], 1, CharNodeLess) == [B, C, D]
  {
    DownStop([B, C, D], 1, CharNodeLess);
  }

  lemma RoundTwoSecond()
    ensures AfterDelMin([N3, B, D, C], CharNodeLess) == [B, C, D]
  {
    RoundTwoSecondSwap();
    RoundTwoSecondStop();
  }

  lemma RoundTwoInsert()
    ensures AfterInsert([B, C, D], N5, CharNodeLess) == [B, C, D, N5]
  {
    InsertStop([B, C, D], N5, [B, C, D, N5], CharNodeLess);
  }

  /**
   * Round two: 'f' and the node of freq 3 merge into the node of freq 5,
   * which goes to slot 3.  shift_up compares it with slot 0 instead of its
   * true parent, slot 1, whose 'c' (freq 8) it should have been swapped with,
   * so the queue stops being a heap.
   */
  lemma RoundTwo()
    ensures MergeStep([F, N3, D, C, B]) == [B, C, D, N5]
  {
    RoundTwoFirst();
    RoundTwoSecond();
    RoundTwoInsert();
    MergeStepFrom([F, N3, D, C, B], [N3, B, D, C], [B, C, D], [B, C, D, N5]);
  }

  /** The queue round two leaves: slot 3's true parent is slot 1, whose 'c' is larger than the new node. */
  lemma RoundTwoBreaksHeap()
    ensures Parent(3) == 1 && ShiftUpParent(3) == 0 && CharNodeLess(N5, C)
    ensures !IsHeap([B, C, D, N5], CharNodeLess)
  {
    assert [B, C, D, N5][3] == N5 && [B, C, D, N5][1] == C;
  }

  lemma RoundThreeFirst()
    ensures AfterDelMin([B, C, D, N5], CharNodeLess) == [N5, C, D]
  {
    DelMinStop([B, C, D, N5], [N5, C, D], CharNodeLess);
  }

  lemma RoundThreeSecondSwap()
    ensures AfterDelMin([N5, C, D], CharNodeLess) == ShiftedDown([C, D], 1, CharNodeLess)
  {
    DelMinSwap([N5, C, D], [D, C], 1, [C, D], CharNodeLess);
  }

  lemma RoundThreeSecondStop()
    ensures ShiftedDown([C, D], 1, CharNodeLess) == [C, D]
  {
    DownStop([C, D], 1, CharNodeLess);
  }

  lemma RoundThreeSecond()
    ensures AfterDelMin([N5, C, D], CharNodeLess) == [C, D]
  {
    RoundThreeSecondSwap();
    RoundThreeSecondStop();
  }

  lemma RoundThreeInsert()
    ensures AfterInsert([C, D], N9, CharNodeLess) == [C, D, N9]
  {
    InsertStop([C, D], N9, [C, D, N9], CharNodeLess);
  }

  /** Round three: 'b' and the node of freq 5 merge into the node of freq 9. */
  lemma RoundThree()
    ensures MergeStep([B, C, D, N5]) == [C, D, N9]
  {
    RoundThreeFirst();
    RoundThreeSecond();
    RoundThreeInsert();
    MergeStepFrom([B, C, D, N5], [N5, C, D], [C, D], [C, D, N9]);
  }

  /** Round four: 'c' and the node of freq 9 merge into the node of freq 17. */
  lemma RoundFour()
    ensures MergeStep([C, D, N9]) == [D, N17]
  {
    RoundFourFirst();
    RoundFourSecond();
    RoundFourInsert();
    MergeStepFrom([C, D, N9], [N9, D], [D], [D, N17]);
  }

  lemma RoundFourFirst()
    ensures AfterDelMin([C, D, N9], CharNodeLess) == [N9, D]
  {
    DelMinStop([C, D, N9], [N9, D], CharNodeLess);
  }

  lemma RoundFourSecond()
    ensures AfterDelMin([N9, D], CharNodeLess) == [D]
  {
    DelMinStop([N9, D], [D], CharNodeLess);
  }

  lemma RoundFourInsert()
    ensures AfterInsert([D], N17, CharNodeLess) == [D, N17]
  {
    InsertStop([D], N17, [D, N17], CharNodeLess);
  }

  /** Round five: 'd' and the node of freq 17 merge into the root. */
  lemma RoundFive()
    ensures MergeStep([D, N17]) == [N33]
  {
    RoundFiveFirst();
    RoundFiveSecond();
    RoundFiveInsert();
    MergeStepFrom([D, N17], [N17], [], [N33]);
  }

  lemma RoundFiveFirst()
    ensures AfterDelMin([D, N17], CharNodeLess) == [N17]
  {
    DelMinStop([D, N17], [N17], CharNodeLess);
  }

  lemma RoundFiveSecond()
    ensures AfterDelMin([N17], CharNodeLess) == []
  {
    DelMinStop([N17], [], CharNodeLess);
  }

  lemma RoundFiveInsert()
    ensures AfterInsert([], N33, CharNodeLess) == [N33]
  {
    InsertStop([], N33, [N33], CharNodeLess);
  }

  /**
   * test_create_huff_tree: the root has freq 33, its left child is the leaf
   * 'd' of freq 16 and its right child has freq 17 and char chr(0).
   */
  lemma File1Tree()
    ensures HuffTree(File1) == Some(N33)
    ensures N33.freq == 33
    ensures N33.left == Some(D) && D.freq == 16 && D.symbol == Some(100)
    ensures N33.right == Some(N17) && N17.freq == 17 && N17.symbol == Some(0)
  {
    File1Queue();
    File1Loop();
  }

  /** The queue the merge loop starts from. */
  lemma File1Queue()
    ensures HuffTree(File1) == Some(MergeLoop([Nul, A, F, C, D, B]))
  {
    File1Leaves();
    File1Heap();
  }

  /** The five rounds of the merge loop. */
  lemma File1Loop()
    ensures MergeLoop([Nul, A, F, C, D, B]) == N33
  {
    LoopOne();
    LoopTwo();
    LoopThree();
    LoopFour();
    LoopFive();
  }

  lemma LoopOne()
    ensures MergeLoop([Nul, A, F, C, D, B]) == MergeLoop([F, N3, D, C, B])
  {
    RoundOne();
    MergeLoopFrom([Nul, A, F, C, D, B], [F, N3, D, C, B]);
  }

  lemma LoopTwo()
    ensures MergeLoop([F, N3, D, C, B]) == MergeLoop([B, C, D, N5])
  {
    RoundTwo();
    MergeLoopFrom([F, N3, D, C, B], [B, C, D, N5]);
  }

  lemma LoopThree()
    ensures MergeLoop([B, C, D, N5]) == MergeLoop([C, D, N9])
  {
    RoundThree();
    MergeLoopFrom([B, C, D, N5], [C, D, N9]);
  }

  lemma LoopFour()
    ensures MergeLoop([C, D, N9]) == MergeLoop([D, N17])
  {
    RoundFour();
    MergeLoopFrom([C, D, N9], [D, N17]);
  }

  lemma LoopFive()
    ensures MergeLoop([D, N17]) == N33
  {
    RoundFive();
    MergeLoopFrom([D, N17], [N33]);
  }

  /** The tree can be coded, and its leaves carry chr(0), 'a', 'b', 'c', 'd' and 'f' once each. */
  lemma File1Codable()
    ensures Codable(N33) && DistinctLeaves(N33)
    ensures Symbols(N33) == {100, 99, 98, 102, 0, 97}
  {
    assert Symbols(N3) == {0, 97};
    assert Symbols(N5) == {102, 0, 97};
    assert Symbols(N9) == {98, 102, 0, 97};
    assert Symbols(N17) == {99, 98, 102, 0, 97};
  }

  /**
   * test_create_code: 'd' gets "0", 'a' "11111" and 'f' "1110"; the other
   * codes follow the same tree.
   */
  lemma File1Codes()
    ensures Codable(N33)
    ensures CodeTable(N33)[100] == "0" && CodeTable(N33)[97] == "11111" && CodeTable(N33)[102] == "1110"
    ensures CodeTable(N33)[99] == "10" && CodeTable(N33)[98] == "110" && CodeTable(N33)[0] == "11110"
  {
    File1Codable();
    CodeOfD();
    CodeOfA();
    CodeOfF();
    CodeOfC();
    CodeOfB();
    CodeOfNul();
  }

  lemma CodeOfD()
    ensures Codable(N33) && CodeTable(N33)[100] == "0"
  {
    File1Codable();
    CodeTableIsPaths(N33, 100);
  }

  lemma CodeOfA()
    ensures Codable(N33) && CodeTable(N33)[97] == "11111"
  {
    File1Codable();
    CodeTableIsPaths(N33, 97);
  }

  lemma CodeOfF()
    ensures Codable(N33) && CodeTable(N33)[102] == "1110"
  {
    File1Codable();
    CodeTableIsPaths(N33, 102);
  }

  lemma CodeOfC()
    ensures Codable(N33) && CodeTable(N33)[99] == "10"
  {
    File1Codable();
    CodeTableIsPaths(N33, 99);
  }

  lemma CodeOfB()
    ensures Codable(N33) && CodeTable(N33)[98] == "110"
  {
    File1Codable();
    CodeTableIsPaths(N33, 98);
  }

  lemma CodeOfNul()
    ensures Codable(N33) && CodeTable(N33)[0] == "11110"
  {
    File1Codable();
    CodeTableIsPaths(N33, 0);
  }
}
