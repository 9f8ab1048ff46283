/**
 * `create_huff_tree` of huffman_coding.py: one leaf per symbol with a
 * positive frequency, in ascending symbol order, heapified into a MinPQ;
 * then, while more than one node is queued, the two nodes del_min returns
 * are merged (left = the first, char = the smaller char) and the merged node
 * is inserted back.  HuffTree is that computation as a function of the
 * frequency list, built from the queue functions of HeapSpec, so the shape
 * of the tree is exactly what the source's queue (including its shift_up)
 * produces.  BuildTree is the imperative version, driving a MinPQ object.
 */
module TreeBuild {
  import opened Wrappers
  import opened Huffman
  import opened HeapSpec
  import opened MinPriorityQueue

  function MinNat(a: nat, b: nat): nat {
    if a <= b then a else b
  }

  /** The leaf `HuffmanNode(freq, chr(s))`. */
  function Leaf(s: nat, freq: int): CharNode {
    HuffmanNode(freq, Some(s), None, None)
  }

  /** The merged node: frequencies added, the smaller char, `left` the first node removed. */
  function Merge(a: CharNode, b: CharNode): (r: CharNode)
    ensures r.symbol == a.symbol || r.symbol == b.symbol
    ensures r.symbol.value <= a.symbol.value && r.symbol.value <= b.symbol.value
  {
    HuffmanNode(a.freq + b.freq, Some(MinNat(a.symbol.value, b.symbol.value)), Some(a), Some(b))
  }

  /** x is the leaf the builder makes for symbol s of `freqs`. */
  ghost predicate IsLeafFor(freqs: seq<int>, x: CharNode) {
    x.symbol.value < |freqs| && freqs[x.symbol.value] > 0 && x == Leaf(x.symbol.value, freqs[x.symbol.value])
  }

  /** `priority_queue_list` after the first k iterations of the leaf loop. */
  function LeafList(freqs: seq<int>, k: nat): seq<CharNode>
    requires k <= |freqs|
  {
    if k == 0 then []
    else LeafList(freqs, k - 1) + (if freqs[k - 1] > 0 then [Leaf(k - 1, freqs[k - 1])] else [])
  }

  /** Extending the leaf loop by one symbol appends at most that symbol's leaf. */
  lemma LeafListStep(freqs: seq<int>, k: nat)
    requires 0 < k <= |freqs|
    ensures |LeafList(freqs, k - 1)| <= |LeafList(freqs, k)|
    ensures forall i :: 0 <= i < |LeafList(freqs, k - 1)| ==> LeafList(freqs, k)[i] == LeafList(freqs, k - 1)[i]
    ensures freqs[k - 1] > 0 ==> LeafList(freqs, k) == LeafList(freqs, k - 1) + [Leaf(k - 1, freqs[k - 1])]
    ensures freqs[k - 1] <= 0 ==> LeafList(freqs, k) == LeafList(freqs, k - 1)
  {
  }

  /** Every entry of the leaf list is the leaf of a symbol below k with a positive frequency. */
  lemma {:induction false} LeafListLeaves(freqs: seq<int>, k: nat)
    requires k <= |freqs|
    ensures forall i :: 0 <= i < |LeafList(freqs, k)| ==>
              IsLeafFor(freqs, LeafList(freqs, k)[i]) && LeafList(freqs, k)[i].symbol.value < k
  {
    if k > 0 {
      LeafListLeaves(freqs, k - 1);
      LeafListStep(freqs, k);
    }
  }

  /** The leaves come in strictly ascending symbol order. */
  lemma {:induction false} LeafListAscending(freqs: seq<int>, k: nat)
    requires k <= |freqs|
    ensures forall i, j :: 0 <= i < j < |LeafList(freqs, k)| ==>
              LeafList(freqs, k)[i].symbol.value < LeafList(freqs, k)[j].symbol.value
  {
    if k > 0 {
      LeafListAscending(freqs, k - 1);
      LeafListLeaves(freqs, k - 1);
      LeafListStep(freqs, k);
    }
  }

  /** Every symbol below k with a positive frequency has its leaf in the list. */
  lemma {:induction false} LeafListComplete(freqs: seq<int>, k: nat)
    requires k <= |freqs|
    ensures forall s :: 0 <= s < k && freqs[s] > 0 ==>
              exists i :: 0 <= i < |LeafList(freqs, k)| && LeafList(freqs, k)[i].symbol == Some(s)
  {
    if k > 0 {
      LeafListComplete(freqs, k - 1);
      LeafListStep(freqs, k);
      var prev, r := LeafList(freqs, k - 1), LeafList(freqs, k);
      forall s | 0 <= s < k && freqs[s] > 0
        ensures exists i :: 0 <= i < |r| && r[i].symbol == Some(s)
      {
        if s == k - 1 {
          assert r[|r| - 1].symbol == Some(s);
        } else {
          var i :| 0 <= i < |prev| && prev[i].symbol == Some(s);
          assert r[i] == prev[i];
        }
      }
    }
  }

  /** The leaf list is empty exactly when no frequency below k is positive. */
  lemma {:induction false} LeafListEmpty(freqs: seq<int>, k: nat)
    requires k <= |freqs|
    ensures |LeafList(freqs, k)| == 0 <==> forall s :: 0 <= s < k ==> freqs[s] <= 0
  {
    if k > 0 {
      LeafListEmpty(freqs, k - 1);
      LeafListStep(freqs, k);
    }
  }

  /**
   * One round of the merge loop: del_min twice, and insert the merge of the
   * two nodes, the first one removed on the left.
   */
  function MergeStep(q: seq<CharNode>): (r: seq<CharNode>)
    requires |q| >= 2
    ensures |r| == |q| - 1
  {
    var a := q[0];
    var q1 := AfterDelMin(q, CharNodeLess);
    var b := q1[0];
    AfterInsert(AfterDelMin(q1, CharNodeLess), Merge(a, b), CharNodeLess)
  }

  /** The merge loop, from a queue of at least one node; the last del_min returns the root. */
  function MergeLoop(q: seq<CharNode>): CharNode
    requires |q| >= 1
    decreases |q|
  {
    if |q| == 1 then q[0] else MergeLoop(MergeStep(q))
  }

  /** The tree create_huff_tree returns, None when no frequency is positive. */
  function HuffTree(freqs: seq<int>): Option<CharNode> {
    var q := Heapified(LeafList(freqs, |freqs|), CharNodeLess);
    if |q| == 0 then None else Some(MergeLoop(q))
  }

  /** The symbols of the leaves under n (a node is a leaf when it has no left child). */
  function Symbols(n: HuffmanNode): set<nat>
    decreases n
  {
    if n.left.None? then (if n.symbol.Some? then {n.symbol.value} else {})
    else Symbols(n.left.value) + (if n.right.Some? then Symbols(n.right.value) else {})
  }

  /** The total frequency of the leaves under n whose symbol is s. */
  function LeafFreq(n: HuffmanNode, s: nat): int
    decreases n
  {
    if n.left.None? then (if n.symbol == Some(s) then n.freq else 0)
    else LeafFreq(n.left.value, s) + (if n.right.Some? then LeafFreq(n.right.value, s) else 0)
  }

  /**
   * The shape create_huff_tree builds: every node has a char; children come
   * in pairs; a merged node's frequency is the sum of its children's and
   * its char the smaller of theirs; the two subtrees share no symbol.
   */
  ghost predicate WellFormed(n: HuffmanNode)
    decreases n
  {
    && n.symbol.Some?
    && (n.left.None? <==> n.right.None?)
    && (n.left.Some? ==>
          && WellFormed(n.left.value) && WellFormed(n.right.value)
          && n.freq == n.left.value.freq + n.right.value.freq
          && n.symbol.value == MinNat(n.left.value.symbol.value, n.right.value.symbol.value)
          && Symbols(n.left.value) !! Symbols(n.right.value))
  }

  /** Every leaf under x carries the frequency `freqs` gives its symbol, which is positive. */
  ghost predicate FaithfulLeaves(freqs: seq<int>, x: HuffmanNode) {
    forall s :: s in Symbols(x) ==> s < |freqs| && freqs[s] > 0 && LeafFreq(x, s) == freqs[s]
  }

  /**
   * What the queue holds between merges: each node once, well formed and
   * faithful to `freqs`; no symbol under two nodes; every symbol with a
   * positive frequency under some node.
   */
  ghost predicate Forest(freqs: seq<int>, m: multiset<CharNode>) {
    ForestNodes(freqs, m) && ForestDisjoint(m) && ForestCovers(freqs, m)
  }

  ghost predicate ForestNodes(freqs: seq<int>, m: multiset<CharNode>) {
    forall x :: x in m ==> m[x] == 1 && WellFormed(x) && FaithfulLeaves(freqs, x)
  }

  ghost predicate ForestDisjoint(m: multiset<CharNode>) {
    forall x, y :: x in m && y in m && x != y ==> Symbols(x) !! Symbols(y)
  }

  ghost predicate ForestCovers(freqs: seq<int>, m: multiset<CharNode>) {
    forall s :: 0 <= s < |freqs| && freqs[s] > 0 ==> exists x :: x in m && s in Symbols(x)
  }

  /** A node's char is the smallest symbol in its subtree. */
  lemma {:induction false} SymbolIsSmallest(n: HuffmanNode)
    requires WellFormed(n)
    ensures n.symbol.value in Symbols(n)
    ensures forall s :: s in Symbols(n) ==> n.symbol.value <= s
    decreases n
  {
    if n.left.Some? {
      SymbolIsSmallest(n.left.value);
      SymbolIsSmallest(n.right.value);
    }
  }

  /** A symbol that is not under n contributes no frequency. */
  lemma {:induction false} LeafFreqOutside(n: HuffmanNode, s: nat)
    requires s !in Symbols(n)
    ensures LeafFreq(n, s) == 0
    decreases n
  {
    if n.left.Some? {
      LeafFreqOutside(n.left.value, s);
      if n.right.Some? {
        LeafFreqOutside(n.right.value, s);
      }
    }
  }

  /** Nodes of the queue have pairwise distinct chars, so `<` orders them totally. */
  lemma ForestCharsDistinct(freqs: seq<int>, m: multiset<CharNode>, x: CharNode, y: CharNode)
    requires Forest(freqs, m)
    requires x in m && y in m && x != y
    ensures x.symbol != y.symbol
    ensures CharNodeLess(x, y) || CharNodeLess(y, x)
  {
    SymbolIsSmallest(x);
    SymbolIsSmallest(y);
  }

  /** The builder's `<` on char-carrying nodes is a strict weak order, so the heap lemmas apply to its queue. */
  lemma CharNodeLessIsStrictWeakOrder()
    ensures StrictWeakOrder(CharNodeLess)
  {
  }

  lemma {:induction false} DistinctOnce<T>(s: seq<T>)
    requires forall i, j :: 0 <= i < j < |s| ==> s[i] != s[j]
    ensures forall x :: x in multiset(s) ==> multiset(s)[x] == 1
  {
    if |s| > 0 {
      var p := s[..|s| - 1];
      DistinctOnce(p);
      assert s == p + [s[|s| - 1]];
      assert s[|s| - 1] !in p;
    }
  }

  /** The leaf list is a forest for `freqs`. */
  lemma LeavesFormForest(freqs: seq<int>)
    ensures Forest(freqs, multiset(LeafList(freqs, |freqs|)))
  {
    LeafListLeaves(freqs, |freqs|);
    LeafListAscending(freqs, |freqs|);
    LeafListComplete(freqs, |freqs|);
    LeavesAreNodes(freqs, LeafList(freqs, |freqs|));
    LeavesAreDisjoint(freqs, LeafList(freqs, |freqs|));
    LeavesCover(freqs, LeafList(freqs, |freqs|));
  }

  lemma LeavesAreNodes(freqs: seq<int>, l: seq<CharNode>)
    requires forall i :: 0 <= i < |l| ==> IsLeafFor(freqs, l[i])
    requires forall i, j :: 0 <= i < j < |l| ==> l[i].symbol.value < l[j].symbol.value
    ensures ForestNodes(freqs, multiset(l))
  {
    DistinctOnce(l);
    forall x | x in multiset(l)
      ensures WellFormed(x) && FaithfulLeaves(freqs, x)
    {
      var i :| 0 <= i < |l| && l[i] == x;
      assert IsLeafFor(freqs, l[i]);
    }
  }

  lemma LeavesAreDisjoint(freqs: seq<int>, l: seq<CharNode>)
    requires forall i :: 0 <= i < |l| ==> IsLeafFor(freqs, l[i])
    ensures ForestDisjoint(multiset(l))
  {
    forall x, y | x in multiset(l) && y in multiset(l) && x != y
      ensures Symbols(x) !! Symbols(y)
    {
      var i :| 0 <= i < |l| && l[i] == x;
      var j :| 0 <= j < |l| && l[j] == y;
      assert IsLeafFor(freqs, l[i]) && IsLeafFor(freqs, l[j]);
    }
  }

  lemma LeavesCover(freqs: seq<int>, l: seq<CharNode>)
    requires forall i :: 0 <= i < |l| ==> IsLeafFor(freqs, l[i])
    requires forall s :: 0 <= s < |freqs| && freqs[s] > 0 ==> exists i :: 0 <= i < |l| && l[i].symbol == Some(s)
    ensures ForestCovers(freqs, multiset(l))
  {
    forall s | 0 <= s < |freqs| && freqs[s] > 0
      ensures exists x :: x in multiset(l) && s in Symbols(x)
    {
      var i :| 0 <= i < |l| && l[i].symbol == Some(s);
      assert l[i] in multiset(l);
      assert IsLeafFor(freqs, l[i]);
    }
  }

  /** The merged node is well formed and faithful, and holds the symbols of both. */
  lemma MergedNodeOk(freqs: seq<int>, a: CharNode, b: CharNode)
    requires WellFormed(a) && FaithfulLeaves(freqs, a)
    requires WellFormed(b) && FaithfulLeaves(freqs, b)
    requires Symbols(a) !! Symbols(b)
    ensures WellFormed(Merge(a, b)) && FaithfulLeaves(freqs, Merge(a, b))
    ensures Symbols(Merge(a, b)) == Symbols(a) + Symbols(b)
  {
    var n := Merge(a, b);
    assert Symbols(n) == Symbols(a) + Symbols(b);
    forall s | s in Symbols(n)
      ensures s < |freqs| && freqs[s] > 0 && LeafFreq(n, s) == freqs[s]
    {
      if s in Symbols(a) {
        LeafFreqOutside(b, s);
      } else {
        LeafFreqOutside(a, s);
      }
    }
  }

  /** One merge step keeps the forest. */
  lemma MergeKeepsForest(freqs: seq<int>, m: multiset<CharNode>, a: CharNode, b: CharNode)
    requires Forest(freqs, m)
    requires a in m && b in m - multiset{a}
    ensures Forest(freqs, m - multiset{a} - multiset{b} + multiset{Merge(a, b)})
  {
    assert a != b && b in m;
    MergedNodeOk(freqs, a, b);
    SymbolIsSmallest(a);
    MergeKeepsNodes(freqs, m, a, b);
    MergeKeepsDisjoint(freqs, m, a, b);
    MergeKeepsCover(freqs, m, a, b);
  }

  lemma MergeKeepsNodes(freqs: seq<int>, m: multiset<CharNode>, a: CharNode, b: CharNode)
    requires ForestNodes(freqs, m) && ForestDisjoint(m)
    requires a in m && b in m && a != b
    requires WellFormed(Merge(a, b)) && FaithfulLeaves(freqs, Merge(a, b))
    requires a.symbol.value in Symbols(a)
    ensures ForestNodes(freqs, m - multiset{a} - multiset{b} + multiset{Merge(a, b)})
  {
    var rest := m - multiset{a} - multiset{b};
    var n := Merge(a, b);
    var m' := rest + multiset{n};
    assert n !in rest;
    forall x | x in m'
      ensures m'[x] == 1 && WellFormed(x) && FaithfulLeaves(freqs, x)
    {
      if x != n {
        assert x in m;
      }
    }
  }

  lemma MergeKeepsDisjoint(freqs: seq<int>, m: multiset<CharNode>, a: CharNode, b: CharNode)
    requires ForestNodes(freqs, m) && ForestDisjoint(m)
    requires a in m && b in m && a != b
    requires Symbols(Merge(a, b)) == Symbols(a) + Symbols(b)
    ensures ForestDisjoint(m - multiset{a} - multiset{b} + multiset{Merge(a, b)})
  {
    var rest := m - multiset{a} - multiset{b};
    var n := Merge(a, b);
    var m' := rest + multiset{n};
    forall x, y | x in m' && y in m' && x != y
      ensures Symbols(x) !! Symbols(y)
    {
      if x != n && y != n {
        assert x in m && y in m;
      } else if x == n {
        assert y in rest;
        assert y in m && y != a && y != b;
      } else {
        assert x in rest;
        assert x in m && x != a && x != b;
      }
    }
  }

  lemma MergeKeepsCover(freqs: seq<int>, m: multiset<CharNode>, a: CharNode, b: CharNode)
    requires ForestCovers(freqs, m)
    requires a in m && b in m && a != b
    requires Symbols(Merge(a, b)) == Symbols(a) + Symbols(b)
    ensures ForestCovers(freqs, m - multiset{a} - multiset{b} + multiset{Merge(a, b)})
  {
    var rest := m - multiset{a} - multiset{b};
    var n := Merge(a, b);
    var m' := rest + multiset{n};
    forall s | 0 <= s < |freqs| && freqs[s] > 0
      ensures exists x :: x in m' && s in Symbols(x)
    {
      var x :| x in m && s in Symbols(x);
      if x == a || x == b {
        assert n in m';
      } else {
        assert x in rest;
        assert x in m';
      }
    }
  }

  /** t is well formed, faithful to `freqs` and holds every positive-frequency symbol. */
  ghost predicate TreeFor(freqs: seq<int>, t: HuffmanNode) {
    && WellFormed(t) && FaithfulLeaves(freqs, t)
    && forall s :: 0 <= s < |freqs| && freqs[s] > 0 ==> s in Symbols(t)
  }

  /** The merge loop turns a forest into one tree holding every positive-frequency symbol. */
  lemma {:induction false} MergeLoopBuildsTree(freqs: seq<int>, q: seq<CharNode>)
    requires |q| >= 1
    requires Forest(freqs, multiset(q))
    ensures TreeFor(freqs, MergeLoop(q))
    decreases |q|
  {
    if |q| == 1 {
      LastNodeIsTree(freqs, q);
    } else {
      var q' := MergeStep(q);
      MergeStepKeepsForest(freqs, q);
      MergeLoopBuildsTree(freqs, q');
      assert MergeLoop(q) == MergeLoop(q');
    }
  }

  /** A forest of one node is a tree for `freqs`. */
  lemma LastNodeIsTree(freqs: seq<int>, q: seq<CharNode>)
    requires |q| == 1 && Forest(freqs, multiset(q))
    ensures TreeFor(freqs, q[0])
  {
    var x := q[0];
    assert multiset(q) == multiset{x};
    forall s | 0 <= s < |freqs| && freqs[s] > 0
      ensures s in Symbols(x)
    {
      var y :| y in multiset{x} && s in Symbols(y);
    }
  }

  lemma MergeStepKeepsForest(freqs: seq<int>, q: seq<CharNode>)
    requires |q| >= 2 && Forest(freqs, multiset(q))
    ensures Forest(freqs, multiset(MergeStep(q)))
  {
    var a := q[0];
    var q1 := AfterDelMin(q, CharNodeLess);
    var b := q1[0];
    assert a in multiset(q);
    assert b in multiset(q1);
    MergeKeepsForest(freqs, multiset(q), a, b);
  }

  /** The sum of the positive entries of `freqs` below k. */
  function PositiveTotal(freqs: seq<int>, k: nat): int
    requires k <= |freqs|
  {
    if k == 0 then 0 else PositiveTotal(freqs, k - 1) + (if freqs[k - 1] > 0 then freqs[k - 1] else 0)
  }

  /** The sum of LeafFreq(n, s) over the symbols s below k. */
  function LeafFreqTotal(n: HuffmanNode, k: nat): int {
    if k == 0 then 0 else LeafFreqTotal(n, k - 1) + LeafFreq(n, k - 1)
  }

  lemma {:induction false} LeafFreqTotalSplit(n: HuffmanNode, k: nat)
    requires n.left.Some? && n.right.Some?
    ensures LeafFreqTotal(n, k) == LeafFreqTotal(n.left.value, k) + LeafFreqTotal(n.right.value, k)
  {
    if k > 0 {
      LeafFreqTotalSplit(n, k - 1);
    }
  }

  lemma {:induction false} LeafFreqTotalOfLeaf(n: HuffmanNode, k: nat)
    requires n.left.None? && n.symbol.Some?
    ensures LeafFreqTotal(n, k) == if n.symbol.value < k then n.freq else 0
  {
    if k > 0 {
      LeafFreqTotalOfLeaf(n, k - 1);
    }
  }

  /** A well-formed node's frequency is the total frequency of its leaves. */
  lemma {:induction false} FreqIsLeafTotal(n: HuffmanNode, k: nat)
    requires WellFormed(n)
    requires forall s :: s in Symbols(n) ==> s < k
    ensures n.freq == LeafFreqTotal(n, k)
    decreases n
  {
    if n.left.None? {
      assert n.symbol.value in Symbols(n);
      LeafFreqTotalOfLeaf(n, k);
    } else {
      assert Symbols(n) == Symbols(n.left.value) + Symbols(n.right.value);
      FreqIsLeafTotal(n.left.value, k);
      FreqIsLeafTotal(n.right.value, k);
      LeafFreqTotalSplit(n, k);
    }
  }

  lemma {:induction false} TotalsAgree(freqs: seq<int>, n: HuffmanNode, k: nat)
    requires k <= |freqs|
    requires forall s :: 0 <= s < k ==> LeafFreq(n, s) == if freqs[s] > 0 then freqs[s] else 0
    ensures LeafFreqTotal(n, k) == PositiveTotal(freqs, k)
  {
    if k > 0 {
      TotalsAgree(freqs, n, k - 1);
    }
  }

  /**
   * create_huff_tree returns None exactly when no frequency is positive.
   * Otherwise the tree is well formed, its leaves are exactly the symbols
   * with a positive frequency, each carrying that frequency, and the root's
   * frequency is the sum of those frequencies.
   */
  lemma HuffTreeFacts(freqs: seq<int>)
    ensures HuffTree(freqs).None? <==> forall s :: 0 <= s < |freqs| ==> freqs[s] <= 0
    ensures HuffTree(freqs).Some? ==>
              && WellFormed(HuffTree(freqs).value)
              && (forall s :: s in Symbols(HuffTree(freqs).value) <==> 0 <= s < |freqs| && freqs[s] > 0)
              && (forall s :: s in Symbols(HuffTree(freqs).value) ==> LeafFreq(HuffTree(freqs).value, s) == freqs[s])
              && HuffTree(freqs).value.freq == PositiveTotal(freqs, |freqs|)
  {
    var l := LeafList(freqs, |freqs|);
    var q := Heapified(l, CharNodeLess);
    LeafListEmpty(freqs, |freqs|);
    if |q| > 0 {
      LeavesFormForest(freqs);
      assert multiset(q) == multiset(l);
      MergeLoopBuildsTree(freqs, q);
      var t := MergeLoop(q);
      forall s | 0 <= s < |freqs|
        ensures LeafFreq(t, s) == if freqs[s] > 0 then freqs[s] else 0
      {
        if s !in Symbols(t) {
          LeafFreqOutside(t, s);
        }
      }
      TotalsAgree(freqs, t, |freqs|);
      FreqIsLeafTotal(t, |freqs|);
    }
  }

  /**
   * create_huff_tree, driving a MinPQ: collect the leaves, heapify them, and
   * merge the two nodes del_min returns until one is left.
   */
  method BuildTree(freqs: seq<int>) returns (root: Option<HuffmanNode>)
    ensures root == HuffTree(freqs)
    ensures root.None? <==> forall s :: 0 <= s < |freqs| ==> freqs[s] <= 0
    ensures root.Some? ==>
              && WellFormed(root.value)
              && (forall s :: s in Symbols(root.value) <==> 0 <= s < |freqs| && freqs[s] > 0)
              && (forall s :: s in Symbols(root.value) ==> LeafFreq(root.value, s) == freqs[s])
              && root.value.freq == PositiveTotal(freqs, |freqs|)
  {
    var list := CollectLeaves(freqs);
    var pq := new MinPQ<CharNode>.FromList(list, CharNodeLess);
    var size := pq.Size();
    if size == 0 {
      root := None;
    } else {
      var last := MergeAll(pq);
      root := Some(last);
    }
    HuffTreeFacts(freqs);
  }

  /** The for loop of create_huff_tree that makes a leaf per positive frequency. */
  method CollectLeaves(freqs: seq<int>) returns (list: seq<CharNode>)
    ensures list == LeafList(freqs, |freqs|)
  {
    list := [];
    for each := 0 to |freqs|
      invariant list == LeafList(freqs, each)
    {
      if freqs[each] > 0 {
        list := list + [Leaf(each, freqs[each])];
      }
    }
  }

  /** The while loop of create_huff_tree, then the final del_min. */
  method MergeAll(pq: MinPQ<CharNode>) returns (last: CharNode)
    requires pq.Valid() && pq.less == CharNodeLess && |pq.items| >= 1
    requires pq.capacity >= 2 || |pq.items| == 1
    modifies pq, pq.arr
    ensures last == MergeLoop(old(pq.items))
  {
    ghost var q0 := pq.items;
    var size := pq.Size();
    while size > 1
      invariant pq.Valid() && pq.less == CharNodeLess
      invariant pq.arr == old(pq.arr) || fresh(pq.arr)
      invariant size == |pq.items| >= 1
      invariant pq.capacity >= 2 || size == 1
      invariant MergeLoop(pq.items) == MergeLoop(q0)
      decreases size
    {
      ghost var before := pq.items;
      MergeTwo(pq);
      assert MergeLoop(before) == MergeLoop(pq.items);
      size := pq.Size();
    }
    last := pq.DelMin();
  }

  /** One round of that loop: two del_mins and the insert of their merge. */
  method MergeTwo(pq: MinPQ<CharNode>)
    requires pq.Valid() && pq.less == CharNodeLess && |pq.items| >= 2 && pq.capacity >= 2
    modifies pq, pq.arr
    ensures pq.Valid() && pq.less == CharNodeLess && pq.capacity >= 2
    ensures pq.arr == old(pq.arr) || fresh(pq.arr)
    ensures pq.items == MergeStep(old(pq.items))
  {
    ghost var q := pq.items;
    ShrinkBounds(pq.capacity, pq.numItems - 1);
    var node1 := pq.DelMin();
    ghost var q1 := pq.items;
    assert pq.arr == old(pq.arr) || fresh(pq.arr);
    assert node1 == q[0] && q1 == AfterDelMin(q, CharNodeLess);
    ShrinkBounds(pq.capacity, pq.numItems - 1);
    var node2 := pq.DelMin();
    assert pq.arr == old(pq.arr) || fresh(pq.arr);
    assert node2 == q1[0] && pq.items == AfterDelMin(q1, CharNodeLess);
    pq.Insert(Merge(node1, node2));
  }
}
