/**
 * The Huffman tree node of huffman.py.  A node is an immutable value: a
 * frequency, an optional symbol (Python's one-character string, kept here by
 * its code point, so that `ord` is the identity) and two optional children.
 */
module Huffman {
  import opened Wrappers

  datatype HuffmanNode = HuffmanNode(
    freq: int,
    symbol: Option<nat>,
    left: Option<HuffmanNode>,
    right: Option<HuffmanNode>)

  /** The constructor `HuffmanNode(frequency, char=None, left=None, right=None)`. */
  function NewNode(frequency: int, symbol: Option<nat> := None,
                   left: Option<HuffmanNode> := None,
                   right: Option<HuffmanNode> := None): HuffmanNode
  {
    HuffmanNode(frequency, symbol, left, right)
  }

  /** Code derivation treats a node as a leaf exactly when it has no left child. */
  predicate IsLeaf(n: HuffmanNode) {
    n.left.None?
  }

  /** A node built from a frequency alone has no char and no children, so it is a leaf. */
  lemma NewNodeDefaults(frequency: int)
    ensures NewNode(frequency).symbol.None? && IsLeaf(NewNode(frequency)) && NewNode(frequency).right.None?
  {
  }

  /**
   * `__eq__`: compares freq, char, left and right in that order, stopping at
   * the first difference.  Comparing a node child with a missing (None) child
   * ends up evaluating `None.freq`, an AttributeError, modelled as None.
   */
  function Eq(a: HuffmanNode, b: HuffmanNode): (r: Option<bool>)
    ensures r == Some(true) ==> a == b
  {
    if a.freq != b.freq || a.symbol != b.symbol then Some(false)
    else
      match ChildEq(a.left, b.left)
      case None => None
      case Some(false) => Some(false)
      case Some(true) => ChildEq(a.right, b.right)
  }

  /** Python `x == y` on two child slots, each a node or None. */
  function ChildEq(x: Option<HuffmanNode>, y: Option<HuffmanNode>): (r: Option<bool>)
    ensures r == Some(true) ==> x == y
  {
    match (x, y)
    case (None, None) => Some(true)
    case (Some(p), Some(q)) => Eq(p, q)
    case _ => None
  }

  /** `==` answers true exactly for structurally equal nodes. */
  lemma {:induction false} EqIsStructural(a: HuffmanNode, b: HuffmanNode)
    ensures Eq(a, b) == Some(true) <==> a == b
    ensures Eq(a, b) == Some(false) ==> a != b
  {
    if a.freq == b.freq && a.symbol == b.symbol {
      ChildEqIsStructural(a.left, b.left);
      ChildEqIsStructural(a.right, b.right);
    }
  }

  lemma {:induction false} ChildEqIsStructural(x: Option<HuffmanNode>, y: Option<HuffmanNode>)
    ensures ChildEq(x, y) == Some(true) <==> x == y
    ensures ChildEq(x, y) == Some(false) ==> x != y
  {
    if x.Some? && y.Some? {
      EqIsStructural(x.value, y.value);
    }
  }

  /** Two childless nodes never raise: `==` compares freq and char only. */
  lemma EqOnLeaves(a: HuffmanNode, b: HuffmanNode)
    requires a.left.None? && a.right.None? && b.left.None? && b.right.None?
    ensures Eq(a, b) == Some(a.freq == b.freq && a.symbol == b.symbol)
  {
  }

  /** The node-equality test: `HuffmanNode(4) == HuffmanNode(4)` and `HuffmanNode(4) != HuffmanNode(1)`. */
  lemma EqExamples()
    ensures Eq(NewNode(4), NewNode(4)) == Some(true)
    ensures Eq(NewNode(4), NewNode(1)) == Some(false)
  {
  }

  /**
   * `__lt__`: lower frequency first; for equal frequencies `ord(self.char) <
   * ord(other.char)`, which raises TypeError unless both chars are present.
   */
  predicate Less(a: HuffmanNode, b: HuffmanNode)
    requires a.freq == b.freq ==> a.symbol.Some? && b.symbol.Some?
  {
    if a.freq < b.freq then true
    else if b.freq < a.freq then false
    else a.symbol.value < b.symbol.value
  }

  /** Nodes that carry a char: every node the tree builder creates. */
  type CharNode = n: HuffmanNode | n.symbol.Some? witness HuffmanNode(0, Some(0), None, None)

  /** `<` on char-carrying nodes, a total function (no TypeError can occur). */
  predicate CharNodeLess(a: CharNode, b: CharNode) {
    Less(a, b)
  }

  /** The sort key `(freq, ord(char))` of a char-carrying node. */
  function Key(n: CharNode): (int, nat) {
    (n.freq, n.symbol.value)
  }

  /** `<` is strict lexicographic order on the key, not "<=" as its docstring says. */
  lemma LessIsLexicographic(a: CharNode, b: CharNode)
    ensures CharNodeLess(a, b) <==> Key(a).0 < Key(b).0 || (Key(a).0 == Key(b).0 && Key(a).1 < Key(b).1)
    ensures Key(a) == Key(b) ==> !CharNodeLess(a, b) && !CharNodeLess(b, a)
  {
  }

  /** `<` is irreflexive and transitive. */
  lemma LessIsStrictOrder(a: CharNode, b: CharNode, c: CharNode)
    ensures !CharNodeLess(a, a)
    ensures CharNodeLess(a, b) && CharNodeLess(b, c) ==> CharNodeLess(a, c)
  {
  }

  /** Nodes whose chars differ are always comparable one way or the other. */
  lemma LessIsTrichotomous(a: CharNode, b: CharNode)
    requires a.symbol != b.symbol
    ensures CharNodeLess(a, b) || CharNodeLess(b, a)
    ensures !(CharNodeLess(a, b) && CharNodeLess(b, a))
  {
  }
}
