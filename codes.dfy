/**
 * create_code and create_code_helper (huffman_coding.py:73-106): a
 * depth-first walk that writes, for every leaf, the path taken to reach it
 * ('0' for a step left, '1' for a step right) into a 256-entry table.
 */
module Codes {
  import opened Wrappers
  import opened Huffman
  import opened TreeBuild
  import opened Counting

  /**
   * What create_code_helper needs of a tree to finish: every node with a
   * left child also has a right child, and every leaf (a node without a
   * left child) carries a symbol below 256.
   */
  predicate Codable(n: HuffmanNode)
    decreases n
  {
    if n.left.None? then n.symbol.Some? && n.symbol.value < 256
    else n.right.Some? && Codable(n.left.value) && Codable(n.right.value)
  }

  /** The table create_code_helper leaves behind: later leaves overwrite earlier ones. */
  function Assign(n: HuffmanNode, table: seq<string>, path: string): (r: seq<string>)
    requires Codable(n) && |table| == 256
    ensures |r| == 256
    decreases n
  {
    if n.left.Some? then
      Assign(n.right.value, Assign(n.left.value, table, path + "0"), path + "1")
    else
      table[n.symbol.value := path]
  }

  /** The table create_code returns. */
  function CodeTable(n: HuffmanNode): (r: seq<string>)
    requires Codable(n)
    ensures |r| == 256
  {
    Assign(n, seq(256, _ => ""), "")
  }

  /**
   * Reference definition of a code: the path from `n` to the leaf of
   * symbol s, the left subtree searched first, or None when no leaf has s.
   */
  function PathTo(n: HuffmanNode, s: nat): Option<string>
    decreases n
  {
    if n.left.None? then (if n.symbol == Some(s) then Some("") else None)
    else match PathTo(n.left.value, s)
      case Some(p) => Some("0" + p)
      case None =>
        if n.right.None? then None
        else match PathTo(n.right.value, s)
          case Some(p) => Some("1" + p)
          case None => None
  }

  /** No symbol labels leaves on both sides of any node. */
  predicate DistinctLeaves(n: HuffmanNode)
    decreases n
  {
    n.left.Some? && n.right.Some? ==>
      && Symbols(n.left.value) !! Symbols(n.right.value)
      && DistinctLeaves(n.left.value) && DistinctLeaves(n.right.value)
  }

  predicate IsPrefix(a: string, b: string) {
    |a| <= |b| && b[..|a|] == a
  }

  lemma PrefixCons(c: char, a: string, b: string)
    ensures IsPrefix([c] + a, [c] + b) ==> IsPrefix(a, b)
  {
    if IsPrefix([c] + a, [c] + b) {
      assert b[..|a|] == ([c] + b)[1..|a| + 1];
    }
  }

  lemma {:induction false} PathToFindsSymbols(n: HuffmanNode, s: nat)
    requires Codable(n)
    ensures PathTo(n, s).Some? <==> s in Symbols(n)
    decreases n
  {
    if n.left.Some? {
      PathToFindsSymbols(n.left.value, s);
      PathToFindsSymbols(n.right.value, s);
    }
  }

  lemma {:induction false} AssignWritesPaths(n: HuffmanNode, table: seq<string>, path: string, s: nat)
    requires Codable(n) && DistinctLeaves(n) && |table| == 256 && s < 256
    ensures s in Symbols(n) <==> PathTo(n, s).Some?
    ensures Assign(n, table, path)[s] == if s in Symbols(n) then path + PathTo(n, s).value else table[s]
    decreases n
  {
    PathToFindsSymbols(n, s);
    if n.left.Some? {
      var l, r := n.left.value, n.right.value;
      var mid := Assign(l, table, path + "0");
      AssignWritesPaths(l, table, path + "0", s);
      AssignWritesPaths(r, mid, path + "1", s);
      PathToFindsSymbols(l, s);
      PathToFindsSymbols(r, s);
      if s in Symbols(l) {
        assert (path + "0") + PathTo(l, s).value == path + ("0" + PathTo(l, s).value);
      } else if s in Symbols(r) {
        assert (path + "1") + PathTo(r, s).value == path + ("1" + PathTo(r, s).value);
      }
    } else {
      assert path + "" == path;
    }
  }

  /**
   * create_code gives each symbol of the tree its root-to-leaf path and
   * every other symbol the empty string.
   */
  lemma CodeTableIsPaths(n: HuffmanNode, s: nat)
    requires Codable(n) && DistinctLeaves(n) && s < 256
    ensures s in Symbols(n) <==> PathTo(n, s).Some?
    ensures CodeTable(n)[s] == if s in Symbols(n) then PathTo(n, s).value else ""
  {
    AssignWritesPaths(n, seq(256, _ => ""), "", s);
    PathToFindsSymbols(n, s);
    if s in Symbols(n) {
      assert "" + PathTo(n, s).value == PathTo(n, s).value;
    }
  }

  /** A tree that is a single leaf gives its symbol the empty code. */
  lemma SingleLeafCode(n: HuffmanNode)
    requires Codable(n) && n.left.None?
    ensures CodeTable(n)[n.symbol.value] == ""
  {
  }

  /** Every path to a leaf below an internal node is non-empty. */
  lemma PathsBelowInternalNonEmpty(n: HuffmanNode, s: nat)
    requires n.left.Some? && PathTo(n, s).Some?
    ensures |PathTo(n, s).value| > 0
  {
  }

  /**
   * The paths to two different symbols are never prefixes of one another,
   * which is what lets the decoder stop at the right leaf.
   */
  lemma {:induction false} PathsPrefixFree(n: HuffmanNode, s: nat, t: nat)
    requires Codable(n) && DistinctLeaves(n)
    requires PathTo(n, s).Some? && PathTo(n, t).Some? && s != t
    ensures !IsPrefix(PathTo(n, s).value, PathTo(n, t).value)
    decreases n
  {
    PathToFindsSymbols(n, s);
    PathToFindsSymbols(n, t);
    if n.left.Some? {
      var l, r := n.left.value, n.right.value;
      PathToFindsSymbols(l, s);
      PathToFindsSymbols(l, t);
      PathToFindsSymbols(r, s);
      PathToFindsSymbols(r, t);
      var p, q := PathTo(n, s).value, PathTo(n, t).value;
      if s in Symbols(l) && t in Symbols(l) {
        PathsPrefixFree(l, s, t);
        PrefixCons('0', PathTo(l, s).value, PathTo(l, t).value);
      } else if s in Symbols(r) && t in Symbols(r) {
        PathsPrefixFree(r, s, t);
        PrefixCons('1', PathTo(r, s).value, PathTo(r, t).value);
      } else {
        assert p[0] != q[0];
      }
    }
  }

  /**
   * The codes of two different symbols of a tree with at least two leaves
   * are non-empty and neither is a prefix of the other.
   */
  lemma CodesPrefixFree(n: HuffmanNode, s: nat, t: nat)
    requires Codable(n) && DistinctLeaves(n) && n.left.Some?
    requires s < 256 && t < 256 && s in Symbols(n) && t in Symbols(n) && s != t
    ensures |CodeTable(n)[s]| > 0 && |CodeTable(n)[t]| > 0
    ensures !IsPrefix(CodeTable(n)[s], CodeTable(n)[t])
  {
    CodeTableIsPaths(n, s);
    CodeTableIsPaths(n, t);
    PathsBelowInternalNonEmpty(n, s);
    PathsBelowInternalNonEmpty(n, t);
    PathsPrefixFree(n, s, t);
  }

  /** A tree create_huff_tree builds from at most 256 frequencies can be coded. */
  lemma {:induction false} WellFormedIsCodable(n: HuffmanNode, bound: nat)
    requires WellFormed(n) && bound <= 256
    requires forall s :: s in Symbols(n) ==> s < bound
    ensures Codable(n) && DistinctLeaves(n)
    decreases n
  {
    if n.left.Some? {
      assert Symbols(n) == Symbols(n.left.value) + Symbols(n.right.value);
      WellFormedIsCodable(n.left.value, bound);
      WellFormedIsCodable(n.right.value, bound);
    } else {
      assert n.symbol.value in Symbols(n);
    }
  }

  /** create_code_helper, writing into the shared table `outList`. */
  method CreateCodeHelper(rootNode: HuffmanNode, outList: array<string>, currentPath: string)
    requires Codable(rootNode) && outList.Length == 256
    modifies outList
    ensures outList[..] == Assign(rootNode, old(outList[..]), currentPath)
    decreases rootNode
  {
    if rootNode.left.Some? {
      var currentPathLeft := currentPath + "0";
      var currentPathRight := currentPath + "1";
      CreateCodeHelper(rootNode.left.value, outList, currentPathLeft);
      CreateCodeHelper(rootNode.right.value, outList, currentPathRight);
    } else {
      outList[rootNode.symbol.value] := currentPath;
    }
  }

  /** create_code: a fresh table of 256 empty strings filled by the helper. */
  method CreateCode(rootNode: HuffmanNode) returns (codes: seq<string>)
    requires Codable(rootNode)
    ensures codes == CodeTable(rootNode)
    ensures DistinctLeaves(rootNode) ==>
              forall s :: 0 <= s < 256 ==>
                (s in Symbols(rootNode) ==> PathTo(rootNode, s) == Some(codes[s])) &&
                (s !in Symbols(rootNode) ==> codes[s] == "")
  {
    var outList := new string[256](_ => "");
    var currentPath := "";
    assert outList[..] == seq(256, _ => "");
    CreateCodeHelper(rootNode, outList, currentPath);
    codes := outList[..];
    assert codes == CodeTable(rootNode);
    if DistinctLeaves(rootNode) {
      forall s | 0 <= s < 256
        ensures s in Symbols(rootNode) ==> PathTo(rootNode, s) == Some(codes[s])
        ensures s !in Symbols(rootNode) ==> codes[s] == ""
      {
        CodeTableIsPaths(rootNode, s);
      }
    }
  }

  /** The concatenation encode_text builds: the codes of the text's characters in order. */
  function Encoded(text: seq<Byte>, codes: seq<string>): string
    requires |codes| == 256
  {
    if |text| == 0 then "" else Encoded(text[..|text| - 1], codes) + codes[text[|text| - 1]]
  }

  lemma {:induction false} EncodedCons(c: Byte, text: seq<Byte>, codes: seq<string>)
    requires |codes| == 256
    ensures Encoded([c] + text, codes) == codes[c] + Encoded(text, codes)
    decreases |text|
  {
    if |text| > 0 {
      var init := text[..|text| - 1];
      assert ([c] + text)[..|text|] == [c] + init;
      EncodedCons(c, init, codes);
    }
  }

  /** The length of an encoding is the sum of the codes' lengths. */
  lemma {:induction false} EncodedLength(text: seq<Byte>, codes: seq<string>)
    requires |codes| == 256
    ensures |Encoded(text, codes)| == CodeLengths(text, codes)
    decreases |text|
  {
    if |text| > 0 {
      EncodedLength(text[..|text| - 1], codes);
      CodeLengthsSnoc(text[..|text| - 1], text[|text| - 1], codes);
      assert text[..|text| - 1] + [text[|text| - 1]] == text;
    }
  }

  function CodeLengths(text: seq<Byte>, codes: seq<string>): nat
    requires |codes| == 256
  {
    if |text| == 0 then 0 else |codes[text[0]]| + CodeLengths(text[1..], codes)
  }

  lemma {:induction false} CodeLengthsSnoc(text: seq<Byte>, c: Byte, codes: seq<string>)
    requires |codes| == 256
    ensures CodeLengths(text + [c], codes) == CodeLengths(text, codes) + |codes[c]|
    decreases |text|
  {
    if |text| > 0 {
      assert (text + [c])[1..] == text[1..] + [c];
      CodeLengthsSnoc(text[1..], c, codes);
    }
  }

  /** encode_text: append each character's code in turn. */
  method EncodeText(text: seq<Byte>, codes: seq<string>) returns (encodedStr: string)
    requires |codes| == 256
    ensures encodedStr == Encoded(text, codes)
  {
    encodedStr := "";
    for k := 0 to |text|
      invariant encodedStr == Encoded(text[..k], codes)
    {
      assert text[..k + 1][..k] == text[..k];
      encodedStr := encodedStr + codes[text[k]];
    }
    assert text[..|text|] == text;
  }
}
