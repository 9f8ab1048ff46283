/**
 * The decode loop of huffman_decode (huffman_coding.py:197-211): walk the
 * tree bit by bit from the root, emit the symbol of each leaf reached, and
 * stop at the leaf of symbol 0.  The bit reader is replaced by a sequence
 * of bits (false for 0, true for 1).
 */
module Decode {
  import opened Wrappers
  import opened Huffman
  import opened TreeBuild
  import opened Codes
  import opened Counting

  /** The ways the loop fails, each an exception in the source. */
  datatype DecodeError =
    | NoNode      // a step reached a missing child: `None.left` raises AttributeError
    | NoSymbol    // a leaf without a symbol: `out_str += None` raises TypeError
    | OutOfBits   // the bit stream ended before the leaf of symbol 0

  predicate BothChildrenMissing(n: HuffmanNode) {
    n.left.None? && n.right.None?
  }

  /**
   * The loop from the state (node, remaining bits, output so far), one
   * iteration per call: stop at the leaf of symbol 0; otherwise, at a leaf,
   * emit its symbol and restart from the root, and in the same iteration
   * read one bit and step left on 0 and right on 1.
   */
  function Walk(root: Option<HuffmanNode>, node: Option<HuffmanNode>, bits: seq<bool>, out: seq<nat>): Result<seq<nat>, DecodeError>
    decreases |bits|
  {
    if node.None? then Err(NoNode)
    else if BothChildrenMissing(node.value) && node.value.symbol == Some(0) then Ok(out)
    else if BothChildrenMissing(node.value) && node.value.symbol.None? then Err(NoSymbol)
    else
      var out' := if BothChildrenMissing(node.value) then out + [node.value.symbol.value] else out;
      var here := if BothChildrenMissing(node.value) then root else node;
      if here.None? then Err(NoNode)
      else if |bits| == 0 then Err(OutOfBits)
      else Walk(root, if !bits[0] then here.value.left else here.value.right, bits[1..], out')
  }

  /** The loop's outcome on a whole bit stream. */
  function DecodeBits(root: Option<HuffmanNode>, bits: seq<bool>): Result<seq<nat>, DecodeError> {
    Walk(root, root, bits, [])
  }

  /** The bits the bit writer produces for a string of '0' and '1'. */
  function Bits(code: string): (r: seq<bool>)
    ensures |r| == |code|
  {
    seq(|code|, i requires 0 <= i < |code| => code[i] == '1')
  }

  lemma BitsAppend(a: string, b: string)
    ensures Bits(a + b) == Bits(a) + Bits(b)
  {
  }

  /** The text up to, not including, its first 0. */
  function TakeUntilZero(text: seq<nat>): seq<nat> {
    if |text| == 0 || text[0] == 0 then [] else [text[0]] + TakeUntilZero(text[1..])
  }

  /** TakeUntilZero is the longest prefix of the text without a 0. */
  lemma {:induction false} TakeUntilZeroIsPrefix(text: seq<nat>)
    ensures |TakeUntilZero(text)| <= |text| && TakeUntilZero(text) == text[..|TakeUntilZero(text)|]
    ensures 0 !in TakeUntilZero(text)
    ensures |TakeUntilZero(text)| < |text| ==> text[|TakeUntilZero(text)|] == 0
    ensures 0 !in text ==> TakeUntilZero(text) == text
  {
    if |text| > 0 && text[0] != 0 {
      TakeUntilZeroIsPrefix(text[1..]);
      assert text == [text[0]] + text[1..];
    }
  }

  /** The decode loop over a bit stream, proved against Walk. */
  method HuffmanDecode(hufftree: Option<HuffmanNode>, bits: seq<bool>) returns (r: Result<seq<nat>, DecodeError>)
    ensures r == DecodeBits(hufftree, bits)
  {
    var foundNull := false;
    var outStr: seq<nat> := [];
    var node := hufftree;
    var pos := 0;
    while !foundNull
      invariant pos <= |bits|
      invariant foundNull ==> DecodeBits(hufftree, bits) == Ok(outStr)
      invariant !foundNull ==> Walk(hufftree, node, bits[pos..], outStr) == DecodeBits(hufftree, bits)
      decreases |bits| - pos, !foundNull
    {
      if node.None? {
        return Err(NoNode);
      }
      if node.value.left.None? && node.value.right.None? && node.value.symbol == Some(0) {
        foundNull := true;
      } else {
        if node.value.left.None? && node.value.right.None? {
          if node.value.symbol.None? {
            return Err(NoSymbol);
          }
          outStr := outStr + [node.value.symbol.value];
          node := hufftree;
          if node.None? {
            return Err(NoNode);
          }
        }
        if pos == |bits| {
          return Err(OutOfBits);
        }
        var val := bits[pos];
        pos := pos + 1;
        assert bits[pos - 1..][1..] == bits[pos..];
        if !val {
          node := node.value.left;
        }
        if val {
          node := node.value.right;
        }
      }
    }
    r := Ok(outStr);
  }

  /**
   * Following the bits of a leaf's path from an internal node of the tree
   * ends at that leaf: it stops there for symbol 0, and otherwise emits
   * the symbol and goes on from the root.
   */
  lemma {:induction false} WalkPath(root: HuffmanNode, n: HuffmanNode, s: nat, rest: seq<bool>, out: seq<nat>)
    requires root.left.Some?
    requires WellFormed(n) && PathTo(n, s).Some?
    ensures Walk(Some(root), Some(n), Bits(PathTo(n, s).value) + rest, out) ==
            if s == 0 then Ok(out) else Walk(Some(root), Some(root), rest, out + [s])
    decreases n
  {
    var p := PathTo(n, s).value;
    if n.left.None? {
      assert Bits(p) + rest == rest;
    } else {
      var l, r := n.left.value, n.right.value;
      var bits := Bits(p) + rest;
      if PathTo(l, s).Some? {
        WalkPath(root, l, s, rest, out);
        assert bits[0] == false && bits[1..] == Bits(PathTo(l, s).value) + rest;
      } else {
        WalkPath(root, r, s, rest, out);
        assert bits[0] == true && bits[1..] == Bits(PathTo(r, s).value) + rest;
      }
    }
  }

  /** codes gives every symbol of t its path from the root. */
  ghost predicate PathCodes(t: HuffmanNode, codes: seq<string>) {
    |codes| == 256 && forall s :: s in Symbols(t) ==> s < 256 && PathTo(t, s) == Some(codes[s])
  }

  /**
   * Decoding the codes of a text followed by the code of symbol 0 walks
   * back to the text up to its first 0, whatever bits follow.
   */
  lemma {:induction false} WalkEncoded(t: HuffmanNode, codes: seq<string>, text: seq<Byte>, rest: seq<bool>, out: seq<nat>)
    requires WellFormed(t) && t.left.Some? && PathCodes(t, codes)
    requires 0 in Symbols(t) && forall i :: 0 <= i < |text| ==> text[i] in Symbols(t)
    ensures Walk(Some(t), Some(t), Bits(Encoded(text, codes) + codes[0]) + rest, out) ==
            Ok(out + TakeUntilZero(text))
    decreases |text|
  {
    if |text| == 0 {
      WalkSentinel(t, codes, rest, out);
      assert out + TakeUntilZero(text) == out;
    } else {
      var c, tl := text[0], text[1..];
      if c != 0 {
        WalkEncoded(t, codes, tl, rest, out + [c]);
        WalkOneSymbol(t, codes, text, rest, out);
      } else {
        WalkFirstCode(t, codes, text, rest, out);
        assert out + TakeUntilZero(text) == out;
      }
    }
  }

  /** One step of WalkEncoded: a nonzero first symbol is emitted, then the rest decodes. */
  lemma WalkOneSymbol(t: HuffmanNode, codes: seq<string>, text: seq<Byte>, rest: seq<bool>, out: seq<nat>)
    requires WellFormed(t) && t.left.Some? && PathCodes(t, codes)
    requires |text| > 0 && text[0] != 0 && text[0] in Symbols(t)
    requires Walk(Some(t), Some(t), Bits(Encoded(text[1..], codes) + codes[0]) + rest, out + [text[0]]) ==
             Ok((out + [text[0]]) + TakeUntilZero(text[1..]))
    ensures Walk(Some(t), Some(t), Bits(Encoded(text, codes) + codes[0]) + rest, out) == Ok(out + TakeUntilZero(text))
  {
    WalkFirstCode(t, codes, text, rest, out);
    var z := TakeUntilZero(text[1..]);
    assert TakeUntilZero(text) == [text[0]] + z;
    assert (out + [text[0]]) + z == out + ([text[0]] + z);
  }

  /** With no text left, the code of 0 leads to the leaf of 0, where the loop stops. */
  lemma WalkSentinel(t: HuffmanNode, codes: seq<string>, rest: seq<bool>, out: seq<nat>)
    requires WellFormed(t) && t.left.Some? && PathCodes(t, codes) && 0 in Symbols(t)
    ensures Walk(Some(t), Some(t), Bits(Encoded([], codes) + codes[0]) + rest, out) == Ok(out)
  {
    assert Encoded([], codes) + codes[0] == PathTo(t, 0).value;
    WalkPath(t, t, 0, rest, out);
  }

  /** The code of the text's first symbol leads to its leaf. */
  lemma WalkFirstCode(t: HuffmanNode, codes: seq<string>, text: seq<Byte>, rest: seq<bool>, out: seq<nat>)
    requires WellFormed(t) && t.left.Some? && PathCodes(t, codes)
    requires |text| > 0 && text[0] in Symbols(t)
    ensures Walk(Some(t), Some(t), Bits(Encoded(text, codes) + codes[0]) + rest, out) ==
            if text[0] == 0 then Ok(out)
            else Walk(Some(t), Some(t), Bits(Encoded(text[1..], codes) + codes[0]) + rest, out + [text[0]])
  {
    var c, tl := text[0], text[1..];
    assert text == [c] + tl;
    EncodedCons(c, tl, codes);
    var tail := Bits(Encoded(tl, codes) + codes[0]) + rest;
    BitsAppend(codes[c], Encoded(tl, codes) + codes[0]);
    assert Encoded(text, codes) + codes[0] == codes[c] + (Encoded(tl, codes) + codes[0]);
    assert Bits(Encoded(text, codes) + codes[0]) + rest == Bits(PathTo(t, c).value) + tail;
    WalkPath(t, t, c, tail, out);
  }

  /**
   * The decode round trip: for a tree create_huff_tree builds that holds
   * symbol 0, and a text over its symbols, decoding the encoded text
   * followed by the code of 0 returns the text up to its first 0 (all of
   * it when the text has no 0).
   */
  lemma DecodeRoundTrip(t: HuffmanNode, text: seq<Byte>)
    requires WellFormed(t) && (forall s :: s in Symbols(t) ==> s < 256)
    requires 0 in Symbols(t) && forall i :: 0 <= i < |text| ==> text[i] in Symbols(t)
    ensures Codable(t)
    ensures DecodeBits(Some(t), Bits(Encoded(text, CodeTable(t)) + CodeTable(t)[0])) == Ok(TakeUntilZero(text))
  {
    WellFormedIsCodable(t, 256);
    var bits := Bits(Encoded(text, CodeTable(t)) + CodeTable(t)[0]);
    if t.left.Some? {
      var codes := CodeTable(t);
      forall s | s in Symbols(t)
        ensures s < 256 && PathTo(t, s) == Some(codes[s])
      {
        CodeTableIsPaths(t, s);
      }
      WalkEncoded(t, codes, text, [], []);
      assert bits + [] == bits;
      assert [] + TakeUntilZero(text) == TakeUntilZero(text);
    } else {
      LeafRootRoundTrip(t, text, bits);
    }
  }

  lemma LeafRootRoundTrip(t: HuffmanNode, text: seq<Byte>, bits: seq<bool>)
    requires WellFormed(t) && t.left.None?
    requires 0 in Symbols(t) && forall i :: 0 <= i < |text| ==> text[i] in Symbols(t)
    ensures DecodeBits(Some(t), bits) == Ok(TakeUntilZero(text))
  {
    assert t.symbol.value in Symbols(t);
    LeafRootStops(t, bits);
    if |text| > 0 {
      assert text[0] in Symbols(t);
    }
  }

  /** A tree that is the single leaf 0 decodes any bits to nothing. */
  lemma LeafRootStops(t: HuffmanNode, bits: seq<bool>)
    requires BothChildrenMissing(t) && t.symbol == Some(0)
    ensures DecodeBits(Some(t), bits) == Ok([])
  {
  }
}
