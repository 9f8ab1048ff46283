/**
 * The counting loop of cnt_freq (huffman_coding.py:22-31), over the text as
 * a sequence of byte values instead of a file.
 */
module Counting {
  /** A character of the input text: its code point, below 256. */
  type Byte = x: int | 0 <= x < 256

  /** The table cnt_freq returns for a text. */
  function Frequencies(text: seq<Byte>): seq<int> {
    seq(256, i requires 0 <= i < 256 => if i == 0 then 1 else multiset(text)[i])
  }

  /**
   * cnt_freq: one counter per byte value, incremented for each character,
   * and entry 0 forced to 1 at the end so that the tree always holds the
   * symbol 0 that the decoder stops at.
   */
  method CountFreq(text: seq<Byte>) returns (counts: seq<int>)
    ensures |counts| == 256
    ensures counts[0] == 1
    ensures forall i :: 1 <= i < 256 ==> counts[i] == multiset(text)[i]
    ensures counts == Frequencies(text)
  {
    var outList := new int[256](_ => 0);
    for k := 0 to |text|
      invariant forall i :: 0 <= i < 256 ==> outList[i] == multiset(text[..k])[i]
    {
      assert text[..k + 1] == text[..k] + [text[k]];
      outList[text[k]] := outList[text[k]] + 1;
    }
    assert text[..|text|] == text;
    outList[0] := 1;
    counts := outList[..];
  }
}
