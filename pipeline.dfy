/**
 * huffman_encode and huffman_decode (huffman_coding.py:108-139, 174-215)
 * with their files replaced by values: the encoder returns the header, the
 * uncompressed output and the bits handed to the bit writer; the decoder
 * takes the header text and the bits the bit reader yields.
 */
module Pipeline {
  import opened Wrappers
  import opened Huffman
  import opened TreeBuild
  import opened Counting
  import opened Codes
  import opened Header
  import opened Decode

  /** The tree create_huff_tree returns, as a plain optional node. */
  function TreeOf(freqs: seq<int>): Option<HuffmanNode> {
    match HuffTree(freqs)
    case None => None
    case Some(t) => Some(t)
  }

  /** The uncompressed output file: header, a space, a newline, then the codes. */
  function PlainOutput(header: string, encodedText: string): string {
    header + " " + "\n" + encodedText
  }

  /**
   * huffman_encode: count, build the tree, derive the codes and the
   * header, and encode the text; the code of symbol 0 is appended only to
   * the compressed stream, after the uncompressed output is written.
   */
  method HuffmanEncode(text: seq<Byte>) returns (header: string, plain: string, compressed: seq<bool>)
    ensures HuffTree(Frequencies(text)).Some?
    ensures Codable(HuffTree(Frequencies(text)).value)
    ensures header == HeaderOf(Frequencies(text))
    ensures plain == PlainOutput(header, Encoded(text, CodeTable(HuffTree(Frequencies(text)).value)))
    ensures compressed == Bits(Encoded(text, CodeTable(HuffTree(Frequencies(text)).value)) + CodeTable(HuffTree(Frequencies(text)).value)[0])
  {
    var freqList := CountFreq(text);
    var hufftree := BuildTree(freqList);
    var t := hufftree.value;
    WellFormedIsCodable(t, 256);
    var codes := CreateCode(t);
    header := CreateHeader(freqList);
    var encodedText := EncodeText(text, codes);
    plain := PlainOutput(header, encodedText);
    encodedText := encodedText + codes[0];
    compressed := Bits(encodedText);
  }

  /** The ways huffman_decode fails. */
  datatype PipelineError = BadHeader(headerError: HeaderError) | BadStream(decodeError: DecodeError)

  /** What huffman_decode writes, or how it fails. */
  function DecodeSpec(header: string, bits: seq<bool>): Result<seq<nat>, PipelineError> {
    match ParseHeaderSpec(header)
    case Err(e) => Err(BadHeader(e))
    case Ok(freqs) =>
      match DecodeBits(TreeOf(freqs), bits)
      case Err(e) => Err(BadStream(e))
      case Ok(out) => Ok(out)
  }

  /** huffman_decode: parse the header, rebuild the tree, and run the decode loop. */
  method HuffmanDecodeStream(header: string, bits: seq<bool>) returns (r: Result<seq<nat>, PipelineError>)
    ensures r == DecodeSpec(header, bits)
  {
    var parsed := ParseHeader(header);
    if parsed.Err? {
      return Err(BadHeader(parsed.error));
    }
    var hufftree := BuildTree(parsed.value);
    var decoded := HuffmanDecode(hufftree, bits);
    if decoded.Err? {
      return Err(BadStream(decoded.error));
    }
    r := Ok(decoded.value);
  }

  /**
   * The end-to-end round trip: decoding the header and the compressed bits
   * huffman_encode produces gives back the text up to its first byte 0,
   * which is all of it for a text without a 0 byte.
   */
  lemma EncodeDecodeRoundTrip(text: seq<Byte>)
    ensures HuffTree(Frequencies(text)).Some?
    ensures Codable(HuffTree(Frequencies(text)).value)
    ensures DecodeSpec(HeaderOf(Frequencies(text)),
                       Bits(Encoded(text, CodeTable(HuffTree(Frequencies(text)).value))
                            + CodeTable(HuffTree(Frequencies(text)).value)[0]))
            == Ok(TakeUntilZero(text))
  {
    var f := Frequencies(text);
    HeaderRoundTrip(f);
    HuffTreeFacts(f);
    assert f[0] == 1;
    var t := HuffTree(f).value;
    assert 0 in Symbols(t);
    forall i | 0 <= i < |text|
      ensures text[i] in Symbols(t)
    {
      if text[i] != 0 {
        assert text[i] in multiset(text);
        assert f[text[i]] > 0;
      }
    }
    DecodeRoundTrip(t, text);
  }
}
