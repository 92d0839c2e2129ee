/**
  The two halves of the Huffman codec together, with the table of section 5.2 and Appendix B of RFC 7541 as the
  repository has it.
 */
module HuffmanRoundTrip {
  import opened Options
  import opened Bits
  import opened HuffmanCode
  import opened HuffmanTable
  import opened HuffmanTree
  import opened HuffmanEncoder

  /** What the encoder wrote decodes to the string exactly if there is no byte 5 in it. */
  lemma WrittenComesBackIff(tree: Tree, val: seq<Byte>, bytes: seq<Byte>)
    requires IsTreeOf(tree, StaticHuffman())
    requires |bytes| == (|Encode(StaticHuffman(), val)| + 7) / 8
    requires BitsOfBytes(bytes) == Encode(StaticHuffman(), val) + Ones(8 * |bytes| - |Encode(StaticHuffman(), val)|)
    ensures Decode(tree, [], BitsOfBytes(bytes)) == Some(val) <==> 5 !in val
  {
    hide *;
    StaticRoundTripIff(tree, val, 8 * |bytes| - |Encode(StaticHuffman(), val)|);
  }

  lemma TableHasRows()
    ensures |StaticHuffman()| == EOS + 1 && forall i :: 0 <= i <= EOS ==> StaticHuffman()[i].len >= 1
  {
    TableIsGood();
  }

  /** add_huffman_string, and get_huffman_string of what it wrote. */
  method EncodeThenDecode(t: HuffmanTree, val: seq<Byte>, out: array<Byte>, at: nat) returns (ok: bool, value: seq<Byte>)
    requires t.Valid() && IsTreeOf(t.tree, StaticHuffman())
    requires at + |Encode(StaticHuffman(), val)| / 8 < out.Length
    modifies out
    ensures ok && value == val <==> 5 !in val
  {
    hide *;
    TableHasRows();
    var pos := AddHuffmanString(StaticHuffman(), val, out, at);
    ok, value := t.GetHuffmanString(out[at..pos]);
    WrittenComesBackIff(t.tree, val, out[at..pos]);
  }
}
