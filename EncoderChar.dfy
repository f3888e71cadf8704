/**
 * `HuffmanEncoderChar`: compression one character at a time, one block per
 * chunk the reader returns, and the matching decompression. The two code
 * tables are fields of the encoder and are never cleared.
 */
module EncoderChar {
  import opened Wrappers
  import opened Bits
  import opened Frequency
  import opened HuffmanTree
  import opened Codes
  import opened Decoding
  import opened Container
  import opened Coding
  import opened Nodes
  import opened Builder

  class HuffmanEncoderChar {
    /** `huffmanCodeMapChar`. */
    var codeMap: map<char, string>
    /** `reverseHuffmanCodeMapChar`. */
    var reverseCodeMap: map<string, char>

    constructor ()
      ensures codeMap == map[] && reverseCodeMap == map[]
    {
      codeMap := map[];
      reverseCodeMap := map[];
    }

    /**
     * Empty both tables. The source never does this; it is the reset that
     * compression and decompression evidently need when one encoder is used
     * for more than one file.
     */
    method ClearTables()
      modifies this
      ensures codeMap == map[] && reverseCodeMap == map[]
    {
      codeMap := map[];
      reverseCodeMap := map[];
    }

    /**
     * `buildHuffmanCodeChar`: a node with no children is a leaf and gets
     * `code`; otherwise the left subtree gets `code + "0"` and the right
     * `code + "1"`. Entries already in the tables stay unless overwritten.
     */
    method BuildHuffmanCodeChar(root: HuffmanNode?, code: string, ghost tree: Option<Tree<char>>)
      requires root == null <==> tree.None?
      requires root != null ==> root.Valid() && root.CharTree() == tree.value
      modifies this
      ensures tree.None? ==> codeMap == old(codeMap) && reverseCodeMap == old(reverseCodeMap)
      ensures tree.Some? ==> codeMap == old(codeMap) + CodeMap(tree.value, code)
      ensures tree.Some? ==> reverseCodeMap == old(reverseCodeMap) + ReverseMap(tree.value, code)
      decreases if root == null then {} else root.Repr
    {
      if root == null {
        return;
      }
      ghost var t := tree.value;
      if root.left == null && root.right == null {
        PutIsUnion(codeMap, root.character, code);
        PutIsUnion(reverseCodeMap, code, root.character);
        codeMap := codeMap[root.character := code];
        reverseCodeMap := reverseCodeMap[code := root.character];
        return;
      }
      ghost var l, r := root.left.CharTree(), root.right.CharTree();
      assert t == Node(root.frequency, l, r);
      BuildHuffmanCodeChar(root.left, code + "0", Some(l));
      BuildHuffmanCodeChar(root.right, code + "1", Some(r));
      UnionAssoc(old(codeMap), CodeMap(l, code + "0"), CodeMap(r, code + "1"));
      UnionAssoc(old(reverseCodeMap), ReverseMap(l, code + "0"), ReverseMap(r, code + "1"));
    }

    /** Lines 27-28 of the compressor: build the tree for the counts, then write its codes into the tables. */
    method BuildCodes(frequencyMap: map<char, nat>) returns (ghost tree: Option<Tree<char>>)
      modifies this
      ensures tree.None? <==> frequencyMap == map[]
      ensures tree.Some? ==> IsHuffmanTree(frequencyMap, tree.value)
      ensures codeMap == old(codeMap) + CodesOf(tree)
      ensures reverseCodeMap == old(reverseCodeMap) + ReversesOf(tree)
    {
      var rootChar, seed, trace := BuildTreeChar(frequencyMap);
      tree := if rootChar == null then None else Some(rootChar.CharTree());
      BuildHuffmanCodeChar(rootChar, "", tree);
    }

    /** The block loop of the compressor: per chunk, the codes of its characters, then `writeBits` and `setLength(0)`. */
    method WriteBlocks(chunks: seq<string>) returns (blocks: seq<Block>)
      requires Covers(codeMap, chunks)
      ensures blocks == PackedAll(ChunkCodes(codeMap, chunks))
    {
      blocks := [];
      var k := 0;
      while k < |chunks|
        invariant 0 <= k <= |chunks|
        invariant blocks == PackedAll(ChunkCodes(codeMap, chunks[..k]))
      {
        var encodedText := AppendCodes(codeMap, "", chunks[k]);
        assert encodedText == Encode(codeMap, chunks[k]);
        var block := WriteBits(encodedText);
        OneMoreChunk(codeMap, chunks, k);
        blocks := blocks + [block];
        k := k + 1;
      }
      assert chunks[..k] == chunks;
    }

    /**
     * `compressFileToBinaryByChar`, with the input given as the chunks that
     * successive `reader.read(buffer)` calls return: count the characters,
     * build the tree and the codes, write the header, then one block per
     * chunk holding the codes of its characters.
     */
    method Compress(chunks: seq<string>) returns (file: Compressed<char>, ghost tree: Option<Tree<char>>)
      modifies this
      ensures tree.None? <==> Concat(chunks) == []
      ensures tree.Some? ==> IsHuffmanTree(Count(Concat(chunks)), tree.value)
      ensures codeMap == old(codeMap) + CodesOf(tree)
      ensures reverseCodeMap == old(reverseCodeMap) + ReversesOf(tree)
      ensures Lists(file.header, codeMap)
      ensures Covers(codeMap, chunks)
      ensures file.blocks == PackedAll(ChunkCodes(codeMap, chunks))
    {
      var text := Concat(chunks);
      var frequencyMapChar := CountChars(text);
      CountEmpty(text);
      tree := BuildCodes(frequencyMapChar);
      ChunksCovered(chunks, tree);
      CoversUnion(old(codeMap), CodesOf(tree), chunks);
      var header := WriteHeader(codeMap);
      var blocks := WriteBlocks(chunks);
      file := Compressed(header, blocks);
    }

    /**
     * `decompressFileFromBinaryByChar`: `put(code, character)` for every
     * header pair into the reverse table, then decode the blocks with it.
     */
    method Decompress(file: Compressed<char>) returns (text: string)
      modifies this
      ensures codeMap == old(codeMap)
      ensures reverseCodeMap == PutAll(old(reverseCodeMap), file.header)
      ensures text == Feed(reverseCodeMap, DecodeState([], ""), UnpackedAll(file.blocks)).out
    {
      var mapSize := |file.header|;
      var i := 0;
      while i < mapSize
        invariant 0 <= i <= mapSize
        invariant codeMap == old(codeMap)
        invariant reverseCodeMap == PutAll(old(reverseCodeMap), file.header[..i])
      {
        var (character, code) := file.header[i];
        assert file.header[..i + 1][..i] == file.header[..i];
        reverseCodeMap := reverseCodeMap[code := character];
        i := i + 1;
      }
      assert file.header[..i] == file.header;
      var tempCode;
      text, tempCode := DecodeBlocks(reverseCodeMap, file.blocks);
    }
  }

  /** The blocks of one more chunk. */
  lemma OneMoreChunk(codes: map<char, string>, chunks: seq<string>, k: nat)
    requires k < |chunks|
    requires Covers(codes, chunks)
    ensures PackedAll(ChunkCodes(codes, chunks[..k + 1])) ==
      PackedAll(ChunkCodes(codes, chunks[..k])) + [Packed(Encode(codes, chunks[k]))]
  {
    assert chunks[..k + 1][..k] == chunks[..k];
    var parts := ChunkCodes(codes, chunks[..k + 1]);
    assert parts[..k] == ChunkCodes(codes, chunks[..k]);
  }
}
