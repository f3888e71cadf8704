/**
 * `HuffmanEncoderBinary`: compression one character at a time with large
 * blocks (the pending bits are written only once there are more than 8192 of
 * them, and whatever is left at the end), and a decompression that writes
 * every decoded character as a single byte. The two code tables are fields
 * of the encoder and are never cleared.
 */
module EncoderBinary {
  import opened Wrappers
  import opened Bits
  import opened Frequency
  import opened HuffmanTree
  import opened Codes
  import opened Decoding
  import opened Container
  import opened Coding
  import opened Nodes
  import opened Builder

  /** A block is written as soon as more than this many bits are pending. */
  const BlockBits: nat := 8192

  /** The blocks written so far and the bits still pending in `encodedText`. */
  datatype Pending = Pending(written: seq<string>, encodedText: string)

  /** After one chunk: append its codes, then write them all as a block if there are more than `BlockBits`. */
  function FlushStep(st: Pending, chunkCodes: string): Pending
  {
    var e := st.encodedText + chunkCodes;
    if |e| > BlockBits then Pending(st.written + [e], "") else Pending(st.written, e)
  }

  /** The state of the block loop after the chunks whose codes are `parts`. */
  function FlushFold(parts: seq<string>): Pending
  {
    if parts == [] then Pending([], "") else FlushStep(FlushFold(parts[..|parts| - 1]), parts[|parts| - 1])
  }

  /** The bit strings of the blocks of the file: those of the loop, then the remainder if there is one. */
  function Flushed(parts: seq<string>): seq<string>
  {
    var st := FlushFold(parts);
    if |st.encodedText| > 0 then st.written + [st.encodedText] else st.written
  }

  /** The block loop loses and reorders nothing. */
  lemma {:induction false} FlushFoldConcat(parts: seq<string>)
    ensures Concat(FlushFold(parts).written) + FlushFold(parts).encodedText == Concat(parts)
    decreases |parts|
  {
    if parts != [] {
      var init := parts[..|parts| - 1];
      var p := parts[|parts| - 1];
      FlushFoldConcat(init);
      var st := FlushFold(init);
      ConcatSnoc(init, p);
      assert init + [p] == parts;
      if |st.encodedText + p| > BlockBits {
        ConcatSnoc(st.written, st.encodedText + p);
      }
    }
  }

  /** Every block the loop writes holds more than `BlockBits` bits, and at most `BlockBits` stay pending. */
  lemma {:induction false} FlushFoldSizes(parts: seq<string>)
    ensures forall k :: 0 <= k < |FlushFold(parts).written| ==> |FlushFold(parts).written[k]| > BlockBits
    ensures |FlushFold(parts).encodedText| <= BlockBits
    decreases |parts|
  {
    if parts != [] {
      FlushFoldSizes(parts[..|parts| - 1]);
    }
  }

  /** The block loop writes only bits when the codes of the chunks are bits. */
  lemma {:induction false} FlushFoldBinary(parts: seq<string>)
    requires forall k :: 0 <= k < |parts| ==> IsBinary(parts[k])
    ensures IsBinary(FlushFold(parts).encodedText)
    ensures forall k :: 0 <= k < |FlushFold(parts).written| ==> IsBinary(FlushFold(parts).written[k])
    decreases |parts|
  {
    if parts != [] {
      var init := parts[..|parts| - 1];
      var p := parts[|parts| - 1];
      assert forall k :: 0 <= k < |init| ==> init[k] == parts[k];
      FlushFoldBinary(init);
      var e := FlushFold(init).encodedText + p;
      assert IsBinary(p);
      assert IsBinary(e);
    }
  }

  /**
   * The blocks of the file hold the codes of the chunks in order, none is
   * empty, and all but the last hold more than `BlockBits` bits.
   */
  lemma FlushedSpec(parts: seq<string>)
    ensures Concat(Flushed(parts)) == Concat(parts)
    ensures forall k :: 0 <= k < |Flushed(parts)| ==> Flushed(parts)[k] != ""
    ensures forall k :: 0 <= k < |Flushed(parts)| - 1 ==> |Flushed(parts)[k]| > BlockBits
  {
    FlushFoldConcat(parts);
    FlushFoldSizes(parts);
    var st := FlushFold(parts);
    var r := Flushed(parts);
    if |st.encodedText| > 0 {
      assert r == st.written + [st.encodedText];
      ConcatSnoc(st.written, st.encodedText);
    } else {
      assert r == st.written;
    }
  }

  /** The blocks of the file hold only bits when the codes of the chunks do. */
  lemma FlushedBinary(parts: seq<string>)
    requires forall k :: 0 <= k < |parts| ==> IsBinary(parts[k])
    ensures forall k :: 0 <= k < |Flushed(parts)| ==> IsBinary(Flushed(parts)[k])
  {
    FlushFoldBinary(parts);
    var st := FlushFold(parts);
    var r := Flushed(parts);
    if |st.encodedText| > 0 {
      assert r == st.written + [st.encodedText];
    } else {
      assert r == st.written;
    }
  }

  /** The single byte `writer.write(int)` emits for a character: its low eight bits. */
  function LowByte(c: char): Byte
  {
    (c as int) % 256
  }

  /** The bytes written for the decoded characters, one each, in order. */
  function LowBytes(s: string): (r: seq<Byte>)
    ensures |r| == |s|
  {
    seq(|s|, i requires 0 <= i < |s| => LowByte(s[i]))
  }

  /** The bytes written are the characters themselves exactly when every character is below 256. */
  lemma LowBytesFaithful(s: string)
    ensures (forall i :: 0 <= i < |s| ==> LowBytes(s)[i] == s[i] as int) <==>
      (forall i :: 0 <= i < |s| ==> s[i] as int < 256)
  {
    if forall i :: 0 <= i < |s| ==> LowBytes(s)[i] == s[i] as int {
      forall i | 0 <= i < |s| ensures s[i] as int < 256 {
        assert LowBytes(s)[i] == s[i] as int;
      }
    }
  }

  class HuffmanEncoderBinary {
    /** `huffmanCodeMap`. */
    var codeMap: map<char, string>
    /** `reverseHuffmanCodeMap`. */
    var reverseCodeMap: map<string, char>

    constructor ()
      ensures codeMap == map[] && reverseCodeMap == map[]
    {
      codeMap := map[];
      reverseCodeMap := map[];
    }

    /**
     * `buildHuffmanCode`: a node with no children is a leaf and gets `code`;
     * otherwise the left subtree gets `code + "0"` and the right
     * `code + "1"`. Entries already in the tables stay unless overwritten.
     */
    method BuildHuffmanCode(root: HuffmanNode?, code: string, ghost tree: Option<Tree<char>>)
      requires root == null <==> tree.None?
      requires root != null ==> root.Valid() && root.CharTree() == tree.value
      modifies this
      ensures tree.None? ==> codeMap == old(codeMap) && reverseCodeMap == old(reverseCodeMap)
      ensures tree.Some? ==> codeMap == old(codeMap) + CodeMap(tree.value, code)
      ensures tree.Some? ==> reverseCodeMap == old(reverseCodeMap) + ReverseMap(tree.value, code)
      decreases if root == null then {} else root.Repr
    {
      if root == null {
        return;
      }
      ghost var t := tree.value;
      if root.left == null && root.right == null {
        PutIsUnion(codeMap, root.character, code);
        PutIsUnion(reverseCodeMap, code, root.character);
        codeMap := codeMap[root.character := code];
        reverseCodeMap := reverseCodeMap[code := root.character];
        return;
      }
      ghost var l, r := root.left.CharTree(), root.right.CharTree();
      assert t == Node(root.frequency, l, r);
      BuildHuffmanCode(root.left, code + "0", Some(l));
      BuildHuffmanCode(root.right, code + "1", Some(r));
      UnionAssoc(old(codeMap), CodeMap(l, code + "0"), CodeMap(r, code + "1"));
      UnionAssoc(old(reverseCodeMap), ReverseMap(l, code + "0"), ReverseMap(r, code + "1"));
    }

    /**
     * Lines 20-21 of the compressor: build the tree for the counts (with the
     * same queue loop as the character encoder's), then write its codes into
     * the tables.
     */
    method BuildCodes(frequencyMap: map<char, nat>) returns (ghost tree: Option<Tree<char>>)
      modifies this
      ensures tree.None? <==> frequencyMap == map[]
      ensures tree.Some? ==> IsHuffmanTree(frequencyMap, tree.value)
      ensures codeMap == old(codeMap) + CodesOf(tree)
      ensures reverseCodeMap == old(reverseCodeMap) + ReversesOf(tree)
    {
      var root, seed, trace := BuildTreeChar(frequencyMap);
      tree := if root == null then None else Some(root.CharTree());
      BuildHuffmanCode(root, "", tree);
    }

    /**
     * The block loop of the compressor: append the codes of every chunk to
     * the pending bits, write them as a block once there are more than
     * `BlockBits`, and write what is left at the end unless it is empty.
     */
    method WriteBlocks(chunks: seq<string>) returns (blocks: seq<Block>)
      requires Covers(codeMap, chunks)
      ensures blocks == PackedAll(Flushed(ChunkCodes(codeMap, chunks)))
    {
      var codes := codeMap;
      blocks := [];
      ghost var written: seq<string> := [];
      var encodedText := "";
      var k := 0;
      while k < |chunks|
        invariant 0 <= k <= |chunks|
        invariant Covers(codes, chunks[..k])
        invariant FlushFold(ChunkCodes(codes, chunks[..k])) == Pending(written, encodedText)
        invariant blocks == PackedAll(written)
      {
        FlushOneMore(codes, chunks, k);
        encodedText := AppendCodes(codes, encodedText, chunks[k]);
        if |encodedText| > BlockBits {
          var block := WriteBits(encodedText);
          assert (written + [encodedText])[..|written|] == written;
          blocks := blocks + [block];
          written := written + [encodedText];
          encodedText := "";
        }
        k := k + 1;
      }
      assert chunks[..k] == chunks;
      if |encodedText| > 0 {
        var block := WriteBits(encodedText);
        assert (written + [encodedText])[..|written|] == written;
        blocks := blocks + [block];
      }
    }

    /**
     * `compressFileToBinary`, with the input given as the chunks that
     * successive `reader.read(buffer)` calls return: count the characters,
     * build the tree and the codes, write the header, then the blocks.
     */
    method Compress(chunks: seq<string>) returns (file: Compressed<char>, ghost tree: Option<Tree<char>>)
      modifies this
      ensures tree.None? <==> Concat(chunks) == []
      ensures tree.Some? ==> IsHuffmanTree(Count(Concat(chunks)), tree.value)
      ensures codeMap == old(codeMap) + CodesOf(tree)
      ensures reverseCodeMap == old(reverseCodeMap) + ReversesOf(tree)
      ensures Lists(file.header, codeMap)
      ensures Covers(codeMap, chunks)
      ensures file.blocks == PackedAll(Flushed(ChunkCodes(codeMap, chunks)))
    {
      var text := Concat(chunks);
      var frequencyMap := CountChars(text);
      CountEmpty(text);
      tree := BuildCodes(frequencyMap);
      ChunksCovered(chunks, tree);
      CoversUnion(old(codeMap), CodesOf(tree), chunks);
      var header := WriteHeader(codeMap);
      var blocks := WriteBlocks(chunks);
      file := Compressed(header, blocks);
    }

    /**
     * `decompressFileFromBinary`: `put(code, character)` for every header
     * pair into the reverse table, then decode the blocks with it, writing
     * the low byte of every decoded character.
     */
    method Decompress(file: Compressed<char>) returns (output: seq<Byte>)
      modifies this
      ensures codeMap == old(codeMap)
      ensures reverseCodeMap == PutAll(old(reverseCodeMap), file.header)
      ensures output == LowBytes(Feed(reverseCodeMap, DecodeState([], ""), UnpackedAll(file.blocks)).out)
    {
      var mapSize := |file.header|;
      var i := 0;
      while i < mapSize
        invariant 0 <= i <= mapSize
        invariant codeMap == old(codeMap)
        invariant reverseCodeMap == PutAll(old(reverseCodeMap), file.header[..i])
      {
        var (character, code) := file.header[i];
        assert file.header[..i + 1][..i] == file.header[..i];
        reverseCodeMap := reverseCodeMap[code := character];
        i := i + 1;
      }
      assert file.header[..i] == file.header;
      var decoded, tempCode := DecodeBlocks(reverseCodeMap, file.blocks);
      output := LowBytes(decoded);
    }
  }

  /** One more chunk through the block loop. */
  lemma FlushOneMore(codes: map<char, string>, chunks: seq<string>, k: nat)
    requires k < |chunks| && Covers(codes, chunks)
    ensures Covers(codes, chunks[..k + 1])
    ensures forall i :: 0 <= i < |chunks[k]| ==> chunks[k][i] in codes
    ensures FlushFold(ChunkCodes(codes, chunks[..k + 1])) ==
      FlushStep(FlushFold(ChunkCodes(codes, chunks[..k])), Encode(codes, chunks[k]))
  {
    ChunkCodesSnoc(codes, chunks, k);
    var parts := ChunkCodes(codes, chunks[..k]);
    assert (parts + [Encode(codes, chunks[k])])[..|parts|] == parts;
  }
}
