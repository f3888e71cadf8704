/**
 * The way the menus drive the encoders: one encoder object is created and
 * kept, a file is compressed with it, and the compressed file is then
 * decompressed with the same object. These methods prove what comes out.
 */
module Sessions {
  import opened Wrappers
  import opened Bits
  import opened Frequency
  import opened Tokenizer
  import opened HuffmanTree
  import opened Codes
  import opened Decoding
  import opened Container
  import opened Coding
  import EncoderChar
  import EncoderWord
  import EncoderBinary

  /**
   * Decoding the bits of the symbols read with the reverse table read back
   * from the header: the symbols themselves, except that nothing comes out
   * when only one distinct symbol was read.
   */
  lemma DecodeFile<S(!new)>(syms: seq<S>, tree: Option<Tree<S>>, header: seq<(S, string)>, rev0: map<string, S>)
    requires tree.None? <==> syms == []
    requires tree.Some? ==> IsHuffmanTree(Count(syms), tree.value)
    requires Lists(header, CodesOf(tree)) && SubTable(rev0, ReversesOf(tree))
    ensures forall i :: 0 <= i < |syms| ==> syms[i] in CodesOf(tree)
    ensures Feed(PutAll(rev0, header), DecodeState([], ""), Encode(CodesOf(tree), syms)).out ==
      if |Count(syms)| == 1 then [] else syms
  {
    CountEmpty(syms);
    if tree.Some? {
      var t := tree.value;
      if |Count(syms)| == 1 {
        SingleSymbolLost(syms, t, PutAll(rev0, header));
      } else {
        RoundTrip(syms, t, header, rev0);
      }
    }
  }

  /** The codes of a built tree are bit strings. */
  lemma CodesAreBits<S(!new)>(syms: seq<S>, tree: Option<Tree<S>>)
    requires tree.Some? ==> IsHuffmanTree(Count(syms), tree.value)
    ensures forall s :: s in CodesOf(tree) ==> IsBinary(CodesOf(tree)[s])
  {
    if tree.Some? {
      HuffmanCodes(Count(syms), tree.value);
    }
  }

  /** The blocks of the character compressor unpack to the codes of the whole input. */
  lemma ChunkBlocksUnpack(codes: map<char, string>, chunks: seq<string>)
    requires Covers(codes, chunks)
    requires forall s :: s in codes ==> IsBinary(codes[s])
    ensures forall i :: 0 <= i < |Concat(chunks)| ==> Concat(chunks)[i] in codes
    ensures UnpackedAll(PackedAll(ChunkCodes(codes, chunks))) == Encode(codes, Concat(chunks))
  {
    ChunkCodesJoin(codes, chunks);
    UnpackAllPacked(ChunkCodes(codes, chunks));
  }

  /** The blocks of the binary compressor unpack to the codes of the whole input. */
  lemma FlushedBlocksUnpack(codes: map<char, string>, chunks: seq<string>)
    requires Covers(codes, chunks)
    requires forall s :: s in codes ==> IsBinary(codes[s])
    ensures forall i :: 0 <= i < |Concat(chunks)| ==> Concat(chunks)[i] in codes
    ensures UnpackedAll(PackedAll(EncoderBinary.Flushed(ChunkCodes(codes, chunks)))) == Encode(codes, Concat(chunks))
  {
    var parts := ChunkCodes(codes, chunks);
    ChunkCodesJoin(codes, chunks);
    EncoderBinary.FlushedSpec(parts);
    EncoderBinary.FlushedBinary(parts);
    UnpackAllPacked(EncoderBinary.Flushed(parts));
  }

  /** The single block of the word compressor unpacks to its bits. */
  lemma OneBlockUnpacks(bits: string)
    requires IsBinary(bits)
    ensures UnpackedAll([Packed(bits)]) == bits
  {
    UnpackAllPacked([bits]);
    assert PackedAll([bits]) == [Packed(bits)];
    assert Concat([bits]) == bits by {
      assert Concat([bits][..0]) == [];
    }
  }

  /** What decompressing a file of the character compressor with the reverse table of the same run gives. */
  lemma CharOutcome(chunks: seq<string>, tree: Option<Tree<char>>, file: Compressed<char>, rev0: map<string, char>, text: string)
    requires tree.None? <==> Concat(chunks) == []
    requires tree.Some? ==> IsHuffmanTree(Count(Concat(chunks)), tree.value)
    requires Lists(file.header, CodesOf(tree)) && Covers(CodesOf(tree), chunks)
    requires file.blocks == PackedAll(ChunkCodes(CodesOf(tree), chunks))
    requires SubTable(rev0, ReversesOf(tree))
    requires text == Feed(PutAll(rev0, file.header), DecodeState([], ""), UnpackedAll(file.blocks)).out
    ensures text == if |Count(Concat(chunks))| == 1 then [] else Concat(chunks)
  {
    CodesAreBits(Concat(chunks), tree);
    ChunkBlocksUnpack(CodesOf(tree), chunks);
    DecodeFile(Concat(chunks), tree, file.header, rev0);
  }

  /**
   * Options 1 then 2 of the text menu on a fresh character encoder: the
   * text read comes back, unless it holds a single distinct character, in
   * which case nothing does. An empty input gives an empty header and one
   * empty block per chunk read (none when the reader returns no chunk).
   */
  method CharSession(chunks: seq<string>) returns (file: Compressed<char>, text: string)
    ensures Concat(chunks) == [] ==> file.header == [] && |file.blocks| == |chunks|
    ensures text == if |Count(Concat(chunks))| == 1 then [] else Concat(chunks)
  {
    var encoder := new EncoderChar.HuffmanEncoderChar();
    ghost var tree;
    file, tree := encoder.Compress(chunks);
    EmptyUnion(CodesOf(tree));
    EmptyUnion(ReversesOf(tree));
    text := encoder.Decompress(file);
    CharOutcome(chunks, tree, file, ReversesOf(tree), text);
  }

  /** What decompressing a file of the word compressor with the reverse table of the same run gives. */
  lemma WordOutcome(text: string, tree: Option<Tree<string>>, file: Compressed<string>, decompressed: string)
    requires tree.None? <==> text == []
    requires tree.Some? ==> IsHuffmanTree(Count(Tokenize(text)), tree.value)
    requires Lists(file.header, CodesOf(tree))
    requires forall k :: 0 <= k < |Tokenize(text)| ==> Tokenize(text)[k] in CodesOf(tree)
    requires file.blocks == [Packed(Encode(CodesOf(tree), Tokenize(text)))]
    requires decompressed == Concat(Feed(PutAll(ReversesOf(tree), file.header), DecodeState([], ""), UnpackedAll(file.blocks)).out)
    ensures decompressed == if |Count(Tokenize(text))| == 1 then [] else text
  {
    var tokens := Tokenize(text);
    Lossless(text);
    CountEmpty(tokens);
    CodesAreBits(tokens, tree);
    DecodeFile(tokens, tree, file.header, ReversesOf(tree));
    EncodeBinary(CodesOf(tree), tokens);
    OneBlockUnpacks(Encode(CodesOf(tree), tokens));
  }

  /**
   * Options 3 then 4 of the text menu on a fresh word encoder: the text
   * read comes back, unless it is made of a single distinct token repeated,
   * in which case nothing does.
   */
  method WordSession(text: string) returns (file: Compressed<string>, decompressed: string)
    ensures |file.blocks| == 1
    ensures decompressed == if |Count(Tokenize(text))| == 1 then [] else text
  {
    var encoder := new EncoderWord.HuffmanEncoderWord();
    ghost var tree;
    file, tree := encoder.Compress(text);
    EmptyUnion(CodesOf(tree));
    EmptyUnion(ReversesOf(tree));
    assert EncoderWord.Coded(CodesOf(tree), Tokenize(text));
    decompressed := encoder.Decompress(file);
    WordOutcome(text, tree, file, decompressed);
  }

  /** What decompressing a file of the binary compressor with the reverse table of the same run gives. */
  lemma BinaryOutcome(chunks: seq<string>, tree: Option<Tree<char>>, file: Compressed<char>, output: seq<Byte>)
    requires tree.None? <==> Concat(chunks) == []
    requires tree.Some? ==> IsHuffmanTree(Count(Concat(chunks)), tree.value)
    requires Lists(file.header, CodesOf(tree)) && Covers(CodesOf(tree), chunks)
    requires file.blocks == PackedAll(EncoderBinary.Flushed(ChunkCodes(CodesOf(tree), chunks)))
    requires output == EncoderBinary.LowBytes(Feed(PutAll(ReversesOf(tree), file.header), DecodeState([], ""), UnpackedAll(file.blocks)).out)
    ensures forall k :: 0 <= k < |file.blocks| ==> file.blocks[k].bitLength > 0
    ensures forall k :: 0 <= k < |file.blocks| - 1 ==> file.blocks[k].bitLength > EncoderBinary.BlockBits
    ensures output == EncoderBinary.LowBytes(if |Count(Concat(chunks))| == 1 then [] else Concat(chunks))
  {
    CodesAreBits(Concat(chunks), tree);
    FlushedBlocksUnpack(CodesOf(tree), chunks);
    DecodeFile(Concat(chunks), tree, file.header, ReversesOf(tree));
    BlockSizes(ChunkCodes(CodesOf(tree), chunks));
  }

  /**
   * Options 1 then 2 of the console program on its single binary encoder:
   * the low byte of every character read comes back, unless the input holds
   * a single distinct character, in which case nothing does; no block is
   * empty and all but the last hold more than 8192 bits.
   */
  method BinarySession(chunks: seq<string>) returns (file: Compressed<char>, output: seq<Byte>)
    ensures forall k :: 0 <= k < |file.blocks| ==> file.blocks[k].bitLength > 0
    ensures forall k :: 0 <= k < |file.blocks| - 1 ==> file.blocks[k].bitLength > EncoderBinary.BlockBits
    ensures output == EncoderBinary.LowBytes(if |Count(Concat(chunks))| == 1 then [] else Concat(chunks))
  {
    var encoder := new EncoderBinary.HuffmanEncoderBinary();
    ghost var tree;
    file, tree := encoder.Compress(chunks);
    EmptyUnion(CodesOf(tree));
    EmptyUnion(ReversesOf(tree));
    output := encoder.Decompress(file);
    BinaryOutcome(chunks, tree, file, output);
  }

  /** The bit counts the binary compressor records for its blocks. */
  lemma BlockSizes(parts: seq<string>)
    ensures forall k :: 0 <= k < |EncoderBinary.Flushed(parts)| ==> PackedAll(EncoderBinary.Flushed(parts))[k].bitLength > 0
    ensures forall k :: 0 <= k < |EncoderBinary.Flushed(parts)| - 1 ==>
      PackedAll(EncoderBinary.Flushed(parts))[k].bitLength > EncoderBinary.BlockBits
  {
    var blocks := EncoderBinary.Flushed(parts);
    EncoderBinary.FlushedSpec(parts);
    PackedAllLengths(blocks);
  }
}
