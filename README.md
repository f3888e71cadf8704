# Huffman text compressors, modelled in Dafny

The repository compresses text files with Huffman codes in three nearly
identical variants:

- `HuffmanEncoderChar` codes one character at a time and writes one block per
  8192-character read.
- `HuffmanEncoderWord` codes words and single whitespace separators, and
  writes one block.
- `HuffmanEncoderBinary` codes characters and writes a block once more than
  8192 bits are pending, plus a final remainder. Its decompressor writes each
  character as a single byte.

Each variant does the same steps:

1. Count the symbols into a map.
2. Build a tree greedily from a priority queue ordered by `HuffmanComparator`.
3. Walk the tree to fill two code tables held in instance fields: symbol to
   code, and code to symbol.
4. Write a header of (symbol, code) pairs.
5. Pack the code bits LSB-first into `BitSet` bytes, with a bit count before
   each block.

Decompression reads the header back into the reverse table. It then feeds the
bits one at a time into a pending code that is carried across blocks, and
emits a symbol on the first exact match.

The model has two layers.

- **Pure layer.** It works over any symbol type:
  - `HuffmanTree`: trees, leaves, the multiset of counts.
  - `Greedy`: the greedy merge run as a trace of polled indices.
  - `Codes`: the code tables as functions of the tree, with prefix-freeness and mutual inverse.
  - `Decoding`: the first-match decoder as a fold over bits.
  - `Bits`: `BitSet.toByteArray` packing and unpacking.
  - `Frequency`: counting.
  - `Tokenizer`: the word scanner.
  - `Coding`: what the three compressors share.
  - `EncodedSize`: the encoded length as Σ count × |code|.
- **Imperative layer.** It follows the Java:
  - `Nodes.HuffmanNode` is a class with mutable `left`/`right`.
  - `Builder` holds the tree-building loops over a queue of nodes.
  - The three encoder classes keep the two tables as fields, filled by
    recursive methods. `Compress` and `Decompress` are methods that loop over
    the input.
  - `Sessions` and `Reuse` run compress-then-decompress on one encoder
    instance, as `Menu` and `Main` do, and state what comes out.

Input is given as the sequence of chunks that successive `reader.read(buffer)`
calls return; the text is their concatenation. A compressed file is the
sequence of header pairs plus the sequence of blocks (`bitLength`, bytes).

Three defects of the source are stated and proved:

- Input with one distinct symbol gets the empty code and decodes to nothing.
- The code tables are never cleared, so a second file compressed on the same
  encoder can be decoded wrongly.
- Bits still pending when the input ends are dropped.

## Model

| member | source | states |
|---|---|---|
| Frequency.CountChars | src/HuffmanEncoderChar.java:21-23 | the counting loop leaves exactly `Count(text)` |
| Frequency.CountIsOccurrences | src/HuffmanEncoderChar.java:21-23 | a symbol is a key of the count map iff it occurs in the input, and its count equals its number of occurrences |
| Frequency.CountEmpty | src/HuffmanEncoderChar.java:21-23 | the count map is empty iff the input is empty |
| Frequency.CountTotal | src/HuffmanEncoderBinary.java:11-17 | the count map, read with 0 for missing keys, equals the multiset of the input |
| Tokenizer.CountWords | src/HuffmanEncoderWord.java:20-43 | the word-counting loop (words flushed at whitespace and at the end, each whitespace counted as its own token) leaves exactly the counts of `Tokenize(text)` |
| Tokenizer.Lossless | src/HuffmanEncoderWord.java:23-43 | concatenating the tokens in order gives back the input text exactly |
| Tokenizer.TokenShapes | src/HuffmanEncoderWord.java:27-37 | every token is a single whitespace char or a non-empty word without whitespace, and no two words are adjacent |
| Tokenizer.ScanLossless | src/HuffmanEncoderWord.java:23-38 | at every point of the scan, the tokens emitted plus the word being built equal the text read so far |
| Tokenizer.ScanShapes | src/HuffmanEncoderWord.java:27-37 | the scan only emits well-shaped maximal tokens, and the word being built never holds whitespace |
| Comparator.CompareOrdersByFrequency | src/HuffmanComparator.java:13-15 | for frequencies below 2^31, `compare` is negative, zero or positive exactly when x's frequency is lower, equal or higher, and `compare(x,y) == -compare(y,x)` |
| Comparator.Compare | src/HuffmanComparator.java:13-15 | the result is an `int`, equal modulo 2^32 to the difference of the two frequencies |
| Comparator.Int32 | src/HuffmanComparator.java:14 | the 32-bit wrap of the subtraction: in range, congruent modulo 2^32, identity on values already in range |
| Nodes.HuffmanNode.ForChar | src/HuffmanNode.java:9-15 | stores the character and frequency, the word is null, both children null: a leaf |
| Nodes.HuffmanNode.ForWord | src/HuffmanNode.java:18-24 | stores the word and frequency, character `'\0'`, both children null: a leaf |
| Nodes.HuffmanNode.CharTree | src/HuffmanEncoderChar.java:140 | the abstract tree has the node's frequency, and it is a leaf exactly when both children are null |
| Nodes.HuffmanNode.WordTree | src/HuffmanEncoderWord.java:175 | the abstract tree has the node's frequency, and it is a leaf exactly when the word is non-null |
| Builder.SeedChar | src/HuffmanEncoderChar.java:109-113 | the queue holds one leaf per entry of the count map, with its count |
| Builder.MergeLeastChar | src/HuffmanEncoderChar.java:115-125 | one iteration: polls a least-frequent node, then a least-frequent of the rest, and queues a `'\0'` parent with the two as left and right and the sum of their frequencies; the queue shrinks by one |
| Builder.BuildTreeChar | src/HuffmanEncoderChar.java:108-128 | the root is null iff the count map is empty; otherwise it is the one tree a greedy run of merges builds from the leaves |
| Builder.SeedWord | src/HuffmanEncoderWord.java:144-148 | the queue holds one word leaf per entry of the count map, with its count |
| Builder.MergeLeastWord | src/HuffmanEncoderWord.java:150-160 | one merge of the two least-frequent nodes under a parent with a null word |
| Builder.BuildTreeWord | src/HuffmanEncoderWord.java:143-163 | as `BuildTreeChar`, for words, with internal nodes told apart by their null word |
| Builder.LeastExists | src/HuffmanEncoderChar.java:116-117 | a non-empty queue always has a node of least frequency for `poll` to return |
| Builder.LeastComparesFirst | src/HuffmanComparator.java:13-15 | for frequencies below 2^31, a node of least frequency is one `compare` ranks first against every node in the queue |
| Greedy.BuiltTree | src/HuffmanEncoderWord.java:143-163 | a tree built greedily has exactly the map's keys as its leaves, each once; every parent's frequency is its children's sum with left ≤ right; each symbol is counted its map count; the root's frequency is the total count; and the run made `\|freq\| - 1` merges |
| Greedy.RunKeeps | src/HuffmanEncoderChar.java:115-125 | every merge of a run keeps the multiset of symbols and of counts of the queue, and shortens it by one |
| Greedy.MergeKeepsShape | src/HuffmanEncoderChar.java:116-124 | merging two least nodes keeps every tree in the queue summed, ordered and counted from the map |
| Codes.CodeMapKey | src/HuffmanEncoderChar.java:135-148 | the symbols that get a code are exactly the leaves of the tree |
| Codes.CodesExtendPrefix | src/HuffmanEncoderChar.java:146-147 | every code below a prefix extends it, strictly below an internal node, and consists of '0' and '1' only |
| Codes.ReverseMapPrefixFree | src/HuffmanEncoderWord.java:170-183 | no code is a prefix of another |
| Codes.TablesInverse | src/HuffmanEncoderBinary.java:98-112 | for a tree with distinct leaves, the code table and the reverse table are mutual inverses |
| Codes.EncodeAppend | src/HuffmanEncoderWord.java:62-83 | the encoding of a concatenation is the concatenation of the encodings |
| EncoderChar.HuffmanEncoderChar.BuildHuffmanCodeChar | src/HuffmanEncoderChar.java:135-148 | the recursion adds exactly the root-to-leaf path tables of the tree to both fields and keeps every other entry |
| EncoderWord.HuffmanEncoderWord.BuildHuffmanCodeWord | src/HuffmanEncoderWord.java:170-183 | as above, with "has a word" as the leaf test |
| EncoderBinary.HuffmanEncoderBinary.BuildHuffmanCode | src/HuffmanEncoderBinary.java:98-112 | as above, for the binary encoder's tables |
| EncoderChar.HuffmanEncoderChar.BuildCodes | src/HuffmanEncoderChar.java:27-28 | no tree iff nothing was counted; otherwise a Huffman tree for the counts, and both fields are extended by its tables |
| EncoderWord.HuffmanEncoderWord.BuildCodes | src/HuffmanEncoderWord.java:47-48 | the same for the word counts and the word encoder's fields |
| EncoderBinary.HuffmanEncoderBinary.BuildCodes | src/HuffmanEncoderBinary.java:20-21 | the same for the binary encoder's fields |
| Coding.HuffmanCodes | src/HuffmanEncoderChar.java:135-148 | the codes of a built tree cover exactly the counted symbols, are binary, prefix-free and inverse to the reverse table; the root is a leaf iff there is one symbol; otherwise no code is empty |
| Coding.ChunksCovered | src/HuffmanEncoderChar.java:46-49 | every character of every chunk read has a code in the table of the tree built from the counts of the whole input |
| Coding.SymbolsCovered | src/HuffmanEncoderChar.java:48 | every symbol of the input has a code, so no `get` returns null |
| Bits.WriteBits | src/HuffmanEncoderChar.java:155-167 | the loop that sets bit i for every '1' yields the block `Packed(encodedText)` |
| Bits.PackedSpec | src/HuffmanEncoderBinary.java:58-72 | `bitLength` is the text's length; bit i (byte i/8, bit i%8) is set iff char i is '1'; there are at most ⌈L/8⌉ bytes and the last byte is non-zero |
| Bits.PackBits | src/HuffmanEncoderWord.java:190-202 | reading bit i of the packed bytes gives bit i of the input, and false beyond its end |
| Bits.TrimKeepsBits | src/HuffmanEncoderWord.java:121-124 | dropping trailing zero bytes changes no bit that `BitSet.get` reads |
| Bits.UnpackPacked | src/HuffmanEncoderChar.java:83-91 | reading back `bitLength` bits of the block `writeBits` packs gives the bit string again |
| Bits.UnpackAllPacked | src/HuffmanEncoderChar.java:82-91 | reading back all the blocks gives the concatenation of their bit strings |
| Container.WriteHeader | src/HuffmanEncoderChar.java:35-39 | the header has one pair per table entry, with its code, each key once, in any order |
| Container.ReadHeader | src/HuffmanEncoderChar.java:71-76 | putting every header pair into a reverse table that starts empty or already agrees rebuilds exactly the inverse of the written table |
| Decoding.Step | src/HuffmanEncoderChar.java:91-95 | one bit extends the pending code; a symbol is emitted, and the pending code cleared, exactly when the extended code is a key |
| Decoding.FeedAppend | src/HuffmanEncoderChar.java:82-97 | decoding two bit strings one after the other, with the pending code carried over, is decoding their concatenation |
| Decoding.FeedCode | src/HuffmanEncoderChar.java:90-96 | with a prefix-free table, feeding one non-empty code emits its symbol and leaves nothing pending |
| Decoding.DecodeEncode | src/HuffmanEncoderWord.java:112-131 | with inverse, prefix-free, non-empty codes, decoding the encoding of any symbols emits exactly those symbols and leaves nothing pending |
| Decoding.EmptyCodeNeverMatches | src/HuffmanEncoderChar.java:92 | with only the empty code in the table, no bit ever emits a symbol and all bits stay pending |
| Coding.DecodeBlocks | src/HuffmanEncoderChar.java:79-97 | the nested block and bit loops produce exactly the decoder fold over all the blocks' bits; the pending code is returned and then dropped |
| Coding.RoundTrip | src/HuffmanEncoderWord.java:112-131 | with at least two distinct symbols, decoding the encoding with the reverse table rebuilt from the header gives back the symbols |
| Coding.ChunkCodesJoin | src/HuffmanEncoderChar.java:42-54 | the per-chunk blocks concatenate to the encoding of the whole input |
| Coding.AppendCodes | src/HuffmanEncoderChar.java:47-49 | the append loop adds the codes of the chunk, in order, to the pending bits |
| EncoderChar.HuffmanEncoderChar.WriteBlocks | src/HuffmanEncoderChar.java:42-54 | one block per chunk, each packing exactly the codes of that chunk's characters |
| EncoderChar.HuffmanEncoderChar.Compress | src/HuffmanEncoderChar.java:14-55 | no tree iff the input is empty; the tables become the old tables plus the new tree's; the header lists the tables; the blocks are the per-chunk encodings |
| EncoderChar.HuffmanEncoderChar.Decompress | src/HuffmanEncoderChar.java:65-98 | the reverse table becomes the old one with every header pair put; the text is the decoder fold over the blocks |
| EncoderWord.HuffmanEncoderWord.EncodeText | src/HuffmanEncoderWord.java:62-83 | the re-scanning loop, which emits a word's code at whitespace and at the end, produces exactly the encoding of `Tokenize(text)` |
| EncoderWord.EncodeChar | src/HuffmanEncoderWord.java:65-78 | one character of that loop keeps the scan state and the encoding of the tokens so far in step |
| EncoderWord.HuffmanEncoderWord.Compress | src/HuffmanEncoderWord.java:14-86 | as the character compressor, over tokens, writing a single block |
| EncoderWord.HuffmanEncoderWord.Decompress | src/HuffmanEncoderWord.java:97-132 | the header rebuilds the reverse table; the text is the concatenation of the decoded tokens |
| EncodedSize.EncodedLength | src/HuffmanEncoderWord.java:62-83 | the encoded bit string is Σ count(s) × \|code(s)\| long |
| EncoderBinary.FlushedSpec | src/HuffmanEncoderBinary.java:39-54 | the written blocks concatenate to all the codes, none is empty, and each except the last holds more than 8192 bits |
| EncoderBinary.FlushFoldSizes | src/HuffmanEncoderBinary.java:45-48 | a block is written only with more than 8192 bits pending, and never more than 8192 stay pending |
| EncoderBinary.HuffmanEncoderBinary.WriteBlocks | src/HuffmanEncoderBinary.java:35-54 | the threshold-flush loop and the final remainder write exactly the packed `Flushed` blocks |
| EncoderBinary.HuffmanEncoderBinary.Compress | src/HuffmanEncoderBinary.java:9-56 | as the character compressor, with the threshold blocks |
| EncoderBinary.LowBytesFaithful | src/HuffmanEncoderBinary.java:148 | `write(int)` keeps only the low 8 bits: each output byte equals its character iff every character is below 256 |
| EncoderBinary.HuffmanEncoderBinary.Decompress | src/HuffmanEncoderBinary.java:114-154 | the header rebuilds the reverse table; the output is the low byte of every decoded character |
| Sessions.CharSession | src/Menu.java:63-87 | compressing then decompressing with a fresh encoder gives back the text, except for input with one distinct character, which gives nothing; empty input gives an empty header and one block per chunk |
| Sessions.WordSession | src/Menu.java:90-114 | the same for words, with a single block |
| Sessions.BinarySession | src/Main.java:7-52 | the same for the binary encoder, up to the low byte of each character, with no empty block and every block but the last above 8192 bits |
| Coding.SingleSymbolLost | src/HuffmanEncoderChar.java:140-143 | with one distinct symbol the root is a leaf with code `""`, the encoding is empty, and decoding emits nothing |
| Coding.CorrectedRoundTrip | src/HuffmanEncoderChar.java:135-148 | with a lone leaf coded "0", the round trip holds for every non-empty input, one distinct symbol included |
| Reuse.TwoFilesShared | src/Menu.java:15-16 | two compressions and a decompression on one encoder use the union of both files' tables in the header and in the reverse table |
| Reuse.StaleTablesMisdecode | src/HuffmanEncoderChar.java:6-7 | the shared encoder compresses "cd", then "ab"; the second header lists 'a', 'b', 'c', 'd' in the `HashMap`'s hash order, so the stale pairs are put last and the second file decodes as "cd" |
| Reuse.TwoFilesCleared | src/HuffmanEncoderChar.java:6-7 | with both tables cleared before each step, the second file comes back as read, barring a single distinct character |

## Left out

- File streams, charsets (UTF-8 reader, platform `FileReader`) and the `available()` end-of-input test: the input is a sequence of chunks, and a file is header pairs plus blocks.
- A character of the model is a Unicode scalar value (Dafny's `char`), while `reader.read` yields UTF-16 code units. Input with characters outside the Basic Multilingual Plane is not modelled: Java splits each into two surrogate symbols, which a Dafny string cannot hold.
- Sessions.CharSession: speaks only of text without characters outside the Basic Multilingual Plane; such text is not representable here (e.g. "😀😀" is two distinct code units in Java).
- Sessions.BinarySession: the same restriction on characters.
- The byte layout of `writeInt`, `writeChar` and `writeUTF`: header entries and block lengths are kept as values.
- EncoderWord.HuffmanEncoderWord.Compress: `writeUTF` throws `UTFDataFormatException` for a string whose modified UTF-8 form is longer than 65535 bytes (src/HuffmanEncoderWord.java:57-58). A word of that length, such as 70000 letters with no whitespace, makes the source fail while it writes the header. The model has no such error path and returns a file for every text.
- Sessions.WordSession: for the same reason, the round trip it states does not happen in the source for a text holding a token, or a code, longer than 65535 modified-UTF-8 bytes. There compression throws instead.
- `HashMap` iteration order and `PriorityQueue` tie order are unspecified: the header may list the pairs in any order, and a poll may take any least-frequent node. Every property holds for every choice.
- `java.util.BitSet` internals: only the LSB-first index-to-(byte, bit) mapping and the trimming of trailing zero bytes are modelled.
- Comparator.CompareOrdersByFrequency: holds only for frequencies below 2^31. Frequencies are unbounded everywhere else, so Java `int` overflow of counts and sums is not modelled.
- Builder.BuildTreeChar: it is also the binary encoder's `buildHuffmanTree` (src/HuffmanEncoderBinary.java:75-95), which is the same code.
- Greedy.BuiltTree: states the greedy structure and the counts, not that the code is optimal.
- Nodes.HuffmanNode.ForWord: a null word is `None`, and a word-mode leaf always has a word.
- EncoderChar.HuffmanEncoderChar.Decompress: the text is produced whole rather than written character by character; the order and content written are the same.
- EncoderWord.HuffmanEncoderWord.Decompress: the same; the text written is the concatenation of the decoded tokens.
- Bits still pending at the end of decoding are dropped without error, as in the source. `Coding.DecodeBlocks` returns them, and the decompressors ignore them.
- Timing (`System.currentTimeMillis`) and console messages.
- The interactive menus of `Menu` and `Main` are left out. Only the encoder instances they create and the order of calls are used.
- `countLinesAndCharacters` and `contarLinhasECaracteresArquivo` are line-counting I/O and are left out.
- The unused `writeFile` is left out.

## Findings

| source | as written | input that shows it | evidently intended | confidence | as-written member | corrected member |
|---|---|---|---|---|---|---|
| src/HuffmanEncoderChar.java:140-143 | a tree that is a single leaf gets the empty code `""`; every symbol encodes to no bits, and decompression emits nothing | a file holding only "aaa" | the lone symbol gets a one-bit code such as "0", so it decodes back | not executed | Coding.SingleSymbolLost | Coding.CorrectedRoundTrip |
| src/HuffmanEncoderChar.java:6-7 | the code tables are instance fields that are never cleared, and `Menu` keeps one encoder for every file | compress "cd", then "ab", then decompress the second file: with the header in the `HashMap` order 'a', 'b', 'c', 'd', "cd" comes back | clear both tables before building or reading a table | not executed | Reuse.StaleTablesMisdecode | Reuse.TwoFilesCleared |
