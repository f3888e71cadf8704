/**
 * `HuffmanEncoderWord`: compression one token at a time (a maximal run of
 * non-whitespace characters, or one whitespace character), all the bits in
 * a single block, and the matching decompression. The two code tables are
 * fields of the encoder and are never cleared.
 */
module EncoderWord {
  import opened Wrappers
  import opened Bits
  import opened Frequency
  import opened Tokenizer
  import opened HuffmanTree
  import opened Codes
  import opened Decoding
  import opened Container
  import opened Coding
  import opened Nodes
  import opened Builder

  class HuffmanEncoderWord {
    /** `huffmanCodeMapWord`. */
    var codeMap: map<string, string>
    /** `reverseHuffmanCodeMapWord`. */
    var reverseCodeMap: map<string, string>

    constructor ()
      ensures codeMap == map[] && reverseCodeMap == map[]
    {
      codeMap := map[];
      reverseCodeMap := map[];
    }

    /**
     * `buildHuffmanCodeWord`: a node with a word is a leaf and gets `code`;
     * otherwise the left subtree gets `code + "0"` and the right
     * `code + "1"`. Entries already in the tables stay unless overwritten.
     */
    method BuildHuffmanCodeWord(root: HuffmanNode?, code: string, ghost tree: Option<Tree<string>>)
      requires root == null <==> tree.None?
      requires root != null ==> root.Valid() && root.WordShaped() && root.WordTree() == tree.value
      modifies this
      ensures tree.None? ==> codeMap == old(codeMap) && reverseCodeMap == old(reverseCodeMap)
      ensures tree.Some? ==> codeMap == old(codeMap) + CodeMap(tree.value, code)
      ensures tree.Some? ==> reverseCodeMap == old(reverseCodeMap) + ReverseMap(tree.value, code)
      decreases if root == null then {} else root.Repr
    {
      if root == null {
        return;
      }
      ghost var t := tree.value;
      if root.word != None {
        PutIsUnion(codeMap, root.word.value, code);
        PutIsUnion(reverseCodeMap, code, root.word.value);
        codeMap := codeMap[root.word.value := code];
        reverseCodeMap := reverseCodeMap[code := root.word.value];
        return;
      }
      ghost var l, r := root.left.WordTree(), root.right.WordTree();
      assert t == Node(root.frequency, l, r);
      BuildHuffmanCodeWord(root.left, code + "0", Some(l));
      BuildHuffmanCodeWord(root.right, code + "1", Some(r));
      UnionAssoc(old(codeMap), CodeMap(l, code + "0"), CodeMap(r, code + "1"));
      UnionAssoc(old(reverseCodeMap), ReverseMap(l, code + "0"), ReverseMap(r, code + "1"));
    }

    /** Lines 47-48 of the compressor: build the tree for the counts, then write its codes into the tables. */
    method BuildCodes(frequencyMap: map<string, nat>) returns (ghost tree: Option<Tree<string>>)
      modifies this
      ensures tree.None? <==> frequencyMap == map[]
      ensures tree.Some? ==> IsHuffmanTree(frequencyMap, tree.value)
      ensures codeMap == old(codeMap) + CodesOf(tree)
      ensures reverseCodeMap == old(reverseCodeMap) + ReversesOf(tree)
    {
      var rootWord, seed, trace := BuildTreeWord(frequencyMap);
      tree := if rootWord == null then None else Some(rootWord.WordTree());
      BuildHuffmanCodeWord(rootWord, "", tree);
    }

    /**
     * The second pass of the compressor: scan the text again and append the
     * code of every word when whitespace or the end closes it, and the code
     * of every whitespace character.
     */
    method EncodeText(text: string) returns (encodedText: string)
      requires Coded(codeMap, Tokenize(text))
      ensures encodedText == Encode(codeMap, Tokenize(text))
    {
      encodedText := "";
      var wordBuilder := "";
      ghost var tokens: seq<string> := [];
      var codes := codeMap;
      var i := 0;
      while i < |text|
        invariant 0 <= i <= |text|
        invariant Scan(text[..i]) == ScanState(tokens, wordBuilder)
        invariant Coded(codes, tokens) && encodedText == Encode(codes, tokens)
      {
        wordBuilder, encodedText, tokens := EncodeChar(codes, text, i, wordBuilder, encodedText, tokens);
        i := i + 1;
      }
      EncodeLast(codes, text, ScanState(tokens, wordBuilder));
      if |wordBuilder| > 0 {
        var word := wordBuilder;
        encodedText := encodedText + codes[word];
      }
    }

    /**
     * `compressFileToBinaryByWord`: count the tokens, build the tree and the
     * codes, write the header, then a single block with the codes of all
     * tokens, even when the text is empty.
     */
    method Compress(text: string) returns (file: Compressed<string>, ghost tree: Option<Tree<string>>)
      modifies this
      ensures tree.None? <==> text == []
      ensures tree.Some? ==> IsHuffmanTree(Count(Tokenize(text)), tree.value)
      ensures codeMap == old(codeMap) + CodesOf(tree)
      ensures reverseCodeMap == old(reverseCodeMap) + ReversesOf(tree)
      ensures Lists(file.header, codeMap)
      ensures Coded(codeMap, Tokenize(text))
      ensures file.blocks == [Packed(Encode(codeMap, Tokenize(text)))]
    {
      var frequencyMapWord := CountWords(text);
      CountEmpty(Tokenize(text));
      Lossless(text);
      tree := BuildCodes(frequencyMapWord);
      SymbolsCovered(Tokenize(text), tree);
      var header := WriteHeader(codeMap);
      var encodedText := EncodeText(text);
      var block := WriteBits(encodedText);
      file := Compressed(header, [block]);
    }

    /**
     * `decompressFileFromBinaryByWord`: `put(code, word)` for every header
     * pair into the reverse table, then decode the blocks with it, writing
     * each decoded word or separator in turn.
     */
    method Decompress(file: Compressed<string>) returns (text: string)
      modifies this
      ensures codeMap == old(codeMap)
      ensures reverseCodeMap == PutAll(old(reverseCodeMap), file.header)
      ensures text == Concat(Feed(reverseCodeMap, DecodeState([], ""), UnpackedAll(file.blocks)).out)
    {
      var mapSize := |file.header|;
      var i := 0;
      while i < mapSize
        invariant 0 <= i <= mapSize
        invariant codeMap == old(codeMap)
        invariant reverseCodeMap == PutAll(old(reverseCodeMap), file.header[..i])
      {
        var (word, code) := file.header[i];
        assert file.header[..i + 1][..i] == file.header[..i];
        reverseCodeMap := reverseCodeMap[code := word];
        i := i + 1;
      }
      assert file.header[..i] == file.header;
      var words, tempCode := DecodeBlocks(reverseCodeMap, file.blocks);
      text := Concat(words);
    }
  }

  /** Every token has a code in `codes`. */
  ghost predicate Coded(codes: map<string, string>, tokens: seq<string>)
  {
    forall k :: 0 <= k < |tokens| ==> tokens[k] in codes
  }

  /** How one step of the scan changes the encoding of the completed tokens. */
  lemma EncodeScanChar(codes: map<string, string>, st: ScanState, ch: char)
    requires Coded(codes, ScanChar(st, ch).tokens)
    ensures IsWhitespace(ch) && |st.word| > 0 ==> st.word in codes
    ensures IsWhitespace(ch) ==> [ch] in codes
    ensures Coded(codes, st.tokens)
    ensures Encode(codes, ScanChar(st, ch).tokens) ==
      if !IsWhitespace(ch) then Encode(codes, st.tokens)
      else Encode(codes, st.tokens) + (if |st.word| > 0 then codes[st.word] else "") + codes[[ch]]
  {
    var next := ScanChar(st, ch).tokens;
    if IsWhitespace(ch) {
      if |st.word| > 0 {
        assert next == st.tokens + [st.word] + [[ch]];
        assert next[|st.tokens|] == st.word && next[|st.tokens| + 1] == [ch];
        assert forall k :: 0 <= k < |st.tokens| ==> next[k] == st.tokens[k];
        assert (st.tokens + [st.word] + [[ch]])[..|st.tokens| + 1] == st.tokens + [st.word];
        assert (st.tokens + [st.word])[..|st.tokens|] == st.tokens;
      } else {
        assert next == st.tokens + [[ch]];
        assert next[|st.tokens|] == [ch];
        assert forall k :: 0 <= k < |st.tokens| ==> next[k] == st.tokens[k];
        assert (st.tokens + [[ch]])[..|st.tokens|] == st.tokens;
      }
    }
  }

  /** A prefix of coded tokens is coded. */
  lemma CodedPrefix(codes: map<string, string>, tokens: seq<string>, all: seq<string>)
    requires tokens <= all && Coded(codes, all)
    ensures Coded(codes, tokens)
  {
    forall k | 0 <= k < |tokens| ensures tokens[k] in codes {
      assert tokens[k] == all[k];
    }
  }

  /**
   * One character of the second pass: whitespace closes the word being
   * built, whose code is appended, and then appends its own code; any other
   * character extends the word.
   */
  method EncodeChar(codes: map<string, string>, text: string, i: nat, wordBuilder: string, encodedText: string,
                    ghost tokens: seq<string>)
    returns (wordBuilder': string, encodedText': string, ghost tokens': seq<string>)
    requires i < |text| && Scan(text[..i]) == ScanState(tokens, wordBuilder)
    requires Coded(codes, Tokenize(text)) && Coded(codes, tokens) && encodedText == Encode(codes, tokens)
    ensures Scan(text[..i + 1]) == ScanState(tokens', wordBuilder')
    ensures Coded(codes, tokens') && encodedText' == Encode(codes, tokens')
  {
    var ch := text[i];
    EncodeStep(codes, text, i, ScanState(tokens, wordBuilder));
    tokens' := ScanChar(ScanState(tokens, wordBuilder), ch).tokens;
    if IsWhitespace(ch) {
      encodedText', wordBuilder' := encodedText, wordBuilder;
      if |wordBuilder| > 0 {
        var word := wordBuilder;
        encodedText' := encodedText' + codes[word];
        wordBuilder' := "";
      }
      encodedText' := encodedText' + codes[[ch]];
      assert encodedText' == Encode(codes, tokens');
    } else {
      encodedText' := encodedText;
      wordBuilder' := wordBuilder + [ch];
      assert encodedText' == Encode(codes, tokens');
    }
  }

  lemma EncodeStep(codes: map<string, string>, text: string, i: nat, st: ScanState)
    requires i < |text| && Scan(text[..i]) == st
    requires Coded(codes, Tokenize(text))
    ensures Scan(text[..i + 1]) == ScanChar(st, text[i])
    ensures Coded(codes, st.tokens) && Coded(codes, ScanChar(st, text[i]).tokens)
    ensures IsWhitespace(text[i]) && |st.word| > 0 ==> st.word in codes
    ensures IsWhitespace(text[i]) ==> [text[i]] in codes
    ensures Encode(codes, ScanChar(st, text[i]).tokens) ==
      if !IsWhitespace(text[i]) then Encode(codes, st.tokens)
      else Encode(codes, st.tokens) + (if |st.word| > 0 then codes[st.word] else "") + codes[[text[i]]]
  {
    ScanPrefix(text, i);
    ScanTokensGrow(text, i + 1);
    CodedPrefix(codes, ScanChar(st, text[i]).tokens, Tokenize(text));
    EncodeScanChar(codes, st, text[i]);
  }

  /** After the last character, the pending word is the last token. */
  lemma EncodeLast(codes: map<string, string>, text: string, st: ScanState)
    requires Scan(text[..|text|]) == st
    requires Coded(codes, Tokenize(text))
    ensures |st.word| > 0 ==> st.word in codes
    ensures Coded(codes, st.tokens)
    ensures Encode(codes, Tokenize(text)) ==
      Encode(codes, st.tokens) + (if |st.word| > 0 then codes[st.word] else "")
  {
    assert text[..|text|] == text;
    if |st.word| > 0 {
      var all := st.tokens + [st.word];
      assert Tokenize(text) == all;
      CodedPrefix(codes, st.tokens, all);
      assert all[|st.tokens|] == st.word;
      assert all[..|st.tokens|] == st.tokens;
    } else {
      assert Tokenize(text) == st.tokens;
    }
  }
}
