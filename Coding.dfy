/**
 * What the three compressors share between building the tree and writing
 * the file: the code tables of a tree the builder can return, the loop that
 * appends the codes of the symbols read, the loop that feeds the bits of
 * every block to the decoder, and the round trip through a compressed file.
 */
module Coding {
  import opened Wrappers
  import opened Bits
  import opened Frequency
  import opened HuffmanTree
  import opened Greedy
  import opened Codes
  import opened Decoding
  import opened Container

  /** `t` is a tree the builder can return for `freq`, for some order of the map and some tie-breaks. */
  ghost predicate IsHuffmanTree<S(!new)>(freq: map<S, nat>, t: Tree<S>)
  {
    exists seed, trace :: BuiltBy(freq, seed, trace, t)
  }

  /** The symbol-to-code table `buildHuffmanCode*(root, "")` writes: nothing for a null root. */
  function CodesOf<S>(tree: Option<Tree<S>>): map<S, string>
  {
    if tree.None? then map[] else CodeMap(tree.value, "")
  }

  /** The code-to-symbol table `buildHuffmanCode*(root, "")` writes: nothing for a null root. */
  function ReversesOf<S>(tree: Option<Tree<S>>): map<string, S>
  {
    if tree.None? then map[] else ReverseMap(tree.value, "")
  }

  /** The leaves of a built tree are the symbols counted, each once; the root is a leaf exactly when one symbol was counted. */
  lemma BuiltLeaves<S(!new)>(freq: map<S, nat>, t: Tree<S>)
    requires IsHuffmanTree(freq, t)
    ensures Distinct(t)
    ensures forall x :: x in LeafSyms(t) <==> x in freq
    ensures t.Leaf? <==> |freq| == 1
  {
    var seed, trace :| BuiltBy(freq, seed, trace, t);
    BuiltTree(freq, seed, trace, t);
    LeavesAreDistinct(t, freq);
    assert |LeafSyms(t)| == |multiset(LeafSyms(t))| == |multiset(freq.Keys)| == |freq|;
  }

  /**
   * The code tables of a tree with distinct leaves: each code a bit string,
   * no code a prefix of another, the two tables inverse to each other, and
   * no code empty unless the root is a leaf.
   */
  lemma TreeCodes<S>(t: Tree<S>)
    requires Distinct(t)
    ensures Inverse(CodeMap(t, ""), ReverseMap(t, "")) && PrefixFree(ReverseMap(t, "").Keys)
    ensures forall s :: s in CodeMap(t, "") ==> IsBinary(CodeMap(t, "")[s])
    ensures t.Node? ==> forall s :: s in CodeMap(t, "") ==> CodeMap(t, "")[s] != ""
  {
    TablesInverse(t, "");
    ReverseMapPrefixFree(t, "");
    CodesExtendPrefix(t, "");
  }

  /**
   * The code tables of a built tree: one code per symbol counted, each a
   * bit string, no code a prefix of another, the two tables inverse to each
   * other; the root is a leaf exactly when one symbol was counted, and
   * otherwise no code is empty.
   */
  lemma HuffmanCodes<S(!new)>(freq: map<S, nat>, t: Tree<S>)
    requires IsHuffmanTree(freq, t)
    ensures forall x :: x in CodeMap(t, "") <==> x in freq
    ensures Inverse(CodeMap(t, ""), ReverseMap(t, "")) && PrefixFree(ReverseMap(t, "").Keys)
    ensures forall s :: s in CodeMap(t, "") ==> IsBinary(CodeMap(t, "")[s])
    ensures t.Leaf? <==> |freq| == 1
    ensures t.Node? ==> forall s :: s in CodeMap(t, "") ==> CodeMap(t, "")[s] != ""
  {
    BuiltLeaves(freq, t);
    TreeCodes(t);
    CodeMapKeys(t, "");
  }

  /** Every symbol read has a code in the table of the tree built from the counts. */
  lemma SymbolsCovered<S(!new)>(syms: seq<S>, tree: Option<Tree<S>>)
    requires tree.Some? ==> IsHuffmanTree(Count(syms), tree.value)
    requires tree.None? ==> syms == []
    ensures forall i :: 0 <= i < |syms| ==> syms[i] in CodesOf(tree)
  {
    if tree.Some? {
      HuffmanCodes(Count(syms), tree.value);
      CountIsOccurrences(syms);
      forall i | 0 <= i < |syms| ensures syms[i] in CodesOf(tree) {
        assert syms[i] in syms;
      }
    }
  }

  /** Every symbol of every chunk has a code. */
  ghost predicate Covers<S>(codes: map<S, string>, chunks: seq<seq<S>>)
  {
    forall k, i :: 0 <= k < |chunks| && 0 <= i < |chunks[k]| ==> chunks[k][i] in codes
  }

  /** A table that includes a covering table covers too. */
  lemma CoversUnion<S>(base: map<S, string>, codes: map<S, string>, chunks: seq<seq<S>>)
    requires Covers(codes, chunks)
    ensures Covers(base + codes, chunks)
  {
  }

  /** The bits of the chunks read, one code string per chunk. */
  function ChunkCodes<S>(codes: map<S, string>, chunks: seq<seq<S>>): (r: seq<string>)
    requires Covers(codes, chunks)
    ensures |r| == |chunks|
  {
    if chunks == [] then []
    else ChunkCodes(codes, chunks[..|chunks| - 1]) + [Encode(codes, chunks[|chunks| - 1])]
  }

  /** The codes of one more chunk. */
  lemma ChunkCodesSnoc<S>(codes: map<S, string>, chunks: seq<seq<S>>, k: nat)
    requires k < |chunks| && Covers(codes, chunks)
    ensures Covers(codes, chunks[..k]) && Covers(codes, chunks[..k + 1])
    ensures forall i :: 0 <= i < |chunks[k]| ==> chunks[k][i] in codes
    ensures ChunkCodes(codes, chunks[..k + 1]) == ChunkCodes(codes, chunks[..k]) + [Encode(codes, chunks[k])]
  {
    assert chunks[..k + 1][..k] == chunks[..k];
  }

  /** Every symbol of a chunk occurs in the whole input. */
  lemma {:induction false} ChunkSymbolsInInput<S>(chunks: seq<seq<S>>)
    ensures forall k, i :: 0 <= k < |chunks| && 0 <= i < |chunks[k]| ==> chunks[k][i] in Concat(chunks)
    decreases |chunks|
  {
    if chunks != [] {
      var init := chunks[..|chunks| - 1];
      ChunkSymbolsInInput(init);
      forall k, i | 0 <= k < |chunks| && 0 <= i < |chunks[k]| ensures chunks[k][i] in Concat(chunks) {
        if k < |init| {
          assert chunks[k] == init[k];
        } else {
          assert Concat(chunks)[|Concat(init)| + i] == chunks[k][i];
        }
      }
    }
  }

  /** Every symbol of every chunk has a code in the table of the tree built from the counts of the whole input. */
  lemma ChunksCovered<S(!new)>(chunks: seq<seq<S>>, tree: Option<Tree<S>>)
    requires tree.None? <==> Concat(chunks) == []
    requires tree.Some? ==> IsHuffmanTree(Count(Concat(chunks)), tree.value)
    ensures Covers(CodesOf(tree), chunks)
  {
    ChunkSymbolsInInput(chunks);
    if tree.Some? {
      HuffmanCodes(Count(Concat(chunks)), tree.value);
      CountIsOccurrences(Concat(chunks));
    }
  }

  /** Every symbol of the whole input has a code when every chunk is covered. */
  lemma {:induction false} ConcatCovered<S>(codes: map<S, string>, chunks: seq<seq<S>>)
    requires Covers(codes, chunks)
    ensures forall i :: 0 <= i < |Concat(chunks)| ==> Concat(chunks)[i] in codes
    decreases |chunks|
  {
    if chunks != [] {
      var init, last := chunks[..|chunks| - 1], chunks[|chunks| - 1];
      assert Covers(codes, init) by {
        forall k, i | 0 <= k < |init| && 0 <= i < |init[k]| ensures init[k][i] in codes {
          assert init[k] == chunks[k];
        }
      }
      ConcatCovered(codes, init);
      forall i | 0 <= i < |Concat(chunks)| ensures Concat(chunks)[i] in codes {
        if i >= |Concat(init)| {
          assert Concat(chunks)[i] == last[i - |Concat(init)|];
        }
      }
    }
  }

  /** The code strings of the chunks, joined, are the encoding of the whole input, and each is a bit string. */
  lemma {:induction false} ChunkCodesJoin<S>(codes: map<S, string>, chunks: seq<seq<S>>)
    requires Covers(codes, chunks)
    requires forall s :: s in codes ==> IsBinary(codes[s])
    ensures forall i :: 0 <= i < |Concat(chunks)| ==> Concat(chunks)[i] in codes
    ensures Concat(ChunkCodes(codes, chunks)) == Encode(codes, Concat(chunks))
    ensures forall k :: 0 <= k < |chunks| ==> IsBinary(ChunkCodes(codes, chunks)[k])
    decreases |chunks|
  {
    ConcatCovered(codes, chunks);
    if chunks != [] {
      var init, last := chunks[..|chunks| - 1], chunks[|chunks| - 1];
      ChunkCodesJoin(codes, init);
      var parts := ChunkCodes(codes, init);
      assert ChunkCodes(codes, chunks) == parts + [Encode(codes, last)];
      assert (parts + [Encode(codes, last)])[..|parts|] == parts;
      EncodeAppend(codes, Concat(init), last);
      EncodeBinary(codes, last);
    }
  }

  /** Every symbol read labels a leaf of the tree built from its counts. */
  lemma SymbolsAreLeaves<S(!new)>(syms: seq<S>, t: Tree<S>)
    requires IsHuffmanTree(Count(syms), t)
    ensures Distinct(t) && (t.Leaf? <==> |Count(syms)| == 1)
    ensures forall i :: 0 <= i < |syms| ==> syms[i] in LeafSyms(t)
  {
    BuiltLeaves(Count(syms), t);
    CountIsOccurrences(syms);
    forall i | 0 <= i < |syms| ensures syms[i] in LeafSyms(t) {
      assert syms[i] in syms;
    }
  }

  /** Decoding with the reverse table read back from a header that lists a prefix-free code table with no empty code. */
  lemma DecodeWithHeader<S>(codes: map<S, string>, rev: map<string, S>, h: seq<(S, string)>, rev0: map<string, S>, syms: seq<S>)
    requires Inverse(codes, rev) && PrefixFree(rev.Keys)
    requires forall s :: s in codes ==> codes[s] != ""
    requires Lists(h, codes) && SubTable(rev0, rev)
    requires forall i :: 0 <= i < |syms| ==> syms[i] in codes
    ensures Feed(PutAll(rev0, h), DecodeState([], ""), Encode(codes, syms)) == DecodeState(syms, "")
  {
    ReadHeader(rev0, h, codes, rev);
    DecodeEncode(codes, rev, [], syms);
    assert [] + syms == syms;
  }

  /**
   * The round trip through a compressed file. With at least two distinct
   * symbols, decoding the bits of the symbols read, with the reverse table
   * read back from a header that lists the code table, gives back exactly
   * those symbols with nothing pending, whatever the header order and
   * whether or not the reverse table already held this tree's codes.
   */
  lemma RoundTrip<S(!new)>(syms: seq<S>, t: Tree<S>, h: seq<(S, string)>, rev0: map<string, S>)
    requires IsHuffmanTree(Count(syms), t) && |Count(syms)| >= 2
    requires Lists(h, CodeMap(t, "")) && SubTable(rev0, ReverseMap(t, ""))
    ensures forall i :: 0 <= i < |syms| ==> syms[i] in CodeMap(t, "")
    ensures Feed(PutAll(rev0, h), DecodeState([], ""), Encode(CodeMap(t, ""), syms)) == DecodeState(syms, "")
  {
    SymbolsAreLeaves(syms, t);
    TreeCodes(t);
    CodeMapKeys(t, "");
    DecodeWithHeader(CodeMap(t, ""), ReverseMap(t, ""), h, rev0, syms);
  }

  lemma {:induction false} EncodeEmptyCodes<S>(codes: map<S, string>, syms: seq<S>)
    requires forall i :: 0 <= i < |syms| ==> syms[i] in codes && codes[syms[i]] == ""
    ensures Encode(codes, syms) == ""
    decreases |syms|
  {
    if syms != [] {
      EncodeEmptyCodes(codes, syms[..|syms| - 1]);
    }
  }

  /**
   * The code generator as written, on input with a single distinct symbol:
   * the root is a leaf, its code is empty, every symbol is written as no
   * bits at all, and decoding emits nothing, however many symbols were read.
   */
  lemma SingleSymbolLost<S(!new)>(syms: seq<S>, t: Tree<S>, rev: map<string, S>)
    requires IsHuffmanTree(Count(syms), t) && |Count(syms)| == 1
    ensures t.Leaf? && CodeMap(t, "") == map[t.sym := ""]
    ensures forall i :: 0 <= i < |syms| ==> syms[i] in CodeMap(t, "")
    ensures Encode(CodeMap(t, ""), syms) == ""
    ensures Feed(rev, DecodeState([], ""), Encode(CodeMap(t, ""), syms)).out == []
  {
    HuffmanCodes(Count(syms), t);
    CountIsOccurrences(syms);
    EncodeEmptyCodes(CodeMap(t, ""), syms);
  }

  /** The evidently intended code table: a lone leaf gets the code "0" instead of the empty code. */
  function CodeTable<S>(t: Tree<S>): map<S, string>
  {
    if t.Leaf? then map[t.sym := "0"] else CodeMap(t, "")
  }

  /** The reverse of `CodeTable`. */
  function ReverseTable<S>(t: Tree<S>): map<string, S>
  {
    if t.Leaf? then map["0" := t.sym] else ReverseMap(t, "")
  }

  /** With the corrected tables the round trip holds for every non-empty input, one distinct symbol included. */
  lemma CorrectedRoundTrip<S(!new)>(syms: seq<S>, t: Tree<S>, h: seq<(S, string)>, rev0: map<string, S>)
    requires IsHuffmanTree(Count(syms), t)
    requires Lists(h, CodeTable(t)) && SubTable(rev0, ReverseTable(t))
    ensures forall i :: 0 <= i < |syms| ==> syms[i] in CodeTable(t)
    ensures Feed(PutAll(rev0, h), DecodeState([], ""), Encode(CodeTable(t), syms)) == DecodeState(syms, "")
  {
    SymbolsAreLeaves(syms, t);
    if t.Leaf? {
      assert PrefixFree(ReverseTable(t).Keys);
      DecodeWithHeader(CodeTable(t), ReverseTable(t), h, rev0, syms);
    } else {
      TreeCodes(t);
      CodeMapKeys(t, "");
      DecodeWithHeader(CodeTable(t), ReverseTable(t), h, rev0, syms);
    }
  }

  /**
   * The encoding loops of the compressors: append the code of every symbol
   * read, in order, to the bits already pending.
   */
  method AppendCodes<S>(codes: map<S, string>, pending: string, syms: seq<S>) returns (encodedText: string)
    requires forall i :: 0 <= i < |syms| ==> syms[i] in codes
    ensures encodedText == pending + Encode(codes, syms)
  {
    encodedText := pending;
    var i := 0;
    while i < |syms|
      invariant 0 <= i <= |syms|
      invariant encodedText == pending + Encode(codes, syms[..i])
    {
      assert syms[..i + 1][..i] == syms[..i];
      encodedText := encodedText + codes[syms[i]];
      i := i + 1;
    }
    assert syms[..i] == syms;
  }

  lemma FeedOneMore<S>(rev: map<string, S>, st: DecodeState<S>, bits: string, i: nat)
    requires i < |bits|
    ensures Feed(rev, st, bits[..i + 1]) == Step(rev, Feed(rev, st, bits[..i]), bits[i])
  {
    assert bits[..i + 1][..i] == bits[..i];
  }

  lemma FeedOneBlock<S>(rev: map<string, S>, blocks: seq<Block>, b: nat)
    requires b < |blocks|
    ensures Feed(rev, DecodeState([], ""), UnpackedAll(blocks[..b + 1])) ==
      Feed(rev, Feed(rev, DecodeState([], ""), UnpackedAll(blocks[..b])), Unpacked(blocks[b]))
  {
    assert blocks[..b + 1][..b] == blocks[..b];
    FeedAppend(rev, DecodeState([], ""), UnpackedAll(blocks[..b]), Unpacked(blocks[b]));
  }

  /**
   * The block loop of the decompressors: for every block, read `bitLength`
   * bits from the bit set of its bytes, append each to `tempCode`, and emit
   * the symbol and clear `tempCode` whenever it is a key of the reverse
   * table. `tempCode` carries over from one block to the next, and what is
   * left in it at the end is returned, not decoded.
   */
  method DecodeBlocks<S>(rev: map<string, S>, blocks: seq<Block>) returns (out: seq<S>, tempCode: string)
    ensures DecodeState(out, tempCode) == Feed(rev, DecodeState([], ""), UnpackedAll(blocks))
  {
    out := [];
    tempCode := "";
    var b := 0;
    while b < |blocks|
      invariant 0 <= b <= |blocks|
      invariant DecodeState(out, tempCode) == Feed(rev, DecodeState([], ""), UnpackedAll(blocks[..b]))
    {
      var bitLength := blocks[b].bitLength;
      var bytes := blocks[b].bytes;
      ghost var bits := Unpacked(blocks[b]);
      ghost var before := DecodeState(out, tempCode);
      var i := 0;
      while i < bitLength
        invariant 0 <= i <= |bits|
        invariant DecodeState(out, tempCode) == Feed(rev, before, bits[..i])
      {
        FeedOneMore(rev, before, bits, i);
        var bit := if BitSetGet(bytes, i) then '1' else '0';
        tempCode := tempCode + [bit];
        if tempCode in rev {
          out := out + [rev[tempCode]];
          tempCode := "";
        }
        i := i + 1;
      }
      assert bits[..i] == bits;
      FeedOneBlock(rev, blocks, b);
      b := b + 1;
    }
    assert blocks[..b] == blocks;
  }
}
