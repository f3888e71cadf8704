/**
 * One character encoder used for two files, as the text menu allows:
 * compress a first file, compress a second, then decompress the second.
 * The code tables are never cleared, so the second header also lists the
 * first file's codes, and the reverse table can send a code back to a
 * character of the first file.
 */
module Reuse {
  import opened Wrappers
  import opened Bits
  import opened Frequency
  import opened HuffmanTree
  import opened Greedy
  import opened Codes
  import opened Decoding
  import opened Container
  import opened Coding
  import opened Sessions
  import EncoderChar

  /** What the two compressions and the decompression of the second file may produce, given the two trees built. */
  ghost predicate SharedOutcome(chunks1: seq<string>, chunks2: seq<string>, tree1: Option<Tree<char>>,
                                tree2: Option<Tree<char>>, file2: Compressed<char>, text2: string)
  {
    (tree1.None? <==> Concat(chunks1) == []) &&
    (tree1.Some? ==> IsHuffmanTree(Count(Concat(chunks1)), tree1.value)) &&
    (tree2.None? <==> Concat(chunks2) == []) &&
    (tree2.Some? ==> IsHuffmanTree(Count(Concat(chunks2)), tree2.value)) &&
    var codes := CodesOf(tree1) + CodesOf(tree2);
    Lists(file2.header, codes) && Covers(codes, chunks2) &&
    file2.blocks == PackedAll(ChunkCodes(codes, chunks2)) &&
    text2 == Feed(PutAll(ReversesOf(tree1) + ReversesOf(tree2), file2.header), DecodeState([], ""), UnpackedAll(file2.blocks)).out
  }

  /** Compress `chunks1`, compress `chunks2`, decompress the second file, all on one encoder. */
  method TwoFilesShared(chunks1: seq<string>, chunks2: seq<string>)
    returns (file2: Compressed<char>, text2: string, ghost tree1: Option<Tree<char>>, ghost tree2: Option<Tree<char>>)
    ensures SharedOutcome(chunks1, chunks2, tree1, tree2, file2, text2)
  {
    var encoder := new EncoderChar.HuffmanEncoderChar();
    var file1;
    file1, tree1 := encoder.Compress(chunks1);
    EmptyUnion(CodesOf(tree1));
    EmptyUnion(ReversesOf(tree1));
    file2, tree2 := encoder.Compress(chunks2);
    text2 := encoder.Decompress(file2);
  }

  /** The tree built for two distinct characters read once each. */
  function Pair(x: char, y: char): Tree<char>
  {
    Node(2, Leaf(x, 1), Leaf(y, 1))
  }

  lemma PairIsHuffman(x: char, y: char)
    requires x != y
    ensures IsHuffmanTree(Count([x, y]), Pair(x, y))
  {
    CountSnoc([], x);
    CountSnoc([x], y);
    assert [] + [x] == [x] && [x] + [y] == [x, y];
    var freq := Count([x, y]);
    assert freq == map[x := 1, y := 1];
    var seed := [Leaf(x, 1), Leaf(y, 1)];
    var trace := [(0, 0)];
    assert seed[1..] == [Leaf(y, 1)] && seed[1..][1..] == [];
    assert SymsOf(seed[1..]) == multiset{y} + SymsOf(seed[1..][1..]);
    assert SymsOf(seed) == multiset{x} + multiset{y};
    assert freq.Keys == {x, y};
    assert IsLeafSeed(seed, freq);
    assert trace[..0] == [];
    assert IsGreedyStep(seed, 0, 0);
    assert Run(seed, trace) == [Pair(x, y)];
    assert BuiltBy(freq, seed, trace, Pair(x, y));
  }

  /** The tables written for a pair: the first character gets "0", the second "1". */
  lemma PairCodes(x: char, y: char)
    requires x != y
    ensures CodesOf(Some(Pair(x, y))) == map[x := "0", y := "1"]
    ensures ReversesOf(Some(Pair(x, y))) == map["0" := x, "1" := y]
  {
    assert "" + "0" == "0" && "" + "1" == "1";
    assert CodeMap(Pair(x, y), "") == map[x := "0"] + map[y := "1"];
    assert ReverseMap(Pair(x, y), "") == map["0" := x] + map["1" := y];
  }

  /** Both tables of the pairs 'c','d' and then 'a','b' together: the later codes overwrite nothing. */
  lemma StaleCodes()
    ensures map['c' := "0", 'd' := "1"] + map['a' := "0", 'b' := "1"] == map['a' := "0", 'b' := "1", 'c' := "0", 'd' := "1"]
  {
  }

  /**
   * The header the second compression writes when the table iterates in
   * the order of the keys' hash codes, as a `HashMap` of these four
   * characters does: 'a', 'b', 'c', 'd'.
   */
  lemma StaleHeader(h: seq<(char, string)>)
    requires h == [('a', "0"), ('b', "1"), ('c', "0"), ('d', "1")]
    ensures Lists(h, map['a' := "0", 'b' := "1", 'c' := "0", 'd' := "1"])
  {
    var m := map['a' := "0", 'b' := "1", 'c' := "0", 'd' := "1"];
    assert m.Keys == {'a', 'b', 'c', 'd'};
    assert |m| == 4;
    assert forall k :: 0 <= k < |h| ==> h[k].0 in m && h[k].1 == m[h[k].0];
    assert forall k, l :: 0 <= k < l < |h| ==> h[k].0 != h[l].0;
    forall x | x in m ensures exists k :: 0 <= k < |h| && h[k].0 == x {
      if x == 'a' {
        assert h[0].0 == x;
      } else if x == 'b' {
        assert h[1].0 == x;
      } else if x == 'c' {
        assert h[2].0 == x;
      } else {
        assert h[3].0 == x;
      }
    }
  }

  /** The second file "ab" under the combined table is the one block "01". */
  lemma StaleEncode(codes: map<char, string>)
    requires codes == map['a' := "0", 'b' := "1", 'c' := "0", 'd' := "1"]
    ensures Covers(codes, ["ab"]) && ChunkCodes(codes, ["ab"]) == ["01"]
  {
    assert Covers(codes, ["ab"]);
    assert "ab"[..1] == "a" && "a"[..0] == [];
    assert Encode(codes, "a") == "0";
    assert Encode(codes, "ab") == "01";
    assert ["ab"][..0] == [];
  }

  /** A file of one chunk holds exactly that chunk. */
  lemma ConcatOne(s: string)
    ensures Concat([s]) == s
  {
    assert [s][..0] == [];
  }

  /** Reading that header back, the later pairs win: "0" goes to 'c' and "1" to 'd'. */
  lemma StaleDecode(rev0: map<string, char>, h: seq<(char, string)>)
    requires h == [('a', "0"), ('b', "1"), ('c', "0"), ('d', "1")]
    ensures Feed(PutAll(rev0, h), DecodeState([], ""), "01").out == "cd"
  {
    var rev := PutAll(rev0, h);
    var r3 := PutAll(rev0, h[..3]);
    assert h[..3][..2] == [('a', "0"), ('b', "1")];
    assert rev == r3["1" := 'd'];
    assert r3 == PutAll(rev0, h[..3][..2])["0" := 'c'];
    assert rev["0"] == 'c' && rev["1"] == 'd';
    var st0 := DecodeState([], "");
    assert "01"[..1] == "0" && "0"[..0] == [];
    assert [] + ['0'] == "0" && [] + ['1'] == "1";
    var st1 := Step(rev, st0, '0');
    assert st1 == DecodeState(['c'], "");
    assert Feed(rev, st0, "0") == st1;
    assert Step(rev, st1, '1') == DecodeState(['c', 'd'], "");
  }

  /**
   * The defect as written: after compressing "cd" and then "ab" with one
   * encoder, the second header lists 'a', 'b', 'c', 'd' in hash order, so
   * the stale pairs of 'c' and 'd' are put last and the second file
   * decompresses as "cd".
   */
  lemma StaleTablesMisdecode()
    ensures SharedOutcome(["cd"], ["ab"], Some(Pair('c', 'd')), Some(Pair('a', 'b')),
                          Compressed([('a', "0"), ('b', "1"), ('c', "0"), ('d', "1")], [Packed("01")]), "cd")
  {
    StaleRun(["cd"], ["ab"], Pair('c', 'd'), Pair('a', 'b'),
             [('a', "0"), ('b', "1"), ('c', "0"), ('d', "1")], [Packed("01")]);
  }

  /** The run of `StaleTablesMisdecode`, with its values named. */
  lemma StaleRun(chunks1: seq<string>, chunks2: seq<string>, t1: Tree<char>, t2: Tree<char>,
                 h: seq<(char, string)>, blocks: seq<Block>)
    requires chunks1 == ["cd"] && chunks2 == ["ab"] && t1 == Pair('c', 'd') && t2 == Pair('a', 'b')
    requires h == [('a', "0"), ('b', "1"), ('c', "0"), ('d', "1")] && blocks == [Packed("01")]
    ensures SharedOutcome(chunks1, chunks2, Some(t1), Some(t2), Compressed(h, blocks), "cd")
  {
    StaleTrees(chunks1, chunks2, t1, t2);
    StaleFile(t1, t2, chunks2, h, blocks);
    StaleText(t1, t2, h, blocks);
  }

  /** Both trees are ones the builder may produce for the two files. */
  lemma StaleTrees(chunks1: seq<string>, chunks2: seq<string>, t1: Tree<char>, t2: Tree<char>)
    requires chunks1 == ["cd"] && chunks2 == ["ab"] && t1 == Pair('c', 'd') && t2 == Pair('a', 'b')
    ensures Concat(chunks1) != [] && IsHuffmanTree(Count(Concat(chunks1)), t1)
    ensures Concat(chunks2) != [] && IsHuffmanTree(Count(Concat(chunks2)), t2)
  {
    PairIsHuffman('c', 'd');
    PairIsHuffman('a', 'b');
    ConcatOne("cd");
    ConcatOne("ab");
  }

  /** The second file: a header listing both tables, then the block "01". */
  lemma StaleFile(t1: Tree<char>, t2: Tree<char>, chunks2: seq<string>, h: seq<(char, string)>, blocks: seq<Block>)
    requires chunks2 == ["ab"] && t1 == Pair('c', 'd') && t2 == Pair('a', 'b')
    requires h == [('a', "0"), ('b', "1"), ('c', "0"), ('d', "1")] && blocks == [Packed("01")]
    ensures Lists(h, CodesOf(Some(t1)) + CodesOf(Some(t2)))
    ensures Covers(CodesOf(Some(t1)) + CodesOf(Some(t2)), chunks2)
    ensures blocks == PackedAll(ChunkCodes(CodesOf(Some(t1)) + CodesOf(Some(t2)), chunks2))
  {
    PairCodes('c', 'd');
    PairCodes('a', 'b');
    var codes := CodesOf(Some(t1)) + CodesOf(Some(t2));
    StaleCodes();
    StaleHeader(h);
    StaleEncode(codes);
    assert PackedAll(["01"]) == [Packed("01")];
  }

  /** Decompressing the second file with the tables the first one left behind. */
  lemma StaleText(t1: Tree<char>, t2: Tree<char>, h: seq<(char, string)>, blocks: seq<Block>)
    requires t1 == Pair('c', 'd') && t2 == Pair('a', 'b')
    requires h == [('a', "0"), ('b', "1"), ('c', "0"), ('d', "1")] && blocks == [Packed("01")]
    ensures Feed(PutAll(ReversesOf(Some(t1)) + ReversesOf(Some(t2)), h), DecodeState([], ""), UnpackedAll(blocks)).out == "cd"
  {
    OneBlockUnpacks("01");
    StaleDecode(ReversesOf(Some(t1)) + ReversesOf(Some(t2)), h);
  }

  /**
   * The corrected use of one encoder for two files: both tables are emptied
   * before every compression and decompression. The second file then comes
   * back as it was read, whatever was compressed before it, unless it holds
   * a single distinct character.
   */
  method TwoFilesCleared(chunks1: seq<string>, chunks2: seq<string>) returns (file2: Compressed<char>, text2: string)
    ensures text2 == if |Count(Concat(chunks2))| == 1 then [] else Concat(chunks2)
  {
    var encoder := new EncoderChar.HuffmanEncoderChar();
    var file1, tree1 := encoder.Compress(chunks1);
    encoder.ClearTables();
    ghost var tree2;
    file2, tree2 := encoder.Compress(chunks2);
    EmptyUnion(CodesOf(tree2));
    encoder.ClearTables();
    text2 := encoder.Decompress(file2);
    CharOutcome(chunks2, tree2, file2, map[], text2);
  }
}
