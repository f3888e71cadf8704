/**
 * `HuffmanNode`: a mutable tree node. Its two constructors make a leaf; the
 * tree builders later link children into `left` and `right`. The word is
 * `None` where the Java field is null.
 */
module Nodes {
  import opened Wrappers
  import opened HuffmanTree

  class HuffmanNode {
    const word: Option<string>
    const character: char
    const frequency: nat
    var left: HuffmanNode?
    var right: HuffmanNode?
    /** The nodes of the subtree rooted here. */
    ghost var Repr: set<HuffmanNode>

    /** The subtree is a finite tree whose internal nodes have two children. */
    ghost predicate Valid()
      reads this, Repr
      ensures Valid() ==> this in Repr
    {
      this in Repr &&
      (left == null <==> right == null) &&
      (left != null ==>
        left in Repr && left.Repr <= Repr && this !in left.Repr && left.Valid() &&
        right in Repr && right.Repr <= Repr && this !in right.Repr && right.Valid())
    }

    /** The character constructor: a leaf for `character` with no word. */
    constructor ForChar(character: char, frequency: nat)
      ensures this.character == character && this.frequency == frequency && word == None
      ensures left == null && right == null
      ensures Valid() && Repr == {this}
    {
      this.character := character;
      this.frequency := frequency;
      this.word := None;
      left := null;
      right := null;
      Repr := {this};
    }

    /** The word constructor: a leaf for `word` with character '\0'. */
    constructor ForWord(word: Option<string>, frequency: nat)
      ensures this.word == word && this.frequency == frequency && character == '\0'
      ensures left == null && right == null
      ensures Valid() && Repr == {this}
    {
      this.word := word;
      this.frequency := frequency;
      this.character := '\0';
      left := null;
      right := null;
      Repr := {this};
    }

    /** A tree of the character builders: no node has a word, and every internal node holds '\0'. */
    ghost predicate CharShaped()
      requires Valid()
      reads this, Repr
      decreases Repr
    {
      word == None &&
      (left != null ==> character == '\0' && left.CharShaped() && right.CharShaped())
    }

    /** A tree of the word builder: exactly the leaves have a word. */
    ghost predicate WordShaped()
      requires Valid()
      reads this, Repr
      decreases Repr
    {
      (word.Some? <==> left == null) &&
      (left != null ==> left.WordShaped() && right.WordShaped())
    }

    /** The abstract tree seen by the character code generator, whose leaf test is "no children". */
    ghost function CharTree(): (t: Tree<char>)
      requires Valid()
      reads this, Repr
      ensures t.freq == frequency
      ensures t.Leaf? <==> left == null && right == null
      decreases Repr
    {
      if left == null && right == null then Leaf(character, frequency)
      else Node(frequency, left.CharTree(), right.CharTree())
    }

    /** The abstract tree seen by the word code generator, whose leaf test is "has a word". */
    ghost function WordTree(): (t: Tree<string>)
      requires Valid() && WordShaped()
      reads this, Repr
      ensures t.freq == frequency
      ensures t.Leaf? <==> word.Some?
      decreases Repr
    {
      if word.Some? then Leaf(word.value, frequency)
      else Node(frequency, left.WordTree(), right.WordTree())
    }
  }
}
