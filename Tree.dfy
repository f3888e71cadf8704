/**
 * The abstract value of a Huffman tree, shared by the word, character and
 * binary encoders: a leaf holds a symbol and its occurrence count, an
 * internal node the frequency stored in it and its two children.
 */
module HuffmanTree {

  datatype Tree<S> = Leaf(sym: S, freq: nat) | Node(freq: nat, left: Tree<S>, right: Tree<S>)

  /** The leaf symbols, left to right. */
  function LeafSyms<S>(t: Tree<S>): (r: seq<S>)
    ensures |r| >= 1
  {
    match t
    case Leaf(s, _) => [s]
    case Node(_, l, r) => LeafSyms(l) + LeafSyms(r)
  }

  /** The leaf symbols, as a multiset. */
  function Syms<S>(t: Tree<S>): multiset<S>
  {
    match t
    case Leaf(s, _) => multiset{s}
    case Node(_, l, r) => Syms(l) + Syms(r)
  }

  /** Every symbol counted as often as its leaf's frequency says. */
  function Bag<S>(t: Tree<S>): multiset<S>
  {
    match t
    case Leaf(s, f) => multiset{}[s := f]
    case Node(_, l, r) => Bag(l) + Bag(r)
  }

  /** Every internal node's frequency is the sum of its children's. */
  predicate Summed<S>(t: Tree<S>)
  {
    match t
    case Leaf(_, _) => true
    case Node(f, l, r) => f == l.freq + r.freq && Summed(l) && Summed(r)
  }

  /** At every internal node the left child's frequency is at most the right child's. */
  predicate Ordered<S>(t: Tree<S>)
  {
    match t
    case Leaf(_, _) => true
    case Node(_, l, r) => l.freq <= r.freq && Ordered(l) && Ordered(r)
  }

  /** Every leaf's frequency is the count the frequency map gives its symbol. */
  predicate CountsFrom<S>(t: Tree<S>, freq: map<S, nat>)
  {
    match t
    case Leaf(s, f) => s in freq && freq[s] == f
    case Node(_, l, r) => CountsFrom(l, freq) && CountsFrom(r, freq)
  }

  /** No element occurs twice. */
  ghost predicate NoDup<S>(s: seq<S>)
  {
    forall i, j :: 0 <= i < j < |s| ==> s[i] != s[j]
  }

  /** No symbol labels two leaves. */
  ghost predicate Distinct<S>(t: Tree<S>)
  {
    NoDup(LeafSyms(t))
  }

  /** The leaves are exactly the keys of `freq`, each once, with its count. */
  predicate LeavesAre<S>(t: Tree<S>, freq: map<S, nat>)
  {
    multiset(LeafSyms(t)) == multiset(freq.Keys) && CountsFrom(t, freq)
  }

  /** The frequency stored at the root of a summed tree is the number of symbols it stands for. */
  lemma {:induction false} SymsAreLeafSyms<S>(t: Tree<S>)
    ensures Syms(t) == multiset(LeafSyms(t))
  {
    match t
    case Leaf(_, _) =>
    case Node(_, l, r) =>
      SymsAreLeafSyms(l);
      SymsAreLeafSyms(r);
  }

  lemma {:induction false} RootFreqIsBagSize<S>(t: Tree<S>)
    requires Summed(t)
    ensures t.freq == |Bag(t)|
  {
    match t
    case Leaf(s, f) =>
    case Node(_, l, r) =>
      RootFreqIsBagSize(l);
      RootFreqIsBagSize(r);
  }

  /** An element at two positions is counted twice. */
  lemma TwiceCounted<S>(s: seq<S>, i: nat, j: nat)
    requires i < j < |s|
    ensures s[i] == s[j] ==> multiset(s)[s[i]] >= 2
  {
    assert s == s[..j] + s[j..];
    assert s[i] in s[..j];
    assert s[j] == s[j..][0];
    assert multiset(s) == multiset(s[..j]) + multiset(s[j..]);
  }

  lemma LeavesAreDistinct<S>(t: Tree<S>, freq: map<S, nat>)
    requires LeavesAre(t, freq)
    ensures Distinct(t)
    ensures forall x :: x in LeafSyms(t) <==> x in freq
  {
    var s := LeafSyms(t);
    forall i, j | 0 <= i < j < |s| ensures s[i] != s[j] {
      TwiceCounted(s, i, j);
      assert multiset(freq.Keys)[s[i]] <= 1;
    }
    forall x ensures x in s <==> x in freq {
      assert x in s <==> x in multiset(s);
      assert x in freq.Keys <==> x in multiset(freq.Keys);
    }
  }

  lemma DistinctChildren<S>(t: Tree<S>)
    requires t.Node? && Distinct(t)
    ensures Distinct(t.left) && Distinct(t.right)
    ensures forall x :: x in LeafSyms(t.left) ==> x !in LeafSyms(t.right)
  {
    var l, r := LeafSyms(t.left), LeafSyms(t.right);
    assert LeafSyms(t) == l + r;
    forall i, j | 0 <= i < j < |l| ensures l[i] != l[j] {
      assert LeafSyms(t)[i] == l[i] && LeafSyms(t)[j] == l[j];
    }
    forall i, j | 0 <= i < j < |r| ensures r[i] != r[j] {
      assert LeafSyms(t)[|l| + i] == r[i] && LeafSyms(t)[|l| + j] == r[j];
    }
    forall i, j | 0 <= i < |l| && 0 <= j < |r| ensures l[i] != r[j] {
      assert LeafSyms(t)[i] == l[i] && LeafSyms(t)[|l| + j] == r[j];
    }
  }

}
