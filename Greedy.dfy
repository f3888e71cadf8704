/**
 * The greedy merge performed by the three tree builders, stated on abstract
 * trees: the priority queue is a forest, each step polls a minimum-frequency
 * tree, then a minimum-frequency tree of what remains, and pushes their
 * parent. Which of several equal-frequency trees is polled is left open:
 * a trace records the choices, and every property below holds for every
 * trace.
 */
module Greedy {
  import opened HuffmanTree

  function Remove<T>(s: seq<T>, i: nat): (r: seq<T>)
    requires i < |s|
    ensures |r| == |s| - 1
    ensures forall k :: 0 <= k < i ==> r[k] == s[k]
    ensures forall k :: i <= k < |r| ==> r[k] == s[k + 1]
  {
    s[..i] + s[i + 1..]
  }

  /** `ts[i]` has the least frequency in the forest. */
  predicate IsMinAt<S>(ts: seq<Tree<S>>, i: nat)
  {
    i < |ts| && forall k :: 0 <= k < |ts| ==> ts[i].freq <= ts[k].freq
  }

  /** Poll index `i`, poll index `j` of the remaining queue, push the parent of the two. */
  function Merge<S>(ts: seq<Tree<S>>, i: nat, j: nat): seq<Tree<S>>
    requires i < |ts| && j < |ts| - 1
  {
    var left := ts[i];
    var rest := Remove(ts, i);
    var right := rest[j];
    Remove(rest, j) + [Node(left.freq + right.freq, left, right)]
  }

  predicate IsGreedyStep<S>(ts: seq<Tree<S>>, i: nat, j: nat)
  {
    IsMinAt(ts, i) && IsMinAt(Remove(ts, i), j)
  }

  /** Every step of `trace`, applied to `seed` in order, polls two minimum trees. */
  predicate IsGreedyRun<S>(seed: seq<Tree<S>>, trace: seq<(nat, nat)>)
    decreases |trace|, 0
  {
    trace == [] ||
    (IsGreedyRun(seed, trace[..|trace| - 1]) &&
     IsGreedyStep(Run(seed, trace[..|trace| - 1]), trace[|trace| - 1].0, trace[|trace| - 1].1))
  }

  /** The queue after the merges of `trace`. */
  function Run<S>(seed: seq<Tree<S>>, trace: seq<(nat, nat)>): seq<Tree<S>>
    requires IsGreedyRun(seed, trace)
    decreases |trace|, 1
  {
    if trace == [] then seed
    else Merge(Run(seed, trace[..|trace| - 1]), trace[|trace| - 1].0, trace[|trace| - 1].1)
  }

  /** The leaf symbols of a forest. */
  function SymsOf<S>(ts: seq<Tree<S>>): multiset<S>
  {
    if ts == [] then multiset{} else Syms(ts[0]) + SymsOf(ts[1..])
  }

  /** The symbols a forest stands for, each as often as its leaf's count. */
  function BagOf<S>(ts: seq<Tree<S>>): multiset<S>
  {
    if ts == [] then multiset{} else Bag(ts[0]) + BagOf(ts[1..])
  }

  /** The seed of the queue: one leaf per key of `freq`, carrying its count, in any order. */
  ghost predicate IsLeafSeed<S>(seed: seq<Tree<S>>, freq: map<S, nat>)
  {
    (forall k :: 0 <= k < |seed| ==> seed[k].Leaf? && CountsFrom(seed[k], freq)) &&
    SymsOf(seed) == multiset(freq.Keys)
  }

  /** A partial seed: one leaf, with its count, per key of `freq` in `added`. */
  ghost predicate SeededFrom<S>(seed: seq<Tree<S>>, freq: map<S, nat>, added: set<S>)
  {
    (forall k :: 0 <= k < |seed| ==> seed[k].Leaf? && CountsFrom(seed[k], freq)) &&
    SymsOf(seed) == multiset(added)
  }

  /** Queuing the leaf of one more key extends a partial seed. */
  lemma SeedOneMore<S>(seed: seq<Tree<S>>, freq: map<S, nat>, added: set<S>, key: S)
    requires SeededFrom(seed, freq, added) && key in freq && key !in added
    ensures SeededFrom(seed + [Leaf(key, freq[key])], freq, added + {key})
    ensures |seed + [Leaf(key, freq[key])]| == |seed| + 1
  {
    AppendOneSyms(seed, Leaf(key, freq[key]));
    assert multiset(added + {key}) == multiset(added) + multiset{key};
  }

  /** A partial seed that has queued every key is the whole seed. */
  lemma SeedDone<S>(seed: seq<Tree<S>>, freq: map<S, nat>, added: set<S>)
    requires SeededFrom(seed, freq, added) && added == freq.Keys
    ensures IsLeafSeed(seed, freq)
  {
  }

  /** Every tree of the forest is summed, ordered and counted from `freq`. */
  predicate WellBuilt<S>(ts: seq<Tree<S>>, freq: map<S, nat>)
  {
    forall k :: 0 <= k < |ts| ==> Summed(ts[k]) && Ordered(ts[k]) && CountsFrom(ts[k], freq)
  }

  /** `root` is what the builder returns for `freq` after seeding `seed` and merging along `trace`. */
  ghost predicate BuiltBy<S>(freq: map<S, nat>, seed: seq<Tree<S>>, trace: seq<(nat, nat)>, root: Tree<S>)
  {
    IsLeafSeed(seed, freq) && IsGreedyRun(seed, trace) && Run(seed, trace) == [root]
  }

  lemma {:induction false} RemoveSplitSyms<S>(ts: seq<Tree<S>>, i: nat)
    requires i < |ts|
    ensures SymsOf(ts) == SymsOf(Remove(ts, i)) + Syms(ts[i])
    decreases i
  {
    var r := Remove(ts, i);
    if i == 0 {
      assert r == ts[1..];
    } else {
      RemoveSplitSyms(ts[1..], i - 1);
      assert r[0] == ts[0] && r[1..] == Remove(ts[1..], i - 1);
      assert ts[1..][i - 1] == ts[i];
    }
  }

  lemma {:induction false} RemoveSplitBag<S>(ts: seq<Tree<S>>, i: nat)
    requires i < |ts|
    ensures BagOf(ts) == BagOf(Remove(ts, i)) + Bag(ts[i])
    decreases i
  {
    var r := Remove(ts, i);
    if i == 0 {
      assert r == ts[1..];
    } else {
      RemoveSplitBag(ts[1..], i - 1);
      assert r[0] == ts[0] && r[1..] == Remove(ts[1..], i - 1);
      assert ts[1..][i - 1] == ts[i];
    }
  }

  lemma {:induction false} AppendOneSyms<S>(ts: seq<Tree<S>>, t: Tree<S>)
    ensures SymsOf(ts + [t]) == SymsOf(ts) + Syms(t)
    decreases |ts|
  {
    if ts == [] {
      assert [t][1..] == [];
      assert SymsOf([t]) == Syms(t) + SymsOf([]);
    } else {
      var tail := ts[1..];
      AppendOneSyms(tail, t);
      assert (ts + [t])[1..] == tail + [t] && (ts + [t])[0] == ts[0];
      assert SymsOf(ts + [t]) == Syms(ts[0]) + SymsOf(tail + [t]);
    }
  }

  lemma {:induction false} AppendOneBag<S>(ts: seq<Tree<S>>, t: Tree<S>)
    ensures BagOf(ts + [t]) == BagOf(ts) + Bag(t)
    decreases |ts|
  {
    if ts == [] {
      assert [t][1..] == [];
      assert BagOf([t]) == Bag(t) + BagOf([]);
    } else {
      var tail := ts[1..];
      AppendOneBag(tail, t);
      assert (ts + [t])[1..] == tail + [t] && (ts + [t])[0] == ts[0];
      assert BagOf(ts + [t]) == Bag(ts[0]) + BagOf(tail + [t]);
    }
  }

  lemma MergeIs<S>(ts: seq<Tree<S>>, i: nat, j: nat)
    requires i < |ts| && j < |ts| - 1
    ensures Merge(ts, i, j) ==
      Remove(Remove(ts, i), j) + [Node(ts[i].freq + Remove(ts, i)[j].freq, ts[i], Remove(ts, i)[j])]
  {
  }

  /** A greedy run extended by one more greedy step is a greedy run ending in that merge. */
  lemma RunExtends<S>(seed: seq<Tree<S>>, trace: seq<(nat, nat)>, i: nat, j: nat)
    requires IsGreedyRun(seed, trace) && IsGreedyStep(Run(seed, trace), i, j)
    ensures IsGreedyRun(seed, trace + [(i, j)])
    ensures Run(seed, trace + [(i, j)]) == Merge(Run(seed, trace), i, j)
  {
    assert (trace + [(i, j)])[..|trace|] == trace;
  }

  /** One merge keeps the symbols of the queue, and shortens it by one. */
  lemma MergeKeepsSyms<S>(ts: seq<Tree<S>>, i: nat, j: nat)
    requires i < |ts| && j < |ts| - 1
    ensures |Merge(ts, i, j)| == |ts| - 1
    ensures SymsOf(Merge(ts, i, j)) == SymsOf(ts)
  {
    MergeSyms(ts, i, j);
    RemoveSplitSyms(ts, i);
    RemoveSplitSyms(Remove(ts, i), j);
    BagSum(SymsOf(Merge(ts, i, j)), SymsOf(ts), SymsOf(Remove(Remove(ts, i), j)), SymsOf(Remove(ts, i)),
           Syms(ts[i]), Syms(Remove(ts, i)[j]));
  }

  /** The symbols after one merge: those left in the queue and those of the two polled trees. */
  lemma MergeSyms<S>(ts: seq<Tree<S>>, i: nat, j: nat)
    requires i < |ts| && j < |ts| - 1
    ensures |Merge(ts, i, j)| == |ts| - 1
    ensures SymsOf(Merge(ts, i, j)) == SymsOf(Remove(Remove(ts, i), j)) + (Syms(ts[i]) + Syms(Remove(ts, i)[j]))
  {
    var rest := Remove(ts, i);
    var parent := Node(ts[i].freq + rest[j].freq, ts[i], rest[j]);
    MergeIs(ts, i, j);
    AppendOneSyms(Remove(rest, j), parent);
  }

  /** One merge keeps the counted symbols of the queue. */
  lemma MergeKeepsBag<S>(ts: seq<Tree<S>>, i: nat, j: nat)
    requires i < |ts| && j < |ts| - 1
    ensures BagOf(Merge(ts, i, j)) == BagOf(ts)
  {
    MergeBag(ts, i, j);
    RemoveSplitBag(ts, i);
    RemoveSplitBag(Remove(ts, i), j);
    BagSum(BagOf(Merge(ts, i, j)), BagOf(ts), BagOf(Remove(Remove(ts, i), j)), BagOf(Remove(ts, i)),
           Bag(ts[i]), Bag(Remove(ts, i)[j]));
  }

  /** The multiset arithmetic of one merge. */
  lemma BagSum<S>(merged: multiset<S>, all: multiset<S>, kept: multiset<S>, rest: multiset<S>, l: multiset<S>, r: multiset<S>)
    requires merged == kept + (l + r) && all == rest + l && rest == kept + r
    ensures merged == all
  {
  }

  /** The symbols after one merge: those left in the queue and those of the two polled trees. */
  lemma MergeBag<S>(ts: seq<Tree<S>>, i: nat, j: nat)
    requires i < |ts| && j < |ts| - 1
    ensures BagOf(Merge(ts, i, j)) == BagOf(Remove(Remove(ts, i), j)) + (Bag(ts[i]) + Bag(Remove(ts, i)[j]))
  {
    var rest := Remove(ts, i);
    var parent := Node(ts[i].freq + rest[j].freq, ts[i], rest[j]);
    MergeIs(ts, i, j);
    AppendOneBag(Remove(rest, j), parent);
  }

  /** A merge that polls two minimum trees keeps every tree summed, ordered and counted from `freq`. */
  lemma MergeKeepsShape<S>(ts: seq<Tree<S>>, i: nat, j: nat, freq: map<S, nat>)
    requires IsGreedyStep(ts, i, j) && WellBuilt(ts, freq)
    ensures WellBuilt(Merge(ts, i, j), freq)
  {
    var rest := Remove(ts, i);
    assert rest[j] == ts[if j < i then j else j + 1];
    var m := Merge(ts, i, j);
    forall k | 0 <= k < |m|
      ensures Summed(m[k]) && Ordered(m[k]) && CountsFrom(m[k], freq)
    {
      if k < |m| - 1 {
        var k1 := if k < j then k else k + 1;
        var k2 := if k1 < i then k1 else k1 + 1;
        assert m[k] == rest[k1] == ts[k2];
      }
    }
  }

  lemma {:induction false} RunKeeps<S>(seed: seq<Tree<S>>, trace: seq<(nat, nat)>, freq: map<S, nat>)
    requires IsGreedyRun(seed, trace) && WellBuilt(seed, freq)
    ensures |Run(seed, trace)| == |seed| - |trace|
    ensures SymsOf(Run(seed, trace)) == SymsOf(seed)
    ensures BagOf(Run(seed, trace)) == BagOf(seed)
    ensures WellBuilt(Run(seed, trace), freq)
    decreases |trace|
  {
    if trace != [] {
      var init := trace[..|trace| - 1];
      RunKeeps(seed, init, freq);
      MergeKeepsSyms(Run(seed, init), trace[|trace| - 1].0, trace[|trace| - 1].1);
      MergeKeepsBag(Run(seed, init), trace[|trace| - 1].0, trace[|trace| - 1].1);
      MergeKeepsShape(Run(seed, init), trace[|trace| - 1].0, trace[|trace| - 1].1, freq);
    }
  }

  lemma {:induction false} LeafSeedSize<S>(seed: seq<Tree<S>>)
    requires forall k :: 0 <= k < |seed| ==> seed[k].Leaf?
    ensures |SymsOf(seed)| == |seed|
    decreases |seed|
  {
    if seed != [] {
      LeafSeedSize(seed[1..]);
    }
  }

  /** A symbol seeded at most once is counted as often as its count in `freq`. */
  lemma {:induction false} LeafSeedBag<S>(seed: seq<Tree<S>>, freq: map<S, nat>)
    requires forall k :: 0 <= k < |seed| ==> seed[k].Leaf? && CountsFrom(seed[k], freq)
    ensures forall x :: SymsOf(seed)[x] <= 1 ==>
      BagOf(seed)[x] == if x in SymsOf(seed) && x in freq then freq[x] else 0
    decreases |seed|
  {
    if seed != [] {
      var first, rest := seed[0], seed[1..];
      LeafSeedBag(rest, freq);
      forall x | SymsOf(seed)[x] <= 1
        ensures BagOf(seed)[x] == if x in SymsOf(seed) && x in freq then freq[x] else 0
      {
        assert SymsOf(seed) == multiset{first.sym} + SymsOf(rest);
        assert BagOf(seed) == multiset{}[first.sym := first.freq] + BagOf(rest);
        if x == first.sym {
          assert SymsOf(rest)[x] == 0;
        }
      }
    }
  }

  lemma LeafSeedWellBuilt<S>(seed: seq<Tree<S>>, freq: map<S, nat>)
    requires forall k :: 0 <= k < |seed| ==> seed[k].Leaf? && CountsFrom(seed[k], freq)
    ensures WellBuilt(seed, freq)
  {
  }

  /**
   * Whatever the tie-breaks, the builder's tree has exactly the keys of
   * `freq` as leaves, each once and with its count; every internal node
   * holds the sum of its children with the lighter child on the left; the
   * root holds the total of all counts; and there were n - 1 merges.
   */
  lemma BuiltTree<S>(freq: map<S, nat>, seed: seq<Tree<S>>, trace: seq<(nat, nat)>, root: Tree<S>)
    requires BuiltBy(freq, seed, trace, root)
    ensures LeavesAre(root, freq)
    ensures Summed(root) && Ordered(root)
    ensures forall x :: Bag(root)[x] == if x in freq then freq[x] else 0
    ensures root.freq == |Bag(root)|
    ensures |trace| == |freq| - 1
  {
    LeafSeedSize(seed);
    LeafSeedBag(seed, freq);
    LeafSeedWellBuilt(seed, freq);
    RunKeeps(seed, trace, freq);
    var run := Run(seed, trace);
    assert run[..0] == [];
    assert SymsOf(run) == Syms(root);
    SymsAreLeafSyms(root);
    assert BagOf(run) == Bag(root);
    forall x ensures Bag(root)[x] == if x in freq then freq[x] else 0 {
      assert multiset(freq.Keys)[x] == if x in freq then 1 else 0;
      assert x in SymsOf(seed) <==> x in freq;
    }
    RootFreqIsBagSize(root);
    assert |multiset(freq.Keys)| == |freq.Keys| == |freq|;
  }

}
