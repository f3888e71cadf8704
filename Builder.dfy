/**
 * The tree builders `buildHuffmanTreeChar` (also `buildHuffmanTree` of the
 * binary encoder, which is the same code) and `buildHuffmanTreeWord`.
 * The priority queue is a sequence of nodes; `poll` removes a node of least
 * frequency, any one of them when several tie, which is the order
 * `HuffmanComparator` gives the queue.
 */
module Builder {
  import opened Wrappers
  import opened HuffmanTree
  import opened Greedy
  import opened Nodes
  import opened Container
  import opened Comparator

  /** The queue holds nodes whose trees are the forest `ts`, each a well-formed character tree. */
  ghost predicate CharQueue(q: seq<HuffmanNode>, ts: seq<Tree<char>>)
    reads set k | 0 <= k < |q| :: q[k]
    reads set k, o | 0 <= k < |q| && o in q[k].Repr :: o
  {
    |q| == |ts| &&
    forall k :: 0 <= k < |q| ==> q[k].Valid() && q[k].CharShaped() && q[k].CharTree() == ts[k]
  }

  /** The queue holds nodes whose trees are the forest `ts`, each a well-formed word tree. */
  ghost predicate WordQueue(q: seq<HuffmanNode>, ts: seq<Tree<string>>)
    reads set k | 0 <= k < |q| :: q[k]
    reads set k, o | 0 <= k < |q| && o in q[k].Repr :: o
  {
    |q| == |ts| &&
    forall k :: 0 <= k < |q| ==> q[k].Valid() && q[k].WordShaped() && q[k].WordTree() == ts[k]
  }

  /**
   * `q[i]` is a node `poll()` may return: none has a smaller frequency.
   * `LeastComparesFirst` shows that the comparator ranks it first.
   */
  predicate IsLeast(q: seq<HuffmanNode>, i: nat)
  {
    i < |q| && forall k :: 0 <= k < |q| ==> q[i].frequency <= q[k].frequency
  }

  /** A non-empty queue has a node of least frequency. */
  lemma {:induction false} LeastExists(q: seq<HuffmanNode>)
    requires |q| > 0
    ensures exists i :: 0 <= i < |q| && IsLeast(q, i)
    decreases |q|
  {
    if |q| > 1 {
      var init := q[..|q| - 1];
      LeastExists(init);
      var i :| 0 <= i < |init| && IsLeast(init, i);
      if q[i].frequency > q[|q| - 1].frequency {
        assert IsLeast(q, |q| - 1);
      } else {
        assert IsLeast(q, i);
      }
    } else {
      assert IsLeast(q, 0);
    }
  }

  /** For frequencies that fit in an `int`, a node of least frequency is one `compare` ranks first. */
  lemma LeastComparesFirst(q: seq<HuffmanNode>, i: nat)
    requires IsLeast(q, i)
    requires forall k :: 0 <= k < |q| ==> q[k].frequency < TWO_31
    ensures forall k :: 0 <= k < |q| ==> Compare(q[i], q[k]) <= 0
  {
    forall k | 0 <= k < |q| ensures Compare(q[i], q[k]) <= 0 {
      CompareOrdersByFrequency(q[i], q[k]);
    }
  }

  /** Removing the same position from the queue and from its forest keeps them in step. */
  lemma CharQueueRemove(q: seq<HuffmanNode>, ts: seq<Tree<char>>, i: nat)
    requires CharQueue(q, ts) && i < |q|
    ensures CharQueue(Remove(q, i), Remove(ts, i))
  {
  }

  /** Appending a well-formed node and its tree keeps the queue and the forest in step. */
  lemma CharQueueSnoc(q: seq<HuffmanNode>, ts: seq<Tree<char>>, node: HuffmanNode)
    requires CharQueue(q, ts) && node.Valid() && node.CharShaped()
    ensures CharQueue(q + [node], ts + [node.CharTree()])
  {
  }

  /** Polling a least node of the queue polls a least tree of the forest, and the rest stays in step. */
  lemma CharQueuePoll(q: seq<HuffmanNode>, ts: seq<Tree<char>>, i: nat)
    requires CharQueue(q, ts) && IsLeast(q, i)
    ensures IsMinAt(ts, i) && CharQueue(Remove(q, i), Remove(ts, i))
    ensures q[i].Valid() && q[i].CharShaped() && q[i].CharTree() == ts[i]
  {
    CharQueueRemove(q, ts, i);
  }

  /** `new HuffmanNode('\0', sum)` with `left` and `right` linked below it. */
  method LinkChar(left: HuffmanNode, right: HuffmanNode, ghost q: seq<HuffmanNode>, ghost ts: seq<Tree<char>>)
    returns (parent: HuffmanNode)
    requires left.Valid() && left.CharShaped() && right.Valid() && right.CharShaped()
    requires CharQueue(q, ts)
    ensures CharQueue(q, ts)
    ensures fresh(parent) && parent.Repr == {parent} + left.Repr + right.Repr
    ensures parent.Valid() && parent.CharShaped()
    ensures parent.CharTree() == Node(left.frequency + right.frequency, left.CharTree(), right.CharTree())
  {
    var sum := left.frequency + right.frequency;
    parent := new HuffmanNode.ForChar('\0', sum);
    parent.left := left;
    parent.right := right;
    parent.Repr := {parent} + left.Repr + right.Repr;
  }

  /** `priorityQueue.add(new HuffmanNode(key, frequency))`. */
  method AddLeafChar(q: seq<HuffmanNode>, ghost ts: seq<Tree<char>>, key: char, frequency: nat) returns (q': seq<HuffmanNode>)
    requires CharQueue(q, ts)
    ensures CharQueue(q', ts + [Leaf(key, frequency)]) && |q'| == |q| + 1
  {
    var node := new HuffmanNode.ForChar(key, frequency);
    CharQueueSnoc(q, ts, node);
    q' := q + [node];
  }

  /** The first loop of `buildHuffmanTreeChar`: one leaf per map entry, in any order. */
  method SeedChar(frequencyMap: map<char, nat>) returns (priorityQueue: seq<HuffmanNode>, ghost seed: seq<Tree<char>>)
    ensures CharQueue(priorityQueue, seed) && IsLeafSeed(seed, frequencyMap)
    ensures |seed| == |frequencyMap|
  {
    priorityQueue := [];
    seed := [];
    var entries := frequencyMap.Keys;
    ghost var added: set<char> := {};
    while entries != {}
      invariant entries + added == frequencyMap.Keys && entries !! added
      invariant CharQueue(priorityQueue, seed) && |seed| == |added|
      invariant SeededFrom(seed, frequencyMap, added)
      decreases |entries|
    {
      var key :| key in entries;
      MoveKey(entries, added, frequencyMap.Keys, key);
      priorityQueue := AddLeafChar(priorityQueue, seed, key, frequencyMap[key]);
      SeedOneMore(seed, frequencyMap, added, key);
      seed := seed + [Leaf(key, frequencyMap[key])];
      entries := entries - {key};
      added := added + {key};
    }
    SeedDone(seed, frequencyMap, added);
  }

  /**
   * The body of the merge loop of `buildHuffmanTreeChar`: poll a least node
   * as `left`, poll a least node of the rest as `right`, push their parent.
   */
  method MergeLeastChar(q: seq<HuffmanNode>, ghost ts: seq<Tree<char>>) returns (q': seq<HuffmanNode>, i: nat, j: nat)
    requires CharQueue(q, ts) && |q| > 1
    ensures IsGreedyStep(ts, i, j) && CharQueue(q', Merge(ts, i, j)) && |q'| == |q| - 1
  {
    var priorityQueue := q;
    LeastExists(priorityQueue);
    i :| 0 <= i < |priorityQueue| && IsLeast(priorityQueue, i);
    var left := priorityQueue[i];
    CharQueuePoll(priorityQueue, ts, i);
    priorityQueue := Remove(priorityQueue, i);
    LeastExists(priorityQueue);
    j :| 0 <= j < |priorityQueue| && IsLeast(priorityQueue, j);
    var right := priorityQueue[j];
    CharQueuePoll(priorityQueue, Remove(ts, i), j);
    priorityQueue := Remove(priorityQueue, j);
    var parent := LinkChar(left, right, priorityQueue, Remove(Remove(ts, i), j));
    CharQueueSnoc(priorityQueue, Remove(Remove(ts, i), j), parent);
    MergeIs(ts, i, j);
    q' := priorityQueue + [parent];
  }

  /**
   * `buildHuffmanTreeChar`: one leaf per map entry, then merge the two
   * least-frequent nodes under a '\0' parent until one node is left; `null`
   * for an empty map. The ghost outputs are the leaves in the order they
   * were queued and the indices polled at every merge.
   */
  method BuildTreeChar(frequencyMap: map<char, nat>)
    returns (root: HuffmanNode?, ghost seed: seq<Tree<char>>, ghost trace: seq<(nat, nat)>)
    ensures root == null <==> frequencyMap == map[]
    ensures root != null ==>
      root.Valid() && root.CharShaped() && BuiltBy(frequencyMap, seed, trace, root.CharTree())
  {
    var priorityQueue;
    priorityQueue, seed := SeedChar(frequencyMap);
    ghost var ts := seed;
    trace := [];
    while |priorityQueue| > 1
      invariant CharQueue(priorityQueue, ts)
      invariant IsGreedyRun(seed, trace) && Run(seed, trace) == ts
      invariant |priorityQueue| == 0 <==> |seed| == 0
      decreases |priorityQueue|
    {
      var i, j;
      priorityQueue, i, j := MergeLeastChar(priorityQueue, ts);
      RunExtends(seed, trace, i, j);
      trace := trace + [(i, j)];
      ts := Merge(ts, i, j);
    }
    if |priorityQueue| == 0 {
      root := null;
    } else {
      root := priorityQueue[0];
      CharRoot(priorityQueue, ts);
    }
  }

  /** The one node left in the queue is the root of the single tree left in the forest. */
  lemma CharRoot(q: seq<HuffmanNode>, ts: seq<Tree<char>>)
    requires CharQueue(q, ts) && |q| == 1
    ensures q[0].Valid() && q[0].CharShaped() && ts == [q[0].CharTree()]
  {
  }

  /** Removing the same position from the queue and from its forest keeps them in step. */
  lemma WordQueueRemove(q: seq<HuffmanNode>, ts: seq<Tree<string>>, i: nat)
    requires WordQueue(q, ts) && i < |q|
    ensures WordQueue(Remove(q, i), Remove(ts, i))
  {
  }

  /** Appending a well-formed node and its tree keeps the queue and the forest in step. */
  lemma WordQueueSnoc(q: seq<HuffmanNode>, ts: seq<Tree<string>>, node: HuffmanNode)
    requires WordQueue(q, ts) && node.Valid() && node.WordShaped()
    ensures WordQueue(q + [node], ts + [node.WordTree()])
  {
  }

  /** Polling a least node of the queue polls a least tree of the forest, and the rest stays in step. */
  lemma WordQueuePoll(q: seq<HuffmanNode>, ts: seq<Tree<string>>, i: nat)
    requires WordQueue(q, ts) && IsLeast(q, i)
    ensures IsMinAt(ts, i) && WordQueue(Remove(q, i), Remove(ts, i))
    ensures q[i].Valid() && q[i].WordShaped() && q[i].WordTree() == ts[i]
  {
    WordQueueRemove(q, ts, i);
  }

  /** `new HuffmanNode(null, sum)` with `left` and `right` linked below it. */
  method LinkWord(left: HuffmanNode, right: HuffmanNode, ghost q: seq<HuffmanNode>, ghost ts: seq<Tree<string>>)
    returns (parent: HuffmanNode)
    requires left.Valid() && left.WordShaped() && right.Valid() && right.WordShaped()
    requires WordQueue(q, ts)
    ensures WordQueue(q, ts)
    ensures fresh(parent) && parent.Repr == {parent} + left.Repr + right.Repr
    ensures parent.Valid() && parent.WordShaped()
    ensures parent.WordTree() == Node(left.frequency + right.frequency, left.WordTree(), right.WordTree())
  {
    var sum := left.frequency + right.frequency;
    parent := new HuffmanNode.ForWord(None, sum);
    parent.left := left;
    parent.right := right;
    parent.Repr := {parent} + left.Repr + right.Repr;
  }

  /** `priorityQueue.add(new HuffmanNode(key, frequency))`. */
  method AddLeafWord(q: seq<HuffmanNode>, ghost ts: seq<Tree<string>>, key: string, frequency: nat) returns (q': seq<HuffmanNode>)
    requires WordQueue(q, ts)
    ensures WordQueue(q', ts + [Leaf(key, frequency)]) && |q'| == |q| + 1
  {
    var node := new HuffmanNode.ForWord(Some(key), frequency);
    WordQueueSnoc(q, ts, node);
    q' := q + [node];
  }

  /** The first loop of `buildHuffmanTreeWord`: one leaf per map entry, in any order. */
  method SeedWord(frequencyMap: map<string, nat>) returns (priorityQueue: seq<HuffmanNode>, ghost seed: seq<Tree<string>>)
    ensures WordQueue(priorityQueue, seed) && IsLeafSeed(seed, frequencyMap)
    ensures |seed| == |frequencyMap|
  {
    priorityQueue := [];
    seed := [];
    var entries := frequencyMap.Keys;
    ghost var added: set<string> := {};
    while entries != {}
      invariant entries + added == frequencyMap.Keys && entries !! added
      invariant WordQueue(priorityQueue, seed) && |seed| == |added|
      invariant SeededFrom(seed, frequencyMap, added)
      decreases |entries|
    {
      var key :| key in entries;
      MoveKey(entries, added, frequencyMap.Keys, key);
      priorityQueue := AddLeafWord(priorityQueue, seed, key, frequencyMap[key]);
      SeedOneMore(seed, frequencyMap, added, key);
      seed := seed + [Leaf(key, frequencyMap[key])];
      entries := entries - {key};
      added := added + {key};
    }
    SeedDone(seed, frequencyMap, added);
  }

  /**
   * The body of the merge loop of `buildHuffmanTreeWord`: poll a least node
   * as `left`, poll a least node of the rest as `right`, push their parent.
   */
  method MergeLeastWord(q: seq<HuffmanNode>, ghost ts: seq<Tree<string>>) returns (q': seq<HuffmanNode>, i: nat, j: nat)
    requires WordQueue(q, ts) && |q| > 1
    ensures IsGreedyStep(ts, i, j) && WordQueue(q', Merge(ts, i, j)) && |q'| == |q| - 1
  {
    var priorityQueue := q;
    LeastExists(priorityQueue);
    i :| 0 <= i < |priorityQueue| && IsLeast(priorityQueue, i);
    var left := priorityQueue[i];
    WordQueuePoll(priorityQueue, ts, i);
    priorityQueue := Remove(priorityQueue, i);
    LeastExists(priorityQueue);
    j :| 0 <= j < |priorityQueue| && IsLeast(priorityQueue, j);
    var right := priorityQueue[j];
    WordQueuePoll(priorityQueue, Remove(ts, i), j);
    priorityQueue := Remove(priorityQueue, j);
    var parent := LinkWord(left, right, priorityQueue, Remove(Remove(ts, i), j));
    WordQueueSnoc(priorityQueue, Remove(Remove(ts, i), j), parent);
    MergeIs(ts, i, j);
    q' := priorityQueue + [parent];
  }

  /**
   * `buildHuffmanTreeWord`: one leaf per map entry, then merge the two
   * least-frequent nodes under a parent with no word until one node is
   * left; `null` for an empty map.
   */
  method BuildTreeWord(frequencyMap: map<string, nat>)
    returns (root: HuffmanNode?, ghost seed: seq<Tree<string>>, ghost trace: seq<(nat, nat)>)
    ensures root == null <==> frequencyMap == map[]
    ensures root != null ==>
      root.Valid() && root.WordShaped() && BuiltBy(frequencyMap, seed, trace, root.WordTree())
  {
    var priorityQueue;
    priorityQueue, seed := SeedWord(frequencyMap);
    ghost var ts := seed;
    trace := [];
    while |priorityQueue| > 1
      invariant WordQueue(priorityQueue, ts)
      invariant IsGreedyRun(seed, trace) && Run(seed, trace) == ts
      invariant |priorityQueue| == 0 <==> |seed| == 0
      decreases |priorityQueue|
    {
      var i, j;
      priorityQueue, i, j := MergeLeastWord(priorityQueue, ts);
      RunExtends(seed, trace, i, j);
      trace := trace + [(i, j)];
      ts := Merge(ts, i, j);
    }
    if |priorityQueue| == 0 {
      root := null;
    } else {
      root := priorityQueue[0];
      WordRoot(priorityQueue, ts);
    }
  }

  /** The one node left in the queue is the root of the single tree left in the forest. */
  lemma WordRoot(q: seq<HuffmanNode>, ts: seq<Tree<string>>)
    requires WordQueue(q, ts) && |q| == 1
    ensures q[0].Valid() && q[0].WordShaped() && ts == [q[0].WordTree()]
  {
  }
}
