/**
 * The compressed file of all three compressors: `writeInt(size)` and one
 * (symbol, code) pair per entry of the code table, then blocks of packed
 * bits, each written by `writeBits`. The decompressors read the pairs back
 * into their reverse table with `put(code, symbol)`, in the order written.
 */
module Container {
  import opened Bits

  /** A compressed file: the header's pairs in the order written, then the blocks. */
  datatype Compressed<S> = Compressed(header: seq<(S, string)>, blocks: seq<Block>)

  /** The header lists the table `m`: one pair per entry, each key once, in any order. */
  ghost predicate Lists<S>(h: seq<(S, string)>, m: map<S, string>)
  {
    |h| == |m| &&
    (forall k :: 0 <= k < |h| ==> h[k].0 in m && h[k].1 == m[h[k].0]) &&
    (forall k, l :: 0 <= k < l < |h| ==> h[k].0 != h[l].0) &&
    (forall x :: x in m ==> exists k :: 0 <= k < |h| && h[k].0 == x)
  }

  /** A header written so far: one pair per key of `written`, each key once. */
  ghost predicate ListsPart<S>(h: seq<(S, string)>, written: set<S>, m: map<S, string>)
  {
    |h| == |written| &&
    (forall k :: 0 <= k < |h| ==> h[k].0 in written && h[k].0 in m && h[k].1 == m[h[k].0]) &&
    (forall k, l :: 0 <= k < l < |h| ==> h[k].0 != h[l].0) &&
    (forall x :: x in written ==> exists k :: 0 <= k < |h| && h[k].0 == x)
  }

  /** Writing the pair of one more key extends a partial header. */
  lemma ListsOneMore<S>(h: seq<(S, string)>, written: set<S>, m: map<S, string>, key: S)
    requires ListsPart(h, written, m) && key in m && key !in written
    ensures ListsPart(h + [(key, m[key])], written + {key}, m)
  {
    var next := h + [(key, m[key])];
    forall x | x in written + {key} ensures exists k :: 0 <= k < |next| && next[k].0 == x {
      if x == key {
        assert next[|h|].0 == x;
      } else {
        var k :| 0 <= k < |h| && h[k].0 == x;
        assert next[k].0 == x;
      }
    }
  }

  /**
   * The header loop of the compressors: the size, then every entry of the
   * code table in the table's iteration order, which is left open here.
   */
  method WriteHeader<S>(m: map<S, string>) returns (header: seq<(S, string)>)
    ensures Lists(header, m)
  {
    header := [];
    var entries := m.Keys;
    ghost var written: set<S> := {};
    while entries != {}
      invariant entries + written == m.Keys && entries !! written
      invariant ListsPart(header, written, m)
      decreases |entries|
    {
      var key :| key in entries;
      ListsOneMore(header, written, m, key);
      MoveKey(entries, written, m.Keys, key);
      header := header + [(key, m[key])];
      entries := entries - {key};
      written := written + {key};
    }
    ListsAll(header, written, m);
  }

  /** Moving one key from the keys still to write to those written keeps the split of `keys`. */
  lemma MoveKey<S>(entries: set<S>, written: set<S>, keys: set<S>, key: S)
    requires entries + written == keys && entries !! written && key in entries
    ensures (entries - {key}) + (written + {key}) == keys && (entries - {key}) !! (written + {key})
    ensures |entries - {key}| < |entries| && |written + {key}| == |written| + 1
  {
  }

  /** A partial header that has written every key lists the whole table. */
  lemma ListsAll<S>(h: seq<(S, string)>, written: set<S>, m: map<S, string>)
    requires ListsPart(h, written, m) && written == m.Keys
    ensures Lists(h, m)
  {
  }

  /** The reverse table after `put(code, symbol)` for every header pair, in order. */
  function PutAll<S>(rev: map<string, S>, h: seq<(S, string)>): map<string, S>
  {
    if h == [] then rev else PutAll(rev, h[..|h| - 1])[h[|h| - 1].1 := h[|h| - 1].0]
  }

  /** `sub` agrees with `rev` wherever it is defined. */
  ghost predicate SubTable<S>(sub: map<string, S>, rev: map<string, S>)
  {
    forall c :: c in sub ==> c in rev && sub[c] == rev[c]
  }

  /** Putting pairs that all agree with `rev` keeps the table inside `rev` and adds every code put. */
  lemma {:induction false} PutAllAgrees<S>(rev0: map<string, S>, h: seq<(S, string)>, rev: map<string, S>)
    requires SubTable(rev0, rev)
    requires forall k :: 0 <= k < |h| ==> h[k].1 in rev && rev[h[k].1] == h[k].0
    ensures SubTable(PutAll(rev0, h), rev)
    ensures forall k :: 0 <= k < |h| ==> h[k].1 in PutAll(rev0, h)
    decreases |h|
  {
    if h != [] {
      PutAllAgrees(rev0, h[..|h| - 1], rev);
      forall k | 0 <= k < |h| - 1 ensures h[k].1 in PutAll(rev0, h[..|h| - 1]) {
        assert h[..|h| - 1][k] == h[k];
      }
    }
  }

  /**
   * Reading back a header that lists the code table `codes` rebuilds its
   * inverse `rev`, whether the reverse table starts empty or already holds
   * part of `rev`, and whatever order the pairs were written in.
   */
  lemma ReadHeader<S>(rev0: map<string, S>, h: seq<(S, string)>, codes: map<S, string>, rev: map<string, S>)
    requires Lists(h, codes) && SubTable(rev0, rev)
    requires forall s :: s in codes ==> codes[s] in rev && rev[codes[s]] == s
    requires forall c :: c in rev ==> rev[c] in codes && codes[rev[c]] == c
    ensures PutAll(rev0, h) == rev
  {
    PutAllAgrees(rev0, h, rev);
    var r := PutAll(rev0, h);
    forall c | c in rev ensures c in r {
      var k :| 0 <= k < |h| && h[k].0 == rev[c];
    }
  }
}
