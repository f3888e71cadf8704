/**
 * The size of an encoding: the bit string the compressors build is as long
 * as the sum, over the distinct symbols read, of each symbol's count times
 * the length of its code.
 */
module EncodedSize {
  import opened Frequency
  import opened Codes

  /** The sum of `freq[s] * |codes[s]|` over the symbols `s` of `keys`. */
  ghost function Weighted<S>(freq: map<S, nat>, codes: map<S, string>, keys: set<S>): nat
    requires keys <= freq.Keys && keys <= codes.Keys
    decreases keys
  {
    if keys == {} then 0
    else
      var k :| k in keys;
      freq[k] * |codes[k]| + Weighted(freq, codes, keys - {k})
  }

  /** The sum does not depend on which symbol is taken first. */
  lemma {:induction false} WeightedPick<S>(freq: map<S, nat>, codes: map<S, string>, keys: set<S>, x: S)
    requires keys <= freq.Keys && keys <= codes.Keys && x in keys
    ensures Weighted(freq, codes, keys) == freq[x] * |codes[x]| + Weighted(freq, codes, keys - {x})
    decreases keys
  {
    var y :| y in keys && Weighted(freq, codes, keys) == freq[y] * |codes[y]| + Weighted(freq, codes, keys - {y});
    if y != x {
      WeightedPick(freq, codes, keys - {y}, x);
      WeightedPick(freq, codes, keys - {x}, y);
      assert keys - {y} - {x} == keys - {x} - {y};
    }
  }

  /** Counts that agree on `keys` give the same sum. */
  lemma {:induction false} WeightedSame<S>(freq1: map<S, nat>, freq2: map<S, nat>, codes: map<S, string>, keys: set<S>)
    requires keys <= freq1.Keys && keys <= freq2.Keys && keys <= codes.Keys
    requires forall k :: k in keys ==> freq1[k] == freq2[k]
    ensures Weighted(freq1, codes, keys) == Weighted(freq2, codes, keys)
    decreases keys
  {
    if keys != {} {
      var k :| k in keys;
      WeightedPick(freq1, codes, keys, k);
      WeightedPick(freq2, codes, keys, k);
      WeightedSame(freq1, freq2, codes, keys - {k});
    }
  }

  /** Counting one more `x` adds the length of its code to the sum. */
  lemma WeightedBump<S>(freq: map<S, nat>, codes: map<S, string>, x: S)
    requires freq.Keys <= codes.Keys && x in codes
    ensures Bump(freq, x).Keys == freq.Keys + {x}
    ensures Weighted(Bump(freq, x), codes, freq.Keys + {x}) == Weighted(freq, codes, freq.Keys) + |codes[x]|
  {
    var bumped := Bump(freq, x);
    assert bumped.Keys == freq.Keys + {x};
    var keys := freq.Keys;
    if x in freq {
      assert keys + {x} == keys;
      WeightedPick(bumped, codes, keys, x);
      WeightedPick(freq, codes, keys, x);
      WeightedSame(bumped, freq, codes, keys - {x});
      assert bumped[x] * |codes[x]| == freq[x] * |codes[x]| + |codes[x]|;
    } else {
      WeightedPick(bumped, codes, keys + {x}, x);
      assert keys + {x} - {x} == keys;
      WeightedSame(bumped, freq, codes, keys);
    }
  }

  /**
   * The encoding of `syms` holds, for every distinct symbol, its count
   * times its code's length bits, and nothing else.
   */
  lemma {:induction false} EncodedLength<S>(codes: map<S, string>, syms: seq<S>)
    requires forall i :: 0 <= i < |syms| ==> syms[i] in codes
    ensures Count(syms).Keys <= codes.Keys
    ensures |Encode(codes, syms)| == Weighted(Count(syms), codes, Count(syms).Keys)
    decreases |syms|
  {
    CountIsOccurrences(syms);
    if syms != [] {
      var init, last := syms[..|syms| - 1], syms[|syms| - 1];
      EncodedLength(codes, init);
      WeightedBump(Count(init), codes, last);
    }
  }
}
