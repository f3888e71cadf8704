/**
 * The bit-by-bit decoder shared by the three decompressors: every bit read
 * is appended to a pending code; as soon as the pending code is a key of the
 * reverse table, its symbol is emitted and the pending code is cleared.
 * The pending code is never reset between blocks, and whatever is still
 * pending when the input ends is discarded.
 */
module Decoding {
  import opened Codes

  /** The symbols emitted so far and the pending code (`tempCode`). */
  datatype DecodeState<S> = DecodeState(out: seq<S>, pending: string)

  /**
   * Consume one bit: once the pending code with the bit appended is a key,
   * its symbol is emitted and nothing stays pending; otherwise nothing is
   * emitted and the bit stays pending.
   */
  function Step<S>(rev: map<string, S>, st: DecodeState<S>, bit: char): (r: DecodeState<S>)
    ensures st.pending + [bit] in rev ==> r == DecodeState(st.out + [rev[st.pending + [bit]]], "")
    ensures st.pending + [bit] !in rev ==> r == DecodeState(st.out, st.pending + [bit])
    ensures |r.out| == |st.out| + 1 <==> st.pending + [bit] in rev
  {
    var p := st.pending + [bit];
    if p in rev then DecodeState(st.out + [rev[p]], "") else DecodeState(st.out, p)
  }

  /** Consume the bits in order, starting from `st`. */
  function Feed<S>(rev: map<string, S>, st: DecodeState<S>, bits: string): DecodeState<S>
    decreases |bits|
  {
    if bits == [] then st else Step(rev, Feed(rev, st, bits[..|bits| - 1]), bits[|bits| - 1])
  }

  /** Feeding two strings one after the other is feeding their concatenation. */
  lemma {:induction false} FeedAppend<S>(rev: map<string, S>, st: DecodeState<S>, a: string, b: string)
    ensures Feed(rev, st, a + b) == Feed(rev, Feed(rev, st, a), b)
    decreases |b|
  {
    if b == [] {
      assert a + b == a;
    } else {
      var b' := b[..|b| - 1];
      assert (a + b)[..|a + b| - 1] == a + b';
      assert (a + b)[|a + b| - 1] == b[|b| - 1];
      FeedAppend(rev, st, a, b');
    }
  }

  /**
   * Feeding a proper prefix of a code from an empty pending code emits
   * nothing and leaves that prefix pending.
   */
  lemma {:induction false} FeedPrefix<S>(rev: map<string, S>, out: seq<S>, c: string, k: nat)
    requires PrefixFree(rev.Keys) && c in rev && k < |c|
    ensures Feed(rev, DecodeState(out, ""), c[..k]) == DecodeState(out, c[..k])
  {
    if k > 0 {
      FeedPrefix(rev, out, c, k - 1);
      assert c[..k][..k - 1] == c[..k - 1];
      assert c[..k - 1] + [c[k - 1]] == c[..k];
      assert c[..k] <= c && c[..k] != c;
    }
  }

  /** Feeding a whole code from an empty pending code emits exactly its symbol. */
  lemma FeedCode<S>(rev: map<string, S>, out: seq<S>, c: string)
    requires PrefixFree(rev.Keys) && c in rev && c != ""
    ensures Feed(rev, DecodeState(out, ""), c) == DecodeState(out + [rev[c]], "")
  {
    var k := |c| - 1;
    FeedPrefix(rev, out, c, k);
    assert c[..|c|] == c;
    assert c[..k] + [c[k]] == c;
  }

  /** One more symbol: decoding its code after the codes of `init` adds it to the output. */
  lemma DecodeOneMore<S>(codes: map<S, string>, rev: map<string, S>, out: seq<S>, init: seq<S>, last: S)
    requires PrefixFree(rev.Keys)
    requires forall i :: 0 <= i < |init| ==> init[i] in codes
    requires last in codes && codes[last] in rev && rev[codes[last]] == last && codes[last] != ""
    requires Feed(rev, DecodeState(out, ""), Encode(codes, init)) == DecodeState(out + init, "")
    ensures Feed(rev, DecodeState(out, ""), Encode(codes, init + [last])) == DecodeState(out + (init + [last]), "")
  {
    var c := codes[last];
    assert (init + [last])[..|init|] == init;
    assert Encode(codes, init + [last]) == Encode(codes, init) + c;
    FeedAppend(rev, DecodeState(out, ""), Encode(codes, init), c);
    FeedCode(rev, out + init, c);
    assert out + init + [last] == out + (init + [last]);
  }

  /**
   * With a prefix-free reverse table that inverts the code table and no
   * empty code, decoding the encoding of any symbol sequence gives it back,
   * with nothing left pending.
   */
  lemma {:induction false} DecodeEncode<S>(codes: map<S, string>, rev: map<string, S>, out: seq<S>, syms: seq<S>)
    requires Inverse(codes, rev) && PrefixFree(rev.Keys)
    requires forall s :: s in codes ==> codes[s] != ""
    requires forall i :: 0 <= i < |syms| ==> syms[i] in codes
    ensures Feed(rev, DecodeState(out, ""), Encode(codes, syms)) == DecodeState(out + syms, "")
    decreases |syms|
  {
    if syms == [] {
      assert out + syms == out;
    } else {
      var init, last := syms[..|syms| - 1], syms[|syms| - 1];
      DecodeEncode(codes, rev, out, init);
      DecodeOneMore(codes, rev, out, init, last);
      assert init + [last] == syms;
    }
  }

  /** A table whose only code is empty never matches: nothing is ever emitted. */
  lemma {:induction false} EmptyCodeNeverMatches<S>(s: S, st: DecodeState<S>, bits: string)
    ensures Feed(map["" := s], st, bits).out == st.out
    ensures Feed(map["" := s], st, bits).pending == st.pending + bits
    decreases |bits|
  {
    if bits != [] {
      EmptyCodeNeverMatches(s, st, bits[..|bits| - 1]);
      assert st.pending + bits[..|bits| - 1] + [bits[|bits| - 1]] == st.pending + bits;
    }
  }
}
