/**
 * The frequency maps of the three compressors: every symbol read bumps its
 * entry with `getOrDefault(symbol, 0) + 1`.
 */
module Frequency {

  /** `map.put(x, map.getOrDefault(x, 0) + 1)`. */
  function Bump<S>(m: map<S, nat>, x: S): map<S, nat>
  {
    m[x := (if x in m then m[x] else 0) + 1]
  }

  /** The map after counting the symbols of `s` in order, starting from an empty map. */
  function Count<S>(s: seq<S>): map<S, nat>
  {
    if s == [] then map[] else Bump(Count(s[..|s| - 1]), s[|s| - 1])
  }

  lemma CountSnoc<S>(s: seq<S>, x: S)
    ensures Count(s + [x]) == Bump(Count(s), x)
  {
    assert (s + [x])[..|s + [x]| - 1] == s;
  }

  /** The keys are the symbols that occur, and each maps to its number of occurrences. */
  lemma {:induction false} CountIsOccurrences<S>(s: seq<S>)
    ensures forall x :: x in Count(s) <==> x in s
    ensures forall x :: x in Count(s) ==> Count(s)[x] == multiset(s)[x]
    decreases |s|
  {
    if s != [] {
      var init, last := s[..|s| - 1], s[|s| - 1];
      CountIsOccurrences(init);
      assert s == init + [last];
      assert multiset(s) == multiset(init) + multiset{last};
      forall x ensures x in s <==> x in init || x == last {
      }
    }
  }

  /** Nothing is counted exactly when nothing was read. */
  lemma CountEmpty<S>(s: seq<S>)
    ensures Count(s) == map[] <==> s == []
  {
    if s != [] {
      CountIsOccurrences(s);
      assert s[0] in Count(s);
    }
  }

  /** The counts add up to the number of symbols read. */
  lemma CountTotal<S>(s: seq<S>, freq: map<S, nat>)
    requires freq == Count(s)
    ensures forall x :: (if x in freq then freq[x] else 0) == multiset(s)[x]
  {
    CountIsOccurrences(s);
    forall x ensures (if x in freq then freq[x] else 0) == multiset(s)[x] {
      if x !in freq {
        assert x !in multiset(s);
      }
    }
  }

  /** The counting loop of the character compressors: one `getOrDefault + 1` per character read. */
  method CountChars(text: string) returns (freq: map<char, nat>)
    ensures freq == Count(text)
  {
    freq := map[];
    var i := 0;
    while i < |text|
      invariant 0 <= i <= |text|
      invariant freq == Count(text[..i])
    {
      var ch := text[i];
      freq := freq[ch := (if ch in freq then freq[ch] else 0) + 1];
      CountSnoc(text[..i], ch);
      assert text[..i + 1] == text[..i] + [ch];
      i := i + 1;
    }
    assert text[..i] == text;
  }
}
