/**
 * The word compressor's tokenizer: a maximal run of non-whitespace
 * characters is a word, and every whitespace character is a separator
 * token of its own. The same scan drives both the counting pass and the
 * encoding pass.
 */
module Tokenizer {
  import opened Bits
  import opened Frequency

  /** `Character.isWhitespace` of Java 9 and later (Unicode 6.3 on, where U+180E is no longer a space): Unicode space separators other than the no-break spaces, and the control characters 0x09-0x0D and 0x1C-0x1F. */
  predicate IsWhitespace(c: char)
  {
    var n := c as int;
    (0x09 <= n <= 0x0D) || (0x1C <= n <= 0x20) || n == 0x1680 ||
    (0x2000 <= n <= 0x2006) || (0x2008 <= n <= 0x200A) ||
    n == 0x2028 || n == 0x2029 || n == 0x205F || n == 0x3000
  }

  /** A separator token: one whitespace character. */
  predicate IsSeparator(t: string)
  {
    |t| == 1 && IsWhitespace(t[0])
  }

  /** A word token: non-empty, with no whitespace. */
  predicate IsWord(t: string)
  {
    |t| > 0 && forall k :: 0 <= k < |t| ==> !IsWhitespace(t[k])
  }

  /** The tokens completed so far and the word being built (`wordBuilder`). */
  datatype ScanState = ScanState(tokens: seq<string>, word: string)

  /** One character of the scan: a whitespace character closes the pending word, if any, and is a token itself. */
  function ScanChar(st: ScanState, ch: char): ScanState
  {
    if IsWhitespace(ch) then
      ScanState(st.tokens + (if |st.word| > 0 then [st.word] else []) + [[ch]], "")
    else
      ScanState(st.tokens, st.word + [ch])
  }

  /** The state after scanning `text`. */
  function Scan(text: string): ScanState
  {
    if text == [] then ScanState([], "") else ScanChar(Scan(text[..|text| - 1]), text[|text| - 1])
  }

  /** The tokens of `text`: those of the scan, then the last word if there is one. */
  function Tokenize(text: string): seq<string>
  {
    var st := Scan(text);
    st.tokens + if |st.word| > 0 then [st.word] else []
  }

  predicate WellShaped(tokens: seq<string>)
  {
    forall k :: 0 <= k < |tokens| ==> IsSeparator(tokens[k]) || IsWord(tokens[k])
  }

  /** No word token directly follows another: every word is a maximal run. */
  predicate Maximal(tokens: seq<string>)
  {
    forall k :: 0 <= k < |tokens| - 1 ==> !(IsWord(tokens[k]) && IsWord(tokens[k + 1]))
  }

  lemma ScanPrefix(text: string, i: nat)
    requires i < |text|
    ensures Scan(text[..i + 1]) == ScanChar(Scan(text[..i]), text[i])
  {
    assert text[..i + 1][..i] == text[..i];
  }

  /** The tokens completed after reading part of the text begin the tokens of the whole text. */
  lemma {:induction false} ScanTokensGrow(text: string, i: nat)
    requires i <= |text|
    ensures Scan(text[..i]).tokens <= Tokenize(text)
    decreases |text| - i
  {
    if i < |text| {
      ScanTokensGrow(text, i + 1);
      ScanPrefix(text, i);
    } else {
      assert text[..i] == text;
    }
  }

  /** One step of the scan neither loses nor reorders characters. */
  lemma ScanCharLossless(st: ScanState, ch: char)
    ensures Concat(ScanChar(st, ch).tokens) + ScanChar(st, ch).word == Concat(st.tokens) + st.word + [ch]
  {
    if IsWhitespace(ch) {
      if |st.word| > 0 {
        ConcatSnoc(st.tokens, st.word);
        ConcatSnoc(st.tokens + [st.word], [ch]);
      } else {
        assert st.tokens + [] == st.tokens;
        ConcatSnoc(st.tokens, [ch]);
      }
    }
  }

  /** What the scan keeps is the text read so far: the completed tokens, then the pending word. */
  lemma {:induction false} ScanLossless(text: string)
    ensures Concat(Scan(text).tokens) + Scan(text).word == text
    decreases |text|
  {
    if text != [] {
      var init, ch := text[..|text| - 1], text[|text| - 1];
      ScanLossless(init);
      ScanCharLossless(Scan(init), ch);
      assert init + [ch] == text;
    }
  }

  /** The completed tokens are well shaped and maximal, the last one is a separator, and the pending word has no whitespace. */
  lemma {:induction false} ScanShapes(text: string)
    ensures WellShaped(Scan(text).tokens) && Maximal(Scan(text).tokens)
    ensures Scan(text).tokens == [] || IsSeparator(Scan(text).tokens[|Scan(text).tokens| - 1])
    ensures forall k :: 0 <= k < |Scan(text).word| ==> !IsWhitespace(Scan(text).word[k])
    decreases |text|
  {
    if text != [] {
      var init, ch := text[..|text| - 1], text[|text| - 1];
      ScanShapes(init);
      assert init + [ch] == text;
      var st := Scan(init);
      if IsWhitespace(ch) {
        var ts := st.tokens + (if |st.word| > 0 then [st.word] else []);
        assert WellShaped(ts);
        assert Maximal(ts);
        assert ts + [[ch]] == Scan(text).tokens;
      } else {
        var w := st.word + [ch];
        assert forall k :: 0 <= k < |st.word| ==> w[k] == st.word[k];
      }
    }
  }

  /** Tokenizing loses nothing: the tokens joined back are the text. */
  lemma Lossless(text: string)
    ensures Concat(Tokenize(text)) == text
  {
    ScanLossless(text);
    var st := Scan(text);
    if |st.word| > 0 {
      ConcatSnoc(st.tokens, st.word);
    } else {
      assert st.tokens + [] == st.tokens;
    }
  }

  /** Every token is a single whitespace character or a non-empty run without whitespace, and words are maximal. */
  lemma TokenShapes(text: string)
    ensures WellShaped(Tokenize(text)) && Maximal(Tokenize(text))
  {
    ScanShapes(text);
    var st := Scan(text);
    if |st.word| == 0 {
      assert Tokenize(text) == st.tokens;
    }
  }

  /** How one step of the scan changes the counts of the completed tokens. */
  lemma CountScanChar(st: ScanState, ch: char)
    ensures Count(ScanChar(st, ch).tokens) ==
      if !IsWhitespace(ch) then Count(st.tokens)
      else Bump(if |st.word| > 0 then Bump(Count(st.tokens), st.word) else Count(st.tokens), [ch])
  {
    if IsWhitespace(ch) {
      if |st.word| > 0 {
        CountSnoc(st.tokens, st.word);
        CountSnoc(st.tokens + [st.word], [ch]);
      } else {
        assert st.tokens + [] == st.tokens;
        CountSnoc(st.tokens, [ch]);
      }
    }
  }

  /**
   * The tokenizing and counting loop of the word compressor (the first pass):
   * every completed word and every separator bumps its entry.
   */
  method CountWords(text: string) returns (freq: map<string, nat>)
    ensures freq == Count(Tokenize(text))
  {
    freq := map[];
    var wordBuilder := "";
    ghost var tokens: seq<string> := [];
    var i := 0;
    while i < |text|
      invariant 0 <= i <= |text|
      invariant Scan(text[..i]) == ScanState(tokens, wordBuilder)
      invariant freq == Count(tokens)
    {
      var ch := text[i];
      ghost var next := ScanChar(ScanState(tokens, wordBuilder), ch);
      ScanPrefix(text, i);
      CountScanChar(ScanState(tokens, wordBuilder), ch);
      if IsWhitespace(ch) {
        if |wordBuilder| > 0 {
          var word := wordBuilder;
          freq := Bump(freq, word);
          wordBuilder := "";
        }
        var separator := [ch];
        freq := Bump(freq, separator);
      } else {
        wordBuilder := wordBuilder + [ch];
      }
      tokens := next.tokens;
      i := i + 1;
    }
    CountLast(text, ScanState(tokens, wordBuilder));
    if |wordBuilder| > 0 {
      var word := wordBuilder;
      freq := Bump(freq, word);
    }
  }

  /** After the last character, the pending word is counted as the last token. */
  lemma CountLast(text: string, st: ScanState)
    requires Scan(text[..|text|]) == st
    ensures Count(Tokenize(text)) == if |st.word| > 0 then Bump(Count(st.tokens), st.word) else Count(st.tokens)
  {
    assert text[..|text|] == text;
    if |st.word| > 0 {
      CountSnoc(st.tokens, st.word);
    } else {
      assert Tokenize(text) == st.tokens;
    }
  }
}
