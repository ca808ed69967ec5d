/**
 * `cleanAndTokenize` on a few texts, worked out from the lemmas about each
 * step: cleaning works piece by piece, and the split cuts exactly at the
 * whitespace runs.
 */
module TokenizerExamples {
  import opened Wrappers
  import opened Tokenizer

  /** Three words joined by two gaps. */
  lemma ThreeWords(a: string, b: string, c: string, g: string, h: string)
    ensures Interleave([a, b, c], [g, h]) == a + (g + (b + (h + c)))
  {
    assert [a, b, c][1..] == [b, c] && [g, h][1..] == [h];
    assert [b, c][1..] == [c] && [h][1..] == [];
    assert Interleave([c], []) == c;
    assert Interleave([b, c], [h]) == b + (h + c);
  }

  /** Case is folded and punctuation dropped: the three spellings are one word. */
  lemma CaseAndPunctuationExample(text: string)
    requires text == "Cat, cat CAT!"
    ensures CleanAndTokenize(text, NoOptions) == ["cat", "cat", "cat"]
  {
    var words, gaps := ["cat", "cat", "cat"], [" ", " "];
    CatText(text);
    CatWords();
    TokensOfInterleaved(text, words, gaps, NoOptions);
  }

  lemma CatText(text: string)
    requires text == "Cat, cat CAT!"
    ensures Clean(text) == Interleave(["cat", "cat", "cat"], [" ", " "])
  {
    var a, g, m, h, z := text[..4], text[4..5], text[5..8], text[8..9], text[9..];
    CatSlices(text);
    CatClean(a, g, m, h, z);
    ThreeWords("cat", "cat", "cat", " ", " ");
  }

  lemma CatSlices(text: string)
    requires text == "Cat, cat CAT!"
    ensures text[..4] == "Cat," && text[4..5] == " " && text[5..8] == "cat"
    ensures text[8..9] == " " && text[9..] == "CAT!"
    ensures text == text[..4] + (text[4..5] + (text[5..8] + (text[8..9] + text[9..])))
  {
  }

  lemma CatClean(a: string, g: string, m: string, h: string, z: string)
    requires a == "Cat," && g == " " && m == "cat" && h == " " && z == "CAT!"
    ensures Clean(a + (g + (m + (h + z)))) == "cat" + (" " + ("cat" + (" " + "cat")))
  {
    CleanAppend(a, g + (m + (h + z)));
    CleanAppend(g, m + (h + z));
    CleanAppend(m, h + z);
    CleanAppend(h, z);
    CatCapitals(a, z);
    CleanOfCleanText(g);
    CleanOfCleanText(m);
  }

  /** The two capitalised pieces of "Cat, cat CAT!", cleaned on their own. */
  lemma CatCapitals(a: string, z: string)
    requires a == "Cat," && z == "CAT!"
    ensures Clean(a) == "cat" && Clean(z) == "cat"
  {
    assert Clean("Cat,") == "cat";
    assert Clean("CAT!") == "cat";
  }

  lemma CatWords()
    ensures forall k :: 0 <= k < 3 ==> IsWord(["cat", "cat", "cat"][k])
    ensures forall k :: 0 <= k < 2 ==> IsGap([" ", " "][k])
    ensures FilterTokens(["cat", "cat", "cat"], NoOptions) == ["cat", "cat", "cat"]
  {
  }

  /** With a minimum length of 4 only the four-letter word is left. */
  lemma MinLengthExample()
    ensures CleanAndTokenize("a bb ccc dddd", Options(Some(4), false)) == ["dddd"]
  {
    var words, gaps := ["a", "bb", "ccc", "dddd"], [" ", " ", " "];
    MinLengthText("a bb ccc dddd");
    MinLengthWords();
    TokensOfInterleaved("a bb ccc dddd", words, gaps, Options(Some(4), false));
  }

  lemma MinLengthText(text: string)
    requires text == "a bb ccc dddd"
    ensures Clean(text) == Interleave(["a", "bb", "ccc", "dddd"], [" ", " ", " "])
  {
    var w, g := ["a", "bb", "ccc", "dddd"], [" ", " ", " "];
    assert w[1..] == ["bb", "ccc", "dddd"] && g[1..] == [" ", " "];
    ThreeWords("bb", "ccc", "dddd", " ", " ");
    assert text == "a" + (" " + ("bb" + (" " + ("ccc" + (" " + "dddd")))));
    CleanOfCleanText(text);
  }

  lemma MinLengthWords()
    ensures forall k :: 0 <= k < 4 ==> IsWord(["a", "bb", "ccc", "dddd"][k])
    ensures forall k :: 0 <= k < 3 ==> IsGap([" ", " ", " "][k])
    ensures FilterTokens(["a", "bb", "ccc", "dddd"], Options(Some(4), false)) == ["dddd"]
  {
  }

  /** `excludeNumbers` drops the all-digit piece and keeps the one with a letter. */
  lemma ExcludeNumbersExample()
    ensures CleanAndTokenize("word 123 45a", Options(None, true)) == ["word", "45a"]
  {
    var words, gaps := ["word", "123", "45a"], [" ", " "];
    NumbersText("word 123 45a");
    NumbersWords();
    TokensOfInterleaved("word 123 45a", words, gaps, Options(None, true));
  }

  lemma NumbersText(text: string)
    requires text == "word 123 45a"
    ensures Clean(text) == Interleave(["word", "123", "45a"], [" ", " "])
  {
    ThreeWords("word", "123", "45a", " ", " ");
    assert text == "word" + (" " + ("123" + (" " + "45a")));
    CleanOfCleanText(text);
  }

  lemma NumbersWords()
    ensures forall k :: 0 <= k < 3 ==> IsWord(["word", "123", "45a"][k])
    ensures forall k :: 0 <= k < 2 ==> IsGap([" ", " "][k])
    ensures FilterTokens(["word", "123", "45a"], Options(None, true)) == ["word", "45a"]
  {
    var p, o := ["word", "123", "45a"], Options(None, true);
    assert Keep(o, "word") by {
      assert !Decimal.IsDigit("word"[0]);
    }
    assert !Keep(o, "123") by {
      assert Decimal.IsDigit("123"[0]) && Decimal.IsDigit("123"[1]) && Decimal.IsDigit("123"[2]);
    }
    NumbersFilterExample();
    assert p[1..] == ["123", "45a"] && p[1..][1..] == ["45a"] && p[1..][1..][1..] == [];
  }
}
