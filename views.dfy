/**
 * What the page derives from the frequency list besides the summary line:
 * the entries behind the bar chart of `renderBarChart`, and the word that
 * `renderWordCloud` highlights. Both follow the count ordering, and both
 * agree with `getMostFrequentWord` on which word comes first.
 */
module Views {
  import opened Wrappers
  import opened Words
  import Ordering
  import Summary

  /** The number of bars `generateCloudFromInput` asks for. */
  const ChartBars := 10

  /**
   * The entries `renderBarChart(wordFrequencies, n)` plots: none when the
   * list is empty (the function returns before drawing), otherwise the top n
   * of a sorted copy.
   */
  function BarChartData(fs: seq<Entry>, n: int): (data: Option<seq<Entry>>)
    ensures data.None? <==> fs == []
    ensures data.Some? ==> multiset(data.value) <= multiset(fs)
  {
    if fs == [] then None
    else
      Ordering.SortDescSortedPermutation(fs, CountOf);
      Ordering.PrefixAndRest(Ordering.SortDesc(fs, CountOf), Ordering.SliceEnd(|fs|, n));
      Some(Ordering.TopN(fs, CountOf, n))
  }

  /**
   * The first entry in count order is the summary's most frequent word: the
   * earliest entry with the largest count, since the sort keeps the list
   * order among equal counts.
   */
  lemma SortedFirstIsMostFrequent(fs: seq<Entry>)
    requires fs != []
    ensures var first := Ordering.SortDesc(fs, CountOf)[0];
      var m := Summary.GetMostFrequentWord(fs).value;
      first.word == m.word && first.count == m.count
  {
    var sorted := Ordering.SortDesc(fs, CountOf);
    var m := Summary.MaxCount(fs);
    Ordering.SortDescSortedPermutation(fs, CountOf);
    assert sorted[0].count == m by {
      assert sorted[0] in multiset(fs);
      var k :| 0 <= k < |fs| && fs[k].count == m;
      assert fs[k] in multiset(sorted);
      var j :| 0 <= j < |sorted| && sorted[j] == fs[k];
      if j > 0 {
        assert CountOf(sorted[0]) >= CountOf(sorted[j]);
      }
    }
    Ordering.WithKeyOfHead(sorted, CountOf);
    Ordering.SortDescStable(fs, CountOf, m);
  }

  /**
   * The chart for the page's ten bars: at most ten entries, tallest first,
   * taken from the list, none left out taller than one shown, and the first
   * bar is the summary's most frequent word.
   */
  lemma ChartShowsTopTen(fs: seq<Entry>)
    requires fs != []
    ensures var d := BarChartData(fs, ChartBars).value;
      && |d| == (if |fs| < ChartBars then |fs| else ChartBars)
      && Ordering.SortedDesc(d, CountOf)
      && (forall y :: y in multiset(fs) - multiset(d) ==> forall i :: 0 <= i < |d| ==> y.count <= d[i].count)
      && d[0].word == Summary.GetMostFrequentWord(fs).value.word
  {
    Ordering.TopNIsLargest(fs, CountOf, ChartBars);
    SortedFirstIsMostFrequent(fs);
  }

  /** `mostFreq && mostFreq.word`: the word to highlight, or nothing. */
  function HighlightTarget(fs: seq<Entry>): (w: Option<string>)
    ensures w.Some? <==> fs != []
  {
    match Summary.GetMostFrequentWord(fs)
    case None => None
    case Some(m) => Some(m.word)
  }

  /**
   * `options.mostFrequentWord && item.word === options.mostFrequentWord`: an
   * empty target string is falsy in JavaScript, so it highlights nothing.
   */
  predicate IsHighlighted(word: string, target: Option<string>) {
    target.Some? && target.value != "" && word == target.value
  }

  /**
   * A highlighted word is the word of an entry with the largest count, and
   * the cloud's first word (in count order) is highlighted unless it is empty.
   */
  lemma HighlightIsTopWord(fs: seq<Entry>, word: string)
    ensures IsHighlighted(word, HighlightTarget(fs)) ==>
      exists k :: 0 <= k < |fs| && fs[k].word == word
        && forall j :: 0 <= j < |fs| ==> fs[j].count <= fs[k].count
    ensures fs != [] && Ordering.SortDesc(fs, CountOf)[0].word != "" ==>
      IsHighlighted(Ordering.SortDesc(fs, CountOf)[0].word, HighlightTarget(fs))
  {
    if fs != [] {
      Summary.MostFrequentIsFirstMaximum(fs);
      SortedFirstIsMostFrequent(fs);
    }
  }
}
