/**
 * The "most frequent word" summary: `getMostFrequentWord` and the text the
 * page shows for it, with the `time`/`times` wording shared by the summary
 * line and the hover title of each word.
 */
module Summary {
  import opened Wrappers
  import opened Words
  import Decimal
  import Ordering

  /** `{...entry, isTie}`: the chosen entry and whether another entry shares its count. */
  datatype MostFrequent = MostFrequent(word: string, count: int, isTie: bool)

  /** `Math.max(...counts)` of a non-empty list: an upper bound that some entry reaches. */
  function MaxCount(fs: seq<Entry>): (m: int)
    requires |fs| > 0
    ensures forall k :: 0 <= k < |fs| ==> fs[k].count <= m
    ensures exists k :: 0 <= k < |fs| && fs[k].count == m
  {
    if |fs| == 1 then fs[0].count
    else
      var rest := MaxCount(fs[1..]);
      assert forall k :: 1 <= k < |fs| ==> fs[k] == fs[1..][k - 1];
      if fs[0].count > rest then fs[0].count else rest
  }

  /** `filter(w => w.count === c)`: the entries with count c, in list order. */
  function WithCount(fs: seq<Entry>, c: int): seq<Entry> {
    Ordering.WithKey(fs, CountOf, c)
  }

  /** `getMostFrequentWord(wordFrequencies)`: null exactly for an empty list. */
  function GetMostFrequentWord(fs: seq<Entry>): (r: Option<MostFrequent>)
    ensures r.None? <==> |fs| == 0
  {
    if |fs| == 0 then None
    else
      var m := MaxCount(fs);
      var top := WithCount(fs, m);
      assert |top| > 0 by {
        var k :| 0 <= k < |fs| && fs[k].count == m;
        assert fs[k] in fs;
        Ordering.WithKeyMembers(fs, CountOf, m, fs[k]);
      }
      Some(MostFrequent(top[0].word, top[0].count, |top| > 1))
  }

  /** fs[i] is the first entry whose count is c. */
  predicate FirstWithCount(fs: seq<Entry>, c: int, i: int) {
    0 <= i < |fs| && fs[i].count == c && forall j :: 0 <= j < i ==> fs[j].count != c
  }

  /** The entries with count c are the first one, then those after it. */
  lemma {:induction false} WithCountFromFirst(fs: seq<Entry>, c: int, i: int)
    requires FirstWithCount(fs, c, i)
    ensures WithCount(fs, c) == [fs[i]] + WithCount(fs[i + 1..], c)
  {
    if i > 0 {
      WithCountFromFirst(fs[1..], c, i - 1);
      assert fs[1..][i..] == fs[i + 1..];
    }
  }

  /** A list has an entry with count c exactly when filtering by c leaves something. */
  lemma WithCountEmpty(fs: seq<Entry>, c: int)
    ensures WithCount(fs, c) == [] <==> forall k :: 0 <= k < |fs| ==> fs[k].count != c
  {
    if WithCount(fs, c) != [] {
      var e := WithCount(fs, c)[0];
      Ordering.WithKeyMembers(fs, CountOf, c, e);
    } else {
      forall k | 0 <= k < |fs| ensures fs[k].count != c {
        assert fs[k] in fs;
        Ordering.WithKeyMembers(fs, CountOf, c, fs[k]);
      }
    }
  }

  /** Some index is the first one with a count that occurs in the list. */
  lemma {:induction false} FirstWithCountExists(fs: seq<Entry>, c: int, k: int) returns (i: int)
    requires 0 <= k < |fs| && fs[k].count == c
    ensures FirstWithCount(fs, c, i) && i <= k
  {
    if fs[0].count == c {
      i := 0;
    } else {
      var i' := FirstWithCountExists(fs[1..], c, k - 1);
      i := i' + 1;
    }
  }

  /**
   * For a non-empty list the result is the EARLIEST entry with the largest
   * count: no entry counts more, every entry before it counts less (ties go
   * to the first seen, not to the alphabetically smallest word), and `isTie`
   * holds exactly when a second entry reaches the same count.
   */
  lemma MostFrequentIsFirstMaximum(fs: seq<Entry>)
    requires |fs| > 0
    ensures var r := GetMostFrequentWord(fs).value;
      && (forall k :: 0 <= k < |fs| ==> fs[k].count <= r.count)
      && (exists i :: FirstWithCount(fs, r.count, i) && fs[i].word == r.word)
      && (r.isTie <==> exists j, k :: 0 <= j < k < |fs| && fs[j].count == r.count && fs[k].count == r.count)
  {
    var r := GetMostFrequentWord(fs).value;
    var m := MaxCount(fs);
    var k0 :| 0 <= k0 < |fs| && fs[k0].count == m;
    var i := FirstWithCountExists(fs, m, k0);
    WithCountFromFirst(fs, m, i);
    var after := WithCount(fs[i + 1..], m);
    assert r == MostFrequent(fs[i].word, m, |after| > 0);
    WithCountEmpty(fs[i + 1..], m);
    if r.isTie {
      var e := after[0];
      Ordering.WithKeyMembers(fs[i + 1..], CountOf, m, e);
      var k :| 0 <= k < |fs[i + 1..]| && fs[i + 1..][k] == e;
      assert fs[i + k + 1].count == m;
    }
    if exists j, k :: 0 <= j < k < |fs| && fs[j].count == m && fs[k].count == m {
      var j, k :| 0 <= j < k < |fs| && fs[j].count == m && fs[k].count == m;
      assert fs[i + 1..][k - i - 1].count == m;
    }
  }

  /** The example of a tie: [a:2, b:2, c:1] gives a, flagged as a tie. */
  lemma TieGoesToFirstSeen()
    ensures GetMostFrequentWord([Entry("a", 2), Entry("b", 2), Entry("c", 1)])
         == Some(MostFrequent("a", 2, true))
  {
    var fs := [Entry("a", 2), Entry("b", 2), Entry("c", 1)];
    MostFrequentIsFirstMaximum(fs);
    var r := GetMostFrequentWord(fs).value;
    assert r.count == 2 by {
      assert fs[0].count <= r.count;
    }
    var i :| FirstWithCount(fs, r.count, i) && fs[i].word == r.word;
    assert i == 0;
    assert fs[0].count == r.count && fs[1].count == r.count;
  }

  /** `time${count>1?"s":""}` after the count, as both texts write it. */
  function CountPhrase(count: int): string {
    Decimal.IntToString(count) + " time" + (if count > 1 then "s" else "")
  }

  predicate EndsWith(s: string, suffix: string) {
    |suffix| <= |s| && s[|s| - |suffix|..] == suffix
  }

  /** The phrase says "times" exactly for counts above one. */
  lemma PluralExactlyAboveOne(count: int)
    ensures EndsWith(CountPhrase(count), "times") <==> count > 1
    ensures EndsWith(CountPhrase(count), " time") <==> count <= 1
  {
    var p := CountPhrase(count);
    var digits := Decimal.IntToString(count);
    if count > 1 {
      assert p[|p| - 5..] == "times";
      assert p[|p| - 5..][0] != ' ';
    } else {
      assert p == digits + " time";
      assert p[|p| - 5..] == " time";
      assert p[|p| - 5..][0] != 't';
    }
  }

  const SummaryLabel := "<strong>Most frequent word:</strong> "
  const TieMark := " (tie)"
  const ChartSlot := "<div id=\"barChartContainer\" style=\"margin-top:10px\"></div>"

  /** The summary markup for a chosen entry. */
  function SummaryHtml(m: MostFrequent): string {
    SummaryLabel + "\"" + m.word + "\" (" + CountPhrase(m.count) + ")"
      + (if m.isTie then TieMark else "") + ChartSlot
  }

  /** The summary area's content: the markup, or nothing when the list is empty. */
  function SummaryOutput(fs: seq<Entry>): (html: string)
    ensures html == "" <==> fs == []
  {
    match GetMostFrequentWord(fs)
    case None => ""
    case Some(m) => SummaryHtml(m)
  }

  /** Whatever precedes it, the count clause never ends the way the tie mark does. */
  lemma CountClauseIsNotTieMark(pre: string, count: int)
    ensures var head := pre + CountPhrase(count) + ")";
      |head| >= |TieMark| && head[|head| - |TieMark|..] != TieMark
  {
    var q := pre + Decimal.IntToString(count);
    var head := pre + CountPhrase(count) + ")";
    if count > 1 {
      assert CountPhrase(count) == Decimal.IntToString(count) + " times";
      assert head == q + " times" + ")";
      assert head[|head| - 6..] == "times)";
    } else {
      assert CountPhrase(count) == Decimal.IntToString(count) + " time";
      assert head == q + " time" + ")";
      assert head[|head| - 5..] == " time)"[1..];
      assert head[|head| - 6..][1] == 't';
    }
  }

  /** A common tail does not change whether one text ends with another. */
  lemma EndsWithCommonTail(a: string, b: string, c: string)
    ensures EndsWith(a + c, b + c) <==> EndsWith(a, b)
  {
    var ac, bc := a + c, b + c;
    if |b| <= |a| {
      assert ac[|ac| - |bc|..] == a[|a| - |b|..] + c;
      if EndsWith(ac, bc) {
        assert ac[|ac| - |bc|..][..|b|] == a[|a| - |b|..];
        assert bc[..|b|] == b;
      }
    }
  }

  /** The summary says "(tie)" exactly when the result is a tie. */
  lemma SummaryMarksTieExactly(m: MostFrequent)
    ensures EndsWith(SummaryHtml(m), TieMark + ChartSlot) <==> m.isTie
  {
    var pre := SummaryLabel + "\"" + m.word + "\" (";
    var head := pre + CountPhrase(m.count) + ")";
    var marked := head + (if m.isTie then TieMark else "");
    assert SummaryHtml(m) == marked + ChartSlot;
    EndsWithCommonTail(marked, TieMark, ChartSlot);
    if m.isTie {
      assert marked[|marked| - |TieMark|..] == TieMark;
    } else {
      assert marked == head;
      CountClauseIsNotTieMark(pre, m.count);
    }
  }

  /** `"<word>" — <count> time(s)`: the hover title, set only when the option is on. */
  function HoverTitle(word: string, count: int, showFrequencyOnHover: bool): (title: Option<string>)
    ensures title.Some? <==> showFrequencyOnHover
    ensures title.Some? ==> EndsWith(title.value, CountPhrase(count))
  {
    if showFrequencyOnHover then
      var t := "\"" + word + "\" \U{2014} " + CountPhrase(count);
      assert t[|t| - |CountPhrase(count)|..] == CountPhrase(count);
      Some(t)
    else None
  }
}
