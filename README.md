# Word cloud text analysis, modelled in Dafny

This project models the text-analysis core of the word cloud generator's
`script.js`: the tokenizer `cleanAndTokenize`, the "most frequent word"
summary `getMostFrequentWord` and the text the page shows for it, the CSV
rows of `exportFrequenciesAsCSV`, and the count ordering used for the bar
chart's top ten and for the cloud's word list. Everything the browser does
around these (the DOM, alerts, downloads, Chart.js, random colours) is left
to the caller.

Files and modules:

- `wrappers.dfy` (`Wrappers`): `Option`, standing for a value that may be `null`.
- `words.dfy` (`Words`): a frequency entry `{word, count}` and its count as a sort key.
- `decimal.dfy` (`Decimal`): the text of an integer, as a template literal writes it, with a reader as its partner.
- `tokenizer.dfy` (`Tokenizer`): `cleanAndTokenize` step by step: `toLowerCase`, `replace(/[^\w\s]/g, '')`, `split(/\s+/)` and the three filters.
- `tokenizer_examples.dfy` (`TokenizerExamples`): the tokenizer on a few texts, worked out from the lemmas about each step.
- `summary.dfy` (`Summary`): `getMostFrequentWord`, the summary markup and the hover title with their `time`/`times` wording.
- `csv.dfy` (`Csv`): the CSV document, built by a loop as in the source, with a parser that reads it back.
- `ordering.dfy` (`Ordering`): the stable descending sort by count, `slice(0, N)`, and the in-place sort of an array.
- `views.dfy` (`Views`): the bar chart's entries and the highlighted word, and how both agree with the summary.

The sort is specified by one function, `Ordering.SortDesc` (insertion into
the sorted rest). `Ordering.StableSortIsUnique` shows that any result that is
sorted by decreasing count and keeps equal counts in list order is that
function's result. So the model does not depend on which algorithm a
JavaScript engine uses, as long as its sort is stable, as ECMAScript 2019
requires.

## Model

| member | source | states |
|---|---|---|
| Tokenizer.CleanAndTokenize | script.js:52-60 | every token is non-empty, at least the minimum length (1 when the option is missing, NaN or zero), made of lower-case `[a-z0-9_]` only, not all digits when `excludeNumbers` is on; a word is a token exactly when it is a whitespace-separated piece of the cleaned text that passes the three filters |
| Tokenizer.LowerChar | script.js:54 | `toLowerCase` of one character: an ASCII capital becomes its small letter, every other word character and every whitespace character stays as it is, and no ASCII capital is produced |
| Tokenizer.LowerAppend | script.js:54 | lower-casing works character by character: the lower case of a concatenation is the concatenation of the lower cases |
| Tokenizer.WordCharsLowered | script.js:54 | for text without U+0130 and U+212A, the word characters of the lower-cased text are the word characters of the text, in order, each ASCII capital turned into its small letter |
| Tokenizer.CleanIsLoweredStrip | script.js:54-55 | for text without U+0130 and U+212A, the cleaned text is the text with punctuation removed, in ASCII lower case |
| Tokenizer.StripMembers | script.js:55 | only word characters and whitespace remain: a character occurs in the result exactly when it occurs in the input and is one of those, and a single character is kept exactly when it is one of those |
| Tokenizer.StripAppend | script.js:55 | punctuation removal works character by character: removing it from a concatenation gives the concatenation of the results, so kept characters keep their order and their number |
| Tokenizer.SplitLosesOnlySpaces | script.js:56 | the pieces of `split(/\s+/)`, written one after another, are the text without its whitespace |
| Tokenizer.SplitInterleaved | script.js:56 | `split(/\s+/)` of non-empty, whitespace-free words joined by any non-empty whitespace runs gives back exactly those words: the text is cut at every run and nowhere else |
| Tokenizer.FilterTokensKeeps | script.js:57-59 | every kept piece passes the length, number and emptiness filters, and a piece is kept exactly when it passes them |
| Tokenizer.FilterTokensCounts | script.js:57-59 | a piece that passes the filters is kept as many times as it occurs; any other piece is dropped every time |
| Tokenizer.FilterTokensAppend | script.js:57-59 | filtering works piece by piece: the tokens of two lists of pieces, one after the other, are the tokens of the first followed by the tokens of the second, so the kept pieces keep their order |
| Tokenizer.TokensOfInterleaved | script.js:52-59 | when the cleaned text is words joined by whitespace runs, the tokens are the words that pass the filters, in order |
| TokenizerExamples.CaseAndPunctuationExample | script.js:52-59 | "Cat, cat CAT!" without options gives ["cat", "cat", "cat"] |
| TokenizerExamples.MinLengthExample | script.js:57 | "a bb ccc dddd" with a minimum length of 4 gives ["dddd"] |
| TokenizerExamples.ExcludeNumbersExample | script.js:58 | "word 123 45a" with `excludeNumbers` gives ["word", "45a"] |
| Tokenizer.DefaultTokensKeepEveryWordChar | script.js:53-59 | with no length or number filtering, the tokens together are exactly the word characters of the lower-cased text, so punctuation and whitespace are all that is lost; there are no tokens exactly when the text has no word character |
| Tokenizer.WhitespaceOnlyGivesNoTokens | script.js:52-60 | empty or whitespace-only text gives the empty list, whatever the options |
| Tokenizer.OptionsOnlyDropTokens | script.js:57-58 | the tokens for any options are the tokens without options, in the same order, minus the ones the options reject |
| Tokenizer.NumbersFilterExample | script.js:58 | `excludeNumbers` drops "45" but keeps "45a"; without it "45" is kept |
| Summary.MaxCount | script.js:20 | the largest count: no entry counts more and some entry reaches it |
| Summary.GetMostFrequentWord | script.js:18-24 | null exactly for an empty list |
| Summary.MostFrequentIsFirstMaximum | script.js:18-24 | the result is the earliest entry with the largest count (ties go to the first seen), and `isTie` holds exactly when two entries have that count |
| Summary.TieGoesToFirstSeen | script.js:21-23 | `[a:2, b:2, c:1]` gives `a` with count 2, marked as a tie |
| Summary.PluralExactlyAboveOne | script.js:132 | the count phrase ends in "times" exactly when the count is above one, and in " time" otherwise |
| Summary.SummaryOutput | script.js:129-135 | the summary area is empty exactly when the frequency list is empty |
| Summary.SummaryMarksTieExactly | script.js:132 | the summary markup carries " (tie)" exactly when the result is a tie |
| Summary.HoverTitle | script.js:172-174 | a title is set exactly when `showFrequencyOnHover` is on, and it ends with the count phrase |
| Decimal.IntToStringRoundTrip | script.js:70 | the text written for an integer count reads back as that count |
| Csv.ExportFrequenciesAsCsv | script.js:63-72 | no document (the "Generate a word cloud first!" path) exactly for an empty list; otherwise the header line, then one row per entry in list order, joined by "\n" |
| Csv.QuotedRoundTrip | script.js:70 | a word with its quotes doubled, then a closing quote, reads back as the word, whatever quotes it holds |
| Csv.RowRoundTrip | script.js:70 | one row reads back as its entry |
| Csv.DocumentRoundTrip | script.js:68-71 | reading the document back gives the entries, in order: nothing is lost or reordered |
| Csv.DocumentLines | script.js:68-71 | when no word holds a line break, `split('\n')` of the document gives the header and then exactly one row per entry |
| Csv.QuoteExample | script.js:70 | the entry `a"b` with count 1 gives `Word,Count` then `"a""b",1` |
| Ordering.SortDescSortedPermutation | script.js:90 | the sort result has counts never increasing and holds exactly the input's elements |
| Ordering.SortDescStable | script.js:90 | elements with equal counts keep their input order |
| Ordering.StableSortIsUnique | script.js:90 | any sorted result that keeps equal counts in input order is the model's result |
| Ordering.TopNIsLargest | script.js:90 | `slice(0, n)` of the sorted copy keeps min(n, length) elements (for a negative n, all but the last -n, or none), sorted, taken from the input, and no element left out has a larger count than one kept |
| Ordering.SortDescInPlace | script.js:152 | the array, sorted in place, holds the sort of its old contents |
| Views.BarChartData | script.js:88-90 | no chart data exactly for an empty list; otherwise entries taken from the list |
| Views.ChartShowsTopTen | script.js:138 | the chart asked for by the page has min(10, length) bars, tallest first, no omitted entry taller than a shown one, and the first bar is the summary's word |
| Views.SortedFirstIsMostFrequent | script.js:152 | the first word of the count order is the word `getMostFrequentWord` picks, with its count |
| Views.HighlightTarget | script.js:141 | there is a word to highlight exactly when the list is non-empty |
| Views.HighlightIsTopWord | script.js:167-171 | a highlighted word belongs to an entry with the largest count, and the first word of the sorted cloud is highlighted unless it is empty |

## Left out

- The DOM, `alert`, the summary and chart containers, `Blob`, object URLs and the download link: the model returns the values the page would show or save (`Option.None` for the notices).
- Chart.js rendering (labels, colours, options of the bar chart): only the entries it is given are modelled.
- `getRandomColor` and the random rotation: they depend on `Math.random`.
- `calculateWordFrequencies`, `normalizeFrequencies` and the font sizes: they are not part of this model. The frequency list is taken as given, with integer counts.
- `getOptions` and the font-size correction: the tokenizer gets `minWordLength` (None for a missing or NaN value) and `excludeNumbers` directly.
- Views.HighlightIsTopWord: the cloud sorts the list returned by `normalizeFrequencies`; the model takes it to hold the frequency list's entries in the same order.
- `generateCloudFromInput`'s `trim` and its empty-text notice: only the steps after it are modelled.
- Tokenizer.LowerChar: only the ASCII capitals, KELVIN SIGN and LATIN CAPITAL LETTER I WITH DOT ABOVE are lowered. No other character's lower case consists of ASCII word characters, so the punctuation filter removes any other letter either way. Strings are sequences of code points, not UTF-16 units.
- Summary.MaxCount: `Math.max(...counts)` fails on lists too long for a spread call; the model has no length limit.
- Ordering.SortDescInPlace: its `ensures` speaks of the array's values; aliasing of the list's objects is not modelled.
- Views.ChartShowsTopTen: `renderBarChart` returns early when the container is missing; the model assumes it is present.
