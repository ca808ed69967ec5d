/** The frequency entry shared by the summary, the CSV export and the bar chart. */
module Words {
  /** One `{word, count}` object of the frequency list, in the list's own order. */
  datatype Entry = Entry(word: string, count: int)

  /** The sort key of every ordering in script.js: the entry's `count`. */
  function CountOf(e: Entry): int { e.count }
}
