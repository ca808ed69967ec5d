/**
 * The frequency table export of `exportFrequenciesAsCSV`: a `Word,Count`
 * header, then one row per entry in list order, the word quoted with its
 * double quotes doubled (RFC 4180, section 2, rule 7), rows joined by "\n".
 * A parser for exactly that layout is the partner that proves nothing is
 * lost.
 */
module Csv {
  import opened Wrappers
  import opened Words
  import Decimal

  const Header := "Word,Count"

  /** `word.replace(/"/g, '""')`. */
  function Escape(w: string): (e: string)
    ensures |e| >= |w|
  {
    if w == [] then []
    else (if w[0] == '"' then "\"\"" else [w[0]]) + Escape(w[1..])
  }

  /** One data row: `"<escaped word>",<count>`. */
  function Row(e: Entry): string {
    "\"" + Escape(e.word) + "\"," + Decimal.IntToString(e.count)
  }

  /** The data rows, one per entry, in list order. */
  function Rows(fs: seq<Entry>): (rows: seq<string>)
    ensures |rows| == |fs|
  {
    seq(|fs|, k requires 0 <= k < |fs| => Row(fs[k]))
  }

  /** `rows.join('\n')`. */
  function JoinLines(rows: seq<string>): string {
    if rows == [] then "" else rows[0] + LinesAfter(rows[1..])
  }

  /** Each row preceded by its "\n" separator. */
  function LinesAfter(rows: seq<string>): string {
    if rows == [] then "" else "\n" + rows[0] + LinesAfter(rows[1..])
  }

  /** The text of the file: the header line and the data rows. */
  function Document(fs: seq<Entry>): string {
    JoinLines([Header] + Rows(fs))
  }

  /**
   * The row building of `exportFrequenciesAsCSV`: None (the "Generate a word
   * cloud first!" notice) for an empty list, otherwise the document built by
   * pushing one row per entry onto the header and joining with "\n".
   */
  method ExportFrequenciesAsCsv(fs: seq<Entry>) returns (csv: Option<string>)
    ensures csv.None? <==> fs == []
    ensures csv.Some? ==> csv.value == Document(fs)
  {
    if |fs| == 0 {
      return None;
    }
    var csvRows := [Header];
    for i := 0 to |fs|
      invariant csvRows == [Header] + Rows(fs[..i])
    {
      RowsSnoc(fs, i);
      csvRows := csvRows + [Row(fs[i])];
    }
    assert fs[..|fs|] == fs;
    return Some(JoinLines(csvRows));
  }

  lemma {:induction false} RowsSnoc(fs: seq<Entry>, i: nat)
    requires i < |fs|
    ensures Rows(fs[..i + 1]) == Rows(fs[..i]) + [Row(fs[i])]
  {
    assert fs[..i + 1] == fs[..i] + [fs[i]];
  }

  // ----- reading the document back -----

  /** Reads a quoted field's body up to its closing quote, undoing the doubling. */
  function ParseQuoted(s: string): (r: Option<(string, string)>)
    ensures r.Some? ==> |r.value.1| < |s|
  {
    if s == [] then None
    else if s[0] == '"' then
      if |s| >= 2 && s[1] == '"' then
        match ParseQuoted(s[2..])
        case None => None
        case Some((w, rest)) => Some(("\"" + w, rest))
      else Some(([], s[1..]))
    else
      match ParseQuoted(s[1..])
      case None => None
      case Some((w, rest)) => Some(([s[0]] + w, rest))
  }

  /** The length of the line that starts s. */
  function LineLength(s: string): (n: nat)
    ensures n <= |s|
    ensures forall i :: 0 <= i < n ==> s[i] != '\n'
    ensures n < |s| ==> s[n] == '\n'
  {
    if s == [] || s[0] == '\n' then 0 else 1 + LineLength(s[1..])
  }

  /** Reads the count field: the rest of the line, as an integer. */
  function ParseCount(s: string): (r: Option<(int, string)>)
    ensures r.Some? ==> |r.value.1| < |s|
  {
    var n := LineLength(s);
    match Decimal.ParseInt(s[..n])
    case None => None
    case Some(c) => Some((c, s[n..]))
  }

  /** Reads one data row and returns what follows it. */
  function ParseRow(s: string): (r: Option<(Entry, string)>)
    ensures r.Some? ==> |r.value.1| < |s|
  {
    if s == [] || s[0] != '"' then None
    else
      match ParseQuoted(s[1..])
      case None => None
      case Some((w, after)) =>
        if after == [] || after[0] != ',' then None
        else
          match ParseCount(after[1..])
          case None => None
          case Some((c, rest)) => Some((Entry(w, c), rest))
  }

  /** Reads "\n"-separated data rows to the end. */
  function ParseRowsAfter(s: string): Option<seq<Entry>>
    decreases |s|
  {
    if s == [] then Some([])
    else if s[0] != '\n' then None
    else
      match ParseRow(s[1..])
      case None => None
      case Some((e, rest)) =>
        match ParseRowsAfter(rest)
        case None => None
        case Some(es) => Some([e] + es)
  }

  /** Reads a whole document: the header, then the rows. */
  function ParseDocument(s: string): Option<seq<Entry>> {
    if |s| >= |Header| && s[..|Header|] == Header then ParseRowsAfter(s[|Header|..]) else None
  }

  lemma {:induction false} QuotedRoundTrip(w: string, t: string)
    requires t == [] || t[0] != '"'
    ensures ParseQuoted(Escape(w) + "\"" + t) == Some((w, t))
  {
    var s := Escape(w) + "\"" + t;
    if w == [] {
      assert s == "\"" + t;
      assert s[1..] == t;
    } else if w[0] == '"' {
      assert s == "\"\"" + (Escape(w[1..]) + "\"" + t);
      assert s[2..] == Escape(w[1..]) + "\"" + t;
      QuotedRoundTrip(w[1..], t);
      assert "\"" + w[1..] == w;
    } else {
      assert s == [w[0]] + (Escape(w[1..]) + "\"" + t);
      assert s[1..] == Escape(w[1..]) + "\"" + t;
      QuotedRoundTrip(w[1..], t);
      assert [w[0]] + w[1..] == w;
    }
  }

  lemma CountRoundTrip(c: int, t: string)
    requires t == [] || t[0] == '\n'
    ensures ParseCount(Decimal.IntToString(c) + t) == Some((c, t))
  {
    var digits := Decimal.IntToString(c);
    var s := digits + t;
    LineLengthOf(digits, t);
    Decimal.IntToStringRoundTrip(c);
    assert s[..|digits|] == digits;
    assert s[|digits|..] == t;
  }

  lemma {:induction false} LineLengthOf(line: string, t: string)
    requires forall i :: 0 <= i < |line| ==> line[i] != '\n'
    requires t == [] || t[0] == '\n'
    ensures LineLength(line + t) == |line|
  {
    if line == [] {
      assert line + t == t;
    } else {
      assert (line + t)[1..] == line[1..] + t;
      LineLengthOf(line[1..], t);
    }
  }

  /** Regrouping a row followed by more text, as the parser consumes it. */
  lemma RowShape(q: string, digits: string, t: string)
    ensures ("\"" + q + "\"," + digits) + t == "\"" + (q + "\"" + ("," + digits + t))
    ensures ("\"" + (q + "\"" + ("," + digits + t)))[1..] == q + "\"" + ("," + digits + t)
  {
  }

  /** A row reads back as its entry, whatever word it holds. */
  lemma RowRoundTrip(e: Entry, t: string)
    requires t == [] || t[0] == '\n'
    ensures ParseRow(Row(e) + t) == Some((e, t))
  {
    var digits := Decimal.IntToString(e.count);
    var afterQuote := "," + digits + t;
    RowShape(Escape(e.word), digits, t);
    QuotedRoundTrip(e.word, afterQuote);
    assert afterQuote[1..] == digits + t;
    CountRoundTrip(e.count, t);
  }

  /** The rows after the header: a "\n", the first row, then the others. */
  lemma LinesAfterRows(fs: seq<Entry>)
    requires fs != []
    ensures LinesAfter(Rows(fs)) == "\n" + (Row(fs[0]) + LinesAfter(Rows(fs[1..])))
  {
    assert Rows(fs)[1..] == Rows(fs[1..]);
  }

  /** Text made of separated lines is empty or starts with a line break. */
  lemma LinesAfterStartsWithBreak(rows: seq<string>)
    ensures LinesAfter(rows) == [] || LinesAfter(rows)[0] == '\n'
  {
  }

  /** Reading a separator and a row, then the rows after it. */
  lemma ParseRowsAfterCons(e: Entry, row: string, rest: string, es: seq<Entry>)
    requires ParseRow(row + rest) == Some((e, rest))
    requires ParseRowsAfter(rest) == Some(es)
    ensures ParseRowsAfter("\n" + (row + rest)) == Some([e] + es)
  {
    assert ("\n" + (row + rest))[1..] == row + rest;
  }

  /** The rows after the header read back as the entries, in order. */
  lemma {:induction false} RowsRoundTrip(fs: seq<Entry>)
    ensures ParseRowsAfter(LinesAfter(Rows(fs))) == Some(fs)
  {
    if fs != [] {
      var rest := LinesAfter(Rows(fs[1..]));
      LinesAfterRows(fs);
      RowsRoundTrip(fs[1..]);
      LinesAfterStartsWithBreak(Rows(fs[1..]));
      RowRoundTrip(fs[0], rest);
      ParseRowsAfterCons(fs[0], Row(fs[0]), rest, fs[1..]);
      assert [fs[0]] + fs[1..] == fs;
    }
  }

  /** Reading the document back gives the entries, in order. */
  lemma DocumentRoundTrip(fs: seq<Entry>)
    ensures ParseDocument(Document(fs)) == Some(fs)
  {
    var doc := Document(fs);
    assert ([Header] + Rows(fs))[1..] == Rows(fs);
    assert doc == Header + LinesAfter(Rows(fs));
    assert doc[..|Header|] == Header;
    assert doc[|Header|..] == LinesAfter(Rows(fs));
    RowsRoundTrip(fs);
  }

  // ----- the lines of the document -----

  /** `split('\n')`. */
  function SplitLines(s: string): (lines: seq<string>)
    ensures |lines| >= 1
    decreases |s|
  {
    var n := LineLength(s);
    if n == |s| then [s] else [s[..n]] + SplitLines(s[n + 1..])
  }

  /** No character of s is a line break. */
  predicate NoLineBreak(s: string) {
    forall i :: 0 <= i < |s| ==> s[i] != '\n'
  }

  /** A line without a break, then "\n", splits into that line and what follows. */
  lemma SplitFirstLine(line: string, rest: string)
    requires NoLineBreak(line)
    ensures SplitLines(line + "\n" + rest) == [line] + SplitLines(rest)
  {
    var s := line + "\n" + rest;
    assert s == line + ("\n" + rest);
    LineLengthOf(line, "\n" + rest);
    assert s[..|line|] == line;
    assert s[|line| + 1..] == rest;
  }

  /** A text without a line break is one line. */
  lemma SplitSingleLine(line: string)
    requires NoLineBreak(line)
    ensures SplitLines(line) == [line]
  {
    LineLengthOf(line, []);
    assert line + [] == line;
  }

  /** Joining a list of two or more lines puts "\n" after the first. */
  lemma JoinCons(rows: seq<string>)
    requires |rows| >= 2
    ensures JoinLines(rows) == rows[0] + "\n" + JoinLines(rows[1..])
  {
    assert rows[1..][1..] == rows[2..];
  }

  /** Splitting the join of a line and a list undoes the join of that list too. */
  lemma SplitJoinedStep(rows: seq<string>)
    requires |rows| >= 2 && NoLineBreak(rows[0])
    requires SplitLines(JoinLines(rows[1..])) == rows[1..]
    ensures SplitLines(JoinLines(rows)) == rows
  {
    JoinCons(rows);
    SplitFirstLine(rows[0], JoinLines(rows[1..]));
    assert rows == [rows[0]] + rows[1..];
  }

  /** Splitting the join of one line gives that line. */
  lemma SplitJoinedSingle(rows: seq<string>)
    requires |rows| == 1 && NoLineBreak(rows[0])
    ensures SplitLines(JoinLines(rows)) == rows
  {
    assert JoinLines(rows) == rows[0] + [];
    assert rows[0] + [] == rows[0];
    SplitSingleLine(rows[0]);
  }

  /** `split('\n')` undoes `join('\n')` on lines that hold no line break. */
  lemma {:induction false} SplitJoinedLines(rows: seq<string>)
    requires |rows| >= 1
    requires forall k :: 0 <= k < |rows| ==> NoLineBreak(rows[k])
    ensures SplitLines(JoinLines(rows)) == rows
  {
    if |rows| == 1 {
      SplitJoinedSingle(rows);
    } else {
      SplitJoinedLines(rows[1..]);
      SplitJoinedStep(rows);
    }
  }

  /**
   * When no word holds a line break, the document's lines are the header and
   * then exactly one row per entry, in list order.
   */
  lemma DocumentLines(fs: seq<Entry>)
    requires forall k :: 0 <= k < |fs| ==> NoLineBreak(fs[k].word)
    ensures SplitLines(Document(fs)) == [Header] + Rows(fs)
    ensures |SplitLines(Document(fs))| == |fs| + 1
  {
    var rows := [Header] + Rows(fs);
    forall k | 0 <= k < |rows| ensures NoLineBreak(rows[k]) {
      if k > 0 {
        RowHasNoLineBreak(fs[k - 1]);
      }
    }
    SplitJoinedLines(rows);
  }

  lemma RowHasNoLineBreak(e: Entry)
    requires NoLineBreak(e.word)
    ensures NoLineBreak(Row(e))
  {
    EscapeKeepsLineBreaks(e.word);
  }

  lemma {:induction false} EscapeKeepsLineBreaks(w: string)
    requires NoLineBreak(w)
    ensures NoLineBreak(Escape(w))
  {
    if w != [] {
      EscapeKeepsLineBreaks(w[1..]);
    }
  }

  lemma EscapeExample()
    ensures Escape("a\"b") == "a\"\"b"
  {
    assert Escape("b") == "b";
    assert Escape("\"b") == "\"\"" + Escape("b");
    assert Escape("a\"b") == "a" + Escape("\"b");
  }

  lemma RowExample()
    ensures Row(Entry("a\"b", 1)) == "\"a\"\"b\",1"
  {
    EscapeExample();
    assert Decimal.IntToString(1) == [Decimal.DigitChar(1)];
  }

  /** A word with an embedded quote: the quote is doubled inside the quoted field. */
  lemma QuoteExample()
    ensures Document([Entry("a\"b", 1)]) == "Word,Count\n\"a\"\"b\",1"
  {
    var row := "\"a\"\"b\",1";
    RowExample();
    assert Rows([Entry("a\"b", 1)]) == [row];
    JoinCons([Header, row]);
    assert [Header, row][1..] == [row];
    assert JoinLines([row]) == row + [];
    assert [Header] + [row] == [Header, row];
  }
}
