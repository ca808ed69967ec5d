/**
 * `cleanAndTokenize`: lower-case the text, drop every character that is
 * neither a word character nor whitespace, split on whitespace runs, then
 * filter the pieces by minimum length, by "digits only" and by emptiness.
 */
module Tokenizer {
  import opened Wrappers
  import Decimal

  /** The two options the tokenizer reads; `minWordLength` is None when absent or NaN. */
  datatype Options = Options(minWordLength: Option<int>, excludeNumbers: bool)

  /** What `cleanAndTokenize(text)` sees when it is called without options. */
  const NoOptions := Options(None, false)

  /** `\w` of a regular expression without the `u` flag: `[A-Za-z0-9_]`. */
  predicate IsWordChar(c: char) {
    'a' <= c <= 'z' || 'A' <= c <= 'Z' || '0' <= c <= '9' || c == '_'
  }

  /** `\s`: the ECMAScript WhiteSpace and LineTerminator code points. */
  predicate IsSpace(c: char) {
    var n := c as int;
    (9 <= n <= 13) || n == 0x20 || n == 0xA0 || n == 0x1680 || (0x2000 <= n <= 0x200A)
    || n == 0x2028 || n == 0x2029 || n == 0x202F || n == 0x205F || n == 0x3000 || n == 0xFEFF
  }

  predicate IsUpper(c: char) { 'A' <= c <= 'Z' }

  predicate NoSpace(w: string) { forall i :: 0 <= i < |w| ==> !IsSpace(w[i]) }

  /**
   * `toLowerCase` of one character, restricted to the characters whose lower
   * case can survive the punctuation filter: ASCII capitals, KELVIN SIGN
   * (lower case `k`) and LATIN CAPITAL LETTER I WITH DOT ABOVE (lower case
   * `i` followed by COMBINING DOT ABOVE).
   */
  function LowerChar(c: char): (r: string)
    ensures forall i :: 0 <= i < |r| ==> !IsUpper(r[i])
    ensures IsUpper(c) ==> r == [((c as int) + 32) as char]
    ensures IsWordChar(c) && !IsUpper(c) ==> r == [c]
    ensures IsSpace(c) ==> r == [c]
  {
    if IsUpper(c) then [((c as int) + 32) as char]
    else if c as int == 0x212A then "k"
    else if c as int == 0x130 then ['i', 0x307 as char]
    else [c]
  }

  /** `toLowerCase()`: no ASCII capital is left. */
  function Lower(s: string): (r: string)
    ensures forall i :: 0 <= i < |r| ==> !IsUpper(r[i])
  {
    if s == [] then [] else LowerChar(s[0]) + Lower(s[1..])
  }

  /** `replace(/[^\w\s]/g, '')`: keeps exactly the word characters and the whitespace, in order. */
  function Strip(s: string): (r: string)
    ensures forall i :: 0 <= i < |r| ==> IsWordChar(r[i]) || IsSpace(r[i])
  {
    if s == [] then []
    else if IsWordChar(s[0]) || IsSpace(s[0]) then [s[0]] + Strip(s[1..])
    else Strip(s[1..])
  }

  /**
   * A character occurs in the stripped text exactly when it occurs in the
   * text and is kept; a single character is kept exactly when it is a word
   * character or whitespace.
   */
  lemma {:induction false} StripMembers(s: string)
    ensures forall c :: c in Strip(s) <==> c in s && (IsWordChar(c) || IsSpace(c))
    ensures |s| == 1 ==> Strip(s) == (if IsWordChar(s[0]) || IsSpace(s[0]) then s else [])
  {
    if s != [] {
      StripMembers(s[1..]);
      assert s == [s[0]] + s[1..];
    }
  }

  /** The text after lower-casing and punctuation removal. */
  function Clean(text: string): string {
    Strip(Lower(text))
  }

  /**
   * `split(/\s+/)`: the pieces between maximal whitespace runs. A leading or
   * trailing run yields an empty first or last piece, and "" yields [""].
   * Read from the front: a non-space character joins the first piece of the
   * rest; a space starts a new, empty first piece unless the rest already
   * starts with a space, in which case the run just grows.
   */
  function SplitOnSpaceRuns(s: string): (parts: seq<string>)
    ensures |parts| >= 1
  {
    if s == [] then [[]]
    else
      var rest := SplitOnSpaceRuns(s[1..]);
      if !IsSpace(s[0]) then [[s[0]] + rest[0]] + rest[1..]
      else if |s| > 1 && IsSpace(s[1]) then rest
      else [[]] + rest
  }

  /** No piece contains whitespace. */
  lemma {:induction false} SplitPiecesHaveNoSpace(s: string)
    ensures forall k :: 0 <= k < |SplitOnSpaceRuns(s)| ==> NoSpace(SplitOnSpaceRuns(s)[k])
  {
    if s != [] {
      SplitPiecesHaveNoSpace(s[1..]);
    }
  }

  /** Every character of every piece is a character of the text split. */
  lemma {:induction false} SplitPiecesFromText(s: string, w: string)
    requires w in SplitOnSpaceRuns(s)
    ensures forall i :: 0 <= i < |w| ==> w[i] in s
  {
    if s != [] {
      var rest := SplitOnSpaceRuns(s[1..]);
      if !IsSpace(s[0]) && w == [s[0]] + rest[0] {
        SplitPiecesFromText(s[1..], rest[0]);
      } else if w != [] {
        assert w in rest;
        SplitPiecesFromText(s[1..], w);
      }
    }
  }

  /** `options?.minWordLength || 1`: a missing, NaN or zero value means 1. */
  function MinLength(o: Options): int {
    match o.minWordLength
    case None => 1
    case Some(k) => if k == 0 then 1 else k
  }

  /** `/^\d+$/.test(word)`. */
  predicate IsNumeric(w: string) {
    |w| > 0 && Decimal.AllDigits(w)
  }

  /** The three `filter` callbacks, in their order. */
  predicate Keep(o: Options, w: string) {
    |w| >= MinLength(o) && (o.excludeNumbers ==> !IsNumeric(w)) && |w| > 0
  }

  /** The three `filter` calls: keeps, in order, exactly the pieces that pass all of them. */
  function FilterTokens(parts: seq<string>, o: Options): (r: seq<string>)
    ensures |r| <= |parts|
  {
    if parts == [] then []
    else if Keep(o, parts[0]) then [parts[0]] + FilterTokens(parts[1..], o)
    else FilterTokens(parts[1..], o)
  }

  /** What is kept passes the filters, and a piece is kept exactly when it passes them. */
  lemma {:induction false} FilterTokensKeeps(parts: seq<string>, o: Options)
    ensures forall k :: 0 <= k < |FilterTokens(parts, o)| ==> Keep(o, FilterTokens(parts, o)[k])
    ensures forall w :: w in FilterTokens(parts, o) <==> w in parts && Keep(o, w)
  {
    if parts != [] {
      FilterTokensKeeps(parts[1..], o);
      assert parts == [parts[0]] + parts[1..];
    }
  }

  /** Filtering a list made of two parts filters each part, keeping their order. */
  lemma {:induction false} FilterTokensAppend(a: seq<string>, b: seq<string>, o: Options)
    ensures FilterTokens(a + b, o) == FilterTokens(a, o) + FilterTokens(b, o)
  {
    if a == [] {
      assert a + b == b;
    } else {
      FilterTokensAppend(a[1..], b, o);
      FilterTokensAppendStep(a, b, o);
    }
  }

  /** The step of FilterTokensAppend: the head of a is kept or dropped on both sides alike. */
  lemma FilterTokensAppendStep(a: seq<string>, b: seq<string>, o: Options)
    requires a != []
    requires FilterTokens(a[1..] + b, o) == FilterTokens(a[1..], o) + FilterTokens(b, o)
    ensures FilterTokens(a + b, o) == FilterTokens(a, o) + FilterTokens(b, o)
  {
    var x, fa, fb := a[0], FilterTokens(a[1..], o), FilterTokens(b, o);
    var ab := a + b;
    assert ab[0] == x && ab[1..] == a[1..] + b;
    if Keep(o, x) {
      assert FilterTokens(ab, o) == [x] + (fa + fb);
      assert FilterTokens(a, o) == [x] + fa;
      SeqAssociative([x], fa, fb);
    } else {
      assert FilterTokens(ab, o) == fa + fb;
    }
  }

  lemma SeqAssociative<T>(x: seq<T>, y: seq<T>, z: seq<T>)
    ensures x + (y + z) == (x + y) + z
  {
  }

  /** Every piece that passes the filters is kept as often as it occurs; every other piece is dropped. */
  lemma {:induction false} FilterTokensCounts(parts: seq<string>, o: Options, w: string)
    ensures multiset(FilterTokens(parts, o))[w] == if Keep(o, w) then multiset(parts)[w] else 0
  {
    if parts != [] {
      FilterTokensCounts(parts[1..], o, w);
      assert parts == [parts[0]] + parts[1..];
    }
  }

  /** A token as the tokenizer promises it: non-empty, long enough, lower-case word characters only. */
  predicate IsToken(o: Options, w: string) {
    && |w| >= 1
    && |w| >= MinLength(o)
    && (forall i :: 0 <= i < |w| ==> IsWordChar(w[i]) && !IsUpper(w[i]))
    && (o.excludeNumbers ==> !IsNumeric(w))
  }

  /** `cleanAndTokenize(text, options)`. */
  function CleanAndTokenize(text: string, o: Options): (tokens: seq<string>)
    ensures forall k :: 0 <= k < |tokens| ==> IsToken(o, tokens[k])
    ensures forall w :: w in tokens <==> w in SplitOnSpaceRuns(Clean(text)) && Keep(o, w)
  {
    var parts := SplitOnSpaceRuns(Clean(text));
    var tokens := FilterTokens(parts, o);
    FilterTokensKeeps(parts, o);
    assert forall k :: 0 <= k < |tokens| ==> IsToken(o, tokens[k]) by {
      forall k | 0 <= k < |tokens| ensures IsToken(o, tokens[k]) {
        PiecesAreLowerWords(text, tokens[k]);
      }
    }
    tokens
  }

  /** Every piece of the cleaned text is made of lower-case word characters. */
  lemma PiecesAreLowerWords(text: string, w: string)
    requires w in SplitOnSpaceRuns(Clean(text))
    ensures forall i :: 0 <= i < |w| ==> IsWordChar(w[i]) && !IsUpper(w[i])
  {
    var lowered := Lower(text);
    var cleaned := Strip(lowered);
    SplitPiecesFromText(cleaned, w);
    SplitPiecesHaveNoSpace(cleaned);
    StripMembers(lowered);
    forall i | 0 <= i < |w| ensures IsWordChar(w[i]) && !IsUpper(w[i]) {
      assert w[i] in cleaned;
      assert w[i] in lowered;
    }
  }

  /** The pieces written one after another. */
  function Concat(parts: seq<string>): string {
    if parts == [] then [] else parts[0] + Concat(parts[1..])
  }

  function DropSpaces(s: string): string {
    if s == [] then [] else (if IsSpace(s[0]) then [] else [s[0]]) + DropSpaces(s[1..])
  }

  function WordChars(s: string): string {
    if s == [] then [] else (if IsWordChar(s[0]) then [s[0]] else []) + WordChars(s[1..])
  }

  lemma ConcatCons(p: string, rest: seq<string>)
    ensures Concat([p] + rest) == p + Concat(rest)
  {
    assert ([p] + rest)[1..] == rest;
  }

  /** Splitting loses the whitespace and nothing else. */
  lemma {:induction false} SplitLosesOnlySpaces(s: string)
    ensures Concat(SplitOnSpaceRuns(s)) == DropSpaces(s)
  {
    if s != [] {
      var rest := SplitOnSpaceRuns(s[1..]);
      SplitLosesOnlySpaces(s[1..]);
      assert rest == [rest[0]] + rest[1..];
      ConcatCons(rest[0], rest[1..]);
      if !IsSpace(s[0]) {
        ConcatCons([s[0]] + rest[0], rest[1..]);
      } else if !(|s| > 1 && IsSpace(s[1])) {
        ConcatCons([], rest);
      }
    }
  }

  lemma {:induction false} DropSpacesAfterStrip(s: string)
    ensures DropSpaces(Strip(s)) == WordChars(s)
  {
    if s != [] {
      DropSpacesAfterStrip(s[1..]);
    }
  }

  /** When the filters reduce to "non-empty", dropping pieces changes nothing in their concatenation. */
  lemma {:induction false} FilterKeepsText(parts: seq<string>, o: Options)
    requires MinLength(o) <= 1 && !o.excludeNumbers
    ensures Concat(FilterTokens(parts, o)) == Concat(parts)
  {
    if parts != [] {
      var p, rest := parts[0], parts[1..];
      assert parts == [p] + rest;
      FilterKeepsText(rest, o);
      ConcatCons(p, rest);
      if Keep(o, p) {
        ConcatCons(p, FilterTokens(rest, o));
      } else {
        assert p == [];
      }
    }
  }

  /**
   * With no length or number filtering, the tokens written one after another
   * are exactly the word characters of the lower-cased text: only whitespace
   * and punctuation are lost, and there are no tokens exactly when the text
   * has no word character.
   */
  lemma DefaultTokensKeepEveryWordChar(text: string, o: Options)
    requires MinLength(o) <= 1 && !o.excludeNumbers
    ensures Concat(CleanAndTokenize(text, o)) == WordChars(Lower(text))
    ensures CleanAndTokenize(text, o) == [] <==> WordChars(Lower(text)) == []
  {
    var parts := SplitOnSpaceRuns(Clean(text));
    FilterKeepsText(parts, o);
    SplitLosesOnlySpaces(Clean(text));
    DropSpacesAfterStrip(Lower(text));
    var tokens := CleanAndTokenize(text, o);
    if tokens != [] {
      assert |tokens[0]| >= 1;
      ConcatCons(tokens[0], tokens[1..]);
      assert tokens == [tokens[0]] + tokens[1..];
    }
  }

  lemma {:induction false} LowerOfSpaces(s: string)
    requires forall i :: 0 <= i < |s| ==> IsSpace(s[i])
    ensures Lower(s) == s
  {
    if s != [] {
      LowerOfSpaces(s[1..]);
    }
  }

  lemma {:induction false} StripOfSpaces(s: string)
    requires forall i :: 0 <= i < |s| ==> IsSpace(s[i])
    ensures Strip(s) == s
  {
    if s != [] {
      StripOfSpaces(s[1..]);
    }
  }

  lemma {:induction false} FilterOfEmptyPieces(parts: seq<string>, o: Options)
    requires forall k :: 0 <= k < |parts| ==> parts[k] == []
    ensures FilterTokens(parts, o) == []
  {
    if parts != [] {
      FilterOfEmptyPieces(parts[1..], o);
    }
  }

  lemma {:induction false} SplitOfSpaces(s: string)
    requires forall i :: 0 <= i < |s| ==> IsSpace(s[i])
    ensures forall k :: 0 <= k < |SplitOnSpaceRuns(s)| ==> SplitOnSpaceRuns(s)[k] == []
  {
    if s != [] {
      SplitOfSpaces(s[1..]);
    }
  }

  /** Empty or whitespace-only text gives no tokens, whatever the options. */
  lemma WhitespaceOnlyGivesNoTokens(text: string, o: Options)
    requires forall i :: 0 <= i < |text| ==> IsSpace(text[i])
    ensures CleanAndTokenize(text, o) == []
  {
    LowerOfSpaces(text);
    StripOfSpaces(text);
    SplitOfSpaces(text);
    FilterOfEmptyPieces(SplitOnSpaceRuns(text), o);
  }

  /** Filtering already filtered pieces again with stricter options keeps the stricter result. */
  lemma {:induction false} FilterTwice(parts: seq<string>, o: Options)
    ensures FilterTokens(FilterTokens(parts, NoOptions), o) == FilterTokens(parts, o)
  {
    if parts != [] {
      FilterTwice(parts[1..], o);
      if Keep(NoOptions, parts[0]) {
        var rest := FilterTokens(parts[1..], NoOptions);
        assert ([parts[0]] + rest)[1..] == rest;
      }
    }
  }

  /**
   * The options only remove tokens: the tokens for any options are the
   * tokens without options, in the same order, minus those too short or
   * (with `excludeNumbers`) made of digits only.
   */
  lemma OptionsOnlyDropTokens(text: string, o: Options)
    ensures CleanAndTokenize(text, o) == FilterTokens(CleanAndTokenize(text, NoOptions), o)
  {
    FilterTwice(SplitOnSpaceRuns(Clean(text)), o);
  }

  /** `excludeNumbers` drops "45" but keeps "45a", which has a letter in it. */
  lemma NumbersFilterExample()
    ensures !Keep(Options(None, true), "45")
    ensures Keep(Options(None, true), "45a")
    ensures Keep(NoOptions, "45")
  {
    assert !Decimal.IsDigit("45a"[2]);
  }

  // ----- lower-casing and punctuation removal, character by character -----

  /** ASCII lower-casing of one character; any other character is unchanged. */
  function AsciiLowerChar(c: char): char {
    if IsUpper(c) then ((c as int) + 32) as char else c
  }

  /** ASCII lower-casing of a text, character by character. */
  function AsciiLower(s: string): (r: string)
    ensures |r| == |s|
  {
    if s == [] then [] else [AsciiLowerChar(s[0])] + AsciiLower(s[1..])
  }

  /** s holds neither of the two non-ASCII characters whose lower case is an ASCII letter. */
  predicate NoSpecialCase(s: string) {
    forall i :: 0 <= i < |s| ==> s[i] as int != 0x130 && s[i] as int != 0x212A
  }

  /** Lower-casing works character by character. */
  lemma {:induction false} LowerAppend(a: string, b: string)
    ensures Lower(a + b) == Lower(a) + Lower(b)
  {
    if a == [] {
      assert a + b == b;
    } else {
      LowerAppend(a[1..], b);
      LowerAppendStep(a, b);
    }
  }

  /** One step of LowerAppend: the first character of `a` is lowered on its own. */
  lemma LowerAppendStep(a: string, b: string)
    requires a != []
    requires Lower(a[1..] + b) == Lower(a[1..]) + Lower(b)
    ensures Lower(a + b) == Lower(a) + Lower(b)
  {
    var x, la, lb := LowerChar(a[0]), Lower(a[1..]), Lower(b);
    var ab := a + b;
    assert ab[0] == a[0] && ab[1..] == a[1..] + b;
    assert Lower(ab) == x + (la + lb);
    SeqAssociative(x, la, lb);
  }

  /** Punctuation removal works character by character: no character moves past another. */
  lemma {:induction false} StripAppend(a: string, b: string)
    ensures Strip(a + b) == Strip(a) + Strip(b)
  {
    if a == [] {
      assert a + b == b;
    } else {
      StripAppend(a[1..], b);
      StripAppendStep(a, b);
    }
  }

  /** One step of StripAppend: the first character of `a` is kept or dropped on its own. */
  lemma StripAppendStep(a: string, b: string)
    requires a != []
    requires Strip(a[1..] + b) == Strip(a[1..]) + Strip(b)
    ensures Strip(a + b) == Strip(a) + Strip(b)
  {
    var x, sa, sb := a[0], Strip(a[1..]), Strip(b);
    var ab := a + b;
    assert ab[0] == x && ab[1..] == a[1..] + b;
    if IsWordChar(x) || IsSpace(x) {
      assert Strip(ab) == [x] + (sa + sb);
      SeqAssociative([x], sa, sb);
    } else {
      assert Strip(ab) == sa + sb;
    }
  }

  /** Without the two special characters, `toLowerCase` is ASCII lower-casing. */
  lemma {:induction false} LowerIsAscii(s: string)
    requires NoSpecialCase(s)
    ensures Lower(s) == AsciiLower(s)
  {
    if s != [] {
      LowerIsAscii(s[1..]);
    }
  }

  /** Lower-casing a word character gives a word character, and nothing else gives one. */
  lemma {:induction false} WordCharsOfAsciiLower(s: string)
    ensures WordChars(AsciiLower(s)) == AsciiLower(WordChars(s))
  {
    if s != [] {
      WordCharsOfAsciiLower(s[1..]);
      var c, t := s[0], AsciiLower(s);
      assert t[0] == AsciiLowerChar(c) && t[1..] == AsciiLower(s[1..]);
      assert IsWordChar(AsciiLowerChar(c)) <==> IsWordChar(c);
      if IsWordChar(c) {
        var u := [c] + WordChars(s[1..]);
        assert u[0] == c && u[1..] == WordChars(s[1..]);
      } else {
        assert WordChars(s) == WordChars(s[1..]);
        assert WordChars(t) == WordChars(t[1..]);
      }
    }
  }

  /**
   * The word characters of the lower-cased text are those of the text,
   * each capital turned into its small letter: `C` becomes `c`, and every
   * other word character stays as it is.
   */
  lemma WordCharsLowered(s: string)
    requires NoSpecialCase(s)
    ensures WordChars(Lower(s)) == AsciiLower(WordChars(s))
  {
    LowerIsAscii(s);
    WordCharsOfAsciiLower(s);
  }

  /** Removing punctuation and ASCII lower-casing can be done in either order. */
  lemma {:induction false} StripOfAsciiLower(s: string)
    ensures Strip(AsciiLower(s)) == AsciiLower(Strip(s))
  {
    if s != [] {
      StripOfAsciiLower(s[1..]);
      var c := s[0];
      if IsWordChar(c) || IsSpace(c) {
        assert AsciiLower([c] + Strip(s[1..])) == [AsciiLowerChar(c)] + AsciiLower(Strip(s[1..]));
      }
    }
  }

  /** Without the two special characters, the cleaned text is the stripped text in ASCII lower case. */
  lemma CleanIsLoweredStrip(s: string)
    requires NoSpecialCase(s)
    ensures Clean(s) == AsciiLower(Strip(s))
  {
    LowerIsAscii(s);
    StripOfAsciiLower(s);
  }

  /** Cleaning works piece by piece. */
  lemma CleanAppend(a: string, b: string)
    ensures Clean(a + b) == Clean(a) + Clean(b)
  {
    LowerAppend(a, b);
    StripAppend(Lower(a), Lower(b));
  }

  /** Text already in lower case, without punctuation, is left as it is by cleaning. */
  lemma {:induction false} CleanOfCleanText(s: string)
    requires forall i :: 0 <= i < |s| ==> IsSpace(s[i]) || (IsWordChar(s[i]) && !IsUpper(s[i]))
    ensures Clean(s) == s
  {
    if s != [] {
      CleanOfCleanText(s[1..]);
      CleanAppend([s[0]], s[1..]);
      assert [s[0]] + s[1..] == s;
      assert Lower([s[0]]) == [s[0]];
    }
  }

  // ----- where the split cuts -----

  /** A non-empty piece with no whitespace in it. */
  predicate IsWord(w: string) { |w| > 0 && NoSpace(w) }

  /** A non-empty run of whitespace. */
  predicate IsGap(g: string) { |g| > 0 && forall i :: 0 <= i < |g| ==> IsSpace(g[i]) }

  /** words[0] + gaps[0] + words[1] + ... + words[n]: words separated by whitespace runs. */
  function Interleave(words: seq<string>, gaps: seq<string>): string
    requires |words| == |gaps| + 1
  {
    if |gaps| == 0 then words[0]
    else words[0] + gaps[0] + Interleave(words[1..], gaps[1..])
  }

  /** Text without whitespace in front of the rest joins the rest's first piece. */
  lemma {:induction false} SplitAfterWord(w: string, rest: string)
    requires NoSpace(w)
    ensures SplitOnSpaceRuns(w + rest)
         == [w + SplitOnSpaceRuns(rest)[0]] + SplitOnSpaceRuns(rest)[1..]
  {
    var r := SplitOnSpaceRuns(rest);
    if w == [] {
      assert w + rest == rest;
      assert w + r[0] == r[0];
      assert r == [r[0]] + r[1..];
    } else {
      SplitAfterWord(w[1..], rest);
      assert (w + rest)[0] == w[0] && (w + rest)[1..] == w[1..] + rest;
      assert [w[0]] + (w[1..] + r[0]) == w + r[0];
    }
  }

  /** A whitespace run in front of a non-space character starts a new piece. */
  lemma {:induction false} SplitAfterGap(g: string, rest: string)
    requires IsGap(g) && rest != [] && !IsSpace(rest[0])
    ensures SplitOnSpaceRuns(g + rest) == [[]] + SplitOnSpaceRuns(rest)
  {
    var s := g + rest;
    assert s[0] == g[0] && s[1..] == g[1..] + rest;
    if |g| == 1 {
      assert s[1..] == rest;
    } else {
      SplitAfterGap(g[1..], rest);
      assert s[1] == g[1];
    }
  }

  /**
   * `split(/\s+/)` undoes joining words with whitespace runs: it cuts at
   * every run, and only there, so "a b" gives ["a", "b"] and never ["ab"].
   */
  lemma {:induction false} SplitInterleaved(words: seq<string>, gaps: seq<string>)
    requires |words| == |gaps| + 1
    requires forall k :: 0 <= k < |words| ==> IsWord(words[k])
    requires forall k :: 0 <= k < |gaps| ==> IsGap(gaps[k])
    ensures SplitOnSpaceRuns(Interleave(words, gaps)) == words
  {
    if |gaps| == 0 {
      SplitAfterWord(words[0], []);
      assert words[0] + [] == words[0];
      assert words == [words[0]];
    } else {
      var rest := Interleave(words[1..], gaps[1..]);
      SplitInterleaved(words[1..], gaps[1..]);
      assert IsWord(words[1]);
      assert rest[0] == words[1][0];
      SplitAfterGap(gaps[0], rest);
      SplitAfterWord(words[0], gaps[0] + rest);
      assert Interleave(words, gaps) == words[0] + (gaps[0] + rest);
      assert words[0] + [] == words[0];
      assert words == [words[0]] + words[1..];
    }
  }

  /**
   * When the cleaned text is words joined by whitespace runs, the tokens are
   * those words that pass the filters, in order.
   */
  lemma TokensOfInterleaved(text: string, words: seq<string>, gaps: seq<string>, o: Options)
    requires |words| == |gaps| + 1
    requires forall k :: 0 <= k < |words| ==> IsWord(words[k])
    requires forall k :: 0 <= k < |gaps| ==> IsGap(gaps[k])
    requires Clean(text) == Interleave(words, gaps)
    ensures CleanAndTokenize(text, o) == FilterTokens(words, o)
  {
    SplitInterleaved(words, gaps);
  }
}
