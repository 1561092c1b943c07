/** Cell cleaners applied to supplier price lists before comparison (main.py):
    whitespace clean-up of text, and the article cleaners of the two suppliers,
    "vitya" (articles become integers) and "dimi" (articles stay strings). */
module Cleaning {
  import opened Wrappers
  import opened Text
  import opened Frames

  /** `clean_invisible_chars`: None for NaN; otherwise the words of the stripped text
      joined by single spaces, or None when there are no words. */
  function CleanInvisibleChars(c: Cell): (r: Option<string>)
    ensures r.None? <==> c.Missing? || Split(Strip(CellText(c))) == []
    ensures r.Some? ==> r.value != [] && Collapsed(r.value)
    ensures r.Some? ==> Split(r.value) == Split(Strip(CellText(c)))
  {
    if c.Missing? then None
    else
      var words := Split(Strip(CellText(c)));
      var cleaned := Join(words);
      SplitWords(Strip(CellText(c)));
      JoinCollapsed(words);
      SplitJoin(words);
      if cleaned == [] then None else Some(cleaned)
  }

  /** Cleaning text that is already clean changes nothing. */
  lemma CleanInvisibleCharsIdempotent(c: Cell)
    ensures var r := CleanInvisibleChars(c);
      r.Some? ==> CleanInvisibleChars(Str(r.value)) == r
  {
    var r := CleanInvisibleChars(c);
    if r.Some? {
      var words := Split(Strip(CellText(c)));
      assert r.value == Join(words);
      SplitWords(Strip(CellText(c)));
      CleanJoinedWords(words);
    }
  }

  lemma CleanJoinedWords(words: seq<string>)
    requires forall k :: 0 <= k < |words| ==> IsWord(words[k])
    requires words != []
    ensures CleanInvisibleChars(Str(Join(words))) == Some(Join(words))
  {
    var v := Join(words);
    JoinCollapsed(words);
    assert Strip(v) == v by { StripUnchanged(v); }
    assert Split(v) == words by { SplitJoin(words); }
    assert CellText(Str(v)) == v;
  }

  /** The stripped text of an article cell, or None for NaN, blank text and "nan" in
      any letter case. */
  function ArticleText(c: Cell): (r: Option<string>)
    ensures r.Some? ==> r.value != [] && !IsSpace(r.value[0]) && Lower(r.value) != "nan"
    ensures r.None? <==> c.Missing? || Strip(CellText(c)) == [] || Lower(Strip(CellText(c))) == "nan"
  {
    if c.Missing? then None
    else
      var s := Strip(CellText(c));
      if s == [] || Lower(s) == "nan" then None else Some(s)
  }

  /** Apostrophes removed, then one leading "000" removed. */
  function Unprefixed(s: string): (r: string)
    ensures '\'' !in r
    ensures r == RemoveChar(s, '\'') || "000" + r == RemoveChar(s, '\'')
    ensures |r| <= |s|
  {
    var t := RemoveChar(s, '\'');
    if StartsWith(t, "000") then t[3..] else t
  }

  /** The characters removed are the apostrophes and at most the three zeros of the
      prefix; every other character keeps its number of occurrences. */
  lemma UnprefixedCounts(s: string)
    ensures var r := Unprefixed(s);
      multiset(r) == multiset(s)['\'' := 0] || multiset(r) + multiset("000") == multiset(s)['\'' := 0]
  {
    RemoveCharCounts(s, '\'');
    var t := RemoveChar(s, '\'');
    if StartsWith(t, "000") {
      assert t == "000" + t[3..];
    }
  }

  /** The integer `int(d)` of a digit string, or 0 for the empty string. */
  function DigitsNumber(d: string): nat
    requires AllDigits(d)
  {
    if d == [] then 0 else DigitsValue(d)
  }

  /** `clean_article_vitya_simple`. */
  function CleanArticleVitya(c: Cell): (r: Option<nat>)
    ensures r.None? <==> ArticleText(c).None?
    ensures r.Some? ==> r.value == DigitsNumber(DigitsOf(Unprefixed(ArticleText(c).value)))
  {
    match ArticleText(c)
    case None => None
    case Some(s) =>
      var cleaned := Unprefixed(s);
      if cleaned != [] && AllDigits(cleaned) then Some(DigitsValue(cleaned))
      else if cleaned == [] then Some(0)
      else
        var runs := DigitRuns(cleaned);
        ConcatDigitRuns(cleaned);
        if runs != [] then Some(DigitsValue(Concat(runs))) else Some(0)
  }

  /** A cleaned vitya article is a fixed point of the cleaner: `str(n)` has no apostrophe,
      no "000" prefix, and reads back as `n`. */
  lemma CleanArticleVityaIdempotent(n: nat)
    ensures CleanArticleVitya(Int(n)) == Some(n)
  {
    var s := NatToString(n);
    assert ArticleText(Int(n)) == Some(s) by { NatArticleText(n); }
    assert Unprefixed(s) == s by { NatUnprefixed(n); }
    assert DigitsOf(s) == s;
    NatToStringRoundTrip(n);
  }

  lemma NatArticleText(n: nat)
    ensures ArticleText(Int(n)) == Some(NatToString(n))
  {
    var s := NatToString(n);
    assert CellText(Int(n)) == s;
    StripUnchanged(s);
    assert Lower(s)[0] != 'n';
  }

  lemma NatUnprefixed(n: nat)
    ensures Unprefixed(NatToString(n)) == NatToString(n)
  {
    var s := NatToString(n);
    assert '\'' !in s by {
      forall i | 0 <= i < |s| ensures s[i] != '\'' { assert IsDigit(s[i]); }
    }
    RemoveCharAbsent(s, '\'');
    assert !StartsWith(s, "000");
  }

  lemma {:induction false} RemoveCharAbsent(s: string, c: char)
    requires c !in s
    ensures RemoveChar(s, c) == s
  {
    if s != [] {
      RemoveCharAbsent(s[1..], c);
    }
  }

  /** The cell the vitya cleaner writes back into the article column. */
  function VityaArticleCell(c: Cell): (r: Cell)
    ensures r.Missing? || (r.Int? && r.i >= 0)
  {
    match CleanArticleVitya(c)
    case None => Missing
    case Some(n) => Int(n)
  }

  /** A cleaned vitya article as pandas stores it in the column: the cleaner's integer,
      or, when the column also holds NaN (`promote`), that integer as a float. */
  function VityaStoredCell(promote: bool): Cell -> Cell {
    if promote then VityaFloatCell else VityaArticleCell
  }

  /** A cleaned vitya article in a float64 column: NaN or a non-negative float. */
  function VityaFloatCell(c: Cell): (r: Cell)
    ensures r.Missing? || (r.Num? && r.value >= 0.0)
  {
    AsFloat(VityaArticleCell(c))
  }

  /** The nested `clean_article_dimi_simple`: None, or a non-empty string without
      apostrophes. */
  function CleanArticleDimi(c: Cell): (r: Option<string>)
    ensures r.Some? ==> r.value != [] && '\'' !in r.value
    ensures r.None? <==> ArticleText(c).None? || Unprefixed(ArticleText(c).value) == []
    ensures r.Some? ==> r.value == Unprefixed(ArticleText(c).value)
  {
    match ArticleText(c)
    case None => None
    case Some(s) =>
      var cleaned := Unprefixed(s);
      if cleaned != [] then Some(cleaned) else None
  }

  /** The cell the dimi cleaner writes back into the article column. */
  function DimiArticleCell(c: Cell): (r: Cell)
    ensures r.Missing? || (r.Str? && r.s != [] && '\'' !in r.s)
  {
    match CleanArticleDimi(c)
    case None => Missing
    case Some(s) => Str(s)
  }
}
