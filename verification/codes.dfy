/** Product codes in product names (main.py, `find_product_code_in_name`): the name is
    upper-cased and searched with three regular expressions in turn,

      1. `\b\d{6,}\b`        six or more digits standing alone,
      2. `[A-Z]{2,}\d{3,}`   two or more Latin capitals followed by three or more digits,
      3. `\d{3,}[A-Z]{1,2}`  three or more digits followed by one or two Latin capitals,

    and the first match of the first pattern that matches is the code.  A pattern is
    given here declaratively (`MatchesAt`) and by a scanner (`MatchEnd`, `FirstMatch`)
    that finds what Python's backtracking engine finds: the leftmost match, and at
    that position the one the greedy quantifiers produce, which is the longest. */
module ProductCodes {
  import opened Wrappers
  import opened Text
  import opened Frames

  datatype Pattern = SixDigits | LettersDigits | DigitsLetters

  /** The patterns in the order they are tried. */
  const PATTERNS: seq<Pattern> := [SixDigits, LettersDigits, DigitsLetters]

  /** A match occupies `s[start..end]`. */
  datatype Span = Span(start: nat, end: nat)

  ghost predicate DigitsBetween(s: string, i: int, j: int) {
    0 <= i <= j <= |s| && forall t :: i <= t < j ==> IsDigit(s[t])
  }

  ghost predicate UppersBetween(s: string, i: int, j: int) {
    0 <= i <= j <= |s| && forall t :: i <= t < j ==> IsAsciiUpper(s[t])
  }

  /** `s[i..j]` is a match of pattern `p`. */
  ghost predicate MatchesAt(p: Pattern, s: string, i: int, j: int) {
    match p
    case SixDigits =>
      && DigitsBetween(s, i, j) && j - i >= 6
      && (i == 0 || !IsWordChar(s[i - 1]))
      && (j == |s| || !IsWordChar(s[j]))
    case LettersDigits =>
      exists k :: i + 2 <= k && k + 3 <= j && UppersBetween(s, i, k) && DigitsBetween(s, k, j)
    case DigitsLetters =>
      exists k :: i + 3 <= k < j <= k + 2 && DigitsBetween(s, i, k) && UppersBetween(s, k, j)
  }

  /** The number of digits starting at `i`. */
  function DigitRun(s: string, i: nat): (n: nat)
    requires i <= |s|
    ensures DigitsBetween(s, i, i + n)
    ensures i + n < |s| ==> !IsDigit(s[i + n])
    decreases |s| - i
  {
    if i == |s| || !IsDigit(s[i]) then 0 else 1 + DigitRun(s, i + 1)
  }

  /** The number of Latin capitals starting at `i`. */
  function UpperRun(s: string, i: nat): (n: nat)
    requires i <= |s|
    ensures UppersBetween(s, i, i + n)
    ensures i + n < |s| ==> !IsAsciiUpper(s[i + n])
    decreases |s| - i
  {
    if i == |s| || !IsAsciiUpper(s[i]) then 0 else 1 + UpperRun(s, i + 1)
  }

  /** A run of a class cannot extend past the first character outside it. */
  lemma DigitsWithinRun(s: string, i: nat, j: int)
    requires i <= |s| && DigitsBetween(s, i, j)
    ensures j <= i + DigitRun(s, i)
  {
  }

  lemma UppersWithinRun(s: string, i: nat, j: int)
    requires i <= |s| && UppersBetween(s, i, j)
    ensures j <= i + UpperRun(s, i)
  {
  }

  lemma DigitRunStops(s: string, i: nat, k: nat)
    requires i <= k < |s| && !IsDigit(s[k])
    ensures i + DigitRun(s, i) <= k
  {
  }

  lemma UpperRunStops(s: string, i: nat, k: nat)
    requires i <= k < |s| && !IsAsciiUpper(s[k])
    ensures i + UpperRun(s, i) <= k
  {
  }

  /** Where the engine's match of `p` starting at `i` ends, if one starts there. */
  function MatchEnd(p: Pattern, s: string, i: nat): (r: Option<nat>)
    requires i <= |s|
    ensures r.Some? ==> i < r.value <= |s|
  {
    match p
    case SixDigits =>
      var d := DigitRun(s, i);
      if (i == 0 || !IsWordChar(s[i - 1])) && d >= 6 && (i + d == |s| || !IsWordChar(s[i + d]))
      then Some(i + d) else None
    case LettersDigits =>
      var l := UpperRun(s, i);
      var d := DigitRun(s, i + l);
      if l >= 2 && d >= 3 then Some(i + l + d) else None
    case DigitsLetters =>
      var d := DigitRun(s, i);
      var l := UpperRun(s, i + d);
      if d >= 3 && l >= 1 then Some(i + d + (if l < 2 then l else 2)) else None
  }

  /** The scanner finds a match exactly when one starts at `i`, and the longest one. */
  lemma MatchEndLongest(p: Pattern, s: string, i: nat)
    requires i <= |s|
    ensures MatchEnd(p, s, i).Some? ==> MatchesAt(p, s, i, MatchEnd(p, s, i).value)
    ensures forall j :: MatchesAt(p, s, i, j) ==> MatchEnd(p, s, i).Some? && j <= MatchEnd(p, s, i).value
  {
    match p
    case SixDigits => SixDigitsLongest(s, i);
    case LettersDigits => LettersDigitsLongest(s, i);
    case DigitsLetters => DigitsLettersLongest(s, i);
  }

  lemma SixDigitsLongest(s: string, i: nat)
    requires i <= |s|
    ensures MatchEnd(SixDigits, s, i).Some? ==> MatchesAt(SixDigits, s, i, MatchEnd(SixDigits, s, i).value)
    ensures forall j :: MatchesAt(SixDigits, s, i, j) ==> MatchEnd(SixDigits, s, i) == Some(j)
  {
    forall j | MatchesAt(SixDigits, s, i, j) ensures MatchEnd(SixDigits, s, i) == Some(j) {
      DigitsWithinRun(s, i, j);
      if j < |s| {
        DigitRunStops(s, i, j);
      }
    }
  }

  lemma LettersDigitsLongest(s: string, i: nat)
    requires i <= |s|
    ensures MatchEnd(LettersDigits, s, i).Some? ==> MatchesAt(LettersDigits, s, i, MatchEnd(LettersDigits, s, i).value)
    ensures forall j :: MatchesAt(LettersDigits, s, i, j) ==>
      MatchEnd(LettersDigits, s, i).Some? && j <= MatchEnd(LettersDigits, s, i).value
  {
    var l := UpperRun(s, i);
    var d := DigitRun(s, i + l);
    if l >= 2 && d >= 3 {
      assert UppersBetween(s, i, i + l) && DigitsBetween(s, i + l, i + l + d);
    }
    forall j | MatchesAt(LettersDigits, s, i, j)
      ensures MatchEnd(LettersDigits, s, i).Some? && j <= MatchEnd(LettersDigits, s, i).value
    {
      var k :| i + 2 <= k && k + 3 <= j && UppersBetween(s, i, k) && DigitsBetween(s, k, j);
      UppersWithinRun(s, i, k);
      assert IsDigit(s[k]);
      UpperRunStops(s, i, k);
      DigitsWithinRun(s, k, j);
    }
  }

  lemma DigitsLettersLongest(s: string, i: nat)
    requires i <= |s|
    ensures MatchEnd(DigitsLetters, s, i).Some? ==> MatchesAt(DigitsLetters, s, i, MatchEnd(DigitsLetters, s, i).value)
    ensures forall j :: MatchesAt(DigitsLetters, s, i, j) ==>
      MatchEnd(DigitsLetters, s, i).Some? && j <= MatchEnd(DigitsLetters, s, i).value
  {
    var d := DigitRun(s, i);
    var l := UpperRun(s, i + d);
    if d >= 3 && l >= 1 {
      var e := i + d + (if l < 2 then l else 2);
      assert DigitsBetween(s, i, i + d) && UppersBetween(s, i + d, e);
    }
    forall j | MatchesAt(DigitsLetters, s, i, j)
      ensures MatchEnd(DigitsLetters, s, i).Some? && j <= MatchEnd(DigitsLetters, s, i).value
    {
      var k :| i + 3 <= k < j <= k + 2 && DigitsBetween(s, i, k) && UppersBetween(s, k, j);
      DigitsWithinRun(s, i, k);
      assert IsAsciiUpper(s[k]);
      DigitRunStops(s, i, k);
      UppersWithinRun(s, k, j);
    }
  }

  /** A match lies inside the string and is never empty. */
  lemma MatchInside(p: Pattern, s: string, i: int, j: int)
    requires MatchesAt(p, s, i, j)
    ensures 0 <= i < j <= |s|
  {
  }

  /** The first element of `re.findall(p, s)` when the search starts at `from`: the
      leftmost match, and the longest match at that position. */
  function FirstMatch(p: Pattern, s: string, from: nat): (r: Option<Span>)
    requires from <= |s|
    ensures r.Some? ==> from <= r.value.start < r.value.end <= |s|
    ensures r.Some? ==> MatchesAt(p, s, r.value.start, r.value.end)
    ensures r.Some? ==> forall j :: MatchesAt(p, s, r.value.start, j) ==> j <= r.value.end
    ensures r.Some? ==> forall i, j :: from <= i < r.value.start ==> !MatchesAt(p, s, i, j)
    ensures r.None? ==> forall i, j :: from <= i ==> !MatchesAt(p, s, i, j)
    decreases |s| - from
  {
    MatchEndLongest(p, s, from);
    match MatchEnd(p, s, from)
    case Some(j) => Some(Span(from, j))
    case None =>
      if from == |s| then
        assert forall i, j :: from <= i ==> !MatchesAt(p, s, i, j) by {
          forall i, j | from <= i && MatchesAt(p, s, i, j) ensures false {
            MatchInside(p, s, i, j);
          }
        }
        None
      else FirstMatch(p, s, from + 1)
  }

  /** The code in an upper-cased name: the first match of the first pattern of `pats`
      that matches anywhere. */
  function CodeOf(s: string, pats: seq<Pattern>): (r: Option<string>)
    ensures r.None? <==> forall k :: 0 <= k < |pats| ==> FirstMatch(pats[k], s, 0).None?
    ensures r.Some? ==> exists k :: 0 <= k < |pats| && CodeFrom(s, pats, k, r.value)
  {
    if pats == [] then None
    else
      match FirstMatch(pats[0], s, 0)
      case Some(m) =>
        assert CodeFrom(s, pats, 0, s[m.start..m.end]);
        Some(s[m.start..m.end])
      case None =>
        var rest := CodeOf(s, pats[1..]);
        CodeFromShift(s, pats, rest);
        rest
  }

  lemma CodeFromShift(s: string, pats: seq<Pattern>, rest: Option<string>)
    requires pats != [] && FirstMatch(pats[0], s, 0).None?
    requires rest.Some? ==> exists k :: 0 <= k < |pats| - 1 && CodeFrom(s, pats[1..], k, rest.value)
    ensures rest.Some? ==> exists k :: 0 <= k < |pats| && CodeFrom(s, pats, k, rest.value)
  {
    if rest.Some? {
      var k :| 0 <= k < |pats| - 1 && CodeFrom(s, pats[1..], k, rest.value);
      assert CodeFrom(s, pats, k + 1, rest.value);
    }
  }

  /** `code` is the first match of `pats[k]`, and no earlier pattern matches. */
  ghost predicate CodeFrom(s: string, pats: seq<Pattern>, k: int, code: string) {
    && 0 <= k < |pats|
    && FirstMatch(pats[k], s, 0).Some?
    && code == s[FirstMatch(pats[k], s, 0).value.start..FirstMatch(pats[k], s, 0).value.end]
    && forall k' :: 0 <= k' < k ==> FirstMatch(pats[k'], s, 0).None?
  }

  /** What `find_product_code_in_name` returns for a cell: None for anything but a
      string, otherwise the code found in the upper-cased string. */
  function CodeInName(c: Cell): (r: Option<string>)
    ensures !c.Str? ==> r.None?
    ensures c.Str? ==> r == CodeOf(Upper(c.s), PATTERNS)
  {
    if c.Str? then CodeOf(Upper(c.s), PATTERNS) else None
  }

  /** A code is a non-empty piece of the upper-cased name that matches one of the
      patterns; and it is found whenever some pattern matches somewhere. */
  lemma CodeIsMatch(name: string)
    ensures var r := CodeInName(Str(name));
      && (r.Some? ==> r.value != [] && exists p, i, j ::
            && p in PATTERNS && MatchesAt(p, Upper(name), i, j)
            && 0 <= i < j <= |name| && r.value == Upper(name)[i..j])
      && (r.None? <==> forall p, i, j :: p in PATTERNS ==> !MatchesAt(p, Upper(name), i, j))
  {
    var s := Upper(name);
    var r := CodeOf(s, PATTERNS);
    if r.Some? {
      var k :| 0 <= k < |PATTERNS| && CodeFrom(s, PATTERNS, k, r.value);
      var m := FirstMatch(PATTERNS[k], s, 0).value;
      assert MatchesAt(PATTERNS[k], s, m.start, m.end);
      MatchInside(PATTERNS[k], s, m.start, m.end);
      var i, j := m.start, m.end;
      assert PATTERNS[k] in PATTERNS;
      assert MatchesAt(PATTERNS[k], s, i, j) && r.value == s[i..j];
    } else {
      forall p, i, j | p in PATTERNS ensures !MatchesAt(p, s, i, j) {
        var k :| 0 <= k < |PATTERNS| && PATTERNS[k] == p;
        assert FirstMatch(PATTERNS[k], s, 0).None?;
      }
    }
    if forall p, i, j :: p in PATTERNS ==> !MatchesAt(p, s, i, j) {
      forall k | 0 <= k < |PATTERNS| ensures FirstMatch(PATTERNS[k], s, 0).None? {
        assert PATTERNS[k] in PATTERNS;
      }
    }
  }

  /** A stand-alone number of six or more digits wins over every other pattern, and
      the leftmost such number is taken whole. */
  lemma SixDigitsFirst(name: string, i: nat, j: nat)
    requires MatchesAt(SixDigits, Upper(name), i, j)
    ensures var r := CodeInName(Str(name));
      && r.Some?
      && exists i', j' :: i' <= i && MatchesAt(SixDigits, Upper(name), i', j') && r.value == Upper(name)[i'..j']
  {
    var s := Upper(name);
    var m := FirstMatch(SixDigits, s, 0);
    assert m.Some?;
    var r := CodeOf(s, PATTERNS);
    var k :| 0 <= k < |PATTERNS| && CodeFrom(s, PATTERNS, k, r.value);
    assert k == 0;
    assert MatchesAt(SixDigits, s, m.value.start, m.value.end);
  }

  /** `find_product_code_in_name`: the patterns are tried in order and the search stops
      at the first one with a match. */
  method FindProductCodeInName(name: Cell) returns (code: Option<string>)
    ensures code == CodeInName(name)
  {
    if !name.Str? {
      return None;
    }
    var s := Upper(name.s);
    var k := 0;
    while k < |PATTERNS|
      invariant 0 <= k <= |PATTERNS|
      invariant forall k' :: 0 <= k' < k ==> FirstMatch(PATTERNS[k'], s, 0).None?
    {
      var m := FirstMatch(PATTERNS[k], s, 0);
      if m.Some? {
        code := Some(s[m.value.start..m.value.end]);
        CodeOfSkips(s, PATTERNS, k);
        return;
      }
      k := k + 1;
    }
    return None;
  }

  /** When the first `k` patterns do not match, the code is the first match of the
      next one, if it has any. */
  lemma {:induction false} CodeOfSkips(s: string, pats: seq<Pattern>, k: nat)
    requires k < |pats|
    requires forall k' :: 0 <= k' < k ==> FirstMatch(pats[k'], s, 0).None?
    requires FirstMatch(pats[k], s, 0).Some?
    ensures CodeOf(s, pats) == Some(s[FirstMatch(pats[k], s, 0).value.start..FirstMatch(pats[k], s, 0).value.end])
  {
    if k > 0 {
      assert FirstMatch(pats[0], s, 0).None?;
      assert pats[1..][k - 1] == pats[k];
      CodeOfSkips(s, pats[1..], k - 1);
    }
  }
}
