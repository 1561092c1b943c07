/** Comparing a supplier price list with the base (main.py, `perform_comparison`).
    Both tables are indexed by article; a supplier article found in the base is a
    match (with its price difference and percentage change), one not found is a new
    item, and when fewer than 30% of the supplier articles match, the product-code
    matching runs on the original tables as well. */
module Comparison {
  import opened Wrappers
  import opened Text
  import opened Frames
  import opened OrderedDict
  import opened CodeMatching

  /** The article and price columns used for each supplier configuration. */
  datatype Columns = Columns(supplierArticle: string, baseArticle: string, supplierPrice: string, basePrice: string)

  function ColumnsFor(config: string): Columns {
    if config == "vitya" then Columns("article_vitya", "article_vitya", "price_usd", "price_vitya_usd")
    else if config == "dimi" then Columns("article_dimi", "article_dimi", "price_usd", "price_dimi_usd")
    else Columns("article", "article", "price", "price")
  }

  /** What the article index keeps for an article: the price cell (0 for NaN), the
      `name` cell ("" when there is no name column) and the row's index label. */
  datatype Entry = Entry(price: Cell, name: Cell, index: int)

  datatype Match = Match(article: string, supplierPrice: real, basePrice: real, name: Cell, priceDiff: real, percent: real)

  datatype NewItem = NewItem(article: string, price: Cell, name: Cell)

  datatype Report = Report(
    supplierTotal: nat,
    baseTotal: nat,
    matches: seq<Match>,
    priceChanges: seq<Match>,
    newItems: seq<NewItem>,
    codeMatches: seq<CodeMatch>,
    matchRate: real)

  datatype Side = SupplierFile | BaseFile

  /** The outcome: a report, the error dictionary for a missing article column, or an
      exception the comparison lets escape (`KeyError` for a missing price column,
      `TypeError` for a text price in a match). */
  datatype Comparison =
    | Compared(report: Report)
    | ArticleColumnMissing(side: Side, column: string)
    | KeyErrorRaised(column: string)
    | PriceTypeError

  /** The cell in column `col`, missing when there is no such column. */
  predicate Present(f: Frame, r: Row, col: string) {
    !GetOr(f, r, col, Missing).Missing?
  }

  /** `supplier_df.dropna(subset=[article, price])`. */
  function SupplierClean(f: Frame, cols: Columns): seq<Row> {
    Filter(f.rows, r => Present(f, r, cols.supplierArticle) && Present(f, r, cols.supplierPrice))
  }

  /** `base_df.dropna(subset=[article])`. */
  function BaseClean(f: Frame, cols: Columns): seq<Row> {
    Filter(f.rows, r => Present(f, r, cols.baseArticle))
  }

  /** The article key of a cell: `str(v)` for an integer under vitya, `str(v).strip()`
      otherwise.  The two agree, since `str` of an integer has no surrounding space. */
  function ArticleKey(config: string, v: Cell): (k: string)
    ensures k == Strip(CellText(v))
  {
    if config == "vitya" && v.Int? then
      StripUnchanged(IntToString(v.i));
      IntToString(v.i)
    else Strip(CellText(v))
  }

  /** A vitya article that pandas stored as a float (its cleaned column also held NaN)
      keys as its digits followed by ".0", so it never meets the key of the same
      article stored as an integer. */
  lemma FloatArticleKey(n: nat)
    ensures ArticleKey("vitya", AsFloat(Int(n))) == NatToString(n) + ".0"
    ensures ArticleKey("vitya", AsFloat(Int(n))) != ArticleKey("vitya", Int(n))
  {
    var d := NatToString(n);
    var t := d + ".0";
    assert IntToString(n) == d;
    assert CellText(AsFloat(Int(n))) == t;
    assert IsDigit(t[0]) by { assert t[0] == d[0]; }
    StripUnchanged(t);
    assert ArticleKey("vitya", Int(n)) == d;
    assert |t| != |d|;
  }

  /** A key that is kept: non-empty and neither "nan" nor "None". */
  predicate ValidKey(k: string) {
    k != [] && k != "nan" && k != "None"
  }

  /** `d[article] = {price, name, index}` for one row, when its article is a valid key. */
  function ArticleAssignmentOf(config: string, f: Frame, article: string, price: string, r: Row): Option<(string, Entry)> {
    var k := ArticleKey(config, GetOr(f, r, article, Missing));
    if ValidKey(k) then
      var p := GetOr(f, r, price, Missing);
      Some((k, Entry(if p.Missing? then Int(0) else p, GetOr(f, r, "name", Str("")), r.index)))
    else None
  }

  function ArticleAssignment(config: string, f: Frame, article: string, price: string): Row -> Option<(string, Entry)> {
    r => ArticleAssignmentOf(config, f, article, price, r)
  }

  /** Reading `row[price]` raises `KeyError` when the column is absent, which happens as
      soon as one row has a valid key. */
  predicate IndexRaises(config: string, f: Frame, rows: seq<Row>, article: string, price: string) {
    price !in f.columns && Assigns(rows, ArticleAssignment(config, f, article, price))
  }

  /** The article index of `rows`, or None when building it raises `KeyError`. */
  method BuildArticleIndex(config: string, f: Frame, rows: seq<Row>, article: string, price: string)
    returns (d: Option<Dict<Entry>>)
    ensures d.None? <==> IndexRaises(config, f, rows, article, price)
    ensures d.Some? ==> d.value == Build(rows, ArticleAssignment(config, f, article, price))
  {
    d := BuildOrRaise(rows, ArticleAssignment(config, f, article, price), price !in f.columns);
  }

  function Abs(x: real): real {
    if x < 0.0 then -x else x
  }

  /** The match record of an article found on both sides (prices known numeric). */
  function MatchOf(article: string, s: Entry, b: Entry): (m: Match)
    ensures m.article == article && m.supplierPrice == PriceValue(s.price) && m.basePrice == PriceValue(b.price)
    ensures m.supplierPrice == m.basePrice + m.priceDiff
    ensures m.basePrice > 0.0 ==> m.percent == m.priceDiff / m.basePrice * 100.0
    ensures m.basePrice <= 0.0 ==> m.percent == 0.0
    ensures m.name == (if Truthy(s.name) then s.name else b.name)
  {
    var sp, bp := PriceValue(s.price), PriceValue(b.price);
    var diff := sp - bp;
    Match(article, sp, bp, if Truthy(s.name) then s.name else b.name, diff, if bp > 0.0 then diff / bp * 100.0 else 0.0)
  }

  /** A change of more than 5% either way. */
  predicate Significant(m: Match) {
    Abs(m.percent) > 5.0
  }

  /** A significant change is a supplier price more than 5% above or below a positive
      base price; with a base price of zero or less no change is significant. */
  lemma SignificantMeans(article: string, s: Entry, b: Entry)
    ensures var m := MatchOf(article, s, b);
      Significant(m) <==>
        m.basePrice > 0.0 && (m.supplierPrice > m.basePrice * 1.05 || m.supplierPrice < m.basePrice * 0.95)
  {
    var m := MatchOf(article, s, b);
    var bp, diff := m.basePrice, m.priceDiff;
    if bp > 0.0 {
      assert m.percent == diff / bp * 100.0;
      PercentAbove(diff, bp);
      PercentAbove(-diff, bp);
      assert (-diff) / bp * 100.0 == -(diff / bp * 100.0);
    }
  }

  /** `x / base * 100 > 5` exactly when `x` is more than 5% of a positive base. */
  lemma PercentAbove(x: real, base: real)
    requires base > 0.0
    ensures x / base * 100.0 > 5.0 <==> x > 0.05 * base
  {
    var q := x / base;
    assert x == q * base;
    assert (q - 0.05) * base == q * base - 0.05 * base;
    TimesPositive(q - 0.05, base);
  }

  lemma TimesPositive(x: real, y: real)
    requires y > 0.0
    ensures x > 0.0 <==> x * y > 0.0
  {
    if x > 0.0 {
      assert x * y > 0.0;
    } else if x < 0.0 {
      assert (-x) * y > 0.0;
    }
  }

  /** A price a match subtracts or compares: text raises `TypeError`. */
  predicate TextPrice(s: Entry, b: Entry) {
    s.price.Str? || b.price.Str?
  }

  /** Some supplier article found in the base has a text price on either side (stated
      on the last article, as the analysis loop meets them). */
  predicate HasTextPrice(keys: seq<string>, s: map<string, Entry>, b: map<string, Entry>)
    requires forall k :: k in keys ==> k in s
  {
    if keys == [] then false
    else
      var n := |keys| - 1;
      assert forall k :: k in keys[..n] ==> k in keys;
      HasTextPrice(keys[..n], s, b) || (keys[n] in b && TextPrice(s[keys[n]], b[keys[n]]))
  }

  /** A text price is met exactly when some article of `keys` in the base has one. */
  lemma {:induction false} HasTextPriceMeans(keys: seq<string>, s: map<string, Entry>, b: map<string, Entry>)
    requires forall k :: k in keys ==> k in s
    ensures HasTextPrice(keys, s, b) <==> exists i :: 0 <= i < |keys| && keys[i] in b && TextPrice(s[keys[i]], b[keys[i]])
  {
    if keys != [] {
      var n := |keys| - 1;
      var init := keys[..n];
      assert forall k :: k in init ==> k in keys;
      HasTextPriceMeans(init, s, b);
      if exists i :: 0 <= i < |keys| && keys[i] in b && TextPrice(s[keys[i]], b[keys[i]]) {
        var i :| 0 <= i < |keys| && keys[i] in b && TextPrice(s[keys[i]], b[keys[i]]);
        if i < n { assert init[i] == keys[i]; }
      }
      if exists i :: 0 <= i < n && init[i] in b && TextPrice(s[init[i]], b[init[i]]) {
        var i :| 0 <= i < n && init[i] in b && TextPrice(s[init[i]], b[init[i]]);
        assert keys[i] == init[i];
      }
    }
  }

  /** The matches for the supplier articles `keys`, in that order. */
  function MatchesOf(keys: seq<string>, s: map<string, Entry>, b: map<string, Entry>): seq<Match>
    requires forall k :: k in keys ==> k in s
  {
    if keys == [] then []
    else
      var n := |keys| - 1;
      assert forall k :: k in keys[..n] ==> k in keys;
      var init := MatchesOf(keys[..n], s, b);
      if keys[n] in b then init + [MatchOf(keys[n], s[keys[n]], b[keys[n]])] else init
  }

  /** Every reported key is one of `keys` (found in `b`), reported with its own entries. */
  lemma {:induction false} MatchesSound(keys: seq<string>, s: map<string, Entry>, b: map<string, Entry>)
    requires forall k :: k in keys ==> k in s
    ensures var ms := MatchesOf(keys, s, b);
      && |ms| <= |keys|
      && forall t :: 0 <= t < |ms| ==>
           && ms[t].article in keys && ms[t].article in b
           && ms[t] == MatchOf(ms[t].article, s[ms[t].article], b[ms[t].article])
  {
    if keys != [] {
      var n := |keys| - 1;
      assert forall k :: k in keys[..n] ==> k in keys;
      MatchesSound(keys[..n], s, b);
    }
  }

  /** Every key of `keys` that `b` has is reported. */
  lemma {:induction false} MatchesComplete(keys: seq<string>, s: map<string, Entry>, b: map<string, Entry>, k: string)
    requires forall k :: k in keys ==> k in s
    requires k in keys && k in b
    ensures exists t :: 0 <= t < |MatchesOf(keys, s, b)| && MatchesOf(keys, s, b)[t].article == k
  {
    var n := |keys| - 1;
    var init := MatchesOf(keys[..n], s, b);
    var ms := MatchesOf(keys, s, b);
    assert forall k' :: k' in keys[..n] ==> k' in keys;
    if keys[n] == k {
      assert ms[|ms| - 1].article == k;
    } else {
      assert k in keys[..n] by {
        var i :| 0 <= i < |keys| && keys[i] == k;
        assert keys[..n][i] == k;
      }
      MatchesComplete(keys[..n], s, b, k);
      var t :| 0 <= t < |init| && init[t].article == k;
      assert ms[t] == init[t];
    }
  }

  /** Distinct keys give distinct reports. */
  lemma {:induction false} MatchesDistinct(keys: seq<string>, s: map<string, Entry>, b: map<string, Entry>)
    requires forall k :: k in keys ==> k in s
    requires forall i, j :: 0 <= i < j < |keys| ==> keys[i] != keys[j]
    ensures forall t, u :: 0 <= t < u < |MatchesOf(keys, s, b)| ==> MatchesOf(keys, s, b)[t].article != MatchesOf(keys, s, b)[u].article
  {
    if keys != [] {
      var n := |keys| - 1;
      var init := MatchesOf(keys[..n], s, b);
      assert forall k' :: k' in keys[..n] ==> k' in keys;
      MatchesDistinct(keys[..n], s, b);
      MatchesSound(keys[..n], s, b);
      assert keys[n] !in keys[..n] by {
        forall i | 0 <= i < n ensures keys[..n][i] != keys[n] { assert keys[..n][i] == keys[i]; }
      }
    }
  }

  /** The new items for the supplier articles `keys`, in that order. */
  function NewItemsOf(keys: seq<string>, s: map<string, Entry>, b: map<string, Entry>): seq<NewItem>
    requires forall k :: k in keys ==> k in s
  {
    if keys == [] then []
    else
      var n := |keys| - 1;
      assert forall k :: k in keys[..n] ==> k in keys;
      var init := NewItemsOf(keys[..n], s, b);
      if keys[n] !in b then init + [NewItem(keys[n], s[keys[n]].price, s[keys[n]].name)] else init
  }

  /** Every reported key is one of `keys` (missing from `b`), reported with its own entries. */
  lemma {:induction false} NewItemsSound(keys: seq<string>, s: map<string, Entry>, b: map<string, Entry>)
    requires forall k :: k in keys ==> k in s
    ensures var ms := NewItemsOf(keys, s, b);
      && |ms| <= |keys|
      && forall t :: 0 <= t < |ms| ==>
           && ms[t].article in keys && ms[t].article !in b
           && ms[t] == NewItem(ms[t].article, s[ms[t].article].price, s[ms[t].article].name)
  {
    if keys != [] {
      var n := |keys| - 1;
      assert forall k :: k in keys[..n] ==> k in keys;
      NewItemsSound(keys[..n], s, b);
    }
  }

  /** Every key of `keys` that `b` lacks is reported as a new item. */
  lemma {:induction false} NewItemsComplete(keys: seq<string>, s: map<string, Entry>, b: map<string, Entry>, k: string)
    requires forall k :: k in keys ==> k in s
    requires k in keys && k !in b
    ensures exists t :: 0 <= t < |NewItemsOf(keys, s, b)| && NewItemsOf(keys, s, b)[t].article == k
  {
    var n := |keys| - 1;
    var init := NewItemsOf(keys[..n], s, b);
    var items := NewItemsOf(keys, s, b);
    assert forall k' :: k' in keys[..n] ==> k' in keys;
    if keys[n] == k {
      assert items[|items| - 1].article == k;
    } else {
      assert k in keys[..n] by {
        var i :| 0 <= i < |keys| && keys[i] == k;
        assert keys[..n][i] == k;
      }
      NewItemsComplete(keys[..n], s, b, k);
      var t :| 0 <= t < |init| && init[t].article == k;
      assert items[t] == init[t];
    }
  }

  /** Every supplier article is either a match or a new item. */
  lemma {:induction false} MatchesAndNewItems(keys: seq<string>, s: map<string, Entry>, b: map<string, Entry>)
    requires forall k :: k in keys ==> k in s
    ensures |MatchesOf(keys, s, b)| + |NewItemsOf(keys, s, b)| == |keys|
  {
    if keys != [] {
      var n := |keys| - 1;
      MatchesAndNewItems(keys[..n], s, b);
    }
  }

  /** The significant matches, in order. */
  function PriceChangesOf(ms: seq<Match>): (r: seq<Match>)
    ensures |r| <= |ms|
  {
    if ms == [] then []
    else
      var n := |ms| - 1;
      PriceChangesOf(ms[..n]) + (if Significant(ms[n]) then [ms[n]] else [])
  }

  /** The price changes are exactly the significant matches. */
  lemma {:induction false} PriceChangesExact(ms: seq<Match>)
    ensures forall m :: m in PriceChangesOf(ms) <==> m in ms && Significant(m)
  {
    if ms != [] {
      var n := |ms| - 1;
      PriceChangesExact(ms[..n]);
      assert ms == ms[..n] + [ms[n]];
    }
  }

  /** `idx` lists, in increasing order, the positions in `ms` that `sub` was taken from. */
  predicate Positions(idx: seq<nat>, sub: seq<Match>, ms: seq<Match>) {
    && |idx| == |sub|
    && (forall t :: 0 <= t < |idx| ==> idx[t] < |ms| && ms[idx[t]] == sub[t])
    && (forall t, u :: 0 <= t < u < |idx| ==> idx[t] < idx[u])
  }

  /** The price changes are a sub-list of the matches, in the matches' order. */
  lemma {:induction false} PriceChangesInOrder(ms: seq<Match>)
    ensures exists idx :: Positions(idx, PriceChangesOf(ms), ms)
  {
    if ms == [] {
      assert Positions([], PriceChangesOf(ms), ms);
    } else {
      var n := |ms| - 1;
      PriceChangesInOrder(ms[..n]);
      var idx :| Positions(idx, PriceChangesOf(ms[..n]), ms[..n]);
      if Significant(ms[n]) {
        assert Positions(idx + [n], PriceChangesOf(ms), ms);
      } else {
        assert Positions(idx, PriceChangesOf(ms), ms);
      }
    }
  }

  /** The share of supplier articles that match, in percent. */
  function MatchRate(matched: nat, total: nat): real {
    if total > 0 then matched as real / total as real * 100.0 else 0.0
  }

  /** Fewer than 30% of the supplier articles matched. */
  predicate FewMatches(matched: nat, total: nat) {
    (matched as real) < (total as real) * 0.3
  }

  /** The report built from the two article indexes. */
  function ReportOf(config: string, supplier: Frame, base: Frame, sd: Dict<Entry>, bd: Dict<Entry>): Report
    requires Valid(sd)
  {
    var ms := MatchesOf(sd.keys, sd.entries, bd.entries);
    Report(
      |sd.keys|, |bd.keys|, ms, PriceChangesOf(ms), NewItemsOf(sd.keys, sd.entries, bd.entries),
      if FewMatches(|ms|, |sd.keys|) then CodeMatches(config, supplier, base) else [],
      MatchRate(|ms|, |sd.keys|))
  }

  /** The supplier index (of the cleaned supplier rows). */
  function SupplierIndex(config: string, supplier: Frame): Dict<Entry> {
    var cols := ColumnsFor(config);
    Build(SupplierClean(supplier, cols), ArticleAssignment(config, supplier, cols.supplierArticle, cols.supplierPrice))
  }

  /** The base index (of the cleaned base rows). */
  function BaseIndex(config: string, base: Frame): Dict<Entry> {
    var cols := ColumnsFor(config);
    Build(BaseClean(base, cols), ArticleAssignment(config, base, cols.baseArticle, cols.basePrice))
  }

  /** The comparison gets past its column checks: both article columns and the
      supplier price column exist, and indexing the base does not raise. */
  predicate Indexed(config: string, supplier: Frame, base: Frame) {
    var cols := ColumnsFor(config);
    && cols.supplierArticle in supplier.columns && cols.baseArticle in base.columns
    && cols.supplierPrice in supplier.columns
    && !IndexRaises(config, base, BaseClean(base, cols), cols.baseArticle, cols.basePrice)
  }

  /** `perform_comparison` as a value.  The error cases are checked in the source's
      order: the supplier article column, the base article column, the supplier price
      column (`dropna` raises), the base price column (read for the first base row
      with a valid key), and a text price in a match. */
  function Compare(config: string, supplier: Frame, base: Frame): (r: Comparison)
    ensures var cols := ColumnsFor(config);
      && (r == ArticleColumnMissing(SupplierFile, cols.supplierArticle) <==> cols.supplierArticle !in supplier.columns)
      && (r == ArticleColumnMissing(BaseFile, cols.baseArticle) <==>
            cols.supplierArticle in supplier.columns && cols.baseArticle !in base.columns)
      && (r.Compared? ==> cols.supplierPrice in supplier.columns)
      && (r.Compared? ==> cols.basePrice in base.columns || r.report.baseTotal == 0)
      && (r.KeyErrorRaised? ==> r.column == cols.supplierPrice || r.column == cols.basePrice)
    ensures var cols := ColumnsFor(config);
      var articles := cols.supplierArticle in supplier.columns && cols.baseArticle in base.columns;
      && (articles && cols.supplierPrice !in supplier.columns ==> r == KeyErrorRaised(cols.supplierPrice))
      && ((articles && cols.supplierPrice in supplier.columns
             && IndexRaises(config, base, BaseClean(base, cols), cols.baseArticle, cols.basePrice))
            ==> r == KeyErrorRaised(cols.basePrice))
      && (r.KeyErrorRaised? <==> articles && !Indexed(config, supplier, base))
    ensures Indexed(config, supplier, base) ==>
      var sd, bd := SupplierIndex(config, supplier), BaseIndex(config, base);
      && (r.PriceTypeError? <==> HasTextPrice(sd.keys, sd.entries, bd.entries))
      && (r.Compared? <==> !HasTextPrice(sd.keys, sd.entries, bd.entries))
    ensures r.PriceTypeError? || r.Compared? ==> Indexed(config, supplier, base)
  {
    var cols := ColumnsFor(config);
    if cols.supplierArticle !in supplier.columns then ArticleColumnMissing(SupplierFile, cols.supplierArticle)
    else if cols.baseArticle !in base.columns then ArticleColumnMissing(BaseFile, cols.baseArticle)
    else if cols.supplierPrice !in supplier.columns then KeyErrorRaised(cols.supplierPrice)
    else if IndexRaises(config, base, BaseClean(base, cols), cols.baseArticle, cols.basePrice) then
      KeyErrorRaised(cols.basePrice)
    else
      var sd, bd := SupplierIndex(config, supplier), BaseIndex(config, base);
      AssignsIffKeys(BaseClean(base, cols), ArticleAssignment(config, base, cols.baseArticle, cols.basePrice));
      if HasTextPrice(sd.keys, sd.entries, bd.entries) then PriceTypeError
      else Compared(ReportOf(config, supplier, base, sd, bd))
  }

  /** `perform_comparison`. */
  method PerformComparison(config: string, supplier: Frame, base: Frame) returns (result: Comparison)
    ensures result == Compare(config, supplier, base)
  {
    var cols := ColumnsFor(config);
    if cols.supplierArticle !in supplier.columns {
      return ArticleColumnMissing(SupplierFile, cols.supplierArticle);
    }
    if cols.baseArticle !in base.columns {
      return ArticleColumnMissing(BaseFile, cols.baseArticle);
    }
    if cols.supplierPrice !in supplier.columns {
      return KeyErrorRaised(cols.supplierPrice);
    }
    var supplierClean := SupplierClean(supplier, cols);
    var baseClean := BaseClean(base, cols);
    var supplierIndex := BuildArticleIndex(config, supplier, supplierClean, cols.supplierArticle, cols.supplierPrice);
    var baseIndex := BuildArticleIndex(config, base, baseClean, cols.baseArticle, cols.basePrice);
    if baseIndex.None? {
      return KeyErrorRaised(cols.basePrice);
    }
    var sd, bd := supplierIndex.value, baseIndex.value;
    var analysis := AnalyseArticles(sd.keys, sd.entries, bd.entries);
    if analysis.None? {
      return PriceTypeError;
    }
    var (matches, priceChanges, newItems) := analysis.value;
    var codeMatches := [];
    if FewMatches(|matches|, |sd.keys|) {
      codeMatches := CompareByProductCode(supplier, base, config);
    }
    return Compared(Report(|sd.keys|, |bd.keys|, matches, priceChanges, newItems, codeMatches,
      MatchRate(|matches|, |sd.keys|)));
  }

  /** One iteration of the analysis loop. */
  lemma AnalysisStep(keys: seq<string>, s: map<string, Entry>, b: map<string, Entry>, i: nat)
    requires i < |keys| && forall k :: k in keys ==> k in s
    ensures forall k :: k in keys[..i] ==> k in s
    ensures forall k :: k in keys[..i + 1] ==> k in s
    ensures var k := keys[i];
      && MatchesOf(keys[..i + 1], s, b) ==
           MatchesOf(keys[..i], s, b) + (if k in b then [MatchOf(k, s[k], b[k])] else [])
      && NewItemsOf(keys[..i + 1], s, b) ==
           NewItemsOf(keys[..i], s, b) + (if k !in b then [NewItem(k, s[k].price, s[k].name)] else [])
  {
    assert keys[..i + 1][..i] == keys[..i];
  }

  lemma PriceChangesSnoc(ms: seq<Match>, m: Match)
    ensures PriceChangesOf(ms + [m]) == PriceChangesOf(ms) + (if Significant(m) then [m] else [])
  {
    assert (ms + [m])[..|ms|] == ms;
  }

  /** The loop over the supplier articles `keys` (with their entries `s`): matches,
      significant changes and new items, or None when a match meets a text price
      (`TypeError`). */
  method AnalyseArticles(keys: seq<string>, s: map<string, Entry>, b: map<string, Entry>)
    returns (r: Option<(seq<Match>, seq<Match>, seq<NewItem>)>)
    requires forall k :: k in keys ==> k in s
    ensures r.None? <==> HasTextPrice(keys, s, b)
    ensures r.Some? ==> r.value.0 == MatchesOf(keys, s, b)
    ensures r.Some? ==> r.value.1 == PriceChangesOf(r.value.0)
    ensures r.Some? ==> r.value.2 == NewItemsOf(keys, s, b)
  {
    var matches, priceChanges, newItems := [], [], [];
    var i := 0;
    while i < |keys|
      invariant 0 <= i <= |keys|
      invariant forall k :: k in keys[..i] ==> k in s
      invariant !HasTextPrice(keys[..i], s, b)
      invariant matches == MatchesOf(keys[..i], s, b)
      invariant priceChanges == PriceChangesOf(matches)
      invariant newItems == NewItemsOf(keys[..i], s, b)
    {
      var article := keys[i];
      AnalysisStep(keys, s, b, i);
      TextPriceStep(keys, s, b, i);
      var entry := s[article];
      if article in b {
        if TextPrice(entry, b[article]) {
          TextPricePrefix(keys, s, b, i + 1);
          return None;
        }
        var m := MatchOf(article, entry, b[article]);
        PriceChangesSnoc(matches, m);
        matches := matches + [m];
        if Significant(m) {
          priceChanges := priceChanges + [m];
        }
      } else {
        newItems := newItems + [NewItem(article, entry.price, entry.name)];
      }
      i := i + 1;
    }
    assert keys[..i] == keys;
    return Some((matches, priceChanges, newItems));
  }

  lemma TextPriceStep(keys: seq<string>, s: map<string, Entry>, b: map<string, Entry>, i: nat)
    requires i < |keys| && forall k :: k in keys ==> k in s
    ensures forall k :: k in keys[..i] ==> k in s
    ensures forall k :: k in keys[..i + 1] ==> k in s
    ensures var k := keys[i];
      HasTextPrice(keys[..i + 1], s, b) <==> HasTextPrice(keys[..i], s, b) || (k in b && TextPrice(s[k], b[k]))
  {
    var upto := keys[..i + 1];
    assert upto[..i] == keys[..i];
    assert upto[i] == keys[i];
  }

  lemma {:induction false} TextPricePrefix(keys: seq<string>, s: map<string, Entry>, b: map<string, Entry>, n: nat)
    requires forall k :: k in keys ==> k in s
    requires n <= |keys| && HasTextPrice(keys[..n], s, b)
    ensures HasTextPrice(keys, s, b)
    decreases |keys| - n
  {
    if n == |keys| {
      assert keys[..n] == keys;
    } else {
      TextPriceStep(keys, s, b, n);
      TextPricePrefix(keys, s, b, n + 1);
    }
  }

  /** The article key of row `r` read from column `article`. */
  function KeyOf(config: string, f: Frame, article: string, r: Row): string {
    ArticleKey(config, GetOr(f, r, article, Missing))
  }

  /** Some supplier row with both article and price present has the valid key `k`. */
  predicate SupplierHas(config: string, supplier: Frame, k: string) {
    var cols := ColumnsFor(config);
    var rows := SupplierClean(supplier, cols);
    exists i :: 0 <= i < |rows| && ValidKey(KeyOf(config, supplier, cols.supplierArticle, rows[i]))
      && KeyOf(config, supplier, cols.supplierArticle, rows[i]) == k
  }

  /** Some base row with its article present has the valid key `k`. */
  predicate BaseHas(config: string, base: Frame, k: string) {
    var cols := ColumnsFor(config);
    var rows := BaseClean(base, cols);
    exists i :: 0 <= i < |rows| && ValidKey(KeyOf(config, base, cols.baseArticle, rows[i]))
      && KeyOf(config, base, cols.baseArticle, rows[i]) == k
  }

  lemma SupplierIndexKeys(config: string, supplier: Frame, k: string)
    ensures k in SupplierIndex(config, supplier).entries <==> SupplierHas(config, supplier, k)
  {
    var cols := ColumnsFor(config);
    IndexKeys(config, supplier, SupplierClean(supplier, cols), cols.supplierArticle, cols.supplierPrice, k);
  }

  lemma BaseIndexKeys(config: string, base: Frame, k: string)
    ensures k in BaseIndex(config, base).entries <==> BaseHas(config, base, k)
  {
    var cols := ColumnsFor(config);
    IndexKeys(config, base, BaseClean(base, cols), cols.baseArticle, cols.basePrice, k);
  }

  /** The keys of an article index are the valid article keys of its rows. */
  lemma IndexKeys(config: string, f: Frame, rows: seq<Row>, article: string, price: string, k: string)
    ensures k in Build(rows, ArticleAssignment(config, f, article, price)).entries <==>
      exists i :: 0 <= i < |rows| && ValidKey(KeyOf(config, f, article, rows[i])) && KeyOf(config, f, article, rows[i]) == k
  {
    var e := ArticleAssignment(config, f, article, price);
    BuildKeys(rows, e, k);
    if exists i :: 0 <= i < |rows| && ValidKey(KeyOf(config, f, article, rows[i])) && KeyOf(config, f, article, rows[i]) == k {
      var i :| 0 <= i < |rows| && ValidKey(KeyOf(config, f, article, rows[i])) && KeyOf(config, f, article, rows[i]) == k;
      assert e(rows[i]).Some? && e(rows[i]).value.0 == k;
    }
    if k in Build(rows, e).entries {
      var i :| 0 <= i < |rows| && e(rows[i]).Some? && e(rows[i]).value.0 == k;
      assert ValidKey(KeyOf(config, f, article, rows[i])) && KeyOf(config, f, article, rows[i]) == k;
    }
  }

  /** The report of a successful comparison is built from the two article indexes. */
  lemma CompareReport(config: string, supplier: Frame, base: Frame)
    requires Compare(config, supplier, base).Compared?
    ensures Compare(config, supplier, base).report ==
      ReportOf(config, supplier, base, SupplierIndex(config, supplier), BaseIndex(config, base))
  {
    var cols := ColumnsFor(config);
    var sd, bd := SupplierIndex(config, supplier), BaseIndex(config, base);
    assert !IndexRaises(config, base, BaseClean(base, cols), cols.baseArticle, cols.basePrice);
    assert !HasTextPrice(sd.keys, sd.entries, bd.entries);
  }

  /** Every supplier article is reported once, as a match or as a new item. */
  lemma ReportCounts(config: string, supplier: Frame, base: Frame)
    requires Compare(config, supplier, base).Compared?
    ensures var rep := Compare(config, supplier, base).report;
      && |rep.matches| + |rep.newItems| == rep.supplierTotal
      && (forall t, u :: 0 <= t < u < |rep.matches| ==> rep.matches[t].article != rep.matches[u].article)
  {
    CompareReport(config, supplier, base);
    var sd, bd := SupplierIndex(config, supplier), BaseIndex(config, base);
    MatchesAndNewItems(sd.keys, sd.entries, bd.entries);
    MatchesDistinct(sd.keys, sd.entries, bd.entries);
  }

  /** A match is an article both tables have; a new item is one only the supplier has. */
  lemma ReportSound(config: string, supplier: Frame, base: Frame)
    requires Compare(config, supplier, base).Compared?
    ensures var rep := Compare(config, supplier, base).report;
      && (forall t :: 0 <= t < |rep.matches| ==>
            SupplierHas(config, supplier, rep.matches[t].article) && BaseHas(config, base, rep.matches[t].article))
      && (forall t :: 0 <= t < |rep.newItems| ==>
            SupplierHas(config, supplier, rep.newItems[t].article) && !BaseHas(config, base, rep.newItems[t].article))
  {
    CompareReport(config, supplier, base);
    var sd, bd := SupplierIndex(config, supplier), BaseIndex(config, base);
    MatchesSound(sd.keys, sd.entries, bd.entries);
    NewItemsSound(sd.keys, sd.entries, bd.entries);
    var rep := Compare(config, supplier, base).report;
    forall t | 0 <= t < |rep.matches|
      ensures SupplierHas(config, supplier, rep.matches[t].article) && BaseHas(config, base, rep.matches[t].article)
    {
      SupplierIndexKeys(config, supplier, rep.matches[t].article);
      BaseIndexKeys(config, base, rep.matches[t].article);
    }
    forall t | 0 <= t < |rep.newItems|
      ensures SupplierHas(config, supplier, rep.newItems[t].article) && !BaseHas(config, base, rep.newItems[t].article)
    {
      SupplierIndexKeys(config, supplier, rep.newItems[t].article);
      BaseIndexKeys(config, base, rep.newItems[t].article);
    }
  }

  /** Every article of the supplier's cleaned rows is reported: as a match when the
      base has it, as a new item otherwise. */
  lemma ReportComplete(config: string, supplier: Frame, base: Frame, k: string)
    requires Compare(config, supplier, base).Compared?
    requires SupplierHas(config, supplier, k)
    ensures var rep := Compare(config, supplier, base).report;
      && (BaseHas(config, base, k) ==> exists t :: 0 <= t < |rep.matches| && rep.matches[t].article == k)
      && (!BaseHas(config, base, k) ==> exists t :: 0 <= t < |rep.newItems| && rep.newItems[t].article == k)
  {
    CompareReport(config, supplier, base);
    SupplierIndexKeys(config, supplier, k);
    BaseIndexKeys(config, base, k);
    var sd, bd := SupplierIndex(config, supplier), BaseIndex(config, base);
    if k in bd.entries {
      MatchesComplete(sd.keys, sd.entries, bd.entries, k);
    } else {
      NewItemsComplete(sd.keys, sd.entries, bd.entries, k);
    }
  }

  /** The prices and names of a match come from the last supplier row and the last
      base row with that article: a later row with the same article replaces an
      earlier one. */
  lemma MatchFromLastRows(config: string, supplier: Frame, base: Frame, t: nat, i: nat, j: nat)
    requires Compare(config, supplier, base).Compared?
    requires t < |Compare(config, supplier, base).report.matches|
    requires var cols := ColumnsFor(config);
      var rows := SupplierClean(supplier, cols);
      && i < |rows| && KeyOf(config, supplier, cols.supplierArticle, rows[i]) == Compare(config, supplier, base).report.matches[t].article
      && forall i' :: i < i' < |rows| ==> KeyOf(config, supplier, cols.supplierArticle, rows[i']) != KeyOf(config, supplier, cols.supplierArticle, rows[i])
    requires var cols := ColumnsFor(config);
      var rows := BaseClean(base, cols);
      && j < |rows| && KeyOf(config, base, cols.baseArticle, rows[j]) == Compare(config, supplier, base).report.matches[t].article
      && forall j' :: j < j' < |rows| ==> KeyOf(config, base, cols.baseArticle, rows[j']) != KeyOf(config, base, cols.baseArticle, rows[j])
    ensures var cols := ColumnsFor(config);
      var m := Compare(config, supplier, base).report.matches[t];
      var srow := SupplierClean(supplier, cols)[i];
      var brow := BaseClean(base, cols)[j];
      && m.supplierPrice == PriceValue(GetOr(supplier, srow, cols.supplierPrice, Missing))
      && m.basePrice == PriceValue(GetOr(base, brow, cols.basePrice, Missing))
      && m.name == (var n := GetOr(supplier, srow, "name", Str(""));
                    if Truthy(n) then n else GetOr(base, brow, "name", Str("")))
  {
    CompareReport(config, supplier, base);
    var m := Compare(config, supplier, base).report.matches[t];
    var sd, bd := SupplierIndex(config, supplier), BaseIndex(config, base);
    MatchesSound(sd.keys, sd.entries, bd.entries);
    assert m == MatchOf(m.article, sd.entries[m.article], bd.entries[m.article]);
    assert ValidKey(m.article) by {
      SupplierIndexKeys(config, supplier, m.article);
    }
    IndexFromLastRow(config, supplier, SupplierClean(supplier, ColumnsFor(config)), ColumnsFor(config).supplierArticle, ColumnsFor(config).supplierPrice, i);
    IndexFromLastRow(config, base, BaseClean(base, ColumnsFor(config)), ColumnsFor(config).baseArticle, ColumnsFor(config).basePrice, j);
  }

  /** The entry of a key is taken from the last row with that key. */
  lemma IndexFromLastRow(config: string, f: Frame, rows: seq<Row>, article: string, price: string, i: nat)
    requires i < |rows| && ValidKey(KeyOf(config, f, article, rows[i]))
    requires forall i' :: i < i' < |rows| ==> KeyOf(config, f, article, rows[i']) != KeyOf(config, f, article, rows[i])
    ensures var d := Build(rows, ArticleAssignment(config, f, article, price));
      var k := KeyOf(config, f, article, rows[i]);
      var p := GetOr(f, rows[i], price, Missing);
      && k in d.entries
      && d.entries[k] == Entry(if p.Missing? then Int(0) else p, GetOr(f, rows[i], "name", Str("")), rows[i].index)
  {
    BuildLastWins(rows, ArticleAssignment(config, f, article, price), i);
  }

  /** The match rate is a percentage, and 100 exactly when every supplier article
      matched. */
  lemma MatchRateBounds(config: string, supplier: Frame, base: Frame)
    requires Compare(config, supplier, base).Compared?
    ensures var rep := Compare(config, supplier, base).report;
      && 0.0 <= rep.matchRate <= 100.0
      && (rep.matchRate == 100.0 <==> rep.supplierTotal > 0 && rep.newItems == [])
      && (rep.supplierTotal == 0 ==> rep.matchRate == 0.0)
  {
    ReportCounts(config, supplier, base);
    CompareReport(config, supplier, base);
    var rep := Compare(config, supplier, base).report;
    if rep.supplierTotal > 0 {
      RatioBounds(|rep.matches|, rep.supplierTotal);
    }
  }

  lemma RatioBounds(m: nat, n: nat)
    requires 0 < n && m <= n
    ensures 0.0 <= m as real / n as real * 100.0 <= 100.0
    ensures m as real / n as real * 100.0 == 100.0 <==> m == n
  {
    QuotientBounds(m as real, n as real);
  }

  lemma QuotientBounds(a: real, b: real)
    requires 0.0 < b && 0.0 <= a <= b
    ensures 0.0 <= a / b <= 1.0
    ensures a / b == 1.0 <==> a == b
  {
    var q := a / b;
    assert q * b == a;
  }

  /** Code matching runs exactly when fewer than 30% of the supplier articles matched
      (in whole numbers: ten times the matches is less than three times the articles),
      and then it reports the codes found in a name of the supplier table and in a name
      of the base table as given, not only in their cleaned rows. */
  lemma CodeMatchingWhenFewMatches(config: string, supplier: Frame, base: Frame, code: string)
    requires Compare(config, supplier, base).Compared?
    ensures var rep := Compare(config, supplier, base).report;
      && (10 * |rep.matches| >= 3 * rep.supplierTotal ==> rep.codeMatches == [])
      && (10 * |rep.matches| < 3 * rep.supplierTotal ==>
            ((exists t :: 0 <= t < |rep.codeMatches| && rep.codeMatches[t].code == code) <==>
              && (exists i :: 0 <= i < |supplier.rows| && RowCode(supplier, supplier.rows[i]) == Some(code))
              && (exists j :: 0 <= j < |base.rows| && RowCode(base, base.rows[j]) == Some(code))))
  {
    CompareReport(config, supplier, base);
    var rep := Compare(config, supplier, base).report;
    assert FewMatches(|rep.matches|, rep.supplierTotal) <==> 10 * |rep.matches| < 3 * rep.supplierTotal;
    CodeMatchesExact(config, supplier, base, code);
  }

  /** Reported articles are keys as the comparison normalises them: stripped, non-empty
      and neither "nan" nor "None". */
  lemma ArticlesNormalised(config: string, supplier: Frame, base: Frame)
    requires Compare(config, supplier, base).Compared?
    ensures var rep := Compare(config, supplier, base).report;
      && (forall t :: 0 <= t < |rep.matches| ==>
            ValidKey(rep.matches[t].article) && Strip(rep.matches[t].article) == rep.matches[t].article)
      && (forall t :: 0 <= t < |rep.newItems| ==>
            ValidKey(rep.newItems[t].article) && Strip(rep.newItems[t].article) == rep.newItems[t].article)
  {
    ReportSound(config, supplier, base);
    forall s: string {
      StripUnchanged(Strip(s));
    }
  }
}
