/** Row filters applied to a supplier price list before it is compared with the base
    (main.py): the price filter, and the per-supplier preprocessing of "vitya" and
    "dimi" (price filter, balance filter, article cleaning, supplier tag). */
module Preprocess {
  import opened Wrappers
  import opened Frames
  import opened Cleaning

  /** Prices at or below this are dropped (`MIN_PRICE_THRESHOLD`). */
  const MIN_PRICE_THRESHOLD: real := 0.01

  /** The only balance value vitya's rows may have (`VITYA_BALANCE_AVAILABLE`). */
  const VITYA_BALANCE_AVAILABLE: string := "\U{418}\U{43C}\U{435}\U{44E}\U{442}\U{441}\U{44F} \U{432} \U{43D}\U{430}\U{43B}."

  /** The balance value that drops a dimi row (`DIMI_BALANCE_EXPECTED`). */
  const DIMI_BALANCE_EXPECTED: string := "\U{41E}\U{436}\U{438}\U{434}\U{430}\U{435}\U{442}\U{441}\U{44F}"

  /** The supplier labels written to `supplier_name`. */
  const VITYA_LABEL: string := "\U{412}\U{438}\U{442}\U{44F}"
  const DIMI_LABEL: string := "\U{414}\U{438}\U{43C}\U{430}"

  /** The balance columns dimi's price list may carry, in the order they are checked. */
  const DIMI_BALANCE_COLUMNS: seq<string> := ["balance", "balance1"]

  /** A row whose price is present and above the threshold. */
  predicate PricePasses(f: Frame, priceColumn: string, r: Row) {
    var c := GetOr(f, r, priceColumn, Missing);
    !c.Missing? && PriceValue(c) > MIN_PRICE_THRESHOLD
  }

  /** `filter_by_price`: the table unchanged when the price column is absent; otherwise
      exactly the rows with a present price above 0.01, in their original order. */
  function FilterByPrice(f: Frame, priceColumn: string): (r: Frame)
    requires NumericColumn(f, priceColumn)
    ensures priceColumn !in f.columns ==> r == f
    ensures r.columns == f.columns
    ensures priceColumn in f.columns ==>
      forall x :: x in r.rows <==> x in f.rows && PricePasses(f, priceColumn, x)
    ensures priceColumn in f.columns ==> r.rows == Filter(f.rows, x => PricePasses(f, priceColumn, x))
  {
    if priceColumn !in f.columns then f
    else FilterFrame(f, x => PricePasses(f, priceColumn, x))
  }

  /** The price filter of the preprocessing, which only applies when there is a
      `price_usd` column. */
  predicate PriceKeeps(f: Frame, r: Row) {
    "price_usd" in f.columns ==> PricePasses(f, "price_usd", r)
  }

  /** The rows vitya's preprocessing keeps: price above the threshold (when there is a
      price column) and balance "available" (when there is a balance column). */
  predicate VityaKeeps(f: Frame, r: Row) {
    PriceKeeps(f, r) && ("balance" in f.columns ==> Get(f, r, "balance") == Some(Str(VITYA_BALANCE_AVAILABLE)))
  }

  /** The rows dimi's preprocessing keeps: price above the threshold (when there is a
      price column) and no present balance column saying "expected". */
  predicate DimiKeeps(f: Frame, r: Row) {
    PriceKeeps(f, r) && NoneExpected(f, r, DIMI_BALANCE_COLUMNS)
  }

  /** No column of `cols` that the table has holds "expected" in row `r`. */
  predicate NoneExpected(f: Frame, r: Row, cols: seq<string>) {
    forall j :: 0 <= j < |cols| && cols[j] in f.columns ==> Get(f, r, cols[j]) != Some(Str(DIMI_BALANCE_EXPECTED))
  }

  /** The result of a preprocessing step that keeps the rows `kept` of `f`, cleans the
      article column with `clean` when there is one, and labels every row. */
  predicate Preprocessed(f: Frame, kept: seq<Row>, article: string, clean: Cell -> Cell, tag: string, p: Frame) {
    && p.columns == f.columns + (if "supplier_name" in f.columns then [] else ["supplier_name"])
    && |p.rows| == |kept|
    && (forall k :: 0 <= k < |kept| ==> p.rows[k].index == kept[k].index)
    && (forall k :: 0 <= k < |kept| ==> Get(p, p.rows[k], "supplier_name") == Some(Str(tag)))
    && (article in f.columns && article != "supplier_name" ==>
          forall k :: 0 <= k < |kept| ==> Get(p, p.rows[k], article) == Some(clean(GetOr(f, kept[k], article, Missing))))
    && (forall k, c :: 0 <= k < |kept| && c in f.columns && c != article && c != "supplier_name" ==>
          Get(p, p.rows[k], c) == Get(f, kept[k], c))
  }

  /** Some kept row's vitya article cleans to None.  The cleaner's results are then
      integers and None, which pandas stores as a float64 column. */
  predicate VityaPromotes(f: Frame, rows: seq<Row>) {
    "article_vitya" in f.columns &&
    exists k :: 0 <= k < |rows| && VityaArticleCell(GetOr(f, rows[k], "article_vitya", Missing)).Missing?
  }

  /** `preprocess_vitya_fixed_v3`. */
  method PreprocessVitya(df: Frame) returns (processed: Frame)
    requires NumericColumn(df, "price_usd")
    ensures var kept := Filter(df.rows, x => VityaKeeps(df, x));
      Preprocessed(df, kept, "article_vitya", VityaStoredCell(VityaPromotes(df, kept)), VITYA_LABEL, processed)
  {
    // 1. price filter
    processed := FilterByPrice(df, "price_usd");
    PriceStep(df);
    // 2. balance filter
    if "balance" in processed.columns {
      var before := processed;
      processed := FilterFrame(processed, x => Get(before, x, "balance") == Some(Str(VITYA_BALANCE_AVAILABLE)));
      FilterFilter(df.rows, x => PriceKeeps(df, x),
        x => Get(before, x, "balance") == Some(Str(VITYA_BALANCE_AVAILABLE)), x => VityaKeeps(df, x));
    } else {
      FilterSame(df.rows, x => PriceKeeps(df, x), x => VityaKeeps(df, x));
    }
    ghost var kept := processed;
    // 3. article cleaning; integers next to NaN are stored as floats
    processed := MapColumn(processed, "article_vitya", VityaArticleCell);
    if ColumnHasMissing(processed, "article_vitya") {
      processed := MapColumn(processed, "article_vitya", AsFloat);
    }
    VityaArticlesStored(df, kept);
    // 4. supplier tag
    processed := SetColumn(processed, "supplier_name", Str(VITYA_LABEL));
    LabelledCleaned(df, kept, "article_vitya", VityaStoredCell(VityaPromotes(df, kept.rows)), VITYA_LABEL);
  }

  /** `preprocess_dimi_fixed`. */
  method PreprocessDimi(df: Frame) returns (processed: Frame)
    requires NumericColumn(df, "price_usd")
    ensures Preprocessed(df, Filter(df.rows, x => DimiKeeps(df, x)), "article_dimi", DimiArticleCell, DIMI_LABEL, processed)
  {
    // 1. price filter
    processed := FilterByPrice(df, "price_usd");
    PriceStep(df);
    // 2. balance filter, one present balance column at a time
    var found := FoundColumns(DIMI_BALANCE_COLUMNS, processed.columns);
    var i := 0;
    DimiBalanceStart(df, found);
    while i < |found|
      invariant 0 <= i <= |found|
      invariant processed.columns == df.columns
      invariant processed.rows == Filter(df.rows, x => PriceKeeps(df, x) && NoneExpected(df, x, found[..i]))
    {
      var before := processed;
      var col := found[i];
      processed := FilterFrame(processed, x => Get(before, x, col) != Some(Str(DIMI_BALANCE_EXPECTED)));
      DimiBalanceStep(df, before, found, i);
      i := i + 1;
    }
    DimiBalanceDone(df, found);
    ghost var kept := processed;
    // 3. article cleaning
    processed := MapColumn(processed, "article_dimi", DimiArticleCell);
    // 4. supplier tag
    processed := SetColumn(processed, "supplier_name", Str(DIMI_LABEL));
    LabelledCleaned(df, kept, "article_dimi", DimiArticleCell, DIMI_LABEL);
  }

  /** The price filter keeps the rows the preprocessing's price condition keeps. */
  lemma PriceStep(df: Frame)
    requires NumericColumn(df, "price_usd")
    ensures FilterByPrice(df, "price_usd").rows == Filter(df.rows, x => PriceKeeps(df, x))
  {
    if "price_usd" !in df.columns {
      FilterAll(df.rows, x => PriceKeeps(df, x));
    } else {
      FilterSame(df.rows, x => PricePasses(df, "price_usd", x), x => PriceKeeps(df, x));
    }
  }

  lemma DimiBalanceStart(df: Frame, found: seq<string>)
    ensures Filter(df.rows, x => PriceKeeps(df, x))
         == Filter(df.rows, x => PriceKeeps(df, x) && NoneExpected(df, x, found[..0]))
  {
    FilterSame(df.rows, x => PriceKeeps(df, x), x => PriceKeeps(df, x) && NoneExpected(df, x, found[..0]));
  }

  /** Filtering on one more present balance column narrows the kept rows by that column. */
  lemma DimiBalanceStep(df: Frame, before: Frame, found: seq<string>, i: nat)
    requires i < |found| && before.columns == df.columns
    requires before.rows == Filter(df.rows, x => PriceKeeps(df, x) && NoneExpected(df, x, found[..i]))
    ensures FilterFrame(before, x => Get(before, x, found[i]) != Some(Str(DIMI_BALANCE_EXPECTED))).rows
         == Filter(df.rows, x => PriceKeeps(df, x) && NoneExpected(df, x, found[..i + 1]))
  {
    var col := found[i];
    forall x ensures (PriceKeeps(df, x) && NoneExpected(df, x, found[..i + 1]))
        == ((PriceKeeps(df, x) && NoneExpected(df, x, found[..i])) && Get(before, x, col) != Some(Str(DIMI_BALANCE_EXPECTED)))
    {
      NoneExpectedSnoc(df, x, found[..i], col);
      assert found[..i + 1] == found[..i] + [col];
    }
    FilterFilter(df.rows,
      x => PriceKeeps(df, x) && NoneExpected(df, x, found[..i]),
      x => Get(before, x, col) != Some(Str(DIMI_BALANCE_EXPECTED)),
      x => PriceKeeps(df, x) && NoneExpected(df, x, found[..i + 1]));
  }

  lemma NoneExpectedSnoc(f: Frame, r: Row, cols: seq<string>, col: string)
    ensures NoneExpected(f, r, cols + [col])
        == (NoneExpected(f, r, cols) && (col in f.columns ==> Get(f, r, col) != Some(Str(DIMI_BALANCE_EXPECTED))))
  {
    var cs := cols + [col];
    assert cs[|cols|] == col;
    assert forall j :: 0 <= j < |cols| ==> cs[j] == cols[j];
  }

  /** After every present balance column has been filtered on, the kept rows are dimi's. */
  lemma DimiBalanceDone(df: Frame, found: seq<string>)
    requires found == FoundColumns(DIMI_BALANCE_COLUMNS, df.columns)
    ensures Filter(df.rows, x => PriceKeeps(df, x) && NoneExpected(df, x, found[..|found|]))
         == Filter(df.rows, x => DimiKeeps(df, x))
  {
    forall x ensures NoneExpected(df, x, found[..|found|]) == NoneExpected(df, x, DIMI_BALANCE_COLUMNS) {
      assert found[..|found|] == found;
      assert forall j :: 0 <= j < |found| ==> found[j] in DIMI_BALANCE_COLUMNS;
      assert forall j :: 0 <= j < |DIMI_BALANCE_COLUMNS| && DIMI_BALANCE_COLUMNS[j] in df.columns ==> DIMI_BALANCE_COLUMNS[j] in found;
    }
    FilterSame(df.rows, x => PriceKeeps(df, x) && NoneExpected(df, x, found[..|found|]), x => DimiKeeps(df, x));
  }

  /** `[col for col in cols if col in columns]`. */
  function FoundColumns(cols: seq<string>, columns: seq<string>): (found: seq<string>)
    ensures forall c :: c in found <==> c in cols && c in columns
    ensures forall j :: 0 <= j < |found| ==> found[j] in columns
  {
    if cols == [] then []
    else (if cols[0] in columns then [cols[0]] else []) + FoundColumns(cols[1..], columns)
  }

  /** `preprocess_supplier_data`: vitya's and dimi's preprocessing by configuration
      name, and the table unchanged for every other configuration. */
  method PreprocessSupplierData(df: Frame, configName: string) returns (processed: Frame)
    requires configName == "vitya" || configName == "dimi" ==> NumericColumn(df, "price_usd")
    ensures configName == "vitya" ==>
      var kept := Filter(df.rows, x => VityaKeeps(df, x));
      Preprocessed(df, kept, "article_vitya", VityaStoredCell(VityaPromotes(df, kept)), VITYA_LABEL, processed)
    ensures configName == "dimi" ==>
      Preprocessed(df, Filter(df.rows, x => DimiKeeps(df, x)), "article_dimi", DimiArticleCell, DIMI_LABEL, processed)
    ensures configName != "vitya" && configName != "dimi" ==> processed == df
  {
    if configName == "vitya" {
      processed := PreprocessVitya(df);
    } else if configName == "dimi" {
      processed := PreprocessDimi(df);
    } else {
      processed := df;
    }
  }

  lemma FilterAll(rows: seq<Row>, keep: Row -> bool)
    requires forall x :: keep(x)
    ensures Filter(rows, keep) == rows
  {
    if rows != [] { FilterAll(rows[1..], keep); }
  }

  lemma FilterSame(rows: seq<Row>, p: Row -> bool, q: Row -> bool)
    requires forall x :: p(x) == q(x)
    ensures Filter(rows, p) == Filter(rows, q)
  {
    if rows != [] { FilterSame(rows[1..], p, q); }
  }

  /** Cleaning the article column and labelling the rows of `kept` gives a
      preprocessed table. */
  lemma LabelledCleaned(df: Frame, kept: Frame, article: string, clean: Cell -> Cell, tag: string)
    requires kept.columns == df.columns
    ensures Preprocessed(df, kept.rows, article, clean, tag,
      SetColumn(MapColumn(kept, article, clean), "supplier_name", Str(tag)))
  {
    var m := MapColumn(kept, article, clean);
    var p := SetColumn(m, "supplier_name", Str(tag));
    forall k, c | 0 <= k < |kept.rows| && c in df.columns && c != article && c != "supplier_name"
      ensures Get(p, p.rows[k], c) == Get(df, kept.rows[k], c)
    {
      SetColumnOther(m, "supplier_name", Str(tag), c, k);
      MapColumnOther(kept, article, clean, c, k);
    }
    if article in df.columns && article != "supplier_name" {
      forall k | 0 <= k < |kept.rows|
        ensures Get(p, p.rows[k], article) == Some(clean(GetOr(df, kept.rows[k], article, Missing)))
      {
        SetColumnOther(m, "supplier_name", Str(tag), article, k);
      }
    }
  }

  /** The article column after vitya's cleaning: the cleaner's cells, turned into
      floats exactly when some kept article cleans to None. */
  lemma VityaArticlesStored(df: Frame, kept: Frame)
    requires kept.columns == df.columns
    ensures var m := MapColumn(kept, "article_vitya", VityaArticleCell);
      && (ColumnHasMissing(m, "article_vitya") <==> VityaPromotes(df, kept.rows))
      && m == MapColumn(kept, "article_vitya", VityaStoredCell(false))
      && MapColumn(m, "article_vitya", AsFloat) == MapColumn(kept, "article_vitya", VityaStoredCell(true))
  {
    MapColumnTwice(kept, "article_vitya", VityaArticleCell, AsFloat, VityaFloatCell);
    CleanedHasMissing(df, kept);
  }

  lemma CleanedHasMissing(df: Frame, kept: Frame)
    requires kept.columns == df.columns
    ensures ColumnHasMissing(MapColumn(kept, "article_vitya", VityaArticleCell), "article_vitya")
        <==> VityaPromotes(df, kept.rows)
  {
    var m := MapColumn(kept, "article_vitya", VityaArticleCell);
    if "article_vitya" in df.columns {
      forall k | 0 <= k < |kept.rows|
        ensures GetOr(m, m.rows[k], "article_vitya", Missing) == VityaArticleCell(GetOr(df, kept.rows[k], "article_vitya", Missing))
      {
        assert Get(m, m.rows[k], "article_vitya") == Some(VityaArticleCell(GetOr(kept, kept.rows[k], "article_vitya", Missing)));
      }
    }
  }

  /** Writing one column leaves every other column's cells as they were. */
  lemma SetColumnOther(f: Frame, name: string, value: Cell, other: string, k: nat)
    requires k < |f.rows| && other in f.columns && other != name
    ensures Get(SetColumn(f, name, value), SetColumn(f, name, value).rows[k], other) == Get(f, f.rows[k], other)
  {
    var r := SetColumn(f, name, value);
    var q := ColumnIndex(f.columns, other).value;
    if name in f.columns {
      assert r.columns == f.columns;
      assert ColumnIndex(f.columns, name).value != q;
    } else {
      assert r.columns == f.columns + [name];
      ColumnIndexPrefix(f.columns, name, other);
    }
  }

  lemma ColumnIndexPrefix(columns: seq<string>, extra: string, name: string)
    requires name in columns
    ensures ColumnIndex(columns + [extra], name) == ColumnIndex(columns, name)
  {
    if columns[0] != name {
      assert (columns + [extra])[1..] == columns[1..] + [extra];
      ColumnIndexPrefix(columns[1..], extra, name);
    }
  }
}
