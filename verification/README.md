# MiStockSync price-list reconciliation, modelled in Dafny

MiStockSync compares a supplier's Excel price list with the shop's base price list.
Before the comparison, a supplier file is preprocessed:

- rows priced at 0.01 or less are dropped;
- rows whose stock balance says the item is not available are dropped;
- the supplier's article numbers are cleaned;
- every row is tagged with the supplier's name.

The comparison itself works like this:

- both tables are indexed by article;
- each supplier article is reported either as a match or as a new item;
- a match carries its price difference and percentage change;
- price changes of more than 5% are listed separately;
- when fewer than 30% of the supplier articles match, product codes found in the item names are matched as well.

The Excel loader prepares each table before the comparison. It reads a sheet and:

1. drops ignored columns;
2. renames headers through the supplier's column mapping;
3. coerces data types;
4. drops empty rows;
5. validates the result.

It also lists the available supplier configurations and caches one loader per configuration. The configuration for a file is chosen from the file name.

A table (`Frames.Frame`) is a list of column labels plus rows. Each row has a pandas index label and a list of cells, and a cell is missing (NaN), a string, an integer or a number.

Layout:

- `wrappers.dfy`: the `Option` type.
- `text.dfy`: character classes, case mapping, `strip`/`split`, substring search, basenames and decimal digits.
- `frames.dfy`: tables, cell lookup, row filters and column updates.
- `odict.dfy`: the insertion-ordered `dict` that the indexing loops build, with the proof that later assignments win.
- `sorting.dfy`: Python's string order and `sorted()`.
- `cleaning.dfy`: the article and text cleaners.
- `preprocess.dfy`: the price filter and the per-supplier preprocessing.
- `codes.dfy`: the product-code regular expressions.
- `code_match.dfy`: matching by product code.
- `comparison.dfy`: the article comparison.
- `config_select.dfy`: choosing the configuration from a file name.
- `loader.dfy`: the Excel loader, its configuration list and its cache.

## Model

| member | source | states |
|---|---|---|
| Cleaning.CleanInvisibleChars | main.py:744-767 | None exactly for NaN or text with no words; otherwise a non-empty string with single spaces between the same words as the stripped input |
| Text.SplitWords | main.py:765 | every piece `split()` returns is non-empty and free of whitespace |
| Text.SplitJoin | main.py:765 | splitting words joined by single spaces gives the words back |
| Cleaning.CleanInvisibleCharsIdempotent | main.py:744-767 | cleaning already cleaned text returns it unchanged |
| Cleaning.ArticleText | main.py:769-780 | None exactly for NaN, blank text or "nan" in any case; otherwise the stripped text |
| Cleaning.Unprefixed | main.py:782-787 | the result is the input without its apostrophes, with one leading "000" of that text possibly removed; no apostrophe is left |
| Cleaning.UnprefixedCounts | main.py:782-787 | only apostrophes and at most the three zeros of the prefix are removed: every other character keeps its count |
| Text.RemoveCharCounts | main.py:783 | `replace(c, "")` removes every `c` and no other character |
| Text.RemoveCharAppend | main.py:783 | `replace(c, "")` works piece by piece, so the remaining characters keep their order |
| Cleaning.CleanArticleVitya | main.py:769-802 | None exactly when the article is NaN, blank or "nan"; otherwise the number formed by the digits of the unprefixed text |
| Cleaning.CleanArticleVityaIdempotent | main.py:769-802 | an article that is already a non-negative integer is kept as that integer |
| Cleaning.VityaArticleCell | main.py:894-900 | the cleaner's value for one article is NaN or a non-negative integer |
| Cleaning.VityaFloatCell | main.py:897-899 | in a cleaned column that also holds NaN, an article is NaN or a non-negative float |
| Preprocess.VityaArticlesStored | main.py:894-900 | the cleaned article column holds the cleaner's integers, turned into floats exactly when some kept article cleans to None |
| Comparison.FloatArticleKey | main.py:582-587 | a vitya article stored as a float keys as its digits followed by ".0", which never equals the key of the same integer |
| Cleaning.CleanArticleDimi | main.py:985-1003 | None when the article is NaN, blank or "nan", or nothing is left once the apostrophes and a leading "000" are removed; otherwise that non-empty, apostrophe-free text |
| Cleaning.DimiArticleCell | main.py:982-1007 | the cleaned article column holds only NaN or non-empty strings without an apostrophe |
| Preprocess.FilterByPrice | main.py:804-857 | the table is unchanged without the price column; otherwise it keeps exactly the rows with a present price above 0.01, in order, with the same columns |
| Preprocess.PriceStep | main.py:867-869 | the price filter of the preprocessing keeps exactly the rows allowed by its price condition |
| Preprocess.PreprocessVitya | main.py:859-924 | the result holds exactly the rows with a price above 0.01 (if priced) and balance "available" (if a balance column exists), in order and keeping their index labels; the header is the input's plus `supplier_name`; the article column holds the vitya cleaner's values (as floats when one of them is None); every row is tagged with vitya's label; every other cell is the input row's |
| Preprocess.PreprocessDimi | main.py:926-1029 | the result holds exactly the rows with a price above 0.01 (if priced) and no present balance column saying "expected", in order and keeping their index labels; the header is the input's plus `supplier_name`; the article column is cleaned by the dimi cleaner; every row is tagged with dimi's label; every other cell is the input row's |
| Preprocess.DimiBalanceStep | main.py:951-953 | each balance column's filter narrows the kept rows by exactly that column's condition |
| Preprocess.FoundColumns | main.py:939-942 | a balance column is checked exactly when the table has it |
| Preprocess.PreprocessSupplierData | main.py:1031-1040 | vitya's and dimi's preprocessing, with their full results (kept rows, header, cleaned articles, tag, untouched cells), are chosen by configuration name; any other configuration leaves the table as it is |
| Preprocess.LabelledCleaned | main.py:894-903 | cleaning the article column and tagging the rows appends `supplier_name` to the header if absent, keeps the row count and index labels, tags every row, cleans every present article and leaves every other cell as it was |
| ProductCodes.MatchEndLongest | main.py:1079-1084 | a match end found at a position is a real match of the pattern there, and no match at that position is longer |
| ProductCodes.FirstMatch | main.py:1086-1090 | a found span is the leftmost match of the pattern and the longest match at its start; when none is found, the pattern matches nowhere |
| ProductCodes.CodeOf | main.py:1079-1092 | None exactly when no pattern matches; otherwise the code comes from the first pattern in priority order that matches |
| ProductCodes.CodeInName | main.py:1068-1092 | a non-string name has no code; a string name is upper-cased and searched with the three patterns in order |
| ProductCodes.CodeIsMatch | main.py:1068-1092 | a found code is a non-empty substring of the upper-cased name matched by one of the patterns; None exactly when no pattern matches anywhere |
| ProductCodes.SixDigitsFirst | main.py:1079-1090 | when the six-or-more-digit word pattern matches somewhere in a name, the code is a match of that pattern starting at or before that place, whatever the other patterns match |
| ProductCodes.CodeOfSkips | main.py:1086-1090 | the patterns before the first matching one do not affect the result |
| ProductCodes.FindProductCodeInName | main.py:1068-1092 | the loop over the patterns returns the code of the name |
| CodeMatching.RowCode | main.py:1105-1108 | a row has a code only when the table has a name column, and then the code is non-empty and is the code of its name |
| CodeMatching.CodeIndexKeys | main.py:1103-1129 | a code is indexed exactly when some row's name yields it |
| CodeMatching.CodeIndexLastRow | main.py:1103-1129 | the index entry for a code holds the index label, name and price of the last row with that code |
| CodeMatching.CodeMatchesSound | main.py:1131-1143 | each code match is a supplier code the base has too, built from the supplier's and the base's name and price for that code; there are no more matches than supplier codes |
| CodeMatching.CodeMatchesComplete | main.py:1131-1143 | every supplier code the base has too is reported |
| CodeMatching.CodeMatchesDistinct | main.py:1131-1143 | distinct supplier codes give matches with distinct codes |
| CodeMatching.MatchCodes | main.py:1131-1143 | the loop returns exactly the code matches of the two code indexes |
| CodeMatching.CodeMatchesExact | main.py:1094-1146 | a code is reported exactly when it occurs in a name of both tables, and no code is reported twice |
| CodeMatching.CodeMatchFromLastRows | main.py:1094-1146 | a reported code carries the name and price of the last supplier row and of the last base row with that code |
| CodeMatching.BuildCodeIndex | main.py:1103-1129 | the loop builds exactly the code index |
| CodeMatching.CompareByProductCode | main.py:1094-1146 | the method returns exactly the code matches of the two tables |
| Comparison.ArticleKey | main.py:582-587 | the key of an article is its stripped text; an integer article becomes its decimal digits |
| Comparison.BuildArticleIndex | main.py:579-616 | the indexing loop fails exactly when it reads a missing base price column; otherwise it builds the dictionary of the last row per valid article |
| OrderedDict.BuildOrRaise | main.py:600-616 | a dictionary-building loop whose assignment raises returns None exactly when some element assigns, and otherwise the dictionary the assignments build |
| OrderedDict.AssignsIffKeys | main.py:579-616 | the loop leaves the dictionary empty exactly when no row has a valid key |
| Comparison.IndexKeys | main.py:579-616 | the keys of an article index are exactly the valid article keys of its rows |
| Comparison.MatchOf | main.py:624-640 | the match carries both prices; the difference is supplier minus base; the percentage is the difference over the base price times 100 when the base price is positive, and 0 otherwise; the name is the supplier's if truthy, else the base's |
| Comparison.SignificantMeans | main.py:635-646 | a match is a price change exactly when the base price is positive and the supplier price is more than 5% above or below it |
| Comparison.MatchesSound | main.py:623-646 | each match is a supplier article the base has too, computed from both entries; there are no more matches than supplier articles |
| Comparison.MatchesComplete | main.py:623-646 | every supplier article the base has too is reported as a match |
| Comparison.MatchesDistinct | main.py:623-646 | distinct supplier articles give matches with distinct articles |
| Comparison.NewItemsSound | main.py:647-654 | each new item is a supplier article missing from the base, with the supplier's price and name |
| Comparison.NewItemsComplete | main.py:647-654 | every supplier article missing from the base is reported as a new item |
| Comparison.HasTextPriceMeans | main.py:629-640 | the analysis raises `TypeError` exactly when some supplier article the base has too meets a text price |
| Comparison.MatchesAndNewItems | main.py:623-654 | every supplier article is counted once, either as a match or as a new item |
| Comparison.PriceChangesExact | main.py:644-646 | the price changes are exactly the significant matches |
| Comparison.PriceChangesInOrder | main.py:642-646 | the price changes are a sub-list of the matches, in the matches' order |
| Comparison.Compare | main.py:543-676 | each outcome is stated both ways, in source order: missing supplier article column, then missing base article column, then `KeyError` for a missing supplier price column, then `KeyError` for the base price column when a base row has a valid key; past those, `TypeError` exactly when a match meets a text price, and a report otherwise |
| Comparison.PerformComparison | main.py:543-676 | the method's outcome is the comparison's, errors included |
| Comparison.AnalyseArticles | main.py:618-654 | the analysis loop fails exactly when a matched price is text; otherwise it yields the matches, the price changes and the new items |
| Comparison.SupplierIndexKeys | main.py:573-598 | an article is in the supplier index exactly when a supplier row with an article and a price gives it as a valid key |
| Comparison.BaseIndexKeys | main.py:577-616 | an article is in the base index exactly when a base row with an article gives it as a valid key |
| Comparison.CompareReport | main.py:618-676 | a successful comparison reports on the supplier and base indexes |
| Comparison.ReportCounts | main.py:623-667 | matches plus new items equal the supplier total, and no article matches twice |
| Comparison.ReportSound | main.py:623-654 | a match is an article of both tables; a new item is an article of the supplier table only |
| Comparison.ReportComplete | main.py:623-654 | every supplier article is reported as a match if the base has it, and as a new item otherwise |
| Comparison.MatchFromLastRows | main.py:579-640 | a match's prices and name come from the last supplier row and the last base row with that article |
| Comparison.IndexFromLastRow | main.py:579-616 | an index entry holds the price (0 for NaN), name and index label of the last row with that article |
| Comparison.MatchRateBounds | main.py:673-675 | the match rate lies between 0 and 100, is 100 exactly when every supplier article matched, and is 0 for an empty supplier index |
| Comparison.RatioBounds | main.py:673-675 | a ratio of at most one, as a percentage, lies between 0 and 100 and reaches 100 only when the counts are equal |
| Comparison.CodeMatchingWhenFewMatches | main.py:656-664 | code matching runs only when fewer than 30% of the supplier articles matched, and then reports exactly the codes found in names of both original tables |
| Comparison.ArticlesNormalised | main.py:587-589 | reported articles are stripped, non-empty and neither "nan" nor "None" |
| ConfigSelection.DetectConfig | main.py:1042-1066 | the file name alone decides, ignoring case: "JHT" means vitya, else "DIMI"/"DIMA" means dimi, else "BASE"/"БАЗА" means base, else auto |
| ConfigSelection.DetectIgnoresDirectory | main.py:1045 | the directories above the file never change the detected configuration |
| ConfigSelection.DetectIgnoresCase | main.py:1045 | two paths that upper-case alike get the same configuration |
| ConfigSelection.SelectedConfig | main.py:1148-1162 | the selection is the detected configuration when the selector offers it, and the current one otherwise |
| ConfigSelection.ConfigSelector.AutoSelectConfig | main.py:1148-1162 | the selector switches to the detected configuration only when it is offered, reports the selection, and keeps the offered list |
| StringOrder.LeTotal | excel_loader/loader.py:53 | any two strings are ordered one way or the other |
| StringOrder.LeTrans | excel_loader/loader.py:53 | string order is transitive |
| StringOrder.LeAntisymmetric | excel_loader/loader.py:53 | strings ordered both ways are equal |
| StringOrder.Sort | excel_loader/loader.py:53 | `sorted` returns a sorted permutation of its input |
| StringOrder.SortedUnique | excel_loader/loader.py:53 | a sorted permutation is unique, so any sorted permutation is `sorted`'s result |
| ExcelLoading.ConfigNamesFromFiles | excel_loader/loader.py:42-51 | a configuration name is listed exactly when it is non-empty and some `*_config.json` file yields it |
| ExcelLoading.AvailableConfigs | excel_loader/loader.py:35-56 | the list of configurations is never empty and is sorted |
| ExcelLoading.AvailableConfigsMeans | excel_loader/loader.py:35-56 | without a directory or configuration files the list is ["default"]; otherwise it is the found names, sorted, and the only sorted arrangement of them |
| ExcelLoading.ExcelLoader.GetAvailableConfigs | excel_loader/loader.py:35-56 | the directory scan returns exactly the available configurations |
| ExcelLoading.LoaderKey | excel_loader/loader.py:28-29 | an empty configuration name stands for "default"; any other name stands for itself |
| ExcelLoading.ExcelLoader.constructor | excel_loader/loader.py:21-33 | a new loader holds the given configuration name (empty meaning "default") and its loaded configuration |
| ExcelLoading.ExcelLoader.SwitchConfig | excel_loader/loader.py:389-392 | the configuration is reloaded only for a non-empty name different from the current one; otherwise nothing changes (the same switch is repeated at excel_loader/loader.py:503-505) |
| ExcelLoading.Positions | excel_loader/loader.py:204-218 | the kept column positions are increasing and are exactly the kept ones |
| ExcelLoading.SelectColumns | excel_loader/loader.py:217-218 | selecting columns keeps every row and its index label, and moves each kept column's labels and cells together |
| ExcelLoading.KeepMask | excel_loader/loader.py:204-215 | a column is kept exactly when no ignore pattern occurs in its lower-cased label |
| ExcelLoading.WithoutIgnored | excel_loader/loader.py:188-221 | an empty table, an empty ignore list or a table with nothing ignored is returned unchanged; rows are never dropped |
| ExcelLoading.WithoutIgnoredColumns | excel_loader/loader.py:188-221 | a label survives exactly when the table had it and no pattern ignores it |
| ExcelLoading.EmptyPatternDropsAll | excel_loader/loader.py:209-218 | an empty ignore pattern occurs in every label, so it drops every column |
| ExcelLoading.ExcelLoader.RemoveIgnoredColumns | excel_loader/loader.py:188-221 | the method removes exactly the ignored columns |
| ExcelLoading.ExcelLoader.CollectIgnored | excel_loader/loader.py:204-215 | the headers to drop are exactly those some pattern occurs in, and the list is empty exactly when no header matches |
| ExcelLoading.ExcelLoader.MatchesIgnorePattern | excel_loader/loader.py:209-215 | the inner loop reports exactly whether some pattern ignores the label |
| ExcelLoading.MappingFor | excel_loader/loader.py:170-180 | the chosen mapping entry is the first whose key equals the header up to case and surrounding space; None means that no key does |
| ExcelLoading.MappedFrame | excel_loader/loader.py:154-186 | renaming keeps rows and column count; an empty table or an empty mapping changes nothing; each label becomes its mapped name or stays |
| ExcelLoading.RenameIgnoresCaseAndSpace | excel_loader/loader.py:178 | headers that differ only in case or surrounding space are renamed alike |
| ExcelLoading.ExcelLoader.ApplyColumnMapping | excel_loader/loader.py:154-186 | the method renames exactly as the mapping prescribes |
| ExcelLoading.ExcelLoader.CollectRenames | excel_loader/loader.py:169-180 | the rename dictionary holds exactly the headers some key matches, each sent to the value of the first matching key |
| ExcelLoading.RenamesMapFrame | excel_loader/loader.py:182-183 | renaming with that dictionary gives the mapped table |
| ExcelLoading.ExcelLoader.FirstMatchingKey | excel_loader/loader.py:174-180 | the inner loop finds exactly the first matching mapping key |
| ExcelLoading.ColumnLabel | excel_loader/loader.py:238-242 | a generated label is non-empty with no surrounding space |
| ExcelLoading.FixedFrame | excel_loader/loader.py:223-247 | fixing labels keeps rows and column count, and leaves an empty table alone |
| ExcelLoading.FixedLabels | excel_loader/loader.py:228-246 | labels without "Unnamed" are kept; an "Unnamed" label becomes non-empty text with no surrounding space |
| ExcelLoading.BlankFirstValueGivesColumnLabel | excel_loader/loader.py:233-242 | an "Unnamed" column whose first value is NaN or blank becomes `Column_<k+1>` |
| ExcelLoading.FirstValueNamesColumn | excel_loader/loader.py:233-237 | an "Unnamed" column that occurs once, with a present, non-blank first value, takes that value's stripped text |
| ExcelLoading.DuplicatedGivesColumnLabel | excel_loader/loader.py:233-242 | a duplicated "Unnamed" column becomes `Column_<k+1>`, through the exception handler |
| ExcelLoading.ExcelLoader.FixUnnamedColumns | excel_loader/loader.py:223-247 | the loop relabels exactly as the fixed table prescribes |
| ExcelLoading.ExcelLoader.FixUnnamedLabel | excel_loader/loader.py:229-244 | the label one column gets is the one the fixed table gives it |
| ExcelLoading.DropEmptyRows | excel_loader/loader.py:463-465 | the columns stay the same, and a row is kept exactly when some cell in it is present |
| ExcelLoading.MissingColumns | excel_loader/loader.py:297-313 | the missing columns are exactly the required ones the table lacks, and the list is empty exactly when all are present |
| ExcelLoading.ValidationPasses | excel_loader/loader.py:288-344 | validation passes exactly for a non-empty table with every required column and no text in a price column |
| ExcelLoading.ExcelLoader.ValidateData | excel_loader/loader.py:288-344 | the method's verdict is the validation's, including the exception from a text price |
| ExcelLoading.ExcelLoader.MissingRequired | excel_loader/loader.py:309-313 | the loop collects exactly the missing required columns |
| ExcelLoading.ExcelLoader.PriceColumnHoldsText | excel_loader/loader.py:321-342 | the loop finds text exactly when some price column holds it |
| ExcelLoading.ExcelLoader.ColumnHoldsText | excel_loader/loader.py:335-338 | the check over a column's cells is exactly "some cell is text" |
| ExcelLoading.DataTyped | excel_loader/loader.py:249-257 | an empty table, or a configuration without data types, is left untouched by the coercion |
| ExcelLoading.LoadedIsValid | excel_loader/loader.py:439-471 | a loaded table comes from a non-empty sheet, is non-empty, has every required column and no text prices, and has no empty row when empty rows are skipped |
| ExcelLoading.IgnoredBeforeRenaming | excel_loader/loader.py:453-458 | every loaded column is the renamed label of a sheet column that was not ignored; ignoring happens before renaming |
| ExcelLoading.MappedColumnSource | excel_loader/loader.py:154-186 | every header of a renamed table is the new label of one of the table's headers |
| ExcelLoading.FallbackLoad | excel_loader/loader.py:83-92 | with the fallback configuration, loading only drops empty rows and validates |
| ExcelLoading.ExcelLoader.LoadExcelFile | excel_loader/loader.py:439-487 | the method loads exactly as the pipeline prescribes, None on every failure |
| ExcelLoading.LoaderSlot | excel_loader/loader.py:558-573 | the cache slot used is the requested name (or "default" for an empty name) or "default", and it is either cached or buildable |
| ExcelLoading.LoaderRegistry.GetLoader | excel_loader/loader.py:555-573 | existing loaders are never replaced; an uncached slot gets a fresh loader for that configuration; the returned loader is the cached one |

## Left out

- The Tkinter user interface, file dialogs, message boxes, logging and report saving are not modelled. Neither is reading Excel files: `pd.read_excel` is replaced by the sheet handed to `LoadExcelFile`.
- Reading a configuration JSON file (`_load_config`, excel_loader/loader.py:58-81) is not modelled. A loaded configuration is a parameter (`loaded`, `configOf`), and "cannot be built" is `configOf` returning None.
- Listing the configuration directory is not modelled either. `GetAvailableConfigs` receives whether the directory exists and the file paths. An exception while listing is not modelled.
- ExcelLoading.DataTyped: `_apply_data_types` (excel_loader/loader.py:249-286) is the parameter `coerce`, because pandas type coercion is outside the model. Only its no-op cases are stated.
- Text: upper- and lower-casing cover ASCII and the basic Cyrillic block only, and `\d` and `isdigit()` accept ASCII digits only; Python's full Unicode case and digit tables are not modelled. For `\b`, only ASCII letters and digits, '_' and the Cyrillic block U+0400–U+045F count as word characters (`Text.IsWordChar`), while Python's `\w` is Unicode. Whitespace for `strip` and `split` is Python's full `str.isspace` set. `Text.Basename` is POSIX `os.path.basename` and splits at '/' only; Windows' `ntpath` also splits at '\\' and after a drive colon, so for a path such as `C:\cfg\vitya_config.json` the source's `detect_config_by_filename` and configuration names can differ from `DetectConfig` and `ConfigNamesFromFiles`.
- ProductCodes.FindProductCodeInName: the `\b` of the pattern `\b\d{6,}\b` uses the restricted word characters of `Text.IsWordChar`. For the name "café123456" the source upper-cases to "CAFÉ123456", finds no boundary between 'É' and the digits and returns None. The model keeps 'é' as it is, does not count it as a word character, and returns "123456".
- ProductCodes.CodeInName: the same `\b` restriction as `FindProductCodeInName`, with the same "café123456" example.
- Frames.Cell: floating point is modelled as exact `real`. The float repr of a number, as text, is a string kept in the cell.
- Cleaning.VityaFloatCell: a float article is given the text of its integer followed by ".0". For articles of 16 or more digits Python prints the float in exponent form, and above 2^53 the float is rounded; neither is modelled. An integer too large for 64 bits makes pandas keep an object column instead of a float one; that is not modelled either.
- Comparison.ArticleKey: `iterrows` upcasts a row whose cells are all numbers to floats, so an integer article in such a row keys with ".0". The model reads each cell as its column stores it. A preprocessed supplier table always has the text column `supplier_name`, so this only concerns a base table made of numbers alone.
- Comparison.FewMatches compares against exactly 30%. In IEEE doubles `n * 0.3` can lie slightly above `0.3 * n`, for example 3.0000000000000004 for n = 10. So at exactly 30% matched the source may still run code matching where the model does not.
- Frames: column labels are strings and are assumed distinct except where `_fix_unnamed_columns` deals with duplicates. pandas' behaviour for duplicate labels and non-string labels is not modelled.
- Preprocess.FilterByPrice and the preprocessing methods require the price column to hold numbers. pandas would raise `TypeError` on comparing text with a number, and that error path is not modelled.
- Preprocess: the statistics that `filter_by_price` only logs (main.py:830-855) are not modelled.
- ExcelLoading.ExcelLoader.FixUnnamedColumns returns a new table. The source assigns `df.columns` in place, so the caller's table is relabelled as well; that aliasing is not modelled. The source no longer calls this step from the loading pipeline (excel_loader/loader.py:451-452), and the model follows that.
- ExcelLoading.ExcelLoader.ValidateData: the minimum and maximum price checks of `_validate_data` only log warnings, so they are not modelled. The `Raised` verdict stands for the exception that a text price raises, which `_load_excel_file` turns into None.
- Error message texts are not modelled: `Comparison.ArticleColumnMissing` records only the side and the column.
- ExcelLoading.LoaderRegistry.GetLoader: a cached loader can later switch its configuration through `SwitchConfig`, so a cache key need not match its loader's current configuration. The model states this per call and does not track it across calls. A failure to build the "default" loader, which makes the source raise, is modelled as None.
- ConfigSelection.ConfigSelector.AutoSelectConfig: the combo-box event and the log line are not modelled.
