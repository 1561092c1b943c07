/** The Excel loader (excel_loader/loader.py): the header clean-up applied to a sheet
    once it is read (ignored columns, renaming, repair of "Unnamed" headers), the
    validation of the result, the order of the load pipeline, the list of available
    configurations, and the per-name cache of loaders. */
module ExcelLoading {
  import opened Wrappers
  import opened Text
  import opened Frames
  import opened StringOrder

  /** A supplier configuration (one `*_config.json`).  The mapping and the data types
      keep the order of the JSON object; `skipEmptyRows` is `settings.skip_empty_rows`
      (true when absent). */
  datatype Config = Config(
    supplierName: string,
    columnMapping: seq<(string, string)>,
    ignoreColumns: seq<string>,
    skipEmptyRows: bool,
    dataTypes: seq<(string, string)>,
    requiredColumns: seq<string>)

  /** `_get_fallback_config`: the configuration used when no configuration file can be
      read. */
  function FallbackConfig(): Config {
    Config("Резервная", [], [], true, [], [])
  }

  // ---------------------------------------------------------------- column selection

  /** The positions whose mask entry is true, in increasing order. */
  function Positions(keep: seq<bool>): (ks: seq<nat>)
    ensures |ks| <= |keep|
    ensures forall t :: 0 <= t < |ks| ==> ks[t] < |keep| && keep[ks[t]]
    ensures forall t, u :: 0 <= t < u < |ks| ==> ks[t] < ks[u]
    ensures forall k :: 0 <= k < |keep| && keep[k] ==> k in ks
  {
    if keep == [] then []
    else
      var n := |keep| - 1;
      var init := Positions(keep[..n]);
      init + (if keep[n] then [n] else [])
  }

  /** The table restricted to the columns whose mask entry is true: each kept column
      keeps its label and its cells, and the kept columns keep their order. */
  function SelectColumns(f: Frame, keep: seq<bool>): (r: Frame)
    requires |keep| == |f.columns|
    ensures var ks := Positions(keep);
      && |r.columns| == |ks|
      && (forall t :: 0 <= t < |ks| ==> r.columns[t] == f.columns[ks[t]])
      && |r.rows| == |f.rows|
      && (forall i :: 0 <= i < |r.rows| ==> r.rows[i].index == f.rows[i].index && |r.rows[i].cells| == |ks|)
      && (forall i, t :: 0 <= i < |r.rows| && 0 <= t < |ks| ==> r.rows[i].cells[t] == CellAt(f.rows[i], ks[t]))
  {
    var ks := Positions(keep);
    Frame(
      seq(|ks|, t requires 0 <= t < |ks| => f.columns[ks[t]]),
      seq(|f.rows|, i requires 0 <= i < |f.rows| =>
        Row(f.rows[i].index, seq(|ks|, t requires 0 <= t < |ks| => CellAt(f.rows[i], ks[t])))))
  }

  /** The labels a selection keeps are exactly the labels at kept positions. */
  lemma SelectedLabels(f: Frame, keep: seq<bool>, c: string)
    requires |keep| == |f.columns|
    ensures c in SelectColumns(f, keep).columns <==>
      exists k :: 0 <= k < |f.columns| && keep[k] && f.columns[k] == c
  {
    var r := SelectColumns(f, keep);
    var ks := Positions(keep);
    if c in r.columns {
      var t :| 0 <= t < |r.columns| && r.columns[t] == c;
      assert keep[ks[t]] && f.columns[ks[t]] == c;
    }
    if exists k :: 0 <= k < |f.columns| && keep[k] && f.columns[k] == c {
      var k :| 0 <= k < |f.columns| && keep[k] && f.columns[k] == c;
      var t :| 0 <= t < |ks| && ks[t] == k;
      assert r.columns[t] == c;
    }
  }

  // ---------------------------------------------------------------- ignored columns

  /** Some ignore pattern occurs in the label, both lower-cased. */
  predicate Ignored(ignore: seq<string>, header: string) {
    exists j :: 0 <= j < |ignore| && Contains(Lower(header), Lower(ignore[j]))
  }

  function KeepMask(ignore: seq<string>, columns: seq<string>): (keep: seq<bool>)
    ensures |keep| == |columns|
    ensures forall k :: 0 <= k < |columns| ==> keep[k] == !Ignored(ignore, columns[k])
  {
    seq(|columns|, k requires 0 <= k < |columns| => !Ignored(ignore, columns[k]))
  }

  predicate SomeIgnored(ignore: seq<string>, columns: seq<string>) {
    exists k :: 0 <= k < |columns| && Ignored(ignore, columns[k])
  }

  lemma SomeIgnoredSnoc(ignore: seq<string>, columns: seq<string>, i: nat)
    requires i < |columns|
    ensures SomeIgnored(ignore, columns[..i + 1]) <==> SomeIgnored(ignore, columns[..i]) || Ignored(ignore, columns[i])
  {
    if SomeIgnored(ignore, columns[..i + 1]) {
      var k :| 0 <= k < i + 1 && Ignored(ignore, columns[..i + 1][k]);
      if k < i {
        assert columns[..i][k] == columns[..i + 1][k];
      }
    }
    if SomeIgnored(ignore, columns[..i]) {
      var k :| 0 <= k < i && Ignored(ignore, columns[..i][k]);
      assert columns[..i + 1][k] == columns[..i][k];
    }
    if Ignored(ignore, columns[i]) {
      assert columns[..i + 1][i] == columns[i];
    }
  }

  /** `_remove_ignored_columns` as a value: an empty table, an empty ignore list or a
      header in which nothing is ignored leaves the table as it is. */
  function WithoutIgnored(ignore: seq<string>, f: Frame): (r: Frame)
    ensures Empty(f) || ignore == [] || !SomeIgnored(ignore, f.columns) ==> r == f
    ensures |r.rows| == |f.rows|
  {
    if Empty(f) || ignore == [] || !SomeIgnored(ignore, f.columns) then f
    else SelectColumns(f, KeepMask(ignore, f.columns))
  }

  /** The columns kept are exactly the columns containing no ignore pattern. */
  lemma WithoutIgnoredColumns(ignore: seq<string>, f: Frame, c: string)
    requires !Empty(f)
    ensures c in WithoutIgnored(ignore, f).columns <==> c in f.columns && !Ignored(ignore, c)
  {
    if ignore != [] && SomeIgnored(ignore, f.columns) {
      SelectedLabels(f, KeepMask(ignore, f.columns), c);
    }
  }

  /** An empty pattern occurs in every label, so it drops every column. */
  lemma EmptyPatternDropsAll(ignore: seq<string>, f: Frame)
    requires !Empty(f) && "" in ignore
    ensures WithoutIgnored(ignore, f).columns == []
  {
    var j :| 0 <= j < |ignore| && ignore[j] == "";
    forall k | 0 <= k < |f.columns| ensures Ignored(ignore, f.columns[k]) {
      assert OccursAt(Lower(f.columns[k]), Lower(ignore[j]), 0);
    }
    assert Ignored(ignore, f.columns[0]);
    NoPositions(KeepMask(ignore, f.columns));
  }

  lemma {:induction false} NoPositions(keep: seq<bool>)
    requires forall k :: 0 <= k < |keep| ==> !keep[k]
    ensures Positions(keep) == []
  {
    if keep != [] {
      NoPositions(keep[..|keep| - 1]);
    }
  }

  // ---------------------------------------------------------------- column mapping

  /** A header compared the way the mapping compares it: `str(x).lower().strip()`. */
  function Normalise(header: string): string {
    Strip(Lower(header))
  }

  /** The mapping's keys, normalised. */
  function NormalisedKeys(mapping: seq<(string, string)>): (keys: seq<string>)
    ensures |keys| == |mapping|
    ensures forall t :: 0 <= t < |mapping| ==> keys[t] == Normalise(mapping[t].0)
  {
    seq(|mapping|, t requires 0 <= t < |mapping| => Normalise(mapping[t].0))
  }

  /** The first position from `t` on holding `key`. */
  function KeyIndex(keys: seq<string>, key: string, t: nat): (j: Option<nat>)
    requires t <= |keys|
    ensures j.Some? ==> t <= j.value < |keys| && keys[j.value] == key
    ensures j.Some? ==> forall u :: t <= u < j.value ==> keys[u] != key
    ensures j.None? ==> forall u :: t <= u < |keys| ==> keys[u] != key
    decreases |keys| - t
  {
    if t == |keys| then None
    else if keys[t] == key then Some(t)
    else KeyIndex(keys, key, t + 1)
  }

  /** The first mapping entry whose key matches `header`. */
  function MappingFor(mapping: seq<(string, string)>, header: string): (j: Option<nat>)
    ensures j.Some? ==> j.value < |mapping| && Normalise(mapping[j.value].0) == Normalise(header)
    ensures j.Some? ==> forall t :: 0 <= t < j.value ==> Normalise(mapping[t].0) != Normalise(header)
    ensures j.None? ==> forall t :: 0 <= t < |mapping| ==> Normalise(mapping[t].0) != Normalise(header)
  {
    KeyIndex(NormalisedKeys(mapping), Normalise(header), 0)
  }

  /** The label a header gets: the value of the first matching key, or itself. */
  function RenamedLabel(mapping: seq<(string, string)>, header: string): string {
    match MappingFor(mapping, header)
    case None => header
    case Some(j) => mapping[j].1
  }

  /** `_apply_column_mapping` as a value: every header is renamed on its own, so the
      number and order of the columns and all rows stay as they are. */
  function MappedFrame(mapping: seq<(string, string)>, f: Frame): (r: Frame)
    ensures r.rows == f.rows && |r.columns| == |f.columns|
    ensures Empty(f) || mapping == [] ==> r == f
    ensures !Empty(f) ==> forall k :: 0 <= k < |f.columns| ==> r.columns[k] == RenamedLabel(mapping, f.columns[k])
  {
    if Empty(f) || mapping == [] then f
    else Frame(seq(|f.columns|, k requires 0 <= k < |f.columns| => RenamedLabel(mapping, f.columns[k])), f.rows)
  }

  /** `df.rename(columns=renames)` on the header. */
  function ApplyRenames(columns: seq<string>, renames: map<string, string>): (r: seq<string>)
    ensures |r| == |columns|
  {
    seq(|columns|, k requires 0 <= k < |columns| => if columns[k] in renames then renames[columns[k]] else columns[k])
  }

  /** Renaming with the dictionary of every matched header gives the mapped frame. */
  lemma RenamesMapFrame(mapping: seq<(string, string)>, f: Frame, renames: map<string, string>)
    requires !Empty(f) && mapping != []
    requires forall c :: c in renames <==> c in f.columns && MappingFor(mapping, c).Some?
    requires forall c :: c in renames ==> renames[c] == RenamedLabel(mapping, c)
    ensures Frame(ApplyRenames(f.columns, renames), f.rows) == MappedFrame(mapping, f)
  {
    var r := ApplyRenames(f.columns, renames);
    forall k | 0 <= k < |f.columns| ensures r[k] == RenamedLabel(mapping, f.columns[k]) {
      assert f.columns[k] in f.columns;
    }
  }

  /** Renaming ignores case and surrounding whitespace: two headers that normalise
      alike get the same new label when some key matches them. */
  lemma RenameIgnoresCaseAndSpace(mapping: seq<(string, string)>, a: string, b: string)
    requires Normalise(a) == Normalise(b)
    requires MappingFor(mapping, a).Some?
    ensures RenamedLabel(mapping, a) == RenamedLabel(mapping, b)
  {
  }


  // ---------------------------------------------------------------- "Unnamed" headers

  /** The label occurs at some other position too. */
  predicate Duplicated(columns: seq<string>, k: nat)
    requires k < |columns|
  {
    exists l :: 0 <= l < |columns| && l != k && columns[l] == columns[k]
  }

  /** The text `f"Column_{k}"`. */
  function ColumnLabel(k: nat): (s: string)
    ensures s != [] && !IsSpace(s[0]) && !IsSpace(s[|s| - 1])
  {
    var digits := NatToString(k);
    assert IsDigit(digits[|digits| - 1]);
    "Column_" + digits
  }

  /** The new label of column `k` (1-based number `k + 1`): an "Unnamed" header takes
      the stripped text of its first value when that value is present and not blank,
      and `Column_<k + 1>` otherwise; every other header is kept.  A duplicated label
      makes `df[col]` a table, whose truth value raises, and the handler picks
      `Column_<k + 1>`. */
  function FixedLabel(f: Frame, k: nat): string
    requires k < |f.columns| && |f.rows| > 0
  {
    var col := f.columns[k];
    if Contains(col, "Unnamed") then
      var v := CellAt(f.rows[0], k);
      if !Duplicated(f.columns, k) && !v.Missing? && Strip(CellText(v)) != [] then Strip(CellText(v))
      else ColumnLabel(k + 1)
    else col
  }

  /** `_fix_unnamed_columns` as a value. */
  function FixedFrame(f: Frame): (r: Frame)
    ensures r.rows == f.rows && |r.columns| == |f.columns|
    ensures Empty(f) ==> r == f
  {
    if Empty(f) then f
    else Frame(seq(|f.columns|, k requires 0 <= k < |f.columns| => FixedLabel(f, k)), f.rows)
  }

  /** Only "Unnamed" headers change, and each becomes a non-empty label with no
      surrounding whitespace. */
  lemma FixedLabels(f: Frame, k: nat)
    requires k < |f.columns|
    ensures var c := FixedFrame(f).columns[k];
      && (!Contains(f.columns[k], "Unnamed") ==> c == f.columns[k])
      && (!Empty(f) && Contains(f.columns[k], "Unnamed") ==> c != [] && !IsSpace(c[0]) && !IsSpace(c[|c| - 1]))
  {
  }

  /** A blank or missing first value gives the positional label. */
  lemma BlankFirstValueGivesColumnLabel(f: Frame, k: nat)
    requires !Empty(f) && k < |f.columns| && Contains(f.columns[k], "Unnamed")
    requires CellAt(f.rows[0], k).Missing? || Strip(CellText(CellAt(f.rows[0], k))) == []
    ensures FixedFrame(f).columns[k] == "Column_" + NatToString(k + 1)
  {
  }

  /** A present, non-blank first value names an "Unnamed" header that occurs once:
      the header becomes that value's stripped text. */
  lemma FirstValueNamesColumn(f: Frame, k: nat)
    requires !Empty(f) && k < |f.columns| && Contains(f.columns[k], "Unnamed")
    requires !Duplicated(f.columns, k)
    requires !CellAt(f.rows[0], k).Missing? && Strip(CellText(CellAt(f.rows[0], k))) != []
    ensures FixedFrame(f).columns[k] == Strip(CellText(CellAt(f.rows[0], k)))
  {
  }

  /** A duplicated "Unnamed" header gets the positional label whatever its first value,
      because reading its column raises. */
  lemma DuplicatedGivesColumnLabel(f: Frame, k: nat)
    requires !Empty(f) && k < |f.columns| && Contains(f.columns[k], "Unnamed")
    requires Duplicated(f.columns, k)
    ensures FixedFrame(f).columns[k] == "Column_" + NatToString(k + 1)
  {
  }

  // ---------------------------------------------------------------- empty rows

  /** Some cell of the row under the header is present. */
  function HasValue(n: nat): Row -> bool {
    r => exists k :: 0 <= k < n && !CellAt(r, k).Missing?
  }

  /** `df.dropna(how="all")`. */
  function DropEmptyRows(f: Frame): (r: Frame)
    ensures r.columns == f.columns
    ensures forall x :: x in r.rows <==> x in f.rows && exists k :: 0 <= k < |f.columns| && !CellAt(x, k).Missing?
  {
    FilterFrame(f, HasValue(|f.columns|))
  }

  // ---------------------------------------------------------------- validation

  /** What `_validate_data` does: return True, return False, or raise. */
  datatype Verdict = Passed | Failed | Raised

  /** The required columns missing from the header, in order. */
  function MissingColumns(required: seq<string>, columns: seq<string>): (m: seq<string>)
    ensures |m| <= |required|
    ensures forall c :: c in m <==> c in required && c !in columns
    ensures m == [] <==> forall c :: c in required ==> c in columns
  {
    if required == [] then []
    else
      var n := |required| - 1;
      assert required == required[..n] + [required[n]];
      MissingColumns(required[..n], columns) + (if required[n] !in columns then [required[n]] else [])
  }

  /** A header naming a price: "price" occurs in it, lower-cased. */
  predicate IsPriceLabel(header: string) {
    Contains(Lower(header), "price")
  }

  /** Some row holds text in column `c`. */
  predicate HoldsText(f: Frame, c: string) {
    exists i :: 0 <= i < |f.rows| && GetOr(f, f.rows[i], c, Missing).Str?
  }

  /** Among the first `n` columns, a price column holds text: comparing it with the
      price bounds raises `TypeError`. */
  predicate TextPriceBefore(f: Frame, n: nat)
    requires n <= |f.columns|
  {
    exists k :: 0 <= k < n && IsPriceLabel(f.columns[k]) && HoldsText(f, f.columns[k])
  }

  predicate TextInPriceColumn(f: Frame) {
    TextPriceBefore(f, |f.columns|)
  }

  /** `_validate_data` as a value: an empty table or a missing required column fails;
      then a price column holding text raises.  Prices outside `price_min` ..
      `price_max` only log a warning, so they never change the verdict. */
  function Validation(required: seq<string>, f: Frame): Verdict {
    if Empty(f) then Failed
    else if MissingColumns(required, f.columns) != [] then Failed
    else if TextInPriceColumn(f) then Raised
    else Passed
  }

  /** The table passes exactly when it is not empty, has every required column and no
      price column holding text. */
  lemma ValidationPasses(required: seq<string>, f: Frame)
    ensures Validation(required, f) == Passed <==>
      && !Empty(f)
      && (forall c :: c in required ==> c in f.columns)
      && !TextInPriceColumn(f)
  {
  }

  // ---------------------------------------------------------------- the pipeline

  /** `_apply_data_types`: an empty table or a configuration without data types is left
      alone; otherwise the pandas coercion `coerce` is applied. */
  function DataTyped(config: Config, f: Frame, coerce: Frame -> Frame): (r: Frame)
    ensures Empty(f) || config.dataTypes == [] ==> r == f
  {
    if Empty(f) || config.dataTypes == [] then f else coerce(f)
  }

  /** The table before validation: ignored columns removed from the original header,
      then renaming, then type coercion, then (when configured) empty rows dropped. */
  function Prepared(config: Config, sheet: Frame, coerce: Frame -> Frame): Frame {
    var pruned := WithoutIgnored(config.ignoreColumns, sheet);
    var renamed := MappedFrame(config.columnMapping, pruned);
    var typed := DataTyped(config, renamed, coerce);
    if config.skipEmptyRows then DropEmptyRows(typed) else typed
  }

  /** `_load_excel_file` after `read_excel`: None for an empty sheet, and None when
      validation fails or raises. */
  function Loaded(config: Config, sheet: Frame, coerce: Frame -> Frame): Option<Frame> {
    if Empty(sheet) then None
    else
      var prepared := Prepared(config, sheet, coerce);
      if Validation(config.requiredColumns, prepared) == Passed then Some(prepared) else None
  }

  /** A loaded table is not empty, has every required column, no price column holding
      text and, when empty rows are skipped, no row without a value. */
  lemma LoadedIsValid(config: Config, sheet: Frame, coerce: Frame -> Frame)
    requires Loaded(config, sheet, coerce).Some?
    ensures var f := Loaded(config, sheet, coerce).value;
      && !Empty(sheet) && !Empty(f)
      && (forall c :: c in config.requiredColumns ==> c in f.columns)
      && !TextInPriceColumn(f)
      && (config.skipEmptyRows ==> forall x :: x in f.rows ==> exists k :: 0 <= k < |f.columns| && !CellAt(x, k).Missing?)
  {
    ValidationPasses(config.requiredColumns, Prepared(config, sheet, coerce));
  }

  /** Ignoring works on the original headers: when the coercion keeps the header, every
      loaded column is the renamed label of an original column that no pattern
      ignores. */
  lemma IgnoredBeforeRenaming(config: Config, sheet: Frame, coerce: Frame -> Frame, c: string)
    requires forall g :: coerce(g).columns == g.columns
    requires Loaded(config, sheet, coerce).Some? && c in Loaded(config, sheet, coerce).value.columns
    ensures exists k ::
      && 0 <= k < |sheet.columns|
      && !Ignored(config.ignoreColumns, sheet.columns[k])
      && c == RenamedLabel(config.columnMapping, sheet.columns[k])
  {
    var pruned := WithoutIgnored(config.ignoreColumns, sheet);
    var renamed := MappedFrame(config.columnMapping, pruned);
    assert DataTyped(config, renamed, coerce).columns == renamed.columns;
    assert c in renamed.columns;
    var h := MappedColumnSource(config.columnMapping, pruned, c);
    WithoutIgnoredColumns(config.ignoreColumns, sheet, h);
    var k :| 0 <= k < |sheet.columns| && sheet.columns[k] == h;
  }

  /** A header of the renamed table is the new label of a header of the table. */
  lemma MappedColumnSource(mapping: seq<(string, string)>, f: Frame, c: string) returns (h: string)
    requires !Empty(f) || mapping == []
    requires c in MappedFrame(mapping, f).columns
    ensures h in f.columns && c == RenamedLabel(mapping, h)
  {
    var r := MappedFrame(mapping, f);
    var t :| 0 <= t < |r.columns| && r.columns[t] == c;
    h := f.columns[t];
    if mapping == [] {
      assert c == h;
    }
  }

  /** With the fallback configuration nothing is removed, renamed or required: a sheet
      loads as itself without its empty rows, unless that is empty or holds text in a
      price column. */
  lemma FallbackLoad(sheet: Frame, coerce: Frame -> Frame)
    ensures var d := DropEmptyRows(sheet);
      Loaded(FallbackConfig(), sheet, coerce) ==
        if Empty(sheet) || Empty(d) || TextInPriceColumn(d) then None else Some(d)
  {
    if !Empty(sheet) {
      ValidationPasses([], DropEmptyRows(sheet));
    }
  }

  // ---------------------------------------------------------------- configurations

  /** The configuration name of a file: its basename with every "_config.json"
      removed. */
  function ConfigNameOf(path: string): string {
    RemoveAll(Basename(path), "_config.json")
  }

  /** The name of every file, in the order the files are listed. */
  function Names(paths: seq<string>): (names: seq<string>)
    ensures |names| == |paths|
    ensures forall i :: 0 <= i < |paths| ==> names[i] == ConfigNameOf(paths[i])
  {
    seq(|paths|, i requires 0 <= i < |paths| => ConfigNameOf(paths[i]))
  }

  lemma NamesStep(paths: seq<string>, i: nat)
    requires i < |paths|
    ensures NonEmpty(Names(paths)[..i + 1])
         == NonEmpty(Names(paths)[..i]) + (if ConfigNameOf(paths[i]) != [] then [ConfigNameOf(paths[i])] else [])
  {
    assert Names(paths)[..i + 1][..i] == Names(paths)[..i];
  }

  /** The non-empty names, in order. */
  function NonEmpty(names: seq<string>): (r: seq<string>)
    ensures |r| <= |names|
    ensures forall t :: 0 <= t < |r| ==> r[t] != []
  {
    if names == [] then []
    else
      var m := |names| - 1;
      NonEmpty(names[..m]) + (if names[m] != [] then [names[m]] else [])
  }

  lemma {:induction false} NonEmptyMembers(names: seq<string>, n: string)
    ensures n in NonEmpty(names) <==> n != [] && n in names
  {
    if names != [] {
      var m := |names| - 1;
      NonEmptyMembers(names[..m], n);
      assert names == names[..m] + [names[m]];
    }
  }

  /** The configuration names the files give, in the order the files are listed. */
  function ConfigNames(paths: seq<string>): seq<string> {
    NonEmpty(Names(paths))
  }

  /** A name is listed exactly when it is non-empty and some file gives it. */
  lemma ConfigNamesFromFiles(paths: seq<string>, n: string)
    ensures n in ConfigNames(paths) <==> n != [] && exists i :: 0 <= i < |paths| && ConfigNameOf(paths[i]) == n
  {
    NonEmptyMembers(Names(paths), n);
    if n in Names(paths) {
      var i :| 0 <= i < |paths| && Names(paths)[i] == n;
    }
    if exists i :: 0 <= i < |paths| && ConfigNameOf(paths[i]) == n {
      var i :| 0 <= i < |paths| && ConfigNameOf(paths[i]) == n;
      assert Names(paths)[i] == n;
    }
  }

  /** `get_available_configs` over the configuration files found (`paths`); without
      a configuration directory, or without a usable name, the list is `["default"]`. */
  function AvailableConfigs(dirExists: bool, paths: seq<string>): (names: seq<string>)
    ensures names != []
    ensures Sorted(names)
  {
    if !dirExists then ["default"]
    else
      var found := ConfigNames(paths);
      if found == [] then ["default"] else Sort(found)
  }

  /** The list holds every derived name once per file, sorted, and is the only sorted
      arrangement of those names; it is `["default"]` exactly when no name is found. */
  lemma AvailableConfigsMeans(dirExists: bool, paths: seq<string>, other: seq<string>)
    ensures var found := ConfigNames(paths);
      && (!dirExists || found == [] ==> AvailableConfigs(dirExists, paths) == ["default"])
      && (dirExists && found != [] ==> multiset(AvailableConfigs(dirExists, paths)) == multiset(found))
      && (dirExists && found != [] && Sorted(other) && multiset(other) == multiset(found) ==>
            other == AvailableConfigs(dirExists, paths))
  {
    var found := ConfigNames(paths);
    if dirExists && found != [] && Sorted(other) && multiset(other) == multiset(found) {
      SortedUnique(other, Sort(found));
    }
  }

  // ---------------------------------------------------------------- the loader

  /** `config_name or "default"`. */
  function LoaderKey(name: string): (key: string)
    ensures key != []
    ensures name != [] ==> key == name
  {
    if name == [] then "default" else name
  }

  /** `ExcelLoaderEnhanced`: the name of its configuration and the configuration itself. */
  class ExcelLoader {
    var configName: string
    var config: Config

    /** `loaded` is what `_load_config` returned for the name. */
    constructor(name: string, loaded: Config)
      ensures configName == LoaderKey(name) && config == loaded
    {
      configName := LoaderKey(name);
      config := loaded;
    }

    /** Switching to another configuration before loading: a non-empty name different
        from the current one replaces both fields; anything else changes nothing. */
    method SwitchConfig(name: string, loaded: Config)
      modifies this
      ensures name != [] && name != old(configName) ==> configName == name && config == loaded
      ensures !(name != [] && name != old(configName)) ==> configName == old(configName) && config == old(config)
    {
      if name != [] && name != configName {
        configName := name;
        config := loaded;
      }
    }

    /** `_apply_column_mapping`. */
    method ApplyColumnMapping(df: Frame) returns (r: Frame)
      ensures r == MappedFrame(config.columnMapping, df)
    {
      if Empty(df) || config.columnMapping == [] {
        return df;
      }
      var renames := CollectRenames(df.columns);
      RenamesMapFrame(config.columnMapping, df, renames);
      r := Frame(ApplyRenames(df.columns, renames), df.rows);
    }

    /** The loop of `_apply_column_mapping` that builds `rename_dict`: every header some
        key matches, sent to its new label. */
    method CollectRenames(columns: seq<string>) returns (renames: map<string, string>)
      ensures forall c :: c in renames <==> c in columns && MappingFor(config.columnMapping, c).Some?
      ensures forall c :: c in renames ==> renames[c] == RenamedLabel(config.columnMapping, c)
    {
      renames := map[];
      var i := 0;
      while i < |columns|
        invariant 0 <= i <= |columns|
        invariant forall c :: c in renames <==> c in columns[..i] && MappingFor(config.columnMapping, c).Some?
        invariant forall c :: c in renames ==> renames[c] == RenamedLabel(config.columnMapping, c)
      {
        var col := columns[i];
        var j := FirstMatchingKey(col);
        if j.Some? {
          renames := renames[col := config.columnMapping[j.value].1];
        }
        assert columns[..i + 1] == columns[..i] + [col];
        i := i + 1;
      }
      assert columns[..i] == columns;
    }

    /** The inner loop of `_apply_column_mapping`: the first key matching `col`. */
    method FirstMatchingKey(col: string) returns (j: Option<nat>)
      ensures j == MappingFor(config.columnMapping, col)
    {
      var m := config.columnMapping;
      var t := 0;
      while t < |m|
        invariant 0 <= t <= |m|
        invariant MappingFor(m, col) == KeyIndex(NormalisedKeys(m), Normalise(col), t)
      {
        assert NormalisedKeys(m)[t] == Normalise(m[t].0);
        if Normalise(col) == Normalise(m[t].0) {
          return Some(t);
        }
        t := t + 1;
      }
      return None;
    }

    /** `_remove_ignored_columns`. */
    method RemoveIgnoredColumns(df: Frame) returns (r: Frame)
      ensures r == WithoutIgnored(config.ignoreColumns, df)
    {
      var ignore := config.ignoreColumns;
      if Empty(df) || ignore == [] {
        return df;
      }
      var drop := CollectIgnored(df.columns);
      if drop == [] {
        return df;
      }
      var keep := seq(|df.columns|, k requires 0 <= k < |df.columns| => df.columns[k] !in drop);
      assert keep == KeepMask(ignore, df.columns);
      r := SelectColumns(df, keep);
    }

    /** The loop of `_remove_ignored_columns` that lists the headers to drop: those
        some pattern occurs in, and none when no pattern occurs anywhere. */
    method CollectIgnored(columns: seq<string>) returns (drop: seq<string>)
      ensures forall c :: c in drop <==> c in columns && Ignored(config.ignoreColumns, c)
      ensures drop == [] <==> !SomeIgnored(config.ignoreColumns, columns)
    {
      var ignore := config.ignoreColumns;
      drop := [];
      var i := 0;
      while i < |columns|
        invariant 0 <= i <= |columns|
        invariant forall c :: c in drop <==> c in columns[..i] && Ignored(ignore, c)
        invariant drop == [] <==> !SomeIgnored(ignore, columns[..i])
      {
        var col := columns[i];
        var ignored := MatchesIgnorePattern(col);
        if ignored {
          drop := drop + [col];
        }
        assert columns[..i + 1] == columns[..i] + [col];
        SomeIgnoredSnoc(ignore, columns, i);
        i := i + 1;
      }
      assert columns[..i] == columns;
    }

    /** The inner loop of `_remove_ignored_columns`: does some pattern occur in `col`? */
    method MatchesIgnorePattern(col: string) returns (b: bool)
      ensures b == Ignored(config.ignoreColumns, col)
    {
      var ignore := config.ignoreColumns;
      var t := 0;
      while t < |ignore|
        invariant 0 <= t <= |ignore|
        invariant forall j :: 0 <= j < t ==> !Contains(Lower(col), Lower(ignore[j]))
      {
        if Contains(Lower(col), Lower(ignore[t])) {
          return true;
        }
        t := t + 1;
      }
      return false;
    }

    /** `_fix_unnamed_columns` (not called by the pipeline). */
    method FixUnnamedColumns(df: Frame) returns (r: Frame)
      ensures r == FixedFrame(df)
    {
      if Empty(df) {
        return df;
      }
      var newColumns: seq<string> := [];
      var i := 0;
      while i < |df.columns|
        invariant 0 <= i <= |df.columns|
        invariant |newColumns| == i
        invariant forall k :: 0 <= k < i ==> newColumns[k] == FixedLabel(df, k)
      {
        var newName := FixUnnamedLabel(df, i);
        newColumns := newColumns + [newName];
        i := i + 1;
      }
      r := Frame(newColumns, df.rows);
      assert r.columns == FixedFrame(df).columns;
    }

    /** The loop body of `_fix_unnamed_columns` for column `i`. */
    method FixUnnamedLabel(df: Frame, i: nat) returns (newName: string)
      requires !Empty(df) && i < |df.columns|
      ensures newName == FixedLabel(df, i)
    {
      var col := df.columns[i];
      if Contains(col, "Unnamed") {
        var first := CellAt(df.rows[0], i);
        if !Duplicated(df.columns, i) && !first.Missing? && Strip(CellText(first)) != [] {
          newName := Strip(CellText(first));
        } else {
          newName := ColumnLabel(i + 1);
        }
      } else {
        newName := col;
      }
    }

    /** `_validate_data`. */
    method ValidateData(df: Frame) returns (v: Verdict)
      ensures v == Validation(config.requiredColumns, df)
    {
      if Empty(df) {
        return Failed;
      }
      var missing := MissingRequired(df);
      if missing != [] {
        return Failed;
      }
      var text := PriceColumnHoldsText(df);
      if text {
        return Raised;
      }
      return Passed;
    }

    /** The loop collecting `missing_columns`. */
    method MissingRequired(df: Frame) returns (missing: seq<string>)
      ensures missing == MissingColumns(config.requiredColumns, df.columns)
    {
      var required := config.requiredColumns;
      missing := [];
      var i := 0;
      while i < |required|
        invariant 0 <= i <= |required|
        invariant missing == MissingColumns(required[..i], df.columns)
      {
        assert required[..i + 1][..i] == required[..i];
        if required[i] !in df.columns {
          missing := missing + [required[i]];
        }
        i := i + 1;
      }
      assert required[..i] == required;
    }

    /** The loop over the price columns: does comparing one of them with the bounds
        raise? */
    method PriceColumnHoldsText(df: Frame) returns (b: bool)
      ensures b == TextInPriceColumn(df)
    {
      var k := 0;
      while k < |df.columns|
        invariant 0 <= k <= |df.columns|
        invariant !TextPriceBefore(df, k)
      {
        var col := df.columns[k];
        if IsPriceLabel(col) {
          var text := ColumnHoldsText(df, col);
          if text {
            assert IsPriceLabel(df.columns[k]) && HoldsText(df, df.columns[k]);
            return true;
          }
        }
        assert !(IsPriceLabel(df.columns[k]) && HoldsText(df, df.columns[k]));
        k := k + 1;
      }
      return false;
    }

    /** The comparison of one price column with the bounds raises when a value is
        text. */
    method ColumnHoldsText(df: Frame, col: string) returns (b: bool)
      ensures b == HoldsText(df, col)
    {
      var i := 0;
      while i < |df.rows|
        invariant 0 <= i <= |df.rows|
        invariant forall j :: 0 <= j < i ==> !GetOr(df, df.rows[j], col, Missing).Str?
      {
        if GetOr(df, df.rows[i], col, Missing).Str? {
          return true;
        }
        i := i + 1;
      }
      return false;
    }

    /** `_load_excel_file` once `read_excel` has produced `sheet`; `coerce` stands for
        the pandas type coercion of `_apply_data_types`. */
    method LoadExcelFile(sheet: Frame, coerce: Frame -> Frame) returns (df: Option<Frame>)
      ensures df == Loaded(config, sheet, coerce)
    {
      if Empty(sheet) {
        return None;
      }
      var f := RemoveIgnoredColumns(sheet);
      f := ApplyColumnMapping(f);
      f := DataTyped(config, f, coerce);
      if config.skipEmptyRows {
        f := DropEmptyRows(f);
      }
      var verdict := ValidateData(f);
      if verdict != Passed {
        return None;
      }
      return Some(f);
    }

    /** `get_available_configs` over the files the glob found. */
    method GetAvailableConfigs(dirExists: bool, paths: seq<string>) returns (names: seq<string>)
      ensures names == AvailableConfigs(dirExists, paths)
    {
      if !dirExists {
        return ["default"];
      }
      var found: seq<string> := [];
      var i := 0;
      while i < |paths|
        invariant 0 <= i <= |paths|
        invariant found == NonEmpty(Names(paths)[..i])
      {
        NamesStep(paths, i);
        var name := ConfigNameOf(paths[i]);
        if name != [] {
          found := found + [name];
        }
        i := i + 1;
      }
      assert Names(paths)[..i] == Names(paths);
      if found == [] {
        return ["default"];
      }
      return Sort(found);
    }
  }

  // ---------------------------------------------------------------- the loader cache

  /** The name under which `get_loader(name)` finds or creates its loader, given the
      names already cached and what `_load_config` gives for a name (None when it
      raises): the name itself when it is cached or its loader can be built, else
      "default" when that is cached or can be built, else None (the error propagates). */
  function LoaderSlot(cached: set<string>, name: string, configOf: string -> Option<Config>): (slot: Option<string>)
    ensures slot.Some? ==> slot.value == LoaderKey(name) || slot.value == "default"
    ensures slot.Some? ==> slot.value in cached || configOf(slot.value).Some?
  {
    var key := LoaderKey(name);
    if key in cached || configOf(key).Some? then Some(key)
    else if "default" in cached || configOf("default").Some? then Some("default")
    else None
  }

  /** Asking again, once the first answer is cached, gives the same answer. */
  lemma SlotStable(cached: set<string>, name: string, configOf: string -> Option<Config>)
    requires LoaderSlot(cached, name, configOf).Some?
    ensures var slot := LoaderSlot(cached, name, configOf).value;
      LoaderSlot(cached + {slot}, name, configOf) == Some(slot)
  {
  }

  /** The module-level `_loaders` cache. */
  class LoaderRegistry {
    var loaders: map<string, ExcelLoader>

    constructor()
      ensures loaders == map[]
    {
      loaders := map[];
    }

    /** `get_loader`: the cached loader of the name, built and cached on first use,
        falling back to the default loader when building it raises.  Entries are
        never replaced or removed. */
    method GetLoader(name: string, configOf: string -> Option<Config>) returns (loader: Option<ExcelLoader>)
      modifies this
      ensures var slot := LoaderSlot(old(loaders).Keys, name, configOf);
        && (slot.None? ==> loader.None? && loaders == old(loaders))
        && (slot.Some? ==> loader.Some? && slot.value in loaders && loader.value == loaders[slot.value])
        && (slot.Some? && slot.value in old(loaders) ==> loaders == old(loaders))
        && (slot.Some? && slot.value !in old(loaders) ==>
              && loaders == old(loaders)[slot.value := loader.value]
              && fresh(loader.value)
              && loader.value.configName == slot.value
              && loader.value.config == configOf(slot.value).value)
    {
      var key := LoaderKey(name);
      if key !in loaders {
        var loaded := configOf(key);
        if loaded.Some? {
          var created := new ExcelLoader(key, loaded.value);
          loaders := loaders[key := created];
        } else {
          key := "default";
          if key !in loaders {
            var fallback := configOf(key);
            if fallback.None? {
              return None;
            }
            var created := new ExcelLoader(key, fallback.value);
            loaders := loaders[key := created];
          }
        }
      }
      return Some(loaders[key]);
    }
  }
}
