/** Matching by product codes found in product names (main.py,
    `compare_by_product_code`): each table is indexed by the code in its "name"
    column, a later row with the same code replacing an earlier one, and every
    supplier code that also occurs in the base gives one match, in supplier order. */
module CodeMatching {
  import opened Wrappers
  import opened Text
  import opened Frames
  import opened OrderedDict
  import opened ProductCodes

  /** What the index keeps for a code: the row's index label, its name and its price
      cell (the cell as read, 0 when the price column is absent). */
  datatype CodeEntry = CodeEntry(index: int, name: Cell, price: Cell)

  datatype CodeMatch = CodeMatch(code: string, supplierName: Cell, baseName: Cell, supplierPrice: Cell, basePrice: Cell)

  /** The supplier price column: "price_usd" for vitya, "price" for every other supplier. */
  function SupplierCodePrice(config: string): (col: string)
    ensures col == "price_usd" || col == "price"
  {
    if config == "vitya" then "price_usd" else "price"
  }

  /** The code a row contributes: the table has a "name" column, the row's name is not
      NaN, and a non-empty code is found in it. */
  function RowCode(f: Frame, r: Row): (code: Option<string>)
    ensures code.Some? ==> "name" in f.columns && code.value != []
    ensures code.Some? ==> code == CodeInName(GetOr(f, r, "name", Missing))
  {
    match Get(f, r, "name")
    case None => None
    case Some(name) =>
      if name.Missing? then None
      else
        match CodeInName(name)
        case None => None
        case Some(code) => if code != [] then Some(code) else None
  }

  /** `codes[code] = {index, name, price}` for one row. */
  function CodeAssignmentOf(f: Frame, priceCol: string, r: Row): Option<(string, CodeEntry)> {
    match RowCode(f, r)
    case None => None
    case Some(code) => Some((code, CodeEntry(r.index, GetOr(f, r, "name", Missing), GetOr(f, r, priceCol, Int(0)))))
  }

  function CodeAssignment(f: Frame, priceCol: string): Row -> Option<(string, CodeEntry)> {
    r => CodeAssignmentOf(f, priceCol, r)
  }

  /** The code index of a table. */
  function CodeIndex(f: Frame, priceCol: string): Dict<CodeEntry> {
    Build(f.rows, CodeAssignment(f, priceCol))
  }

  /** A code is indexed exactly when some row's name yields it. */
  lemma CodeIndexKeys(f: Frame, priceCol: string, code: string)
    ensures code in CodeIndex(f, priceCol).entries <==>
      exists i :: 0 <= i < |f.rows| && RowCode(f, f.rows[i]) == Some(code)
  {
    BuildKeys(f.rows, CodeAssignment(f, priceCol), code);
  }

  /** The entry of a code is taken from the last row whose name yields it. */
  lemma CodeIndexLastRow(f: Frame, priceCol: string, i: nat)
    requires i < |f.rows| && RowCode(f, f.rows[i]).Some?
    requires forall j :: i < j < |f.rows| ==> RowCode(f, f.rows[j]) != RowCode(f, f.rows[i])
    ensures var code := RowCode(f, f.rows[i]).value;
      && code in CodeIndex(f, priceCol).entries
      && CodeIndex(f, priceCol).entries[code] ==
           CodeEntry(f.rows[i].index, GetOr(f, f.rows[i], "name", Missing), GetOr(f, f.rows[i], priceCol, Int(0)))
  {
    BuildLastWins(f.rows, CodeAssignment(f, priceCol), i);
  }

  /** The matches for the supplier codes `keys`, in that order. */
  function CodeMatchesOf(keys: seq<string>, s: map<string, CodeEntry>, b: map<string, CodeEntry>): seq<CodeMatch>
    requires forall k :: k in keys ==> k in s
  {
    if keys == [] then []
    else
      var n := |keys| - 1;
      assert forall k :: k in keys[..n] ==> k in keys;
      var init := CodeMatchesOf(keys[..n], s, b);
      if keys[n] in b then init + [CodeMatch(keys[n], s[keys[n]].name, b[keys[n]].name, s[keys[n]].price, b[keys[n]].price)] else init
  }

  /** Every reported key is one of `keys` (found in `b`), reported with its own entries. */
  lemma {:induction false} CodeMatchesSound(keys: seq<string>, s: map<string, CodeEntry>, b: map<string, CodeEntry>)
    requires forall k :: k in keys ==> k in s
    ensures var ms := CodeMatchesOf(keys, s, b);
      && |ms| <= |keys|
      && forall t :: 0 <= t < |ms| ==>
           && ms[t].code in keys && ms[t].code in b
           && ms[t] == CodeMatch(ms[t].code, s[ms[t].code].name, b[ms[t].code].name, s[ms[t].code].price, b[ms[t].code].price)
  {
    if keys != [] {
      var n := |keys| - 1;
      assert forall k :: k in keys[..n] ==> k in keys;
      CodeMatchesSound(keys[..n], s, b);
    }
  }

  /** Every key of `keys` that `b` has is reported. */
  lemma {:induction false} CodeMatchesComplete(keys: seq<string>, s: map<string, CodeEntry>, b: map<string, CodeEntry>, k: string)
    requires forall k :: k in keys ==> k in s
    requires k in keys && k in b
    ensures exists t :: 0 <= t < |CodeMatchesOf(keys, s, b)| && CodeMatchesOf(keys, s, b)[t].code == k
  {
    var n := |keys| - 1;
    var init := CodeMatchesOf(keys[..n], s, b);
    var ms := CodeMatchesOf(keys, s, b);
    assert forall k' :: k' in keys[..n] ==> k' in keys;
    if keys[n] == k {
      assert ms[|ms| - 1].code == k;
    } else {
      assert k in keys[..n] by {
        var i :| 0 <= i < |keys| && keys[i] == k;
        assert keys[..n][i] == k;
      }
      CodeMatchesComplete(keys[..n], s, b, k);
      var t :| 0 <= t < |init| && init[t].code == k;
      assert ms[t] == init[t];
    }
  }

  /** Distinct keys give distinct reports. */
  lemma {:induction false} CodeMatchesDistinct(keys: seq<string>, s: map<string, CodeEntry>, b: map<string, CodeEntry>)
    requires forall k :: k in keys ==> k in s
    requires forall i, j :: 0 <= i < j < |keys| ==> keys[i] != keys[j]
    ensures forall t, u :: 0 <= t < u < |CodeMatchesOf(keys, s, b)| ==> CodeMatchesOf(keys, s, b)[t].code != CodeMatchesOf(keys, s, b)[u].code
  {
    if keys != [] {
      var n := |keys| - 1;
      var init := CodeMatchesOf(keys[..n], s, b);
      assert forall k' :: k' in keys[..n] ==> k' in keys;
      CodeMatchesDistinct(keys[..n], s, b);
      CodeMatchesSound(keys[..n], s, b);
      assert keys[n] !in keys[..n] by {
        forall i | 0 <= i < n ensures keys[..n][i] != keys[n] { assert keys[..n][i] == keys[i]; }
      }
    }
  }

  /** `compare_by_product_code` as a value. */
  function CodeMatches(config: string, supplier: Frame, base: Frame): seq<CodeMatch> {
    var sd := CodeIndex(supplier, SupplierCodePrice(config));
    var bd := CodeIndex(base, "price");
    CodeMatchesOf(sd.keys, sd.entries, bd.entries)
  }

  /** A code is reported exactly when a supplier name and a base name both yield it,
      and it is reported once. */
  lemma CodeMatchesExact(config: string, supplier: Frame, base: Frame, code: string)
    ensures var ms := CodeMatches(config, supplier, base);
      (exists t :: 0 <= t < |ms| && ms[t].code == code) <==>
        && (exists i :: 0 <= i < |supplier.rows| && RowCode(supplier, supplier.rows[i]) == Some(code))
        && (exists j :: 0 <= j < |base.rows| && RowCode(base, base.rows[j]) == Some(code))
    ensures var ms := CodeMatches(config, supplier, base);
      forall t, u :: 0 <= t < u < |ms| ==> ms[t].code != ms[u].code
  {
    var sd := CodeIndex(supplier, SupplierCodePrice(config));
    var bd := CodeIndex(base, "price");
    CodeIndexKeys(supplier, SupplierCodePrice(config), code);
    CodeIndexKeys(base, "price", code);
    if code in sd.entries && code in bd.entries {
      CodeMatchesComplete(sd.keys, sd.entries, bd.entries, code);
    }
    CodeMatchesDistinct(sd.keys, sd.entries, bd.entries);
    CodeMatchesSound(sd.keys, sd.entries, bd.entries);
  }

  /** The names and prices in a match come from the last supplier row and the last base
      row whose names yield the code. */
  lemma CodeMatchFromLastRows(config: string, supplier: Frame, base: Frame, t: nat, i: nat, j: nat)
    requires t < |CodeMatches(config, supplier, base)|
    requires i < |supplier.rows| && RowCode(supplier, supplier.rows[i]) == Some(CodeMatches(config, supplier, base)[t].code)
    requires forall i' :: i < i' < |supplier.rows| ==> RowCode(supplier, supplier.rows[i']) != RowCode(supplier, supplier.rows[i])
    requires j < |base.rows| && RowCode(base, base.rows[j]) == Some(CodeMatches(config, supplier, base)[t].code)
    requires forall j' :: j < j' < |base.rows| ==> RowCode(base, base.rows[j']) != RowCode(base, base.rows[j])
    ensures var m := CodeMatches(config, supplier, base)[t];
      && m.supplierName == GetOr(supplier, supplier.rows[i], "name", Missing)
      && m.supplierPrice == GetOr(supplier, supplier.rows[i], SupplierCodePrice(config), Int(0))
      && m.baseName == GetOr(base, base.rows[j], "name", Missing)
      && m.basePrice == GetOr(base, base.rows[j], "price", Int(0))
  {
    var sd := CodeIndex(supplier, SupplierCodePrice(config));
    var bd := CodeIndex(base, "price");
    CodeMatchesSound(sd.keys, sd.entries, bd.entries);
    CodeIndexLastRow(supplier, SupplierCodePrice(config), i);
    CodeIndexLastRow(base, "price", j);
  }

  /** The index a loop over the rows builds, calling the code finder on each name. */
  method BuildCodeIndex(f: Frame, priceCol: string) returns (d: Dict<CodeEntry>)
    ensures d == CodeIndex(f, priceCol)
  {
    d := OrderedDict.Empty();
    var i := 0;
    while i < |f.rows|
      invariant 0 <= i <= |f.rows|
      invariant d == Build(f.rows[..i], CodeAssignment(f, priceCol))
    {
      var row := f.rows[i];
      BuildSnoc(f.rows, i, CodeAssignment(f, priceCol));
      var name := Get(f, row, "name");
      if name.Some? && !name.value.Missing? {
        var code := FindProductCodeInName(name.value);
        if code.Some? && code.value != [] {
          d := Put(d, code.value, CodeEntry(row.index, name.value, GetOr(f, row, priceCol, Int(0))));
        }
      }
      i := i + 1;
    }
    assert f.rows[..i] == f.rows;
  }

  /** `compare_by_product_code`. */
  method CompareByProductCode(supplier: Frame, base: Frame, config: string) returns (matches: seq<CodeMatch>)
    ensures matches == CodeMatches(config, supplier, base)
  {
    var supplierCodes := BuildCodeIndex(supplier, SupplierCodePrice(config));
    var baseCodes := BuildCodeIndex(base, "price");
    matches := MatchCodes(supplierCodes.keys, supplierCodes.entries, baseCodes.entries);
  }

  /** The loop of `compare_by_product_code` over the supplier codes `keys` (with their
      entries `s`): a match for each code the base has too. */
  method MatchCodes(keys: seq<string>, s: map<string, CodeEntry>, b: map<string, CodeEntry>) returns (matches: seq<CodeMatch>)
    requires forall k :: k in keys ==> k in s
    ensures matches == CodeMatchesOf(keys, s, b)
  {
    matches := [];
    var i := 0;
    while i < |keys|
      invariant 0 <= i <= |keys|
      invariant forall k :: k in keys[..i] ==> k in s
      invariant matches == CodeMatchesOf(keys[..i], s, b)
    {
      var code := keys[i];
      CodeMatchStep(keys, s, b, i);
      if code in b {
        matches := matches + [CodeMatch(code, s[code].name, b[code].name, s[code].price, b[code].price)];
      }
      i := i + 1;
    }
    assert keys[..i] == keys;
  }

  /** One iteration of the code matching loop. */
  lemma CodeMatchStep(keys: seq<string>, s: map<string, CodeEntry>, b: map<string, CodeEntry>, i: nat)
    requires i < |keys| && forall k :: k in keys ==> k in s
    ensures forall k :: k in keys[..i + 1] ==> k in s
    ensures var k := keys[i];
      CodeMatchesOf(keys[..i + 1], s, b) ==
        CodeMatchesOf(keys[..i], s, b) + (if k in b then [CodeMatch(k, s[k].name, b[k].name, s[k].price, b[k].price)] else [])
  {
    assert keys[..i + 1][..i] == keys[..i];
  }
}
