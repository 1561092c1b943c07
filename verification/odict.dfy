/** Python's `dict` with string keys as the comparison code uses it: keys iterate in the order they were
    first inserted, and assigning to an existing key replaces its value in place. */
module OrderedDict {
  import opened Wrappers

  datatype Dict<V> = Dict(keys: seq<string>, entries: map<string, V>)

  /** The keys are distinct and are exactly the keys of the entries. */
  ghost predicate Valid<V>(d: Dict<V>) {
    && (forall i, j :: 0 <= i < j < |d.keys| ==> d.keys[i] != d.keys[j])
    && (forall k :: k in d.entries <==> k in d.keys)
  }

  function Empty<V>(): (d: Dict<V>)
    ensures Valid(d) && d.keys == []
  {
    Dict([], map[])
  }

  /** `d[k] = v`. */
  function Put<V>(d: Dict<V>, k: string, v: V): (r: Dict<V>)
    requires Valid(d)
    ensures Valid(r)
    ensures r.entries == d.entries[k := v]
    ensures k in d.entries ==> r.keys == d.keys
    ensures k !in d.entries ==> r.keys == d.keys + [k]
  {
    if k in d.entries then Dict(d.keys, d.entries[k := v])
    else Dict(d.keys + [k], d.entries[k := v])
  }

  /** The dictionary built by assigning the pairs of `ps` one after the other. */
  function FromPairs<V>(ps: seq<(string, V)>): (d: Dict<V>)
    ensures Valid(d)
  {
    if ps == [] then Empty() else Put(FromPairs(ps[..|ps| - 1]), ps[|ps| - 1].0, ps[|ps| - 1].1)
  }

  /** A key is in the dictionary exactly when some pair carries it. */
  lemma {:induction false} FromPairsKeys<V>(ps: seq<(string, V)>, k: string)
    ensures k in FromPairs(ps).entries <==> exists i :: 0 <= i < |ps| && ps[i].0 == k
  {
    if ps != [] {
      var init := ps[..|ps| - 1];
      FromPairsKeys(init, k);
      if k in FromPairs(init).entries {
        var i :| 0 <= i < |init| && init[i].0 == k;
        assert ps[i].0 == k;
      }
      if exists i :: 0 <= i < |ps| && ps[i].0 == k {
        var i :| 0 <= i < |ps| && ps[i].0 == k;
        if i < |ps| - 1 { assert init[i].0 == k; }
      }
    }
  }

  /** A later assignment to the same key wins: the value of a key is the value of the
      last pair that carries it. */
  lemma {:induction false} FromPairsLastWins<V>(ps: seq<(string, V)>, i: nat)
    requires i < |ps|
    requires forall j :: i < j < |ps| ==> ps[j].0 != ps[i].0
    ensures ps[i].0 in FromPairs(ps).entries && FromPairs(ps).entries[ps[i].0] == ps[i].1
  {
    if i < |ps| - 1 {
      var init := ps[..|ps| - 1];
      FromPairsLastWins(init, i);
    }
  }

  /** Keys keep the order of their first assignment: a key that first appears before
      another is listed before it. */
  lemma FromPairsOrder<V>(ps: seq<(string, V)>, i: nat, j: nat)
    requires i < j < |ps|
    requires forall t :: 0 <= t < j ==> ps[t].0 != ps[j].0
    ensures exists a, b ::
              && 0 <= a < b < |FromPairs(ps).keys|
              && FromPairs(ps).keys[a] == ps[i].0
              && FromPairs(ps).keys[b] == ps[j].0
  {
    var before := FromPairs(ps[..j]).keys;
    var upto := FromPairs(ps[..j + 1]).keys;
    var all := FromPairs(ps).keys;
    assert ps[i].0 in before by { PrefixHasKey(ps, i, j); }
    var a :| 0 <= a < |before| && before[a] == ps[i].0;
    assert upto == before + [ps[j].0] by { NewKeyAppended(ps, j); }
    assert |upto| <= |all| && upto == all[..|upto|] by { PrefixKeys(ps, j + 1); }
    assert all[a] == upto[a] == ps[i].0;
    assert all[|before|] == upto[|before|] == ps[j].0;
  }

  lemma PrefixHasKey<V>(ps: seq<(string, V)>, i: nat, j: nat)
    requires i < j <= |ps|
    ensures ps[i].0 in FromPairs(ps[..j]).keys
  {
    var init := ps[..j];
    assert init[i].0 == ps[i].0;
    FromPairsKeys(init, ps[i].0);
  }

  /** A key never assigned before is appended to the keys. */
  lemma NewKeyAppended<V>(ps: seq<(string, V)>, j: nat)
    requires j < |ps|
    requires forall t :: 0 <= t < j ==> ps[t].0 != ps[j].0
    ensures FromPairs(ps[..j + 1]).keys == FromPairs(ps[..j]).keys + [ps[j].0]
  {
    var init := ps[..j];
    assert ps[..j + 1][..j] == init;
    assert forall t :: 0 <= t < |init| ==> init[t].0 != ps[j].0;
    FromPairsKeys(init, ps[j].0);
  }

  /** The keys of a prefix are a prefix of the keys. */
  lemma {:induction false} PrefixKeys<V>(ps: seq<(string, V)>, n: nat)
    requires n <= |ps|
    ensures |FromPairs(ps[..n]).keys| <= |FromPairs(ps).keys|
    ensures FromPairs(ps[..n]).keys == FromPairs(ps).keys[..|FromPairs(ps[..n]).keys|]
    decreases |ps| - n
  {
    if n < |ps| {
      assert ps[..n] == ps[..|ps| - 1][..n];
      PrefixKeys(ps[..|ps| - 1], n);
      assert ps == ps[..|ps|];
    } else {
      assert ps[..n] == ps;
    }
  }

  /** The assignments made by a loop over `xs` that, for each element from which
      `entry` extracts a key and a value, assigns `d[key] = value`. */
  function Collect<T, V>(xs: seq<T>, entry: T -> Option<(string, V)>): (ps: seq<(string, V)>)
    ensures |ps| <= |xs|
  {
    if xs == [] then []
    else Collect(xs[..|xs| - 1], entry) + Assignment(entry(xs[|xs| - 1]))
  }

  function Assignment<V>(e: Option<(string, V)>): (ps: seq<(string, V)>)
    ensures |ps| <= 1
  {
    if e.Some? then [e.value] else []
  }

  /** One more element: the loop body's assignment, if any, comes last. */
  lemma CollectSnoc<T, V>(xs: seq<T>, n: nat, entry: T -> Option<(string, V)>)
    requires n < |xs|
    ensures Collect(xs[..n + 1], entry) == Collect(xs[..n], entry) + Assignment(entry(xs[n]))
  {
    assert xs[..n + 1][..n] == xs[..n];
  }

  /** The dictionary a loop builds: `d = {}` followed by the assignments of `Collect`. */
  function Build<T, V>(xs: seq<T>, entry: T -> Option<(string, V)>): (d: Dict<V>)
    ensures Valid(d) && |d.keys| <= |xs|
  {
    PairsSize(Collect(xs, entry));
    FromPairs(Collect(xs, entry))
  }

  /** There are never more keys than assignments. */
  lemma {:induction false} PairsSize<V>(ps: seq<(string, V)>)
    ensures |FromPairs(ps).keys| <= |ps|
  {
    if ps != [] {
      PairsSize(ps[..|ps| - 1]);
    }
  }

  lemma BuildSnoc<T, V>(xs: seq<T>, n: nat, entry: T -> Option<(string, V)>)
    requires n < |xs|
    ensures Build(xs[..n + 1], entry) ==
      if entry(xs[n]).Some? then Put(Build(xs[..n], entry), entry(xs[n]).value.0, entry(xs[n]).value.1)
      else Build(xs[..n], entry)
  {
    var ps := Collect(xs[..n], entry);
    CollectSnoc(xs, n, entry);
    if entry(xs[n]).Some? {
      assert (ps + [entry(xs[n]).value])[..|ps|] == ps;
    } else {
      assert ps + [] == ps;
    }
  }

  /** The body of a loop that builds a dictionary: the assignment of element `n`. */
  method BuildStep<T, V>(xs: seq<T>, n: nat, entry: T -> Option<(string, V)>, d: Dict<V>) returns (r: Dict<V>)
    requires n < |xs| && d == Build(xs[..n], entry)
    ensures r == Build(xs[..n + 1], entry)
    ensures entry(xs[n]).None? ==> r == d
  {
    BuildSnoc(xs, n, entry);
    var a := entry(xs[n]);
    if a.Some? {
      r := Put(d, a.value.0, a.value.1);
    } else {
      r := d;
    }
  }

  /** The loop over `xs` that assigns `d[key] = value` for each element yielding a
      pair, where, when `raises` holds, the first assignment raises instead (None). */
  method BuildOrRaise<T, V>(xs: seq<T>, entry: T -> Option<(string, V)>, raises: bool) returns (r: Option<Dict<V>>)
    ensures r.None? <==> raises && Assigns(xs, entry)
    ensures r.Some? ==> r.value == Build(xs, entry)
  {
    var d := Empty();
    var i := 0;
    while i < |xs|
      invariant 0 <= i <= |xs|
      invariant d == Build(xs[..i], entry)
      invariant raises ==> d.keys == []
    {
      if raises && entry(xs[i]).Some? {
        AssignsMeans(xs, entry);
        return None;
      }
      d := BuildStep(xs, i, entry, d);
      i := i + 1;
    }
    assert xs[..i] == xs;
    AssignsIffKeys(xs, entry);
    return Some(d);
  }

  /** A key is in the built dictionary exactly when some element yields it. */
  lemma {:induction false} BuildKeys<T, V>(xs: seq<T>, entry: T -> Option<(string, V)>, k: string)
    ensures k in Build(xs, entry).entries <==>
      exists i :: 0 <= i < |xs| && entry(xs[i]).Some? && entry(xs[i]).value.0 == k
  {
    if xs != [] {
      var n := |xs| - 1;
      BuildKeys(xs[..n], entry, k);
      BuildSnoc(xs, n, entry);
      assert xs[..n + 1] == xs;
      if exists i :: 0 <= i < |xs| && entry(xs[i]).Some? && entry(xs[i]).value.0 == k {
        var i :| 0 <= i < |xs| && entry(xs[i]).Some? && entry(xs[i]).value.0 == k;
        if i < n { assert xs[..n][i] == xs[i]; }
      }
      if exists i :: 0 <= i < n && entry(xs[..n][i]).Some? && entry(xs[..n][i]).value.0 == k {
        var i :| 0 <= i < n && entry(xs[..n][i]).Some? && entry(xs[..n][i]).value.0 == k;
        assert xs[i] == xs[..n][i];
      }
    }
  }

  /** The value of a key is the one the last element yielding that key assigned. */
  lemma {:induction false} BuildLastWins<T, V>(xs: seq<T>, entry: T -> Option<(string, V)>, i: nat)
    requires i < |xs| && entry(xs[i]).Some?
    requires forall j :: i < j < |xs| && entry(xs[j]).Some? ==> entry(xs[j]).value.0 != entry(xs[i]).value.0
    ensures entry(xs[i]).value.0 in Build(xs, entry).entries
    ensures Build(xs, entry).entries[entry(xs[i]).value.0] == entry(xs[i]).value.1
  {
    var n := |xs| - 1;
    BuildSnoc(xs, n, entry);
    assert xs[..n + 1] == xs;
    if i < n {
      assert xs[..n][i] == xs[i];
      forall j | i < j < n && entry(xs[..n][j]).Some?
        ensures entry(xs[..n][j]).value.0 != entry(xs[..n][i]).value.0
      {
        assert xs[..n][j] == xs[j];
      }
      BuildLastWins(xs[..n], entry, i);
    }
  }

  /** Some element yields an assignment. */
  predicate Assigns<T, V>(xs: seq<T>, entry: T -> Option<(string, V)>) {
    xs != [] && (Assigns(xs[..|xs| - 1], entry) || entry(xs[|xs| - 1]).Some?)
  }

  lemma {:induction false} AssignsMeans<T, V>(xs: seq<T>, entry: T -> Option<(string, V)>)
    ensures Assigns(xs, entry) <==> exists i :: 0 <= i < |xs| && entry(xs[i]).Some?
  {
    if xs != [] {
      var n := |xs| - 1;
      AssignsMeans(xs[..n], entry);
      if Assigns(xs[..n], entry) {
        var i :| 0 <= i < n && entry(xs[..n][i]).Some?;
        assert xs[..n][i] == xs[i];
      }
      if exists i :: 0 <= i < |xs| && entry(xs[i]).Some? {
        var i :| 0 <= i < |xs| && entry(xs[i]).Some?;
        if i < n {
          assert xs[..n][i] == xs[i];
        }
      }
    }
  }

  /** The loop leaves the dictionary empty exactly when no element assigns. */
  lemma AssignsIffKeys<T, V>(xs: seq<T>, entry: T -> Option<(string, V)>)
    ensures Assigns(xs, entry) <==> Build(xs, entry).keys != []
  {
    var d := Build(xs, entry);
    AssignsMeans(xs, entry);
    if d.keys != [] {
      BuildKeys(xs, entry, d.keys[0]);
    }
    if Assigns(xs, entry) {
      var i :| 0 <= i < |xs| && entry(xs[i]).Some?;
      BuildKeys(xs, entry, entry(xs[i]).value.0);
    }
  }
}
