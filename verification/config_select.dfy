/** Choosing the supplier configuration from a price-list file name (main.py,
    `detect_config_by_filename` and `auto_select_config`). */
module ConfigSelection {
  import opened Text

  /** `word in os.path.basename(path).upper()`. */
  ghost predicate NameMentions(path: string, word: string) {
    exists i :: OccursAt(Upper(Basename(path)), word, i)
  }

  /** The configuration a file name suggests, the rules taken in priority order:
      "JHT" means vitya, then "DIMI" or "DIMA" means dimi, then "BASE" or "БАЗА"
      means base, and anything else is auto. */
  function DetectConfig(path: string): (config: string)
    ensures config == "vitya" <==> NameMentions(path, "JHT")
    ensures config == "dimi" <==>
      !NameMentions(path, "JHT") && (NameMentions(path, "DIMI") || NameMentions(path, "DIMA"))
    ensures config == "base" <==>
      && !NameMentions(path, "JHT") && !NameMentions(path, "DIMI") && !NameMentions(path, "DIMA")
      && (NameMentions(path, "BASE") || NameMentions(path, "БАЗА"))
    ensures config == "auto" <==>
      && !NameMentions(path, "JHT") && !NameMentions(path, "DIMI") && !NameMentions(path, "DIMA")
      && !NameMentions(path, "BASE") && !NameMentions(path, "БАЗА")
  {
    var name := Upper(Basename(path));
    if Contains(name, "JHT") then "vitya"
    else if Contains(name, "DIMI") || Contains(name, "DIMA") then "dimi"
    else if Contains(name, "BASE") || Contains(name, "БАЗА") then "base"
    else "auto"
  }

  /** Only the file name counts: the directories above it never change the choice. */
  lemma DetectIgnoresDirectory(dir: string, name: string)
    requires '/' !in name
    ensures DetectConfig(dir + "/" + name) == DetectConfig(name)
  {
    BasenameOfChild(dir, name);
    BasenameOfName(name);
  }

  lemma {:induction false} BasenameOfName(name: string)
    requires '/' !in name
    ensures Basename(name) == name
  {
    if name != [] {
      var init := name[..|name| - 1];
      assert '/' !in init by {
        forall i | 0 <= i < |init| ensures init[i] != '/' { assert init[i] == name[i]; }
      }
      BasenameOfName(init);
      assert name == init + [name[|name| - 1]];
    }
  }

  /** Upper-casing keeps '/' where it is, so it commutes with taking the basename. */
  lemma {:induction false} BasenameUpper(p: string)
    ensures Basename(Upper(p)) == Upper(Basename(p))
  {
    if p != [] {
      var n := |p| - 1;
      var init, c := p[..n], p[n];
      UpperPrefix(p, n);
      UpperSlash(c);
      BasenameUpper(init);
      if c != '/' {
        UpperSnoc(Basename(init), c);
      }
    }
  }

  lemma UpperPrefix(p: string, n: nat)
    requires n <= |p|
    ensures Upper(p)[..n] == Upper(p[..n])
  {
  }

  lemma UpperSlash(c: char)
    ensures UpperChar(c) == '/' <==> c == '/'
  {
  }

  lemma UpperSnoc(s: string, c: char)
    ensures Upper(s + [c]) == Upper(s) + [UpperChar(c)]
  {
  }

  /** The choice does not depend on letter case: two paths that upper-case alike
      choose alike. */
  lemma DetectIgnoresCase(p: string, q: string)
    requires Upper(p) == Upper(q)
    ensures DetectConfig(p) == DetectConfig(q)
  {
    BasenameUpper(p);
    BasenameUpper(q);
    DetectByName(p, q);
  }

  /** The choice is made on the upper-cased file name alone. */
  lemma DetectByName(p: string, q: string)
    requires Upper(Basename(p)) == Upper(Basename(q))
    ensures DetectConfig(p) == DetectConfig(q)
  {
  }

  /** What `auto_select_config` leaves selected: the detected configuration when the
      selector offers it, the current selection otherwise. */
  function SelectedConfig(detected: string, available: seq<string>, current: string): (config: string)
    ensures detected in available ==> config == detected
    ensures detected !in available ==> config == current
    ensures config in available || config == current
  {
    if detected in available then detected else current
  }

  /** Selecting again for the same file changes nothing. */
  lemma SelectIdempotent(detected: string, available: seq<string>, current: string)
    ensures var once := SelectedConfig(detected, available, current);
      SelectedConfig(detected, available, once) == once
  {
  }

  /** The selector of the main window: the configurations it offers and the one
      selected. */
  class ConfigSelector {
    var available: seq<string>
    var selected: string

    constructor(available: seq<string>, selected: string)
      ensures this.available == available && this.selected == selected
    {
      this.available := available;
      this.selected := selected;
    }

    /** `auto_select_config`: select the configuration the file name suggests if it is
        offered, and report the selection. */
    method AutoSelectConfig(path: string) returns (config: string)
      modifies this
      ensures config == selected
      ensures selected == SelectedConfig(DetectConfig(path), old(available), old(selected))
      ensures available == old(available)
    {
      var detected := DetectConfig(path);
      if detected in available {
        selected := detected;
        return detected;
      } else {
        return selected;
      }
    }
  }
}
