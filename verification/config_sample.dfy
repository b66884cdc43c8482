/** A small configuration type that meets what edits assume of one, and one whole edit of it from read to reload. */
module ConfigSample {
  import opened Text
  import opened Decimal
  import opened ConfigKeys
  import opened ConfigValues
  import opened ConfigEdit
  import T = ConfigTree
  import F = ConfigFile

  // ---------- sorting names ----------

  ghost predicate IsLeast(names: set<string>, n: string) {
    n in names && forall m | m in names && m != n :: Less(n, m)
  }

  lemma {:induction false} HasLeast(names: set<string>)
    requires names != {}
    ensures exists n :: IsLeast(names, n)
    decreases |names|
  {
    var n :| n in names;
    var rest := names - {n};
    assert forall m | m in names :: m == n || m in rest;
    if rest == {} {
      assert IsLeast(names, n);
    } else {
      HasLeast(rest);
      var least :| IsLeast(rest, least);
      LessTotal(n, least);
      if Less(least, n) {
        assert IsLeast(names, least);
      } else {
        forall m | m in names && m != n
          ensures Less(n, m)
        {
          if m != least {
            LessTransitive(n, least, m);
          }
        }
        assert IsLeast(names, n);
      }
    }
  }

  lemma LeastFirst(names: set<string>, n: string, rest: seq<string>)
    requires IsLeast(names, n) && F.IsSorted(rest, names - {n})
    ensures F.IsSorted([n] + rest, names)
  {
    var s := [n] + rest;
    forall i, j | 0 <= i < j < |s|
      ensures s[i] != s[j] && Less(s[i], s[j])
    {
      assert s[j] == rest[j - 1] && rest[j - 1] in rest;
    }
  }

  ghost function SortOf(names: set<string>): (s: seq<string>)
    ensures F.IsSorted(s, names)
    decreases |names|
  {
    if names == {} then []
    else
      HasLeast(names);
      var n :| IsLeast(names, n);
      var rest := SortOf(names - {n});
      LeastFirst(names, n, rest);
      [n] + rest
  }

  // ---------- the type ----------

  const SERVER: string := "server"
  const PROXIES: string := "proxies"

  const INNER: seq<FieldDesc> := [FieldDesc(PROXIES, Scalar(KStrings))]

  const FIELDS: seq<FieldDesc> := [
    FieldDesc(CURRENT, Scalar(KString)), FieldDesc(SERVER, Struct(INNER)), FieldDesc(CONTEXTS, Other)
  ]

  const CURRENT_KEY: Key := Key(CURRENT, KString, [0])
  const PROXIES_KEY: Key := Key(PathOf(SERVER, PROXIES), KStrings, [1, 0])

  const DEFAULTS: Settings := map[[0] := VString(""), [1, 0] := VStrings([])]

  ghost function Decimals(): Durations {
    Durations((d: Int64) => FormatInt(d), (s: string) => ParseInt64(s))
  }

  ghost function Sample(): Schema {
    Schema(FIELDS, Decimals(), DEFAULTS, names => SortOf(names))
  }

  lemma SampleKeys()
    ensures KeyList(Sample()) == [CURRENT_KEY, PROXIES_KEY]
  {
    assert [] + [0] == [0] && [] + [1] == [1] && [] + [2] == [2] && [1] + [0] == [1, 0];
    assert Walk(INNER, 1, SERVER, [1]) == [];
    assert Walk(INNER, 0, SERVER, [1]) == [PROXIES_KEY];
    assert Walk(FIELDS, 3, "", []) == [];
    assert Walk(FIELDS, 2, "", []) == [];
    assert Walk(FIELDS, 1, "", []) == [PROXIES_KEY];
  }

  lemma SampleNames()
    ensures WellNamed(FIELDS)
  {
    NamesFree();
    NamesDiffer();
    assert WellNamed(INNER);
  }

  lemma NamesFree()
    ensures Free(CURRENT, '.') && Free(SERVER, '.') && Free(PROXIES, '.') && Free(CONTEXTS, '.')
  {
  }

  lemma NamesDiffer()
    ensures CURRENT != SERVER && SERVER != CONTEXTS && CURRENT != CONTEXTS
  {
    assert CURRENT[1] != SERVER[1] && SERVER[0] != CONTEXTS[0] && CURRENT[1] != CONTEXTS[1];
  }

  lemma SampleSorts()
    ensures F.Sorts(Sample().sorted)
  {
  }

  lemma DecimalsLawful()
    ensures ConfigValues.Lawful(Decimals())
  {
    forall d: Int64
      ensures Decimals().parse(Decimals().format(d)) == Some(d)
    {
      ParseFormat(d);
    }
  }

  /** What edits assume of a configuration type can be met. */
  lemma SampleSound()
    ensures Sound(Sample(), CURRENT_KEY)
  {
    SampleKeys();
    SampleNames();
    SampleSorts();
    DecimalsLawful();
    assert FIELDS[2] in FIELDS;
  }

  // ---------- one edit, from read to reload ----------

  const BEFORE: Config := Config(DEFAULTS, map[])
  const AFTER: Config := Config(map[[0] := VString(""), [1, 0] := VStrings(["a,b"])], map[])
  const RELOADED: Config := Config(map[[0] := VString(""), [1, 0] := VStrings(["a", "b"])], map[])
  const SAVED: map<string, string> := map[PathOf(SERVER, PROXIES) := "a,b"]

  lemma SampleTyped()
    ensures Typed(Sample(), BEFORE.settings) && Typed(Sample(), AFTER.settings)
  {
    SampleKeys();
  }

  lemma SampleTexts()
    ensures Get(Sample(), AFTER.settings, PROXIES_KEY) == "a,b" && Get(Sample(), BEFORE.settings, PROXIES_KEY) == ""
  {
    ItemsLost(Decimals());
  }

  lemma SampleSaved()
    requires Typed(Sample(), BEFORE.settings) && Typed(Sample(), AFTER.settings)
    ensures Saved(Sample(), None, BEFORE, AFTER, [0]) == SAVED
  {
    var sc := Sample();
    SampleKeys();
    SampleTexts();
    assert Edited(sc, map[], BEFORE.settings, AFTER.settings, 0) == map[];
    assert Edited(sc, map[], BEFORE.settings, AFTER.settings, 1) == map[];
    assert Edited(sc, map[], BEFORE.settings, AFTER.settings, 2) == SAVED;
    assert CURRENT[0] != PathOf(SERVER, PROXIES)[0];
  }

  lemma SampleTree() returns (tree: T.Tree)
    ensures T.StandsFor(tree, SAVED)
  {
    var path := PathOf(SERVER, PROXIES);
    assert T.StandsFor(map[], map[]);
    T.InsertStands(map[], map[], path, "a,b");
    tree := T.Insert(map[], Split(path, '.'), "a,b");
    assert map[][path := "a,b"] == SAVED;
  }

  lemma SampleResolves(file: File)
    requires Sound(Sample(), CURRENT_KEY) && file == File(SAVED, map[], "")
    ensures ResolvesTo(Sample(), CURRENT_KEY, file, RELOADED)
  {
    SampleKeys();
    ItemsLost(Decimals());
    var values := file.values[CURRENT := file.current];
    assert CURRENT[0] != PathOf(SERVER, PROXIES)[0];
    assert Parse(Decimals(), KString, "") == Some(VString(""));
    assert Parses(Sample(), CURRENT_KEY, values) && Parses(Sample(), PROXIES_KEY, values);
  }

  /** With no file to begin with, setting the list to one item that holds a comma leaves a file that reads back
      as two items.
   */
  lemma WholeEdit() returns (tree: T.Tree)
    ensures Sound(Sample(), CURRENT_KEY) && ReadAs(Sample(), CURRENT_KEY, None, None, BEFORE)
    ensures Typed(Sample(), BEFORE.settings) && Typed(Sample(), AFTER.settings)
    ensures SavedAs(Sample(), None, BEFORE, AFTER, CURRENT_KEY.index, tree)
    ensures Reread(Sample(), CURRENT_KEY, tree, RELOADED)
    ensures RELOADED.settings[PROXIES_KEY.index] != AFTER.settings[PROXIES_KEY.index]
  {
    var sc := Sample();
    SampleSound();
    SampleTyped();
    SampleSaved();
    tree := SampleTree();
    SavedKnown(sc, CURRENT_KEY, None, BEFORE, AFTER);
    NoContextsName(sc, tree, SAVED);
    assert tree - {CONTEXTS} == tree;
    SavedLoads(sc, CURRENT_KEY, None, BEFORE, AFTER, tree);
    SampleResolves(Load(sc, tree).value);
    assert RELOADED.settings[[1, 0]].items != AFTER.settings[[1, 0]].items;
  }
}
