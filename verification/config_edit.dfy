/** Reading a configuration from its file, editing it, and saving only what the edit changed. */
module ConfigEdit {
  import opened Text
  import opened ConfigKeys
  import opened ConfigValues
  import T = ConfigTree
  import F = ConfigFile
  import N = ConfigNested

  const CURRENT: string := "current_context"
  const CONTEXTS: string := "contexts"
  const THEMES: string := "themes"

  /** The names in a file that are read on their own. */
  lemma ReservedNames()
    ensures CURRENT == "current_context" && CONTEXTS == "contexts"
  {
  }

  type Settings = map<seq<nat>, Value>

  /** The configuration type, its default values, and the parts of the standard library it is read with. */
  datatype Schema = Schema(fields: seq<FieldDesc>, durations: Durations, defaults: Settings,
                           sorted: set<string> -> seq<string>)

  /** A configuration in memory: the value of every key by field position, and the contexts. */
  datatype Config = Config(settings: Settings, contexts: map<string, T.Context>)

  /** A parsed file: the raw text of the keys it carries, its contexts, and the current context ("" for none). */
  datatype File = File(values: map<string, string>, contexts: map<string, T.Context>, current: string)

  function KeyList(sc: Schema): seq<Key> {
    Keys(sc.fields)
  }

  function Known(sc: Schema): set<string> {
    set i | 0 <= i < |KeyList(sc)| :: KeyList(sc)[i].path
  }

  ghost predicate Typed(sc: Schema, s: Settings) {
    forall k | k in KeyList(sc) :: k.index in s && HasKind(s[k.index], k.kind)
  }

  /** The type is well named, keeps its contexts and its current context at the top, and has typed defaults. */
  ghost predicate Sound(sc: Schema, current: Key) {
    && WellNamed(sc.fields) && Lawful(sc.durations) && F.Sorts(sc.sorted) && Typed(sc, sc.defaults)
    && FieldDesc(CONTEXTS, Other) in sc.fields
    && current in KeyList(sc) && current.path == CURRENT && current.kind == KString
  }

  function Get(sc: Schema, s: Settings, k: Key): string
    requires k.index in s
  {
    Render(sc.durations, s[k.index])
  }

  // ---------- reading ----------

  function Load(sc: Schema, tree: T.Tree): Result<File, string>
    requires F.Sorts(sc.sorted)
  {
    if CONTEXTS in tree && !tree[CONTEXTS].Contexts? then Err(CONTEXTS)
    else
      var contexts := if CONTEXTS in tree then tree[CONTEXTS].contexts else map[];
      match F.FlattenNode(F.Loader(Known(sc), sc.sorted), T.Dir(tree - {CONTEXTS}), "", map[])
      case Err(key) => Err(key)
      case Ok(values) => Ok(File(values, contexts, if CURRENT in values then values[CURRENT] else ""))
  }

  ghost predicate Parses(sc: Schema, k: Key, values: map<string, string>) {
    k.path in values ==> Parse(sc.durations, k.kind, values[k.path]).Some?
  }

  /** What a key holds once the raw values are laid over the defaults. */
  ghost function Overlay(sc: Schema, values: map<string, string>, k: Key): Value
    requires k.index in sc.defaults && Parses(sc, k, values)
  {
    if k.path in values then Parse(sc.durations, k.kind, values[k.path]).value else sc.defaults[k.index]
  }

  ghost predicate Overlaid(sc: Schema, values: map<string, string>, s: Settings)
    requires Typed(sc, sc.defaults)
  {
    forall k | k in KeyList(sc) :: k.index in s && Parses(sc, k, values) && s[k.index] == Overlay(sc, values, k)
  }

  /** The configuration a parsed file resolves to; the current context is the file's even when it has none. */
  ghost predicate ResolvesTo(sc: Schema, current: Key, file: File, c: Config)
    requires Sound(sc, current)
  {
    && Overlaid(sc, file.values[CURRENT := file.current], c.settings)
    && c.contexts == file.contexts
  }

  /** What reading a path answers: the defaults when there is no file, and otherwise the file and its values. */
  ghost predicate ReadAs(sc: Schema, current: Key, disk: Option<T.Tree>, existing: Option<File>, c: Config)
    requires Sound(sc, current)
  {
    match disk
    case None => existing == None && c == Config(sc.defaults, map[])
    case Some(tree) =>
      && Load(sc, tree).Ok? && existing == Some(Load(sc, tree).value)
      && ResolvesTo(sc, current, existing.value, c)
  }

  class Cell {
    var settings: Settings
    var contexts: map<string, T.Context>

    constructor (settings: Settings)
      ensures this.settings == settings && contexts == map[]
    {
      this.settings, contexts := settings, map[];
    }

    /** Parses raw and stores it under the key; text that does not parse changes nothing. */
    method Set(d: Durations, k: Key, raw: string) returns (ok: bool)
      modifies this`settings
      ensures ok == Parse(d, k.kind, raw).Some?
      ensures settings == if ok then old(settings)[k.index := Parse(d, k.kind, raw).value] else old(settings)
    {
      var parsed := Parse(d, k.kind, raw);
      ok := parsed.Some?;
      if ok {
        settings := settings[k.index := parsed.value];
      }
    }
  }

  method Lookup(keys: seq<Key>, path: string) returns (key: Option<Key>)
    ensures key.Some? ==> key.value in keys && key.value.path == path
    ensures key.None? ==> forall k | k in keys :: k.path != path
  {
    var i := 0;
    while i < |keys|
      invariant 0 <= i <= |keys|
      invariant forall j | 0 <= j < i :: keys[j].path != path
    {
      if keys[i].path == path {
        return Some(keys[i]);
      }
      i := i + 1;
    }
    key := None;
  }

  /** Sets the file's values over the defaults, in whatever order they come. */
  method Resolve(sc: Schema, ghost current: Key, keys: seq<Key>, currentIndex: seq<nat>, file: File)
      returns (c: Result<Config, string>)
    requires Sound(sc, current) && keys == KeyList(sc) && currentIndex == current.index
    requires file.current == if CURRENT in file.values then file.values[CURRENT] else ""
    ensures c.Ok? ==> ResolvesTo(sc, current, file, c.value)
    ensures c.Err? <==> exists k :: k in keys && !Parses(sc, k, file.values)
  {
    var cell := new Cell(sc.defaults);
    var left := file.values.Keys;
    while left != {}
      invariant left <= file.values.Keys
      invariant Overlaid(sc, Done(file.values, left), cell.settings)
      decreases left
    {
      var name :| name in left;
      var key := Lookup(keys, name);
      ghost var before := cell.settings;
      if key.Some? {
        var ok := cell.Set(sc.durations, key.value, file.values[name]);
        if !ok {
          assert !Parses(sc, key.value, file.values);
          return Err(name);
        }
        OverlaidMore(sc, file.values, left, key.value, before, cell.settings);
      } else {
        OverlaidSkip(sc, file.values, left, name, before);
      }
      left := left - {name};
    }
    assert Done(file.values, {}) == file.values;
    cell.contexts := file.contexts;
    ghost var before := cell.settings;
    cell.settings := cell.settings[currentIndex := VString(file.current)];
    OverlaidCurrent(sc, current, file, before, cell.settings);
    c := Ok(Config(cell.settings, cell.contexts));
  }

  ghost function Done(values: map<string, string>, left: set<string>): map<string, string> {
    values - left
  }

  lemma OverlaidMore(sc: Schema, values: map<string, string>, left: set<string>, key: Key, s: Settings, s': Settings)
    requires WellNamed(sc.fields) && Typed(sc, sc.defaults)
    requires key in KeyList(sc) && key.path in left && left <= values.Keys
    requires Overlaid(sc, Done(values, left), s) && Parses(sc, key, values)
    requires s' == s[key.index := Parse(sc.durations, key.kind, values[key.path]).value]
    ensures Overlaid(sc, Done(values, left - {key.path}), s')
  {
    forall k | k in KeyList(sc)
      ensures k.index in s' && Parses(sc, k, Done(values, left - {key.path}))
              && s'[k.index] == Overlay(sc, Done(values, left - {key.path}), k)
    {
      PathsPrefixFree(sc.fields, k, key);
      assert Parses(sc, k, Done(values, left));
    }
  }

  lemma OverlaidSkip(sc: Schema, values: map<string, string>, left: set<string>, name: string, s: Settings)
    requires Typed(sc, sc.defaults) && forall k | k in KeyList(sc) :: k.path != name
    requires Overlaid(sc, Done(values, left), s)
    ensures Overlaid(sc, Done(values, left - {name}), s)
  {
    forall k | k in KeyList(sc)
      ensures k.index in s && Parses(sc, k, Done(values, left - {name}))
              && s[k.index] == Overlay(sc, Done(values, left - {name}), k)
    {
      assert Parses(sc, k, Done(values, left));
    }
  }

  lemma OverlaidCurrent(sc: Schema, current: Key, file: File, s: Settings, s': Settings)
    requires Sound(sc, current) && Overlaid(sc, file.values, s)
    requires s' == s[current.index := VString(file.current)]
    ensures Overlaid(sc, file.values[CURRENT := file.current], s')
  {
    var values := file.values[CURRENT := file.current];
    forall k | k in KeyList(sc)
      ensures k.index in s' && Parses(sc, k, values) && s'[k.index] == Overlay(sc, values, k)
    {
      PathsPrefixFree(sc.fields, k, current);
      assert Parses(sc, k, file.values);
    }
  }

  /** What a file holds: its contexts are set aside and the rest is collected key by key. */
  method LoadFile(sc: Schema, tree: T.Tree) returns (file: Result<File, string>)
    requires F.Sorts(sc.sorted)
    ensures file == Load(sc, tree)
  {
    var doc := tree;
    var contexts: map<string, T.Context> := map[];
    if CONTEXTS in doc {
      if !doc[CONTEXTS].Contexts? {
        return Err(CONTEXTS);
      }
      contexts := doc[CONTEXTS].contexts;
    }
    doc := doc - {CONTEXTS};
    var values := new F.Collector();
    var failure := values.FlattenTree(F.Loader(Known(sc), sc.sorted), T.Dir(doc), "");
    if failure.Some? {
      return Err(failure.value);
    }
    var current := if CURRENT in values.out then values.out[CURRENT] else "";
    file := Ok(File(values.out, contexts, current));
  }

  /** The file does not load, or a value in it does not parse. */
  ghost predicate Unreadable(sc: Schema, disk: Option<T.Tree>)
    requires F.Sorts(sc.sorted)
  {
    && disk.Some?
    && match Load(sc, disk.value)
       case Err(_) => true
       case Ok(file) => exists k :: k in KeyList(sc) && !Parses(sc, k, file.values)
  }

  method ReadConfigFile(sc: Schema, ghost current: Key, currentIndex: seq<nat>, disk: Option<T.Tree>)
      returns (existing: Option<File>, c: Result<Config, string>)
    requires Sound(sc, current) && currentIndex == current.index
    ensures c.Ok? ==> ReadAs(sc, current, disk, existing, c.value)
    ensures c.Err? <==> Unreadable(sc, disk)
    ensures disk.None? ==> existing.None? && c == Ok(Config(sc.defaults, map[]))
  {
    if disk.None? {
      return None, Ok(Config(sc.defaults, map[]));
    }
    var file := LoadFile(sc, disk.value);
    if file.Err? {
      return None, Err(file.error);
    }
    c := Resolve(sc, current, KeyList(sc), currentIndex, file.value);
    existing := Some(file.value);
  }

  // ---------- saving ----------

  ghost predicate Differs(sc: Schema, before: Settings, after: Settings, k: Key)
    requires k.index in before && k.index in after
  {
    Get(sc, before, k) != Get(sc, after, k)
  }

  /** The values carried over from the file, with the first n keys that differ written over them. */
  function Edited(sc: Schema, carried: map<string, string>, before: Settings, after: Settings, n: nat)
    : map<string, string>
    requires Typed(sc, before) && Typed(sc, after) && n <= |KeyList(sc)|
  {
    if n == 0 then carried
    else
      var k := KeyList(sc)[n - 1];
      var sofar := Edited(sc, carried, before, after, n - 1);
      if Get(sc, before, k) != Get(sc, after, k) then sofar[k.path := Get(sc, after, k)] else sofar
  }

  /** One more key that differs writes its own path and no other. */
  lemma EditedMore(sc: Schema, sofar: map<string, string>, value: string, last: Key, k: Key)
    requires WellNamed(sc.fields) && k in KeyList(sc) && last in KeyList(sc)
    ensures var e := sofar[last.path := value];
            if k == last then k.path in e && e[k.path] == value
            else (k.path in e <==> k.path in sofar) && (k.path in e ==> e[k.path] == sofar[k.path])
  {
    PathsPrefixFree(sc.fields, k, last);
  }

  lemma {:induction false} EditedAt(sc: Schema, carried: map<string, string>, before: Settings, after: Settings,
                                    n: nat, k: Key)
    requires WellNamed(sc.fields) && Typed(sc, before) && Typed(sc, after) && n <= |KeyList(sc)|
    requires k in KeyList(sc)
    ensures var e := Edited(sc, carried, before, after, n);
            if k in KeyList(sc)[..n] && Differs(sc, before, after, k) then k.path in e && e[k.path] == Get(sc, after, k)
            else (k.path in e <==> k.path in carried) && (k.path in e ==> e[k.path] == carried[k.path])
  {
    if n > 0 {
      var last := KeyList(sc)[n - 1];
      EditedAt(sc, carried, before, after, n - 1, k);
      assert KeyList(sc)[..n] == KeyList(sc)[..n - 1] + [last];
      assert last in KeyList(sc);
      EditedMore(sc, Edited(sc, carried, before, after, n - 1), Get(sc, after, last), last, k);
    }
  }

  lemma {:induction false} EditedKeys(sc: Schema, carried: map<string, string>, before: Settings, after: Settings,
                                      n: nat)
    requires Typed(sc, before) && Typed(sc, after) && n <= |KeyList(sc)|
    ensures Edited(sc, carried, before, after, n).Keys <= carried.Keys + Known(sc)
  {
    if n > 0 {
      EditedKeys(sc, carried, before, after, n - 1);
      assert KeyList(sc)[n - 1].path in Known(sc);
    }
  }

  lemma KnownPrefixFree(sc: Schema, paths: set<string>)
    requires WellNamed(sc.fields) && paths <= Known(sc)
    ensures T.PrefixFree(paths)
    ensures forall path | path in paths :: "" !in Split(path, '.')
  {
    forall p | p in paths
      ensures exists k :: k in KeyList(sc) && k.path == p
    {
      var i :| 0 <= i < |KeyList(sc)| && KeyList(sc)[i].path == p;
      assert KeyList(sc)[i] in KeyList(sc);
    }
    forall p, q | p in paths && q in paths && p != q
      ensures !Comparable(Split(p, '.'), Split(q, '.'))
    {
      var k :| k in KeyList(sc) && k.path == p;
      var l :| l in KeyList(sc) && l.path == q;
      PathsPrefixFree(sc.fields, k, l);
    }
    forall p | p in paths
      ensures "" !in Split(p, '.')
    {
      var k :| k in KeyList(sc) && k.path == p;
      KeySplits(sc.fields, k);
    }
  }

  /** The text of the current context in a configuration. */
  function CurrentOf(c: Config, index: seq<nat>): string {
    if index in c.settings && c.settings[index].VString? then c.settings[index].text else ""
  }

  /** The raw values of the file read, none when there was no file. */
  function Carried(existing: Option<File>): map<string, string> {
    if existing.Some? then existing.value.values else map[]
  }

  /** The values a save writes: what the file carried and what the edit changed, with the current context on
      its own.
   */
  function Saved(sc: Schema, existing: Option<File>, before: Config, after: Config, index: seq<nat>)
    : map<string, string>
    requires Typed(sc, before.settings) && Typed(sc, after.settings)
  {
    var edited := Edited(sc, Carried(existing), before.settings, after.settings, |KeyList(sc)|) - {CURRENT};
    if CurrentOf(after, index) != "" then edited[CURRENT := CurrentOf(after, index)] else edited
  }

  /** The document a save leaves: the tree of the saved values, and the contexts when there are any. */
  ghost predicate SavedAs(sc: Schema, existing: Option<File>, before: Config, after: Config, index: seq<nat>,
                          tree: T.Tree)
    requires Typed(sc, before.settings) && Typed(sc, after.settings)
  {
    && T.StandsFor(tree - {CONTEXTS}, Saved(sc, existing, before, after, index))
    && (CONTEXTS in tree <==> |after.contexts| > 0)
    && (CONTEXTS in tree ==> tree[CONTEXTS] == T.Contexts(after.contexts))
  }

  /** No key lies under the name of a field that is neither a scalar nor a struct. */
  lemma NoKeyUnder(sc: Schema, name: string, k: Key)
    requires WellNamed(sc.fields) && FieldDesc(name, Other) in sc.fields && name != "" && k in KeyList(sc)
    ensures Split(k.path, '.')[0] != name
  {
    KeySplits(sc.fields, k);
    var i :| 0 <= i < |sc.fields| && sc.fields[i] == FieldDesc(name, Other);
    var j := k.index[0];
    assert i != j;
    if i < j {
      assert sc.fields[i].name != sc.fields[j].name;
    } else {
      assert sc.fields[j].name != sc.fields[i].name;
    }
  }

  /** The tree of known values has nothing under the name of the contexts. */
  lemma NoContextsName(sc: Schema, t: T.Tree, values: map<string, string>)
    requires WellNamed(sc.fields) && FieldDesc(CONTEXTS, Other) in sc.fields
    requires T.StandsFor(t, values) && values.Keys <= Known(sc)
    ensures CONTEXTS !in t
  {
    if CONTEXTS in t {
      assert T.TightNode(t[CONTEXTS]) && T.ScalarNode(t[CONTEXTS]);
      var path: seq<string> := [];
      if t[CONTEXTS].Dir? {
        path := T.SomeScalar(t[CONTEXTS]);
      }
      var whole := [CONTEXTS] + path;
      assert whole[1..] == path && T.At(t, whole).Some?;
      assert T.At(t, whole) == T.Valued(values, whole);
      var key := Join(whole, '.');
      var i :| 0 <= i < |KeyList(sc)| && KeyList(sc)[i].path == key;
      assert KeyList(sc)[i] in KeyList(sc);
      NoKeyUnder(sc, CONTEXTS, KeyList(sc)[i]);
    }
  }

  lemma SavedKnown(sc: Schema, current: Key, existing: Option<File>, before: Config, after: Config)
    requires Sound(sc, current) && Typed(sc, before.settings) && Typed(sc, after.settings)
    requires Carried(existing).Keys <= Known(sc)
    ensures Saved(sc, existing, before, after, current.index).Keys <= Known(sc)
  {
    EditedKnown(sc, current, Carried(existing), before.settings, after.settings);
  }

  /** The file's values with the keys that differ written over them. */
  method ChangedValues(sc: Schema, carried: map<string, string>, before: Settings, after: Settings)
      returns (values: map<string, string>)
    requires Typed(sc, before) && Typed(sc, after)
    ensures values == Edited(sc, carried, before, after, |KeyList(sc)|)
  {
    values := carried;
    var keys := KeyList(sc);
    var i := 0;
    while i < |keys|
      invariant 0 <= i <= |keys|
      invariant values == Edited(sc, carried, before, after, i)
    {
      var key := keys[i];
      assert key in KeyList(sc);
      var was, now := Get(sc, before, key), Get(sc, after, key);
      if was != now {
        values := values[key.path := now];
      }
      i := i + 1;
    }
  }

  /** The tree of values, with the current context set when there is one. */
  method NestedTree(values: map<string, string>, name: string) returns (tree: N.NestedMap)
    requires CURRENT !in values && T.PrefixFree(values.Keys + {CURRENT})
    ensures tree.Valid() && fresh(tree.Repr)
    ensures T.StandsFor(tree.Contents, if name != "" then values[CURRENT := name] else values)
  {
    tree := N.BuildTree(values);
    if name != "" {
      CurrentStands(tree.Contents, values, name);
      tree.Put(CURRENT, N.Text(name));
    }
  }

  /** A file loads exactly when contexts stand at the top or nowhere and the key of every scalar beside them is
      known.
   */
  lemma LoadIff(sc: Schema, tree: T.Tree)
    requires F.Sorts(sc.sorted)
    ensures var rest := tree - {CONTEXTS};
            Load(sc, tree).Ok? <==>
              && (CONTEXTS in tree ==> tree[CONTEXTS].Contexts?) && T.OnlyScalars(rest)
              && forall path | F.ScalarAt(rest, path) :: F.Dotted("", path) in Known(sc)
  {
    var l, rest := F.Loader(Known(sc), sc.sorted), tree - {CONTEXTS};
    F.NodeFlattens(l, T.Dir(rest), "", map[]);
  }

  /** What loads carries exactly the keys of those scalars. */
  lemma LoadKeys(sc: Schema, tree: T.Tree, key: string)
    requires F.Sorts(sc.sorted) && Load(sc, tree).Ok?
    ensures key in Load(sc, tree).value.values <==>
              exists path :: F.ScalarAt(tree - {CONTEXTS}, path) && F.Dotted("", path) == key
  {
    var l, rest := F.Loader(Known(sc), sc.sorted), tree - {CONTEXTS};
    F.NodeFlattens(l, T.Dir(rest), "", map[]);
  }

  /** Every value it carries is the text of a scalar of that key; its current context and its contexts are the
      ones the file has, or none.
   */
  lemma LoadHolds(sc: Schema, tree: T.Tree, key: string)
    requires F.Sorts(sc.sorted) && Load(sc, tree).Ok?
    ensures var file := Load(sc, tree).value;
            && (key in file.values ==> F.GivesText(T.Dir(tree - {CONTEXTS}), "", key, file.values[key]))
            && (CURRENT in file.values ==> file.current == file.values[CURRENT])
            && (CURRENT !in file.values ==> file.current == "")
            && (CONTEXTS in tree ==> tree[CONTEXTS] == T.Contexts(file.contexts))
            && (CONTEXTS !in tree ==> file.contexts == map[])
  {
    if key in Load(sc, tree).value.values {
      F.NodeHolds(F.Loader(Known(sc), sc.sorted), T.Dir(tree - {CONTEXTS}), "", map[], key);
    }
  }

  /** A file that does not load is refused for its contexts, or for the first path it cannot read. */
  lemma LoadFault(sc: Schema, tree: T.Tree) returns (path: seq<string>)
    requires F.Sorts(sc.sorted) && Load(sc, tree).Err?
    ensures if CONTEXTS in tree && !tree[CONTEXTS].Contexts? then Load(sc, tree).error == "contexts"
            else
              && F.FirstRefused(F.Loader(Known(sc), sc.sorted), T.Dir(tree - {CONTEXTS}), "", path)
              && Load(sc, tree).error == F.Dotted("", path)
  {
    path := F.NodeRefused(F.Loader(Known(sc), sc.sorted), T.Dir(tree - {CONTEXTS}), "", map[]);
  }

  const ACME: T.Node := T.Dir(map["accent" := T.Leaf("#7c3aed")])

  /** A file that defines a theme: themes is a field of the configuration but no key, and so it is refused. */
  lemma ThemesRefused(sc: Schema, tree: T.Tree)
    requires F.Sorts(sc.sorted) && WellNamed(sc.fields) && FieldDesc(THEMES, Other) in sc.fields
    requires tree == map[THEMES := T.Dir(map["acme" := ACME])]
    ensures Load(sc, tree).Err?
  {
    var path := [THEMES] + (["acme"] + (["accent"] + []));
    ThemeScalar(tree - {CONTEXTS}, path);
    ThemeKey(path);
    LoadIff(sc, tree);
    if i :| 0 <= i < |KeyList(sc)| && KeyList(sc)[i].path == F.Dotted("", path) {
      NoKeyUnder(sc, THEMES, KeyList(sc)[i]);
    }
  }

  lemma ThemeScalar(rest: T.Tree, path: seq<string>)
    requires THEMES in rest && rest[THEMES] == T.Dir(map["acme" := ACME])
    requires path == [THEMES] + (["acme"] + (["accent"] + []))
    ensures F.ScalarAt(rest, path)
  {
    F.AtFirst(rest, THEMES, ["acme"] + (["accent"] + []), "");
    F.AtFirst(rest[THEMES].entries, "acme", ["accent"] + [], "");
    F.AtFirst(ACME.entries, "accent", [], "");
  }

  lemma ThemeKey(path: seq<string>)
    requires path == [THEMES] + (["acme"] + (["accent"] + []))
    ensures Split(F.Dotted("", path), '.')[0] == THEMES
  {
    F.AtFirst(map[], THEMES, ["acme"] + (["accent"] + []), "");
    F.AtFirst(map[], "acme", ["accent"] + [], THEMES);
    F.AtFirst(map[], "accent", [], THEMES + "." + "acme");
    KeyUnder(THEMES, "acme" + "." + "accent");
    assert THEMES + "." + "acme" + "." + "accent" == THEMES + "." + ("acme" + "." + "accent");
  }

  lemma KeyUnder(name: string, rest: string)
    requires Free(name, '.')
    ensures Split(name + "." + rest, '.')[0] == name
  {
    SplitAppend(name, rest, '.');
    SplitFree(name, '.');
  }

  /** The document an edit leaves behind, built as nested maps and then written out. */
  method SaveChanges(sc: Schema, ghost current: Key, currentIndex: seq<nat>, existing: Option<File>,
                     before: Config, after: Config) returns (tree: T.Tree)
    requires Sound(sc, current) && currentIndex == current.index
    requires Typed(sc, before.settings) && Typed(sc, after.settings)
    requires Carried(existing).Keys <= Known(sc)
    ensures SavedAs(sc, existing, before, after, currentIndex, tree)
  {
    var carried := Carried(existing);
    var values := ChangedValues(sc, carried, before.settings, after.settings);
    EditedKnown(sc, current, carried, before.settings, after.settings);
    values := values - {CURRENT};
    KnownPrefixFree(sc, values.Keys + {CURRENT});
    var nested := NestedTree(values, CurrentOf(after, currentIndex));
    SavedKnown(sc, current, existing, before, after);
    ghost var plain := nested.Contents;
    NoContextsName(sc, plain, Saved(sc, existing, before, after, currentIndex));
    if |after.contexts| > 0 {
      nested.Put(CONTEXTS, N.Bundle(after.contexts));
    }
    tree := nested.Document();
    ContextsAside(plain, T.Contexts(after.contexts));
  }

  lemma ContextsAside(plain: T.Tree, node: T.Node)
    requires CONTEXTS !in plain
    ensures plain - {CONTEXTS} == plain && plain[CONTEXTS := node] - {CONTEXTS} == plain
  {
  }

  lemma EditedKnown(sc: Schema, current: Key, carried: map<string, string>, before: Settings, after: Settings)
    requires Sound(sc, current) && Typed(sc, before) && Typed(sc, after) && carried.Keys <= Known(sc)
    ensures Edited(sc, carried, before, after, |KeyList(sc)|).Keys + {CURRENT} <= Known(sc)
  {
    EditedKeys(sc, carried, before, after, |KeyList(sc)|);
    var i :| 0 <= i < |KeyList(sc)| && KeyList(sc)[i] == current;
    assert KeyList(sc)[i].path == CURRENT;
  }

  lemma CurrentStands(tree: T.Tree, values: map<string, string>, name: string)
    requires T.StandsFor(tree, values) && CURRENT !in values && T.PrefixFree(values.Keys + {CURRENT})
    ensures T.StandsFor(tree[CURRENT := T.Leaf(name)], values[CURRENT := name])
  {
    CurrentIsOneName();
    T.InsertStands(tree, values, CURRENT, name);
  }

  lemma CurrentIsOneName()
    ensures Split(CURRENT, '.') == [CURRENT]
  {
    SplitFree(CURRENT, '.');
  }

  /** Reads the configuration, applies an edit and saves what changed; a failed edit leaves the disk alone. */
  method EditConfig(sc: Schema, ghost current: Key, currentIndex: seq<nat>, disk: Option<T.Tree>,
                    apply: Config -> Result<Config, string>)
      returns (after: Result<Config, string>, left: Option<T.Tree>)
    requires Sound(sc, current) && currentIndex == current.index
    requires forall c :: apply(c).Ok? ==> Typed(sc, apply(c).value.settings)
    ensures after.Err? ==> left == disk
    ensures Unreadable(sc, disk) ==> after.Err?
    ensures !Unreadable(sc, disk) ==> exists existing, before ::
              ReadAs(sc, current, disk, existing, before) && apply(before) == after
    ensures after.Ok? ==> left.Some? && exists existing, before ::
              && ReadAs(sc, current, disk, existing, before) && apply(before) == after
              && Typed(sc, before.settings) && SavedAs(sc, existing, before, after.value, currentIndex, left.value)
  {
    var existing, read := ReadConfigFile(sc, current, currentIndex, disk);
    if read.Err? {
      return Err(read.error), disk;
    }
    var before := read.value;
    after := apply(before);
    if after.Err? {
      return after, disk;
    }
    ReadIsTyped(sc, current, disk, existing, before);
    var tree := SaveChanges(sc, current, currentIndex, existing, before, after.value);
    left := Some(tree);
  }

  /** A configuration that was read is typed, and its file carries known keys only. */
  lemma ReadIsTyped(sc: Schema, current: Key, disk: Option<T.Tree>, existing: Option<File>, c: Config)
    requires Sound(sc, current) && ReadAs(sc, current, disk, existing, c)
    ensures Typed(sc, c.settings)
    ensures Carried(existing).Keys <= Known(sc)
  {
    if disk.Some? {
      LoadIff(sc, disk.value);
      forall key | key in existing.value.values
        ensures key in Known(sc)
      {
        LoadKeys(sc, disk.value, key);
      }
      var values := existing.value.values[CURRENT := existing.value.current];
      forall k | k in KeyList(sc)
        ensures k.index in c.settings && HasKind(c.settings[k.index], k.kind)
      {
        assert Parses(sc, k, values) && c.settings[k.index] == Overlay(sc, values, k);
      }
    }
  }

  /** What reading gave a key: its raw value parsed when the file carries it, and otherwise its default. */
  lemma ReadKey(sc: Schema, current: Key, disk: Option<T.Tree>, existing: Option<File>, c: Config, k: Key)
    requires Sound(sc, current) && ReadAs(sc, current, disk, existing, c) && k in KeyList(sc) && k != current
    ensures k.index in c.settings && Parses(sc, k, Carried(existing))
    ensures c.settings[k.index] == Overlay(sc, Carried(existing), k)
  {
    PathsPrefixFree(sc.fields, k, current);
    if disk.Some? {
      var values := existing.value.values[CURRENT := existing.value.current];
      assert Parses(sc, k, values) && c.settings[k.index] == Overlay(sc, values, k);
    }
  }

  /** The file has a scalar of this key. */
  ghost predicate Present(tree: T.Tree, k: Key) {
    exists path :: F.ScalarAt(tree - {CONTEXTS}, path) && F.Dotted("", path) == k.path
  }

  /** This text of this key is in the file, and v is what it parses to. */
  ghost predicate ParsedFrom(sc: Schema, tree: T.Tree, k: Key, text: string, v: Value) {
    F.GivesText(T.Dir(tree - {CONTEXTS}), "", k.path, text) && Parse(sc.durations, k.kind, text) == Some(v)
  }

  /** What is read from a file: a key holds what a scalar of that key in the file parses to when there is one,
      and otherwise its default, but for the current context, which then is empty; and the file's contexts.
   */
  lemma ReadHolds(sc: Schema, current: Key, tree: T.Tree, existing: Option<File>, c: Config, k: Key)
    requires Sound(sc, current) && ReadAs(sc, current, Some(tree), existing, c) && k in KeyList(sc)
    ensures k.index in c.settings
    ensures Present(tree, k) ==> exists text :: ParsedFrom(sc, tree, k, text, c.settings[k.index])
    ensures !Present(tree, k) ==> c.settings[k.index] == if k == current then VString("") else sc.defaults[k.index]
    ensures if CONTEXTS in tree then tree[CONTEXTS] == T.Contexts(c.contexts) else c.contexts == map[]
  {
    var values := existing.value.values;
    LoadKeys(sc, tree, k.path);
    LoadHolds(sc, tree, k.path);
    if k == current {
      var more := values[CURRENT := existing.value.current];
      assert Parses(sc, k, more) && c.settings[k.index] == Overlay(sc, more, k);
    } else {
      ReadKey(sc, current, Some(tree), existing, c, k);
    }
    if Present(tree, k) {
      assert ParsedFrom(sc, tree, k, values[k.path], c.settings[k.index]);
    }
  }

  /** What the saved document loads to. */
  lemma SavedLoads(sc: Schema, current: Key, existing: Option<File>, before: Config, after: Config, tree: T.Tree)
    requires Sound(sc, current) && Typed(sc, before.settings) && Typed(sc, after.settings)
    requires Carried(existing).Keys <= Known(sc)
    requires SavedAs(sc, existing, before, after, current.index, tree)
    ensures Load(sc, tree) ==
            Ok(File(Saved(sc, existing, before, after, current.index), after.contexts, CurrentOf(after, current.index)))
  {
    var saved := Saved(sc, existing, before, after, current.index);
    SavedKnown(sc, current, existing, before, after);
    KnownPrefixFree(sc, saved.Keys);
    F.FlattenUndoes(F.Loader(Known(sc), sc.sorted), tree - {CONTEXTS}, saved);
  }

  /** The saved value of a key other than the current context: what the edit changed, or what the file said. */
  lemma SavedKey(sc: Schema, current: Key, existing: Option<File>, before: Config, after: Config, k: Key)
    requires Sound(sc, current) && Typed(sc, before.settings) && Typed(sc, after.settings)
    requires k in KeyList(sc) && k != current
    ensures var saved := Saved(sc, existing, before, after, current.index);
            if Differs(sc, before.settings, after.settings, k) then
              k.path in saved && saved[k.path] == Get(sc, after.settings, k)
            else
              && (k.path in saved <==> k.path in Carried(existing))
              && (k.path in saved ==> saved[k.path] == Carried(existing)[k.path])
  {
    PathsPrefixFree(sc.fields, k, current);
    EditedAtEnd(sc, Carried(existing), before.settings, after.settings, k);
    SavedBeside(sc, existing, before, after, current.index, k.path);
  }

  lemma EditedAtEnd(sc: Schema, carried: map<string, string>, before: Settings, after: Settings, k: Key)
    requires WellNamed(sc.fields) && Typed(sc, before) && Typed(sc, after) && k in KeyList(sc)
    ensures var e := Edited(sc, carried, before, after, |KeyList(sc)|);
            if Differs(sc, before, after, k) then k.path in e && e[k.path] == Get(sc, after, k)
            else (k.path in e <==> k.path in carried) && (k.path in e ==> e[k.path] == carried[k.path])
  {
    EditedAt(sc, carried, before, after, |KeyList(sc)|, k);
    var keys := KeyList(sc);
    assert keys[..|keys|] == keys;
  }

  lemma SavedBeside(sc: Schema, existing: Option<File>, before: Config, after: Config, index: seq<nat>, path: string)
    requires Typed(sc, before.settings) && Typed(sc, after.settings) && path != CURRENT
    ensures var edited := Edited(sc, Carried(existing), before.settings, after.settings, |KeyList(sc)|);
            var saved := Saved(sc, existing, before, after, index);
            (path in saved <==> path in edited) && (path in saved ==> saved[path] == edited[path])
  {
  }

  lemma BesideContexts(tree: T.Tree, path: seq<string>)
    requires |path| > 0 && path[0] != CONTEXTS
    ensures T.At(tree, path) == T.At(tree - {CONTEXTS}, path)
  {
    if path[0] in tree {
      assert path[0] in tree - {CONTEXTS} && (tree - {CONTEXTS})[path[0]] == tree[path[0]];
    }
  }

  lemma SavedAt(sc: Schema, current: Key, existing: Option<File>, before: Config, after: Config, tree: T.Tree,
                k: Key)
    requires Sound(sc, current) && Typed(sc, before.settings) && Typed(sc, after.settings)
    requires SavedAs(sc, existing, before, after, current.index, tree) && k in KeyList(sc)
    ensures var saved := Saved(sc, existing, before, after, current.index);
            T.At(tree, Split(k.path, '.')) == if k.path in saved then Some(saved[k.path]) else None
  {
    var saved := Saved(sc, existing, before, after, current.index);
    NoKeyUnder(sc, CONTEXTS, k);
    BesideContexts(tree, Split(k.path, '.'));
    T.ValuedAt(saved, k.path);
    assert T.At(tree - {CONTEXTS}, Split(k.path, '.')) == T.Valued(saved, Split(k.path, '.'));
  }

  /** What a saved document says at the place of each key: the text of the current context unless it is empty,
      the new text of a key the edit changed, and for any other key what the file carried or nothing; and it
      names contexts exactly when there are some.
   */
  lemma SavedDocument(sc: Schema, current: Key, existing: Option<File>, before: Config, after: Config,
                      tree: T.Tree, k: Key)
    requires Sound(sc, current) && Typed(sc, before.settings) && Typed(sc, after.settings)
    requires SavedAs(sc, existing, before, after, current.index, tree) && k in KeyList(sc)
    ensures T.At(tree, Split(k.path, '.')) ==
            if k == current then
              if Get(sc, after.settings, k) == "" then None else Some(Get(sc, after.settings, k))
            else if Differs(sc, before.settings, after.settings, k) then Some(Get(sc, after.settings, k))
            else if k.path in Carried(existing) then Some(Carried(existing)[k.path]) else None
    ensures "contexts" in tree <==> after.contexts != map[]
  {
    SavedAt(sc, current, existing, before, after, tree, k);
    if k != current {
      SavedKey(sc, current, existing, before, after, k);
    } else {
      SavedCurrent(sc, current, existing, before, after);
    }
  }

  lemma SavedCurrent(sc: Schema, current: Key, existing: Option<File>, before: Config, after: Config)
    requires Sound(sc, current) && Typed(sc, before.settings) && Typed(sc, after.settings)
    ensures var saved, name := Saved(sc, existing, before, after, current.index), Get(sc, after.settings, current);
            && (CURRENT in saved <==> name != "")
            && (CURRENT in saved ==> saved[CURRENT] == name)
  {
    assert HasKind(after.settings[current.index], current.kind);
  }

  /** The edit left the file at tree, and reading that gives c. */
  ghost predicate Reread(sc: Schema, current: Key, tree: T.Tree, c: Config)
    requires Sound(sc, current)
  {
    Load(sc, tree).Ok? && ReadAs(sc, current, Some(tree), Some(Load(sc, tree).value), c)
  }

  /** The saved document loads; it has the edited contexts and current context, and raw text that parses for
      every key; and a key the edit left alone keeps its raw text or stays absent, so no default is pinned.
   */
  lemma FileReload(sc: Schema, current: Key, disk: Option<T.Tree>, existing: Option<File>, before: Config,
                   after: Config, tree: T.Tree, k: Key)
    requires Sound(sc, current) && ReadAs(sc, current, disk, existing, before)
    requires Typed(sc, after.settings) && k in KeyList(sc)
    requires Typed(sc, before.settings) && SavedAs(sc, existing, before, after, current.index, tree)
    ensures Load(sc, tree).Ok?
    ensures var file := Load(sc, tree).value;
            && file.contexts == after.contexts && file.current == CurrentOf(after, current.index)
            && Parses(sc, k, file.values)
            && (k != current && !Differs(sc, before.settings, after.settings, k) ==>
                  && (k.path in file.values <==> k.path in Carried(existing))
                  && (k.path in file.values ==> file.values[k.path] == Carried(existing)[k.path]))
  {
    ReadIsTyped(sc, current, disk, existing, before);
    SavedLoads(sc, current, existing, before, after, tree);
    if k != current {
      SavedKey(sc, current, existing, before, after, k);
      ReadKey(sc, current, disk, existing, before, k);
      SetAfterGet(sc.durations, k.kind, after.settings[k.index]);
    }
  }

  /** What a key holds after the reload: what its rendering parses to where the edit changed it, and what it
      held before where it did not.
   */
  lemma KeyReload(sc: Schema, current: Key, disk: Option<T.Tree>, existing: Option<File>, before: Config,
                  after: Config, tree: T.Tree, c: Config, k: Key)
    requires Sound(sc, current) && ReadAs(sc, current, disk, existing, before)
    requires Typed(sc, after.settings) && k in KeyList(sc)
    requires Typed(sc, before.settings) && SavedAs(sc, existing, before, after, current.index, tree)
    requires Reread(sc, current, tree, c)
    ensures c.contexts == after.contexts && k.index in c.settings
    ensures var parsed := Parse(sc.durations, k.kind, Get(sc, after.settings, k));
            && parsed.Some?
            && c.settings[k.index] ==
               if k == current then after.settings[k.index]
               else if Differs(sc, before.settings, after.settings, k) then parsed.value
               else before.settings[k.index]
  {
    FileReload(sc, current, disk, existing, before, after, tree, k);
    ReadIsTyped(sc, current, disk, existing, before);
    SavedLoads(sc, current, existing, before, after, tree);
    SetAfterGet(sc.durations, k.kind, after.settings[k.index]);
    var file := Load(sc, tree).value;
    if k == current {
      var values := file.values[CURRENT := file.current];
      assert Parses(sc, k, values) && c.settings[k.index] == Overlay(sc, values, k);
    } else {
      SavedKey(sc, current, existing, before, after, k);
      ReadKey(sc, current, disk, existing, before, k);
      ReadKey(sc, current, Some(tree), Some(file), c, k);
    }
  }

  /** An edit of this key is not lost: where its text changed the new value parses back from it, and where
      its text did not change neither did the value.
   */
  ghost predicate Kept(sc: Schema, current: Key, before: Settings, after: Settings, k: Key)
    requires k.index in before && k.index in after
  {
    || k == current
    || if Differs(sc, before, after, k) then Survives(after[k.index]) else before[k.index] == after[k.index]
  }

  /** Two values of one kind with the same text are equal, except for lists. */
  lemma TextDetermines(durations: Durations, kind: Kind, v: Value, w: Value)
    requires ConfigValues.Lawful(durations) && HasKind(v, kind) && HasKind(w, kind) && kind != KStrings
    requires Render(durations, v) == Render(durations, w)
    ensures v == w
  {
    SetAfterGet(durations, kind, v);
    SetAfterGet(durations, kind, w);
  }

  /** Reading a configuration, editing it in any way, saving it and reading it again gives exactly the edited
      value of every key if and only if the edit is kept, which for every kind but lists it always is.
   */
  lemma EditReload(sc: Schema, current: Key, disk: Option<T.Tree>, existing: Option<File>, before: Config,
                   after: Config, tree: T.Tree, c: Config, k: Key)
    requires Sound(sc, current) && ReadAs(sc, current, disk, existing, before)
    requires Typed(sc, after.settings) && k in KeyList(sc)
    requires Typed(sc, before.settings) && SavedAs(sc, existing, before, after, current.index, tree)
    requires Reread(sc, current, tree, c)
    ensures c.contexts == after.contexts && k.index in c.settings
    ensures c.settings[k.index] == after.settings[k.index] <==> Kept(sc, current, before.settings, after.settings, k)
    ensures k.kind != KStrings ==> c.settings[k.index] == after.settings[k.index]
  {
    KeyReload(sc, current, disk, existing, before, after, tree, c, k);
    ValueRoundTrip(sc.durations, k.kind, after.settings[k.index]);
    if k.kind != KStrings && !Differs(sc, before.settings, after.settings, k) {
      TextDetermines(sc.durations, k.kind, before.settings[k.index], after.settings[k.index]);
    }
  }

  /** The text of a key, which is all a listing of the configuration shows, comes back in more cases: always,
      but for a changed list whose text is not settled.
   */
  lemma EditReloadText(sc: Schema, current: Key, disk: Option<T.Tree>, existing: Option<File>, before: Config,
                       after: Config, tree: T.Tree, c: Config, k: Key)
    requires Sound(sc, current) && ReadAs(sc, current, disk, existing, before)
    requires Typed(sc, after.settings) && k in KeyList(sc)
    requires Typed(sc, before.settings) && SavedAs(sc, existing, before, after, current.index, tree)
    requires Reread(sc, current, tree, c)
    ensures k.index in c.settings
    ensures Get(sc, c.settings, k) == Get(sc, after.settings, k) <==>
              (k != current && k.kind == KStrings && Differs(sc, before.settings, after.settings, k) ==>
                 Settled(Get(sc, after.settings, k)))
  {
    KeyReload(sc, current, disk, existing, before, after, tree, c, k);
    SetAfterGet(sc.durations, k.kind, after.settings[k.index]);
  }

  /** Three edits of a list that the reload does not give back: one item with a comma comes back as two, one
      with white space around it comes back trimmed, and joining two items into one is not even a change.
   */
  lemma ListEditsLost(sc: Schema, current: Key, disk: Option<T.Tree>, existing: Option<File>, before: Config,
                      after: Config, tree: T.Tree, c: Config, k: Key)
    requires Sound(sc, current) && ReadAs(sc, current, disk, existing, before)
    requires Typed(sc, after.settings) && k in KeyList(sc) && k.kind == KStrings
    requires Typed(sc, before.settings) && SavedAs(sc, existing, before, after, current.index, tree)
    requires Reread(sc, current, tree, c)
    ensures k.index in c.settings
    ensures var was, now, read := before.settings[k.index], after.settings[k.index], c.settings[k.index];
            && (was == VStrings([]) && now == VStrings(["a,b"]) ==> read == VStrings(["a", "b"]))
            && (was == VStrings([]) && now == VStrings([" x "]) ==> read == VStrings(["x"]))
            && (was == VStrings(["a", "b"]) && now == VStrings(["a,b"]) ==>
                  !Differs(sc, before.settings, after.settings, k) && read == was)
  {
    KeyReload(sc, current, disk, existing, before, after, tree, c, k);
    ItemsLost(sc.durations);
  }
}
