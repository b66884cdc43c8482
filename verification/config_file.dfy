/** Reading a configuration file's tree into flat values, as the exact inverse of nesting them. */
module ConfigFile {
  import opened Text
  import opened ConfigTree

  /** The keys that exist, and the sort of the standard library. */
  datatype Loader = Loader(known: set<string>, sorted: set<string> -> seq<string>)

  /** Sorting lists each name once, in order. */
  ghost predicate Sorts(sorted: set<string> -> seq<string>) {
    forall names :: IsSorted(sorted(names), names)
  }

  ghost predicate IsSorted(s: seq<string>, names: set<string>) {
    && (forall n :: n in s <==> n in names)
    && (forall i, j | 0 <= i < j < |s| :: s[i] != s[j] && Less(s[i], s[j]))
  }

  // ---------- flattening ----------

  /** Adds the scalars under the given names of a nested tree to out; Err names the first unknown key. */
  function FlattenNames(l: Loader, top: Node, names: seq<string>, prefix: string, out: map<string, string>)
    : Result<map<string, string>, string>
    requires Sorts(l.sorted) && top.Dir? && forall n | n in names :: n in top.entries
    decreases top, |names|
  {
    if |names| == 0 then Ok(out)
    else
      var here := FlattenNode(l, top.entries[names[0]], PathOf(prefix, names[0]), out);
      if here.Err? then here else FlattenNames(l, top, names[1..], prefix, here.value)
  }

  function FlattenNode(l: Loader, node: Node, key: string, out: map<string, string>)
    : Result<map<string, string>, string>
    requires Sorts(l.sorted)
    decreases node
  {
    match node
    case Dir(entries) =>
      assert IsSorted(l.sorted(entries.Keys), entries.Keys);
      FlattenNames(l, node, l.sorted(entries.Keys), key, out)
    case Leaf(text) => if key in l.known then Ok(out[key := text]) else Err(key)
    case Contexts(_) => Err(key)
  }

  /** The values collected while a tree is flattened. */
  class Collector {
    var out: map<string, string>

    constructor ()
      ensures out == map[]
    {
      out := map[];
    }

    method FlattenTree(l: Loader, top: Node, prefix: string) returns (failure: Option<string>)
      requires Sorts(l.sorted) && top.Dir?
      modifies this
      ensures Outcome(failure, out) == FlattenNode(l, top, prefix, old(out))
      decreases top, 0
    {
      var names := l.sorted(top.entries.Keys);
      assert IsSorted(names, top.entries.Keys);
      assert names[0..] == names;
      var i := 0;
      while i < |names|
        invariant 0 <= i <= |names|
        invariant forall n | n in names[i..] :: n in top.entries
        invariant FlattenNames(l, top, names[i..], prefix, out) == FlattenNode(l, top, prefix, old(out))
      {
        NextName(l, top, names, i, prefix, out);
        failure := FlattenValue(l, top.entries[names[i]], PathOf(prefix, names[i]));
        if failure.Some? {
          return;
        }
        i := i + 1;
      }
      failure := None;
    }

    method FlattenValue(l: Loader, node: Node, key: string) returns (failure: Option<string>)
      requires Sorts(l.sorted)
      modifies this
      ensures Outcome(failure, out) == FlattenNode(l, node, key, old(out))
      decreases node, 1
    {
      match node {
        case Dir(_) => failure := FlattenTree(l, node, key);
        case Leaf(text) =>
          if key !in l.known {
            return Some(key);
          }
          out := out[key := text];
          failure := None;
        case Contexts(_) => failure := Some(key);
      }
    }
  }

  /** What was collected, unless there was a failure. */
  function Outcome(failure: Option<string>, out: map<string, string>): Result<map<string, string>, string> {
    if failure.Some? then Err(failure.value) else Ok(out)
  }

  lemma NextName(l: Loader, top: Node, names: seq<string>, i: nat, prefix: string, out: map<string, string>)
    requires Sorts(l.sorted) && top.Dir? && i < |names| && forall n | n in names[i..] :: n in top.entries
    ensures names[i] in top.entries
    ensures forall n | n in names[i + 1..] :: n in top.entries
    ensures var here := FlattenNode(l, top.entries[names[i]], PathOf(prefix, names[i]), out);
            FlattenNames(l, top, names[i..], prefix, out) ==
            if here.Err? then here else FlattenNames(l, top, names[i + 1..], prefix, here.value)
  {
    assert names[i..][0] == names[i] && names[i..][1..] == names[i + 1..];
  }

  // ---------- which trees flatten ----------

  /** The key a path of names is flattened to; empty names in front leave no trace. */
  function Dotted(prefix: string, path: seq<string>): string
    decreases |path|
  {
    if |path| == 0 then prefix else Dotted(PathOf(prefix, path[0]), path[1..])
  }

  ghost predicate ScalarAt(t: Tree, path: seq<string>) {
    At(t, path).Some?
  }

  /** No contexts are below the top, and the key of every scalar is known. */
  ghost predicate Loads(l: Loader, node: Node, key: string) {
    match node
    case Leaf(_) => key in l.known
    case Contexts(_) => false
    case Dir(entries) =>
      && OnlyScalars(entries)
      && forall path | ScalarAt(entries, path) :: Dotted(key, path) in l.known
  }

  /** k is the key of some scalar. */
  ghost predicate Gives(node: Node, key: string, k: string) {
    match node
    case Leaf(_) => k == key
    case Contexts(_) => false
    case Dir(entries) => exists path :: ScalarAt(entries, path) && Dotted(key, path) == k
  }

  /** What is at a path is at the rest of it below its first name. */
  ghost predicate EndsAt(node: Node, rest: seq<string>) {
    if |rest| == 0 then node.Leaf? else node.Dir? && ScalarAt(node.entries, rest)
  }

  lemma AtFirst(entries: Tree, name: string, rest: seq<string>, key: string)
    ensures ScalarAt(entries, [name] + rest) <==> name in entries && EndsAt(entries[name], rest)
    ensures Dotted(key, [name] + rest) == Dotted(PathOf(key, name), rest)
  {
    assert ([name] + rest)[1..] == rest;
  }

  /** Both notions go down from a nested tree to what it holds. */
  lemma GivesDown(entries: Tree, key: string, k: string)
    ensures Gives(Dir(entries), key, k) <==> exists n :: n in entries && Gives(entries[n], PathOf(key, n), k)
  {
    if path :| ScalarAt(entries, path) && Dotted(key, path) == k {
      assert path == [path[0]] + path[1..];
      AtFirst(entries, path[0], path[1..], key);
      assert Gives(entries[path[0]], PathOf(key, path[0]), k);
    }
    if n :| n in entries && Gives(entries[n], PathOf(key, n), k) {
      var rest: seq<string> := [];
      if entries[n].Dir? {
        rest :| ScalarAt(entries[n].entries, rest) && Dotted(PathOf(key, n), rest) == k;
        assert |rest| > 0;
      }
      AtFirst(entries, n, rest, key);
      assert ScalarAt(entries, [n] + rest) && Dotted(key, [n] + rest) == k;
    }
  }

  lemma LoadsIff(l: Loader, node: Node, key: string)
    ensures Loads(l, node, key) <==> ScalarNode(node) && forall k :: Gives(node, key, k) ==> k in l.known
  {
    if node.Dir? && forall k :: Gives(node, key, k) ==> k in l.known {
      forall path | ScalarAt(node.entries, path)
        ensures Dotted(key, path) in l.known
      {
        assert Gives(node, key, Dotted(key, path));
      }
    }
  }

  lemma LoadsDown(l: Loader, entries: Tree, key: string)
    ensures Loads(l, Dir(entries), key) <==> forall n | n in entries :: Loads(l, entries[n], PathOf(key, n))
  {
    LoadsIff(l, Dir(entries), key);
    forall n | n in entries
      ensures Loads(l, entries[n], PathOf(key, n))
          <==> ScalarNode(entries[n]) && forall k :: Gives(entries[n], PathOf(key, n), k) ==> k in l.known
    {
      LoadsIff(l, entries[n], PathOf(key, n));
    }
    forall k
      ensures Gives(Dir(entries), key, k) <==> exists n :: n in entries && Gives(entries[n], PathOf(key, n), k)
    {
      GivesDown(entries, key, k);
    }
  }

  lemma {:induction false} NamesFlatten(l: Loader, top: Node, names: seq<string>, prefix: string,
                                        out: map<string, string>)
    requires Sorts(l.sorted) && top.Dir? && forall n | n in names :: n in top.entries
    ensures var r := FlattenNames(l, top, names, prefix, out);
            && (r.Ok? <==> forall n | n in names :: Loads(l, top.entries[n], PathOf(prefix, n)))
            && (r.Ok? ==> forall k :: k in r.value <==>
                  k in out || exists n :: n in names && Gives(top.entries[n], PathOf(prefix, n), k))
    decreases top, 0, |names|
  {
    if |names| > 0 {
      var here := FlattenNode(l, top.entries[names[0]], PathOf(prefix, names[0]), out);
      NodeFlattens(l, top.entries[names[0]], PathOf(prefix, names[0]), out);
      assert forall n :: n in names <==> n == names[0] || n in names[1..];
      if here.Ok? {
        NamesFlatten(l, top, names[1..], prefix, here.value);
      }
    }
  }

  /** Flattening succeeds exactly when no contexts are below the top and the key of every scalar is known, and
      then adds exactly the keys of the scalars.
   */
  lemma {:induction false} NodeFlattens(l: Loader, node: Node, key: string, out: map<string, string>)
    requires Sorts(l.sorted)
    ensures var r := FlattenNode(l, node, key, out);
            && (r.Ok? <==> Loads(l, node, key))
            && (r.Ok? ==> forall k :: k in r.value <==> k in out || Gives(node, key, k))
    decreases node, 1, 0
  {
    if node.Dir? {
      SortedElements(l, node.entries.Keys);
      assert forall n :: n in l.sorted(node.entries.Keys) <==> n in node.entries by {
        assert IsSorted(l.sorted(node.entries.Keys), node.entries.Keys);
      }
      NamesFlatten(l, node, l.sorted(node.entries.Keys), key, out);
      FlattenDir(l, node, key, out);
      LoadsDown(l, node.entries, key);
      forall k
        ensures Gives(node, key, k) <==> exists n :: n in node.entries && Gives(node.entries[n], PathOf(key, n), k)
      {
        GivesDown(node.entries, key, k);
      }
    }
  }

  // ---------- what is read from a tree, and what is refused first ----------

  /** k is the key of a scalar of that text. */
  ghost predicate GivesText(node: Node, key: string, k: string, text: string) {
    match node
    case Leaf(t) => k == key && text == t
    case Contexts(_) => false
    case Dir(entries) => exists path :: At(entries, path) == Some(text) && Dotted(key, path) == k
  }

  lemma TextUp(entries: Tree, name: string, key: string, k: string, text: string)
    requires name in entries && GivesText(entries[name], PathOf(key, name), k, text)
    ensures GivesText(Dir(entries), key, k, text)
  {
    var rest: seq<string> := [];
    if entries[name].Dir? {
      rest :| At(entries[name].entries, rest) == Some(text) && Dotted(PathOf(key, name), rest) == k;
      assert |rest| > 0;
    }
    AtFirst(entries, name, rest, key);
    assert ([name] + rest)[1..] == rest;
    assert At(entries, [name] + rest) == Some(text);
  }

  lemma {:induction false} NamesHold(l: Loader, top: Node, names: seq<string>, prefix: string,
                                     out: map<string, string>, k: string)
    requires Sorts(l.sorted) && top.Dir? && forall n | n in names :: n in top.entries
    requires FlattenNames(l, top, names, prefix, out).Ok? && k in FlattenNames(l, top, names, prefix, out).value
    ensures var text := FlattenNames(l, top, names, prefix, out).value[k];
            (k in out && out[k] == text) || GivesText(top, prefix, k, text)
    decreases top, 0, |names|
  {
    if |names| > 0 {
      var here := FlattenNode(l, top.entries[names[0]], PathOf(prefix, names[0]), out);
      NamesHold(l, top, names[1..], prefix, here.value, k);
      var text := FlattenNames(l, top, names, prefix, out).value[k];
      if k in here.value && here.value[k] == text {
        NodeHolds(l, top.entries[names[0]], PathOf(prefix, names[0]), out, k);
        if GivesText(top.entries[names[0]], PathOf(prefix, names[0]), k, text) {
          TextUp(top.entries, names[0], prefix, k, text);
        }
      }
    }
  }

  /** Every value collected is the text of a scalar of that key. */
  lemma {:induction false} NodeHolds(l: Loader, node: Node, key: string, out: map<string, string>, k: string)
    requires Sorts(l.sorted) && FlattenNode(l, node, key, out).Ok? && k in FlattenNode(l, node, key, out).value
    ensures var text := FlattenNode(l, node, key, out).value[k];
            (k in out && out[k] == text) || GivesText(node, key, k, text)
    decreases node, 1, 0
  {
    if node.Dir? {
      SortedElements(l, node.entries.Keys);
      FlattenDir(l, node, key, out);
      NamesHold(l, node, l.sorted(node.entries.Keys), key, out, k);
    }
  }

  /** What a path of names leads to. */
  function Reached(node: Node, path: seq<string>): Option<Node>
    decreases |path|
  {
    if |path| == 0 then Some(node)
    else if node.Dir? && path[0] in node.entries then Reached(node.entries[path[0]], path[1..])
    else None
  }

  /** A path to what cannot be read: a scalar of an unknown key, or contexts below the top. */
  ghost predicate Refused(l: Loader, node: Node, key: string, path: seq<string>) {
    var there := Reached(node, path);
    there.Some? && (there.value.Contexts? || (there.value.Leaf? && Dotted(key, path) !in l.known))
  }

  /** At the first name that is not the same, p has the lesser one. */
  predicate Before(p: seq<string>, q: seq<string>)
    decreases |p|
  {
    |p| > 0 && |q| > 0 && if p[0] == q[0] then Before(p[1..], q[1..]) else Less(p[0], q[0])
  }

  ghost predicate FirstRefused(l: Loader, node: Node, key: string, path: seq<string>) {
    Refused(l, node, key, path) && forall q | Refused(l, node, key, q) :: q == path || Before(path, q)
  }

  lemma RefusedDown(l: Loader, node: Node, key: string, path: seq<string>)
    requires node.Dir?
    ensures Refused(l, node, key, path) <==>
              && |path| > 0 && path[0] in node.entries
              && Refused(l, node.entries[path[0]], PathOf(key, path[0]), path[1..])
  {
  }

  lemma {:induction false} NamesRefused(l: Loader, top: Node, names: seq<string>, prefix: string,
                                        out: map<string, string>) returns (path: seq<string>)
    requires Sorts(l.sorted) && top.Dir? && forall n | n in names :: n in top.entries
    requires forall i, j | 0 <= i < j < |names| :: names[i] != names[j] && Less(names[i], names[j])
    ensures FlattenNames(l, top, names, prefix, out).Ok? ==>
              forall q | Refused(l, top, prefix, q) :: q[0] !in names
    ensures FlattenNames(l, top, names, prefix, out).Err? ==>
              && Refused(l, top, prefix, path) && Dotted(prefix, path) == FlattenNames(l, top, names, prefix, out).error
              && forall q | Refused(l, top, prefix, q) && q[0] in names :: q == path || Before(path, q)
    decreases top, 0, |names|
  {
    path := [];
    forall q
      ensures Refused(l, top, prefix, q) <==>
                && |q| > 0 && q[0] in top.entries
                && Refused(l, top.entries[q[0]], PathOf(prefix, q[0]), q[1..])
    {
      RefusedDown(l, top, prefix, q);
    }
    if |names| > 0 {
      var name := names[0];
      var here := FlattenNode(l, top.entries[name], PathOf(prefix, name), out);
      var inner := NodeRefused(l, top.entries[name], PathOf(prefix, name), out);
      if here.Err? {
        path := [name] + inner;
        assert path[1..] == inner;
        forall q | Refused(l, top, prefix, q) && q[0] in names
          ensures q == path || Before(path, q)
        {
          if q[0] == name {
            assert q == [name] + q[1..];
          }
        }
      } else {
        path := NamesRefused(l, top, names[1..], prefix, here.value);
        assert forall n | n in names :: n == name || n in names[1..];
      }
    }
  }

  /** When flattening fails, it names the key of the first path, in the order of names, that is refused. */
  lemma {:induction false} NodeRefused(l: Loader, node: Node, key: string, out: map<string, string>)
      returns (path: seq<string>)
    requires Sorts(l.sorted)
    ensures FlattenNode(l, node, key, out).Ok? ==> forall q :: !Refused(l, node, key, q)
    ensures FlattenNode(l, node, key, out).Err? ==>
              FirstRefused(l, node, key, path) && Dotted(key, path) == FlattenNode(l, node, key, out).error
    decreases node, 1, 0
  {
    path := [];
    if node.Dir? {
      var names := l.sorted(node.entries.Keys);
      assert IsSorted(names, node.entries.Keys);
      FlattenDir(l, node, key, out);
      path := NamesRefused(l, node, names, key, out);
      forall q | Refused(l, node, key, q)
        ensures |q| > 0 && q[0] in names
      {
        RefusedDown(l, node, key, q);
      }
    } else {
      forall q | Refused(l, node, key, q)
        ensures q == []
      {
      }
    }
  }

  // ---------- flattening undoes insertion ----------

  /** The values whose key lies under the path pre and then one of the names. */
  ghost function Under(values: map<string, string>, pre: seq<string>, names: set<string>): map<string, string> {
    map key | key in values && Below(key, pre, names) :: values[key]
  }

  ghost predicate Below(key: string, pre: seq<string>, names: set<string>) {
    var path := Split(key, '.');
    |pre| < |path| && path[..|pre|] == pre && path[|pre|] in names
  }

  /** The part of the tree at the path pre holds exactly the values under pre. */
  ghost predicate Part(t: Tree, values: map<string, string>, pre: seq<string>) {
    && (forall path | |path| > 0 :: At(t, path) == Valued(values, pre + path))
    && OnlyScalars(t) && Tight(t)
  }

  predicate Undotted(key: string) {
    key == "" || key[0] != '.'
  }

  /** Keys are known and none begins with a dot. */
  ghost predicate Usable(l: Loader, values: map<string, string>) {
    forall key | key in values :: key in l.known && Undotted(key)
  }

  ghost predicate Rooted(pre: seq<string>) {
    |pre| > 0 ==> pre[0] != ""
  }

  lemma {:induction false} JoinMore(pre: seq<string>, name: string)
    ensures Join(pre + [name], '.') == if |pre| == 0 then name else Join(pre, '.') + "." + name
  {
    if |pre| == 0 {
      assert pre + [name] == [name];
    } else if |pre| > 1 {
      JoinMore(pre[1..], name);
      assert (pre + [name])[1..] == pre[1..] + [name];
    } else {
      assert (pre + [name])[1..] == [name];
    }
  }

  lemma {:induction false} JoinNotEmpty(pre: seq<string>)
    requires |pre| > 0 && Rooted(pre)
    ensures Join(pre, '.') != ""
  {
  }

  lemma KeyOfPath(pre: seq<string>, name: string)
    requires Rooted(pre)
    ensures PathOf(Join(pre, '.'), name) == Join(pre + [name], '.')
  {
    JoinMore(pre, name);
    if |pre| > 0 {
      JoinNotEmpty(pre);
    }
  }

  lemma UnderSplit(values: map<string, string>, pre: seq<string>, name: string, rest: set<string>)
    ensures Under(values, pre, {name} + rest) == Under(values, pre, {name}) + Under(values, pre, rest)
  {
  }

  /** A value under pre and then a name is found in the part of the tree at pre, along the rest of its path. */
  lemma BelowAt(t: Tree, values: map<string, string>, pre: seq<string>, name: string, key: string)
      returns (rel: seq<string>)
    requires Part(t, values, pre) && key in values && Below(key, pre, {name})
    ensures |rel| > 0 && rel[0] == name && Split(key, '.') == pre + rel
    ensures At(t, rel) == Some(values[key])
  {
    var path := Split(key, '.');
    rel := path[|pre|..];
    assert path == pre + rel;
    ValuedAt(values, key);
    assert At(t, rel) == Valued(values, pre + rel);
  }

  lemma BelowPath(key: string, pre: seq<string>, rel: seq<string>)
    requires |rel| > 0 && Split(key, '.') == pre + rel
    ensures Below(key, pre, {rel[0]})
    ensures forall names :: |rel| > 1 ==> (Below(key, pre + [rel[0]], names) <==> rel[1] in names)
  {
    var path := Split(key, '.');
    assert path[..|pre|] == pre;
    assert |rel| > 1 ==> path[..|pre| + 1] == pre + [rel[0]];
  }

  lemma BelowUp(key: string, pre: seq<string>, name: string, names: set<string>)
    requires Below(key, pre + [name], names)
    ensures Below(key, pre, {name})
  {
    var path := Split(key, '.');
    assert path[..|pre| + 1] == pre + [name];
    assert path[..|pre| + 1][..|pre|] == pre && path[..|pre| + 1][|pre|] == name;
  }

  lemma OnlyItself(t: Tree, values: map<string, string>, pre: seq<string>, name: string, key: string)
    requires Part(t, values, pre) && name in t && t[name].Leaf?
    requires key in values && Below(key, pre, {name})
    ensures key == Join(pre + [name], '.')
  {
    var rel := BelowAt(t, values, pre, name, key);
    assert rel == [name];
    JoinSplit(key, '.');
  }

  lemma ScalarValue(t: Tree, values: map<string, string>, pre: seq<string>, name: string)
    requires Part(t, values, pre) && name in t && t[name].Leaf?
    ensures var key := Join(pre + [name], '.'); key in values && values[key] == t[name].text && Below(key, pre, {name})
  {
    assert At(t, [name]) == Valued(values, pre + [name]);
    BelowPath(Join(pre + [name], '.'), pre, [name]);
  }

  /** Nothing but the scalar itself lies under a scalar. */
  lemma UnderLeaf(t: Tree, values: map<string, string>, pre: seq<string>, name: string)
    requires Part(t, values, pre) && name in t && t[name].Leaf?
    ensures Under(values, pre, {name}) == map[Join(pre + [name], '.') := t[name].text]
  {
    ScalarValue(t, values, pre, name);
    forall key | key in values && Below(key, pre, {name})
      ensures key == Join(pre + [name], '.')
    {
      OnlyItself(t, values, pre, name, key);
    }
  }

  lemma PartDeeper(t: Tree, values: map<string, string>, pre: seq<string>, name: string)
    requires Part(t, values, pre) && name in t && t[name].Dir?
    ensures Part(t[name].entries, values, pre + [name])
  {
    var child := t[name].entries;
    assert ScalarNode(t[name]) && TightNode(t[name]);
    forall path | |path| > 0
      ensures At(child, path) == Valued(values, (pre + [name]) + path)
    {
      DeeperAt(t, name, path);
      FrontMore(pre, name, path);
      assert At(t, [name] + path) == Valued(values, pre + ([name] + path));
    }
  }

  lemma DeeperAt(t: Tree, name: string, path: seq<string>)
    requires name in t && t[name].Dir? && |path| > 0
    ensures At(t, [name] + path) == At(t[name].entries, path)
  {
    assert ([name] + path)[1..] == path;
  }

  lemma UnderDir(t: Tree, values: map<string, string>, pre: seq<string>, name: string)
    requires Part(t, values, pre) && name in t && t[name].Dir?
    ensures Under(values, pre, {name}) == Under(values, pre + [name], t[name].entries.Keys)
  {
    var child := t[name].entries;
    forall key | key in values
      ensures Below(key, pre, {name}) <==> Below(key, pre + [name], child.Keys)
    {
      if Below(key, pre + [name], child.Keys) {
        BelowUp(key, pre, name, child.Keys);
      }
      if Below(key, pre, {name}) {
        var rel := BelowAt(t, values, pre, name, key);
        BelowPath(key, pre, rel);
        assert |rel| > 1 && At(child, rel[1..]).Some?;
      }
    }
  }

  /** A nested tree under an empty name at the top comes of a key that begins with a dot. */
  lemma EmptyName(t: Tree, values: map<string, string>)
    requires Part(t, values, []) && "" in t && t[""].Dir?
    ensures exists key :: key in values && !Undotted(key)
  {
    assert ScalarNode(t[""]) && TightNode(t[""]);
    var path := SomeScalar(t[""]);
    var whole := [""] + path;
    assert whole[1..] == path && [] + whole == whole;
    assert At(t, whole) == Valued(values, whole);
    assert Join(whole, '.')[0] == '.';
  }

  lemma StaysRooted(l: Loader, values: map<string, string>, t: Tree, pre: seq<string>, name: string)
    requires Part(t, values, pre) && Usable(l, values) && Rooted(pre) && name in t && t[name].Dir?
    ensures Rooted(pre + [name])
  {
    if pre == [] && name == "" {
      EmptyName(t, values);
    }
  }

  /** Flattening the part of a tree at pre adds exactly the values under it. */
  lemma {:induction false} FlattenPart(l: Loader, values: map<string, string>, top: Node, names: seq<string>,
                                       pre: seq<string>, out: map<string, string>)
    requires Sorts(l.sorted) && top.Dir? && (forall n | n in names :: n in top.entries)
    requires Part(top.entries, values, pre) && Usable(l, values) && Rooted(pre)
    ensures FlattenNames(l, top, names, Join(pre, '.'), out) == Ok(out + Under(values, pre, Elements(names)))
    decreases top, 0, |names|
  {
    if |names| == 0 {
      UnderNone(values, pre, out);
    } else {
      var name := names[0];
      FlattenName(l, values, top.entries, name, pre, out, top.entries[name]);
      KeyOfPath(pre, name);
      FlattenPart(l, values, top, names[1..], pre, out + Under(values, pre, {name}));
      UnderMore(values, pre, names, out);
    }
  }

  lemma {:induction false} FlattenName(l: Loader, values: map<string, string>, t: Tree, name: string,
                                       pre: seq<string>, out: map<string, string>, node: Node)
    requires Sorts(l.sorted) && name in t && node == t[name]
    requires Part(t, values, pre) && Usable(l, values) && Rooted(pre)
    ensures FlattenNode(l, node, Join(pre + [name], '.'), out) == Ok(out + Under(values, pre, {name}))
    decreases node, 1, 0
  {
    assert ScalarNode(node);
    if node.Leaf? {
      FlattenLeaf(l, values, t, name, pre, out);
    } else {
      PartDeeper(t, values, pre, name);
      UnderDir(t, values, pre, name);
      StaysRooted(l, values, t, pre, name);
      var inner := l.sorted(node.entries.Keys);
      SortedElements(l, node.entries.Keys);
      FlattenPart(l, values, node, inner, pre + [name], out);
      FlattenDir(l, node, Join(pre + [name], '.'), out);
    }
  }

  lemma SortedElements(l: Loader, names: set<string>)
    requires Sorts(l.sorted)
    ensures Elements(l.sorted(names)) == names
    ensures forall n | n in l.sorted(names) :: n in names
  {
    assert IsSorted(l.sorted(names), names);
  }

  lemma FlattenDir(l: Loader, node: Node, key: string, out: map<string, string>)
    requires Sorts(l.sorted) && node.Dir? && forall n | n in l.sorted(node.entries.Keys) :: n in node.entries
    ensures FlattenNode(l, node, key, out) == FlattenNames(l, node, l.sorted(node.entries.Keys), key, out)
  {
  }

  lemma FlattenLeaf(l: Loader, values: map<string, string>, t: Tree, name: string, pre: seq<string>,
                    out: map<string, string>)
    requires Sorts(l.sorted) && name in t && t[name].Leaf?
    requires Part(t, values, pre) && Usable(l, values)
    ensures FlattenNode(l, t[name], Join(pre + [name], '.'), out) == Ok(out + Under(values, pre, {name}))
  {
    UnderLeaf(t, values, pre, name);
    ScalarValue(t, values, pre, name);
    FlattenScalar(l, t[name].text, Join(pre + [name], '.'), out);
  }

  lemma FlattenScalar(l: Loader, text: string, key: string, out: map<string, string>)
    requires Sorts(l.sorted) && key in l.known
    ensures FlattenNode(l, Leaf(text), key, out) == Ok(out + map[key := text])
  {
    assert out[key := text] == out + map[key := text];
  }

  lemma UnderNone(values: map<string, string>, pre: seq<string>, out: map<string, string>)
    ensures out + Under(values, pre, Elements([])) == out
  {
  }

  ghost function Elements(names: seq<string>): set<string> {
    set n | n in names
  }

  lemma UnderMore(values: map<string, string>, pre: seq<string>, names: seq<string>, out: map<string, string>)
    requires |names| > 0
    ensures out + Under(values, pre, {names[0]}) + Under(values, pre, Elements(names[1..]))
         == out + Under(values, pre, Elements(names))
  {
    assert Elements(names) == {names[0]} + Elements(names[1..]);
    UnderSplit(values, pre, names[0], Elements(names[1..]));
  }

  /** Flattening the tree of a flat map of known keys gives back exactly that map if and only if no key begins
      with a dot.
   */
  lemma FlattenUndoes(l: Loader, t: Tree, values: map<string, string>)
    requires Sorts(l.sorted) && StandsFor(t, values) && forall key | key in values :: key in l.known
    ensures FlattenNode(l, Dir(t), "", map[]) == Ok(values) <==> forall key | key in values :: Undotted(key)
  {
    if key :| key in values && !Undotted(key) {
      DottedLost(l, t, values, key);
    } else {
      FlattenWhole(l, t, values);
    }
  }

  lemma FlattenWhole(l: Loader, t: Tree, values: map<string, string>)
    requires Sorts(l.sorted) && StandsFor(t, values) && Usable(l, values)
    ensures FlattenNode(l, Dir(t), "", map[]) == Ok(values)
  {
    WholePart(t, values);
    var names := l.sorted(t.Keys);
    assert IsSorted(names, t.Keys);
    FlattenPart(l, values, Dir(t), names, [], map[]);
    assert Elements(names) == t.Keys;
    WholeUnder(t, values);
  }

  lemma {:induction false} DottedUndotted(prefix: string, path: seq<string>)
    requires Undotted(prefix) && AllFree(path, '.')
    ensures Undotted(Dotted(prefix, path))
    decreases |path|
  {
    if |path| > 0 {
      assert Free(path[0], '.');
      DottedUndotted(PathOf(prefix, path[0]), path[1..]);
    }
  }

  /** No key flattened from a tree of split keys begins with a dot. */
  lemma DottedLost(l: Loader, t: Tree, values: map<string, string>, key: string)
    requires Sorts(l.sorted) && StandsFor(t, values) && !Undotted(key)
    ensures var r := FlattenNode(l, Dir(t), "", map[]); r.Ok? ==> key !in r.value
  {
    NodeFlattens(l, Dir(t), "", map[]);
    forall path | ScalarAt(t, path)
      ensures Undotted(Dotted("", path))
    {
      assert Valued(values, path).Some?;
      JoinSplit(Join(path, '.'), '.');
      DottedUndotted("", path);
    }
  }

  lemma FrontNone(path: seq<string>)
    ensures [] + path == path
  {
  }

  lemma FrontMore(pre: seq<string>, name: string, path: seq<string>)
    ensures pre + ([name] + path) == (pre + [name]) + path
  {
  }

  lemma WholePart(t: Tree, values: map<string, string>)
    requires StandsFor(t, values)
    ensures Part(t, values, [])
  {
    forall path | |path| > 0
      ensures At(t, path) == Valued(values, [] + path)
    {
      FrontNone(path);
    }
  }

  lemma WholeUnder(t: Tree, values: map<string, string>)
    requires StandsFor(t, values)
    ensures map[] + Under(values, [], t.Keys) == values
  {
    forall key | key in values
      ensures Below(key, [], t.Keys)
    {
      var path := Split(key, '.');
      ValuedAt(values, key);
      assert At(t, path).Some?;
    }
  }
}
