/** The nested tree a configuration file holds, and the dotted keys that go into it and come out of it. */
module ConfigTree {
  import opened Text

  /** A named bundle of connection settings. */
  datatype Context = Context(database: string, server: string, token: string, tenant: string, project: string,
                             authMode: string, hookMode: string)

  /** A value under a name: the text of a scalar, a nested tree, or the contexts. */
  datatype Node = Leaf(text: string) | Dir(entries: Tree) | Contexts(contexts: map<string, Context>)

  type Tree = map<string, Node>

  /** The text at the end of a path of names, when a scalar is there. */
  function At(t: Tree, path: seq<string>): Option<string>
    decreases |path|
  {
    if |path| == 0 || path[0] !in t then None
    else
      var node := t[path[0]];
      if |path| == 1 then (if node.Leaf? then Some(node.text) else None)
      else if node.Dir? then At(node.entries, path[1..])
      else None
  }

  /** The nested tree under a name, empty when there is none. */
  function ChildOf(t: Tree, name: string): Tree {
    if name in t && t[name].Dir? then t[name].entries else map[]
  }

  /** Places text at a path, making nested trees on the way; whatever else stood on the path gives way. */
  function Insert(t: Tree, path: seq<string>, text: string): Tree
    requires |path| > 0
    decreases |path|
  {
    if |path| == 1 then t[path[0] := Leaf(text)]
    else t[path[0] := Dir(Insert(ChildOf(t, path[0]), path[1..], text))]
  }

  /** An insertion is found at its own path, hides whatever its path crosses, and leaves the rest. */
  lemma {:induction false} InsertAt(t: Tree, p: seq<string>, text: string, q: seq<string>)
    requires |p| > 0
    ensures At(Insert(t, p, text), q) ==
            if q == p then Some(text) else if Comparable(p, q) then None else At(t, q)
    decreases |p|
  {
    if |q| > 0 && q[0] == p[0] {
      assert p == [p[0]] + p[1..] && q == [q[0]] + q[1..];
      if |p| > 1 {
        InsertAt(ChildOf(t, p[0]), p[1..], text, q[1..]);
        assert Comparable(p[1..], q[1..]) <==> Comparable(p, q);
      }
    }
  }

  lemma InsertAside(t: Tree, p: seq<string>, text: string, name: string)
    requires |p| > 0 && p[0] != name
    ensures name in Insert(t, p, text) <==> name in t
    ensures name in t ==> Insert(t, p, text)[name] == t[name]
  {
  }

  lemma InsertDown(t: Tree, p: seq<string>, v: string, q: seq<string>, w: string)
    requires |p| > 1 && |q| > 1 && p[0] == q[0]
    ensures Insert(Insert(t, p, v), q, w) == t[p[0] := Dir(Insert(Insert(ChildOf(t, p[0]), p[1..], v), q[1..], w))]
  {
  }

  lemma InsertBeside(t: Tree, p: seq<string>, v: string, q: seq<string>, w: string)
    requires |p| > 0 && |q| > 0 && p[0] != q[0]
    ensures Insert(Insert(t, p, v), q, w) == Insert(Insert(t, q, w), p, v)
  {
    InsertAside(t, p, v, q[0]);
    InsertAside(t, q, w, p[0]);
  }

  lemma {:induction false} InsertTwice(t: Tree, p: seq<string>, v: string, q: seq<string>, w: string)
    requires |p| > 0 && |q| > 0 && !Comparable(p, q)
    ensures Insert(Insert(t, p, v), q, w) == Insert(Insert(t, q, w), p, v)
    decreases |p|
  {
    if p[0] != q[0] {
      InsertBeside(t, p, v, q, w);
    } else {
      assert p == [p[0]] + p[1..] && q == [q[0]] + q[1..];
      InsertTwice(ChildOf(t, p[0]), p[1..], v, q[1..], w);
      InsertDown(t, p, v, q, w);
      InsertDown(t, q, w, p, v);
    }
  }

  /** Two insertions at different paths give the same tree in either order exactly when neither path begins
      with the other.
   */
  lemma InsertsCommute(t: Tree, p: seq<string>, v: string, q: seq<string>, w: string)
    requires |p| > 0 && |q| > 0 && p != q
    ensures Insert(Insert(t, p, v), q, w) == Insert(Insert(t, q, w), p, v) <==> !Comparable(p, q)
  {
    if Comparable(p, q) {
      InsertAt(Insert(t, p, v), q, w, q);
      InsertAt(Insert(t, q, w), p, v, q);
      InsertAt(Insert(t, p, v), q, w, p);
      InsertAt(Insert(t, q, w), p, v, p);
    } else {
      InsertTwice(t, p, v, q, w);
    }
  }

  // ---------- a tree that stands for a flat map ----------

  /** No nested tree is empty. */
  predicate Tight(t: Tree) {
    forall name | name in t :: TightNode(t[name])
  }

  predicate TightNode(node: Node) {
    node.Dir? ==> node.entries != map[] && forall name | name in node.entries :: TightNode(node.entries[name])
  }

  /** Every scalar of the tree is a value of the map under the dotted path, and the other way round. */
  ghost predicate StandsFor(t: Tree, values: map<string, string>) {
    && (forall path :: At(t, path) == Valued(values, path))
    && OnlyScalars(t) && Tight(t)
  }

  predicate OnlyScalars(t: Tree) {
    forall name | name in t :: ScalarNode(t[name])
  }

  predicate ScalarNode(node: Node) {
    !node.Contexts? && (node.Dir? ==> forall name | name in node.entries :: ScalarNode(node.entries[name]))
  }

  /** The value of a path that is what some dotted key splits into. */
  ghost function Valued(values: map<string, string>, path: seq<string>): Option<string> {
    var key := Join(path, '.');
    if key in values && Split(key, '.') == path then Some(values[key]) else None
  }

  /** No key is, or lies under, another. */
  ghost predicate PrefixFree(keys: set<string>) {
    forall k, l | k in keys && l in keys && k != l :: !Comparable(Split(k, '.'), Split(l, '.'))
  }

  lemma ValuedAt(values: map<string, string>, key: string)
    ensures Valued(values, Split(key, '.')) == if key in values then Some(values[key]) else None
  {
    JoinSplit(key, '.');
  }

  lemma {:induction false} InsertTight(t: Tree, p: seq<string>, text: string)
    requires |p| > 0 && Tight(t) && OnlyScalars(t)
    ensures Tight(Insert(t, p, text)) && OnlyScalars(Insert(t, p, text)) && Insert(t, p, text) != map[]
    decreases |p|
  {
    assert p[0] in Insert(t, p, text);
    if |p| > 1 {
      assert p[0] in t ==> TightNode(t[p[0]]) && ScalarNode(t[p[0]]);
      InsertTight(ChildOf(t, p[0]), p[1..], text);
    }
  }

  /** Inserting one more key of a prefix-free set keeps the tree standing for the map. */
  lemma InsertStands(t: Tree, values: map<string, string>, key: string, text: string)
    requires StandsFor(t, values) && PrefixFree(values.Keys + {key}) && key !in values
    ensures StandsFor(Insert(t, Split(key, '.'), text), values[key := text])
  {
    var p := Split(key, '.');
    var more := values[key := text];
    InsertTight(t, p, text);
    JoinSplit(key, '.');
    forall q
      ensures At(Insert(t, p, text), q) == Valued(more, q)
    {
      InsertAt(t, p, text, q);
      var k := Join(q, '.');
      if k in more && Split(k, '.') == q && k != key {
        assert k in values.Keys + {key} && key in values.Keys + {key};
        assert !Comparable(Split(k, '.'), Split(key, '.'));
      }
      if q != p && k == key {
        assert Valued(more, q) == None;
        assert At(t, q) == Valued(values, q);
      }
    }
  }

  /** A nested tree that is not empty holds a scalar somewhere. */
  lemma {:induction false} SomeScalar(node: Node) returns (path: seq<string>)
    requires TightNode(node) && ScalarNode(node) && node.Dir?
    ensures |path| > 0 && At(node.entries, path).Some?
  {
    var name :| name in node.entries;
    var child := node.entries[name];
    assert TightNode(child) && ScalarNode(child);
    if child.Leaf? {
      path := [name];
    } else {
      var rest := SomeScalar(child);
      path := [name] + rest;
      assert path[1..] == rest;
    }
  }

  ghost predicate SameScalars(t: Tree, u: Tree) {
    forall path :: At(t, path) == At(u, path)
  }

  lemma SameUnder(t: Tree, u: Tree, name: string)
    requires SameScalars(t, u) && name in t && name in u && t[name].Dir? && u[name].Dir?
    ensures SameScalars(t[name].entries, u[name].entries)
  {
    forall path
      ensures At(t[name].entries, path) == At(u[name].entries, path)
    {
      var whole := [name] + path;
      assert whole[1..] == path;
      assert At(t, whole) == At(u, whole);
    }
  }

  /** Where one tree holds a name, so does another with the same scalars, and in the same form. */
  lemma SameName(t: Tree, u: Tree, name: string)
    requires SameScalars(t, u) && Tight(t) && OnlyScalars(t) && OnlyScalars(u) && name in t
    ensures name in u && u[name].Leaf? == t[name].Leaf? && (t[name].Leaf? ==> u[name] == t[name])
  {
    assert TightNode(t[name]) && ScalarNode(t[name]);
    assert name in u ==> ScalarNode(u[name]);
    assert At(t, [name]) == At(u, [name]);
    if t[name].Dir? {
      var path := SomeScalar(t[name]);
      var whole := [name] + path;
      assert whole[1..] == path;
      assert At(t, whole) == At(u, whole);
    }
  }

  /** Trees without empty nested trees are determined by their scalars. */
  lemma {:induction false} SameTree(t: Tree, u: Tree, top: Node)
    requires top == Dir(t)
    requires SameScalars(t, u) && Tight(t) && Tight(u) && OnlyScalars(t) && OnlyScalars(u)
    ensures t == u
    decreases top
  {
    forall name
      ensures name in t <==> name in u
    {
      if name in t {
        SameName(t, u, name);
      }
      if name in u {
        SameName(u, t, name);
      }
    }
    forall name | name in t
      ensures t[name] == u[name]
    {
      SameName(t, u, name);
      if t[name].Dir? {
        assert TightNode(t[name]) && TightNode(u[name]) && ScalarNode(t[name]) && ScalarNode(u[name]);
        SameUnder(t, u, name);
        assert t[name] < top;
        SameTree(t[name].entries, u[name].entries, t[name]);
      }
    }
  }

  /** A flat map has one tree: whatever order its keys are inserted in, the result is the same. */
  lemma OneTree(t: Tree, u: Tree, values: map<string, string>)
    requires StandsFor(t, values) && StandsFor(u, values)
    ensures t == u
  {
    SameTree(t, u, Dir(t));
  }
}
