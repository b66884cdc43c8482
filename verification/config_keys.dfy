/** The configuration keys a struct type gives rise to, and reading and writing one key of a configuration. */
module ConfigKeys {
  import opened Text

  datatype Kind = KString | KBool | KInt | KDuration | KStrings

  /** A struct field: its name in the file ("" when it has none there) and its type. */
  datatype FieldDesc = FieldDesc(name: string, form: Form)

  datatype Form = Scalar(kind: Kind) | Struct(fields: seq<FieldDesc>) | Other

  /** A key: its dotted path, its kind, and the field positions that lead to its value. */
  datatype Key = Key(path: string, kind: Kind, index: seq<nat>)

  /** The keys of the fields from position i on. */
  function Walk(fields: seq<FieldDesc>, i: nat, prefix: string, index: seq<nat>): seq<Key>
    requires i <= |fields|
    decreases fields, |fields| - i
  {
    if i == |fields| then []
    else KeysOf(fields[i], prefix, index + [i]) + Walk(fields, i + 1, prefix, index)
  }

  function KeysOf(f: FieldDesc, prefix: string, index: seq<nat>): seq<Key>
    decreases f
  {
    if f.name == "" then []
    else
      match f.form
      case Scalar(kind) => [Key(PathOf(prefix, f.name), kind, index)]
      case Struct(inner) => Walk(inner, 0, PathOf(prefix, f.name), index)
      case Other => []
  }

  method WalkType(fields: seq<FieldDesc>, prefix: string, index: seq<nat>) returns (out: seq<Key>)
    ensures out == Walk(fields, 0, prefix, index)
    decreases fields
  {
    out := [];
    var i := 0;
    while i < |fields|
      invariant 0 <= i <= |fields|
      invariant out + Walk(fields, i, prefix, index) == Walk(fields, 0, prefix, index)
    {
      var f := fields[i];
      ghost var here := KeysOf(f, prefix, index + [i]);
      ghost var rest := Walk(fields, i + 1, prefix, index);
      assert out + (here + rest) == out + here + rest;
      if f.name != "" {
        match f.form {
          case Struct(inner) =>
            var keys := WalkType(inner, PathOf(prefix, f.name), index + [i]);
            out := out + keys;
          case Scalar(kind) => out := out + [Key(PathOf(prefix, f.name), kind, index + [i])];
          case Other => assert out + here == out;
        }
      } else {
        assert out + here == out;
      }
      i := i + 1;
    }
    assert out + [] == out;
  }

  // ---------- prefix freedom ----------

  /** Names are free of dots and sibling fields that have a name have different ones, at every depth. */
  ghost predicate WellNamed(fields: seq<FieldDesc>)
    decreases fields
  {
    && (forall i | 0 <= i < |fields| :: Free(fields[i].name, '.') && InnerWell(fields[i]))
    && (forall i, j | 0 <= i < j < |fields| && fields[i].name != "" :: fields[i].name != fields[j].name)
  }

  ghost predicate InnerWell(f: FieldDesc)
    decreases f
  {
    f.form.Struct? ==> WellNamed(f.form.fields)
  }

  /** The names from the top of the struct down to a key's field. */
  function NamesOf(fields: seq<FieldDesc>, index: seq<nat>): seq<string>
    decreases |index|
  {
    if |index| == 0 || index[0] >= |fields| then []
    else
      var f := fields[index[0]];
      [f.name] + if f.form.Struct? then NamesOf(f.form.fields, index[1..]) else []
  }

  /** index leads from these fields to a named scalar of this kind. */
  ghost predicate Leads(fields: seq<FieldDesc>, index: seq<nat>, kind: Kind)
    decreases |index|
  {
    && |index| > 0 && index[0] < |fields| && fields[index[0]].name != ""
    && match fields[index[0]].form
       case Scalar(k) => |index| == 1 && k == kind
       case Struct(inner) => Leads(inner, index[1..], kind)
       case Other => false
  }

  function Prefixed(prefix: string, names: seq<string>): string {
    if prefix == "" || |names| == 0 then prefix + Join(names, '.') else prefix + "." + Join(names, '.')
  }

  lemma PrefixedStep(prefix: string, name: string, names: seq<string>)
    requires name != ""
    ensures Prefixed(PathOf(prefix, name), names) == Prefixed(prefix, [name] + names)
  {
    if |names| > 0 {
      assert ([name] + names)[1..] == names;
    } else {
      assert [name] + names == [name];
    }
  }

  /** A key walked from here: its index leads to a scalar, and its path is the dotted names on the way. */
  ghost predicate WalkedFrom(fields: seq<FieldDesc>, prefix: string, index: seq<nat>, k: Key, first: nat) {
    && |index| < |k.index| && k.index[..|index|] == index
    && Leads(fields, k.index[|index|..], k.kind) && k.index[|index|] >= first
    && k.path == Prefixed(prefix, NamesOf(fields, k.index[|index|..]))
  }

  lemma {:induction false} WalkedKeys(fields: seq<FieldDesc>, i: nat, prefix: string, index: seq<nat>)
    requires i <= |fields|
    ensures forall k | k in Walk(fields, i, prefix, index) :: WalkedFrom(fields, prefix, index, k, i)
    decreases fields, |fields| - i
  {
    if i < |fields| {
      WalkedKeys(fields, i + 1, prefix, index);
      var f := fields[i];
      var here := index + [i];
      if f.name != "" && f.form.Struct? {
        WalkedKeys(f.form.fields, 0, PathOf(prefix, f.name), here);
      }
      forall k | k in KeysOf(f, prefix, here)
        ensures WalkedFrom(fields, prefix, index, k, i)
      {
        if f.form.Struct? {
          assert WalkedFrom(f.form.fields, PathOf(prefix, f.name), here, k, 0);
          WalkedDown(fields, i, prefix, index, k);
        } else {
          assert k.index[|index|..] == [i];
          assert NamesOf(fields, [i]) == [f.name];
          PrefixedStep(prefix, f.name, []);
          assert [f.name] + [] == [f.name];
        }
      }
    }
  }

  lemma WalkedDown(fields: seq<FieldDesc>, i: nat, prefix: string, index: seq<nat>, k: Key)
    requires i < |fields| && fields[i].name != "" && fields[i].form.Struct?
    requires WalkedFrom(fields[i].form.fields, PathOf(prefix, fields[i].name), index + [i], k, 0)
    ensures WalkedFrom(fields, prefix, index, k, i)
  {
    var f := fields[i];
    var rel := k.index[|index|..];
    var inner := k.index[|index| + 1..];
    assert k.index[..|index| + 1] == index + [i];
    assert k.index[..|index|] == index by {
      assert k.index[..|index| + 1][..|index|] == index;
    }
    assert rel[0] == k.index[|index|] == (index + [i])[|index|] == i;
    assert rel[1..] == inner;
    PrefixedStep(prefix, f.name, NamesOf(f.form.fields, inner));
  }

  lemma HeadsApart(fields: seq<FieldDesc>, a: seq<nat>, b: seq<nat>, k: Kind, l: Kind)
    requires WellNamed(fields) && Leads(fields, a, k) && Leads(fields, b, l) && a[0] != b[0]
    ensures !Comparable(NamesOf(fields, a), NamesOf(fields, b))
  {
    var f, g := fields[a[0]], fields[b[0]];
    assert f.name != g.name by {
      if a[0] < b[0] {
        assert fields[a[0]].name != fields[b[0]].name;
      } else {
        assert fields[b[0]].name != fields[a[0]].name;
      }
    }
    assert NamesOf(fields, a)[0] == f.name && NamesOf(fields, b)[0] == g.name;
  }

  lemma DeeperApart(name: string, m: seq<string>, n: seq<string>)
    ensures Comparable([name] + m, [name] + n) <==> Comparable(m, n)
  {
    assert ([name] + m)[1..] == m && ([name] + n)[1..] == n;
  }

  /** Different leaves have names neither of which begins with the other. */
  lemma {:induction false} LeavesApart(fields: seq<FieldDesc>, a: seq<nat>, b: seq<nat>, k: Kind, l: Kind)
    requires WellNamed(fields) && Leads(fields, a, k) && Leads(fields, b, l) && a != b
    ensures !Comparable(NamesOf(fields, a), NamesOf(fields, b))
    decreases |a|
  {
    if a[0] != b[0] {
      HeadsApart(fields, a, b, k, l);
    } else {
      var f := fields[a[0]];
      assert a == [a[0]] + a[1..] && b == [b[0]] + b[1..];
      assert InnerWell(f);
      LeavesApart(f.form.fields, a[1..], b[1..], k, l);
      DeeperApart(f.name, NamesOf(f.form.fields, a[1..]), NamesOf(f.form.fields, b[1..]));
    }
  }

  lemma {:induction false} NamesAre(fields: seq<FieldDesc>, index: seq<nat>, kind: Kind)
    requires WellNamed(fields) && Leads(fields, index, kind)
    ensures |NamesOf(fields, index)| > 0 && AllFree(NamesOf(fields, index), '.')
    ensures "" !in NamesOf(fields, index)
    decreases |index|
  {
    var f := fields[index[0]];
    assert Free(f.name, '.');
    if f.form.Struct? {
      assert InnerWell(f);
      NamesAre(f.form.fields, index[1..], kind);
    }
  }

  /** Every key of a configuration type. */
  function Keys(fields: seq<FieldDesc>): seq<Key> {
    Walk(fields, 0, "", [])
  }

  /** What the dotted path of a key splits into. */
  lemma KeySplits(fields: seq<FieldDesc>, k: Key)
    requires WellNamed(fields) && k in Keys(fields)
    ensures Leads(fields, k.index, k.kind)
    ensures Split(k.path, '.') == NamesOf(fields, k.index) && k.path == Join(NamesOf(fields, k.index), '.')
    ensures "" !in Split(k.path, '.')
  {
    WalkedKeys(fields, 0, "", []);
    assert WalkedFrom(fields, "", [], k, 0);
    assert k.index[0..] == k.index;
    NamesAre(fields, k.index, k.kind);
    var names := NamesOf(fields, k.index);
    assert "" + Join(names, '.') == Join(names, '.');
    SplitJoin(names, '.');
  }

  /** The paths of a configuration type are prefix-free: no key's dotted path is, or lies under, another's.
      Keys with the same path are the same key.
   */
  lemma PathsPrefixFree(fields: seq<FieldDesc>, k: Key, l: Key)
    requires WellNamed(fields) && k in Keys(fields) && l in Keys(fields)
    ensures k != l ==> !Comparable(Split(k.path, '.'), Split(l.path, '.')) && k.index != l.index
    ensures k.path == l.path ==> k == l
  {
    KeySplits(fields, k);
    KeySplits(fields, l);
    if k.index != l.index {
      LeavesApart(fields, k.index, l.index, k.kind, l.kind);
    } else {
      SameKind(fields, k.index, k.kind, l.kind);
    }
  }

  lemma {:induction false} SameKind(fields: seq<FieldDesc>, index: seq<nat>, k: Kind, l: Kind)
    requires Leads(fields, index, k) && Leads(fields, index, l)
    ensures k == l
    decreases |index|
  {
    if fields[index[0]].form.Struct? {
      SameKind(fields[index[0]].form.fields, index[1..], k, l);
    }
  }

  // ---------- every field has its key ----------

  /** One field stands before another: where their positions part, it has the lesser one. */
  ghost predicate Earlier(a: seq<nat>, b: seq<nat>) {
    exists n :: 0 <= n < |a| && n < |b| && a[..n] == b[..n] && a[n] < b[n]
  }

  ghost predicate InFieldOrder(keys: seq<Key>) {
    forall i, j | 0 <= i < j < |keys| :: Earlier(keys[i].index, keys[j].index)
  }

  /** Every named scalar from position i on is walked. */
  lemma {:induction false} WalkFinds(fields: seq<FieldDesc>, i: nat, prefix: string, index: seq<nat>,
                                     rel: seq<nat>, kind: Kind)
    requires i <= |fields| && Leads(fields, rel, kind) && rel[0] >= i
    ensures exists k :: k in Walk(fields, i, prefix, index) && k.index == index + rel && k.kind == kind
    decreases fields, |fields| - i
  {
    var f := fields[i];
    if rel[0] > i {
      WalkFinds(fields, i + 1, prefix, index, rel, kind);
    } else if f.form.Struct? {
      WalkFinds(f.form.fields, 0, PathOf(prefix, f.name), index + [i], rel[1..], kind);
      assert index + [i] + rel[1..] == index + rel;
      var k :| k in Walk(f.form.fields, 0, PathOf(prefix, f.name), index + [i])
               && k.index == index + [i] + rel[1..] && k.kind == kind;
      assert k in KeysOf(f, prefix, index + [i]);
    } else {
      assert rel == [i];
      var k := Key(PathOf(prefix, f.name), kind, index + [i]);
      assert k in KeysOf(f, prefix, index + [i]);
    }
  }

  lemma OrderJoins(a: seq<Key>, b: seq<Key>)
    requires InFieldOrder(a) && InFieldOrder(b)
    requires forall k, l | k in a && l in b :: Earlier(k.index, l.index)
    ensures InFieldOrder(a + b)
  {
  }

  lemma {:induction false} WalkInOrder(fields: seq<FieldDesc>, i: nat, prefix: string, index: seq<nat>)
    requires i <= |fields|
    ensures InFieldOrder(Walk(fields, i, prefix, index))
    decreases fields, |fields| - i
  {
    if i < |fields| {
      var f, n := fields[i], |index|;
      var here, rest := KeysOf(f, prefix, index + [i]), Walk(fields, i + 1, prefix, index);
      WalkInOrder(fields, i + 1, prefix, index);
      WalkedKeys(fields, i + 1, prefix, index);
      if f.name != "" && f.form.Struct? {
        WalkInOrder(f.form.fields, 0, PathOf(prefix, f.name), index + [i]);
        WalkedKeys(f.form.fields, 0, PathOf(prefix, f.name), index + [i]);
      }
      forall k, l | k in here && l in rest
        ensures Earlier(k.index, l.index)
      {
        HereBefore(fields, i, prefix, index, k, l);
      }
      OrderJoins(here, rest);
    }
  }

  lemma HereBefore(fields: seq<FieldDesc>, i: nat, prefix: string, index: seq<nat>, k: Key, l: Key)
    requires i < |fields| && k in KeysOf(fields[i], prefix, index + [i])
    requires fields[i].name != "" && fields[i].form.Struct? ==>
               WalkedFrom(fields[i].form.fields, PathOf(prefix, fields[i].name), index + [i], k, 0)
    requires WalkedFrom(fields, prefix, index, l, i + 1)
    ensures Earlier(k.index, l.index)
  {
    var n := |index|;
    assert k.index[..n + 1] == index + [i];
    assert k.index[..n] == k.index[..n + 1][..n] == index && k.index[n] == k.index[..n + 1][n] == i;
    assert k.index[..n] == l.index[..n] && k.index[n] < l.index[n];
  }

  /** The keys of a type are its named scalar fields at any depth, each of them once, in field order: each with
      its kind, and with the dotted names on the way to it as its path.
   */
  lemma KeysExact(fields: seq<FieldDesc>, index: seq<nat>, kind: Kind)
    ensures InFieldOrder(Keys(fields))
    ensures forall i, j | 0 <= i < j < |Keys(fields)| :: Keys(fields)[i].index != Keys(fields)[j].index
    ensures Leads(fields, index, kind) <==> Key(Join(NamesOf(fields, index), '.'), kind, index) in Keys(fields)
    ensures forall k | k in Keys(fields) && k.index == index :: k.path == Join(NamesOf(fields, index), '.')
  {
    WalkInOrder(fields, 0, "", []);
    WalkedKeys(fields, 0, "", []);
    forall k | k in Keys(fields)
      ensures Leads(fields, k.index, k.kind) && k.path == Join(NamesOf(fields, k.index), '.')
    {
      assert WalkedFrom(fields, "", [], k, 0) && k.index[0..] == k.index;
      assert "" + Join(NamesOf(fields, k.index), '.') == Join(NamesOf(fields, k.index), '.');
    }
    if Leads(fields, index, kind) {
      WalkFinds(fields, 0, "", [], index, kind);
      assert [] + index == index;
    }
    forall i, j | 0 <= i < j < |Keys(fields)|
      ensures Keys(fields)[i].index != Keys(fields)[j].index
    {
      assert Earlier(Keys(fields)[i].index, Keys(fields)[j].index);
    }
  }
}
