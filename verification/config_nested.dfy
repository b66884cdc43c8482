/** The nested maps a save builds in place, as objects that share nothing with one another. */
module ConfigNested {
  import opened Text
  import opened ConfigTree

  /** What a name of a nested map holds: the text of a scalar, the contexts, or a further map. */
  datatype Slot = Text(text: string) | Bundle(contexts: map<string, Context>) | Below(nested: NestedMap)

  class NestedMap {
    var slots: map<string, Slot>
    // The tree this map stands for, and the maps it is made of.
    ghost var Contents: Tree
    ghost var Repr: set<NestedMap>

    ghost predicate Valid()
      reads this, Repr
      decreases Repr, 0
    {
      && this in Repr && slots.Keys == Contents.Keys
      && (forall name | name in slots :: Holds(name))
      && (forall m, n | m in slots && n in slots && m != n && slots[m].Below? && slots[n].Below? ::
            slots[m].nested.Repr !! slots[n].nested.Repr)
    }

    /** The maps below other names share nothing with one another. */
    ghost predicate Apart(name: string)
      reads this, Repr
    {
      forall m, n | m in slots && n in slots && m != name && n != name && m != n
                    && slots[m].Below? && slots[m].nested in Repr && slots[n].Below? && slots[n].nested in Repr ::
        slots[m].nested.Repr !! slots[n].nested.Repr
    }

    ghost predicate Holds(name: string)
      requires this in Repr && name in slots && slots.Keys == Contents.Keys
      reads this, Repr
      decreases Repr, -1
    {
      match slots[name]
      case Text(text) => Contents[name] == Leaf(text)
      case Bundle(contexts) => Contents[name] == Contexts(contexts)
      case Below(child) =>
        && child in Repr && child.Repr < Repr && this !in child.Repr
        && child.Valid() && Contents[name] == Dir(child.Contents)
    }

    constructor ()
      ensures Valid() && fresh(Repr) && Contents == map[]
    {
      slots, Contents, Repr := map[], map[], {this};
    }

    /** The map below a name, made when there is none there. */
    method Child(name: string) returns (child: NestedMap)
      requires Valid()
      modifies this
      ensures Valid() && fresh(Repr - old(Repr)) && old(Repr) <= Repr
      ensures name in slots && slots[name] == Below(child)
      ensures child.Contents == ChildOf(old(Contents), name)
      ensures Contents == old(Contents)[name := Dir(child.Contents)]
    {
      if name in slots && slots[name].Below? {
        assert Holds(name);
        child := slots[name].nested;
      } else {
        child := AddChild(name);
      }
    }

    method AddChild(name: string) returns (child: NestedMap)
      requires Valid()
      modifies this
      ensures Valid() && fresh(Repr - old(Repr)) && old(Repr) <= Repr
      ensures slots == old(slots)[name := Below(child)] && child.Contents == map[]
      ensures Contents == old(Contents)[name := Dir(map[])]
    {
      child := new NestedMap();
      slots := slots[name := Below(child)];
      Contents := Contents[name := Dir(map[])];
      Repr := Repr + child.Repr;
      forall n | n in slots
        ensures Holds(n)
      {
        assert n != name ==> old(Holds(n));
      }
    }

    /** Of the maps this one is made of, nothing changed but those below one name. */
    twostate predicate Confined(name: string)
      reads this, Repr, if name in slots && slots[name].Below? then {slots[name].nested} else {}
    {
      && old(Valid()) && unchanged(this) && name in slots && slots[name].Below?
      && (forall o | o in Repr && o !in old(slots[name].nested.Repr) :: unchanged(o))
      && fresh(slots[name].nested.Repr - old(slots[name].nested.Repr))
    }

    /** What the other names hold then stays. */
    twostate lemma OthersStay(name: string)
      requires Confined(name)
      ensures forall n | n in slots && n != name :: Holds(n)
      ensures forall n | n in slots && n != name && slots[n].Below? ::
                slots[n].nested.Repr !! slots[name].nested.Repr && slots[n].nested.Repr == old(slots[n].nested.Repr)
    {
      assert old(Holds(name));
      forall n | n in slots && n != name
        ensures Holds(n) && (slots[n].Below? ==>
                  slots[n].nested.Repr !! slots[name].nested.Repr && slots[n].nested.Repr == old(slots[n].nested.Repr))
      {
        assert old(Holds(n));
        if slots[n].Below? {
          var other := slots[n].nested;
          assert old(other.Repr !! slots[name].nested.Repr) && old(other.Valid());
          assert unchanged(other) && forall o | o in other.Repr :: unchanged(o);
          assert other.Valid();
        }
      }
    }

    /** Places text at a path below this map. */
    method InsertKey(parts: seq<string>, text: string)
      requires Valid() && |parts| > 0
      modifies Repr
      ensures Valid() && fresh(Repr - old(Repr))
      ensures Contents == Insert(old(Contents), parts, text)
      decreases |parts|, 1
    {
      if |parts| == 1 {
        slots := slots[parts[0] := Text(text)];
        Contents := Contents[parts[0] := Leaf(text)];
        return;
      }
      var child := Child(parts[0]);
      InsertBelow(child, parts, text);
    }

    method InsertBelow(child: NestedMap, parts: seq<string>, text: string)
      requires Valid() && |parts| > 1 && parts[0] in slots && slots[parts[0]] == Below(child)
      modifies Repr
      ensures Valid() && fresh(Repr - old(Repr))
      ensures Contents == old(Contents)[parts[0] := Dir(Insert(old(child.Contents), parts[1..], text))]
      decreases |parts|, 0
    {
      var name := parts[0];
      assert Holds(name);
      child.InsertKey(parts[1..], text);
      OthersStay(name);
      Adopt(name, child);
    }

    /** Takes note of what a map below has become. */
    ghost method Adopt(name: string, child: NestedMap)
      requires this in Repr && slots.Keys == Contents.Keys && name in slots && slots[name] == Below(child)
      requires child.Valid() && this !in child.Repr
      requires forall n | n in slots && n != name :: Holds(n)
      requires forall n | n in slots && n != name && slots[n].Below? :: slots[n].nested.Repr !! child.Repr
      requires Apart(name)
      modifies `Repr, `Contents
      ensures Valid() && Repr == old(Repr) + child.Repr
      ensures Contents == old(Contents)[name := Dir(child.Contents)]
    {
      Repr := Repr + child.Repr;
      Contents := Contents[name := Dir(child.Contents)];
      forall n | n in slots && n != name
        ensures Holds(n)
      {
        assert old(Holds(n));
      }
    }

    /** Places a scalar or the contexts under a name. */
    method Put(name: string, slot: Slot)
      requires Valid() && !slot.Below?
      modifies this
      ensures Valid() && Repr == old(Repr)
      ensures Contents == old(Contents)[name := NodeOf(slot)]
    {
      slots := slots[name := slot];
      Contents := Contents[name := NodeOf(slot)];
      forall n | n in slots
        ensures Holds(n)
      {
        assert n != name ==> old(Holds(n));
      }
    }

    /** The tree written for this map, taking the names in whatever order they come. */
    method Document() returns (tree: Tree)
      requires Valid()
      ensures tree == Contents
      decreases Repr
    {
      tree := map[];
      var left := slots.Keys;
      while left != {}
        invariant left <= slots.Keys && tree.Keys == slots.Keys - left
        invariant forall name | name in tree :: tree[name] == Contents[name]
        decreases left
      {
        var name :| name in left;
        assert Holds(name);
        match slots[name] {
          case Text(text) => tree := tree[name := Leaf(text)];
          case Bundle(contexts) => tree := tree[name := Contexts(contexts)];
          case Below(child) =>
            var inner := child.Document();
            tree := tree[name := Dir(inner)];
        }
        left := left - {name};
      }
    }
  }

  function NodeOf(slot: Slot): Node
    requires !slot.Below?
  {
    if slot.Text? then Leaf(slot.text) else Contexts(slot.contexts)
  }

  /** Builds the tree of a flat map, taking the keys in whatever order they come. */
  method BuildTree(values: map<string, string>) returns (tree: NestedMap)
    requires PrefixFree(values.Keys)
    ensures tree.Valid() && fresh(tree.Repr) && StandsFor(tree.Contents, values)
  {
    tree := new NestedMap();
    var left := values.Keys;
    ghost var done: map<string, string> := map[];
    while left != {}
      invariant tree.Valid() && fresh(tree.Repr)
      invariant left <= values.Keys && done == map key | key in values && key !in left :: values[key]
      invariant StandsFor(tree.Contents, done)
      decreases left
    {
      var key :| key in left;
      assert PrefixFree(done.Keys + {key});
      InsertStands(tree.Contents, done, key, values[key]);
      tree.InsertKey(Split(key, '.'), values[key]);
      left := left - {key};
      done := done[key := values[key]];
    }
    assert done == values;
  }
}
