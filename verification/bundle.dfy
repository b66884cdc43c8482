/** Components of a bundle: their keys, their validity, and the order that makes a document canonical. */
module Bundle {
  import opened Text

  /** The kinds a bundle can carry, and any other name a document may hold. */
  datatype Kind = KWorkflow | KFieldDef | KTag | KProject | KWebhook | Unknown(name: string)

  // body stands for the members of a payload that no rule of the bundle reads.
  datatype Workflow = Workflow(key: string, body: string)
  datatype Field = Field(key: string, body: string)
  datatype Tag = Tag(name: string, color: string)
  datatype Project = Project(key: string, color: string, icon: string, iconName: string, workflow: Option<Workflow>,
                             fields: seq<Field>, tags: seq<Tag>, body: string)
  datatype Webhook = Webhook(url: string, eventTypes: seq<string>)

  datatype Component = Component(kind: Kind, workflow: Option<Workflow>, field: Option<Field>, tag: Option<Tag>,
                                 project: Option<Project>, webhook: Option<Webhook>)

  /** The rules the bundle leaves to the core package. */
  datatype Rules = Rules(workflow: Workflow -> bool, field: Field -> bool, projectKey: string -> bool,
                         color: string -> bool, icon: (string, string) -> bool, url: string -> bool)

  function KindName(k: Kind): string {
    match k
    case KWorkflow => "workflow"
    case KFieldDef => "field_def"
    case KTag => "tag"
    case KProject => "project_template"
    case KWebhook => "webhook"
    case Unknown(name) => name
  }

  /** A kind's position in the bundle order; an unknown kind has none and reads as the first. */
  function Order(k: Kind): (nat, bool) {
    match k
    case KWorkflow => (0, true)
    case KFieldDef => (1, true)
    case KTag => (2, true)
    case KProject => (3, true)
    case KWebhook => (4, true)
    case Unknown(_) => (0, false)
  }

  function Key(c: Component): string {
    match c.kind
    case KWorkflow => if c.workflow.Some? then c.workflow.value.key else ""
    case KFieldDef => if c.field.Some? then c.field.value.key else ""
    case KTag => if c.tag.Some? then c.tag.value.name else ""
    case KProject => if c.project.Some? then c.project.value.key else ""
    case KWebhook => if c.webhook.Some? then c.webhook.value.url else ""
    case Unknown(_) => ""
  }

  predicate HasPayload(c: Component) {
    match c.kind
    case KWorkflow => c.workflow.Some?
    case KFieldDef => c.field.Some?
    case KTag => c.tag.Some?
    case KProject => c.project.Some?
    case KWebhook => c.webhook.Some?
    case Unknown(_) => false
  }

  predicate ValidProject(r: Rules, p: Project) {
    && r.projectKey(p.key) && r.color(p.color) && r.icon(p.icon, p.iconName)
    && (p.workflow.Some? ==> r.workflow(p.workflow.value))
    && (forall i | 0 <= i < |p.fields| :: r.field(p.fields[i]))
    && (forall i | 0 <= i < |p.tags| :: TrimSpace(p.tags[i].name) != "")
  }

  predicate Valid(r: Rules, c: Component) {
    && Order(c.kind).1 && HasPayload(c) && TrimSpace(Key(c)) != ""
    && match c.kind
       case KWorkflow => r.workflow(c.workflow.value)
       case KFieldDef => r.field(c.field.value)
       case KTag => true
       case KProject => ValidProject(r, c.project.value)
       case KWebhook => r.url(c.webhook.value.url)
       case Unknown(_) => false
  }

  // ---------- identity ----------

  /** The text under which a component is remembered as seen. */
  function Id(c: Component): string {
    KindName(c.kind) + ['\0'] + Key(c)
  }

  predicate Same(c: Component, d: Component) {
    c.kind == d.kind && Key(c) == Key(d)
  }

  lemma KindNameApart(k: Kind, l: Kind)
    requires Order(k).1 && Order(l).1
    ensures Free(KindName(k), '\0')
    ensures KindName(k) == KindName(l) <==> k == l
  {
    assert KindName(k)[1] == KindName(l)[1] ==> k == l || |KindName(k)| != |KindName(l)|;
  }

  /** No kind name holds the zero byte, so two texts are equal exactly when kind and key are. */
  lemma IdIff(c: Component, d: Component)
    requires Order(c.kind).1 && Order(d.kind).1
    ensures Id(c) == Id(d) <==> Same(c, d)
  {
    KindNameApart(c.kind, d.kind);
    KindNameApart(d.kind, c.kind);
    CutAt(KindName(c.kind), Key(c), '\0');
    CutAt(KindName(d.kind), Key(d), '\0');
  }

  // ---------- the canonical order ----------

  predicate Precedes(c: Component, d: Component) {
    var i, j := Order(c.kind).0, Order(d.kind).0;
    if i != j then i < j else Less(Key(c), Key(d))
  }

  lemma PrecedesOrder(c: Component, d: Component, e: Component)
    ensures !(Precedes(c, d) && Precedes(d, c))
    ensures Precedes(c, d) && Precedes(d, e) ==> Precedes(c, e)
    ensures !Precedes(d, c) && !Precedes(e, d) ==> !Precedes(e, c)
  {
    LessTotal(Key(c), Key(d));
    LessTotal(Key(d), Key(e));
    LessTotal(Key(c), Key(e));
    if Less(Key(c), Key(d)) && Less(Key(d), Key(e)) {
      LessTransitive(Key(c), Key(d), Key(e));
    }
    if Less(Key(e), Key(c)) && Less(Key(c), Key(d)) {
      LessTransitive(Key(e), Key(c), Key(d));
    }
    if Less(Key(d), Key(e)) && Less(Key(e), Key(c)) {
      LessTransitive(Key(d), Key(e), Key(c));
    }
  }

  ghost predicate Sorted(cs: seq<Component>) {
    forall i, j | 0 <= i < j < |cs| :: !Precedes(cs[j], cs[i])
  }

  /** Puts c after every component it does not precede, from the back. */
  function Insert(cs: seq<Component>, c: Component): (r: seq<Component>)
    ensures |r| == |cs| + 1
  {
    if |cs| == 0 || !Precedes(c, cs[|cs| - 1]) then cs + [c]
    else Insert(cs[..|cs| - 1], c) + [cs[|cs| - 1]]
  }

  function Arranged(cs: seq<Component>): (r: seq<Component>)
    ensures |r| == |cs|
  {
    if |cs| == 0 then [] else Insert(Arranged(cs[..|cs| - 1]), cs[|cs| - 1])
  }

  /** The components that neither precede nor follow c, in the order they stand. */
  function Peers(cs: seq<Component>, c: Component): seq<Component> {
    if |cs| == 0 then []
    else
      var front, d := Peers(cs[..|cs| - 1], c), cs[|cs| - 1];
      if Precedes(c, d) || Precedes(d, c) then front else front + [d]
  }

  lemma {:induction false} InsertSorted(cs: seq<Component>, c: Component)
    requires Sorted(cs)
    ensures Sorted(Insert(cs, c))
    ensures multiset(Insert(cs, c)) == multiset(cs) + multiset{c}
  {
    if |cs| > 0 {
      var front, last := cs[..|cs| - 1], cs[|cs| - 1];
      assert cs == front + [last];
      if Precedes(c, last) {
        InsertSorted(front, c);
        var r := Insert(front, c);
        forall i | 0 <= i < |r|
          ensures !Precedes(last, r[i])
        {
          assert r[i] in multiset(r);
          PrecedesOrder(c, last, c);
          if r[i] != c {
            assert r[i] in front;
          }
        }
      } else {
        forall i | 0 <= i < |cs|
          ensures !Precedes(c, cs[i])
        {
          PrecedesOrder(cs[i], last, c);
        }
      }
    }
  }

  lemma {:induction false} InsertPeers(cs: seq<Component>, c: Component, d: Component)
    requires Sorted(cs)
    ensures Peers(Insert(cs, c), d) == Peers(cs + [c], d)
  {
    assert (cs + [c])[..|cs|] == cs;
    if |cs| > 0 && Precedes(c, cs[|cs| - 1]) {
      var front, last := cs[..|cs| - 1], cs[|cs| - 1];
      InsertPeers(front, c, d);
      assert (front + [c])[..|front|] == front;
      assert Insert(cs, c)[..|cs|] == Insert(front, c);
      PrecedesOrder(c, last, d);
      PrecedesOrder(last, d, c);
      PrecedesOrder(d, c, last);
    }
  }

  /** Arranging keeps every component and puts them in order. */
  lemma {:induction false} ArrangedSorts(cs: seq<Component>)
    ensures Sorted(Arranged(cs))
    ensures multiset(Arranged(cs)) == multiset(cs)
  {
    if |cs| > 0 {
      var front, last := cs[..|cs| - 1], cs[|cs| - 1];
      ArrangedSorts(front);
      InsertSorted(Arranged(front), last);
      assert cs == front + [last];
    }
  }

  /** Arranging is stable: it leaves peers in the order they stood. */
  lemma {:induction false} ArrangedIsStable(cs: seq<Component>, c: Component)
    ensures Peers(Arranged(cs), c) == Peers(cs, c)
  {
    if |cs| > 0 {
      var front, last := cs[..|cs| - 1], cs[|cs| - 1];
      ArrangedIsStable(front, c);
      ArrangedSorts(front);
      InsertPeers(Arranged(front), last, c);
      assert (Arranged(front) + [last])[..|front|] == Arranged(front);
    }
  }

  /** An array in which c stands between the first j components of front and the others. */
  function Moving(front: seq<Component>, c: Component, j: nat, behind: seq<Component>): seq<Component>
    requires j <= |front|
  {
    front[..j] + [c] + front[j..] + behind
  }

  lemma MovingStart(cs: seq<Component>, i: nat)
    requires i < |cs|
    ensures cs == Moving(cs[..i], cs[i], i, cs[i + 1..])
  {
  }

  lemma MovingAt(front: seq<Component>, c: Component, j: nat, behind: seq<Component>)
    requires j <= |front|
    ensures var cs := Moving(front, c, j, behind);
            && |cs| == |front| + 1 + |behind| && cs[j] == c && (j > 0 ==> cs[j - 1] == front[j - 1])
            && cs[..|front| + 1] == front[..j] + [c] + front[j..] && cs[|front| + 1..] == behind
  {
  }

  lemma MovingOn(front: seq<Component>, c: Component, j: nat, behind: seq<Component>)
    requires 0 < j <= |front|
    ensures Moving(front, c, j, behind)[j := front[j - 1]][j - 1 := c] == Moving(front, c, j - 1, behind)
  {
  }

  lemma InsertShift(front: seq<Component>, j: nat, c: Component)
    requires 0 < j <= |front| && Precedes(c, front[j - 1])
    ensures Insert(front[..j], c) + front[j..] == Insert(front[..j - 1], c) + front[j - 1..]
  {
    assert front[..j][..j - 1] == front[..j - 1];
    assert front[j - 1..] == [front[j - 1]] + front[j..];
  }

  lemma InsertHere(front: seq<Component>, j: nat, c: Component)
    requires j <= |front| && (j > 0 ==> !Precedes(c, front[j - 1]))
    ensures Insert(front[..j], c) == front[..j] + [c]
  {
  }

  /** Exchanges component i with the one before it while it precedes that one. */
  method Settle(cs: array<Component>, i: nat)
    requires i < cs.Length
    modifies cs
    ensures cs[..i + 1] == Insert(old(cs[..i]), old(cs[i]))
    ensures cs[i + 1..] == old(cs[i + 1..])
  {
    ghost var front, c, behind := cs[..i], cs[i], cs[i + 1..];
    var j := i;
    MovingStart(cs[..], i);
    assert front[..j] == front && front[j..] == [];
    MovingAt(front, c, j, behind);
    while j > 0 && Precedes(cs[j], cs[j - 1])
      invariant 0 <= j <= i
      invariant cs[..] == Moving(front, c, j, behind)
      invariant cs[j] == c && (j > 0 ==> cs[j - 1] == front[j - 1])
      invariant Insert(front, c) == Insert(front[..j], c) + front[j..]
    {
      InsertShift(front, j, c);
      MovingOn(front, c, j, behind);
      cs[j], cs[j - 1] := cs[j - 1], cs[j];
      j := j - 1;
      MovingAt(front, c, j, behind);
    }
    InsertHere(front, j, c);
    MovingAt(front, c, j, behind);
  }

  /** Sorts in place. */
  method Sort(cs: array<Component>)
    modifies cs
    ensures cs[..] == Arranged(old(cs[..]))
  {
    ghost var was := cs[..];
    var i := 0;
    while i < cs.Length
      invariant 0 <= i <= cs.Length
      invariant cs[..i] == Arranged(was[..i]) && cs[i..] == was[i..]
    {
      assert was[..i + 1][..i] == was[..i] && cs[i] == was[i];
      Settle(cs, i);
      i := i + 1;
    }
    assert was[..i] == was;
  }

  ghost predicate AllValid(r: Rules, cs: seq<Component>) {
    forall c | c in cs :: Valid(r, c)
  }

  ghost predicate Distinct(cs: seq<Component>) {
    forall i, j | 0 <= i < j < |cs| :: !Same(cs[i], cs[j])
  }

  /** Any two different components are ordered, one way or the other. */
  ghost predicate PairsOrdered(cs: seq<Component>) {
    forall c, d | c in cs && d in cs && c != d :: Precedes(c, d) || Precedes(d, c)
  }

  lemma ValidPairsOrdered(r: Rules, cs: seq<Component>)
    requires AllValid(r, cs) && Distinct(cs)
    ensures PairsOrdered(cs)
  {
    forall c, d | c in cs && d in cs && c != d
      ensures Precedes(c, d) || Precedes(d, c)
    {
      var i :| 0 <= i < |cs| && cs[i] == c;
      var j :| 0 <= j < |cs| && cs[j] == d;
      assert !Same(c, d) by {
        if i < j {
          assert !Same(cs[i], cs[j]);
        } else {
          assert !Same(cs[j], cs[i]);
        }
      }
      PrecedesTotal(r, c, d);
    }
  }

  lemma PrecedesTotal(r: Rules, c: Component, d: Component)
    requires Valid(r, c) && Valid(r, d) && !Same(c, d)
    ensures Precedes(c, d) || Precedes(d, c)
  {
    LessTotal(Key(c), Key(d));
  }

  lemma HeadsEqual(a: seq<Component>, b: seq<Component>)
    requires |a| > 0 && |b| > 0 && multiset(a) == multiset(b)
    requires Sorted(a) && Sorted(b) && PairsOrdered(a)
    ensures a[0] == b[0]
  {
    assert a[0] in multiset(b) && b[0] in multiset(a);
    var i :| 0 <= i < |b| && b[i] == a[0];
    var j :| 0 <= j < |a| && a[j] == b[0];
    PrecedesOrder(a[0], a[0], a[0]);
    assert !Precedes(a[j], a[0]) && !Precedes(b[i], b[0]);
  }

  lemma TailSorted(a: seq<Component>)
    requires |a| > 0
    ensures Sorted(a) ==> Sorted(a[1..])
    ensures PairsOrdered(a) ==> PairsOrdered(a[1..])
  {
  }

  lemma TailSame(a: seq<Component>, b: seq<Component>)
    requires |a| > 0 && |b| > 0 && a[0] == b[0] && multiset(a) == multiset(b)
    ensures multiset(a[1..]) == multiset(b[1..])
  {
    assert a == [a[0]] + a[1..] && b == [b[0]] + b[1..];
    assert multiset(a[1..]) == multiset(a) - multiset{a[0]};
    assert multiset(b[1..]) == multiset(b) - multiset{b[0]};
  }

  /** Two sorted arrangements of the same comparable components are the same sequence. */
  lemma {:induction false} SortedUnique(a: seq<Component>, b: seq<Component>)
    requires multiset(a) == multiset(b)
    requires Sorted(a) && Sorted(b) && PairsOrdered(a)
    ensures a == b
  {
    assert |a| == |multiset(a)| == |multiset(b)| == |b|;
    if |a| > 0 {
      HeadsEqual(a, b);
      TailSame(a, b);
      TailSorted(a);
      TailSorted(b);
      SortedUnique(a[1..], b[1..]);
      assert a == [a[0]] + a[1..] && b == [b[0]] + b[1..];
    }
  }

  lemma CountTwice(b: seq<Component>, i: nat, j: nat)
    requires i < j < |b| && b[i] == b[j]
    ensures multiset(b)[b[i]] >= 2
  {
    assert b == b[..j] + b[j..];
    assert b[i] in multiset(b[..j]) by {
      assert b[..j][i] == b[i];
    }
    assert b[i] in multiset(b[j..]) by {
      assert b[j..][0] == b[i];
    }
  }

  lemma {:induction false} TwoPlaces(a: seq<Component>, c: Component) returns (i: nat, j: nat)
    requires multiset(a)[c] >= 2
    ensures i < j < |a| && a[i] == a[j] == c
  {
    var front, last := a[..|a| - 1], a[|a| - 1];
    assert a == front + [last];
    if last == c {
      assert c in multiset(front);
      i :| 0 <= i < |front| && front[i] == c;
      j := |a| - 1;
    } else {
      i, j := TwoPlaces(front, c);
    }
  }

  lemma DistinctPermuted(a: seq<Component>, b: seq<Component>)
    requires multiset(a) == multiset(b) && Distinct(a)
    ensures Distinct(b)
  {
    forall i, j | 0 <= i < j < |b|
      ensures !Same(b[i], b[j])
    {
      if b[i] == b[j] {
        CountTwice(b, i, j);
        var k, l := TwoPlaces(a, b[i]);
      } else {
        assert b[i] in multiset(a) && b[j] in multiset(a);
        var k :| 0 <= k < |a| && a[k] == b[i];
        var l :| 0 <= l < |a| && a[l] == b[j];
        assert !Same(a[if k < l then k else l], a[if k < l then l else k]);
      }
    }
  }

  /** Canonical form: the same components, listed in any order, sort to the same sequence. */
  lemma SortCanonical(r: Rules, a: seq<Component>, b: seq<Component>)
    requires multiset(a) == multiset(b) && AllValid(r, a) && Distinct(a)
    ensures Arranged(a) == Arranged(b)
  {
    ArrangedSorts(a);
    ArrangedSorts(b);
    ValidPairsOrdered(r, a);
    assert forall c :: c in Arranged(a) <==> c in multiset(a);
    assert forall c :: c in a <==> c in multiset(a);
    SortedUnique(Arranged(a), Arranged(b));
  }

  // ---------- kinds, keys and validity, one by one ----------

  const KINDS: seq<Kind> := [KWorkflow, KFieldDef, KTag, KProject, KWebhook]

  /** The order of a kind is its place in the list of kinds, and only those listed have one. */
  lemma OrderIs(k: Kind)
    ensures Order(k).1 <==> k in KINDS
    ensures Order(k).1 ==> Order(k).0 < |KINDS| && KINDS[Order(k).0] == k
    ensures k !in KINDS ==> Order(k).0 == 0
    ensures KindName(KWorkflow) == "workflow" && KindName(KFieldDef) == "field_def" && KindName(KTag) == "tag"
    ensures KindName(KProject) == "project_template" && KindName(KWebhook) == "webhook"
  {
    assert KINDS[0] == KWorkflow && KINDS[1] == KFieldDef && KINDS[2] == KTag && KINDS[3] == KProject
        && KINDS[4] == KWebhook;
  }

  /** What a project may carry comes before it. */
  lemma PartsComeFirst()
    ensures forall k | k == KWorkflow || k == KFieldDef || k == KTag :: Order(k).0 < Order(KProject).0
  {
  }

  /** The key is the one of the payload the kind names, whatever else the component carries. */
  lemma KeyIs(c: Component)
    ensures c.kind == KWorkflow && c.workflow.Some? ==> Key(c) == c.workflow.value.key
    ensures c.kind == KFieldDef && c.field.Some? ==> Key(c) == c.field.value.key
    ensures c.kind == KTag && c.tag.Some? ==> Key(c) == c.tag.value.name
    ensures c.kind == KProject && c.project.Some? ==> Key(c) == c.project.value.key
    ensures c.kind == KWebhook && c.webhook.Some? ==> Key(c) == c.webhook.value.url
    ensures !HasPayload(c) ==> Key(c) == ""
  {
  }

  ghost predicate Blank(s: string) {
    forall i | 0 <= i < |s| :: IsSpace(s[i])
  }

  lemma BlankIff(s: string)
    ensures TrimSpace(s) == "" <==> Blank(s)
  {
    var front, back := TrimIs(s);
    if TrimSpace(s) != "" {
      assert s[|front|] == TrimSpace(s)[0];
    }
  }

  /** A component of each kind is valid exactly when it has the payload of the kind, the payload's key is not
      blank, and the payload keeps the rules of the core package; a tag has no further rules.
   */
  lemma ValidIff(r: Rules, c: Component)
    ensures c.kind == KWorkflow ==>
              (Valid(r, c) <==> c.workflow.Some? && !Blank(c.workflow.value.key) && r.workflow(c.workflow.value))
    ensures c.kind == KFieldDef ==>
              (Valid(r, c) <==> c.field.Some? && !Blank(c.field.value.key) && r.field(c.field.value))
    ensures c.kind == KTag ==> (Valid(r, c) <==> c.tag.Some? && !Blank(c.tag.value.name))
    ensures c.kind == KWebhook ==>
              (Valid(r, c) <==> c.webhook.Some? && !Blank(c.webhook.value.url) && r.url(c.webhook.value.url))
    ensures c.kind.Unknown? ==> !Valid(r, c)
  {
    BlankIff(Key(c));
  }

  /** A project keeps the rules for its own members and for the workflow, every field and every tag it carries. */
  lemma ValidProjectIff(r: Rules, c: Component, p: Project)
    requires c.kind == KProject && c.project == Some(p)
    ensures Valid(r, c) <==>
              && !Blank(p.key) && r.projectKey(p.key) && r.color(p.color) && r.icon(p.icon, p.iconName)
              && (p.workflow == None || r.workflow(p.workflow.value))
              && (forall f | f in p.fields :: r.field(f))
              && (forall t | t in p.tags :: !Blank(t.name))
  {
    BlankIff(p.key);
    forall t | t in p.tags
      ensures TrimSpace(t.name) == "" <==> Blank(t.name)
    {
      BlankIff(t.name);
    }
    ProjectRules(r, p);
  }

  lemma ProjectRules(r: Rules, p: Project)
    ensures ValidProject(r, p) <==>
              && r.projectKey(p.key) && r.color(p.color) && r.icon(p.icon, p.iconName)
              && (p.workflow == None || r.workflow(p.workflow.value))
              && (forall f | f in p.fields :: r.field(f))
              && (forall t | t in p.tags :: TrimSpace(t.name) != "")
  {
  }

  /** A sorted sequence goes through the kinds in the order of the list, and through each kind's keys in the
      order of a dictionary.
   */
  lemma SortedIs(cs: seq<Component>, i: nat, j: nat)
    requires Sorted(cs) && i < j < |cs|
    ensures Order(cs[i].kind).0 <= Order(cs[j].kind).0
    ensures Order(cs[i].kind).0 == Order(cs[j].kind).0 ==>
              Key(cs[i]) == Key(cs[j]) || InDictionaryOrder(Key(cs[i]), Key(cs[j]))
  {
    assert !Precedes(cs[j], cs[i]);
    LessTotal(Key(cs[i]), Key(cs[j]));
    LessIs(Key(cs[i]), Key(cs[j]));
  }
}
