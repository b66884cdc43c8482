/** A text form that keeps all that the bundle assumes of one, for every record there is. */
module RecordSample {
  import opened Text
  import opened Bundle
  import opened Records
  import opened Encoding
  import opened RoundTrip

  // ---------- terms, and texts no other text begins with ----------

  datatype Term = Num(n: nat) | List(items: seq<Term>)

  function Unary(n: nat): string {
    if n == 0 then "0" else "1" + Unary(n - 1)
  }

  function TermText(t: Term): string
    decreases t, 0
  {
    match t
    case Num(n) => "0" + Unary(n)
    case List(items) => "1" + ItemsText(items)
  }

  function ItemsText(items: seq<Term>): string
    decreases items, 1
  {
    if |items| == 0 then "0" else "1" + TermText(items[0]) + ItemsText(items[1..])
  }

  lemma FirstApart(a: string, b: string)
    ensures "0" + a != "1" + b
  {
    assert ("0" + a)[0] != ("1" + b)[0];
  }

  lemma RestEqual(c: string, a: string, b: string)
    requires c + a == c + b
    ensures a == b
  {
    assert (c + a)[|c|..] == a && (c + b)[|c|..] == b;
  }

  lemma {:induction false} UnaryApart(m: nat, n: nat, a: string, b: string)
    requires Unary(m) + a == Unary(n) + b
    ensures m == n && a == b
  {
    if m == 0 && n == 0 {
      RestEqual("0", a, b);
    } else if m == 0 {
      Associative("1", Unary(n - 1), b);
      FirstApart(a, Unary(n - 1) + b);
    } else if n == 0 {
      Associative("1", Unary(m - 1), a);
      FirstApart(b, Unary(m - 1) + a);
    } else {
      Associative("1", Unary(m - 1), a);
      Associative("1", Unary(n - 1), b);
      RestEqual("1", Unary(m - 1) + a, Unary(n - 1) + b);
      UnaryApart(m - 1, n - 1, a, b);
    }
  }

  lemma {:induction false} TermApart(t: Term, u: Term, a: string, b: string)
    requires TermText(t) + a == TermText(u) + b
    ensures t == u && a == b
    decreases t, 0
  {
    var x := if t.Num? then Unary(t.n) else ItemsText(t.items);
    var y := if u.Num? then Unary(u.n) else ItemsText(u.items);
    var c, d := if t.Num? then "0" else "1", if u.Num? then "0" else "1";
    Associative(c, x, a);
    Associative(d, y, b);
    if t.Num? != u.Num? {
      FirstApart(if t.Num? then x + a else y + b, if t.Num? then y + b else x + a);
    } else {
      RestEqual(c, x + a, y + b);
      if t.Num? {
        UnaryApart(t.n, u.n, a, b);
      } else {
        ItemsApart(t.items, u.items, a, b);
      }
    }
  }

  lemma ItemsFront(items: seq<Term>, a: string)
    requires |items| > 0
    ensures ItemsText(items) + a == "1" + (TermText(items[0]) + (ItemsText(items[1..]) + a))
  {
    var x, y := TermText(items[0]), ItemsText(items[1..]);
    Associative("1" + x, y, a);
    Associative("1", x, y + a);
  }

  lemma {:induction false} ItemsApart(ts: seq<Term>, us: seq<Term>, a: string, b: string)
    requires ItemsText(ts) + a == ItemsText(us) + b
    ensures ts == us && a == b
    decreases ts, 1
  {
    if |ts| == 0 && |us| == 0 {
      RestEqual("0", a, b);
    } else if |ts| == 0 {
      ItemsFront(us, b);
      FirstApart(a, TermText(us[0]) + (ItemsText(us[1..]) + b));
    } else if |us| == 0 {
      ItemsFront(ts, a);
      FirstApart(b, TermText(ts[0]) + (ItemsText(ts[1..]) + a));
    } else {
      var x, y := ItemsText(ts[1..]) + a, ItemsText(us[1..]) + b;
      ItemsFront(ts, a);
      ItemsFront(us, b);
      RestEqual("1", TermText(ts[0]) + x, TermText(us[0]) + y);
      TermApart(ts[0], us[0], x, y);
      ItemsApart(ts[1..], us[1..], a, b);
      assert ts == [ts[0]] + ts[1..] && us == [us[0]] + us[1..];
    }
  }

  predicate Bits(s: string) {
    forall i | 0 <= i < |s| :: s[i] == '0' || s[i] == '1'
  }

  lemma {:induction false} UnaryBits(n: nat)
    ensures Bits(Unary(n))
  {
    if n > 0 {
      UnaryBits(n - 1);
    }
  }

  lemma {:induction false} TermBits(t: Term)
    ensures Bits(TermText(t)) && |TermText(t)| > 0
    decreases t, 0
  {
    match t
    case Num(n) => UnaryBits(n);
    case List(items) => ItemsBits(items);
  }

  lemma {:induction false} ItemsBits(items: seq<Term>)
    ensures Bits(ItemsText(items))
    decreases items, 1
  {
    if |items| > 0 {
      TermBits(items[0]);
      ItemsBits(items[1..]);
    }
  }

  // ---------- records as terms ----------

  function OfText(s: string): Term {
    List(seq(|s|, i requires 0 <= i < |s| => Num(s[i] as int)))
  }

  function OfInt(n: int): Term {
    List([Num(if n < 0 then 1 else 0), Num(if n < 0 then -n else n)])
  }

  function OfOption<T>(o: Option<T>, f: T -> Term): Term {
    if o.None? then List([]) else List([f(o.value)])
  }

  function OfSeq<T>(s: seq<T>, f: T -> Term): Term {
    List(seq(|s|, i requires 0 <= i < |s| => f(s[i])))
  }

  function OfWorkflow(w: Workflow): Term {
    List([OfText(w.key), OfText(w.body)])
  }

  function OfField(f: Field): Term {
    List([OfText(f.key), OfText(f.body)])
  }

  function OfTag(t: Tag): Term {
    List([OfText(t.name), OfText(t.color)])
  }

  function OfProject(p: Project): Term {
    List([OfText(p.key), OfText(p.color), OfText(p.icon), OfText(p.iconName), OfOption(p.workflow, OfWorkflow),
          OfSeq(p.fields, OfField), OfSeq(p.tags, OfTag), OfText(p.body)])
  }

  function OfWebhook(w: Webhook): Term {
    List([OfText(w.url), OfSeq(w.eventTypes, OfText)])
  }

  function OfKind(k: Kind): Term {
    match k
    case KWorkflow => Num(0)
    case KFieldDef => Num(1)
    case KTag => Num(2)
    case KProject => Num(3)
    case KWebhook => Num(4)
    case Unknown(name) => OfText(name)
  }

  function OfPiece(c: Component): Term {
    List([OfKind(c.kind), OfOption(c.workflow, OfWorkflow), OfOption(c.field, OfField), OfOption(c.tag, OfTag),
          OfOption(c.project, OfProject), OfOption(c.webhook, OfWebhook)])
  }

  function OfOpening(h: Header): Term {
    List([OfText(h.name), OfInt(h.version), OfText(h.tixVersion), OfInt(h.exportedAt), OfText(h.tenant)])
  }

  function OfRecordKind(k: RecordKind): Term {
    match k
    case HeaderRecord => Num(0)
    case ComponentRecord => Num(1)
    case NoRecord => Num(2)
    case OtherRecord(name) => OfText(name)
  }

  function OfRecord(r: Record): Term {
    List([OfRecordKind(r.record), OfOption(r.header, OfOpening), OfOption(r.component, OfPiece)])
  }

  /** Different values have different terms. */
  ghost predicate Faithful<T(!new)>(f: T -> Term) {
    forall x, y :: f(x) == f(y) ==> x == y
  }

  lemma TextFaithful()
    ensures Faithful(OfText)
  {
    forall x: string, y: string | OfText(x) == OfText(y)
      ensures x == y
    {
      var s, t := OfText(x).items, OfText(y).items;
      assert |x| == |s| && |y| == |t|;
      forall i | 0 <= i < |x|
        ensures x[i] == y[i]
      {
        assert s[i] == Num(x[i] as int) && t[i] == Num(y[i] as int);
      }
    }
  }

  lemma OptionFaithful<T(!new)>(f: T -> Term, x: Option<T>, y: Option<T>)
    requires Faithful(f) && OfOption(x, f) == OfOption(y, f)
    ensures x == y
  {
    if x.Some? && y.Some? {
      assert OfOption(x, f).items[0] == f(x.value) && OfOption(y, f).items[0] == f(y.value);
    } else {
      assert |OfOption(x, f).items| == |OfOption(y, f).items|;
    }
  }

  lemma SeqFaithful<T(!new)>(f: T -> Term, x: seq<T>, y: seq<T>)
    requires Faithful(f) && OfSeq(x, f) == OfSeq(y, f)
    ensures x == y
  {
    var s, t := OfSeq(x, f).items, OfSeq(y, f).items;
    assert |x| == |s| && |y| == |t|;
    forall i | 0 <= i < |x|
      ensures x[i] == y[i]
    {
      assert s[i] == f(x[i]) && t[i] == f(y[i]);
    }
  }

  lemma IntFaithful(x: int, y: int)
    requires OfInt(x) == OfInt(y)
    ensures x == y
  {
    var s, t := OfInt(x).items, OfInt(y).items;
    assert s[0] == t[0] && s[1] == t[1];
  }

  lemma PairFaithful(x: Term, y: Term, u: Term, v: Term)
    requires List([x, y]) == List([u, v])
    ensures x == u && y == v
  {
    assert List([x, y]).items[0] == x && List([x, y]).items[1] == y;
    assert List([u, v]).items[0] == u && List([u, v]).items[1] == v;
  }

  lemma SmallFaithful()
    ensures Faithful(OfWorkflow) && Faithful(OfField) && Faithful(OfTag)
  {
    TextFaithful();
    forall x: Workflow, y: Workflow | OfWorkflow(x) == OfWorkflow(y)
      ensures x == y
    {
      PairFaithful(OfText(x.key), OfText(x.body), OfText(y.key), OfText(y.body));
    }
    forall x: Field, y: Field | OfField(x) == OfField(y)
      ensures x == y
    {
      PairFaithful(OfText(x.key), OfText(x.body), OfText(y.key), OfText(y.body));
    }
    forall x: Tag, y: Tag | OfTag(x) == OfTag(y)
      ensures x == y
    {
      PairFaithful(OfText(x.name), OfText(x.color), OfText(y.name), OfText(y.color));
    }
  }

  lemma ProjectFaithful()
    ensures Faithful(OfProject)
  {
    TextFaithful();
    SmallFaithful();
    forall x: Project, y: Project | OfProject(x) == OfProject(y)
      ensures x == y
    {
      var s, t := OfProject(x).items, OfProject(y).items;
      assert s[0] == t[0] && s[1] == t[1] && s[2] == t[2] && s[3] == t[3] && s[4] == t[4] && s[5] == t[5]
          && s[6] == t[6] && s[7] == t[7];
      OptionFaithful(OfWorkflow, x.workflow, y.workflow);
      SeqFaithful(OfField, x.fields, y.fields);
      SeqFaithful(OfTag, x.tags, y.tags);
    }
  }

  lemma WebhookFaithful()
    ensures Faithful(OfWebhook)
  {
    TextFaithful();
    forall x: Webhook, y: Webhook | OfWebhook(x) == OfWebhook(y)
      ensures x == y
    {
      PairFaithful(OfText(x.url), OfSeq(x.eventTypes, OfText), OfText(y.url), OfSeq(y.eventTypes, OfText));
      SeqFaithful(OfText, x.eventTypes, y.eventTypes);
    }
  }

  lemma KindFaithful()
    ensures Faithful(OfKind) && Faithful(OfRecordKind)
  {
    TextFaithful();
  }

  lemma PieceFaithful()
    ensures Faithful(OfPiece)
  {
    KindFaithful();
    SmallFaithful();
    ProjectFaithful();
    WebhookFaithful();
    forall x: Component, y: Component | OfPiece(x) == OfPiece(y)
      ensures x == y
    {
      var s, t := OfPiece(x).items, OfPiece(y).items;
      assert s[0] == t[0] && s[1] == t[1] && s[2] == t[2] && s[3] == t[3] && s[4] == t[4] && s[5] == t[5];
      OptionFaithful(OfWorkflow, x.workflow, y.workflow);
      OptionFaithful(OfField, x.field, y.field);
      OptionFaithful(OfTag, x.tag, y.tag);
      OptionFaithful(OfProject, x.project, y.project);
      OptionFaithful(OfWebhook, x.webhook, y.webhook);
    }
  }

  lemma OpeningFaithful()
    ensures Faithful(OfOpening)
  {
    TextFaithful();
    forall x: Header, y: Header | OfOpening(x) == OfOpening(y)
      ensures x == y
    {
      var s, t := OfOpening(x).items, OfOpening(y).items;
      assert s[0] == t[0] && s[1] == t[1] && s[2] == t[2] && s[3] == t[3] && s[4] == t[4];
      IntFaithful(x.version, y.version);
      IntFaithful(x.exportedAt, y.exportedAt);
    }
  }

  lemma RecordFaithful(x: Record, y: Record)
    requires OfRecord(x) == OfRecord(y)
    ensures x == y
  {
    KindFaithful();
    OpeningFaithful();
    PieceFaithful();
    var s, t := OfRecord(x).items, OfRecord(y).items;
    assert s[0] == t[0] && s[1] == t[1] && s[2] == t[2];
    OptionFaithful(OfOpening, x.header, y.header);
    OptionFaithful(OfPiece, x.component, y.component);
  }

  // ---------- the text form ----------

  function RecordLine(r: Record): string {
    TermText(OfRecord(r))
  }

  /** No record's text begins with another's. */
  lemma LinesApart(r: Record, s: Record, rest: string)
    requires RecordLine(r) == RecordLine(s) + rest
    ensures r == s && rest == ""
  {
    assert RecordLine(r) + "" == RecordLine(r);
    TermApart(OfRecord(r), OfRecord(s), "", rest);
    RecordFaithful(r, s);
  }

  ghost predicate Writes(r: Record, s: string) {
    s == RecordLine(r) || s == RecordLine(r) + "\n"
  }

  ghost function Decoded(s: string): Option<Record> {
    if exists r :: Writes(r, s) then
      var r :| Writes(r, s);
      Some(r)
    else None
  }

  ghost function Plain(): Codec {
    Codec((r: Record) => Some(RecordLine(r)), (s: string) => Decoded(s), (s: string) => AllSpace(s))
  }

  lemma LineBits(r: Record)
    ensures |RecordLine(r)| > 0 && Bits(RecordLine(r)) && Free(RecordLine(r), '\n')
  {
    TermBits(OfRecord(r));
  }

  /** What one line decodes to, with or without its line feed. */
  lemma LineDecodes(r: Record)
    ensures Decoded(RecordLine(r)) == Decoded(RecordLine(r) + "\n") == Some(r)
  {
    var text := RecordLine(r);
    LineBits(r);
    assert Writes(r, text) && Writes(r, text + "\n");
    forall s | Writes(s, text) || Writes(s, text + "\n")
      ensures s == r
    {
      LineBits(s);
      SameLine(r, s);
    }
  }

  lemma SameLine(r: Record, s: Record)
    requires Writes(s, RecordLine(r)) || Writes(s, RecordLine(r) + "\n")
    ensures s == r
  {
    LineBits(r);
    LineBits(s);
    var x, y := RecordLine(r), RecordLine(s);
    NoBreak(x, y);
    NoBreak(y, x);
    SameBreak(x, y);
    assert y + "" == y;
    LinesApart(r, s, "");
  }

  lemma NoBreak(x: string, y: string)
    requires Free(x, '\n')
    ensures x != y + "\n"
  {
    assert (y + "\n")[|y|] == '\n';
  }

  lemma SameBreak(x: string, y: string)
    ensures x + "\n" == y + "\n" ==> x == y
  {
    assert x == (x + "\n")[..|x|] && y == (y + "\n")[..|y|];
  }

  lemma FreePart(x: string, n: nat)
    requires Free(x, '\n') && n <= |x|
    ensures Free(x[..n], '\n') && x == x[..n] + x[n..]
  {
  }

  lemma PartIsNot(r: Record, n: nat, s: Record)
    requires n < |RecordLine(r)|
    ensures RecordLine(r)[..n] != RecordLine(s)
  {
    var x := RecordLine(r);
    assert x == x[..n] + x[n..];
    if x[..n] == RecordLine(s) {
      LinesApart(r, s, x[n..]);
    }
  }

  /** A part of a line is no line. */
  lemma PartUnread(r: Record, n: nat)
    requires 0 < n < |RecordLine(r)|
    ensures Decoded(RecordLine(r)[..n]).None?
  {
    LineBits(r);
    FreePart(RecordLine(r), n);
    forall s
      ensures !Writes(s, RecordLine(r)[..n])
    {
      NoBreak(RecordLine(r)[..n], RecordLine(s));
      PartIsNot(r, n, s);
    }
  }

  lemma StartNotSpace(s: string)
    requires |s| > 0 && (s[0] == '0' || s[0] == '1')
    ensures !AllSpace(s)
  {
  }

  lemma LineLawful(r: Record)
    ensures RecordText(Plain(), r, RecordLine(r))
  {
    var text := RecordLine(r);
    LineBits(r);
    LineDecodes(r);
    StartNotSpace(text);
    StartNotSpace(text + "\n");
    forall n | 0 < n < |text|
      ensures !AllSpace(text[..n]) && Decoded(text[..n]).None?
    {
      StartNotSpace(text[..n]);
      PartUnread(r, n);
    }
  }

  /** What the bundle assumes of a text form can be met, with a text for every header and every component. */
  lemma PlainLawful(e: Env, cs: seq<Component>)
    requires e.codec == Plain()
    ensures Records.Lawful(e.codec) && AllEncodable(e, cs)
  {
    forall r: Record
      ensures RecordText(Plain(), r, Plain().encode(r).value)
    {
      LineLawful(r);
    }
  }
}
