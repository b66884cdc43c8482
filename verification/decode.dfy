/** The decoder: a machine that reads one record at a time and refuses whatever the format forbids. */
module Decoding {
  import opened Text
  import opened Bundle
  import opened Records
  import opened Encoding

  datatype Refusal =
    | BadRecord | RepeatedHeader | HeaderMissing | NoRecordType | UnknownRecord
    | ComponentFirst | ComponentMissing | InvalidComponent | BreaksOrder | RepeatedComponent
    | EmptyBundle | NotHeader | BadVersion

  /** What the decoder keeps between records. */
  datatype Place = Place(line: nat, last: int, header: bool, seen: set<string>)

  datatype Format = Format(codec: Codec, rules: Rules)

  /** The next record and what is left, the end of the bundle, or a refusal. */
  datatype Outcome = End(place: Place) | Got(record: Record, place: Place, rest: seq<string>)
                   | Refused(why: Refusal, place: Place)

  const START: Place := Place(0, -1, false, {})

  function ParsedComponent(f: Format, p: Place, r: Record): (Result<Record, Refusal>, Place) {
    if !p.header then (Err(ComponentFirst), p)
    else if r.component.None? then (Err(ComponentMissing), p)
    else
      var c := r.component.value;
      if !Valid(f.rules, c) then (Err(InvalidComponent), p)
      else if Order(c.kind).0 < p.last then (Err(BreaksOrder), p)
      else if Id(c) in p.seen then (Err(RepeatedComponent), p)
      else (Ok(r), p.(seen := p.seen + {Id(c)}, last := Order(c.kind).0))
  }

  function Parsed(f: Format, p: Place, raw: string): (Result<Record, Refusal>, Place) {
    match f.codec.decode(raw)
    case None => (Err(BadRecord), p)
    case Some(r) =>
      match r.record
      case HeaderRecord =>
        if p.header then (Err(RepeatedHeader), p)
        else if r.header.None? then (Err(HeaderMissing), p)
        else (Ok(r), p.(header := true))
      case ComponentRecord => ParsedComponent(f, p, r)
      case NoRecord => (Err(NoRecordType), p)
      case OtherRecord(_) => (Err(UnknownRecord), p)
  }

  function NextOf(f: Format, p: Place, lines: seq<string>): (o: Outcome)
    ensures o.Got? ==> |o.rest| < |lines| && o.place.header
    ensures o.Got? && p.header ==> o.record.record == ComponentRecord && o.record.component.Some?
    ensures o.Got? && !p.header ==> o.record.record == HeaderRecord && o.record.header.Some?
    decreases |lines|
  {
    if |lines| == 0 then End(p)
    else
      var counted := p.(line := p.line + 1);
      if f.codec.blank(lines[0]) then NextOf(f, counted, lines[1..])
      else
        match Parsed(f, counted, lines[0])
        case (Ok(r), after) => Got(r, after, lines[1..])
        case (Err(why), after) => Refused(why, after)
  }

  /** What a non-blank line answers. */
  function LineOutcome(f: Format, p: Place, line: string, rest: seq<string>): Outcome {
    match Parsed(f, p.(line := p.line + 1), line)
    case (Ok(r), after) => Got(r, after, rest)
    case (Err(why), after) => Refused(why, after)
  }

  /** What the decoder answers, and where it stands then, is what the lines determine. */
  ghost predicate Answers(o: Outcome, r: Result<Record, Refusal>, end: bool, p: Place, rest: seq<string>) {
    match o
    case End(after) => end && p == after
    case Got(record, after, left) => !end && r == Ok(record) && p == after && rest == left
    case Refused(why, after) => !end && r == Err(why) && p == after
  }

  lemma LineAnswers(f: Format, p: Place, line: string, rest: seq<string>, r: Result<Record, Refusal>, q: Place)
    requires (r, q) == Parsed(f, p.(line := p.line + 1), line)
    ensures Answers(LineOutcome(f, p, line, rest), r, false, q, rest)
  {
  }

  lemma NextStep(f: Format, p: Place, line: string, rest: seq<string>)
    ensures f.codec.blank(line) ==> NextOf(f, p, [line] + rest) == NextOf(f, p.(line := p.line + 1), rest)
    ensures !f.codec.blank(line) ==> NextOf(f, p, [line] + rest) == LineOutcome(f, p, line, rest)
  {
    assert ([line] + rest)[1..] == rest;
  }

  function OpeningOf(f: Format, p: Place, lines: seq<string>): Result<Header, Refusal> {
    match NextOf(f, p, lines)
    case End(_) => Err(EmptyBundle)
    case Refused(why, _) => Err(why)
    case Got(r, _, _) =>
      if r.record != HeaderRecord then Err(NotHeader)
      else if r.header.value.version != BUNDLE_VERSION then Err(BadVersion)
      else Ok(r.header.value)
  }

  /** The components the rest of the lines hold, up to the end. */
  function ComponentsOf(f: Format, p: Place, lines: seq<string>): Result<seq<Component>, Refusal>
    requires p.header
    decreases |lines|
  {
    match NextOf(f, p, lines)
    case End(_) => Ok([])
    case Refused(why, _) => Err(why)
    case Got(r, after, rest) =>
      match ComponentsOf(f, after, rest)
      case Err(why) => Err(why)
      case Ok(cs) => Ok([r.component.value] + cs)
  }

  /** What reading a whole document answers. */
  function ReadOf(f: Format, doc: string): Result<(Header, seq<Component>), Refusal> {
    match OpeningOf(f, START, Lines(doc))
    case Err(why) => Err(why)
    case Ok(h) =>
      var o := NextOf(f, START, Lines(doc));
      match ComponentsOf(f, o.place, o.rest)
      case Err(why) => Err(why)
      case Ok(cs) => Ok((h, cs))
  }

  class Decoder {
    const format: Format
    var input: string
    var line: nat
    var last: int
    var header: bool
    var seen: set<string>

    ghost function View(): Place
      reads this
    {
      Place(line, last, header, seen)
    }

    constructor (format: Format, input: string)
      ensures this.format == format && this.input == input && View() == START
    {
      this.format, this.input := format, input;
      line, last, header, seen := 0, -1, false, {};
    }

    /** The next line, its line feed included; None at the end of the input. */
    method ReadLine() returns (raw: Option<string>)
      modifies this`input, this`line
      ensures raw.None? <==> old(input) == ""
      ensures raw.None? ==> input == old(input) && line == old(line)
      ensures raw.Some? ==> Lines(old(input)) == [raw.value] + Lines(input) && line == old(line) + 1
      ensures raw.Some? ==> |input| < |old(input)|
    {
      if |input| == 0 {
        return None;
      }
      var first := FirstLine(input);
      input := input[|first|..];
      line := line + 1;
      raw := Some(first);
    }

    method Parse(raw: string) returns (r: Result<Record, Refusal>)
      modifies this`last, this`header, this`seen
      ensures (r, View()) == Parsed(format, old(View()), raw)
    {
      var decoded := format.codec.decode(raw);
      if decoded.None? {
        return Err(BadRecord);
      }
      var rec := decoded.value;
      match rec.record {
        case HeaderRecord =>
          if header {
            return Err(RepeatedHeader);
          }
          if rec.header.None? {
            return Err(HeaderMissing);
          }
          header := true;
          r := Ok(rec);
        case ComponentRecord => r := ParseComponent(rec);
        case NoRecord => r := Err(NoRecordType);
        case OtherRecord(_) => r := Err(UnknownRecord);
      }
    }

    method ParseComponent(rec: Record) returns (r: Result<Record, Refusal>)
      modifies this`last, this`seen
      ensures (r, View()) == ParsedComponent(format, old(View()), rec)
    {
      if !header {
        return Err(ComponentFirst);
      }
      if rec.component.None? {
        return Err(ComponentMissing);
      }
      var c := rec.component.value;
      if !Valid(format.rules, c) {
        return Err(InvalidComponent);
      }
      var order := Order(c.kind).0;
      if order < last {
        return Err(BreaksOrder);
      }
      var id := Id(c);
      if id in seen {
        return Err(RepeatedComponent);
      }
      seen := seen + {id};
      last := order;
      r := Ok(rec);
    }

    /** Reads on past blank lines; None at the end of the input. */
    method NextLine() returns (raw: Option<string>)
      modifies this`input, this`line
      ensures raw.None? ==> NextOf(format, old(View()), Lines(old(input))) == End(View())
      ensures raw.Some? ==> line > 0 && |input| < |old(input)|
                            && NextOf(format, old(View()), Lines(old(input)))
                            == LineOutcome(format, View().(line := line - 1), raw.value, Lines(input))
    {
      ghost var answer := NextOf(format, View(), Lines(input));
      while true
        invariant answer == NextOf(format, View(), Lines(input))
        invariant |input| <= |old(input)|
        decreases |input|
      {
        ghost var here := View();
        raw := ReadLine();
        if raw.None? {
          return;
        }
        NextStep(format, here, raw.value, Lines(input));
        if !format.codec.blank(raw.value) {
          return;
        }
      }
    }

    /** Reads on to a record or a refusal, or to the end of the input. */
    method Next() returns (r: Result<Record, Refusal>, end: bool)
      modifies this
      ensures Answers(NextOf(format, old(View()), Lines(old(input))), r, end, View(), Lines(input))
      ensures !end ==> |input| < |old(input)|
    {
      var raw := NextLine();
      if raw.None? {
        return Err(EmptyBundle), true;
      }
      ghost var here, rest := View(), Lines(input);
      r := Parse(raw.value);
      LineAnswers(format, here.(line := here.line - 1), raw.value, rest, r, View());
      end := false;
    }

    /** The opening record. */
    method Header() returns (h: Result<Records.Header, Refusal>)
      modifies this
      ensures h == OpeningOf(format, old(View()), Lines(old(input)))
      ensures h.Ok? ==> var o := NextOf(format, old(View()), Lines(old(input)));
                        View() == o.place && Lines(input) == o.rest
    {
      var r, end := Next();
      if end {
        return Err(EmptyBundle);
      }
      if r.Err? {
        return Err(r.error);
      }
      if r.value.record != HeaderRecord {
        return Err(NotHeader);
      }
      if r.value.header.value.version != BUNDLE_VERSION {
        return Err(BadVersion);
      }
      h := Ok(r.value.header.value);
    }
  }

  function Behind(out: seq<Component>, r: Result<seq<Component>, Refusal>): Result<seq<Component>, Refusal> {
    match r
    case Err(why) => Err(why)
    case Ok(cs) => Ok(out + cs)
  }

  lemma BehindMore(out: seq<Component>, c: Component, r: Result<seq<Component>, Refusal>)
    ensures Behind(out + [c], r) == Behind(out, Behind([c], r))
  {
    if r.Ok? {
      assert out + [c] + r.value == out + ([c] + r.value);
    }
  }

  /** Appends components until the input ends. Past the header every record is a component that is there. */
  method ReadComponents(dec: Decoder) returns (result: Result<seq<Component>, Refusal>)
    requires dec.header
    modifies dec
    ensures result == old(ComponentsOf(dec.format, dec.View(), Lines(dec.input)))
  {
    ghost var all := ComponentsOf(dec.format, dec.View(), Lines(dec.input));
    var out: seq<Component> := [];
    assert all.Ok? ==> [] + all.value == all.value;
    while true
      invariant dec.header
      invariant all == Behind(out, ComponentsOf(dec.format, dec.View(), Lines(dec.input)))
      decreases |dec.input|
    {
      ghost var here := ComponentsOf(dec.format, dec.View(), Lines(dec.input));
      var rec, end := dec.Next();
      if end {
        assert here == Ok([]) && out + [] == out;
        return Ok(out);
      }
      if rec.Err? {
        return Err(rec.error);
      }
      var c := rec.value.component.value;
      ghost var after := ComponentsOf(dec.format, dec.View(), Lines(dec.input));
      assert here == Behind([c], after);
      BehindMore(out, c, after);
      out := out + [c];
    }
  }

  /** Reads a whole document. */
  method Read(f: Format, doc: string) returns (result: Result<(Header, seq<Component>), Refusal>)
    ensures result == ReadOf(f, doc)
  {
    var dec := new Decoder(f, doc);
    var header := dec.Header();
    if header.Err? {
      return Err(header.error);
    }
    var components := ReadComponents(dec);
    if components.Err? {
      return Err(components.error);
    }
    result := Ok((header.value, components.value));
  }

  // ---------- exactly which documents are read ----------

  /** The lines, read from place p on, hold exactly the components cs and are all accepted. */
  ghost predicate Holds(f: Format, p: Place, lines: seq<string>, cs: seq<Component>) {
    && AreComponents(f.codec, NonBlank(f.codec, lines), cs)
    && Fits(f.rules, p.last, p.seen, cs)
  }

  ghost predicate AreComponents(codec: Codec, lines: seq<string>, cs: seq<Component>) {
    |lines| == |cs| && forall i | 0 <= i < |cs| :: IsComponentLine(codec, lines[i], cs[i])
  }

  /** The component can come next. */
  ghost predicate Follows(r: Rules, last: int, seen: set<string>, c: Component) {
    Valid(r, c) && last <= Order(c.kind).0 && Id(c) !in seen
  }

  /** The components can follow, in turn, what the decoder remembers. */
  ghost predicate Fits(r: Rules, last: int, seen: set<string>, cs: seq<Component>)
    decreases |cs|
  {
    |cs| > 0 ==>
      Follows(r, last, seen, cs[0]) && Fits(r, Order(cs[0].kind).0, seen + {Id(cs[0])}, cs[1..])
  }

  /** The place and the lines once the blank ones are passed over. */
  lemma {:induction false} SkipBlank(f: Format, p: Place, lines: seq<string>) returns (p': Place, rest: seq<string>)
    ensures p' == p.(line := p'.line) && |rest| <= |lines|
    ensures NextOf(f, p, lines) == if |rest| == 0 then End(p') else LineOutcome(f, p', rest[0], rest[1..])
    ensures NonBlank(f.codec, lines)
         == if |rest| == 0 then [] else [rest[0]] + NonBlank(f.codec, rest[1..])
    decreases |lines|
  {
    if |lines| > 0 && f.codec.blank(lines[0]) {
      p', rest := SkipBlank(f, p.(line := p.line + 1), lines[1..]);
    } else {
      p', rest := p, lines;
    }
  }

  ghost predicate Yields(o: Outcome, c: Component) {
    o.Got? && o.record.component == Some(c)
  }

  /** The place past p and the component c. */
  ghost predicate Remembered(q: Place, p: Place, c: Component) {
    q.header && q.last == Order(c.kind).0 && q.seen == p.seen + {Id(c)}
  }

  /** A line past the header is taken as the component c exactly when it holds c and c can come next. */
  lemma LineTaken(f: Format, p: Place, line: string, rest: seq<string>, c: Component)
    requires p.header
    ensures Yields(LineOutcome(f, p, line, rest), c)
        <==> IsComponentLine(f.codec, line, c) && Follows(f.rules, p.last, p.seen, c)
    ensures Yields(LineOutcome(f, p, line, rest), c) ==>
              LineOutcome(f, p, line, rest).rest == rest && Remembered(LineOutcome(f, p, line, rest).place, p, c)
  {
  }

  lemma HoldsFront(f: Format, p: Place, q: Place, lines: seq<string>, line: string, rest: seq<string>,
                   cs: seq<Component>)
    requires NonBlank(f.codec, lines) == [line] + NonBlank(f.codec, rest) && |cs| > 0
    requires q.last == Order(cs[0].kind).0 && q.seen == p.seen + {Id(cs[0])}
    ensures Holds(f, p, lines, cs) <==>
              && IsComponentLine(f.codec, line, cs[0]) && Follows(f.rules, p.last, p.seen, cs[0])
              && Holds(f, q, rest, cs[1..])
  {
    LinesFront(f.codec, line, NonBlank(f.codec, rest), cs);
  }

  lemma LinesFront(codec: Codec, line: string, rest: seq<string>, cs: seq<Component>)
    requires |cs| > 0
    ensures AreComponents(codec, [line] + rest, cs) <==>
              IsComponentLine(codec, line, cs[0]) && AreComponents(codec, rest, cs[1..])
  {
    var lines := [line] + rest;
    assert lines[0] == line && forall i | 0 <= i < |rest| :: lines[i + 1] == rest[i];
    if AreComponents(codec, lines, cs) {
      forall i | 0 <= i < |cs| - 1
        ensures IsComponentLine(codec, rest[i], cs[1..][i])
      {
        assert IsComponentLine(codec, lines[i + 1], cs[i + 1]);
      }
    }
    if IsComponentLine(codec, line, cs[0]) && AreComponents(codec, rest, cs[1..]) {
      forall i | 0 <= i < |cs|
        ensures IsComponentLine(codec, lines[i], cs[i])
      {
        assert i > 0 ==> IsComponentLine(codec, rest[i - 1], cs[1..][i - 1]);
      }
    }
  }

  /** What the rest of the lines hold, by the record that comes first. */
  lemma ComponentsFront(f: Format, p: Place, lines: seq<string>, cs: seq<Component>)
    requires p.header
    ensures var o := NextOf(f, p, lines);
            ComponentsOf(f, p, lines) == Ok(cs) <==>
              match o
              case End(_) => cs == []
              case Refused(_, _) => false
              case Got(r, after, rest) =>
                |cs| > 0 && r.component == Some(cs[0]) && ComponentsOf(f, after, rest) == Ok(cs[1..])
  {
    if |cs| > 0 {
      assert cs == [cs[0]] + cs[1..];
    }
  }

  lemma {:induction false} ComponentsExact(f: Format, p: Place, lines: seq<string>, cs: seq<Component>)
    requires p.header
    ensures ComponentsOf(f, p, lines) == Ok(cs) <==> Holds(f, p, lines, cs)
    decreases |lines|
  {
    var p', rest := SkipBlank(f, p, lines);
    ComponentsFront(f, p, lines, cs);
    if |rest| > 0 && |cs| > 0 {
      var o := LineOutcome(f, p', rest[0], rest[1..]);
      LineTaken(f, p', rest[0], rest[1..], cs[0]);
      if Yields(o, cs[0]) {
        ComponentsExact(f, o.place, rest[1..], cs[1..]);
      }
      HoldsFront(f, p, p'.(last := Order(cs[0].kind).0, seen := p.seen + {Id(cs[0])}), lines, rest[0], rest[1..], cs);
    }
  }

  ghost predicate Unseen(seen: set<string>, cs: seq<Component>) {
    forall i | 0 <= i < |cs| :: Id(cs[i]) !in seen
  }

  lemma UnseenFront(seen: set<string>, c: Component, rest: seq<Component>)
    ensures Unseen(seen, [c] + rest) && (forall i | 0 <= i < |rest| :: Id(rest[i]) != Id(c))
        <==> Id(c) !in seen && Unseen(seen + {Id(c)}, rest)
  {
    var cs := [c] + rest;
    assert forall i | 0 < i < |cs| :: cs[i] == rest[i - 1];
    if Unseen(seen, cs) {
      assert Id(cs[0]) !in seen;
      forall i | 0 <= i < |rest|
        ensures Id(rest[i]) !in seen
      {
        assert Id(cs[i + 1]) !in seen;
      }
    }
    if Id(c) !in seen && Unseen(seen + {Id(c)}, rest) {
      forall i | 0 <= i < |cs|
        ensures Id(cs[i]) !in seen
      {
        assert i > 0 ==> Id(rest[i - 1]) !in seen + {Id(c)};
      }
      forall i | 0 <= i < |rest|
        ensures Id(rest[i]) != Id(c)
      {
        assert Id(rest[i]) !in seen + {Id(c)};
      }
    }
  }

  /** The components fit in turn exactly when they are an arrangement as a whole. */
  lemma {:induction false} FitsIff(r: Rules, last: int, seen: set<string>, cs: seq<Component>)
    ensures Fits(r, last, seen, cs) <==>
              Arrangement(r, cs) && (|cs| > 0 ==> last <= Order(cs[0].kind).0) && Unseen(seen, cs)
    decreases |cs|
  {
    if |cs| > 0 {
      var c, rest := cs[0], cs[1..];
      assert cs == [c] + rest;
      FitsIff(r, Order(c.kind).0, seen + {Id(c)}, rest);
      ArrangementFront(r, c, rest);
      UnseenFront(seen, c, rest);
    }
  }

  lemma ArrangementFront(r: Rules, c: Component, rest: seq<Component>)
    ensures Arrangement(r, [c] + rest) <==>
              Valid(r, c) && Arrangement(r, rest) && (|rest| > 0 ==> Order(c.kind).0 <= Order(rest[0].kind).0)
              && forall i | 0 <= i < |rest| :: Id(rest[i]) != Id(c)
  {
    var cs := [c] + rest;
    assert forall i | 0 <= i < |rest| :: cs[i + 1] == rest[i];
    assert forall d :: d in cs <==> d == c || d in rest;
    if AllValid(r, cs) {
      forall i | 0 <= i < |rest|
        ensures Id(rest[i]) == Id(c) <==> Same(c, rest[i])
      {
        assert Valid(r, rest[i]) && Valid(r, c);
        IdIff(rest[i], c);
      }
      DistinctFront(c, rest);
      OrderedFront(c, rest);
    }
  }

  lemma DistinctFront(c: Component, rest: seq<Component>)
    ensures Distinct([c] + rest) <==> Distinct(rest) && forall i | 0 <= i < |rest| :: !Same(c, rest[i])
  {
    var cs := [c] + rest;
    assert forall i | 0 < i < |cs| :: cs[i] == rest[i - 1];
    if Distinct(cs) {
      forall i | 0 <= i < |rest|
        ensures !Same(c, rest[i])
      {
        assert !Same(cs[0], cs[i + 1]);
      }
      forall i, j | 0 <= i < j < |rest|
        ensures !Same(rest[i], rest[j])
      {
        assert !Same(cs[i + 1], cs[j + 1]);
      }
    }
  }

  lemma OrderedFront(c: Component, rest: seq<Component>)
    ensures Ordered([c] + rest) <==>
              Ordered(rest) && (|rest| > 0 ==> Order(c.kind).0 <= Order(rest[0].kind).0)
  {
    var cs := [c] + rest;
    assert forall i | 0 < i < |cs| :: cs[i] == rest[i - 1];
    if Ordered(cs) {
      if |rest| > 0 {
        assert Order(cs[0].kind).0 <= Order(cs[1].kind).0;
      }
      forall i, j | 0 <= i < j < |rest|
        ensures Order(rest[i].kind).0 <= Order(rest[j].kind).0
      {
        assert Order(cs[i + 1].kind).0 <= Order(cs[j + 1].kind).0;
      }
    }
  }

  /** The opening line is taken exactly when it holds a header, of which the version must be supported. */
  lemma OpeningTaken(f: Format, p: Place, line: string, rest: seq<string>, h: Header)
    requires !p.header
    ensures var o := LineOutcome(f, p, line, rest);
            o.Got? && o.record.header == Some(h) <==> IsHeaderLine(f.codec, line, h)
    ensures var o := LineOutcome(f, p, line, rest);
            o.Got? ==>
              o.record.record == HeaderRecord && o.rest == rest && o.place == p.(line := p.line + 1, header := true)
  {
  }

  lemma DocumentFront(f: Format, doc: string, line: string, rest: seq<string>, h: Header, cs: seq<Component>)
    requires NonBlank(f.codec, Lines(doc)) == [line] + rest
    ensures IsDocument(f.codec, f.rules, doc, h, cs) <==>
              && IsHeaderLine(f.codec, line, h) && h.version == BUNDLE_VERSION
              && AreComponents(f.codec, rest, cs) && Arrangement(f.rules, cs)
  {
    var lines := [line] + rest;
    assert lines[0] == line && forall i | 0 <= i < |rest| :: lines[1 + i] == rest[i];
  }

  /** Exactness: reading succeeds, with h and cs, if and only if the non-blank lines are the header h of the
      supported version followed by the valid, ordered and distinct components cs.
   */
  lemma ReadExact(f: Format, doc: string, h: Header, cs: seq<Component>)
    ensures ReadOf(f, doc) == Ok((h, cs)) <==> IsDocument(f.codec, f.rules, doc, h, cs)
  {
    var p, rest := SkipBlank(f, START, Lines(doc));
    if |rest| > 0 {
      var o := LineOutcome(f, p, rest[0], rest[1..]);
      OpeningTaken(f, p, rest[0], rest[1..], h);
      DocumentFront(f, doc, rest[0], NonBlank(f.codec, rest[1..]), h, cs);
      FitsIff(f.rules, -1, {}, cs);
      if o.Got? {
        ComponentsExact(f, o.place, rest[1..], cs);
      }
    }
  }

  // ---------- line numbers and reasons ----------

  /** Line n is the first that is not blank. */
  ghost predicate FirstSolid(codec: Codec, lines: seq<string>, n: int) {
    0 <= n < |lines| && !codec.blank(lines[n]) && forall i | 0 <= i < n :: codec.blank(lines[i])
  }

  /** The line number counts every line read, the blank ones too, and so names the line of the last record. */
  lemma {:induction false} LineNumber(f: Format, p: Place, lines: seq<string>)
    ensures var o := NextOf(f, p, lines); o.End? ==> o.place.line == p.line + |lines|
    ensures var o := NextOf(f, p, lines); !o.End? ==> FirstSolid(f.codec, lines, o.place.line - p.line - 1)
    decreases |lines|
  {
    if |lines| > 0 {
      LineNumber(f, p.(line := p.line + 1), lines[1..]);
    }
  }

  /** What is left are the lines after that one. */
  lemma {:induction false} LinesLeft(f: Format, p: Place, lines: seq<string>)
    requires NextOf(f, p, lines).Got?
    ensures var o := NextOf(f, p, lines);
            o.rest == lines[|lines| - |o.rest|..] && o.place.line == p.line + |lines| - |o.rest|
    decreases |lines|
  {
    if f.codec.blank(lines[0]) {
      LinesLeft(f, p.(line := p.line + 1), lines[1..]);
    }
  }

  /** Why a line is refused, in the order the reasons are looked at. */
  lemma ReasonIs(f: Format, p: Place, raw: string)
    ensures f.codec.decode(raw).None? ==> Parsed(f, p, raw) == (Err(BadRecord), p)
    ensures f.codec.decode(raw).Some? ==> ReasonOf(f, p, f.codec.decode(raw).value, Parsed(f, p, raw).0)
    ensures Parsed(f, p, raw).0.Err? ==> Parsed(f, p, raw).1 == p
  {
  }

  ghost predicate ReasonOf(f: Format, p: Place, r: Record, answer: Result<Record, Refusal>) {
    && (r.record == NoRecord ==> answer == Err(NoRecordType))
    && (r.record.OtherRecord? ==> answer == Err(UnknownRecord))
    && (r.record == HeaderRecord && p.header ==> answer == Err(RepeatedHeader))
    && (r.record == HeaderRecord && !p.header && r.header.None? ==> answer == Err(HeaderMissing))
    && (r.record == ComponentRecord && !p.header ==> answer == Err(ComponentFirst))
    && (r.record == ComponentRecord && p.header && r.component.None? ==> answer == Err(ComponentMissing))
    && (r.record == ComponentRecord && p.header && r.component.Some? ==>
          var c := r.component.value;
          && (!Valid(f.rules, c) ==> answer == Err(InvalidComponent))
          && (Valid(f.rules, c) && Order(c.kind).0 < p.last ==> answer == Err(BreaksOrder))
          && (Valid(f.rules, c) && Order(c.kind).0 >= p.last && Id(c) in p.seen ==> answer == Err(RepeatedComponent)))
  }

  /** Why an opening is refused: nothing but blank lines, a first record that is refused, or a header of
      another version. A first record that is accepted is a header.
   */
  lemma OpeningReasonIs(f: Format, lines: seq<string>)
    ensures var o, answer := NextOf(f, START, lines), OpeningOf(f, START, lines);
            && (o.End? ==> answer == Err(EmptyBundle))
            && (o.Refused? ==> answer == Err(o.why))
            && (o.Got? ==>
                  var h := o.record.header.value;
                  answer == if h.version == 1 then Ok(h) else Err(BadVersion))
  {
  }
}
