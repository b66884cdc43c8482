/** What the encoder writes and what the decoder reads, together. */
module RoundTrip {
  import opened Text
  import opened Bundle
  import opened Records
  import opened Encoding
  import opened Decoding

  lemma {:induction false} NonBlankAppend(codec: Codec, a: seq<string>, b: seq<string>)
    ensures NonBlank(codec, a + b) == NonBlank(codec, a) + NonBlank(codec, b)
  {
    if |a| > 0 {
      NonBlankAppend(codec, a[1..], b);
      assert (a + b)[1..] == a[1..] + b;
    } else {
      assert a + b == b;
    }
  }

  lemma {:induction false} NonBlankAll(codec: Codec, lines: seq<string>)
    requires forall i | 0 <= i < |lines| :: !codec.blank(lines[i])
    ensures NonBlank(codec, lines) == lines
  {
    if |lines| > 0 {
      NonBlankAll(codec, lines[1..]);
      assert lines == [lines[0]] + lines[1..];
    }
  }

  lemma LineReads(codec: Codec, r: Record)
    requires Lawful(codec) && codec.encode(r).Some?
    ensures codec.decode(LineOf(codec, r)) == Some(r) && !codec.blank(LineOf(codec, r))
  {
    assert RecordText(codec, r, codec.encode(r).value);
  }

  lemma WrittenLines(codec: Codec, rs: seq<Record>)
    requires Lawful(codec) && Encodable(codec, rs)
    ensures NonBlank(codec, Lines(Written(codec, rs))) == LinesOf(codec, rs)
    ensures forall i | 0 <= i < |rs| :: codec.decode(LinesOf(codec, rs)[i]) == Some(rs[i])
  {
    LinesWhole(codec, rs);
    LinesRead(codec, rs);
    NonBlankAll(codec, LinesOf(codec, rs));
  }

  lemma LinesWhole(codec: Codec, rs: seq<Record>)
    requires Lawful(codec) && Encodable(codec, rs)
    ensures Lines(Written(codec, rs)) == LinesOf(codec, rs)
  {
    LinesWritten(codec, rs, "");
    EmptyTail(Written(codec, rs), LinesOf(codec, rs));
  }

  lemma EmptyTail(text: string, lines: seq<string>)
    requires Lines(text + "") == lines + []
    ensures Lines(text) == lines
  {
    assert text + "" == text && lines + [] == lines;
  }

  lemma LinesRead(codec: Codec, rs: seq<Record>)
    requires Lawful(codec) && Encodable(codec, rs)
    ensures forall i | 0 <= i < |rs| ::
              codec.decode(LinesOf(codec, rs)[i]) == Some(rs[i]) && !codec.blank(LinesOf(codec, rs)[i])
  {
    forall i | 0 <= i < |rs|
      ensures codec.decode(LinesOf(codec, rs)[i]) == Some(rs[i]) && !codec.blank(LinesOf(codec, rs)[i])
    {
      assert rs[i] in rs;
      LineReads(codec, rs[i]);
    }
  }

  /** The non-blank lines of a text decode, in turn, to the records. */
  ghost predicate DecodesTo(codec: Codec, doc: string, rs: seq<Record>) {
    var lines := NonBlank(codec, Lines(doc));
    |lines| == |rs| && forall i | 0 <= i < |rs| :: codec.decode(lines[i]) == Some(rs[i])
  }

  /** A text whose lines decode to a header and an arrangement of components is a document that holds them. */
  lemma DecodedIsDocument(codec: Codec, r: Rules, doc: string, h: Header, cs: seq<Component>)
    requires h.version == BUNDLE_VERSION && Arrangement(r, cs)
    requires DecodesTo(codec, doc, RecordsOf(Accepted(Some(h), cs)))
    ensures IsDocument(codec, r, doc, h, cs)
  {
    var rs := RecordsOf(Accepted(Some(h), cs));
    var lines := NonBlank(codec, Lines(doc));
    assert rs[0] == OfHeader(h) && codec.decode(lines[0]) == Some(rs[0]);
    forall i | 0 <= i < |cs|
      ensures IsComponentLine(codec, lines[1 + i], cs[i])
    {
      assert rs[1 + i] == OfComponent(cs[i]) && codec.decode(lines[1 + i]) == Some(rs[1 + i]);
    }
  }

  lemma WrittenIsDocument(codec: Codec, r: Rules, h: Header, cs: seq<Component>)
    requires Lawful(codec) && h.version == BUNDLE_VERSION && Arrangement(r, cs)
    requires Encodable(codec, RecordsOf(Accepted(Some(h), cs)))
    ensures IsDocument(codec, r, Written(codec, RecordsOf(Accepted(Some(h), cs))), h, cs)
  {
    var rs := RecordsOf(Accepted(Some(h), cs));
    WrittenLines(codec, rs);
    DecodedIsDocument(codec, r, Written(codec, rs), h, cs);
  }

  lemma LastUnread(codec: Codec, r: Rules, doc: string, h: Header, cs: seq<Component>)
    requires var ls := NonBlank(codec, Lines(doc)); |ls| > 0 && codec.decode(ls[|ls| - 1]).None?
    ensures !IsDocument(codec, r, doc, h, cs)
  {
    var ls := NonBlank(codec, Lines(doc));
    if |ls| == 1 + |cs| && |cs| > 0 {
      assert !IsComponentLine(codec, ls[1 + (|cs| - 1)], cs[|cs| - 1]);
    }
  }

  /** A text that breaks off inside a record is refused, whatever records come before. */
  lemma TruncationRefused(f: Format, rs: seq<Record>, r: Record, n: nat)
    requires Lawful(f.codec) && Encodable(f.codec, rs) && f.codec.encode(r).Some?
    requires 0 < n < |f.codec.encode(r).value|
    ensures ReadOf(f, Written(f.codec, rs) + f.codec.encode(r).value[..n]).Err?
  {
    var text := f.codec.encode(r).value;
    assert RecordText(f.codec, r, text);
    var tail := text[..n];
    var doc := Written(f.codec, rs) + tail;
    LinesWritten(f.codec, rs, tail);
    NonBlankAppend(f.codec, LinesOf(f.codec, rs), [tail]);
    assert NonBlank(f.codec, [tail]) == [tail];
    match ReadOf(f, doc)
    case Err(_) =>
    case Ok((h, cs)) =>
      LastUnread(f.codec, f.rules, doc, h, cs);
      ReadExact(f, doc, h, cs);
  }

  /** A record whose line lacks only its line feed still reads. */
  lemma WholeTail(codec: Codec, rs: seq<Record>, r: Record)
    requires Lawful(codec) && Encodable(codec, rs) && codec.encode(r).Some?
    ensures DecodesTo(codec, Written(codec, rs) + codec.encode(r).value, rs + [r])
  {
    var text := codec.encode(r).value;
    assert RecordText(codec, r, text);
    LinesWritten(codec, rs, text);
    NonBlankAppend(codec, LinesOf(codec, rs), [text]);
    LinesRead(codec, rs);
    NonBlankAll(codec, LinesOf(codec, rs));
    assert NonBlank(codec, [text]) == [text];
  }

  /** What reads as a document that holds what was accepted. */
  function Holding(a: Accepted): Result<(Header, seq<Component>), Refusal> {
    if a.header.Some? then Ok((a.header.value, a.components)) else Err(EmptyBundle)
  }

  lemma WholeReads(e: Env, a: Accepted)
    requires Lawful(e.codec) && (a.header.Some? ==> a.header.value.version == BUNDLE_VERSION)
    requires Arrangement(e.rules, a.components) && Encodable(e.codec, RecordsOf(a))
    ensures ReadOf(Format(e.codec, e.rules), Written(e.codec, RecordsOf(a))) == Holding(a)
  {
    if a.header.Some? {
      WrittenIsDocument(e.codec, e.rules, a.header.value, a.components);
      ReadExact(Format(e.codec, e.rules), Written(e.codec, RecordsOf(a)), a.header.value, a.components);
    }
  }

  /** Whatever calls are made, calls after a failure included, over a writer that never fails: reading the
      output gives exactly the header and the components whose calls succeeded, in order, the header with the
      name and the time of the first call; and when no header call succeeded the output is empty.
   */
  lemma ReadOfWritten(e: Env, calls: seq<Call>)
    requires Lawful(e.codec)
    ensures var (s, a) := Run(e, New(None), calls);
            match a.header
            case Some(h) => ReadOf(Format(e.codec, e.rules), s.out) == Ok((h, a.components))
                            && HeaderOfCall(e, h, calls[0])
            case None => s.out == "" && ReadOf(Format(e.codec, e.rules), s.out) == Err(EmptyBundle)
  {
    AcceptedAre(e, None, calls);
    RunInv(e, None, calls);
    RoomStays(e, calls);
    WholeReads(e, Run(e, New(None), calls).1);
  }

  lemma TookReads(e: Env, a: Accepted, call: Call)
    requires Lawful(e.codec) && (a.header.Some? ==> a.header.value.version == BUNDLE_VERSION)
    requires Arrangement(e.rules, a.components) && (a.header.None? ==> a.components == [])
    requires Fitting(e, a, call) && Encodable(e.codec, RecordsOf(a)) && e.codec.encode(RecordOf(e, call)).Some?
    ensures ReadOf(Format(e.codec, e.rules), Written(e.codec, RecordsOf(a)) + e.codec.encode(RecordOf(e, call)).value)
         == Holding(Took(e, a, call))
  {
    var took := Took(e, a, call);
    var doc := Written(e.codec, RecordsOf(a)) + e.codec.encode(RecordOf(e, call)).value;
    assert RecordsOf(took) == RecordsOf(a) + [RecordOf(e, call)];
    WholeTail(e.codec, RecordsOf(a), RecordOf(e, call));
    DecodedIsDocument(e.codec, e.rules, doc, took.header.value, took.components);
    ReadExact(Format(e.codec, e.rules), doc, took.header.value, took.components);
  }

  /** Over a writer that fails at any point, the output reads as exactly what was accepted; or as that and the
      record of the call that failed, when the writer took all of it but its line feed; or it is refused.
   */
  lemma TornOutputReads(e: Env, room: Option<nat>, calls: seq<Call>)
    requires Lawful(e.codec)
    ensures var (s, a) := Run(e, New(room), calls);
            var failed, text := FailedCall(e, New(room), calls), Written(e.codec, RecordsOf(a));
            var answer := ReadOf(Format(e.codec, e.rules), s.out);
            if s.out == text then answer == Holding(a)
            else
              && failed.Some? && e.codec.encode(RecordOf(e, failed.value)).Some?
              && if s.out == text + e.codec.encode(RecordOf(e, failed.value)).value
                 then answer == Holding(Took(e, a, failed.value))
                 else answer.Err?
  {
    RunInv(e, room, calls);
    var (s, a) := Run(e, New(room), calls);
    var text := Written(e.codec, RecordsOf(a));
    if s.out == text {
      WholeReads(e, a);
    } else {
      var call, tail := FailedCall(e, New(room), calls).value, s.out[|text|..];
      var whole := e.codec.encode(RecordOf(e, call)).value;
      assert s.out == text + tail && LineOf(e.codec, RecordOf(e, call)) == whole + "\n";
      TornTail(whole, tail);
      if tail == whole {
        TookReads(e, a, call);
      } else {
        TruncationRefused(Format(e.codec, e.rules), RecordsOf(a), RecordOf(e, call), |tail|);
      }
    }
  }

  lemma TornTail(whole: string, tail: string)
    requires 0 < |tail| < |whole + "\n"| && tail == (whole + "\n")[..|tail|]
    ensures |tail| <= |whole| && tail == whole[..|tail|]
  {
  }

  // ---------- canonical documents ----------

  function CallsFor(name: string, at: int, cs: seq<Component>): seq<Call> {
    [HeaderCall(name, at)] + seq(|cs|, i requires 0 <= i < |cs| => ComponentCall(cs[i]))
  }

  ghost predicate AllEncodable(e: Env, cs: seq<Component>) {
    && (forall h :: e.codec.encode(OfHeader(h)).Some?)
    && (forall c | c in cs :: e.codec.encode(OfComponent(c)).Some?)
  }

  /** The encoder takes a whole arrangement, from header to last component, without an error. */
  lemma {:induction false} TakesAll(e: Env, name: string, at: int, cs: seq<Component>)
    requires Arrangement(e.rules, cs) && AllEncodable(e, cs)
    ensures var (s, a) := Run(e, New(None), CallsFor(name, at, cs));
            s.err.None? && a == Accepted(Some(HeaderOf(e, name, at)), cs)
  {
    var calls := CallsFor(name, at, cs);
    if |cs| == 0 {
      assert calls[..0] == [];
      assert e.codec.encode(OfHeader(HeaderOf(e, name, at))).Some?;
    } else {
      var front, last := cs[..|cs| - 1], cs[|cs| - 1];
      assert cs == front + [last];
      ArrangementPrefix(e.rules, front, last);
      assert calls[..|cs|] == CallsFor(name, at, front);
      assert calls[|cs|] == ComponentCall(last) && last in cs;
      TakesAll(e, name, at, front);
      RunInv(e, None, CallsFor(name, at, front));
      RoomStays(e, CallsFor(name, at, front));
      TakesOne(e, Run(e, New(None), CallsFor(name, at, front)).0, HeaderOf(e, name, at), front, last);
    }
  }

  lemma TakesOne(e: Env, s: State, h: Header, front: seq<Component>, last: Component)
    requires Inv(e, s, Accepted(Some(h), front), None) && s.err.None? && s.room.None?
    requires Arrangement(e.rules, front + [last]) && e.codec.encode(OfComponent(last)).Some?
    ensures Called(e, s, ComponentCall(last)).err.None?
  {
    ArrangementMore(e.rules, front, last, s.last, s.seen);
  }

  lemma ArrangementPrefix(r: Rules, front: seq<Component>, last: Component)
    requires Arrangement(r, front + [last])
    ensures Arrangement(r, front)
  {
    var cs := front + [last];
    assert forall i | 0 <= i < |front| :: cs[i] == front[i];
    assert forall c | c in front :: c in cs;
    forall i, j | 0 <= i < j < |front|
      ensures !Same(front[i], front[j]) && Order(front[i].kind).0 <= Order(front[j].kind).0
    {
      assert !Same(cs[i], cs[j]) && Order(cs[i].kind).0 <= Order(cs[j].kind).0;
    }
  }

  lemma SortedIsArrangement(r: Rules, cs: seq<Component>)
    requires AllValid(r, cs) && Distinct(cs)
    ensures Arrangement(r, Arranged(cs))
    ensures forall c :: c in Arranged(cs) <==> c in cs
  {
    ArrangedSorts(cs);
    DistinctPermuted(cs, Arranged(cs));
    forall c
      ensures c in Arranged(cs) <==> c in cs
    {
      assert c in Arranged(cs) <==> c in multiset(Arranged(cs));
      assert c in cs <==> c in multiset(cs);
    }
    var s := Arranged(cs);
    forall i, j | 0 <= i < j < |s|
      ensures Order(s[i].kind).0 <= Order(s[j].kind).0
    {
      assert !Precedes(s[j], s[i]);
    }
  }

  /** Sorting valid, distinct components, listed in any order, gives a sequence the encoder takes whole, so
      the same components under the same header always give the same document.
   */
  lemma CanonicalDocument(e: Env, name: string, at: int, a: seq<Component>, b: seq<Component>)
    requires multiset(a) == multiset(b) && AllValid(e.rules, a) && Distinct(a) && AllEncodable(e, a)
    ensures var (s, taken) := Run(e, New(None), CallsFor(name, at, Arranged(a)));
            && s.err.None? && taken == Accepted(Some(HeaderOf(e, name, at)), Arranged(a))
            && s.out == Run(e, New(None), CallsFor(name, at, Arranged(b))).0.out
  {
    SortCanonical(e.rules, a, b);
    SortedIsArrangement(e.rules, a);
    TakesAll(e, name, at, Arranged(a));
  }
}
