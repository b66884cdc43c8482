/** The encoder: a machine that writes one record a line and stops for good at the first failure. */
module Encoding {
  import opened Text
  import opened Bundle
  import opened Records

  datatype Fault = SecondHeader | NoHeader | Invalid | OutOfOrder | Repeated | WriteFailed

  /** What the encoder is built with: the text form, the core rules and the version of the program. */
  datatype Env = Env(codec: Codec, rules: Rules, tixVersion: string)

  /** room is how much the writer still takes before it fails, None for a writer that never fails. */
  datatype State = State(out: string, room: Option<nat>, err: Option<Fault>, header: bool, last: int, seen: set<string>)

  datatype Call = HeaderCall(name: string, at: int) | ComponentCall(component: Component)

  function New(room: Option<nat>): State {
    State("", room, None, false, -1, {})
  }

  /** A failing writer takes what it has room for, so the last record may be torn. */
  function Wrote(codec: Codec, s: State, r: Record): State {
    match codec.encode(r)
    case None => s.(err := Some(WriteFailed))
    case Some(text) =>
      var line := text + "\n";
      if s.room.None? then s.(out := s.out + line)
      else if |line| <= s.room.value then s.(out := s.out + line, room := Some(s.room.value - |line|))
      else s.(out := s.out + line[..s.room.value], room := Some(0), err := Some(WriteFailed))
  }

  function HeaderOf(e: Env, name: string, at: int): Header {
    Header(name, BUNDLE_VERSION, e.tixVersion, at, "")
  }

  function Called(e: Env, s: State, call: Call): State {
    if s.err.Some? then s
    else
      match call
      case HeaderCall(name, at) =>
        if s.header then s.(err := Some(SecondHeader))
        else Wrote(e.codec, s.(header := true), OfHeader(HeaderOf(e, name, at)))
      case ComponentCall(c) =>
        if !s.header then s.(err := Some(NoHeader))
        else if !Valid(e.rules, c) then s.(err := Some(Invalid))
        else if Order(c.kind).0 < s.last then s.(err := Some(OutOfOrder))
        else if Id(c) in s.seen then s.(err := Some(Repeated))
        else Wrote(e.codec, s.(seen := s.seen + {Id(c)}, last := Order(c.kind).0), OfComponent(c))
  }

  class Encoder {
    const env: Env
    var out: string
    var room: Option<nat>
    var err: Option<Fault>
    var header: bool
    var last: int
    var seen: set<string>

    ghost function View(): State
      reads this
    {
      State(out, room, err, header, last, seen)
    }

    constructor (env: Env, room: Option<nat>)
      ensures this.env == env && View() == New(room)
    {
      this.env := env;
      out, this.room, err, header, last, seen := "", room, None, false, -1, {};
    }

    method Header(name: string, at: int) returns (failure: Option<Fault>)
      modifies this
      ensures View() == Called(env, old(View()), HeaderCall(name, at)) && failure == err
      ensures var record := Record(HeaderRecord, Some(Records.Header(name, 1, env.tixVersion, at, "")), None);
              failure.None? ==> env.codec.encode(record).Some?
                                && out == old(out) + env.codec.encode(record).value + "\n"
    {
      if err.Some? {
        return err;
      }
      if header {
        err := Some(SecondHeader);
        return err;
      }
      header := true;
      failure := Write(OfHeader(HeaderOf(env, name, at)));
    }

    method Component(c: Component) returns (failure: Option<Fault>)
      modifies this
      ensures View() == Called(env, old(View()), ComponentCall(c)) && failure == err
      ensures var record := Record(ComponentRecord, None, Some(c));
              failure.None? ==> env.codec.encode(record).Some?
                                && out == old(out) + env.codec.encode(record).value + "\n"
    {
      if err.Some? {
        return err;
      }
      if !header {
        err := Some(NoHeader);
        return err;
      }
      if !Valid(env.rules, c) {
        err := Some(Invalid);
        return err;
      }
      var order := Order(c.kind).0;
      if order < last {
        err := Some(OutOfOrder);
        return err;
      }
      var id := Id(c);
      if id in seen {
        err := Some(Repeated);
        return err;
      }
      seen := seen + {id};
      last := order;
      failure := Write(OfComponent(c));
    }

    method Write(r: Record) returns (failure: Option<Fault>)
      modifies this`out, this`room, this`err
      requires err.None?
      ensures View() == Wrote(env.codec, old(View()), r) && failure == err
    {
      var text := env.codec.encode(r);
      if text.None? {
        err := Some(WriteFailed);
      } else {
        var line := text.value + "\n";
        if room.None? {
          out := out + line;
        } else if |line| <= room.value {
          out := out + line;
          room := Some(room.value - |line|);
        } else {
          out := out + line[..room.value];
          room := Some(0);
          err := Some(WriteFailed);
        }
      }
      failure := err;
    }
  }

  // ---------- runs of calls ----------

  /** The header and the components whose calls returned no error. */
  datatype Accepted = Accepted(header: Option<Header>, components: seq<Component>)

  function Took(e: Env, a: Accepted, call: Call): Accepted {
    match call
    case HeaderCall(name, at) => a.(header := Some(HeaderOf(e, name, at)))
    case ComponentCall(c) => a.(components := a.components + [c])
  }

  function Run(e: Env, s: State, calls: seq<Call>): (State, Accepted) {
    if |calls| == 0 then (s, Accepted(None, []))
    else
      var (r, a) := Run(e, s, calls[..|calls| - 1]);
      var r' := Called(e, r, calls[|calls| - 1]);
      (r', if r'.err.None? then Took(e, a, calls[|calls| - 1]) else a)
  }

  /** The call that failed first, if one has. */
  function FailedCall(e: Env, s: State, calls: seq<Call>): Option<Call> {
    if |calls| == 0 then None
    else
      var front, last := calls[..|calls| - 1], calls[|calls| - 1];
      if Run(e, s, front).0.err.Some? then FailedCall(e, s, front)
      else if Run(e, s, calls).0.err.Some? then Some(last)
      else None
  }

  /** The record a call writes when it is not refused. */
  function RecordOf(e: Env, call: Call): Record {
    match call
    case HeaderCall(name, at) => OfHeader(HeaderOf(e, name, at))
    case ComponentCall(c) => OfComponent(c)
  }

  /** After the first error nothing changes: not the error, not the output. */
  lemma {:induction false} Sticky(e: Env, s: State, calls: seq<Call>)
    requires s.err.Some?
    ensures Run(e, s, calls) == (s, Accepted(None, []))
  {
    if |calls| > 0 {
      Sticky(e, s, calls[..|calls| - 1]);
    }
  }

  ghost function RecordsOf(a: Accepted): seq<Record> {
    if a.header.None? then [] else [OfHeader(a.header.value)] + OfComponents(a.components)
  }

  ghost function Ids(cs: seq<Component>): set<string> {
    set i | 0 <= i < |cs| :: Id(cs[i])
  }

  /** What the encoder remembers of the components it took. */
  ghost predicate Remembers(last: int, seen: set<string>, cs: seq<Component>) {
    && last == (if |cs| == 0 then -1 else Order(cs[|cs| - 1].kind).0)
    && seen == Ids(cs)
  }

  /** tail is a proper part, possibly empty, of the line of some record. */
  ghost predicate Torn(codec: Codec, tail: string, r: Record) {
    codec.encode(r).Some? && |tail| < |LineOf(codec, r)| && tail == LineOf(codec, r)[..|tail|]
  }

  /** The call could be taken next: a first header, or a component that fits behind the others. */
  ghost predicate Fitting(e: Env, a: Accepted, call: Call) {
    match call
    case HeaderCall(_, _) => a.header.None?
    case ComponentCall(c) => a.header.Some? && Arrangement(e.rules, a.components + [c])
  }

  /** What was taken could stand as a document, and the output is exactly its text, followed after a failed
      write by a part of the record of the call that failed, which could have been taken.
   */
  ghost predicate Inv(e: Env, s: State, a: Accepted, failed: Option<Call>) {
    && (a.header.None? ==> a.components == [])
    && (a.header.Some? ==> a.header.value.version == BUNDLE_VERSION)
    && (s.err.None? ==> s.header == a.header.Some? && Remembers(s.last, s.seen, a.components))
    && Arrangement(e.rules, a.components)
    && Encodable(e.codec, RecordsOf(a))
    && (s.err == Some(WriteFailed) ==> failed.Some? && Fitting(e, a, failed.value))
    && OutputIs(e, s, a, failed)
  }

  ghost predicate OutputIs(e: Env, s: State, a: Accepted, failed: Option<Call>) {
    var text := Written(e.codec, RecordsOf(a));
    || s.out == text
    || (s.err == Some(WriteFailed) && s.room.Some? && failed.Some?
        && |s.out| > |text| && s.out[..|text|] == text && Torn(e.codec, s.out[|text|..], RecordOf(e, failed.value)))
  }

  lemma RemembersMore(cs: seq<Component>, c: Component, last: int, seen: set<string>)
    requires Remembers(last, seen, cs)
    ensures Remembers(Order(c.kind).0, seen + {Id(c)}, cs + [c])
  {
    var more := cs + [c];
    assert more[|cs|] == c;
    assert forall i | 0 <= i < |cs| :: more[i] == cs[i];
    forall id | id in Ids(cs)
      ensures id in Ids(more)
    {
      var i :| 0 <= i < |cs| && Id(cs[i]) == id;
      assert more[i] == cs[i];
    }
    assert Ids(more) == Ids(cs) + {Id(c)};
  }

  lemma SeenIff(r: Rules, cs: seq<Component>, c: Component)
    requires AllValid(r, cs) && Valid(r, c)
    ensures Id(c) in Ids(cs) <==> exists i :: 0 <= i < |cs| && Same(cs[i], c)
  {
    forall i | 0 <= i < |cs|
      ensures Id(cs[i]) == Id(c) <==> Same(cs[i], c)
    {
      assert cs[i] in cs && Valid(r, cs[i]);
      IdIff(cs[i], c);
    }
    if i :| 0 <= i < |cs| && Same(cs[i], c) {
      assert Id(cs[i]) in Ids(cs);
    }
  }

  lemma OrderedMore(cs: seq<Component>, c: Component)
    requires Ordered(cs)
    ensures Ordered(cs + [c]) <==> |cs| > 0 ==> Order(cs[|cs| - 1].kind).0 <= Order(c.kind).0
  {
    var more := cs + [c];
    if Ordered(more) && |cs| > 0 {
      assert more[|cs| - 1] == cs[|cs| - 1] && more[|cs|] == c;
    }
  }

  lemma DistinctMore(cs: seq<Component>, c: Component)
    requires Distinct(cs)
    ensures Distinct(cs + [c]) <==> forall i | 0 <= i < |cs| :: !Same(cs[i], c)
  {
    var more := cs + [c];
    if Distinct(more) {
      forall i | 0 <= i < |cs|
        ensures !Same(cs[i], c)
      {
        assert !Same(more[i], more[|cs|]);
      }
    }
  }

  /** One more component fits behind the others exactly when it is valid, does not go back in the order and
      is not there yet.
   */
  lemma ArrangementMore(r: Rules, cs: seq<Component>, c: Component, last: int, seen: set<string>)
    requires Arrangement(r, cs) && Remembers(last, seen, cs)
    ensures Arrangement(r, cs + [c]) <==> Valid(r, c) && last <= Order(c.kind).0 && Id(c) !in seen
  {
    assert c in cs + [c];
    assert forall d :: d in cs + [c] <==> d in cs || d == c;
    OrderedMore(cs, c);
    DistinctMore(cs, c);
    if Valid(r, c) {
      SeenIff(r, cs, c);
    }
  }

  lemma WroteMore(e: Env, s: State, a: Accepted, call: Call)
    requires s.err.None? && s.out == Written(e.codec, RecordsOf(a)) && Encodable(e.codec, RecordsOf(a))
    requires RecordsOf(Took(e, a, call)) == RecordsOf(a) + [RecordOf(e, call)]
    ensures var s', a' := Wrote(e.codec, s, RecordOf(e, call)), Took(e, a, call);
            && s'.header == s.header && s'.last == s.last && s'.seen == s.seen
            && (s'.err.None? ==> Encodable(e.codec, RecordsOf(a')) && s'.out == Written(e.codec, RecordsOf(a')))
            && (s'.err.Some? ==> s'.err.value == WriteFailed && OutputIs(e, s', a, Some(call)))
  {
    var r := RecordOf(e, call);
    assert (RecordsOf(a) + [r])[..|RecordsOf(a)|] == RecordsOf(a);
    var s' := Wrote(e.codec, s, r);
    if s'.err.Some? && e.codec.encode(r).Some? && s.room.value > 0 {
      var tail := LineOf(e.codec, r)[..s.room.value];
      assert s'.out[..|s.out|] == s.out && s'.out[|s.out|..] == tail;
    }
  }

  lemma RefusedInv(e: Env, s: State, a: Accepted, fault: Fault, failed: Option<Call>)
    requires Inv(e, s, a, None) && s.err.None? && fault != WriteFailed
    ensures Inv(e, s.(err := Some(fault)), a, failed)
  {
  }

  lemma TookRecords(e: Env, a: Accepted, call: Call)
    requires Fitting(e, a, call) && (a.header.None? ==> a.components == [])
    ensures RecordsOf(Took(e, a, call)) == RecordsOf(a) + [RecordOf(e, call)]
  {
  }

  lemma TookArranged(e: Env, a: Accepted, call: Call)
    requires Fitting(e, a, call) && Arrangement(e.rules, a.components)
    requires a.header.Some? ==> a.header.value.version == BUNDLE_VERSION
    ensures var a' := Took(e, a, call);
            Arrangement(e.rules, a'.components) && a'.header.Some? && a'.header.value.version == BUNDLE_VERSION
  {
  }

  /** Writing the record of a fitting call from s, which already remembers it, keeps the invariant either way. */
  lemma TakenInv(e: Env, s: State, a: Accepted, call: Call)
    requires s.err.None? && s.header && Fitting(e, a, call)
    requires (a.header.None? ==> a.components == [])
    requires a.header.Some? ==> a.header.value.version == BUNDLE_VERSION
    requires Arrangement(e.rules, a.components)
    requires Remembers(s.last, s.seen, Took(e, a, call).components)
    requires s.out == Written(e.codec, RecordsOf(a)) && Encodable(e.codec, RecordsOf(a))
    ensures var s' := Wrote(e.codec, s, RecordOf(e, call));
            Inv(e, s', if s'.err.None? then Took(e, a, call) else a, if s'.err.None? then None else Some(call))
  {
    TookRecords(e, a, call);
    TookArranged(e, a, call);
    WroteMore(e, s, a, call);
  }

  /** The invariant after one more call of an encoder that had not failed. */
  ghost predicate InvAfter(e: Env, s: State, a: Accepted, call: Call) {
    var s' := Called(e, s, call);
    Inv(e, s', if s'.err.None? then Took(e, a, call) else a, if s'.err.None? then None else Some(call))
  }

  lemma HeaderInv(e: Env, s: State, a: Accepted, name: string, at: int)
    requires Inv(e, s, a, None) && s.err.None?
    ensures InvAfter(e, s, a, HeaderCall(name, at))
  {
    if s.header {
      RefusedInv(e, s, a, SecondHeader, Some(HeaderCall(name, at)));
    } else {
      TakenInv(e, s.(header := true), a, HeaderCall(name, at));
    }
  }

  ghost predicate Takes(e: Env, s: State, c: Component) {
    s.header && Valid(e.rules, c) && s.last <= Order(c.kind).0 && Id(c) !in s.seen
  }

  /** A component call writes the record when the encoder takes the component, and otherwise only fails. */
  lemma ComponentCalled(e: Env, s: State, c: Component) returns (fault: Fault)
    requires s.err.None?
    ensures fault != WriteFailed
    ensures Called(e, s, ComponentCall(c)) ==
            if Takes(e, s, c) then Wrote(e.codec, s.(seen := s.seen + {Id(c)}, last := Order(c.kind).0), OfComponent(c))
            else s.(err := Some(fault))
  {
    fault := if !s.header then NoHeader else if !Valid(e.rules, c) then Invalid
             else if Order(c.kind).0 < s.last then OutOfOrder else Repeated;
  }

  lemma ComponentInv(e: Env, s: State, a: Accepted, c: Component)
    requires Inv(e, s, a, None) && s.err.None?
    ensures InvAfter(e, s, a, ComponentCall(c))
  {
    var fault := ComponentCalled(e, s, c);
    if Takes(e, s, c) {
      ArrangementMore(e.rules, a.components, c, s.last, s.seen);
      RemembersMore(a.components, c, s.last, s.seen);
      TakenInv(e, s.(seen := s.seen + {Id(c)}, last := Order(c.kind).0), a, ComponentCall(c));
    } else {
      RefusedInv(e, s, a, fault, Some(ComponentCall(c)));
    }
  }

  lemma CalledInv(e: Env, s: State, a: Accepted, call: Call)
    requires Inv(e, s, a, None) && s.err.None?
    ensures InvAfter(e, s, a, call)
  {
    match call
    case HeaderCall(name, at) => HeaderInv(e, s, a, name, at);
    case ComponentCall(c) => ComponentInv(e, s, a, c);
  }

  lemma {:induction false} RunInv(e: Env, room: Option<nat>, calls: seq<Call>)
    ensures var (s, a) := Run(e, New(room), calls); Inv(e, s, a, FailedCall(e, New(room), calls))
    ensures Run(e, New(room), calls).0.err.None? ==> FailedCall(e, New(room), calls).None?
  {
    if |calls| > 0 {
      RunInv(e, room, calls[..|calls| - 1]);
      var (s, a) := Run(e, New(room), calls[..|calls| - 1]);
      if s.err.None? {
        CalledInv(e, s, a, calls[|calls| - 1]);
      }
    }
  }

  lemma {:induction false} RoomStays(e: Env, calls: seq<Call>)
    ensures Run(e, New(None), calls).0.room.None?
  {
    if |calls| > 0 {
      RoomStays(e, calls[..|calls| - 1]);
    }
  }

  // ---------- what was accepted, by the calls ----------

  /** The record of a header call, member by member. */
  ghost predicate HeaderOfCall(e: Env, h: Header, call: Call) {
    && call.HeaderCall?
    && h.name == call.name && h.exportedAt == call.at
    && h.tixVersion == e.tixVersion && h.version == 1 && h.tenant == ""
  }

  /** The accepted components are those of the calls after the first. */
  ghost predicate ComponentsOfCalls(cs: seq<Component>, calls: seq<Call>) {
    |cs| < |calls| && forall i | 0 <= i < |cs| :: calls[i + 1] == ComponentCall(cs[i])
  }

  /** The accepted header is that of the first call, and the accepted components are those of the calls after
      it; without an error they are all of them.
   */
  ghost predicate OfCalls(e: Env, a: Accepted, calls: seq<Call>, failed: bool) {
    && (a.header.None? ==> a.components == [])
    && (a.header.Some? ==> ComponentsOfCalls(a.components, calls) && HeaderOfCall(e, a.header.value, calls[0]))
    && (!failed ==> |calls| == if a.header.None? then 0 else 1 + |a.components|)
  }

  lemma OfCallsMore(e: Env, s: State, a: Accepted, calls: seq<Call>, call: Call)
    requires OfCalls(e, a, calls, s.err.Some?) && (s.err.None? ==> s.header == a.header.Some?)
    ensures var s' := Called(e, s, call);
            OfCalls(e, if s'.err.None? then Took(e, a, call) else a, calls + [call], s'.err.Some?)
  {
    var more := calls + [call];
    assert forall i | 0 <= i < |calls| :: more[i] == calls[i];
    assert more[|calls|] == call;
  }

  lemma HeaderSeen(e: Env, room: Option<nat>, calls: seq<Call>)
    ensures var (s, a) := Run(e, New(room), calls); s.err.None? ==> s.header == a.header.Some?
  {
    RunInv(e, room, calls);
  }

  lemma RunMore(e: Env, s: State, calls: seq<Call>, call: Call)
    ensures var (r, a) := Run(e, s, calls);
            var r' := Called(e, r, call);
            Run(e, s, calls + [call]) == (r', if r'.err.None? then Took(e, a, call) else a)
  {
    assert (calls + [call])[..|calls|] == calls;
  }

  lemma AcceptedMore(e: Env, room: Option<nat>, calls: seq<Call>, call: Call)
    requires var (s, a) := Run(e, New(room), calls); OfCalls(e, a, calls, s.err.Some?)
    ensures var (s, a) := Run(e, New(room), calls + [call]); OfCalls(e, a, calls + [call], s.err.Some?)
  {
    var (s, a) := Run(e, New(room), calls);
    HeaderSeen(e, room, calls);
    OfCallsMore(e, s, a, calls, call);
    RunMore(e, New(room), calls, call);
  }

  lemma {:induction false} AcceptedAre(e: Env, room: Option<nat>, calls: seq<Call>)
    ensures var (s, a) := Run(e, New(room), calls); OfCalls(e, a, calls, s.err.Some?)
  {
    if |calls| > 0 {
      var front, last := calls[..|calls| - 1], calls[|calls| - 1];
      AcceptedAre(e, room, front);
      AcceptedMore(e, room, front, last);
      assert calls == front + [last];
    }
  }

  /** Why a call is refused, in the order the reasons are looked at: an earlier failure stays. */
  lemma FaultIs(e: Env, s: State, call: Call)
    ensures s.err.Some? ==> Called(e, s, call) == s
    ensures s.err.None? && call.HeaderCall? && s.header ==> Called(e, s, call) == s.(err := Some(SecondHeader))
    ensures s.err.None? && call.ComponentCall? ==>
              var c, f := call.component, Called(e, s, call).err;
              && (!s.header ==> f == Some(NoHeader))
              && (s.header && !Valid(e.rules, c) ==> f == Some(Invalid))
              && (s.header && Valid(e.rules, c) && Order(c.kind).0 < s.last ==> f == Some(OutOfOrder))
              && (s.header && Valid(e.rules, c) && Order(c.kind).0 >= s.last && Id(c) in s.seen ==> f == Some(Repeated))
  {
  }
}
