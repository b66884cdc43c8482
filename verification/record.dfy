/** The records of a bundle document, one to a line, and what a well-formed document is. */
module Records {
  import opened Text
  import opened Bundle

  const BUNDLE_VERSION: int := 1

  datatype Header = Header(name: string, version: int, tixVersion: string, exportedAt: int, tenant: string)

  datatype RecordKind = HeaderRecord | ComponentRecord | NoRecord | OtherRecord(name: string)

  datatype Record = Record(record: RecordKind, header: Option<Header>, component: Option<Component>)

  function OfHeader(h: Header): Record {
    Record(HeaderRecord, Some(h), None)
  }

  function OfComponent(c: Component): Record {
    Record(ComponentRecord, None, Some(c))
  }

  function OfComponents(cs: seq<Component>): seq<Record> {
    seq(|cs|, i requires 0 <= i < |cs| => OfComponent(cs[i]))
  }

  /** The text form of a record. encode is None for a record that has none; decode reads one line, with or
      without its line feed; blank tells a line of white space alone.
   */
  datatype Codec = Codec(encode: Record -> Option<string>, decode: string -> Option<Record>, blank: string -> bool)

  /** What the text form promises: the text of a record is one non-blank line that reads back as the record,
      and a part of it cut off before its end is not blank and does not read.
   */
  ghost predicate Lawful(codec: Codec) {
    forall r | codec.encode(r).Some? :: RecordText(codec, r, codec.encode(r).value)
  }

  ghost predicate RecordText(codec: Codec, r: Record, text: string) {
    && |text| > 0 && Free(text, '\n')
    && codec.decode(text) == codec.decode(text + "\n") == Some(r)
    && !codec.blank(text) && !codec.blank(text + "\n")
    && forall n | 0 < n < |text| :: !codec.blank(text[..n]) && codec.decode(text[..n]).None?
  }

  // ---------- lines ----------

  function FirstBreak(s: string): (n: nat)
    ensures n <= |s|
    ensures n < |s| ==> s[n] == '\n'
    ensures '\n' !in s[..n]
  {
    if |s| == 0 || s[0] == '\n' then 0 else 1 + FirstBreak(s[1..])
  }

  /** The next line with its line feed; a final line without one is a line of its own. */
  function FirstLine(s: string): (line: string)
    ensures |line| <= |s| && (|s| > 0 ==> |line| > 0)
  {
    var n := FirstBreak(s);
    if n == |s| then s else s[..n + 1]
  }

  function Lines(s: string): seq<string>
    decreases |s|
  {
    if |s| == 0 then [] else [FirstLine(s)] + Lines(s[|FirstLine(s)|..])
  }

  lemma FirstLineIs(line: string, rest: string)
    requires Free(line, '\n')
    ensures FirstLine(line + "\n" + rest) == line + "\n"
    ensures FirstLine(line) == line
  {
    BreakAt(line, "\n" + rest);
    BreakAt(line, "");
    assert line + "" == line && line + "\n" + rest == line + ("\n" + rest);
  }

  lemma {:induction false} BreakAt(line: string, rest: string)
    requires Free(line, '\n')
    requires |rest| > 0 ==> rest[0] == '\n'
    ensures FirstBreak(line + rest) == |line|
  {
    if |line| > 0 {
      BreakAt(line[1..], rest);
      assert (line + rest)[1..] == line[1..] + rest;
    } else {
      assert line + rest == rest;
    }
  }

  lemma LinesCons(line: string, rest: string)
    requires Free(line, '\n')
    ensures Lines(line + "\n" + rest) == [line + "\n"] + Lines(rest)
  {
    FirstLineIs(line, rest);
    var s := line + "\n" + rest;
    assert s[|line + "\n"|..] == rest;
  }

  lemma LinesLast(tail: string)
    requires Free(tail, '\n')
    ensures Lines(tail) == if |tail| > 0 then [tail] else []
  {
    if |tail| > 0 {
      FirstLineIs(tail, "");
      assert Lines(tail[|tail|..]) == [];
    }
  }

  /** The text the encoder writes for records that have one. */
  ghost function Written(codec: Codec, rs: seq<Record>): string {
    if |rs| == 0 then ""
    else Written(codec, rs[..|rs| - 1]) + LineOf(codec, rs[|rs| - 1])
  }

  ghost function LineOf(codec: Codec, r: Record): string {
    codec.encode(r).GetOr("") + "\n"
  }

  ghost predicate Encodable(codec: Codec, rs: seq<Record>) {
    forall r | r in rs :: codec.encode(r).Some?
  }

  ghost function LinesOf(codec: Codec, rs: seq<Record>): seq<string> {
    seq(|rs|, i requires 0 <= i < |rs| => LineOf(codec, rs[i]))
  }

  lemma {:induction false} WrittenFront(codec: Codec, rs: seq<Record>)
    requires |rs| > 0
    ensures Written(codec, rs) == LineOf(codec, rs[0]) + Written(codec, rs[1..])
  {
    if |rs| > 1 {
      WrittenFront(codec, rs[..|rs| - 1]);
      assert rs[..|rs| - 1][1..] == rs[1..][..|rs| - 2];
    }
  }

  /** The lines of what is written for records, followed by a last line without a line feed, are the lines of
      the records and that last line.
   */
  lemma {:induction false} LinesWritten(codec: Codec, rs: seq<Record>, tail: string)
    requires Lawful(codec) && Encodable(codec, rs) && Free(tail, '\n')
    ensures Lines(Written(codec, rs) + tail) == LinesOf(codec, rs) + if |tail| > 0 then [tail] else []
  {
    if |rs| == 0 {
      assert Written(codec, rs) + tail == tail;
      LinesLast(tail);
    } else {
      assert rs[0] in rs && RecordText(codec, rs[0], codec.encode(rs[0]).value);
      LinesWritten(codec, rs[1..], tail);
      LinesStep(codec, rs, tail);
      LinesOfFront(codec, rs);
    }
  }

  lemma LinesStep(codec: Codec, rs: seq<Record>, tail: string)
    requires |rs| > 0 && codec.encode(rs[0]).Some? && Free(codec.encode(rs[0]).value, '\n')
    ensures Lines(Written(codec, rs) + tail) == [LineOf(codec, rs[0])] + Lines(Written(codec, rs[1..]) + tail)
  {
    WrittenFront(codec, rs);
    LinesCons(codec.encode(rs[0]).value, Written(codec, rs[1..]) + tail);
    Associative(LineOf(codec, rs[0]), Written(codec, rs[1..]), tail);
  }

  lemma LinesOfFront(codec: Codec, rs: seq<Record>)
    requires |rs| > 0
    ensures LinesOf(codec, rs) == [LineOf(codec, rs[0])] + LinesOf(codec, rs[1..])
  {
  }

  // ---------- what a document is ----------

  function NonBlank(codec: Codec, lines: seq<string>): seq<string> {
    if |lines| == 0 then []
    else
      var rest := NonBlank(codec, lines[1..]);
      if codec.blank(lines[0]) then rest else [lines[0]] + rest
  }

  /** Valid components whose kinds never go back in the bundle order and none of which is there twice. */
  ghost predicate Arrangement(r: Rules, cs: seq<Component>) {
    AllValid(r, cs) && Distinct(cs) && Ordered(cs)
  }

  ghost predicate Ordered(cs: seq<Component>) {
    forall i, j | 0 <= i < j < |cs| :: Order(cs[i].kind).0 <= Order(cs[j].kind).0
  }

  ghost predicate IsHeaderLine(codec: Codec, line: string, h: Header) {
    && codec.decode(line).Some?
    && codec.decode(line).value.record == HeaderRecord && codec.decode(line).value.header == Some(h)
  }

  ghost predicate IsComponentLine(codec: Codec, line: string, c: Component) {
    && codec.decode(line).Some?
    && codec.decode(line).value.record == ComponentRecord && codec.decode(line).value.component == Some(c)
  }

  /** The non-blank lines of doc are the header h, of the supported version, and then the components cs. */
  ghost predicate IsDocument(codec: Codec, r: Rules, doc: string, h: Header, cs: seq<Component>) {
    var lines := NonBlank(codec, Lines(doc));
    && |lines| == 1 + |cs|
    && IsHeaderLine(codec, lines[0], h) && h.version == BUNDLE_VERSION
    && (forall i | 0 <= i < |cs| :: IsComponentLine(codec, lines[1 + i], cs[i]))
    && Arrangement(r, cs)
  }

  // ---------- the pieces of a text ----------

  function Concat(lines: seq<string>): string {
    if |lines| == 0 then "" else lines[0] + Concat(lines[1..])
  }

  ghost predicate EndsInBreak(line: string) {
    |line| > 0 && line[|line| - 1] == '\n' && Free(line[..|line| - 1], '\n')
  }

  /** The lines of a text, one after another, are the text; each but the last ends in its only line feed, and the
      last does so or holds none and is not empty.
   */
  lemma {:induction false} LinesAre(s: string)
    ensures Concat(Lines(s)) == s
    ensures forall i | 0 <= i < |Lines(s)| - 1 :: EndsInBreak(Lines(s)[i])
    ensures forall i | 0 <= i < |Lines(s)| :: EndsInBreak(Lines(s)[i]) || (Lines(s)[i] != "" && Free(Lines(s)[i], '\n'))
    decreases |s|
  {
    if |s| > 0 {
      var first := FirstLine(s);
      var rest := s[|first|..];
      LinesAre(rest);
      FirstBroken(s);
      assert Lines(s) == [first] + Lines(rest) && Lines(s)[1..] == Lines(rest);
      assert s == first + rest;
    }
  }

  lemma FirstBroken(s: string)
    requires |s| > 0
    ensures FirstLine(s) == s[..|FirstLine(s)|]
    ensures EndsInBreak(FirstLine(s)) || (FirstLine(s) == s && Free(s, '\n'))
    ensures s[|FirstLine(s)|..] != "" ==> EndsInBreak(FirstLine(s))
  {
    var n := FirstBreak(s);
    if n == |s| {
      assert s[..n] == s;
    } else {
      assert s[..n + 1][..n] == s[..n];
    }
  }

  /** Blank lines are left out, and all others kept in order. */
  lemma {:induction false} NonBlankIs(codec: Codec, a: seq<string>, line: string)
    ensures NonBlank(codec, a + [line]) == NonBlank(codec, a) + if codec.blank(line) then [] else [line]
  {
    if |a| > 0 {
      NonBlankIs(codec, a[1..], line);
      assert (a + [line])[1..] == a[1..] + [line];
    } else {
      assert a + [line] == [line] && [line][1..] == [];
    }
  }
}
