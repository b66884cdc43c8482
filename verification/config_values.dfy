/** Rendering one value of a configuration as text and parsing it back. */
module ConfigValues {
  import opened Text
  import opened Decimal
  import opened ConfigKeys

  datatype Value = VString(text: string) | VBool(on: bool) | VInt(n: Int64) | VDuration(d: Int64)
                 | VStrings(items: seq<string>)

  /** The text form of durations, which the core package defines. */
  datatype Durations = Durations(format: Int64 -> string, parse: string -> Option<Int64>)

  /** Parsing a rendered duration gives it back. */
  ghost predicate Lawful(durations: Durations) {
    forall d: Int64 :: durations.parse(durations.format(d)) == Some(d)
  }

  predicate HasKind(v: Value, kind: Kind) {
    match kind
    case KString => v.VString?
    case KBool => v.VBool?
    case KInt => v.VInt?
    case KDuration => v.VDuration?
    case KStrings => v.VStrings?
  }

  /** What Get renders. */
  function Render(durations: Durations, v: Value): string {
    match v
    case VString(text) => text
    case VBool(on) => if on then "true" else "false"
    case VInt(n) => FormatInt(n)
    case VDuration(d) => durations.format(d)
    case VStrings(items) => Join(items, ',')
  }

  function ParseBool(s: string): Option<bool> {
    if s == "1" || s == "t" || s == "T" || s == "true" || s == "TRUE" || s == "True" then Some(true)
    else if s == "0" || s == "f" || s == "F" || s == "false" || s == "FALSE" || s == "False" then Some(false)
    else None
  }

  /** The trimmed parts between commas, without the empty ones. */
  function KeptParts(parts: seq<string>): seq<string> {
    if |parts| == 0 then []
    else
      var front, trimmed := KeptParts(parts[..|parts| - 1]), TrimSpace(parts[|parts| - 1]);
      if trimmed == "" then front else front + [trimmed]
  }

  method SplitList(raw: string) returns (out: seq<string>)
    ensures out == KeptParts(Split(raw, ','))
  {
    out := [];
    var parts := Split(raw, ',');
    var i := 0;
    while i < |parts|
      invariant 0 <= i <= |parts|
      invariant out == KeptParts(parts[..i])
    {
      assert parts[..i + 1][..i] == parts[..i];
      var trimmed := TrimSpace(parts[i]);
      if trimmed != "" {
        out := out + [trimmed];
      }
      i := i + 1;
    }
    assert parts[..i] == parts;
  }

  /** What Set stores: None when the text does not parse. */
  function Parse(durations: Durations, kind: Kind, raw: string): (v: Option<Value>)
    ensures v.Some? ==> HasKind(v.value, kind)
  {
    match kind
    case KString => Some(VString(raw))
    case KBool => (match ParseBool(TrimSpace(raw)) case None => None case Some(on) => Some(VBool(on)))
    case KInt => (match ParseInt64(TrimSpace(raw)) case None => None case Some(n) => Some(VInt(n)))
    case KDuration => (match durations.parse(raw) case None => None case Some(d) => Some(VDuration(d)))
    case KStrings => Some(VStrings(KeptParts(Split(raw, ','))))
  }

  /** Splitting in two keeps the parts of both; a part that is white space goes, and another is trimmed. */
  lemma {:induction false} KeptTwo(front: seq<string>, back: seq<string>)
    ensures KeptParts(front + back) == KeptParts(front) + KeptParts(back)
  {
    if |back| == 0 {
      assert front + back == front;
    } else {
      var mid, last := back[..|back| - 1], back[|back| - 1];
      KeptTwo(front, mid);
      KeptLast(mid, last);
      KeptLast(front + mid, last);
      assert mid + [last] == back && (front + mid) + [last] == front + back;
    }
  }

  lemma KeptLast(front: seq<string>, last: string)
    ensures KeptParts(front + [last]) == KeptParts(front) + (if TrimSpace(last) == "" then [] else [TrimSpace(last)])
  {
    assert (front + [last])[..|front|] == front;
  }

  lemma KeptOne(part: string)
    ensures KeptParts([part]) == if AllSpace(part) then [] else [TrimSpace(part)]
  {
    assert [part][..0] == [];
    TrimNothing(part);
  }

  /** The words that stand for a truth value, and no others. */
  lemma BoolIs(s: string)
    ensures ParseBool(s) == Some(true) <==> s in ["1", "t", "T", "TRUE", "true", "True"]
    ensures ParseBool(s) == Some(false) <==> s in ["0", "f", "F", "FALSE", "false", "False"]
  {
  }

  /** White space around a truth value or a number does not matter. */
  lemma PaddedParses(durations: Durations, front: string, back: string, on: bool, n: Int64)
    requires AllSpace(front) && AllSpace(back)
    ensures Parse(durations, KBool, front + (if on then "true" else "false") + back) == Some(VBool(on))
    ensures Parse(durations, KInt, front + FormatInt(n) + back) == Some(VInt(n))
  {
    var word := if on then "true" else "false";
    TrimPadded(front, word, back);
    BoolTrimmed(on);
    TrimmedIsFixed("true");
    TrimmedIsFixed("false");
    PaddedNumber(front, back, n);
  }

  lemma PaddedNumber(front: string, back: string, n: Int64)
    requires AllSpace(front) && AllSpace(back)
    ensures ParseInt64(TrimSpace(front + FormatInt(n) + back)) == Some(n)
  {
    NumberTrimmed(n);
    TrimmedIsFixed(FormatInt(n));
    TrimPadded(front, FormatInt(n), back);
    ParseFormat(n);
  }

  // ---------- Set after Get ----------

  /** A part that splitting keeps as it is. */
  predicate Clean(part: string) {
    part != "" && Trimmed(part)
  }

  ghost predicate AllClean(parts: seq<string>) {
    forall part | part in parts :: Clean(part)
  }

  /** Text that a list reads back to unchanged: empty, or clean parts between commas. */
  predicate Settled(text: string) {
    text == "" || forall part | part in Split(text, ',') :: Clean(part)
  }

  function Size(parts: seq<string>): nat {
    if |parts| == 0 then 0 else Size(parts[..|parts| - 1]) + |parts[|parts| - 1]| + 1
  }

  lemma {:induction false} JoinSize(parts: seq<string>)
    ensures |parts| > 0 ==> |Join(parts, ',')| == Size(parts) - 1
  {
    if |parts| > 1 {
      JoinSize(parts[1..]);
      SizeFront(parts);
    } else if |parts| == 1 {
      assert parts[..0] == [];
    }
  }

  lemma {:induction false} SizeFront(parts: seq<string>)
    requires |parts| > 0
    ensures Size(parts) == |parts[0]| + 1 + Size(parts[1..])
  {
    if |parts| > 1 {
      SizeFront(parts[..|parts| - 1]);
      assert parts[..|parts| - 1][1..] == parts[1..][..|parts| - 2];
    } else {
      assert parts[..0] == [] && parts[1..] == [];
    }
  }

  lemma TrimShortens(s: string)
    ensures |TrimSpace(s)| <= |s|
    ensures |TrimSpace(s)| == |s| ==> TrimSpace(s) == s && Trimmed(s)
  {
    if |s| > 0 && IsSpace(s[0]) {
      assert |TrimLeft(s[1..])| <= |s| - 1;
    } else {
      assert TrimLeft(s) == s;
      if |s| > 0 && IsSpace(s[|s| - 1]) {
        assert |TrimRight(s[..|s| - 1])| <= |s| - 1;
      }
    }
  }

  lemma {:induction false} KeptShorter(parts: seq<string>)
    ensures Size(KeptParts(parts)) <= Size(parts)
    ensures Size(KeptParts(parts)) == Size(parts) <==> AllClean(parts)
    ensures AllClean(parts) ==> KeptParts(parts) == parts
  {
    if |parts| > 0 {
      var front, last := parts[..|parts| - 1], parts[|parts| - 1];
      KeptShorter(front);
      TrimShortens(last);
      TrimmedIsFixed(last);
      assert parts == front + [last];
      assert forall part :: part in parts <==> part in front || part == last;
      assert AllClean(parts) <==> AllClean(front) && Clean(last);
      var kept := KeptParts(front);
      assert (kept + [TrimSpace(last)])[..|kept|] == kept;
    }
  }

  /** A list renders and parses back to the very same list exactly when every item is clean and free of
      commas.
   */
  lemma ListRoundTrip(items: seq<string>)
    ensures KeptParts(Split(Join(items, ','), ',')) == items
        <==> forall item | item in items :: Clean(item) && Free(item, ',')
  {
    var text := Join(items, ',');
    var parts := Split(text, ',');
    JoinSplit(text, ',');
    KeptShorter(parts);
    if KeptParts(parts) == items {
      KeptAreClean(parts);
    } else if |items| > 0 && AllFree(items, ',') {
      SplitJoin(items, ',');
    }
  }

  lemma {:induction false} KeptAreClean(parts: seq<string>)
    requires AllFree(parts, ',')
    ensures forall part | part in KeptParts(parts) :: Clean(part) && Free(part, ',')
  {
    if |parts| > 0 {
      var front, last := parts[..|parts| - 1], parts[|parts| - 1];
      assert parts == front + [last] && Free(last, ',');
      KeptAreClean(front);
      TrimIsTrimmed(last);
      TrimFree(last, ',');
    }
  }

  lemma {:induction false} TrimLeftFree(s: string, c: char)
    requires Free(s, c)
    ensures Free(TrimLeft(s), c)
  {
    if |s| > 0 && IsSpace(s[0]) {
      TrimLeftFree(s[1..], c);
    }
  }

  lemma {:induction false} TrimRightFree(s: string, c: char)
    requires Free(s, c)
    ensures Free(TrimRight(s), c)
  {
    if |s| > 0 && IsSpace(s[|s| - 1]) {
      TrimRightFree(s[..|s| - 1], c);
    }
  }

  lemma TrimFree(s: string, c: char)
    requires Free(s, c)
    ensures Free(TrimSpace(s), c)
  {
    TrimLeftFree(s, c);
    TrimRightFree(TrimLeft(s), c);
  }

  /** Text renders back the same after being parsed as a list exactly when it is settled. */
  lemma ListTextRoundTrip(text: string)
    ensures Join(KeptParts(Split(text, ',')), ',') == text <==> Settled(text)
  {
    var parts := Split(text, ',');
    var kept := KeptParts(parts);
    JoinSplit(text, ',');
    KeptShorter(parts);
    JoinSize(parts);
    JoinSize(kept);
    if text == "" {
      SplitFree(text, ',');
      assert parts[..0] == [] && kept == [];
    }
  }

  /** Rendering a value, parsing it and rendering it again gives the same text, except for a list whose text
      is not settled; every other kind gives back the very value.
   */
  lemma SetAfterGet(durations: Durations, kind: Kind, v: Value)
    requires Lawful(durations) && HasKind(v, kind)
    ensures Parse(durations, kind, Render(durations, v)).Some?
    ensures Render(durations, Parse(durations, kind, Render(durations, v)).value) == Render(durations, v)
        <==> (kind == KStrings ==> Settled(Render(durations, v)))
    ensures kind != KStrings ==> Parse(durations, kind, Render(durations, v)) == Some(v)
  {
    match kind
    case KString =>
    case KBool => BoolTrimmed(v.on);
    case KInt =>
      NumberTrimmed(v.n);
      ParseFormat(v.n);
    case KDuration =>
    case KStrings => ListTextRoundTrip(Render(durations, v));
  }

  lemma BoolTrimmed(on: bool)
    ensures ParseBool(TrimSpace(if on then "true" else "false")) == Some(on)
  {
    TrimmedIsFixed("true");
    TrimmedIsFixed("false");
  }

  lemma NumberTrimmed(n: int)
    ensures TrimSpace(FormatInt(n)) == FormatInt(n)
  {
    var s := FormatInt(n);
    if n < 0 {
      assert s[|s| - 1] == FormatNat(-n)[|s| - 2];
    }
    assert IsDigit(s[|s| - 1]) && (s[0] == '-' || IsDigit(s[0]));
    TrimmedIsFixed(s);
  }

  /** A value that its text gives back: any but a list with an item that parsing would split, trim or drop. */
  ghost predicate Survives(v: Value) {
    v.VStrings? ==> forall item | item in v.items :: Clean(item) && Free(item, ',')
  }

  /** Parsing the text of a value gives that very value exactly when it survives. */
  lemma ValueRoundTrip(durations: Durations, kind: Kind, v: Value)
    requires Lawful(durations) && HasKind(v, kind)
    ensures Parse(durations, kind, Render(durations, v)) == Some(v) <==> Survives(v)
  {
    SetAfterGet(durations, kind, v);
    if kind == KStrings {
      ListRoundTrip(v.items);
    }
  }

  /** One item with a comma has the text of two items and parses to them; white space around an item goes. */
  lemma ItemsLost(durations: Durations)
    ensures Render(durations, VStrings([])) == ""
    ensures Render(durations, VStrings(["a,b"])) == Render(durations, VStrings(["a", "b"])) == "a,b"
    ensures Parse(durations, KStrings, "a,b") == Some(VStrings(["a", "b"]))
    ensures Render(durations, VStrings([" x "])) == " x "
    ensures Parse(durations, KStrings, " x ") == Some(VStrings(["x"]))
  {
    TwoItems();
    SpacedItem();
    OneItem("a,b");
    OneItem(" x ");
    RenderList(durations, []);
    RenderList(durations, ["a,b"]);
    RenderList(durations, ["a", "b"]);
    RenderList(durations, [" x "]);
    ParseList(durations, "a,b");
    ParseList(durations, " x ");
  }

  lemma RenderList(durations: Durations, items: seq<string>)
    ensures Render(durations, VStrings(items)) == Join(items, ',')
  {
  }

  lemma ParseList(durations: Durations, raw: string)
    ensures Parse(durations, KStrings, raw) == Some(VStrings(KeptParts(Split(raw, ','))))
  {
  }

  lemma OneItem(item: string)
    ensures Join([item], ',') == item && Join([], ',') == ""
  {
  }

  lemma TwoItems()
    ensures Join(["a", "b"], ',') == "a,b" && KeptParts(Split("a,b", ',')) == ["a", "b"]
  {
    var items := ["a", "b"];
    assert items[1..] == ["b"];
    assert Clean("a") && Clean("b") && Free("a", ',') && Free("b", ',');
    ListRoundTrip(items);
  }

  lemma SpacedItem()
    ensures KeptParts(Split(" x ", ',')) == ["x"]
  {
    SplitFree(" x ", ',');
    assert " x "[1..] == "x " && "x "[..1] == "x";
    assert TrimLeft(" x ") == "x ";
    assert TrimSpace(" x ") == "x";
    assert [" x "][..0] == [];
  }
}
