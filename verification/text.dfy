/** What the other modules share: options and results; strings as sequences of characters, split and joined on
    one separator character, cut at the first one, trimmed of white space, and ordered character by character;
    dotted paths; and increasing runs of numbers.
 */
module Text {

  datatype Option<+T> = None | Some(value: T) {
    function GetOr(default: T): T {
      if Some? then value else default
    }
  }

  datatype Result<+T, +E> = Ok(value: T) | Err(error: E)

  /** A character that stands for one byte. */
  type Byte = c: char | c as int < 256 witness '0'

  type Bytes = seq<Byte>

  predicate IsBytes(s: string) {
    forall i | 0 <= i < |s| :: s[i] as int < 256
  }

  /** True iff no character of s is sep. */
  ghost predicate Free(s: string, sep: char) {
    sep !in s
  }

  ghost predicate AllFree(parts: seq<string>, sep: char) {
    forall p | p in parts :: Free(p, sep)
  }

  /** The pieces of s between separators; a string without a separator is one piece. */
  function Split(s: string, sep: char): (parts: seq<string>)
    ensures |parts| >= 1
  {
    if |s| == 0 then [""]
    else
      var rest := Split(s[1..], sep);
      if s[0] == sep then [""] + rest else [[s[0]] + rest[0]] + rest[1..]
  }

  function Join(parts: seq<string>, sep: char): string {
    if |parts| == 0 then ""
    else if |parts| == 1 then parts[0]
    else parts[0] + [sep] + Join(parts[1..], sep)
  }

  /** The text before and after the first separator, when there is one. */
  function Cut(s: string, sep: char): Option<(string, string)> {
    if |s| == 0 then None
    else if s[0] == sep then Some(("", s[1..]))
    else
      match Cut(s[1..], sep)
      case None => None
      case Some((before, after)) => Some(([s[0]] + before, after))
  }

  lemma Associative(a: string, b: string, c: string)
    ensures a + b + c == a + (b + c)
  {
  }

  /** A dotted path with one more name. */
  function PathOf(prefix: string, name: string): string {
    if prefix == "" then name else prefix + "." + name
  }

  /** One path of names is the other, or lies under it. */
  predicate Comparable(p: seq<string>, q: seq<string>) {
    p <= q || q <= p
  }

  ghost predicate Increasing(s: seq<int>) {
    forall i, j | 0 <= i < j < |s| :: s[i] < s[j]
  }

  lemma {:induction false} SplitFree(s: string, sep: char)
    requires Free(s, sep)
    ensures Split(s, sep) == [s]
  {
    if |s| > 0 {
      SplitFree(s[1..], sep);
      assert s == [s[0]] + s[1..];
    }
  }

  /** The pieces of text with one more character in front. */
  function Front(c: char, parts: seq<string>, sep: char): seq<string>
    requires |parts| >= 1
  {
    if c == sep then [""] + parts else [[c] + parts[0]] + parts[1..]
  }

  lemma SplitFront(s: string, sep: char)
    requires |s| > 0
    ensures Split(s, sep) == Front(s[0], Split(s[1..], sep), sep)
  {
  }

  lemma FrontAppend(c: char, parts: seq<string>, more: seq<string>, sep: char)
    requires |parts| >= 1
    ensures Front(c, parts + more, sep) == Front(c, parts, sep) + more
  {
    assert (parts + more)[0] == parts[0] && (parts + more)[1..] == parts[1..] + more;
  }

  lemma {:induction false} SplitAppend(a: string, b: string, sep: char)
    ensures Split(a + [sep] + b, sep) == Split(a, sep) + Split(b, sep)
  {
    var s := a + [sep] + b;
    SplitFront(s, sep);
    if |a| == 0 {
      assert s[1..] == b;
    } else {
      SplitAppend(a[1..], b, sep);
      SplitFront(a, sep);
      assert s[1..] == a[1..] + [sep] + b;
      FrontAppend(a[0], Split(a[1..], sep), Split(b, sep), sep);
    }
  }

  /** Every piece of a split is free of the separator, and joining the pieces gives the string back. */
  lemma {:induction false} JoinSplit(s: string, sep: char)
    ensures AllFree(Split(s, sep), sep)
    ensures Join(Split(s, sep), sep) == s
  {
    if |s| > 0 {
      JoinSplit(s[1..], sep);
      var rest := Split(s[1..], sep);
      var parts := Split(s, sep);
      assert s == [s[0]] + s[1..];
      forall p | p in parts
        ensures Free(p, sep)
      {
        assert Free(rest[0], sep);
        assert p == parts[0] || p in rest;
      }
      assert parts[1..] == if s[0] == sep then rest else rest[1..];
    }
  }

  lemma JoinStep(part: string, rest: seq<string>, sep: char)
    ensures Join([part] + rest, sep) == if rest == [] then part else part + ([sep] + Join(rest, sep))
  {
    assert ([part] + rest)[1..] == rest;
    if rest != [] {
      assert part + [sep] + Join(rest, sep) == part + ([sep] + Join(rest, sep));
    }
  }

  /** Splitting a join gives the pieces back when none of them holds the separator. */
  lemma {:induction false} SplitJoin(parts: seq<string>, sep: char)
    requires |parts| >= 1
    requires AllFree(parts, sep)
    ensures Split(Join(parts, sep), sep) == parts
  {
    SplitFree(parts[0], sep);
    if |parts| > 1 {
      SplitAppend(parts[0], Join(parts[1..], sep), sep);
      SplitJoin(parts[1..], sep);
    }
  }

  lemma {:induction false} JoinBytes(parts: seq<string>, sep: char)
    requires sep as int < 256 && forall p | p in parts :: IsBytes(p)
    ensures IsBytes(Join(parts, sep))
  {
    if |parts| > 0 {
      assert IsBytes(parts[0]);
      JoinBytes(parts[1..], sep);
    }
  }

  lemma {:induction false} SplitBytes(s: string, sep: char)
    requires IsBytes(s)
    ensures forall p | p in Split(s, sep) :: IsBytes(p)
  {
    if |s| > 0 {
      SplitBytes(s[1..], sep);
      var rest := Split(s[1..], sep);
      assert IsBytes(rest[0]);
    }
  }

  lemma {:induction false} SplitOne(s: string, sep: char)
    ensures |Split(s, sep)| == 1 <==> Free(s, sep)
  {
    if |s| > 0 {
      SplitOne(s[1..], sep);
    }
  }

  /** A join of n pieces splits into exactly n pieces only when every piece is free of the separator. */
  lemma {:induction false} SplitJoinCount(parts: seq<string>, sep: char)
    requires |parts| >= 1
    ensures |Split(Join(parts, sep), sep)| >= |parts|
    ensures |Split(Join(parts, sep), sep)| == |parts| <==> AllFree(parts, sep)
  {
    SplitOne(parts[0], sep);
    if |parts| > 1 {
      SplitAppend(parts[0], Join(parts[1..], sep), sep);
      SplitJoinCount(parts[1..], sep);
    }
  }

  lemma {:induction false} CutAt(a: string, b: string, sep: char)
    requires Free(a, sep)
    ensures Cut(a + [sep] + b, sep) == Some((a, b))
  {
    var s := a + [sep] + b;
    if |a| == 0 {
      assert s[1..] == b;
    } else {
      CutAt(a[1..], b, sep);
      assert s[1..] == a[1..] + [sep] + b;
      assert [a[0]] + a[1..] == a;
    }
  }

  lemma {:induction false} CutSound(s: string, sep: char)
    ensures Cut(s, sep).None? <==> Free(s, sep)
    ensures Cut(s, sep).Some? ==>
              var (before, after) := Cut(s, sep).value;
              s == before + [sep] + after && Free(before, sep)
  {
    if |s| > 0 {
      CutSound(s[1..], sep);
      assert s == [s[0]] + s[1..];
    }
  }

  /** The characters Unicode calls white space. */
  predicate IsSpace(c: char) {
    var n := c as int;
    || 9 <= n <= 13 || n == 32 || n == 0x85 || n == 0xA0 || n == 0x1680 || 0x2000 <= n <= 0x200A
    || n == 0x2028 || n == 0x2029 || n == 0x202F || n == 0x205F || n == 0x3000
  }

  function TrimLeft(s: string): (t: string)
    ensures |t| <= |s|
  {
    if |s| > 0 && IsSpace(s[0]) then TrimLeft(s[1..]) else s
  }

  function TrimRight(s: string): (t: string)
    ensures |t| <= |s|
  {
    if |s| > 0 && IsSpace(s[|s| - 1]) then TrimRight(s[..|s| - 1]) else s
  }

  function TrimSpace(s: string): string {
    TrimRight(TrimLeft(s))
  }

  /** True iff trimming has nothing left to remove. */
  predicate Trimmed(s: string) {
    |s| > 0 ==> !IsSpace(s[0]) && !IsSpace(s[|s| - 1])
  }

  lemma TrimmedIsFixed(s: string)
    ensures Trimmed(s) ==> TrimSpace(s) == s
    ensures TrimSpace(s) == s ==> Trimmed(s)
  {
    if |s| > 0 && IsSpace(s[0]) {
      assert |TrimLeft(s)| <= |s[1..]|;
    }
  }

  lemma {:induction false} TrimRightTrimmed(s: string)
    ensures |TrimRight(s)| > 0 ==> TrimRight(s)[0] == s[0] && !IsSpace(TrimRight(s)[|TrimRight(s)| - 1])
  {
    if |s| > 0 && IsSpace(s[|s| - 1]) {
      TrimRightTrimmed(s[..|s| - 1]);
    }
  }

  lemma {:induction false} TrimLeftTrimmed(s: string)
    ensures |TrimLeft(s)| > 0 ==> !IsSpace(TrimLeft(s)[0])
  {
    if |s| > 0 && IsSpace(s[0]) {
      TrimLeftTrimmed(s[1..]);
    }
  }

  lemma TrimIsTrimmed(s: string)
    ensures Trimmed(TrimSpace(s))
  {
    TrimLeftTrimmed(s);
    TrimRightTrimmed(TrimLeft(s));
  }

  /** Character-by-character order: a proper prefix comes first. */
  predicate Less(a: string, b: string) {
    |b| > 0 && (|a| == 0 || a[0] < b[0] || (a[0] == b[0] && Less(a[1..], b[1..])))
  }

  lemma {:induction false} LessTotal(a: string, b: string)
    ensures Less(a, b) || Less(b, a) || a == b
    ensures !(Less(a, b) && Less(b, a))
    ensures !Less(a, a)
  {
    if |a| > 0 {
      LessTotal(a[1..], a[1..]);
      if |b| > 0 {
        LessTotal(a[1..], b[1..]);
        assert a == [a[0]] + a[1..] && b == [b[0]] + b[1..];
      }
    }
  }

  lemma {:induction false} LessTransitive(a: string, b: string, c: string)
    requires Less(a, b) && Less(b, c)
    ensures Less(a, c)
  {
    if |a| > 0 && a[0] == b[0] == c[0] {
      LessTransitive(a[1..], b[1..], c[1..]);
    }
  }

  /** a comes before b in a dictionary: at the first difference it has the lesser character, or it ends there. */
  ghost predicate InDictionaryOrder(a: string, b: string) {
    || (a != b && a <= b)
    || exists k :: 0 <= k < |a| && k < |b| && a[..k] == b[..k] && a[k] < b[k]
  }

  lemma DictionaryOn(a: string, b: string)
    requires |a| > 0 && |b| > 0 && a[0] == b[0] && InDictionaryOrder(a[1..], b[1..])
    ensures InDictionaryOrder(a, b)
  {
    var x, y := a[1..], b[1..];
    assert a == [a[0]] + x && b == [b[0]] + y;
    if !(x != y && x <= y) {
      var k :| 0 <= k < |x| && k < |y| && x[..k] == y[..k] && x[k] < y[k];
      assert a[..k + 1] == [a[0]] + x[..k] && b[..k + 1] == [b[0]] + y[..k];
      assert a[k + 1] < b[k + 1];
    }
  }

  lemma DictionaryBack(a: string, b: string)
    requires |a| > 0 && |b| > 0 && a[0] == b[0] && InDictionaryOrder(a, b)
    ensures InDictionaryOrder(a[1..], b[1..])
  {
    var x, y := a[1..], b[1..];
    if a != b && a <= b {
      assert a == [a[0]] + x && b == [b[0]] + y;
    } else {
      var k :| 0 <= k < |a| && k < |b| && a[..k] == b[..k] && a[k] < b[k];
      assert x[..k - 1] == a[..k][1..] && y[..k - 1] == b[..k][1..];
      assert x[k - 1] < y[k - 1];
    }
  }

  lemma DictionaryFirst(a: string, b: string)
    requires |a| == 0 || |b| == 0 || a[0] != b[0]
    ensures InDictionaryOrder(a, b) <==> |b| > 0 && (|a| == 0 || a[0] < b[0])
  {
    if |a| > 0 && |b| > 0 {
      assert a[..0] == b[..0];
    }
  }

  lemma {:induction false} LessIs(a: string, b: string)
    ensures Less(a, b) <==> InDictionaryOrder(a, b)
  {
    if |a| > 0 && |b| > 0 && a[0] == b[0] {
      LessIs(a[1..], b[1..]);
      if Less(a[1..], b[1..]) {
        DictionaryOn(a, b);
      }
      if InDictionaryOrder(a, b) {
        DictionaryBack(a, b);
      }
    } else {
      DictionaryFirst(a, b);
    }
  }

  ghost predicate AllSpace(s: string) {
    forall i | 0 <= i < |s| :: IsSpace(s[i])
  }

  lemma {:induction false} TrimLeftIs(s: string) returns (front: string)
    ensures s == front + TrimLeft(s) && AllSpace(front)
  {
    if |s| > 0 && IsSpace(s[0]) {
      var rest := TrimLeftIs(s[1..]);
      front := [s[0]] + rest;
      assert s == [s[0]] + s[1..];
    } else {
      front := "";
    }
  }

  lemma {:induction false} TrimRightIs(s: string) returns (back: string)
    ensures s == TrimRight(s) + back && AllSpace(back)
  {
    if |s| > 0 && IsSpace(s[|s| - 1]) {
      var rest := TrimRightIs(s[..|s| - 1]);
      back := rest + [s[|s| - 1]];
      assert s == s[..|s| - 1] + [s[|s| - 1]];
    } else {
      back := "";
    }
  }

  /** Trimming takes white space off both ends, all of it and nothing else. */
  lemma TrimIs(s: string) returns (front: string, back: string)
    ensures s == front + TrimSpace(s) + back && AllSpace(front) && AllSpace(back)
    ensures Trimmed(TrimSpace(s))
  {
    front := TrimLeftIs(s);
    back := TrimRightIs(TrimLeft(s));
    assert front + (TrimSpace(s) + back) == front + TrimSpace(s) + back;
    TrimIsTrimmed(s);
  }

  lemma {:induction false} TrimLeftPad(front: string, rest: string)
    requires AllSpace(front)
    ensures TrimLeft(front + rest) == TrimLeft(rest)
  {
    if |front| > 0 {
      assert (front + rest)[1..] == front[1..] + rest;
      TrimLeftPad(front[1..], rest);
    } else {
      assert front + rest == rest;
    }
  }

  lemma {:induction false} TrimRightPad(rest: string, back: string)
    requires AllSpace(back)
    ensures TrimRight(rest + back) == TrimRight(rest)
  {
    var n := |rest + back| - 1;
    if |back| > 0 {
      assert (rest + back)[..n] == rest + back[..|back| - 1];
      TrimRightPad(rest, back[..|back| - 1]);
    } else {
      assert rest + back == rest;
    }
  }

  /** White space put around trimmed text goes again. */
  lemma TrimPadded(front: string, text: string, back: string)
    requires AllSpace(front) && AllSpace(back) && Trimmed(text)
    ensures TrimSpace(front + text + back) == text
  {
    TrimmedIsFixed(text);
    assert front + text + back == front + (text + back);
    TrimLeftPad(front, text + back);
    if text == "" {
      assert text + back == back && back + "" == back && "" + back == back;
      TrimLeftPad(back, "");
    } else {
      assert TrimLeft(text + back) == text + back;
      TrimRightPad(text, back);
    }
  }

  /** Nothing is left exactly of white space. */
  lemma TrimNothing(s: string)
    ensures TrimSpace(s) == "" <==> AllSpace(s)
  {
    if AllSpace(s) {
      TrimPadded(s, "", "");
      assert s + "" + "" == s;
    } else {
      var front, back := TrimIs(s);
      assert TrimSpace(s) == "" ==> s == front + back;
    }
  }

  /** The bytes that are white space: tab to carriage return, the space, and the two above ASCII. */
  lemma SpaceBytes(c: Byte)
    ensures IsSpace(c) <==> 9 <= c as int <= 13 || c as int in {32, 0x85, 0xA0}
  {
  }
}
