/** Substituting percent-encoded values into a route pattern, one parameter at a time. */
module Transport {
  import opened Text

  // ---------- percent-encoding ----------

  /** The bytes a path segment carries as they are: the unreserved characters of section 2.3 of RFC 3986 and
      those of "$", "&", "+", "=", ":" and "@" that section 3.3 allows in a segment.
   */
  predicate Plain(c: char) {
    || 'a' <= c <= 'z' || 'A' <= c <= 'Z' || '0' <= c <= '9'
    || c == '-' || c == '_' || c == '.' || c == '~'
    || c == '$' || c == '&' || c == '+' || c == '=' || c == ':' || c == '@'
  }

  function HexDigit(v: nat): (c: char)
    requires v < 16
    ensures FromHex(c) == Some(v)
    ensures Plain(c)
  {
    if v < 10 then ('0' as int + v) as char else ('A' as int + v - 10) as char
  }

  function FromHex(c: char): (v: Option<nat>)
    ensures v.Some? ==> v.value < 16
  {
    if '0' <= c <= '9' then Some(c as int - '0' as int)
    else if 'a' <= c <= 'f' then Some(c as int - 'a' as int + 10)
    else if 'A' <= c <= 'F' then Some(c as int - 'A' as int + 10)
    else None
  }

  function EscapeByte(b: Byte): (s: string)
    ensures 1 <= |s| <= 3 && forall i | 0 <= i < |s| :: Plain(s[i]) || s[i] == '%'
  {
    if Plain(b) then [b] else ['%', HexDigit(b as int / 16), HexDigit(b as int % 16)]
  }

  /** Percent-encodes whatever a path segment cannot carry as it is; a slash is never left in. */
  function PathEscape(value: Bytes): (s: string)
    ensures forall i | 0 <= i < |s| :: Plain(s[i]) || s[i] == '%'
  {
    if |value| == 0 then "" else EscapeByte(value[0]) + PathEscape(value[1..])
  }

  function PathUnescape(s: string): Option<string> {
    if |s| == 0 then Some("")
    else if s[0] == '%' then
      if |s| < 3 || FromHex(s[1]).None? || FromHex(s[2]).None? then None
      else
        match PathUnescape(s[3..])
        case None => None
        case Some(rest) => Some([(FromHex(s[1]).value * 16 + FromHex(s[2]).value) as char] + rest)
    else
      match PathUnescape(s[1..])
      case None => None
      case Some(rest) => Some([s[0]] + rest)
  }

  /** Decoding an encoded value gives it back. */
  lemma {:induction false} UnescapeEscape(value: Bytes)
    ensures PathUnescape(PathEscape(value)) == Some(value)
  {
    if |value| > 0 {
      UnescapeEscape(value[1..]);
      var s, rest := PathEscape(value), PathEscape(value[1..]);
      assert value == [value[0]] + value[1..];
      if Plain(value[0]) {
        assert s[1..] == rest;
      } else {
        assert s[3..] == rest;
      }
    }
  }

  /** The characters a path segment can hold without being encoded (section 3.3 of RFC 3986). */
  ghost predicate Unencoded(c: char) {
    || 'a' <= c <= 'z' || 'A' <= c <= 'Z' || '0' <= c <= '9'
    || c in ['-', '_', '.', '~', '$', '&', '+', '=', ':', '@']
  }

  ghost predicate UpperHex(c: char) {
    '0' <= c <= '9' || 'A' <= c <= 'F'
  }

  /** A percent sign and two upper-case hexadecimal digits stand at j. */
  ghost predicate Triplet(s: string, j: nat) {
    j + 2 < |s| && s[j] == '%' && UpperHex(s[j + 1]) && UpperHex(s[j + 2])
  }

  /** The character at i stands for itself or belongs to a triplet. */
  ghost predicate Sound(s: string, i: nat)
    requires i < |s|
  {
    Unencoded(s[i]) || exists j: nat :: j <= i <= j + 2 && Triplet(s, j)
  }

  lemma SoundBehind(front: string, rest: string, i: nat)
    requires i < |rest| && Sound(rest, i)
    ensures Sound(front + rest, |front| + i)
  {
    if !Unencoded(rest[i]) {
      var j: nat :| j <= i <= j + 2 && Triplet(rest, j);
      assert Triplet(front + rest, |front| + j);
    }
  }

  lemma SoundInFront(front: string, rest: string, i: nat)
    requires i < |front| && Sound(front, i)
    ensures Sound(front + rest, i)
  {
    if !Unencoded(front[i]) {
      var j: nat :| j <= i <= j + 2 && Triplet(front, j);
      assert Triplet(front + rest, j);
    }
  }

  lemma ByteSound(b: Byte, i: nat)
    requires i < |EscapeByte(b)|
    ensures Sound(EscapeByte(b), i)
  {
    HexUpper(b);
    if |EscapeByte(b)| == 3 {
      assert Triplet(EscapeByte(b), 0);
    }
  }

  /** Every character of an encoded value stands for itself or belongs to a triplet. */
  lemma {:induction false} EscapeChars(value: Bytes, i: nat)
    requires i < |PathEscape(value)|
    ensures Sound(PathEscape(value), i)
  {
    var first, rest := EscapeByte(value[0]), PathEscape(value[1..]);
    if i < |first| {
      ByteSound(value[0], i);
      SoundInFront(first, rest, i);
    } else {
      EscapeChars(value[1..], i - |first|);
      SoundBehind(first, rest, i - |first|);
    }
  }

  lemma HexUpper(b: Byte)
    ensures (EscapeByte(b) == [b] && Unencoded(b)) || (|EscapeByte(b)| == 3 && Triplet(EscapeByte(b), 0))
  {
  }

  ghost predicate InTriplet(c: char) {
    c == '%' || UpperHex(c)
  }

  /** An encoded value holds no character that ends or divides a path, nor a space or a brace. */
  lemma EscapeSafe(value: Bytes, c: char)
    requires c in ['/', '?', '#', ' ', '{', '}', ';', ',']
    ensures c !in PathEscape(value)
  {
    var s := PathEscape(value);
    forall i | 0 <= i < |s|
      ensures s[i] != c
    {
      EscapeChars(value, i);
      assert Unencoded(s[i]) || InTriplet(s[i]);
    }
  }

  /** A value that needs no encoding is its own encoding. */
  lemma {:induction false} UnencodedStays(value: Bytes)
    requires forall i | 0 <= i < |value| :: Unencoded(value[i])
    ensures PathEscape(value) == value
  {
    if |value| > 0 {
      UnencodedStays(value[1..]);
      assert value == [value[0]] + value[1..];
    }
  }

  // ---------- replacing the first occurrence ----------

  predicate PrefixAt(s: string, old_: string, i: nat) {
    i <= |s| && old_ <= s[i..]
  }

  /** The first place old_ occurs at, or the length of s when it does not. */
  function Index(s: string, old_: string): (i: nat)
    ensures i <= |s|
  {
    if |s| == 0 || old_ <= s then 0 else 1 + Index(s[1..], old_)
  }

  /** s with n characters from i on replaced. */
  function Spliced(s: string, i: nat, n: nat, new_: string): string
    requires i + n <= |s|
  {
    s[..i] + new_ + s[i + n..]
  }

  function ReplaceFirst(s: string, old_: string, new_: string): string {
    var i := Index(s, old_);
    if PrefixAt(s, old_, i) then Spliced(s, i, |old_|, new_) else s
  }

  function Brace(name: string): string {
    "{" + name + "}"
  }

  /** The pattern with the value of each parameter put in turn for its first placeholder; a name without a
      value at the end is ignored.
   */
  function RoutePath(pattern: string, params: seq<Bytes>): string
    decreases |params|
  {
    if |params| < 2 then pattern
    else RoutePath(ReplaceFirst(pattern, Brace(params[0]), PathEscape(params[1])), params[2..])
  }

  method BuildPath(pattern: string, params: seq<Bytes>) returns (out: string)
    ensures out == RoutePath(pattern, params)
  {
    out := pattern;
    var i := 0;
    assert params[0..] == params;
    while i + 1 < |params|
      invariant 0 <= i <= |params|
      invariant RoutePath(out, params[i..]) == RoutePath(pattern, params)
    {
      assert params[i..][2..] == params[i + 2..];
      out := ReplaceFirst(out, Brace(params[i]), PathEscape(params[i + 1]));
      i := i + 2;
    }
  }

  // ---------- patterns as templates ----------

  /** A piece of a pattern: literal text, or a placeholder. */
  datatype Piece = Lit(text: string) | Hole(name: string)

  predicate Braceless(s: string) {
    '{' !in s && '}' !in s
  }

  /** No literal text opens a brace, and no name holds one. */
  predicate WellFormed(t: seq<Piece>) {
    forall i | 0 <= i < |t| :: if t[i].Lit? then '{' !in t[i].text else Braceless(t[i].name)
  }

  function RenderPiece(p: Piece): string {
    match p
    case Lit(text) => text
    case Hole(name) => Brace(name)
  }

  function Render(t: seq<Piece>): string {
    if |t| == 0 then "" else RenderPiece(t[0]) + Render(t[1..])
  }

  /** Fills the first placeholder of a name. */
  function FillFirst(t: seq<Piece>, name: string, text: string): seq<Piece> {
    if |t| == 0 then []
    else if t[0] == Hole(name) then [Lit(text)] + t[1..]
    else [t[0]] + FillFirst(t[1..], name, text)
  }

  /** Text without an opening brace is passed over whole. */
  lemma {:induction false} IndexSkips(head: string, s: string, name: string)
    requires '{' !in head
    ensures Index(head + s, Brace(name)) == |head| + Index(s, Brace(name))
  {
    if |head| > 0 {
      IndexSkips(head[1..], s, name);
      assert (head + s)[1..] == head[1..] + s;
      assert Brace(name)[0] == '{' && (head + s)[0] == head[0];
    } else {
      assert head + s == s;
    }
  }

  lemma HoleApart(name: string, other: string, rest: string)
    requires '}' !in name && Braceless(other)
    ensures Brace(name) <= Brace(other) + rest <==> name == other
  {
    var a, b := Brace(name), Brace(other) + rest;
    if a <= b {
      var n, m := |name|, |other|;
      assert a[n + 1] == '}' && b[m + 1] == '}';
      assert forall i | 0 <= i < n :: a[i + 1] == name[i];
      assert forall i | 0 <= i < m :: b[i + 1] == other[i];
      assert n == m;
      assert forall i | 0 <= i < n :: name[i] == other[i];
    }
  }

  lemma PrefixAfter(head: string, s: string, old_: string, i: nat)
    requires i <= |s|
    ensures PrefixAt(head + s, old_, |head| + i) == PrefixAt(s, old_, i)
  {
    SliceAfter(head, s, i);
  }

  lemma ReplaceAt(s: string, old_: string, new_: string, i: nat)
    requires i == Index(s, old_)
    ensures PrefixAt(s, old_, i) ==>
              i + |old_| <= |s| && ReplaceFirst(s, old_, new_) == Spliced(s, i, |old_|, new_)
    ensures !PrefixAt(s, old_, i) ==> ReplaceFirst(s, old_, new_) == s
  {
  }

  lemma ReplaceAfter(head: string, s: string, old_: string, new_: string)
    requires Index(head + s, old_) == |head| + Index(s, old_)
    ensures ReplaceFirst(head + s, old_, new_) == head + ReplaceFirst(s, old_, new_)
  {
    ReplaceShifted(head, s, head + s, old_, new_, Index(s, old_));
  }

  lemma ReplaceShifted(head: string, s: string, whole: string, old_: string, new_: string, i: nat)
    requires whole == head + s && i == Index(s, old_) && |head| + i == Index(whole, old_)
    ensures ReplaceFirst(whole, old_, new_) == head + ReplaceFirst(s, old_, new_)
  {
    ReplaceAt(s, old_, new_, i);
    ReplaceAt(whole, old_, new_, |head| + i);
    PrefixAfter(head, s, old_, i);
    if PrefixAt(s, old_, i) {
      SplicedAfter(head, s, i, |old_|, new_);
    }
  }

  lemma SplicedAfter(head: string, s: string, i: nat, n: nat, new_: string)
    requires i + n <= |s|
    ensures Spliced(head + s, |head| + i, n, new_) == head + Spliced(s, i, n, new_)
  {
    SliceAfter(head, s, i);
    SliceAfter(head, s, i + n);
    Regroup(head, s[..i], new_, s[i + n..]);
  }

  lemma Regroup(a: string, b: string, c: string, d: string)
    ensures a + b + c + d == a + (b + c + d)
  {
  }

  lemma SliceAfter(head: string, s: string, i: nat)
    requires i <= |s|
    ensures (head + s)[|head| + i..] == s[i..] && (head + s)[..|head| + i] == head + s[..i]
  {
  }

  lemma FillLit(literal: string, rest: string, name: string, text: string)
    requires '{' !in literal
    ensures ReplaceFirst(literal + rest, Brace(name), text) == literal + ReplaceFirst(rest, Brace(name), text)
  {
    IndexSkips(literal, rest, name);
    ReplaceAfter(literal, rest, Brace(name), text);
  }

  lemma FillHole(other: string, rest: string, name: string, text: string)
    requires Braceless(other) && '}' !in name
    ensures ReplaceFirst(Brace(other) + rest, Brace(name), text) ==
            if other == name then text + rest else Brace(other) + ReplaceFirst(rest, Brace(name), text)
  {
    HoleApart(name, other, rest);
    if name == other {
      HoleInFront(Brace(name), rest, text);
    } else {
      OtherHole(name, other, rest);
      ReplaceAfter(Brace(other), rest, Brace(name), text);
    }
  }

  lemma HoleInFront(old_: string, rest: string, text: string)
    ensures ReplaceFirst(old_ + rest, old_, text) == text + rest
  {
    assert old_ <= old_ + rest && (old_ + rest)[0..] == old_ + rest;
    assert (old_ + rest)[|old_|..] == rest;
  }

  /** Replacing in the text of a template fills its first placeholder of that name. */
  lemma {:induction false} FillRender(t: seq<Piece>, name: string, text: string)
    requires WellFormed(t) && '}' !in name
    ensures ReplaceFirst(Render(t), Brace(name), text) == Render(FillFirst(t, name, text))
  {
    if |t| > 0 {
      assert WellFormed(t[1..]);
      FillRender(t[1..], name, text);
      match t[0]
      case Lit(literal) => FillLit(literal, Render(t[1..]), name, text);
      case Hole(other) => FillHole(other, Render(t[1..]), name, text);
    }
  }

  lemma OtherHole(name: string, other: string, rest: string)
    requires '}' !in name && Braceless(other) && name != other
    ensures Index(Brace(other) + rest, Brace(name)) == |Brace(other)| + Index(rest, Brace(name))
  {
    HoleApart(name, other, rest);
    IndexSkips(other + "}", rest, name);
    assert (Brace(other) + rest)[1..] == other + "}" + rest;
  }

  // ---------- one parameter after another ----------

  ghost predicate NamesClosed(params: seq<Bytes>) {
    forall i | 0 <= i < |params| && i % 2 == 0 :: '}' !in params[i]
  }

  lemma NamesClosedOn(params: seq<Bytes>)
    requires |params| >= 2 && NamesClosed(params)
    ensures '}' !in params[0] && NamesClosed(params[2..])
  {
    assert forall i | 0 <= i < |params| - 2 :: params[2..][i] == params[i + 2];
    assert params[0..][0] == params[0];
  }

  lemma {:induction false} EscapeBraceless(value: Bytes)
    ensures Braceless(PathEscape(value)) && Free(PathEscape(value), '/')
  {
    var s := PathEscape(value);
    assert forall i | 0 <= i < |s| :: Plain(s[i]) || s[i] == '%';
  }

  lemma {:induction false} FillWellFormed(t: seq<Piece>, name: string, text: string)
    requires WellFormed(t) && Braceless(text)
    ensures WellFormed(FillFirst(t, name, text))
  {
    if |t| > 0 {
      assert WellFormed(t[1..]);
      FillWellFormed(t[1..], name, text);
    }
  }

  /** The pattern with each parameter in turn put into the first placeholder of its name. */
  function Filled(t: seq<Piece>, params: seq<Bytes>): seq<Piece>
    decreases |params|
  {
    if |params| < 2 then t else Filled(FillFirst(t, params[0], PathEscape(params[1])), params[2..])
  }

  /** Substituting in the text of a pattern fills placeholders of that pattern only: no value is ever taken
      for a placeholder, or for a part of one.
   */
  lemma {:induction false} RouteFills(t: seq<Piece>, params: seq<Bytes>)
    requires WellFormed(t) && NamesClosed(params)
    ensures RoutePath(Render(t), params) == Render(Filled(t, params)) && WellFormed(Filled(t, params))
    decreases |params|
  {
    if |params| >= 2 {
      var text := PathEscape(params[1]);
      NamesClosedOn(params);
      FillRender(t, params[0], text);
      EscapeBraceless(params[1]);
      FillWellFormed(t, params[0], text);
      RouteFills(FillFirst(t, params[0], text), params[2..]);
    }
  }
}
