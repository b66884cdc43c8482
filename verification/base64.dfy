/** Base64 without padding, in the standard and the URL-safe alphabet (sections 4 and 5 of RFC 4648).
    The decoder skips line breaks, refuses any other foreign character and a lone final character, and
    ignores the unused low bits of a short final group.
 */
module Base64 {
  import opened Text

  datatype Alphabet = Std | Url

  function EncodeSextet(a: Alphabet, v: nat): (c: char)
    requires v < 64
  {
    if v < 26 then ('A' as int + v) as char
    else if v < 52 then ('a' as int + v - 26) as char
    else if v < 62 then ('0' as int + v - 52) as char
    else if v == 62 then (if a == Std then '+' else '-')
    else if a == Std then '/' else '_'
  }

  function DecodeSextet(a: Alphabet, c: char): (v: Option<nat>)
    ensures v.Some? ==> v.value < 64
  {
    if 'A' <= c <= 'Z' then Some(c as int - 'A' as int)
    else if 'a' <= c <= 'z' then Some(c as int - 'a' as int + 26)
    else if '0' <= c <= '9' then Some(c as int - '0' as int + 52)
    else if c == (if a == Std then '+' else '-') then Some(62)
    else if c == (if a == Std then '/' else '_') then Some(63)
    else None
  }

  lemma SextetRoundTrip(a: Alphabet, v: nat)
    requires v < 64
    ensures DecodeSextet(a, EncodeSextet(a, v)) == Some(v)
    ensures IsAlphabetic(EncodeSextet(a, v))
  {
  }

  /** The characters an encoding can hold, in either alphabet. */
  predicate IsAlphabetic(c: char) {
    'A' <= c <= 'Z' || 'a' <= c <= 'z' || '0' <= c <= '9' || c == '+' || c == '-' || c == '/' || c == '_'
  }

  ghost predicate AllAlphabetic(s: string) {
    forall i | 0 <= i < |s| :: IsAlphabetic(s[i])
  }

  /** The four sextets three bytes spread over. */
  function Spread(b0: Byte, b1: Byte, b2: Byte): (v: (nat, nat, nat, nat))
    ensures v.0 < 64 && v.1 < 64 && v.2 < 64 && v.3 < 64
  {
    var n0, n1, n2 := b0 as int, b1 as int, b2 as int;
    (n0 / 4, n0 % 4 * 16 + n1 / 16, n1 % 16 * 4 + n2 / 64, n2 % 64)
  }

  /** The three bytes four sextets make up. */
  function Gather(v0: nat, v1: nat, v2: nat, v3: nat): (Byte, Byte, Byte)
    requires v0 < 64 && v1 < 64 && v2 < 64 && v3 < 64
  {
    ((v0 * 4 + v1 / 16) as char, (v1 % 16 * 16 + v2 / 4) as char, (v2 % 4 * 64 + v3) as char)
  }

  lemma GatherSpread(b0: Byte, b1: Byte, b2: Byte)
    ensures var (v0, v1, v2, v3) := Spread(b0, b1, b2);
            Gather(v0, v1, v2, v3) == (b0, b1, b2)
  {
    var (v0, v1, v2, v3) := Spread(b0, b1, b2);
    assert v0 * 4 + v1 / 16 == b0 as int;
    assert v1 % 16 * 16 + v2 / 4 == b1 as int;
    assert v2 % 4 * 64 + v3 == b2 as int;
  }

  /** One group of up to three bytes, in four, three or two characters. */
  function EncodeGroup(a: Alphabet, b0: Byte, b1: Byte, b2: Byte): (s: string)
    ensures |s| == 4 && AllAlphabetic(s)
  {
    var (v0, v1, v2, v3) := Spread(b0, b1, b2);
    SextetRoundTrip(a, v0);
    SextetRoundTrip(a, v1);
    SextetRoundTrip(a, v2);
    SextetRoundTrip(a, v3);
    [EncodeSextet(a, v0), EncodeSextet(a, v1), EncodeSextet(a, v2), EncodeSextet(a, v3)]
  }

  function Encode(a: Alphabet, data: Bytes): (s: string)
    ensures AllAlphabetic(s) && |s| >= |data|
  {
    if |data| == 0 then ""
    else if |data| == 1 then EncodeGroup(a, data[0], '\0', '\0')[..2]
    else if |data| == 2 then EncodeGroup(a, data[0], data[1], '\0')[..3]
    else EncodeGroup(a, data[0], data[1], data[2]) + Encode(a, data[3..])
  }

  function SkipLineBreaks(s: string): (t: string)
    ensures |t| <= |s|
  {
    if |s| == 0 then ""
    else if s[0] == '\r' || s[0] == '\n' then SkipLineBreaks(s[1..])
    else [s[0]] + SkipLineBreaks(s[1..])
  }

  function DecodeGroup(a: Alphabet, c0: char, c1: char, c2: char, c3: char): Option<(Byte, Byte, Byte)> {
    var v0, v1, v2, v3 := DecodeSextet(a, c0), DecodeSextet(a, c1), DecodeSextet(a, c2), DecodeSextet(a, c3);
    if v0.None? || v1.None? || v2.None? || v3.None? then None
    else Some(Gather(v0.value, v1.value, v2.value, v3.value))
  }

  /** A missing character of a short final group reads as zero bits. */
  function DecodeGroups(a: Alphabet, s: string): Option<Bytes> {
    if |s| == 0 then Some([])
    else if |s| == 1 then None
    else
      match DecodeGroup(a, s[0], s[1], if |s| > 2 then s[2] else 'A', if |s| > 3 then s[3] else 'A')
      case None => None
      case Some((b0, b1, b2)) =>
        if |s| == 2 then Some([b0])
        else if |s| == 3 then Some([b0, b1])
        else
          match DecodeGroups(a, s[4..])
          case None => None
          case Some(rest) => Some([b0, b1, b2] + rest)
  }

  function Decode(a: Alphabet, s: string): Option<Bytes> {
    DecodeGroups(a, SkipLineBreaks(s))
  }

  lemma {:induction false} NothingToSkip(s: string)
    requires AllAlphabetic(s)
    ensures SkipLineBreaks(s) == s
  {
    if |s| > 0 {
      NothingToSkip(s[1..]);
      assert s == [s[0]] + s[1..];
      assert IsAlphabetic(s[0]);
    }
  }

  lemma GroupRoundTrip(a: Alphabet, b0: Byte, b1: Byte, b2: Byte)
    ensures var s := EncodeGroup(a, b0, b1, b2);
            && DecodeGroup(a, s[0], s[1], s[2], s[3]) == Some((b0, b1, b2))
            && (b2 == '\0' ==> s[3] == 'A')
            && (b1 == b2 == '\0' ==> s[2] == s[3] == 'A')
  {
    GatherSpread(b0, b1, b2);
    var (v0, v1, v2, v3) := Spread(b0, b1, b2);
    SextetRoundTrip(a, v0);
    SextetRoundTrip(a, v1);
    SextetRoundTrip(a, v2);
    SextetRoundTrip(a, v3);
  }

  lemma FullGroup(a: Alphabet, g: string, rest: string)
    requires |g| == 4
    ensures DecodeGroups(a, g + rest) ==
            match DecodeGroup(a, g[0], g[1], g[2], g[3])
            case None => None
            case Some((b0, b1, b2)) =>
              match DecodeGroups(a, rest)
              case None => None
              case Some(data) => Some([b0, b1, b2] + data)
  {
    assert (g + rest)[4..] == rest;
  }

  lemma OneByte(a: Alphabet, b0: Byte)
    ensures DecodeGroups(a, Encode(a, [b0])) == Some([b0])
  {
    GroupRoundTrip(a, b0, '\0', '\0');
  }

  lemma TwoBytes(a: Alphabet, b0: Byte, b1: Byte)
    ensures DecodeGroups(a, Encode(a, [b0, b1])) == Some([b0, b1])
  {
    GroupRoundTrip(a, b0, b1, '\0');
  }

  lemma ThreeBytes(a: Alphabet, b0: Byte, b1: Byte, b2: Byte, rest: string, tail: Bytes)
    requires DecodeGroups(a, rest) == Some(tail)
    ensures DecodeGroups(a, EncodeGroup(a, b0, b1, b2) + rest) == Some([b0, b1, b2] + tail)
  {
    GroupRoundTrip(a, b0, b1, b2);
    FullGroup(a, EncodeGroup(a, b0, b1, b2), rest);
  }

  lemma FullEncoded(a: Alphabet, data: Bytes)
    requires |data| > 2
    ensures Encode(a, data) == EncodeGroup(a, data[0], data[1], data[2]) + Encode(a, data[3..])
  {
  }

  lemma LongRoundTrip(a: Alphabet, data: Bytes, s: string, rest: string)
    requires |data| > 2 && s == EncodeGroup(a, data[0], data[1], data[2]) + rest
    requires DecodeGroups(a, rest) == Some(data[3..])
    ensures DecodeGroups(a, s) == Some(data)
  {
    ThreeBytes(a, data[0], data[1], data[2], rest, data[3..]);
    ThreeFirst(data);
  }

  lemma ThreeFirst(data: Bytes)
    requires |data| > 2
    ensures data == [data[0], data[1], data[2]] + data[3..]
  {
  }

  lemma ShortRoundTrip(a: Alphabet, data: Bytes)
    requires |data| <= 2
    ensures DecodeGroups(a, Encode(a, data)) == Some(data)
  {
    if |data| == 2 {
      TwoBytes(a, data[0], data[1]);
      assert data == [data[0], data[1]];
    } else if |data| == 1 {
      OneByte(a, data[0]);
      assert data == [data[0]];
    }
  }

  lemma {:induction false} GroupsRoundTrip(a: Alphabet, data: Bytes)
    ensures DecodeGroups(a, Encode(a, data)) == Some(data)
  {
    if |data| > 2 {
      GroupsRoundTrip(a, data[3..]);
      FullEncoded(a, data);
      LongRoundTrip(a, data, Encode(a, data), Encode(a, data[3..]));
    } else {
      ShortRoundTrip(a, data);
    }
  }

  lemma RoundTrip(a: Alphabet, data: Bytes)
    ensures Decode(a, Encode(a, data)) == Some(data)
  {
    NothingToSkip(Encode(a, data));
    GroupsRoundTrip(a, data);
  }

  /** An encoding never holds a character outside both alphabets, such as a separator or white space. */
  lemma EncodeFree(a: Alphabet, data: Bytes, sep: char)
    requires !IsAlphabetic(sep)
    ensures Free(Encode(a, data), sep)
  {
    var s := Encode(a, data);
    forall i | 0 <= i < |s|
      ensures s[i] != sep
    {
      assert IsAlphabetic(s[i]);
    }
  }

  // ---------- the text itself ----------

  /** The alphabets of tables 1 and 2 of RFC 4648: the upper-case letters, the lower-case ones and the digits,
      each run in order, and two more characters, in which they differ.
   */
  lemma SextetIs(a: Alphabet, v: nat)
    requires v < 64
    ensures EncodeSextet(a, 0) == 'A' && EncodeSextet(a, 26) == 'a' && EncodeSextet(a, 52) == '0'
    ensures v < 61 && v != 25 && v != 51 ==> EncodeSextet(a, v + 1) as int == EncodeSextet(a, v) as int + 1
    ensures EncodeSextet(Std, 62) == '+' && EncodeSextet(Std, 63) == '/'
    ensures EncodeSextet(Url, 62) == '-' && EncodeSextet(Url, 63) == '_'
  {
  }

  /** The four sextets and the three bytes of a group are the same twenty-four bits. */
  lemma SpreadIs(b0: Byte, b1: Byte, b2: Byte)
    ensures var (v0, v1, v2, v3) := Spread(b0, b1, b2);
            v0 * 0x4_0000 + v1 * 0x1000 + v2 * 0x40 + v3 == b0 as int * 0x1_0000 + b1 as int * 0x100 + b2 as int
  {
  }

  /** Three bytes take four characters; one or two left over take two or three, and nothing is filled up. */
  lemma {:induction false} EncodedLength(a: Alphabet, data: Bytes)
    ensures |Encode(a, data)| == (4 * |data| + 2) / 3
  {
    if |data| > 2 {
      EncodedLength(a, data[3..]);
    }
  }

  /** A character stands for a sextet exactly when the sextet is written as it. */
  lemma SextetOf(a: Alphabet, c: char, v: nat)
    requires v < 64
    ensures DecodeSextet(a, c) == Some(v) <==> EncodeSextet(a, v) == c
  {
  }

  ghost predicate InAlphabet(a: Alphabet, s: string) {
    forall i | 0 <= i < |s| :: DecodeSextet(a, s[i]).Some?
  }

  lemma InAlphabetTwo(a: Alphabet, s: string)
    requires |s| >= 4
    ensures InAlphabet(a, s) <==> InAlphabet(a, s[..4]) && InAlphabet(a, s[4..])
  {
    assert s == s[..4] + s[4..];
  }

  lemma GroupReadable(a: Alphabet, s: string)
    requires |s| >= 4
    ensures DecodeGroups(a, s).Some? <==> InAlphabet(a, s[..4]) && DecodeGroups(a, s[4..]).Some?
  {
    var g, rest := s[..4], s[4..];
    assert s == g + rest;
    FullGroup(a, g, rest);
    GroupDecodes(a, g);
  }

  lemma GroupDecodes(a: Alphabet, g: string)
    requires |g| == 4
    ensures DecodeGroup(a, g[0], g[1], g[2], g[3]).Some? <==> InAlphabet(a, g)
  {
  }

  lemma LastReadable(a: Alphabet, s: string)
    requires |s| < 4
    ensures DecodeGroups(a, s).Some? <==> InAlphabet(a, s) && |s| != 1
  {
  }

  /** Apart from line breaks, a text is readable exactly when it stays in the alphabet and no single character
      follows its last whole group; what the last character holds beyond the last byte does not matter.
   */
  lemma {:induction false} ReadableIff(a: Alphabet, s: string)
    ensures DecodeGroups(a, s).Some? <==> InAlphabet(a, s) && |s| % 4 != 1
    decreases |s|
  {
    if |s| >= 4 {
      ReadableIff(a, s[4..]);
      GroupReadable(a, s);
      InAlphabetTwo(a, s);
    } else {
      LastReadable(a, s);
    }
  }

  /** Line breaks are passed over wherever they stand. */
  lemma {:induction false} BreaksSkipped(s: string)
    ensures '\n' !in SkipLineBreaks(s) && '\r' !in SkipLineBreaks(s)
    ensures '\n' !in s && '\r' !in s ==> SkipLineBreaks(s) == s
    ensures forall t :: SkipLineBreaks(s + "\n" + t) == SkipLineBreaks(s + "\r" + t) == SkipLineBreaks(s + t)
  {
    if |s| > 0 {
      BreaksSkipped(s[1..]);
      assert s == [s[0]] + s[1..];
      forall t
        ensures SkipLineBreaks(s + "\n" + t) == SkipLineBreaks(s + "\r" + t) == SkipLineBreaks(s + t)
      {
        assert (s + "\n" + t)[1..] == s[1..] + "\n" + t && (s + "\r" + t)[1..] == s[1..] + "\r" + t;
        assert (s + t)[1..] == s[1..] + t;
      }
    } else {
      forall t
        ensures SkipLineBreaks(s + "\n" + t) == SkipLineBreaks(s + "\r" + t) == SkipLineBreaks(s + t)
      {
        assert (s + "\n" + t)[1..] == t && (s + "\r" + t)[1..] == t && s + t == t;
      }
    }
  }
}
