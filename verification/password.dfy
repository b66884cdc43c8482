/** The self-describing text of a stored password hash. */
module Password {
  import opened Text
  import opened Decimal
  import B = Base64

  type Uint32 = n: nat | n < 0x1_0000_0000
  type Uint8 = n: nat | n < 0x100

  const ARGON_VERSION: nat := 19
  const MAX_SALT_LENGTH: nat := 1024
  const MAX_KEY_LENGTH: nat := 1024

  datatype Params = Params(memory: Uint32, time: Uint32, threads: Uint8, saltLength: Uint32, keyLength: Uint32)

  predicate Valid(p: Params) {
    && p.memory >= 8 && p.time > 0 && p.threads > 0
    && 8 <= p.saltLength <= MAX_SALT_LENGTH
    && 16 <= p.keyLength <= MAX_KEY_LENGTH
  }

  predicate WeakerThan(p: Params, want: Params) {
    || p.memory < want.memory || p.time < want.time || p.threads < want.threads
    || p.saltLength < want.saltLength || p.keyLength < want.keyLength
  }

  datatype Failure = Malformed | Algorithm | Version

  datatype Hash = Hash(params: Params, salt: Bytes, key: Bytes)

  /** The parameters are usable and record the lengths of this salt and key. */
  predicate Describes(h: Hash) {
    Valid(h.params) && h.params.saltLength == |h.salt| && h.params.keyLength == |h.key|
  }

  function Settings(p: Params): string {
    "m=" + FormatNat(p.memory) + ",t=" + FormatNat(p.time) + ",p=" + FormatNat(p.threads)
  }

  function Encode(h: Hash): string {
    Join(["", "argon2id", "v=" + FormatNat(ARGON_VERSION), Settings(h.params),
          B.Encode(B.Std, h.salt), B.Encode(B.Std, h.key)], '$')
  }

  // ---------- scanning by a format ----------

  /** Skips white space before a number; a line feed there is refused. */
  function SkipSpace(s: string): Option<string> {
    if |s| == 0 then Some(s)
    else if s[0] == '\n' then None
    else if IsSpace(s[0]) then SkipSpace(s[1..])
    else Some(s)
  }

  /** How many digits s opens with. */
  function DigitRun(s: string): (n: nat)
    ensures n <= |s| && AllDigits(s[..n])
    ensures n < |s| ==> !IsDigit(s[n])
  {
    if |s| == 0 || !IsDigit(s[0]) then 0 else 1 + DigitRun(s[1..])
  }

  /** A run of digits below bound, and the text after it. */
  function ScanDigits(s: string, bound: nat): Option<(nat, string)> {
    var n := DigitRun(s);
    if n == 0 || DigitsValue(s[..n]) >= bound then None else Some((DigitsValue(s[..n]), s[n..]))
  }

  function ScanUint(s: string, bound: nat): Option<(nat, string)> {
    match SkipSpace(s)
    case None => None
    case Some(t) => ScanDigits(t, bound)
  }

  /** A signed 64-bit number, and the text after it. */
  function ScanInt(s: string): Option<(int, string)> {
    match SkipSpace(s)
    case None => None
    case Some(t) =>
      var signed := |t| > 0 && (t[0] == '-' || t[0] == '+');
      var negative := signed && t[0] == '-';
      match ScanDigits(if signed then t[1..] else t, if negative then 0x8000_0000_0000_0001 else 0x8000_0000_0000_0000)
      case None => None
      case Some((v, rest)) =>
        var magnitude: int := v;
        Some((if negative then -magnitude else magnitude, rest))
  }

  /** The text after a literal piece of the format. */
  function ScanLiteral(s: string, piece: string): Option<string> {
    if piece <= s then Some(s[|piece|..]) else None
  }

  function ScanField(s: string, piece: string, bound: nat): Option<(nat, string)> {
    match ScanLiteral(s, piece)
    case None => None
    case Some(t) => ScanUint(t, bound)
  }

  /** Text after the last number is ignored, as a scan by a format ignores it. */
  function ScanVersion(s: string): Option<int> {
    match ScanLiteral(s, "v=")
    case None => None
    case Some(t) =>
      match ScanInt(t)
      case None => None
      case Some((v, _)) => Some(v)
  }

  function ScanSettings(s: string): Option<(Uint32, Uint32, Uint8)> {
    match ScanField(s, "m=", 0x1_0000_0000)
    case None => None
    case Some((m, s1)) =>
      match ScanField(s1, ",t=", 0x1_0000_0000)
      case None => None
      case Some((t, s2)) =>
        match ScanField(s2, ",p=", 0x100)
        case None => None
        case Some((p, _)) => Some((m, t, p))
  }

  // ---------- reading a hash ----------

  /** Whatever text decodes, the parameters read are usable and record the lengths of what was read. */
  function Decode(encoded: string): (r: Result<Hash, Failure>)
    ensures r.Ok? ==> Describes(r.value)
  {
    var parts := Split(encoded, '$');
    if |parts| != 6 || parts[0] != "" then Err(Malformed)
    else if parts[1] != "argon2id" then Err(Algorithm)
    else if ScanVersion(parts[2]) != Some(ARGON_VERSION) then Err(Version)
    else
      match ScanSettings(parts[3])
      case None => Err(Malformed)
      case Some((memory, time, threads)) => DecodeRest(memory, time, threads, parts[4], parts[5])
  }

  function DecodeRest(memory: Uint32, time: Uint32, threads: Uint8, salt: string, key: string)
    : (r: Result<Hash, Failure>)
    ensures r.Ok? ==> Describes(r.value)
  {
    match (B.Decode(B.Std, salt), B.Decode(B.Std, key))
    case (Some(s), Some(k)) =>
      if |s| > MAX_SALT_LENGTH || |k| > MAX_KEY_LENGTH then Err(Malformed)
      else
        var p := Params(memory, time, threads, |s|, |k|);
        if Valid(p) then Ok(Hash(p, s, k)) else Err(Malformed)
    case _ => Err(Malformed)
  }

  /** A hash that cannot be read needs replacing, and so does one weaker than the policy in any dimension. */
  function NeedsRehash(encoded: string, want: Params): bool {
    match Decode(encoded)
    case Err(_) => true
    case Ok(h) => WeakerThan(h.params, want)
  }

  // ---------- the round trip ----------

  lemma {:induction false} DigitRunIs(digits: string, rest: string)
    requires AllDigits(digits)
    requires |rest| > 0 ==> !IsDigit(rest[0])
    ensures DigitRun(digits + rest) == |digits|
  {
    if |digits| > 0 {
      DigitRunIs(digits[1..], rest);
      assert (digits + rest)[1..] == digits[1..] + rest;
    } else {
      assert digits + rest == rest;
    }
  }

  lemma ScanFormat(n: nat, bound: nat, rest: string)
    requires n < bound
    requires |rest| > 0 ==> !IsDigit(rest[0])
    ensures SkipSpace(FormatNat(n) + rest) == Some(FormatNat(n) + rest)
    ensures ScanDigits(FormatNat(n) + rest, bound) == Some((n, rest))
  {
    var d := FormatNat(n);
    assert (d + rest)[0] == d[0] && IsDigit(d[0]);
    DigitRunIs(d, rest);
    assert (d + rest)[..|d|] == d && (d + rest)[|d|..] == rest;
  }

  lemma FieldFormat(piece: string, n: nat, bound: nat, rest: string)
    requires n < bound
    requires |rest| > 0 ==> !IsDigit(rest[0])
    ensures ScanField(piece + FormatNat(n) + rest, piece, bound) == Some((n, rest))
  {
    var s := piece + FormatNat(n) + rest;
    assert s == piece + (FormatNat(n) + rest);
    assert s[|piece|..] == FormatNat(n) + rest;
    ScanFormat(n, bound, rest);
  }

  lemma SettingsScan(p: Params)
    ensures ScanSettings(Settings(p)) == Some((p.memory, p.time, p.threads))
  {
    var s2 := ",p=" + FormatNat(p.threads);
    var s1 := ",t=" + FormatNat(p.time) + s2;
    assert Settings(p) == "m=" + FormatNat(p.memory) + s1;
    assert s2 == ",p=" + FormatNat(p.threads) + "";
    FieldFormat("m=", p.memory, 0x1_0000_0000, s1);
    FieldFormat(",t=", p.time, 0x1_0000_0000, s2);
    FieldFormat(",p=", p.threads, 0x100, "");
  }

  lemma VersionScan(n: nat)
    requires n < 0x8000_0000_0000_0000
    ensures ScanVersion("v=" + FormatNat(n)) == Some(n)
  {
    var s := "v=" + FormatNat(n);
    assert s[2..] == FormatNat(n);
    assert FormatNat(n) + "" == FormatNat(n);
    ScanFormat(n, 0x8000_0000_0000_0000, "");
    assert IsDigit(FormatNat(n)[0]);
  }

  lemma SettingsFree(p: Params)
    ensures Free(Settings(p), '$')
  {
    FormatFree(p.memory, '$');
    FormatFree(p.time, '$');
    FormatFree(p.threads, '$');
  }

  lemma PartsBack(h: Hash)
    ensures Split(Encode(h), '$') == ["", "argon2id", "v=" + FormatNat(ARGON_VERSION), Settings(h.params),
                                      B.Encode(B.Std, h.salt), B.Encode(B.Std, h.key)]
  {
    FormatFree(ARGON_VERSION, '$');
    SettingsFree(h.params);
    B.EncodeFree(B.Std, h.salt, '$');
    B.EncodeFree(B.Std, h.key, '$');
    SplitJoin(["", "argon2id", "v=" + FormatNat(ARGON_VERSION), Settings(h.params),
               B.Encode(B.Std, h.salt), B.Encode(B.Std, h.key)], '$');
  }

  /** Decoding an encoded hash gives back its parameters, salt and key exactly when the parameters are valid
      and record the real lengths of the salt and the key.
   */
  lemma DecodeEncode(h: Hash)
    ensures Decode(Encode(h)) == Ok(h) <==> Describes(h)
  {
    PartsBack(h);
    VersionScan(ARGON_VERSION);
    SettingsScan(h.params);
    B.RoundTrip(B.Std, h.salt);
    B.RoundTrip(B.Std, h.key);
  }

  /** A hash minted under valid parameters needs replacing exactly when they are weaker in some dimension. */
  lemma RehashIffWeaker(h: Hash, want: Params)
    requires Describes(h)
    ensures NeedsRehash(Encode(h), want) <==> WeakerThan(h.params, want)
    ensures !NeedsRehash(Encode(h), h.params)
  {
    DecodeEncode(h);
  }

  // ---------- every text that decodes ----------

  /** White space that a scan passes over: any but a line feed. */
  ghost predicate Padding(pad: string) {
    forall i | 0 <= i < |pad| :: IsSpace(pad[i]) && pad[i] != '\n'
  }

  ghost predicate Number(digits: string, v: nat, rest: string) {
    |digits| > 0 && AllDigits(digits) && DigitsValue(digits) == v && (|rest| > 0 ==> !IsDigit(rest[0]))
  }

  /** The text opens with padding and all the digits of v, and goes on with rest. */
  ghost predicate NumberText(s: string, v: nat, rest: string) {
    exists pad, digits :: Padding(pad) && Number(digits, v, rest) && s == pad + (digits + rest)
  }

  lemma {:induction false} SkipPadding(pad: string, t: string)
    requires Padding(pad) && |t| > 0 && !IsSpace(t[0])
    ensures SkipSpace(pad + t) == Some(t)
  {
    if |pad| > 0 {
      assert (pad + t)[1..] == pad[1..] + t;
      SkipPadding(pad[1..], t);
    } else {
      assert pad + t == t;
    }
  }

  lemma {:induction false} Skipped(s: string) returns (pad: string)
    requires SkipSpace(s).Some?
    ensures Padding(pad) && s == pad + SkipSpace(s).value
  {
    pad := "";
    if |s| > 0 && IsSpace(s[0]) {
      var more := Skipped(s[1..]);
      pad := [s[0]] + more;
      assert s == [s[0]] + s[1..];
    }
  }

  lemma DigitsScan(digits: string, v: nat, rest: string, bound: nat)
    requires Number(digits, v, rest)
    ensures ScanDigits(digits + rest, bound) == if v < bound then Some((v, rest)) else None
  {
    DigitRunIs(digits, rest);
    assert (digits + rest)[..|digits|] == digits && (digits + rest)[|digits|..] == rest;
  }

  lemma ScannedDigits(s: string, bound: nat)
    requires ScanDigits(s, bound).Some?
    ensures var (v, rest) := ScanDigits(s, bound).value;
            v < bound && s == s[..DigitRun(s)] + rest && Number(s[..DigitRun(s)], v, rest)
  {
    assert s == s[..DigitRun(s)] + s[DigitRun(s)..];
  }

  lemma ScanUintIs(s: string, bound: nat, v: nat, rest: string)
    ensures ScanUint(s, bound) == Some((v, rest)) <==> v < bound && NumberText(s, v, rest)
  {
    if ScanUint(s, bound) == Some((v, rest)) {
      var pad := Skipped(s);
      ScannedDigits(SkipSpace(s).value, bound);
    }
    if v < bound && NumberText(s, v, rest) {
      var pad, digits :| Padding(pad) && Number(digits, v, rest) && s == pad + (digits + rest);
      SkipPadding(pad, digits + rest);
      DigitsScan(digits, v, rest, bound);
    }
  }

  lemma ScanFieldIs(s: string, piece: string, bound: nat, v: nat, rest: string)
    ensures ScanField(s, piece, bound) == Some((v, rest))
        <==> v < bound && piece <= s && NumberText(s[|piece|..], v, rest)
  {
    if piece <= s {
      ScanUintIs(s[|piece|..], bound, v, rest);
    }
  }

  /** The three costs in their order, whatever follows the last of them. */
  ghost predicate SettingsText(s: string, memory: nat, time: nat, threads: nat) {
    exists afterMemory, afterTime, rest ::
      CostText(s, "m=", memory, afterMemory) && CostText(afterMemory, ",t=", time, afterTime)
      && CostText(afterTime, ",p=", threads, rest)
  }

  ghost predicate CostText(s: string, piece: string, v: nat, rest: string) {
    piece <= s && NumberText(s[|piece|..], v, rest)
  }

  lemma ScanSettingsIs(s: string, memory: Uint32, time: Uint32, threads: Uint8)
    ensures ScanSettings(s) == Some((memory, time, threads)) <==> SettingsText(s, memory, time, threads)
  {
    if ScanSettings(s) == Some((memory, time, threads)) {
      var s1 := ScanField(s, "m=", 0x1_0000_0000).value.1;
      var s2 := ScanField(s1, ",t=", 0x1_0000_0000).value.1;
      var s3 := ScanField(s2, ",p=", 0x100).value.1;
      ScanFieldIs(s, "m=", 0x1_0000_0000, memory, s1);
      ScanFieldIs(s1, ",t=", 0x1_0000_0000, time, s2);
      ScanFieldIs(s2, ",p=", 0x100, threads, s3);
      assert CostText(s, "m=", memory, s1) && CostText(s1, ",t=", time, s2) && CostText(s2, ",p=", threads, s3);
    }
    if SettingsText(s, memory, time, threads) {
      var s1, s2, s3 :| CostText(s, "m=", memory, s1) && CostText(s1, ",t=", time, s2)
                        && CostText(s2, ",p=", threads, s3);
      ScanFieldIs(s, "m=", 0x1_0000_0000, memory, s1);
      ScanFieldIs(s1, ",t=", 0x1_0000_0000, time, s2);
      ScanFieldIs(s2, ",p=", 0x100, threads, s3);
    }
  }

  /** Version nineteen: padding, at most a plus sign, digits of that value, and whatever follows them. */
  ghost predicate VersionText(s: string) {
    "v=" <= s && exists pad, digits, rest :: VersionDigits(s[2..], pad, digits, rest)
  }

  ghost predicate VersionDigits(s: string, pad: string, digits: string, rest: string) {
    && Padding(pad) && Number(digits, 19, rest)
    && (s == pad + (digits + rest) || s == pad + ("+" + (digits + rest)))
  }

  lemma PlainInt(pad: string, digits: string, rest: string)
    requires Padding(pad) && Number(digits, 19, rest)
    ensures ScanInt(pad + (digits + rest)) == Some((19, rest))
  {
    SkipPadding(pad, digits + rest);
    DigitsScan(digits, 19, rest, 0x8000_0000_0000_0000);
    assert IsDigit((digits + rest)[0]);
  }

  lemma PlusInt(pad: string, digits: string, rest: string)
    requires Padding(pad) && Number(digits, 19, rest)
    ensures ScanInt(pad + ("+" + (digits + rest))) == Some((19, rest))
  {
    SkipPadding(pad, "+" + (digits + rest));
    DigitsScan(digits, 19, rest, 0x8000_0000_0000_0000);
    assert ("+" + (digits + rest))[1..] == digits + rest;
  }

  lemma ScannedInt(t: string)
    requires ScanInt(t).Some? && ScanInt(t).value.0 == 19
    ensures exists pad, digits, rest :: VersionDigits(t, pad, digits, rest)
  {
    var pad := Skipped(t);
    var u := SkipSpace(t).value;
    if |u| > 0 && (u[0] == '-' || u[0] == '+') {
      var bound := if u[0] == '-' then 0x8000_0000_0000_0001 else 0x8000_0000_0000_0000;
      ScannedDigits(u[1..], bound);
      assert u == [u[0]] + u[1..];
      assert VersionDigits(t, pad, u[1..][..DigitRun(u[1..])], ScanDigits(u[1..], bound).value.1);
    } else {
      ScannedDigits(u, 0x8000_0000_0000_0000);
      assert VersionDigits(t, pad, u[..DigitRun(u)], ScanInt(t).value.1);
    }
  }

  lemma ScanIntIs(t: string)
    ensures (ScanInt(t).Some? && ScanInt(t).value.0 == 19) <==>
              exists pad, digits, rest :: VersionDigits(t, pad, digits, rest)
  {
    if ScanInt(t).Some? && ScanInt(t).value.0 == 19 {
      ScannedInt(t);
    }
    if pad, digits, rest :| VersionDigits(t, pad, digits, rest) {
      PlainInt(pad, digits, rest);
      PlusInt(pad, digits, rest);
    }
  }

  lemma VersionOf(s: string)
    ensures ScanVersion(s) == Some(19) <==> "v=" <= s && ScanInt(s[2..]).Some? && ScanInt(s[2..]).value.0 == 19
  {
  }

  lemma ScanVersionIs(s: string)
    ensures ScanVersion(s) == Some(19) <==> VersionText(s)
  {
    VersionOf(s);
    if "v=" <= s {
      ScanIntIs(s[2..]);
    }
  }

  /** The text of a hash, field by field. */
  ghost predicate HashText(encoded: string, h: Hash) {
    var parts := Split(encoded, '$');
    && |parts| == 6 && parts[0] == "" && parts[1] == "argon2id" && VersionText(parts[2])
    && SettingsText(parts[3], h.params.memory, h.params.time, h.params.threads)
    && B.Decode(B.Std, parts[4]) == Some(h.salt) && B.Decode(B.Std, parts[5]) == Some(h.key)
  }

  /** A text decodes to a hash if and only if it spells the hash field by field and the parameters describe
      it; and what does not decode is told apart as another layout, another algorithm or another version.
   */
  lemma DecodeIff(encoded: string, h: Hash)
    ensures Decode(encoded) == Ok(h) <==> HashText(encoded, h) && Describes(h)
    ensures var parts := Split(encoded, '$');
            var laidOut := |parts| == 6 && parts[0] == "";
            && (Decode(encoded) == Err(Algorithm) <==> laidOut && parts[1] != "argon2id")
            && (Decode(encoded) == Err(Version) <==> laidOut && parts[1] == "argon2id" && !VersionText(parts[2]))
  {
    var parts := Split(encoded, '$');
    if |parts| == 6 {
      ScanVersionIs(parts[2]);
      ScanSettingsIs(parts[3], h.params.memory, h.params.time, h.params.threads);
    }
  }

  // ---------- numbers and texts ----------

  /** What makes parameters usable, and describe a salt and a key. */
  lemma DescribesIff(h: Hash)
    ensures Describes(h) <==>
              && h.params.memory >= 8 && h.params.time >= 1 && h.params.threads >= 1
              && 8 <= h.params.saltLength <= 1024 && 16 <= h.params.keyLength <= 1024
              && h.params.saltLength == |h.salt| && h.params.keyLength == |h.key|
  {
  }

  /** A hash minted under usable parameters is replaced exactly when the policy asks for more of something. */
  lemma ReplacedIff(h: Hash, want: Params)
    requires Describes(h)
    ensures NeedsRehash(Encode(h), want) <==>
              || want.memory > h.params.memory || want.time > h.params.time || want.threads > h.params.threads
              || want.saltLength > |h.salt| || want.keyLength > |h.key|
  {
    RehashIffWeaker(h, want);
  }

  lemma UnreadableReplaced(encoded: string, want: Params)
    requires Decode(encoded).Err?
    ensures NeedsRehash(encoded, want)
  {
  }

  /** The text of a hash. */
  lemma EncodeIs(h: Hash)
    ensures Encode(h) == "$argon2id$v=19$m=" + FormatNat(h.params.memory) + ",t=" + FormatNat(h.params.time) + ",p="
                         + FormatNat(h.params.threads) + "$" + B.Encode(B.Std, h.salt) + "$" + B.Encode(B.Std, h.key)
  {
    var v, s := "v=" + FormatNat(ARGON_VERSION), Settings(h.params);
    var x, y := B.Encode(B.Std, h.salt), B.Encode(B.Std, h.key);
    Nineteen();
    SixJoined(v, s, x, y);
    Spelled(FormatNat(h.params.memory), FormatNat(h.params.time), FormatNat(h.params.threads), x, y);
  }

  lemma Nineteen()
    ensures FormatNat(19) == "19"
  {
    assert FormatNat(1) == "1";
  }

  lemma SixJoined(v: string, s: string, x: string, y: string)
    ensures Join(["", "argon2id", v, s, x, y], '$') == "$argon2id$" + (v + ("$" + (s + ("$" + (x + ("$" + y))))))
  {
    var name := "argon2id";
    FourJoined(v, s, x, y);
    JoinStep(name, [v, s, x, y], '$');
    JoinStep("", [name, v, s, x, y], '$');
    assert [name] + [v, s, x, y] == [name, v, s, x, y];
    assert [""] + [name, v, s, x, y] == ["", name, v, s, x, y];
    assert "$argon2id$" == "$" + name + "$";
    Associative("$" + name, "$", Join([v, s, x, y], '$'));
    Associative("$", name, "$" + Join([v, s, x, y], '$'));
  }

  lemma FourJoined(v: string, s: string, x: string, y: string)
    ensures Join([v, s, x, y], '$') == v + ("$" + (s + ("$" + (x + ("$" + y)))))
  {
    JoinStep(y, [], '$');
    JoinStep(x, [y], '$');
    JoinStep(s, [x, y], '$');
    JoinStep(v, [s, x, y], '$');
    assert [y] + [] == [y] && [x] + [y] == [x, y];
    assert [s] + [x, y] == [s, x, y] && [v] + [s, x, y] == [v, s, x, y];
  }

  lemma Spelled(m: string, t: string, p: string, x: string, y: string)
    ensures "$argon2id$" + ("v=19" + ("$" + ("m=" + m + ",t=" + t + ",p=" + p + ("$" + (x + ("$" + y))))))
         == "$argon2id$v=19$m=" + m + ",t=" + t + ",p=" + p + "$" + x + "$" + y
  {
  }
}
