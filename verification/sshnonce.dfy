/** Signed sign-in challenges. Times are nanoseconds since the Unix epoch. */
module SshNonce {
  import opened Text
  import opened Decimal
  import opened Signed
  import opened Times
  import B = Base64

  const NONCE_TTL: int := 2 * 60 * SECOND
  const LABEL: string := "tix-ssh-login-nonce"

  datatype Nonce = Nonce(tenantId: Bytes, audience: Bytes, issuedAt: int, expiresAt: int)

  datatype Failure = Incomplete | NotValid | Expired

  /** The payload's fields, the issue time in microseconds as 64 bits hold it. */
  function Fields(n: Nonce, random: Bytes): (f: seq<string>)
    ensures |f| == 4 && forall p | p in f :: IsBytes(p)
  {
    FormatBytes(Wrap64(n.issuedAt / MICROSECOND));
    EncodedBytes(random);
    [n.tenantId, n.audience, FormatInt(Wrap64(n.issuedAt / MICROSECOND)), B.Encode(B.Url, random)]
  }

  function Payload(n: Nonce, random: Bytes): Bytes {
    JoinBytes(Fields(n, random), SEPARATOR);
    Join(Fields(n, random), SEPARATOR)
  }

  /** The challenge as it is signed: the issue time cut to whole microseconds, and the expiry two minutes on. */
  function Stamped(n: Nonce): (r: Nonce)
    ensures r.tenantId == n.tenantId && r.audience == n.audience
    ensures r.issuedAt % 1000 == 0 && r.issuedAt <= n.issuedAt < r.issuedAt + 1000
    ensures r.issuedAt == n.issuedAt / MICROSECOND * MICROSECOND && r.issuedAt / MICROSECOND == n.issuedAt / MICROSECOND
    ensures r.expiresAt == r.issuedAt + 120_000_000_000
  {
    var issued := n.issuedAt / MICROSECOND * MICROSECOND;
    n.(issuedAt := issued, expiresAt := issued + NONCE_TTL)
  }

  /** Signs a challenge and reports it as signed; random is the sixteen random bytes drawn. */
  function Mint(hmac: Hmac, key: Bytes, n: Nonce, random: Bytes): Result<(string, Nonce), Failure> {
    if |n.tenantId| == 0 || |n.audience| == 0 then Err(Incomplete)
    else Ok((Sign(hmac, key, LABEL, Payload(Stamped(n), random)), Stamped(n)))
  }

  function Parse(hmac: Hmac, key: Bytes, nonce: string, now: int): Result<Nonce, Failure> {
    match Open(hmac, key, LABEL, TrimSpace(nonce))
    case None => Err(NotValid)
    case Some(raw) => ParsePayload(raw, now)
  }

  function ParsePayload(raw: Bytes, now: int): Result<Nonce, Failure> {
    var parts := Split(raw, SEPARATOR);
    SplitBytes(raw, SEPARATOR);
    if |parts| != 4 then Err(NotValid)
    else
      match ParseInt64(parts[2])
      case None => Err(NotValid)
      case Some(micros) =>
        assert IsBytes(parts[0]) && IsBytes(parts[1]);
        var issued := micros * MICROSECOND;
        if issued + NONCE_TTL <= now then Err(Expired)
        else Ok(Nonce(parts[0], parts[1], issued, issued + NONCE_TTL))
  }

  lemma FieldsFree(n: Nonce, random: Bytes)
    ensures AllFree(Fields(n, random), SEPARATOR)
        <==> Free(n.tenantId, SEPARATOR) && Free(n.audience, SEPARATOR)
  {
    var f := Fields(n, random);
    FormatFree(Wrap64(n.issuedAt / MICROSECOND), SEPARATOR);
    B.EncodeFree(B.Url, random, SEPARATOR);
    assert forall p :: p in f <==> p == f[0] || p == f[1] || p == f[2] || p == f[3];
    assert f[0] in f && f[1] in f;
  }

  /** What a signed challenge reads back as. */
  ghost function ReadBack(n: Nonce, now: int): Result<Nonce, Failure> {
    var issued := Wrap64(n.issuedAt / MICROSECOND) * MICROSECOND;
    if !Free(n.tenantId, SEPARATOR) || !Free(n.audience, SEPARATOR) then Err(NotValid)
    else if issued + NONCE_TTL <= now then Err(Expired)
    else Ok(Nonce(n.tenantId, n.audience, issued, issued + NONCE_TTL))
  }

  lemma PayloadParsed(n: Nonce, random: Bytes, now: int)
    ensures ParsePayload(Payload(n, random), now) == ReadBack(n, now)
  {
    FieldsFree(n, random);
    FieldsBack(Fields(n, random));
    ParseFormat(Wrap64(n.issuedAt / MICROSECOND));
  }

  lemma MintParsed(hmac: Hmac, key: Bytes, n: Nonce, random: Bytes, now: int)
    requires Mint(hmac, key, n, random).Ok?
    ensures Mint(hmac, key, n, random).value.1 == Stamped(n)
    ensures Parse(hmac, key, Mint(hmac, key, n, random).value.0, now) == ReadBack(Stamped(n), now)
  {
    var payload := Payload(Stamped(n), random);
    assert |payload| > 0;
    OpenSign(hmac, key, LABEL, payload);
    PayloadParsed(Stamped(n), random, now);
  }

  /** The answer to parsing, at now, the challenge minted from n and reported as given. */
  ghost predicate ReadsBack(n: Nonce, reported: Nonce, answer: Result<Nonce, Failure>, now: int) {
    var readable := Free(n.tenantId, SEPARATOR) && Free(n.audience, SEPARATOR);
    var fits := -0x8000_0000_0000_0000 <= n.issuedAt / 1000 < 0x8000_0000_0000_0000;
    && (answer == Ok(reported) <==> readable && fits && now < reported.expiresAt)
    && (!readable ==> answer == Err(NotValid))
    && (readable && fits && now >= reported.expiresAt ==> answer == Err(Expired))
  }

  lemma ReadBackIs(n: Nonce, now: int)
    ensures ReadsBack(n, Stamped(n), ReadBack(Stamped(n), now), now)
  {
  }

  /** Parsing a minted challenge returns exactly what Mint reported if and only if neither field holds the
      separator, the issue time fits 64 bits of microseconds, and the challenge has not expired. A separator
      in a field makes it unreadable, and otherwise an old challenge is reported as expired.
   */
  lemma ParseMint(hmac: Hmac, key: Bytes, n: Nonce, random: Bytes, now: int)
    requires Mint(hmac, key, n, random).Ok?
    ensures var (text, reported) := Mint(hmac, key, n, random).value;
            ReadsBack(n, reported, Parse(hmac, key, text, now), now)
  {
    ReadBackIs(n, now);
    MintParsed(hmac, key, n, random, now);
  }

  /** A challenge for the tenant "a|b" is signed, and cannot be read back even by the server that signed it. */
  lemma SeparatorUnreadable(hmac: Hmac, key: Bytes, random: Bytes)
    ensures var n := Nonce("a|b", "h", 0, 0);
            && Mint(hmac, key, n, random).Ok?
            && Parse(hmac, key, Mint(hmac, key, n, random).value.0, 0) == Err(NotValid)
  {
    var n := Nonce("a|b", "h", 0, 0);
    assert n.tenantId[1] == SEPARATOR;
    ParseMint(hmac, key, n, random, 0);
  }

  const LATE: int := 0x8000_0000_0000_0000 * MICROSECOND

  lemma LateIsExpired(n: Nonce)
    requires n.issuedAt == LATE && Free(n.tenantId, SEPARATOR) && Free(n.audience, SEPARATOR)
    ensures ReadBack(n, LATE) == Err(Expired)
  {
    assert n.issuedAt / MICROSECOND == 0x8000_0000_0000_0000;
  }

  lemma LateStamped(n: Nonce)
    requires n.issuedAt == LATE
    ensures Stamped(n).issuedAt == LATE
  {
  }

  /** A challenge issued 2^63 microseconds after the epoch: the time wraps, and so it has expired when it is read
      back at that very moment.
   */
  lemma LateIssueWraps(hmac: Hmac, key: Bytes, random: Bytes)
    ensures var n := Nonce("t", "h", LATE, 0);
            && Mint(hmac, key, n, random).Ok?
            && Parse(hmac, key, Mint(hmac, key, n, random).value.0, LATE) == Err(Expired)
  {
    var n := Nonce("t", "h", LATE, 0);
    LateStamped(n);
    LateIsExpired(Stamped(n));
    MintParsed(hmac, key, n, random, LATE);
  }

  /** A challenge is minted exactly when it names a tenant and an audience, and is then reported as stamped. */
  lemma MintIff(hmac: Hmac, key: Bytes, n: Nonce, random: Bytes)
    ensures Mint(hmac, key, n, random).Ok? <==> n.tenantId != "" && n.audience != ""
    ensures Mint(hmac, key, n, random).Err? ==> Mint(hmac, key, n, random) == Err(Incomplete)
    ensures Mint(hmac, key, n, random).Ok? ==>
              var reported := Mint(hmac, key, n, random).value.1;
              && reported.tenantId == n.tenantId && reported.audience == n.audience
              && reported.issuedAt == n.issuedAt - n.issuedAt % 1000
              && reported.expiresAt == reported.issuedAt + 120_000_000_000
  {
  }

  /** What is signed: tenant, audience, microseconds and random bytes, in this order, under the label. */
  lemma MintLayout(hmac: Hmac, key: Bytes, n: Nonce, random: Bytes)
    requires Mint(hmac, key, n, random).Ok?
    ensures var payload := n.tenantId + "|" + n.audience + "|" + FormatInt(Wrap64(n.issuedAt / 1000)) + "|"
                           + B.Encode(B.Url, random);
            && IsBytes(payload)
            && Mint(hmac, key, n, random).value.0 == Sign(hmac, key, "tix-ssh-login-nonce", payload)
  {
    PayloadIs(Stamped(n), random);
  }

  lemma PayloadIs(n: Nonce, random: Bytes)
    ensures Payload(n, random) == n.tenantId + "|" + n.audience + "|" + FormatInt(Wrap64(n.issuedAt / 1000)) + "|"
                                  + B.Encode(B.Url, random)
  {
    JoinFour(n.tenantId, n.audience, FormatInt(Wrap64(n.issuedAt / 1000)), B.Encode(B.Url, random));
  }

  lemma JoinFour(a: string, b: string, c: string, d: string)
    ensures Join([a, b, c, d], SEPARATOR) == a + "|" + b + "|" + c + "|" + d
  {
    assert [a, b, c, d][1..] == [b, c, d] && [b, c, d][1..] == [c, d] && [c, d][1..] == [d];
    assert Join([c, d], SEPARATOR) == c + "|" + d;
    assert Join([b, c, d], SEPARATOR) == b + "|" + (c + "|" + d);
    assert a + "|" + (b + "|" + (c + "|" + d)) == a + "|" + b + "|" + c + "|" + d;
  }

  /** White space around a challenge, as pasting leaves it, does not matter. */
  lemma PaddedParse(hmac: Hmac, key: Bytes, front: string, text: string, back: string, now: int)
    requires AllSpace(front) && AllSpace(back) && Trimmed(text)
    ensures Parse(hmac, key, front + text + back, now) == Parse(hmac, key, text, now)
  {
    TrimPadded(front, text, back);
    TrimmedIsFixed(text);
  }
}
