/** The signed ticket that carries the first step of a sign-in into the second. Times are nanoseconds
    since the Unix epoch.
 */
module Ticket {
  import opened Text
  import opened Decimal
  import opened Signed
  import opened Times

  const LABEL: string := "tix-login-ticket"

  datatype Ticket = Ticket(userId: Bytes, tenantId: Bytes, surface: Bytes, expiresAt: int, via: Bytes)

  datatype Failure = NoKey | NoUser | NoTenant | UnknownSurface | NotValid

  predicate Surface(s: string) {
    s == "web" || s == "cli" || s == "ssh"
  }

  /** The payload's fields, the expiry in whole seconds as 64 bits hold it. */
  function Fields(t: Ticket): (f: seq<string>)
    ensures |f| == 5 && forall p | p in f :: IsBytes(p)
  {
    FormatBytes(Wrap64(t.expiresAt / SECOND));
    [t.userId, t.tenantId, t.surface, FormatInt(Wrap64(t.expiresAt / SECOND)), t.via]
  }

  function Payload(t: Ticket): Bytes {
    JoinBytes(Fields(t), SEPARATOR);
    Join(Fields(t), SEPARATOR)
  }

  /** Signs a ticket; key is None when the configured key cannot be read. */
  function Mint(hmac: Hmac, key: Option<Bytes>, t: Ticket): Result<string, Failure> {
    if key.None? then Err(NoKey)
    else if |t.userId| == 0 then Err(NoUser)
    else if |t.tenantId| == 0 then Err(NoTenant)
    else if !Surface(t.surface) then Err(UnknownSurface)
    else Ok(Sign(hmac, key.value, LABEL, Payload(t)))
  }

  function Parse(hmac: Hmac, key: Option<Bytes>, ticket: string, now: int): Result<Ticket, Failure> {
    if key.None? then Err(NoKey)
    else
      match Open(hmac, key.value, LABEL, ticket)
      case None => Err(NotValid)
      case Some(raw) => ParsePayload(raw, now)
  }

  function ParsePayload(raw: Bytes, now: int): Result<Ticket, Failure> {
    var parts := Split(raw, SEPARATOR);
    SplitBytes(raw, SEPARATOR);
    if |parts| != 4 && |parts| != 5 then Err(NotValid)
    else
      match ParseInt64(parts[3])
      case None => Err(NotValid)
      case Some(unix) =>
        assert forall i | 0 <= i < |parts| :: parts[i] in parts && IsBytes(parts[i]);
        var t := Ticket(parts[0], parts[1], parts[2], unix * SECOND, if |parts| == 5 then parts[4] else "");
        if !Surface(t.surface) || t.expiresAt <= now then Err(NotValid) else Ok(t)
  }

  ghost predicate Readable(t: Ticket) {
    Free(t.userId, SEPARATOR) && Free(t.tenantId, SEPARATOR) && Free(t.via, SEPARATOR)
  }

  lemma FieldsFree(t: Ticket)
    requires Surface(t.surface)
    ensures AllFree(Fields(t), SEPARATOR) <==> Readable(t)
  {
    var f := Fields(t);
    FormatFree(Wrap64(t.expiresAt / SECOND), SEPARATOR);
    assert Free(t.surface, SEPARATOR);
    assert forall p :: p in f <==> p == f[0] || p == f[1] || p == f[2] || p == f[3] || p == f[4];
    assert f[0] in f && f[1] in f && f[4] in f;
  }

  /** What a signed ticket reads back as. */
  ghost function ReadBack(t: Ticket, now: int): Result<Ticket, Failure> {
    var expires := Wrap64(t.expiresAt / SECOND) * SECOND;
    if !Readable(t) || expires <= now then Err(NotValid) else Ok(t.(expiresAt := expires))
  }

  lemma PayloadParsed(t: Ticket, now: int)
    requires Surface(t.surface)
    ensures ParsePayload(Payload(t), now) == ReadBack(t, now)
  {
    FieldsFree(t);
    FieldsBack(Fields(t));
    ParseFormat(Wrap64(t.expiresAt / SECOND));
  }

  lemma MintParsed(hmac: Hmac, key: Option<Bytes>, t: Ticket, now: int)
    requires Mint(hmac, key, t).Ok?
    ensures Parse(hmac, key, Mint(hmac, key, t).value, now) == ReadBack(t, now)
  {
    assert |Payload(t)| > 0;
    OpenSign(hmac, key.value, LABEL, Payload(t));
    PayloadParsed(t, now);
  }

  lemma Cut(n: int)
    ensures var fits := -0x8000_0000_0000_0000 <= n / 1_000_000_000 < 0x8000_0000_0000_0000;
            Wrap64(n / SECOND) * SECOND == n - n % 1_000_000_000 <==> fits
  {
    assert n == n / 1_000_000_000 * 1_000_000_000 + n % 1_000_000_000;
  }

  lemma ReadBackIs(t: Ticket, now: int)
    ensures var cut := t.(expiresAt := t.expiresAt - t.expiresAt % 1_000_000_000);
            var fits := -0x8000_0000_0000_0000 <= t.expiresAt / 1_000_000_000 < 0x8000_0000_0000_0000;
            && (ReadBack(t, now) == Ok(cut) <==> Readable(t) && fits && now < cut.expiresAt)
            && (!Readable(t) ==> ReadBack(t, now) == Err(NotValid))
            && (fits && now >= cut.expiresAt ==> ReadBack(t, now) == Err(NotValid))
  {
    Cut(t.expiresAt);
  }

  /** Parsing a minted ticket returns it, its expiry cut to whole seconds, if and only if no free field holds
      the separator, the expiry fits 64 bits of seconds, and that cut expiry is still ahead. A separator or a
      passed expiry gives the one answer every bad ticket gives.
   */
  lemma ParseMint(hmac: Hmac, key: Option<Bytes>, t: Ticket, now: int)
    requires Mint(hmac, key, t).Ok?
    ensures var cut := t.(expiresAt := t.expiresAt - t.expiresAt % 1_000_000_000);
            var text := Mint(hmac, key, t).value;
            var fits := -0x8000_0000_0000_0000 <= t.expiresAt / 1_000_000_000 < 0x8000_0000_0000_0000;
            && (Parse(hmac, key, text, now) == Ok(cut) <==> Readable(t) && fits && now < cut.expiresAt)
            && (!Readable(t) ==> Parse(hmac, key, text, now) == Err(NotValid))
            && (fits && now >= cut.expiresAt ==> Parse(hmac, key, text, now) == Err(NotValid))
  {
    MintParsed(hmac, key, t, now);
    ReadBackIs(t, now);
  }

  /** A ticket for the user "a|b" that has an hour to run is signed, and is refused when it is read back. */
  lemma SeparatorUnreadable(hmac: Hmac, key: Bytes)
    ensures var t := Ticket("a|b", "t", "web", 3600 * SECOND, "");
            && Mint(hmac, Some(key), t).Ok?
            && Parse(hmac, Some(key), Mint(hmac, Some(key), t).value, 0) == Err(NotValid)
  {
    var t := Ticket("a|b", "t", "web", 3600 * SECOND, "");
    assert t.userId[1] == SEPARATOR;
    ParseMint(hmac, Some(key), t, 0);
  }

  /** A ticket is minted exactly when the key can be read and the ticket names a user, a tenant and one of the
      three surfaces; the first of these that is missing is the reason it is not.
   */
  lemma MintIff(hmac: Hmac, key: Option<Bytes>, t: Ticket)
    ensures Mint(hmac, key, t).Ok? <==>
              && key.Some? && t.userId != "" && t.tenantId != ""
              && (t.surface == "web" || t.surface == "cli" || t.surface == "ssh")
    ensures Mint(hmac, key, t).Err? ==>
              Mint(hmac, key, t).error == if key.None? then NoKey else if t.userId == "" then NoUser
                                          else if t.tenantId == "" then NoTenant else UnknownSurface
  {
  }

  /** What is signed: user, tenant, surface, seconds and the way, in this order, under the label. */
  lemma MintLayout(hmac: Hmac, key: Option<Bytes>, t: Ticket)
    requires Mint(hmac, key, t).Ok?
    ensures var payload := t.userId + "|" + t.tenantId + "|" + t.surface + "|"
                           + FormatInt(Wrap64(t.expiresAt / 1_000_000_000)) + "|" + t.via;
            && IsBytes(payload)
            && Mint(hmac, key, t).value == Sign(hmac, key.value, "tix-login-ticket", payload)
  {
    PayloadIs(t);
  }

  lemma PayloadIs(t: Ticket)
    ensures Payload(t) == t.userId + "|" + t.tenantId + "|" + t.surface + "|"
                          + FormatInt(Wrap64(t.expiresAt / 1_000_000_000)) + "|" + t.via
  {
    JoinFive(t.userId, t.tenantId, t.surface, FormatInt(Wrap64(t.expiresAt / 1_000_000_000)), t.via);
  }

  lemma JoinFive(a: string, b: string, c: string, d: string, e: string)
    ensures Join([a, b, c, d, e], SEPARATOR) == a + "|" + b + "|" + c + "|" + d + "|" + e
  {
    JoinStep(e, [], SEPARATOR);
    JoinStep(d, [e], SEPARATOR);
    JoinStep(c, [d, e], SEPARATOR);
    JoinStep(b, [c, d, e], SEPARATOR);
    JoinStep(a, [b, c, d, e], SEPARATOR);
    assert [d] + [e] == [d, e] && [c] + [d, e] == [c, d, e] && [b] + [c, d, e] == [b, c, d, e];
    assert [a] + [b, c, d, e] == [a, b, c, d, e] && [e] + [] == [e];
    FiveParts(a, b, c, d, e);
  }

  lemma FiveParts(a: string, b: string, c: string, d: string, e: string)
    ensures a + ("|" + (b + ("|" + (c + ("|" + (d + ("|" + e))))))) == a + "|" + b + "|" + c + "|" + d + "|" + e
  {
  }

  /** Whatever parses is signed, names a known surface, and is not over. */
  lemma ParsedIs(hmac: Hmac, key: Option<Bytes>, text: string, now: int)
    requires Parse(hmac, key, text, now).Ok?
    ensures var t := Parse(hmac, key, text, now).value;
            && key.Some? && Open(hmac, key.value, "tix-login-ticket", text).Some?
            && (t.surface == "web" || t.surface == "cli" || t.surface == "ssh") && now < t.expiresAt
  {
  }

  /** A payload of four fields, which has no way of signing in, reads with an empty one. */
  lemma FourFields(userId: Bytes, tenantId: Bytes, surface: Bytes, seconds: Decimal.Int64, now: int)
    requires Free(userId, '|') && Free(tenantId, '|') && Surface(surface) && now < seconds * 1_000_000_000
    ensures var raw := Join([userId, tenantId, surface, FormatInt(seconds)], '|');
            IsBytes(raw) && ParsePayload(raw, now) == Ok(Ticket(userId, tenantId, surface, seconds * 1_000_000_000, ""))
  {
    var f := [userId, tenantId, surface, FormatInt(seconds)];
    FormatBytes(seconds);
    JoinBytes(f, '|');
    FormatFree(seconds, '|');
    assert Free(surface, '|');
    SplitJoin(f, '|');
    ParseFormat(seconds);
  }
}
