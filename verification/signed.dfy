/** The form shared by sign-in challenges and tickets: the base64url payload, a dot, and the base64url
    signature of that body under a label naming its purpose.
 */
module Signed {
  import opened Text
  import opened Decimal
  import B = Base64

  const SEPARATOR: Byte := '|'

  /** The output of HMAC-SHA256. */
  type Digest = d: Bytes | |d| == 32 witness seq(32, _ => '\0')

  /** HMAC-SHA256 as a function of the key and the message. */
  type Hmac = (Bytes, string) -> Digest

  /** The MAC of a body behind the constant text that names its purpose. */
  function Mac(hmac: Hmac, key: Bytes, purpose: string, body: string): Digest {
    hmac(key, purpose + body)
  }

  function Sign(hmac: Hmac, key: Bytes, purpose: string, payload: Bytes): string {
    var body := B.Encode(B.Url, payload);
    body + ['.'] + B.Encode(B.Url, Mac(hmac, key, purpose, body))
  }

  /** The payload of a text whose signature is right. */
  function Open(hmac: Hmac, key: Bytes, purpose: string, text: string): Option<Bytes> {
    match Cut(text, '.')
    case None => None
    case Some((body, sig)) =>
      if B.Decode(B.Url, sig) != Some(Mac(hmac, key, purpose, body)) then None else B.Decode(B.Url, body)
  }

  lemma SignedText(body: string, sig: string)
    requires |body| > 0 && |sig| > 0
    requires B.AllAlphabetic(body) && B.AllAlphabetic(sig)
    ensures TrimSpace(body + ['.'] + sig) == body + ['.'] + sig
    ensures Cut(body + ['.'] + sig, '.') == Some((body, sig))
  {
    var text := body + ['.'] + sig;
    assert text[0] == body[0] && text[|text| - 1] == sig[|sig| - 1];
    assert B.IsAlphabetic(body[0]) && B.IsAlphabetic(sig[|sig| - 1]);
    TrimmedIsFixed(text);
    forall i | 0 <= i < |body|
      ensures body[i] != '.'
    {
      assert B.IsAlphabetic(body[i]);
    }
    CutAt(body, sig, '.');
  }

  /** The text that carries a payload beside a digest. */
  function Carried(payload: Bytes, digest: Digest): string {
    B.Encode(B.Url, payload) + ['.'] + B.Encode(B.Url, digest)
  }

  /** A payload carried beside any digest opens, to that payload, exactly when the digest is the one this key
      and purpose give its body; one minted under another key, for another purpose or for another payload
      does not open unless the MAC collides.
   */
  lemma OpenCarried(hmac: Hmac, key: Bytes, purpose: string, payload: Bytes, digest: Digest)
    requires |payload| > 0
    ensures Open(hmac, key, purpose, Carried(payload, digest)) ==
            if digest == Mac(hmac, key, purpose, B.Encode(B.Url, payload)) then Some(payload) else None
    ensures TrimSpace(Carried(payload, digest)) == Carried(payload, digest)
  {
    SignedText(B.Encode(B.Url, payload), B.Encode(B.Url, digest));
    B.RoundTrip(B.Url, digest);
    B.RoundTrip(B.Url, payload);
  }

  /** Opening a signed payload gives it back, and trimming a signed text changes nothing. */
  lemma OpenSign(hmac: Hmac, key: Bytes, purpose: string, payload: Bytes)
    requires |payload| > 0
    ensures Open(hmac, key, purpose, Sign(hmac, key, purpose, payload)) == Some(payload)
    ensures TrimSpace(Sign(hmac, key, purpose, payload)) == Sign(hmac, key, purpose, payload)
  {
    OpenCarried(hmac, key, purpose, payload, Mac(hmac, key, purpose, B.Encode(B.Url, payload)));
  }

  lemma FormatBytes(n: int)
    ensures IsBytes(FormatInt(n))
  {
    var s := FormatInt(n);
    assert forall i | 0 <= i < |s| :: s[i] == '-' || IsDigit(s[i]);
  }

  lemma EncodedBytes(data: Bytes)
    ensures IsBytes(B.Encode(B.Url, data))
  {
    var s := B.Encode(B.Url, data);
    assert forall i | 0 <= i < |s| :: B.IsAlphabetic(s[i]);
  }

  /** Splitting joined fields gives them back when all of them are free of the separator, and otherwise
      gives more pieces than there were fields.
   */
  lemma FieldsBack(fields: seq<string>)
    requires |fields| > 0
    ensures AllFree(fields, SEPARATOR) ==> Split(Join(fields, SEPARATOR), SEPARATOR) == fields
    ensures !AllFree(fields, SEPARATOR) ==> |Split(Join(fields, SEPARATOR), SEPARATOR)| > |fields|
  {
    SplitJoinCount(fields, SEPARATOR);
    if AllFree(fields, SEPARATOR) {
      SplitJoin(fields, SEPARATOR);
    }
  }

  /** A signed text is the payload and the MAC of its encoding under the purpose, with one dot between them. */
  lemma SignIs(hmac: Hmac, key: Bytes, purpose: string, payload: Bytes)
    requires |payload| > 0
    ensures var body := B.Encode(B.Url, payload);
            && Cut(Sign(hmac, key, purpose, payload), '.') == Some((body, B.Encode(B.Url, hmac(key, purpose + body))))
            && B.Decode(B.Url, body) == Some(payload)
  {
    var body := B.Encode(B.Url, payload);
    SignedText(body, B.Encode(B.Url, Mac(hmac, key, purpose, body)));
    B.RoundTrip(B.Url, payload);
  }

  /** What was signed for one purpose does not open for another unless the two MACs collide. */
  lemma OtherPurpose(hmac: Hmac, key: Bytes, purpose: string, other: string, payload: Bytes)
    requires |payload| > 0
    ensures var body := B.Encode(B.Url, payload);
            Open(hmac, key, other, Sign(hmac, key, purpose, payload)) ==
            if hmac(key, purpose + body) == hmac(key, other + body) then Some(payload) else None
  {
    OpenCarried(hmac, key, other, payload, Mac(hmac, key, purpose, B.Encode(B.Url, payload)));
  }

  /** The text is a body and a signature around its first dot; they decode to the payload and to its MAC. */
  ghost predicate SignedAs(hmac: Hmac, key: Bytes, purpose: string, text: string, payload: Bytes, body: string,
                           sig: string) {
    && text == body + ['.'] + sig && Free(body, '.')
    && B.Decode(B.Url, sig) == Some(hmac(key, purpose + body)) && B.Decode(B.Url, body) == Some(payload)
  }

  /** Exactly such texts open to a payload. */
  lemma OpenIff(hmac: Hmac, key: Bytes, purpose: string, text: string, payload: Bytes)
    ensures Open(hmac, key, purpose, text) == Some(payload) <==>
              exists body, sig :: SignedAs(hmac, key, purpose, text, payload, body, sig)
  {
    CutSound(text, '.');
    if Open(hmac, key, purpose, text) == Some(payload) {
      var (body, sig) := Cut(text, '.').value;
      assert SignedAs(hmac, key, purpose, text, payload, body, sig);
    }
    if body, sig :| SignedAs(hmac, key, purpose, text, payload, body, sig) {
      CutAt(body, sig, '.');
    }
  }
}
